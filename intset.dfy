/**
 * The packed sorted integer set (intset): a header holding the element
 * width (`encoding`, 2, 4 or 8 bytes) and the element count (`length`),
 * followed by a byte buffer that holds the elements as little-endian
 * two's-complement integers of that width, in strictly ascending order.
 */
module PackedIntSet {
  import opened LittleEndian

  /** INTSET_ENC_INT16, INTSET_ENC_INT32, INTSET_ENC_INT64: element widths in bytes. */
  const ENC_INT16: nat := 2
  const ENC_INT32: nat := 4
  const ENC_INT64: nat := 8

  /** sizeof(intset): the 32-bit encoding and the 32-bit length before the contents. */
  const HEADER_SIZE: nat := 8

  /** The values the set accepts (`int64_t`). */
  type Int64 = v: int | -0x8000_0000_0000_0000 <= v < 0x8000_0000_0000_0000

  predicate IsEncoding(enc: nat)
  {
    enc == ENC_INT16 || enc == ENC_INT32 || enc == ENC_INT64
  }

  ghost predicate StrictlyAscending(s: seq<int>)
  {
    forall i, j :: 0 <= i < j < |s| ==> s[i] < s[j]
  }

  ghost predicate AllFit(s: seq<int>, enc: nat)
  {
    forall i :: 0 <= i < |s| ==> Fits(s[i], enc)
  }

  /**
   * The narrowest encoding that represents `v` (_intsetValueEncoding): it
   * represents `v`, and no narrower encoding does.
   */
  function ValueEncoding(v: Int64): (enc: nat)
    ensures IsEncoding(enc) && Fits(v, enc)
    ensures forall e :: IsEncoding(e) && Fits(v, e) ==> enc <= e
  {
    Pow256Values();
    if v < -0x8000_0000 || v > 0x7fff_ffff then ENC_INT64
    else if v < -0x8000 || v > 0x7fff then ENC_INT32
    else ENC_INT16
  }

  /** The boundaries of the three encodings. */
  lemma ValueEncodingRanges(v: Int64)
    ensures ValueEncoding(v) == ENC_INT16 <==> -0x8000 <= v <= 0x7fff
    ensures ValueEncoding(v) == ENC_INT32 <==> (-0x8000_0000 <= v < -0x8000 || 0x7fff < v <= 0x7fff_ffff)
    ensures ValueEncoding(v) == ENC_INT64 <==> (v < -0x8000_0000 || 0x7fff_ffff < v)
  {
  }

  /** Whether a value can be stored at an encoding depends only on its own encoding. */
  lemma FitsIffWideEnough(v: Int64, enc: nat)
    requires IsEncoding(enc)
    ensures Fits(v, enc) <==> ValueEncoding(v) <= enc
  {
    Pow256Values();
  }

  /** A value that fits an encoding fits every wider one. */
  lemma FitsWider(v: int, narrow: nat, wide: nat)
    requires IsEncoding(narrow) && IsEncoding(wide) && narrow <= wide && Fits(v, narrow)
    ensures Fits(v, wide)
  {
    Pow256Values();
  }

  /**
   * A value that does not fit the encoding of an ascending set lies beyond
   * every element: below them all when negative, above them all otherwise.
   * This is why an upgrade can put the new value at either end.
   */
  lemma WiderValueIsExtreme(s: seq<int>, enc: nat, v: int)
    requires StrictlyAscending(s) && AllFit(s, enc) && !Fits(v, enc)
    ensures v < 0 ==> StrictlyAscending([v] + s) && forall i :: 0 <= i < |s| ==> v < s[i]
    ensures v >= 0 ==> StrictlyAscending(s + [v]) && forall i :: 0 <= i < |s| ==> s[i] < v
  {
    if v < 0 {
      var r := [v] + s;
      forall i, j | 0 <= i < j < |r| ensures r[i] < r[j] {
        if i > 0 {
          assert r[i] == s[i - 1] && r[j] == s[j - 1];
        } else {
          assert Fits(s[j - 1], enc);
        }
      }
    } else {
      var r := s + [v];
      forall i, j | 0 <= i < j < |r| ensures r[i] < r[j] {
        assert Fits(s[i], enc);
      }
    }
  }

  /** Inserting a value at its insertion point keeps a sequence strictly ascending. */
  lemma InsertKeepsAscending(s: seq<int>, pos: nat, v: int)
    requires StrictlyAscending(s) && pos <= |s|
    requires forall i :: 0 <= i < pos ==> s[i] < v
    requires forall i :: pos <= i < |s| ==> v < s[i]
    ensures StrictlyAscending(s[..pos] + [v] + s[pos..])
  {
    var r := s[..pos] + [v] + s[pos..];
    forall i, j | 0 <= i < j < |r| ensures r[i] < r[j] {
      if j < pos {
        assert r[i] == s[i] && r[j] == s[j];
      } else if j == pos {
        assert r[i] == s[i];
      } else if i < pos {
        assert r[i] == s[i] && r[j] == s[j - 1];
      } else if i == pos {
        assert r[j] == s[j - 1];
      } else {
        assert r[i] == s[i - 1] && r[j] == s[j - 1];
      }
    }
  }

  /** Removing one element keeps a sequence strictly ascending. */
  lemma RemoveKeepsAscending(s: seq<int>, pos: nat)
    requires StrictlyAscending(s) && pos < |s|
    ensures StrictlyAscending(s[..pos] + s[pos + 1..])
  {
    var r := s[..pos] + s[pos + 1..];
    forall i, j | 0 <= i < j < |r| ensures r[i] < r[j] {
      if j < pos {
        assert r[i] == s[i] && r[j] == s[j];
      } else if i < pos {
        assert r[i] == s[i] && r[j] == s[j + 1];
      } else {
        assert r[i] == s[i + 1] && r[j] == s[j + 1];
      }
    }
  }

  /** In an ascending sequence everything up to an element below `v` is below `v`. */
  lemma BelowUpTo(s: seq<int>, k: nat, v: int)
    requires StrictlyAscending(s) && k < |s| && s[k] < v
    ensures forall i :: 0 <= i <= k ==> s[i] < v
  {
  }

  /** In an ascending sequence everything from an element above `v` on is above `v`. */
  lemma AboveFrom(s: seq<int>, k: nat, v: int)
    requires StrictlyAscending(s) && k < |s| && v < s[k]
    ensures forall i :: k <= i < |s| ==> v < s[i]
  {
  }

  lemma MultisetInsert(s: seq<int>, pos: nat, v: int)
    requires pos <= |s|
    ensures multiset(s[..pos] + [v] + s[pos..]) == multiset(s) + multiset{v}
  {
    assert s == s[..pos] + s[pos..];
  }

  lemma MultisetRemove(s: seq<int>, pos: nat)
    requires pos < |s|
    ensures multiset(s[..pos] + s[pos + 1..]) == multiset(s) - multiset{s[pos]}
  {
    assert s == s[..pos] + [s[pos]] + s[pos + 1..];
  }

  /** An element decoded at any encoding is an `int64_t`. */
  lemma EncodedIsInt64(v: int, enc: nat)
    requires IsEncoding(enc) && Fits(v, enc)
    ensures -0x8000_0000_0000_0000 <= v < 0x8000_0000_0000_0000
  {
    Pow256Values();
  }

  lemma AllFitWider(s: seq<int>, narrow: nat, wide: nat)
    requires IsEncoding(narrow) && IsEncoding(wide) && narrow <= wide && AllFit(s, narrow)
    ensures AllFit(s, wide)
  {
    forall i | 0 <= i < |s| ensures Fits(s[i], wide) {
      FitsWider(s[i], narrow, wide);
    }
  }

  lemma InsertKeepsFit(s: seq<int>, pos: nat, v: int, enc: nat)
    requires AllFit(s, enc) && pos <= |s| && Fits(v, enc)
    ensures AllFit(s[..pos] + [v] + s[pos..], enc)
  {
    var r := s[..pos] + [v] + s[pos..];
    forall i | 0 <= i < |r| ensures Fits(r[i], enc) {
      if i < pos {
        assert r[i] == s[i];
      } else if i > pos {
        assert r[i] == s[i - 1];
      }
    }
  }

  lemma RemoveKeepsFit(s: seq<int>, pos: nat, enc: nat)
    requires AllFit(s, enc) && pos < |s|
    ensures AllFit(s[..pos] + s[pos + 1..], enc)
  {
    var r := s[..pos] + s[pos + 1..];
    forall i | 0 <= i < |r| ensures Fits(r[i], enc) {
      if i < pos {
        assert r[i] == s[i];
      } else {
        assert r[i] == s[i + 1];
      }
    }
  }

  /**
   * `a` holds `elems` at width `enc` with a one-element gap at `pos`: the
   * elements before the gap in place, the ones from `pos` on one slot up.
   */
  ghost predicate Gapped(a: seq<byte>, elems: seq<int>, enc: nat, pos: nat)
  {
    && pos <= |elems| && Bytes(|elems| + 1, enc) <= |a|
    && (forall i :: 0 <= i < pos ==> DecodeAll(a, enc, |elems| + 1)[i] == elems[i])
    && (forall i {:trigger DecodeAll(a, enc, |elems| + 1)[i]} :: pos < i <= |elems| ==> DecodeAll(a, enc, |elems| + 1)[i] == elems[i - 1])
  }

  /**
   * Growing the buffer by one element and moving the tail from `pos` up by
   * one element opens a gap at `pos`.
   */
  lemma OpenedGap(buf: seq<byte>, grown: seq<byte>, moved: seq<byte>, enc: nat, n: nat, pos: nat)
    requires enc > 0 && pos <= n && |buf| == Bytes(n, enc)
    requires |grown| == |moved| == Bytes(n + 1, enc)
    requires SameElements(grown, buf, enc)
    requires MovedElements(moved, grown, enc, pos, pos + 1, n)
    requires SameElementsOutside(moved, grown, enc, pos + 1, n + 1)
    ensures Gapped(moved, DecodeAll(buf, enc, n), enc, pos)
  {
    var elems := DecodeAll(buf, enc, n);
    forall i | 0 <= i < pos ensures DecodeAll(moved, enc, n + 1)[i] == elems[i] {
      BytesMono(i + 1, n + 1, enc);
      BytesMono(i + 1, n, enc);
    }
    forall i {:trigger DecodeAll(moved, enc, n + 1)[i]} | pos < i <= n
      ensures DecodeAll(moved, enc, n + 1)[i] == elems[i - 1]
    {
      BytesMono(i + 1, n + 1, enc);
      BytesMono(i, n, enc);
    }
  }

  /** Storing the value in the gap inserts it into the elements at `pos`. */
  lemma FilledGap(moved: seq<byte>, stored: seq<byte>, elems: seq<int>, enc: nat, pos: nat, value: int)
    requires Gapped(moved, elems, enc, pos) && |stored| == |moved|
    requires Bytes(pos + 1, enc) <= |stored| && ElementAt(stored, enc, pos) == value
    requires SameElementsOutside(stored, moved, enc, pos, pos + 1)
    ensures DecodeAll(stored, enc, |elems| + 1) == elems[..pos] + [value] + elems[pos..]
  {
    var n := |elems|;
    var expected := elems[..pos] + [value] + elems[pos..];
    forall i | 0 <= i < n + 1 ensures DecodeAll(stored, enc, n + 1)[i] == expected[i] {
      DecodedAfterStore(moved, stored, enc, n + 1, pos, value, i);
      if i < pos {
        assert expected[i] == elems[i];
      } else if i > pos {
        assert expected[i] == elems[i - 1];
      }
    }
  }

  /**
   * The buffer-level steps of a removal at `pos` (move the tail down by one,
   * shrink by one element) remove that element from the decoded elements.
   */
  lemma RemovedElements(buf: seq<byte>, moved: seq<byte>, shrunk: seq<byte>, enc: nat, n: nat, pos: nat)
    requires enc > 0 && pos < n && |buf| == |moved| == Bytes(n, enc) && |shrunk| == Bytes(n - 1, enc)
    requires MovedElements(moved, buf, enc, pos + 1, pos, n)
    requires SameElementsOutside(moved, buf, enc, pos, n - 1)
    requires SameElements(shrunk, moved, enc)
    ensures DecodeAll(shrunk, enc, n - 1) == DecodeAll(buf, enc, n)[..pos] + DecodeAll(buf, enc, n)[pos + 1..]
  {
    var elems := DecodeAll(buf, enc, n);
    var expected := elems[..pos] + elems[pos + 1..];
    forall i | 0 <= i < n - 1 ensures DecodeAll(shrunk, enc, n - 1)[i] == expected[i] {
      BytesMono(i + 1, n - 1, enc);
      BytesMono(n - 1, n, enc);
      BytesMono(i + 2, n, enc);
      if i < pos {
        assert expected[i] == elems[i];
      } else {
        assert expected[i] == elems[i + 1];
      }
    }
  }

  /** UpgradeStep at one position i >= j. */
  lemma UpgradeStepAt(buf: seq<byte>, before: seq<byte>, after: seq<byte>, curenc: nat, newenc: nat,
                      n: nat, p: nat, j: nat, i: nat)
    requires IsEncoding(curenc) && IsEncoding(newenc) && p <= 1 && j <= i < n
    requires |buf| == Bytes(n, curenc) && |before| == |after| == Bytes(n + 1, newenc)
    requires Bytes(j + 1, curenc) <= |buf| && Bytes(j + 1, curenc) <= |before|
    requires ElementAt(before, curenc, j) == ElementAt(buf, curenc, j)
    requires forall i :: j < i < n ==> DecodeAll(before, newenc, n + 1)[i + p] == DecodeAll(buf, curenc, n)[i]
    requires Bytes(j + p + 1, newenc) <= |before|
    requires ElementAt(after, newenc, j + p) == ElementAt(before, curenc, j)
    requires SameElementsOutside(after, before, newenc, j + p, j + p + 1)
    ensures DecodeAll(after, newenc, n + 1)[i + p] == DecodeAll(buf, curenc, n)[i]
  {
    DecodedAfterStore(before, after, newenc, n + 1, j + p, ElementAt(before, curenc, j), i + p);
    if i == j {
      BytesMono(j + 1, n, curenc);
      assert DecodeAll(buf, curenc, n)[j] == ElementAt(buf, curenc, j);
    }
  }

  /**
   * One step of the back-to-front upgrade: element j, read at the old width
   * from the untouched prefix, is stored as element j + p at the new width.
   * The old bytes before element j are still untouched afterwards, and the
   * elements already rewritten keep their values.
   */
  lemma UpgradeStep(buf: seq<byte>, before: seq<byte>, after: seq<byte>, curenc: nat, newenc: nat,
                    n: nat, p: nat, j: nat)
    requires IsEncoding(curenc) && IsEncoding(newenc) && curenc < newenc && p <= 1 && j < n
    requires |buf| == Bytes(n, curenc) && |before| == |after| == Bytes(n + 1, newenc)
    requires Bytes(j + 1, curenc) <= |buf| <= |before|
    requires before[..Bytes(j + 1, curenc)] == buf[..Bytes(j + 1, curenc)]
    requires forall i :: j < i < n ==> DecodeAll(before, newenc, n + 1)[i + p] == DecodeAll(buf, curenc, n)[i]
    requires Bytes(j + p + 1, newenc) <= |before|
    requires after[..Bytes(j + p, newenc)] == before[..Bytes(j + p, newenc)]
    requires ElementAt(after, newenc, j + p) == ElementAt(before, curenc, j)
    requires SameElementsOutside(after, before, newenc, j + p, j + p + 1)
    ensures Bytes(j, curenc) <= |after| && after[..Bytes(j, curenc)] == buf[..Bytes(j, curenc)]
    ensures forall i :: j <= i < n ==> DecodeAll(after, newenc, n + 1)[i + p] == DecodeAll(buf, curenc, n)[i]
  {
    ElementOfPrefix(before, buf, Bytes(j + 1, curenc), curenc, j);
    BytesWider(j, curenc, newenc);
    BytesMono(j, j + p, newenc);
    ShorterPrefix(after, before, Bytes(j, curenc), Bytes(j + p, newenc));
    BytesMono(j, j + 1, curenc);
    ShorterPrefix(before, buf, Bytes(j, curenc), Bytes(j + 1, curenc));
    forall i | j <= i < n ensures DecodeAll(after, newenc, n + 1)[i + p] == DecodeAll(buf, curenc, n)[i] {
      UpgradeStepAt(buf, before, after, curenc, newenc, n, p, j, i);
    }
  }

  /** UpgradeFinish at one position. */
  lemma UpgradeFinishAt(before: seq<byte>, after: seq<byte>, elems: seq<int>, enc: nat,
                        n: nat, p: nat, value: int, i: nat)
    requires IsEncoding(enc) && p <= 1 && |elems| == n && |before| == |after| == Bytes(n + 1, enc) && i < n + 1
    requires forall i :: 0 <= i < n ==> DecodeAll(before, enc, n + 1)[i + p] == elems[i]
    requires var pos := if p == 1 then 0 else n;
      && Bytes(pos + 1, enc) <= |after| && ElementAt(after, enc, pos) == value
      && SameElementsOutside(after, before, enc, pos, pos + 1)
    ensures DecodeAll(after, enc, n + 1)[i] == (if p == 1 then [value] + elems else elems + [value])[i]
  {
    var pos := if p == 1 then 0 else n;
    DecodedAfterStore(before, after, enc, n + 1, pos, value, i);
    if i != pos {
      assert DecodeAll(before, enc, n + 1)[(i - p) + p] == elems[i - p];
    }
  }

  /**
   * The last step of the upgrade: with the old elements rewritten one slot
   * up (p = 1, a negative value) or in place (p = 0), storing the value in
   * the free slot gives the value prepended or appended, and the result is
   * still strictly ascending and within the new encoding.
   */
  lemma UpgradeFinish(before: seq<byte>, after: seq<byte>, elems: seq<int>, curenc: nat, enc: nat,
                      n: nat, p: nat, value: int)
    requires IsEncoding(curenc) && IsEncoding(enc) && curenc <= enc
    requires StrictlyAscending(elems) && AllFit(elems, curenc) && !Fits(value, curenc) && Fits(value, enc)
    requires p == (if value < 0 then 1 else 0) && |elems| == n && |before| == |after| == Bytes(n + 1, enc)
    requires forall i :: 0 <= i < n ==> DecodeAll(before, enc, n + 1)[i + p] == elems[i]
    requires var pos := if p == 1 then 0 else n;
      && Bytes(pos + 1, enc) <= |after| && ElementAt(after, enc, pos) == value
      && SameElementsOutside(after, before, enc, pos, pos + 1)
    ensures var r := if value < 0 then [value] + elems else elems + [value];
      DecodeAll(after, enc, n + 1) == r && StrictlyAscending(r) && AllFit(r, enc)
  {
    var expected := if p == 1 then [value] + elems else elems + [value];
    forall i | 0 <= i < n + 1 ensures DecodeAll(after, enc, n + 1)[i] == expected[i] {
      UpgradeFinishAt(before, after, elems, enc, n, p, value, i);
    }
    WiderValueIsExtreme(elems, curenc, value);
    AllFitWider(elems, curenc, enc);
    forall i | 0 <= i < |expected| ensures Fits(expected[i], enc) {
      if p == 1 && i > 0 {
        assert expected[i] == elems[i - 1];
      } else if p == 0 && i < n {
        assert expected[i] == elems[i];
      }
    }
  }

  class IntSet {
    var encoding: nat
    var length: nat
    var contents: seq<byte>

    /** The elements, read from the contents at the current encoding. */
    ghost function Elements(): seq<int>
      reads this
      requires Bytes(length, encoding) <= |contents|
    {
      DecodeAll(contents, encoding, length)
    }

    /**
     * The set invariant: a known encoding, a buffer of exactly `length`
     * elements, elements strictly ascending and each within the encoding.
     * The encoding need not be the narrowest one: removal never narrows it.
     */
    ghost predicate Valid()
      reads this
    {
      && IsEncoding(encoding)
      && |contents| == Bytes(length, encoding)
      && StrictlyAscending(Elements())
      && AllFit(Elements(), encoding)
    }

    /** The set in memory: header (encoding, length) then the contents. */
    ghost function Blob(): seq<byte>
      reads this
    {
      StoreLE(encoding, 4) + StoreLE(length, 4) + contents
    }

    /** intsetNew: an empty set at the 16-bit encoding. */
    constructor ()
      ensures Valid() && encoding == ENC_INT16 && Elements() == []
    {
      encoding := ENC_INT16;
      length := 0;
      contents := [];
    }

    /** _intsetGetEncoded: element `pos` read at width `enc`, whatever the set's own encoding. */
    function GetEncoded(pos: nat, enc: nat): (v: int)
      reads this
      requires Bytes(pos + 1, enc) <= |contents|
      ensures Fits(v, enc)
    {
      ElementAt(contents, enc, pos)
    }

    /** _intsetGet: element `pos` at the set's encoding. */
    function GetAt(pos: nat): (v: int)
      reads this
      requires pos < length && Bytes(length, encoding) <= |contents|
      ensures v == Elements()[pos]
    {
      BytesMono(pos + 1, length, encoding);
      GetEncoded(pos, encoding)
    }

    /**
     * _intsetSet: one store of `value` at element `pos`, at the set's
     * encoding. A value that fits reads back unchanged and no other element
     * changes.
     */
    method SetAt(pos: nat, value: Int64)
      requires IsEncoding(encoding) && Bytes(pos + 1, encoding) <= |contents|
      modifies this
      ensures encoding == old(encoding) && length == old(length) && |contents| == old(|contents|)
      ensures contents[..Bytes(pos, encoding)] == old(contents)[..Bytes(pos, encoding)]
      ensures Fits(value, encoding) ==> ElementAt(contents, encoding, pos) == value
      ensures SameElementsOutside(contents, old(contents), encoding, pos, pos + 1)
    {
      var bytes := Encode(value, encoding);
      var off := Bytes(pos, encoding);
      contents := Splice(contents, off, bytes);
      StoreElement(old(contents), encoding, pos, value);
    }

    /** intsetResize: room for `len` elements at the current encoding, the old prefix kept. */
    method Resize(len: nat)
      modifies this
      ensures encoding == old(encoding) && length == old(length)
      ensures |contents| == Bytes(len, encoding)
      ensures var keep := if old(|contents|) < Bytes(len, encoding) then old(|contents|) else Bytes(len, encoding);
        contents[..keep] == old(contents)[..keep]
      ensures SameElements(contents, old(contents), encoding)
    {
      var prev := contents;
      var size := Bytes(len, encoding);
      if size <= |prev| {
        contents := prev[..size];
      } else {
        contents := prev + seq(size - |prev|, _ => 0);
      }
      var keep := if |prev| < size then |prev| else size;
      assert contents[..keep] == prev[..keep];
      PrefixElements(contents, prev, encoding, keep);
    }

    /**
     * intsetSearch. Found: `pos` holds `value`. Not found: `pos` is where
     * `value` would be inserted, everything before it smaller and everything
     * from it on larger; on an empty set that is 0.
     */
    method Search(value: Int64) returns (found: bool, pos: nat)
      requires Valid()
      ensures found <==> value in Elements()
      ensures found ==> pos < |Elements()| && Elements()[pos] == value
      ensures !found ==> pos <= |Elements()|
      ensures !found ==> forall i :: 0 <= i < pos ==> Elements()[i] < value
      ensures !found ==> forall i :: pos <= i < |Elements()| ==> value < Elements()[i]
      ensures |Elements()| == 0 ==> !found && pos == 0
    {
      ghost var elems := Elements();
      assert StrictlyAscending(elems) && |elems| == length;
      var min: int, max: int, mid: int := 0, length - 1, -1;
      var cur: int := -1;
      if length == 0 {
        return false, 0;
      } else {
        if value > GetAt(max) {
          BelowUpTo(elems, max, value);
          return false, length;
        } else if value < GetAt(0) {
          AboveFrom(elems, 0, value);
          return false, 0;
        }
      }
      while max >= min
        invariant 0 <= min <= max + 1 <= length
        invariant forall i :: 0 <= i < min ==> elems[i] < value
        invariant forall i :: max < i < length ==> value < elems[i]
        invariant mid == -1 ==> min == 0 && max == length - 1
        invariant mid != -1 ==> 0 <= mid < length && cur == elems[mid] && cur != value
        decreases max - min
      {
        mid := (min + max) / 2;
        cur := GetAt(mid);
        if value > cur {
          BelowUpTo(elems, mid, value);
          min := mid + 1;
        } else if value < cur {
          AboveFrom(elems, mid, value);
          max := mid - 1;
        } else {
          break;
        }
      }
      if value == cur {
        found, pos := true, mid;
      } else {
        found, pos := false, min;
      }
    }

    /**
     * intsetMoveTail: a `memmove` of the elements from `from` to the end so
     * that they start at element `to`. Elements wholly outside the
     * destination keep their values.
     */
    method MoveTail(from: nat, to: nat)
      requires from <= length && Bytes(length, encoding) <= |contents|
      requires Bytes(to + length - from, encoding) <= |contents|
      modifies this
      ensures encoding == old(encoding) && length == old(length) && |contents| == old(|contents|)
      ensures MovedElements(contents, old(contents), encoding, from, to, length)
      ensures SameElementsOutside(contents, old(contents), encoding, to, to + length - from)
    {
      BytesAdd(from, length - from, encoding);
      BytesAdd(to, length - from, encoding);
      var count := Bytes(length - from, encoding);
      var src := contents[Bytes(from, encoding) .. Bytes(from, encoding) + count];
      var dst := Bytes(to, encoding);
      contents := Splice(contents, dst, src);
      MoveElements(old(contents), encoding, from, to, length);
    }

    /**
     * The loop of intsetUpgradeAndAdd: with the contents already grown by
     * one element at the new encoding, rewrite the `length` elements held
     * at width `curenc` in the untouched prefix `buf` at the new width, back
     * to front, each `prepend` slots further up.
     */
    method UpgradeElements(ghost buf: seq<byte>, curenc: nat, prepend: nat)
      requires IsEncoding(curenc) && IsEncoding(encoding) && curenc < encoding && prepend <= 1
      requires |buf| == Bytes(length, curenc) && |contents| == Bytes(length + 1, encoding)
      requires |buf| <= |contents| && contents[..|buf|] == buf
      modifies this
      ensures encoding == old(encoding) && length == old(length) && |contents| == old(|contents|)
      ensures forall i :: 0 <= i < length ==>
        DecodeAll(contents, encoding, length + 1)[i + prepend] == DecodeAll(buf, curenc, length)[i]
    {
      var n := length;
      var newenc := encoding;
      var j := n;
      while j > 0
        invariant 0 <= j <= n && encoding == newenc && length == n
        invariant |contents| == Bytes(n + 1, newenc)
        invariant Bytes(j, curenc) <= |buf| <= |contents|
        invariant contents[..Bytes(j, curenc)] == buf[..Bytes(j, curenc)]
        invariant forall i :: j <= i < n ==> DecodeAll(contents, newenc, n + 1)[i + prepend] == DecodeAll(buf, curenc, n)[i]
      {
        j := j - 1;
        BytesMono(j + 1, n, curenc);
        BytesMono(j, n, curenc);
        BytesMono(j + prepend + 1, n + 1, newenc);
        var v := GetEncoded(j, curenc);
        EncodedIsInt64(v, curenc);
        FitsWider(v, curenc, newenc);
        ghost var before := contents;
        SetAt(j + prepend, v);
        UpgradeStep(buf, before, contents, curenc, newenc, n, prepend, j);
      }
    }

    /**
     * intsetUpgradeAndAdd: rewrite every element at the wider encoding that
     * `value` needs, back to front, leaving a free slot at the head for a
     * negative value or at the tail otherwise, and store `value` there.
     */
    method UpgradeAndAdd(value: Int64)
      requires Valid() && ValueEncoding(value) > encoding
      modifies this
      ensures Valid() && encoding == ValueEncoding(value)
      ensures Elements() == if value < 0 then [value] + old(Elements()) else old(Elements()) + [value]
    {
      ghost var elems := Elements();
      ghost var buf := contents;
      var curenc := encoding;
      var newenc := ValueEncoding(value);
      var n := length;
      var prepend: nat := if value < 0 then 1 else 0;

      encoding := newenc;
      Resize(length + 1);
      BytesWider(n, curenc, newenc);
      BytesMono(n, n + 1, newenc);
      assert contents[..|buf|] == buf;
      UpgradeElements(buf, curenc, prepend);

      ghost var before := contents;
      if prepend == 1 {
        SetAt(0, value);
      } else {
        SetAt(length, value);
      }
      length := length + 1;
      FitsIffWideEnough(value, newenc);
      FitsIffWideEnough(value, curenc);
      UpgradeFinish(before, contents, elems, curenc, newenc, n, prepend, value);
      assert Elements() == if value < 0 then [value] + elems else elems + [value];
    }

    /**
     * intsetAdd: `success` is false, and nothing changes, exactly when the
     * value is already present; otherwise the value joins the elements and
     * the encoding widens to the value's own when that is wider.
     */
    method Add(value: Int64) returns (success: bool)
      requires Valid()
      modifies this
      ensures Valid()
      ensures success <==> value !in old(Elements())
      ensures success ==> multiset(Elements()) == multiset(old(Elements())) + multiset{value}
      ensures !success ==> unchanged(this)
      ensures encoding == if ValueEncoding(value) > old(encoding) then ValueEncoding(value) else old(encoding)
    {
      var valenc := ValueEncoding(value);
      success := true;
      if valenc > encoding {
        ghost var elems := Elements();
        FitsIffWideEnough(value, encoding);
        WiderValueIsExtreme(elems, encoding, value);
        UpgradeAndAdd(value);
        if value < 0 {
          MultisetInsert(elems, 0, value);
        } else {
          MultisetInsert(elems, |elems|, value);
        }
        return;
      }
      var found, pos := Search(value);
      if found {
        success := false;
        return;
      }
      FitsIffWideEnough(value, encoding);
      InsertAt(pos, value);
      MultisetInsert(old(Elements()), pos, value);
    }

    /**
     * The insertion half of intsetAdd: grow by one element, move the tail
     * from `pos` up by one and store `value` at `pos`.
     */
    method InsertAt(pos: nat, value: Int64)
      requires Valid() && pos <= length && Fits(value, encoding)
      requires forall i :: 0 <= i < pos ==> Elements()[i] < value
      requires forall i :: pos <= i < |Elements()| ==> value < Elements()[i]
      modifies this
      ensures Valid() && encoding == old(encoding)
      ensures Elements() == old(Elements())[..pos] + [value] + old(Elements())[pos..]
    {
      ghost var elems := Elements();
      OpenGap(pos);
      ghost var moved := contents;
      BytesMono(pos + 1, length + 1, encoding);
      SetAt(pos, value);
      length := length + 1;
      FilledGap(moved, contents, elems, encoding, pos, value);
      assert Elements() == elems[..pos] + [value] + elems[pos..];
      InsertKeepsAscending(elems, pos, value);
      InsertKeepsFit(elems, pos, value, encoding);
    }

    /**
     * The first two steps of an insertion in intsetAdd: intsetResize to one
     * more element, then intsetMoveTail of the elements from `pos` on up by
     * one unless `pos` is the end.
     */
    method OpenGap(pos: nat)
      requires IsEncoding(encoding) && |contents| == Bytes(length, encoding) && pos <= length
      modifies this
      ensures encoding == old(encoding) && length == old(length)
      ensures |contents| == Bytes(length + 1, encoding)
      ensures Gapped(contents, DecodeAll(old(contents), encoding, length), encoding, pos)
    {
      ghost var buf := contents;
      var n := length;
      Resize(length + 1);
      ghost var grown := contents;
      BytesMono(n, n + 1, encoding);
      if pos < length {
        MoveTail(pos, pos + 1);
      }
      OpenedGap(buf, grown, contents, encoding, n, pos);
    }

    /**
     * intsetRemove: `success` is true exactly when the value was present;
     * it is then removed and the others keep their order. The encoding never
     * changes.
     */
    method Remove(value: Int64) returns (success: bool)
      requires Valid()
      modifies this
      ensures Valid() && encoding == old(encoding)
      ensures success <==> value in old(Elements())
      ensures success ==> multiset(Elements()) == multiset(old(Elements())) - multiset{value}
      ensures !success ==> unchanged(this)
    {
      var valenc := ValueEncoding(value);
      success := false;
      if valenc <= encoding {
        var found, pos := Search(value);
        if found {
          ghost var elems := Elements();
          ghost var buf := contents;
          var len := length;
          success := true;
          BytesMono(len - 1, len, encoding);
          if pos < len - 1 {
            MoveTail(pos + 1, pos);
          }
          ghost var moved := contents;
          Resize(len - 1);
          length := len - 1;
          RemovedElements(buf, moved, contents, encoding, len, pos);
          assert Elements() == elems[..pos] + elems[pos + 1..];
          RemoveKeepsAscending(elems, pos);
          RemoveKeepsFit(elems, pos, encoding);
          MultisetRemove(elems, pos);
        }
      } else {
        FitsIffWideEnough(value, encoding);
      }
    }

    /** intsetFind: the value's encoding is within the set's and the value is stored. */
    method Find(value: Int64) returns (found: bool)
      requires Valid()
      ensures found <==> ValueEncoding(value) <= encoding && value in Elements()
      ensures found <==> value in Elements()
    {
      var valenc := ValueEncoding(value);
      found := false;
      if valenc <= encoding {
        var pos;
        found, pos := Search(value);
      } else {
        FitsIffWideEnough(value, encoding);
      }
    }

    /** intsetRandom, with the output of `rand()` passed in as `r`. */
    method Random(r: nat) returns (value: int)
      requires Valid() && length > 0
      ensures value == Elements()[r % length] && value in Elements()
    {
      value := GetAt(r % length);
    }

    /** intsetGet: element `pos` when `pos` is in range, reported by `ok`. */
    method Get(pos: nat) returns (ok: bool, value: int)
      requires Valid()
      ensures ok <==> pos < |Elements()|
      ensures ok ==> value == Elements()[pos]
    {
      if pos < length {
        value := GetAt(pos);
        return true, value;
      }
      return false, 0;
    }

    /** intsetLen: the number of elements. */
    function Len(): (n: nat)
      reads this
      requires Valid()
      ensures n == |Elements()|
    {
      length
    }

    /** intsetBlobLen: the size in bytes of the set in memory, header included. */
    function BlobLen(): (n: nat)
      reads this
      requires Valid()
      ensures n == |Blob()| == HEADER_SIZE + |Elements()| * encoding
    {
      BytesIsProduct(length, encoding);
      HEADER_SIZE + length * encoding
    }

    /**
     * The in-memory image reads back as the set: the header holds the
     * encoding and the length, and the bytes after it decode to the elements.
     */
    lemma BlobLayout()
      requires Valid() && length < 0x1_0000_0000
      ensures LoadLE(Blob()[..4]) == encoding && LoadLE(Blob()[4..HEADER_SIZE]) == length
      ensures DecodeAll(Blob()[HEADER_SIZE..], encoding, length) == Elements()
    {
      Pow256Values();
      var b := Blob();
      assert b[..4] == StoreLE(encoding, 4);
      assert b[4..HEADER_SIZE] == StoreLE(length, 4);
      assert b[HEADER_SIZE..] == contents;
      LoadStore(encoding, 4);
      LoadStore(length, 4);
    }
  }
}
