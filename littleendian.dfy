/**
 * Little-endian storage of fixed-width two's-complement integers in a byte
 * buffer: the reading and writing that the packed integer set does through
 * `memcpy` and casts to `int16_t`, `int32_t` and `int64_t`, with the host
 * byte order taken to be little-endian.
 */
module LittleEndian {

  /** One byte of a buffer. */
  newtype byte = x: int | 0 <= x < 256

  /** 256^n: the number of distinct values of an n-byte word. */
  function Pow256(n: nat): (r: nat)
    ensures r >= 1
  {
    if n == 0 then 1 else 256 * Pow256(n - 1)
  }

  lemma Pow256Values()
    ensures Pow256(2) == 0x1_0000
    ensures Pow256(4) == 0x1_0000_0000
    ensures Pow256(8) == 0x1_0000_0000_0000_0000
  {
  }

  /** The unsigned value of `b`, least significant byte first. */
  function LoadLE(b: seq<byte>): (u: nat)
    ensures u < Pow256(|b|)
  {
    if |b| == 0 then 0 else b[0] as nat + 256 * LoadLE(b[1..])
  }

  /** The n bytes of `u` modulo 256^n, least significant first. */
  function StoreLE(u: nat, n: nat): (b: seq<byte>)
    ensures |b| == n
  {
    if n == 0 then [] else [(u % 256) as byte] + StoreLE(u / 256, n - 1)
  }

  /** Storing a value that fits in n bytes and loading it back gives the value. */
  lemma {:induction false} LoadStore(u: nat, n: nat)
    requires u < Pow256(n)
    ensures LoadLE(StoreLE(u, n)) == u
  {
    if n > 0 {
      LoadStore(u / 256, n - 1);
      assert StoreLE(u, n)[1..] == StoreLE(u / 256, n - 1);
    }
  }

  /** True when `v` is representable as an n-byte two's-complement integer. */
  predicate Fits(v: int, n: nat)
  {
    -(Pow256(n) as int) <= 2 * v < Pow256(n)
  }

  /** The two's-complement reading of an n-byte unsigned word. */
  function ToSigned(u: nat, n: nat): int
  {
    if 2 * u < Pow256(n) then u else u - Pow256(n)
  }

  /** The signed integer stored little-endian in `b`; it always fits |b| bytes. */
  function Decode(b: seq<byte>): (v: int)
    ensures Fits(v, |b|)
  {
    ToSigned(LoadLE(b), |b|)
  }

  /**
   * The n bytes written by a store of `v` through an n-byte integer
   * pointer: `v` is truncated to its low n bytes, as a C conversion to a
   * narrower two's-complement type does.
   */
  function Encode(v: int, n: nat): (b: seq<byte>)
    ensures |b| == n
  {
    StoreLE(v % Pow256(n), n)
  }

  /** Within the range of the width, a store followed by a load is the identity. */
  lemma DecodeEncode(v: int, n: nat)
    requires n > 0 && Fits(v, n)
    ensures Decode(Encode(v, n)) == v
  {
    var m := Pow256(n);
    var u := v % m;
    ModOfSmall(v, m);
    LoadStore(u, n);
  }

  lemma ModOfSmall(v: int, m: int)
    requires m > 0 && -m <= 2 * v < m
    ensures v >= 0 ==> v % m == v && 2 * v < m
    ensures v < 0 ==> v % m == v + m && 2 * (v + m) >= m
  {
    var q, r := v / m, v % m;
    assert v == q * m + r && 0 <= r < m;
    MulBounds(q, m);
  }

  lemma MulBounds(q: int, m: int)
    requires m > 0
    ensures q >= 1 ==> q * m >= m
    ensures q <= -1 ==> q * m <= -m
    ensures q <= -2 ==> q * m <= -2 * m
  {
  }

  // ---------------------------------------------------------------------------
  // Buffers of fixed-width elements

  /**
   * The bytes taken by `count` elements of n bytes each, that is count * n
   * (see BytesIsProduct), written as repeated addition so that offsets stay
   * within linear arithmetic.
   */
  function Bytes(count: nat, n: nat): nat
  {
    if count == 0 then 0 else Bytes(count - 1, n) + n
  }

  lemma {:induction false} BytesIsProduct(count: nat, n: nat)
    ensures Bytes(count, n) == count * n
  {
    if count > 0 {
      BytesIsProduct(count - 1, n);
    }
  }

  lemma {:induction false} BytesAdd(a: nat, b: nat, n: nat)
    ensures Bytes(a + b, n) == Bytes(a, n) + Bytes(b, n)
  {
    if b > 0 {
      BytesAdd(a, b - 1, n);
    }
  }

  lemma BytesMono(a: nat, b: nat, n: nat)
    requires a <= b
    ensures Bytes(a, n) <= Bytes(b, n)
  {
    BytesAdd(a, b - a, n);
  }

  lemma {:induction false} BytesWider(count: nat, n: nat, m: nat)
    requires n <= m
    ensures Bytes(count, n) <= Bytes(count, m)
  {
    if count > 0 {
      BytesWider(count - 1, n, m);
    }
  }

  /** The n bytes that hold element i of a buffer of n-byte elements. */
  function Slot(buf: seq<byte>, n: nat, i: nat): (s: seq<byte>)
    requires Bytes(i + 1, n) <= |buf|
    ensures |s| == n
  {
    buf[Bytes(i, n) .. Bytes(i + 1, n)]
  }

  /** Element i of a buffer of n-byte elements. */
  function ElementAt(buf: seq<byte>, n: nat, i: nat): (v: int)
    requires Bytes(i + 1, n) <= |buf|
    ensures Fits(v, n)
  {
    Decode(Slot(buf, n, i))
  }

  /** The first `count` elements of a buffer of n-byte elements. */
  function DecodeAll(buf: seq<byte>, n: nat, count: nat): (s: seq<int>)
    requires Bytes(count, n) <= |buf|
    ensures |s| == count
    ensures forall i :: 0 <= i < count ==> Fits(s[i], n)
  {
    seq(count, i requires 0 <= i < count => BytesMono(i + 1, count, n); ElementAt(buf, n, i))
  }

  /** `buf` with the bytes from `off` on overwritten by `b`. */
  function Splice(buf: seq<byte>, off: nat, b: seq<byte>): (r: seq<byte>)
    requires off + |b| <= |buf|
    ensures |r| == |buf|
  {
    buf[..off] + b + buf[off + |b|..]
  }

  /** A splice leaves every byte outside the overwritten range alone. */
  lemma SpliceOutside(buf: seq<byte>, off: nat, b: seq<byte>, lo: nat, hi: nat)
    requires off + |b| <= |buf| && lo <= hi <= |buf|
    requires hi <= off || off + |b| <= lo
    ensures Splice(buf, off, b)[lo..hi] == buf[lo..hi]
  {
    var r := Splice(buf, off, b);
    forall k | lo <= k < hi ensures r[k] == buf[k] {
    }
  }

  /** Inside the overwritten range a splice reads as the inserted bytes. */
  lemma SpliceInside(buf: seq<byte>, off: nat, b: seq<byte>, lo: nat, hi: nat)
    requires off + |b| <= |buf| && off <= lo <= hi <= off + |b|
    ensures Splice(buf, off, b)[lo..hi] == b[lo - off..hi - off]
  {
    var r := Splice(buf, off, b);
    forall k | lo <= k < hi ensures r[k] == b[k - off] {
    }
  }

  /** Writing element `pos` changes no other element of the same width. */
  lemma SetKeepsOthers(buf: seq<byte>, n: nat, pos: nat, v: int, i: nat)
    requires Bytes(pos + 1, n) <= |buf| && Bytes(i + 1, n) <= |buf| && i != pos
    ensures ElementAt(Splice(buf, Bytes(pos, n), Encode(v, n)), n, i) == ElementAt(buf, n, i)
  {
    if i < pos {
      BytesMono(i + 1, pos, n);
    } else {
      BytesMono(pos + 1, i, n);
    }
    ElementOutside(buf, Bytes(pos, n), Encode(v, n), n, i);
  }

  /** An element whose bytes lie outside a spliced range keeps its value. */
  lemma ElementOutside(buf: seq<byte>, off: nat, b: seq<byte>, n: nat, i: nat)
    requires off + |b| <= |buf| && Bytes(i + 1, n) <= |buf|
    requires Bytes(i + 1, n) <= off || off + |b| <= Bytes(i, n)
    ensures ElementAt(Splice(buf, off, b), n, i) == ElementAt(buf, n, i)
  {
    SpliceOutside(buf, off, b, Bytes(i, n), Bytes(i + 1, n));
  }

  /** Two buffers that share a prefix share every shorter prefix. */
  lemma ShorterPrefix(a: seq<byte>, b: seq<byte>, k: nat, m: nat)
    requires k <= m <= |a| && m <= |b| && a[..m] == b[..m]
    ensures a[..k] == b[..k]
  {
    assert a[..k] == a[..m][..k];
    assert b[..k] == b[..m][..k];
  }

  /** Elements are unaffected by bytes past their end. */
  lemma ElementOfPrefix(buf: seq<byte>, buf': seq<byte>, k: nat, n: nat, i: nat)
    requires k <= |buf| && k <= |buf'| && buf[..k] == buf'[..k] && Bytes(i + 1, n) <= k
    ensures ElementAt(buf, n, i) == ElementAt(buf', n, i)
  {
    assert Slot(buf, n, i) == buf[..k][Bytes(i, n) .. Bytes(i + 1, n)];
    assert Slot(buf', n, i) == buf'[..k][Bytes(i, n) .. Bytes(i + 1, n)];
  }

  /**
   * Moving the elements from..count-1 of a buffer to start at element `to`
   * (a `memmove` of whole elements): element i of the result, for i in the
   * destination range, is old element i - to + from.
   */
  lemma ElementMoved(buf: seq<byte>, n: nat, from: nat, to: nat, count: nat, i: nat)
    requires from <= count && Bytes(count, n) <= |buf| && Bytes(to + count - from, n) <= |buf|
    requires to <= i < to + count - from
    ensures Bytes(from, n) <= Bytes(count, n) && Bytes(to, n) + (Bytes(count, n) - Bytes(from, n)) <= |buf|
    ensures Bytes(i + 1, n) <= |buf| && Bytes(i - to + from + 1, n) <= |buf|
    ensures ElementAt(Splice(buf, Bytes(to, n), buf[Bytes(from, n) .. Bytes(count, n)]), n, i)
         == ElementAt(buf, n, i - to + from)
  {
    SlotMoved(buf, n, from, to, count, i);
  }

  /** A slot is the `n` bytes at its offset. */
  lemma SlotAt(buf: seq<byte>, n: nat, i: nat, off: nat)
    requires Bytes(i, n) == off && Bytes(i + 1, n) == off + n && off + n <= |buf|
    ensures Slot(buf, n, i) == buf[off .. off + n]
  {
  }

  /** The slot-level fact behind ElementMoved. */
  lemma SlotMoved(buf: seq<byte>, n: nat, from: nat, to: nat, count: nat, i: nat)
    requires from <= count && Bytes(count, n) <= |buf| && Bytes(to + count - from, n) <= |buf|
    requires to <= i < to + count - from
    ensures Bytes(from, n) <= Bytes(count, n) && Bytes(to, n) + (Bytes(count, n) - Bytes(from, n)) <= |buf|
    ensures Bytes(i + 1, n) <= |buf| && Bytes(i - to + from + 1, n) <= |buf|
    ensures Slot(Splice(buf, Bytes(to, n), buf[Bytes(from, n) .. Bytes(count, n)]), n, i)
         == Slot(buf, n, i - to + from)
  {
    var len, d := count - from, i - to;
    assert from + len == count && to + d == i && from + d == i - to + from;
    MovedOffsets(n, from, to, len, d);
    BytesMono(to + len, to + count - from, n);
    var at, dst, src := Bytes(d, n), Bytes(to, n), Bytes(from, n);
    SpliceOfSlice(buf, dst, src, Bytes(count, n), at, n);
    SlotAt(Splice(buf, dst, buf[src .. Bytes(count, n)]), n, i, dst + at);
    SlotAt(buf, n, i - to + from, src + at);
  }

  /**
   * Where the bytes of element to + d and of its source element from + d
   * lie, for a block of `len` elements moved from `from` to `to`.
   */
  lemma MovedOffsets(n: nat, from: nat, to: nat, len: nat, d: nat)
    requires d < len
    ensures Bytes(from + len, n) == Bytes(from, n) + Bytes(len, n)
    ensures Bytes(to + len, n) == Bytes(to, n) + Bytes(len, n)
    ensures Bytes(to + d, n) == Bytes(to, n) + Bytes(d, n)
    ensures Bytes(to + d + 1, n) == Bytes(to, n) + Bytes(d, n) + n
    ensures Bytes(from + d, n) == Bytes(from, n) + Bytes(d, n)
    ensures Bytes(from + d + 1, n) == Bytes(from, n) + Bytes(d, n) + n
    ensures Bytes(d, n) + n <= Bytes(len, n)
  {
    BytesAdd(from, len, n);
    BytesAdd(to, len, n);
    BytesAdd(to, d, n);
    BytesAdd(from, d, n);
    BytesAdd(to, d + 1, n);
    BytesAdd(from, d + 1, n);
    BytesMono(d + 1, len, n);
  }

  /** Copying buf[lo..hi] to `dst` puts buf[lo + at .. lo + at + n] at dst + at. */
  lemma SpliceOfSlice(buf: seq<byte>, dst: nat, lo: nat, hi: nat, at: nat, n: nat)
    requires lo <= hi <= |buf| && dst + (hi - lo) <= |buf| && at + n <= hi - lo
    ensures Splice(buf, dst, buf[lo..hi])[dst + at .. dst + at + n] == buf[lo + at .. lo + at + n]
  {
    var r := Splice(buf, dst, buf[lo..hi]);
    forall k | dst + at <= k < dst + at + n ensures r[k] == buf[k - dst + lo] {
    }
  }

  // ---------------------------------------------------------------------------
  // Element-level summaries of buffer rewrites

  /** Every element that `a` and `b` both hold has the same value in both. */
  ghost predicate SameElements(a: seq<byte>, b: seq<byte>, n: nat)
  {
    forall i: nat {:trigger ElementAt(a, n, i)} :: Bytes(i + 1, n) <= |a| && Bytes(i + 1, n) <= |b| ==>
      ElementAt(a, n, i) == ElementAt(b, n, i)
  }

  /** Every element outside positions lo..hi-1 has the same value in `a` and `b`. */
  ghost predicate SameElementsOutside(a: seq<byte>, b: seq<byte>, n: nat, lo: nat, hi: nat)
  {
    forall i: nat {:trigger ElementAt(a, n, i)} ::
      (i < lo || hi <= i) && Bytes(i + 1, n) <= |a| && Bytes(i + 1, n) <= |b| ==>
      ElementAt(a, n, i) == ElementAt(b, n, i)
  }

  /** Elements to..to+count-from-1 of `a` are elements from..count-1 of `b`. */
  ghost predicate MovedElements(a: seq<byte>, b: seq<byte>, n: nat, from: nat, to: nat, count: nat)
  {
    forall i: nat {:trigger ElementAt(a, n, i)} ::
      to <= i < to + count - from && Bytes(i + 1, n) <= |a| && Bytes(i - to + from + 1, n) <= |b| ==>
      ElementAt(a, n, i) == ElementAt(b, n, i - to + from)
  }

  /** Keeping a common prefix of bytes keeps every element within it. */
  lemma PrefixElements(a: seq<byte>, b: seq<byte>, n: nat, k: nat)
    requires k <= |a| && k <= |b| && a[..k] == b[..k]
    requires k == |a| || k == |b|
    ensures SameElements(a, b, n)
  {
    forall i: nat | Bytes(i + 1, n) <= |a| && Bytes(i + 1, n) <= |b|
      ensures ElementAt(a, n, i) == ElementAt(b, n, i)
    {
      ElementOfPrefix(a, b, k, n, i);
    }
  }

  /** What moving elements from..count-1 to start at `to` does to each element. */
  lemma MoveElements(buf: seq<byte>, n: nat, from: nat, to: nat, count: nat)
    requires from <= count && Bytes(count, n) <= |buf| && Bytes(to + count - from, n) <= |buf|
    ensures Bytes(from, n) <= Bytes(count, n) && Bytes(to, n) + (Bytes(count, n) - Bytes(from, n)) <= |buf|
    ensures var r := Splice(buf, Bytes(to, n), buf[Bytes(from, n) .. Bytes(count, n)]);
      MovedElements(r, buf, n, from, to, count) && SameElementsOutside(r, buf, n, to, to + count - from)
  {
    BytesAdd(from, count - from, n);
    BytesAdd(to, count - from, n);
    var block := buf[Bytes(from, n) .. Bytes(count, n)];
    var r := Splice(buf, Bytes(to, n), block);
    forall i: nat | to <= i < to + count - from && Bytes(i + 1, n) <= |r| && Bytes(i - to + from + 1, n) <= |buf|
      ensures ElementAt(r, n, i) == ElementAt(buf, n, i - to + from)
    {
      ElementMoved(buf, n, from, to, count, i);
    }
    forall i: nat | (i < to || to + count - from <= i) && Bytes(i + 1, n) <= |r| && Bytes(i + 1, n) <= |buf|
      ensures ElementAt(r, n, i) == ElementAt(buf, n, i)
    {
      if i < to {
        BytesMono(i + 1, to, n);
      } else {
        BytesMono(to + count - from, i, n);
      }
      ElementOutside(buf, Bytes(to, n), block, n, i);
    }
  }

  /**
   * After a rewrite that stored `v` at element `pos` and kept every other
   * element, each decoded element is `v` or the old one.
   */
  lemma DecodedAfterStore(before: seq<byte>, after: seq<byte>, n: nat, count: nat, pos: nat, v: int, i: nat)
    requires Bytes(count, n) <= |before| && Bytes(count, n) <= |after| && pos < count && i < count
    requires Bytes(pos + 1, n) <= |after| && ElementAt(after, n, pos) == v
    requires SameElementsOutside(after, before, n, pos, pos + 1)
    ensures DecodeAll(after, n, count)[i] == if i == pos then v else DecodeAll(before, n, count)[i]
  {
    BytesMono(i + 1, count, n);
    BytesMono(pos + 1, count, n);
  }

  /** What storing one element does to the bytes before it and to each element of that width. */
  lemma StoreElement(buf: seq<byte>, n: nat, pos: nat, v: int)
    requires n > 0 && Bytes(pos + 1, n) <= |buf|
    ensures var r := Splice(buf, Bytes(pos, n), Encode(v, n));
      && r[..Bytes(pos, n)] == buf[..Bytes(pos, n)]
      && ElementAt(r, n, pos) == Decode(Encode(v, n))
      && (Fits(v, n) ==> ElementAt(r, n, pos) == v)
      && SameElementsOutside(r, buf, n, pos, pos + 1)
  {
    var off := Bytes(pos, n);
    var r := Splice(buf, off, Encode(v, n));
    SpliceInside(buf, off, Encode(v, n), off, off + n);
    assert Slot(r, n, pos) == Encode(v, n);
    assert r[..off] == buf[..off];
    if Fits(v, n) {
      DecodeEncode(v, n);
    }
    forall i: nat | (i < pos || pos + 1 <= i) && Bytes(i + 1, n) <= |r| && Bytes(i + 1, n) <= |buf|
      ensures ElementAt(r, n, i) == ElementAt(buf, n, i)
    {
      SetKeepsOthers(buf, n, pos, v, i);
    }
  }
}
