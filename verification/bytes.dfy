/** Byte strings, fixed-width little-endian integers and the bounds-checked buffer
    accesses Go performs on `[]byte` (indexing, slicing, `copy`, `binary.LittleEndian`).
    A slice's capacity is taken to be its length throughout. */
module Bytes {
  import opened Results

  type byte = b: int | 0 <= b < 256

  const U16: int := 0x1_0000
  const U64: int := 0x1_0000_0000_0000_0000

  type u16 = x: int | 0 <= x < 0x1_0000
  type u64 = x: int | 0 <= x < 0x1_0000_0000_0000_0000

  /** Go's uint16 arithmetic: the result of an operation is taken modulo 2^16. */
  function Wrap16(x: int): u16 {
    x % U16
  }

  lemma Wrap16Id(x: int)
    requires 0 <= x < U16
    ensures Wrap16(x) == x
  {
  }

  function Pow256(w: nat): (p: nat)
    ensures p >= 1
  {
    if w == 0 then 1 else 256 * Pow256(w - 1)
  }

  lemma Pow256Values()
    ensures Pow256(2) == U16
    ensures Pow256(8) == U64
  {
    assert Pow256(1) == 256;
    assert Pow256(2) == 0x1_0000;
    assert Pow256(3) == 0x100_0000;
    assert Pow256(4) == 0x1_0000_0000;
    assert Pow256(5) == 0x100_0000_0000;
    assert Pow256(6) == 0x1_0000_0000_0000;
    assert Pow256(7) == 0x100_0000_0000_0000;
  }

  /** The low `w` bytes of `v`, least significant first, as `binary.LittleEndian.PutUintN`
      stores them. Euclidean `/` and `%` make a negative `v` come out in two's complement,
      which is what Go's conversion of a negative `int` to an unsigned type produces. */
  function LE(v: int, w: nat): (r: seq<byte>)
    ensures |r| == w
    decreases w
  {
    if w == 0 then [] else [v % 256] + LE(v / 256, w - 1)
  }

  /** The unsigned integer a little-endian byte string denotes (`binary.LittleEndian.UintN`). */
  function FromLE(s: seq<byte>): (v: nat)
    ensures v < Pow256(|s|)
  {
    if |s| == 0 then 0 else s[0] + 256 * FromLE(s[1..])
  }

  /** Decoding what was encoded gives back the number, when it fits the width. */
  lemma {:induction false} FromLEOfLE(v: int, w: nat)
    requires 0 <= v < Pow256(w)
    ensures FromLE(LE(v, w)) == v
  {
    if w > 0 {
      assert v / 256 < Pow256(w - 1);
      FromLEOfLE(v / 256, w - 1);
      assert LE(v, w)[1..] == LE(v / 256, w - 1);
    }
  }

  /** Encoding what was decoded gives back the bytes. */
  lemma {:induction false} LEOfFromLE(s: seq<byte>)
    ensures LE(FromLE(s), |s|) == s
  {
    if |s| > 0 {
      var v := FromLE(s);
      assert v % 256 == s[0];
      assert v / 256 == FromLE(s[1..]);
      LEOfFromLE(s[1..]);
      assert s == [s[0]] + s[1..];
    }
  }

  /** The first `k` bytes of a `w`-byte encoding are the `k`-byte encoding: a wide store
      followed by a narrow load reads the value modulo 256^k. */
  lemma {:induction false} LEPrefix(v: int, w: nat, k: nat)
    requires k <= w
    ensures LE(v, w)[..k] == LE(v, k)
    decreases k
  {
    if k > 0 {
      LEPrefix(v / 256, w - 1, k - 1);
      assert LE(v, w)[..k] == [v % 256] + LE(v / 256, w - 1)[..k - 1];
    }
  }

  /** Bytes of an encoding beyond the width the value needs are zero. */
  lemma {:induction false} LEHighZero(v: int, w: nat, k: nat)
    requires k <= w && 0 <= v < Pow256(k)
    ensures forall j :: k <= j < w ==> LE(v, w)[j] == 0
  {
    if k == 0 {
      LEZero(w);
    } else {
      assert v / 256 < Pow256(k - 1);
      LEHighZero(v / 256, w - 1, k - 1);
      assert forall j :: k <= j < w ==> LE(v, w)[j] == LE(v / 256, w - 1)[j - 1];
    }
  }

  lemma {:induction false} LEZero(w: nat)
    ensures forall j :: 0 <= j < w ==> LE(0, w)[j] == 0
  {
    if w > 0 {
      LEZero(w - 1);
    }
  }

  function Min(a: int, b: int): int {
    if a <= b then a else b
  }

  /** A store of `data` at `buf[pos:]`: a `PutUintN` or a single-byte assignment. It panics
      unless the whole window lies inside `buf`, and changes no byte outside the window. */
  function Put(buf: seq<byte>, pos: int, data: seq<byte>): (r: Result<seq<byte>>)
    ensures r.Ok? <==> 0 <= pos && pos + |data| <= |buf|
    ensures r.Ok? ==> |r.value| == |buf|
    ensures r.Ok? ==> forall k :: 0 <= k < |buf| ==>
      r.value[k] == (if pos <= k < pos + |data| then data[k - pos] else buf[k])
  {
    if 0 <= pos && pos + |data| <= |buf| then Ok(buf[..pos] + data + buf[pos + |data|..])
    else Err(Panic)
  }

  /** `copy(buf[at:], src)`: the slice expression panics unless `0 <= at <= len(buf)`;
      then as many bytes of `src` as fit are copied. */
  function Copy(buf: seq<byte>, at: int, src: seq<byte>): (r: Result<seq<byte>>)
    ensures r.Ok? <==> 0 <= at <= |buf|
    ensures r.Ok? ==> |r.value| == |buf|
    ensures r.Ok? && at + |src| <= |buf| ==> r == Put(buf, at, src)
  {
    if 0 <= at <= |buf| then
      var n := Min(|src|, |buf| - at);
      assert n == |src| ==> src[..n] == src;
      Ok(buf[..at] + src[..n] + buf[at + n..])
    else Err(Panic)
  }

  /** The read `buf[i]`. */
  function At(buf: seq<byte>, i: int): (r: Result<byte>)
    ensures r.Ok? <==> 0 <= i < |buf|
  {
    if 0 <= i < |buf| then Ok(buf[i]) else Err(Panic)
  }

  /** The slice expression `buf[lo:hi]`. */
  function Slice(buf: seq<byte>, lo: int, hi: int): (r: Result<seq<byte>>)
    ensures r.Ok? <==> 0 <= lo <= hi <= |buf|
    ensures r.Ok? ==> |r.value| == hi - lo
  {
    if 0 <= lo <= hi <= |buf| then Ok(buf[lo..hi]) else Err(Panic)
  }

  /** `binary.LittleEndian.Uint16(buf[pos:])`. */
  function ReadU16(buf: seq<byte>, pos: int): (r: Result<u16>)
    ensures r.Ok? <==> 0 <= pos && pos + 2 <= |buf|
  {
    if 0 <= pos && pos + 2 <= |buf| then
      Pow256Values();
      Ok(FromLE(buf[pos..pos + 2]))
    else Err(Panic)
  }

  /** `binary.LittleEndian.Uint64(buf[pos:])`. */
  function ReadU64(buf: seq<byte>, pos: int): (r: Result<u64>)
    ensures r.Ok? <==> 0 <= pos && pos + 8 <= |buf|
  {
    if 0 <= pos && pos + 8 <= |buf| then
      Pow256Values();
      Ok(FromLE(buf[pos..pos + 8]))
    else Err(Panic)
  }

  /** `s` is stored at `buf[pos..pos+|s|]`. */
  ghost predicate Holds(buf: seq<byte>, pos: int, s: seq<byte>) {
    && 0 <= pos && pos + |s| <= |buf|
    && forall k :: 0 <= k < |s| ==> buf[pos + k] == s[k]
  }

  lemma HoldsSlice(buf: seq<byte>, pos: int, s: seq<byte>)
    requires Holds(buf, pos, s)
    ensures buf[pos..pos + |s|] == s
  {
  }

  /** A 16-bit value stored with `PutUint16` (or as the low bytes of a `PutUint64`) reads
      back with `Uint16`. */
  lemma ReadU16Of(buf: seq<byte>, pos: int, v: int)
    requires 0 <= v < U16 && Holds(buf, pos, LE(v, 2))
    ensures ReadU16(buf, pos) == Ok(v)
  {
    Pow256Values();
    HoldsSlice(buf, pos, LE(v, 2));
    FromLEOfLE(v, 2);
  }

  /** A 64-bit value stored with `PutUint64` reads back with `Uint64`. */
  lemma ReadU64Of(buf: seq<byte>, pos: int, v: int)
    requires 0 <= v < U64 && Holds(buf, pos, LE(v, 8))
    ensures ReadU64(buf, pos) == Ok(v)
  {
    Pow256Values();
    HoldsSlice(buf, pos, LE(v, 8));
    FromLEOfLE(v, 8);
  }

  /** `b'` differs from `b` at most inside [lo, hi). */
  ghost predicate SameOutside(b: seq<byte>, b': seq<byte>, lo: int, hi: int) {
    && |b'| == |b|
    && forall k :: 0 <= k < |b| && !(lo <= k < hi) ==> b'[k] == b[k]
  }

  lemma PutSame(buf: seq<byte>, pos: int, data: seq<byte>)
    requires Put(buf, pos, data).Ok?
    ensures SameOutside(buf, Put(buf, pos, data).value, pos, pos + |data|)
    ensures Holds(Put(buf, pos, data).value, pos, data)
  {
  }

  lemma SameWiden(b: seq<byte>, b': seq<byte>, lo: int, hi: int, lo': int, hi': int)
    requires SameOutside(b, b', lo, hi) && lo' <= lo && hi <= hi'
    ensures SameOutside(b, b', lo', hi')
  {
  }

  lemma SameTrans(b1: seq<byte>, b2: seq<byte>, b3: seq<byte>, lo: int, hi: int)
    requires SameOutside(b1, b2, lo, hi) && SameOutside(b2, b3, lo, hi)
    ensures SameOutside(b1, b3, lo, hi)
  {
  }

  /** A stored string survives stores confined to a window it does not overlap. */
  lemma HoldsKept(b: seq<byte>, b': seq<byte>, pos: int, s: seq<byte>, lo: int, hi: int)
    requires Holds(b, pos, s) && SameOutside(b, b', lo, hi)
    requires pos + |s| <= lo || hi <= pos
    ensures Holds(b', pos, s)
  {
    forall k | 0 <= k < |s|
      ensures b'[pos + k] == s[k]
    {
      assert b[pos + k] == s[k];
    }
  }

  /** Byte-wise lexicographic order of Go's `bytes.Compare`: -1, 0 or 1, with a proper
      prefix ordered first. */
  function Compare(a: seq<byte>, b: seq<byte>): (c: int)
    ensures -1 <= c <= 1
    ensures c == 0 <==> a == b
  {
    if |a| == 0 && |b| == 0 then 0
    else if |a| == 0 then -1
    else if |b| == 0 then 1
    else if a[0] < b[0] then -1
    else if a[0] > b[0] then 1
    else
      assert a == [a[0]] + a[1..] && b == [b[0]] + b[1..];
      Compare(a[1..], b[1..])
  }

  /** Swapping the arguments negates the comparison. */
  lemma {:induction false} CompareAntisymmetric(a: seq<byte>, b: seq<byte>)
    ensures Compare(b, a) == -Compare(a, b)
  {
    if |a| > 0 && |b| > 0 && a[0] == b[0] {
      CompareAntisymmetric(a[1..], b[1..]);
    }
  }

  /** The strict order is transitive. */
  lemma {:induction false} CompareTransitive(a: seq<byte>, b: seq<byte>, c: seq<byte>)
    requires Compare(a, b) < 0 && Compare(b, c) < 0
    ensures Compare(a, c) < 0
  {
    if |a| > 0 && |b| > 0 && |c| > 0 && a[0] == b[0] && b[0] == c[0] {
      CompareTransitive(a[1..], b[1..], c[1..]);
    }
  }
}
