/** Little-endian bit strings: bit 0 of a value comes first. This is the order in
    which GCC allocates the bit-fields of a packed struct on a little-endian
    target, so a packed struct is the concatenation of its fields' bit strings. */
module Bits {

  function Pow2(n: nat): (r: nat)
    ensures r > 0
  {
    if n == 0 then 1 else 2 * Pow2(n - 1)
  }

  /** The low `width` bits of `v`, least significant first. */
  function ToBits(v: nat, width: nat): (bits: seq<bool>)
    ensures |bits| == width
  {
    if width == 0 then [] else [v % 2 == 1] + ToBits(v / 2, width - 1)
  }

  /** The unsigned value of a bit string, least significant bit first. */
  function FromBits(bits: seq<bool>): (v: nat)
    ensures v < Pow2(|bits|)
  {
    if bits == [] then 0 else (if bits[0] then 1 else 0) + 2 * FromBits(bits[1..])
  }

  /** The value of one bit. */
  function BitValue(b: bool): (v: nat)
    ensures v < 2
  {
    if b then 1 else 0
  }

  /** One step of the value of a bit string, taken at position `k`. */
  lemma FromBitsUnfold(bits: seq<bool>, k: nat)
    requires k < |bits|
    ensures FromBits(bits[k..]) == BitValue(bits[k]) + 2 * FromBits(bits[k + 1..])
  {
    assert bits[k..][1..] == bits[k + 1..];
  }

  lemma DivModUnique(v: int, m: int, q: int, r: int)
    requires m > 0 && 0 <= r < m && v == m * q + r
    ensures v / m == q && v % m == r
  {
    var d := q - v / m;
    assert m * d == v % m - r;
    if d > 0 {
      MulAtLeast(m, d);
    } else if d < 0 {
      MulAtLeast(m, -d);
    }
  }

  lemma MulAtLeast(m: int, d: int)
    requires m > 0 && d >= 1
    ensures m * d >= m
  {
  }

  lemma ModOfDouble(v: nat, p: nat)
    requires p > 0
    ensures v % (2 * p) == v % 2 + 2 * ((v / 2) % p)
  {
    var q, r := (v / 2) / p, (v / 2) % p;
    assert v / 2 == p * q + r;
    assert v == (2 * p) * q + (2 * r + v % 2);
    DivModUnique(v, 2 * p, q, 2 * r + v % 2);
  }

  /** Reading back the bits written keeps the low `width` bits of the value. */
  lemma {:induction false} FromToBits(v: nat, width: nat)
    ensures FromBits(ToBits(v, width)) == v % Pow2(width)
  {
    if width > 0 {
      var bits := ToBits(v, width);
      assert bits[1..] == ToBits(v / 2, width - 1);
      FromToBits(v / 2, width - 1);
      ModOfDouble(v, Pow2(width - 1));
    }
  }

  /** Every bit string is the encoding of its own value. */
  lemma {:induction false} ToFromBits(bits: seq<bool>)
    ensures ToBits(FromBits(bits), |bits|) == bits
  {
    if bits != [] {
      ToFromBits(bits[1..]);
    }
  }

  /** The concatenation of the `width`-bit encodings of `vals`, first value first. */
  function Flatten(vals: seq<nat>, width: nat): (bits: seq<bool>)
    ensures |bits| == |vals| * width
  {
    if vals == [] then [] else ToBits(vals[0], width) + Flatten(vals[1..], width)
  }

  /** `count` consecutive `width`-bit fields of `bits`, as unsigned values. */
  function Chunk(bits: seq<bool>, width: nat, count: nat): (vals: seq<nat>)
    requires |bits| == count * width
    ensures |vals| == count
  {
    if count == 0 then [] else [FromBits(bits[..width])] + Chunk(bits[width..], width, count - 1)
  }

  /** Field `i` of a chunked string is the value of bits `width * i` up to `width * (i + 1)`. */
  lemma {:induction false} ChunkAt(bits: seq<bool>, width: nat, count: nat, i: nat)
    requires |bits| == count * width && i < count
    ensures width * i + width <= |bits|
    ensures Chunk(bits, width, count)[i] == FromBits(bits[width * i .. width * i + width])
    decreases i
  {
    MulStep(width, count - 1);
    MulMonotone(width, i + 1, count);
    MulStep(width, i);
    if i > 0 {
      ChunkAtNext(bits, width, count, i);
    }
  }

  /** Field `i` of a chunked string is field `i - 1` of the string after its first field. */
  lemma {:induction false} ChunkAtNext(bits: seq<bool>, width: nat, count: nat, i: nat)
    requires |bits| == count * width && 0 < i < count
    ensures width * i + width <= |bits|
    ensures Chunk(bits, width, count)[i] == FromBits(bits[width * i .. width * i + width])
    decreases i, 0
  {
    MulStep(width, count - 1);
    MulStep(width, i - 1);
    MulMonotone(width, i + 1, count);
    MulStep(width, i);
    var rest := bits[width..];
    var lo: nat := width * (i - 1);
    ChunkAt(rest, width, count - 1, i - 1);
    assert Chunk(bits, width, count)[i] == Chunk(rest, width, count - 1)[i - 1];
    SliceOfSlice(bits, width, lo, lo + width);
  }

  lemma MulStep(a: nat, b: nat)
    ensures a * (b + 1) == a * b + a && (b + 1) * a == a * b + a && a * b >= 0
  {
  }

  lemma MulPred(a: nat, n: nat)
    requires n > 0
    ensures n * a == a + (n - 1) * a
  {
  }

  lemma MulMonotone(a: nat, b: nat, c: nat)
    requires b <= c
    ensures a * b <= c * a
  {
  }

  lemma SliceOfSlice<T>(s: seq<T>, a: nat, b: nat, c: nat)
    requires a <= |s| && b <= c <= |s| - a
    ensures s[a..][b..c] == s[a + b..a + c]
  {
  }

  /** Chunking a flattened sequence gives back each value reduced to `width` bits. */
  lemma {:induction false} ChunkFlatten(vals: seq<nat>, width: nat)
    ensures Chunk(Flatten(vals, width), width, |vals|) == seq(|vals|, i requires 0 <= i < |vals| => vals[i] % Pow2(width))
  {
    if vals != [] {
      var bits := Flatten(vals, width);
      assert bits[..width] == ToBits(vals[0], width);
      assert bits[width..] == Flatten(vals[1..], width);
      FromToBits(vals[0], width);
      ChunkFlatten(vals[1..], width);
    }
  }

  /** Flattening the chunks of a bit string gives back the bit string. */
  lemma {:induction false} FlattenChunk(bits: seq<bool>, width: nat, count: nat)
    requires |bits| == count * width
    ensures Flatten(Chunk(bits, width, count), width) == bits
  {
    if count > 0 {
      MulPred(width, count);
      var head, tail := bits[..width], bits[width..];
      var ch := Chunk(bits, width, count);
      assert ch[0] == FromBits(head) && ch[1..] == Chunk(tail, width, count - 1);
      ToFromBits(head);
      FlattenChunk(tail, width, count - 1);
      assert Flatten(ch, width) == ToBits(ch[0], width) + Flatten(ch[1..], width);
      assert bits == head + tail;
    }
  }
}
