/**
 * The Adler-32 checksum of section 2.2 of RFC 1950, as the incremental update
 * `av_adler32_update(adler, buf, len)` the filter calls: the 32-bit value is split
 * into the sums s1 (low 16 bits) and s2 (high 16 bits), every byte advances both
 * sums modulo 65521, and the sums are packed back. This is the reference loop of
 * section 9 of RFC 1950, written as a fold over the bytes.
 */
module Adler32 {
  import opened Common

  /** The largest prime smaller than 65536 (section 2.2 of RFC 1950). */
  const BASE: nat := 65521

  /** The two running sums of the checksum. */
  datatype Sums = Sums(s1: nat, s2: nat)

  /** Both sums fit their 16-bit halves of the checksum. */
  predicate Packable(s: Sums) {
    s.s1 < 0x1_0000 && s.s2 < 0x1_0000
  }

  /** Both sums have been reduced modulo BASE. */
  predicate Reduced(s: Sums) {
    s.s1 < BASE && s.s2 < BASE
  }

  /** Splits a checksum into s1 (low half) and s2 (high half). */
  function Unpack(adler: uint32): (s: Sums)
    ensures Packable(s)
    ensures s.s2 * 0x1_0000 + s.s1 == adler
  {
    Sums(adler % 0x1_0000, adler / 0x1_0000)
  }

  /** Joins the two sums into one 32-bit checksum; splitting it again gives the sums back. */
  function Pack(s: Sums): (adler: uint32)
    requires Packable(s)
    ensures Unpack(adler) == s
  {
    s.s2 * 0x1_0000 + s.s1
  }

  /** One byte of the reference loop: s1 absorbs the byte, then s2 absorbs the new s1. */
  function Step(s: Sums, b: byte): (t: Sums)
    ensures Reduced(t)
    ensures t.s1 == (s.s1 + b as nat) % BASE
  {
    var s1 := (s.s1 + b as nat) % BASE;
    Sums(s1, (s.s2 + s1) % BASE)
  }

  /** The reference loop over a whole buffer, first byte first. */
  function Fold(s: Sums, data: seq<byte>): (t: Sums)
    ensures |data| == 0 ==> t == s
    ensures |data| > 0 ==> Reduced(t)
    ensures Packable(s) ==> Packable(t)
    decreases |data|
  {
    if |data| == 0 then s else Fold(Step(s, data[0]), data[1..])
  }

  /**
   * `av_adler32_update(adler, data, |data|)`. Once a byte has been absorbed, or when
   * the seed's halves are already below BASE, both halves of the result are below BASE.
   */
  function Update(adler: uint32, data: seq<byte>): (r: uint32)
    ensures Reduced(Unpack(adler)) || |data| > 0 ==> Reduced(Unpack(r))
  {
    Pack(Fold(Unpack(adler), data))
  }

  /** Splitting a checksum and joining the halves again changes nothing. */
  lemma PackUnpack(adler: uint32)
    ensures Pack(Unpack(adler)) == adler
  {
  }

  /** Feeding two buffers one after the other is feeding their concatenation. */
  lemma {:induction false} FoldAppend(s: Sums, a: seq<byte>, b: seq<byte>)
    ensures Fold(Fold(s, a), b) == Fold(s, a + b)
    decreases |a|
  {
    if |a| == 0 {
      assert a + b == b;
    } else {
      assert (a + b)[0] == a[0];
      assert (a + b)[1..] == a[1..] + b;
      FoldAppend(Step(s, a[0]), a[1..], b);
    }
  }

  /**
   * The chaining rule of the incremental checksum: continuing from the checksum of
   * `a` over `b` yields the checksum of `a + b`.
   */
  lemma UpdateChain(adler: uint32, a: seq<byte>, b: seq<byte>)
    ensures Update(Update(adler, a), b) == Update(adler, a + b)
  {
    var mid := Fold(Unpack(adler), a);
    assert Unpack(Pack(mid)) == mid;
    FoldAppend(Unpack(adler), a, b);
  }

  /** An empty buffer leaves any checksum as it was. */
  lemma UpdateEmpty(adler: uint32)
    ensures Update(adler, []) == adler
  {
    PackUnpack(adler);
  }

  /** Sum of the byte values: the s1 of section 2.2 of RFC 1950 without its seed. */
  function Sum(data: seq<byte>): nat
    decreases |data|
  {
    if |data| == 0 then 0 else data[0] as nat + Sum(data[1..])
  }

  /**
   * Sum of the bytes each weighted by how many bytes, itself included, remain from it
   * to the end: the s2 of section 2.2 of RFC 1950 without its seed.
   */
  function Weighted(data: seq<byte>): nat
    decreases |data|
  {
    if |data| == 0 then 0 else |data| * (data[0] as nat) + Weighted(data[1..])
  }

  /** Adding a multiple of BASE does not change a residue. */
  lemma ModMultiple(k: nat, y: nat)
    ensures (k * BASE + y) % BASE == y % BASE
  {
    var q := y / BASE;
    var r := y % BASE;
    assert y == q * BASE + r;
    assert k * BASE + y == (k + q) * BASE + r;
  }

  /** Reducing an addend first does not change the residue of a sum. */
  lemma ModAdd(x: nat, y: nat)
    ensures (x % BASE + y) % BASE == (x + y) % BASE
  {
    ModMultiple(x / BASE, x % BASE + y);
    assert x + y == (x / BASE) * BASE + (x % BASE + y);
  }

  /** Reducing a factor first does not change the residue of a product. */
  lemma ModMul(m: nat, x: nat)
    ensures (m * (x % BASE)) % BASE == (m * x) % BASE
  {
    var q := x / BASE;
    var r := x % BASE;
    assert x == q * BASE + r;
    assert m * x == (m * q) * BASE + m * r;
    ModMultiple(m * q, m * r);
  }

  /** The arithmetic of one step of the closed form, for s2: reducing s1 and s2 early is harmless. */
  lemma ResidueStep(s2: nat, x: nat, m: nat, w: nat)
    ensures ((s2 + x % BASE) % BASE + m * (x % BASE) + w) % BASE == (s2 + x + m * x + w) % BASE
  {
    var a := x % BASE;
    var b := (s2 + a) % BASE;
    ModAdd(s2 + a, m * a + w);
    assert (b + m * a + w) % BASE == (s2 + a + m * a + w) % BASE;
    ModMul(m, x);
    ModAdd(m * a, s2 + a + w);
    ModAdd(m * x, s2 + a + w);
    assert (s2 + a + m * a + w) % BASE == (s2 + a + m * x + w) % BASE;
    ModAdd(x, s2 + m * x + w);
  }

  /**
   * The closed form of section 2.2 of RFC 1950: after the buffer, s1 is the seed's s1
   * plus all bytes, and s2 is the seed's s2 plus s1 counted once per byte plus the
   * weighted byte sum, both modulo BASE.
   */
  lemma {:induction false} FoldClosedForm(s: Sums, data: seq<byte>)
    requires Reduced(s)
    ensures Fold(s, data)
         == Sums((s.s1 + Sum(data)) % BASE, (s.s2 + |data| * s.s1 + Weighted(data)) % BASE)
    decreases |data|
  {
    if |data| > 0 {
      var rest := data[1..];
      var t := Step(s, data[0]);
      assert Fold(s, data) == Fold(t, rest);
      FoldClosedForm(t, rest);
      ClosedFormCase(s, t, data[0] as nat, |rest|, |data|, Sum(rest), Weighted(rest),
                     Sum(data), Weighted(data), Fold(t, rest));
    } else {
      ClosedFormEmpty(s, |data|, Sum(data), Weighted(data));
    }
  }

  /** The closed form of an empty buffer: a reduced seed is its own residue. */
  lemma ClosedFormEmpty(s: Sums, n: nat, sum: nat, weighted: nat)
    requires Reduced(s) && n == 0 && sum == 0 && weighted == 0
    ensures s == Sums((s.s1 + sum) % BASE, (s.s2 + n * s.s1 + weighted) % BASE)
  {
  }

  /**
   * One byte of the closed form, stated on the sums alone: after the byte `d`, the
   * closed form of the remaining `m` bytes gives the closed form of all `n` bytes.
   */
  lemma ClosedFormCase(s: Sums, t: Sums, d: nat, m: nat, n: nat, sumRest: nat, weightedRest: nat,
                       sum: nat, weighted: nat, r: Sums)
    requires t == Sums((s.s1 + d) % BASE, (s.s2 + (s.s1 + d) % BASE) % BASE)
    requires r == Sums((t.s1 + sumRest) % BASE, (t.s2 + m * t.s1 + weightedRest) % BASE)
    requires n == m + 1 && sum == d + sumRest && weighted == n * d + weightedRest
    ensures r == Sums((s.s1 + sum) % BASE, (s.s2 + n * s.s1 + weighted) % BASE)
  {
    ClosedFormStep(s.s1, s.s2, d, m, sumRest, weightedRest);
  }

  /** The arithmetic of one byte of the closed form: s1 and s2 may be reduced early. */
  lemma ClosedFormStep(s1: nat, s2: nat, d: nat, m: nat, sumRest: nat, weightedRest: nat)
    ensures ((s1 + d) % BASE + sumRest) % BASE == (s1 + (d + sumRest)) % BASE
    ensures ((s2 + (s1 + d) % BASE) % BASE + m * ((s1 + d) % BASE) + weightedRest) % BASE
         == (s2 + (m + 1) * s1 + ((m + 1) * d + weightedRest)) % BASE
  {
    var x := s1 + d;
    ModAdd(x, sumRest);
    ResidueStep(s2, x, m, weightedRest);
    Distribute(m, s1, d);
  }

  /** (m + 1) * (a + d) written out; kept apart so that the closed form stays linear. */
  lemma Distribute(m: nat, a: nat, d: nat)
    ensures (m + 1) * a + (m + 1) * d == (a + d) + m * (a + d)
  {
  }

  /**
   * With the seed 0 the filter uses, the checksum of a buffer is the weighted sum in the
   * high half and the plain sum in the low half, each modulo BASE.
   */
  lemma UpdateFromZero(data: seq<byte>)
    ensures Update(0, data) == (Weighted(data) % BASE) * 0x1_0000 + Sum(data) % BASE
  {
    FoldClosedForm(Sums(0, 0), data);
  }
}
