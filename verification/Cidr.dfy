/**
  Canonical IPv4 prefixes: aligned power-of-two blocks of a 32-bit address
  space (section 3.1 of RFC 4632). Every other module that reasons about
  addresses does so through this one.
 */
module Cidr {

  const SPACE: nat := 0x1_0000_0000
  const TOP: nat := 0xFFFF_FFFF

  function Pow2(k: nat): (p: nat)
    ensures p > 0
  {
    if k == 0 then 1 else 2 * Pow2(k - 1)
  }

  /** The low k bits of a are zero, so that masking them off changes nothing. */
  predicate Aligned(a: nat, k: nat)
    decreases k, a
  {
    k == 0 || (a % 2 == 0 && Aligned(a / 2, k - 1))
  }

  /** A netip.Prefix: a network address and a mask length. */
  datatype Prefix = Prefix(addr: nat, bits: nat) {
    /** Canonical: the address has no host bits set. */
    predicate Valid() {
      bits <= 32 && addr < SPACE && Aligned(addr, 32 - bits)
    }

    function Size(): nat {
      Pow2(if bits <= 32 then 32 - bits else 0)
    }

    function Last(): nat {
      addr + Size() - 1
    }

    predicate Has(a: int) {
      addr <= a <= Last()
    }

    /** Contains the other prefix's address and is no longer: it contains the other prefix. */
    predicate Covers(q: Prefix) {
      bits <= q.bits && Has(q.addr)
    }

    /** netip.Prefix.Overlaps: the shorter mask decides, as the library compares. */
    predicate Overlaps(q: Prefix) {
      if bits <= q.bits then Has(q.addr) else q.Has(addr)
    }
  }

  lemma {:induction false} Pow2Monotone(j: nat, k: nat)
    requires j <= k
    ensures Pow2(j) <= Pow2(k)
    ensures j < k ==> 2 * Pow2(j) <= Pow2(k)
    decreases k
  {
    if j < k {
      Pow2Monotone(j, k - 1);
    }
  }

  lemma Pow2Values()
    ensures Pow2(0) == 1 && Pow2(8) == 256 && Pow2(16) == 0x1_0000 && Pow2(24) == 0x100_0000
    ensures Pow2(31) == 0x8000_0000 && Pow2(32) == SPACE
  {
    assert Pow2(8) == 256;
    assert Pow2(16) == 0x1_0000;
    assert Pow2(24) == 0x100_0000;
  }

  lemma {:induction false} AlignedDown(a: nat, j: nat, k: nat)
    requires j <= k && Aligned(a, k)
    ensures Aligned(a, j)
    decreases k
  {
    if 0 < j {
      AlignedDown(a / 2, j - 1, k - 1);
    }
  }

  lemma {:induction false} ZeroAligned(k: nat)
    ensures Aligned(0, k)
  {
    if 0 < k {
      ZeroAligned(k - 1);
    }
  }

  /** Two multiples of 2^k less than 2^k apart are in order. */
  lemma {:induction false} MultiplesGap(u: nat, v: nat, k: nat)
    requires Aligned(u, k) && Aligned(v, k) && u < v + Pow2(k)
    ensures u <= v
    decreases k
  {
    if 0 < k {
      MultiplesGap(u / 2, v / 2, k - 1);
    }
  }

  lemma {:induction false} SumAligned(u: nat, v: nat, k: nat)
    requires Aligned(u, k) && Aligned(v, k)
    ensures Aligned(u + v, k)
    decreases k
  {
    if 0 < k {
      SumAligned(u / 2, v / 2, k - 1);
      assert (u + v) / 2 == u / 2 + v / 2;
    }
  }

  lemma {:induction false} SizeAligned(j: nat, k: nat)
    requires j <= k
    ensures Aligned(Pow2(k), j)
    decreases k
  {
    if 0 < j {
      SizeAligned(j - 1, k - 1);
    }
  }

  lemma LastInSpace(p: Prefix)
    requires p.Valid()
    ensures p.Last() <= TOP
  {
    Pow2Values();
    SizeAligned(32 - p.bits, 32);
    if p.addr + p.Size() > SPACE {
      // addr and 2^32 are multiples of the size, and addr is below 2^32.
      MultiplesGap(SPACE, p.addr, 32 - p.bits);
      assert false;
    }
  }

  /**
    CIDR blocks never partially overlap: a shared address puts the longer
    mask wholly inside the shorter one.
   */
  lemma Laminar(p: Prefix, q: Prefix, a: int)
    requires p.Valid() && q.Valid() && p.bits <= q.bits
    requires p.Has(a) && q.Has(a)
    ensures p.addr <= q.addr && q.Last() <= p.Last()
    ensures p.bits == q.bits ==> p == q
    ensures p.bits < q.bits ==> q.Size() < p.Size()
  {
    var k := 32 - q.bits;
    AlignedDown(p.addr, k, 32 - p.bits);
    MultiplesGap(p.addr, q.addr, k);
    SizeAligned(k, 32 - p.bits);
    SumAligned(p.addr, p.Size(), k);
    SizeAligned(k, k);
    SumAligned(q.addr, q.Size(), k);
    MultiplesGap(q.addr + q.Size(), p.addr + p.Size(), k);
    Pow2Monotone(k, 32 - p.bits);
  }

  /** Overlaps is exactly "some address is in both". */
  lemma OverlapsIffShare(p: Prefix, q: Prefix)
    requires p.Valid() && q.Valid()
    ensures p.Overlaps(q) <==> exists a :: p.Has(a) && q.Has(a)
    ensures p.Overlaps(q) <==> p.addr <= q.Last() && q.addr <= p.Last()
  {
    if p.Overlaps(q) {
      assert q.Has(q.addr) && p.Has(p.addr);
    }
    if p.addr <= q.Last() && q.addr <= p.Last() {
      var a := if p.addr <= q.addr then q.addr else p.addr;
      assert p.Has(a) && q.Has(a);
      if p.bits <= q.bits { Laminar(p, q, a); } else { Laminar(q, p, a); }
    }
  }

  /** Some address is in both. */
  ghost predicate Meets(p: Prefix, q: Prefix) {
    exists x :: p.Has(x) && q.Has(x)
  }

  /** Every address of q is an address of p. */
  ghost predicate Inside(p: Prefix, q: Prefix) {
    forall x: int :: q.Has(x) ==> p.Has(x)
  }

  lemma CoversIffInside(p: Prefix, q: Prefix)
    requires p.Valid() && q.Valid()
    ensures p.Covers(q) <==> Inside(p, q)
  {
    assert q.Has(q.addr) && q.Has(q.Last());
    if p.Covers(q) {
      Laminar(p, q, q.addr);
    }
    if Inside(p, q) && q.bits < p.bits {
      Laminar(q, p, q.addr);
      assert false;
    }
  }

  /** The one prefix is wider: some of its addresses are not the other's. */
  ghost predicate Strictly(p: Prefix, q: Prefix) {
    Inside(p, q) && exists x: int :: p.Has(x) && !q.Has(x)
  }

  lemma StrictlyIff(p: Prefix, q: Prefix)
    requires p.Valid() && q.Valid()
    ensures Strictly(p, q) <==> p.Covers(q) && p != q
    ensures Strictly(p, q) <==> p.bits < q.bits && p.Has(q.addr)
  {
    CoversIffInside(p, q);
    if p.Covers(q) {
      Laminar(p, q, q.addr);
      if p != q {
        assert p.bits < q.bits;
        assert !q.Has(p.addr) || !q.Has(p.Last());
        assert p.Has(p.addr) && p.Has(p.Last());
      }
    }
  }

  /** The address with its k low bits cleared. */
  function Masked(a: nat, k: nat): (m: nat)
    ensures m <= a && Aligned(m, k) && (m == a <==> Aligned(a, k))
    decreases k, a
  {
    if k == 0 then a else 2 * Masked(a / 2, k - 1)
  }

  function MaskedPrefix(a: nat, bits: nat): (p: Prefix)
    requires bits <= 32
    ensures a < SPACE ==> p.Valid()
  {
    Prefix(Masked(a, 32 - bits), bits)
  }

  /** Some block of s holds the address. */
  ghost predicate Holds(s: seq<Prefix>, x: int) {
    exists i :: 0 <= i < |s| && s[i].Has(x)
  }
}
