/**
  Pool capacity: occupiedBlocks and the allocatable arithmetic of
  internal/service/capacity.go. Interval arithmetic is proved equal to counting
  the blocks that some occupied prefix touches.
 */
module Capacity {
  import opened Cidr
  import opened Ordering
  import RangeCover

  /** Inclusive block indices. */
  datatype Interval = Interval(first: nat, last: nat)

  // ----- shifts -----

  /** Right shift by k bits. */
  function Shr(a: nat, k: nat): nat
    decreases k, a
  {
    if k == 0 then a else Shr(a / 2, k - 1)
  }

  /** Left shift by k bits. */
  function Shl(n: nat, k: nat): nat
    decreases k, n
  {
    if k == 0 then n else 2 * Shl(n, k - 1)
  }

  /** The right shift by k is the index of the size-2^k block that holds a. */
  lemma {:induction false} ShiftBlock(a: nat, k: nat, n: nat)
    ensures Shr(a, k) == n <==> Shl(n, k) <= a < Shl(n + 1, k)
    decreases k
  {
    if k > 0 {
      ShiftBlock(a / 2, k - 1, n);
    }
  }

  lemma {:induction false} ShrMonotone(a: nat, b: nat, k: nat)
    requires a <= b
    ensures Shr(a, k) <= Shr(b, k)
    decreases k
  {
    if k > 0 {
      ShrMonotone(a / 2, b / 2, k - 1);
    }
  }

  lemma {:induction false} ShlNext(n: nat, k: nat)
    ensures Shl(n + 1, k) == Shl(n, k) + Pow2(k)
    decreases k
  {
    if k > 0 {
      ShlNext(n, k - 1);
    }
  }

  lemma {:induction false} ShrBound(a: nat, m: nat, k: nat)
    requires k <= m && a < Pow2(m)
    ensures Shr(a, k) < Pow2(m - k)
    decreases k
  {
    if k > 0 {
      ShrBound(a / 2, m - 1, k - 1);
    }
  }

  // ----- the definition: which blocks are touched -----

  /** Block n of the pool at the given mask length. */
  function Block(base: Prefix, bits: nat, n: nat): Prefix
    requires bits <= 32
  {
    Prefix(base.addr + Shl(n, 32 - bits), bits)
  }

  predicate Touches(p: Prefix, q: Prefix) {
    p.addr <= q.Last() && q.addr <= p.Last()
  }

  /** How many blocks of the given mask length the pool holds. */
  function BlockCount(base: Prefix, bits: nat): nat
    requires base.bits <= bits
  {
    Pow2(bits - base.bits)
  }

  /** The blocks of the pool that share an address with some occupied prefix. */
  ghost function Occupied(base: Prefix, bits: nat, prefixes: seq<Prefix>): set<nat>
    requires base.bits <= bits <= 32
  {
    set n: nat | n < BlockCount(base, bits) &&
                 exists i :: 0 <= i < |prefixes| && Touches(Block(base, bits, n), prefixes[i])
  }

  ghost function Free(base: Prefix, bits: nat, prefixes: seq<Prefix>): set<nat>
    requires base.bits <= bits <= 32
  {
    set n: nat | n < BlockCount(base, bits) &&
                 forall i :: 0 <= i < |prefixes| ==> !Touches(Block(base, bits, n), prefixes[i])
  }

  // ----- one prefix as an interval of block indices -----

  function Max(a: nat, b: nat): nat { if a < b then b else a }
  function Min(a: nat, b: nat): nat { if a < b then a else b }

  /** The clipped interval the loop appends for a prefix that overlaps the pool. */
  function Clip(base: Prefix, bits: nat, p: Prefix): Interval
    requires bits <= 32 && Touches(base, p)
  {
    var lo, hi := Max(p.addr, base.addr), Min(p.Last(), base.Last());
    Interval(Shr(lo - base.addr, 32 - bits), Shr(hi - base.addr, 32 - bits))
  }

  lemma ClipBounds(base: Prefix, bits: nat, p: Prefix)
    requires base.bits <= bits <= 32 && Touches(base, p)
    ensures Clip(base, bits, p).first <= Clip(base, bits, p).last < BlockCount(base, bits)
  {
    var lo, hi := Max(p.addr, base.addr), Min(p.Last(), base.Last());
    ShrMonotone(lo - base.addr, hi - base.addr, 32 - bits);
    ShrBound(hi - base.addr, 32 - base.bits, 32 - bits);
  }

  /** [lo, hi] meets block n exactly when n lies between the blocks of lo and hi. */
  lemma InBlocks(lo: nat, hi: nat, k: nat, n: nat)
    ensures Shl(n, k) <= hi <==> n <= Shr(hi, k)
    ensures lo < Shl(n + 1, k) <==> Shr(lo, k) <= n
  {
    ShiftBlock(lo, k, Shr(lo, k));
    ShiftBlock(hi, k, Shr(hi, k));
    ShlOrder(n, Shr(lo, k), k);
    ShlOrder(Shr(lo, k), n, k);
    ShlOrder(n, Shr(hi, k), k);
  }

  /** A block is touched exactly when its index is in the interval. */
  lemma ClipExact(base: Prefix, bits: nat, p: Prefix, n: nat)
    requires base.bits <= bits <= 32 && Touches(base, p) && n < BlockCount(base, bits)
    ensures Touches(Block(base, bits, n), p) <==> Clip(base, bits, p).first <= n <= Clip(base, bits, p).last
  {
    var k := 32 - bits;
    ShlNext(n, k);
    InBlocks(Max(p.addr, base.addr) - base.addr, Min(p.Last(), base.Last()) - base.addr, k, n);
    BlockInPool(base, bits, n);
  }

  lemma {:induction false} ShlMonotone(m: nat, n: nat, k: nat)
    requires m <= n
    ensures Shl(m, k) <= Shl(n, k)
    decreases k
  {
    if k > 0 {
      ShlMonotone(m, n, k - 1);
    }
  }

  lemma ShlOrder(m: nat, n: nat, k: nat)
    ensures m <= n ==> Shl(m, k) <= Shl(n, k) && Shl(m + 1, k) <= Shl(n + 1, k)
    ensures m < n ==> Shl(m + 1, k) <= Shl(n, k)
    ensures n < m ==> Shl(n + 1, k) <= Shl(m, k)
  {
    if m <= n { ShlMonotone(m, n, k); ShlMonotone(m + 1, n + 1, k); }
    if m < n { ShlMonotone(m + 1, n, k); }
    if n < m { ShlMonotone(n + 1, m, k); }
  }

  lemma {:induction false} ShlPow(k: nat, m: nat)
    requires k <= m
    ensures Shl(Pow2(m - k), k) == Pow2(m)
    decreases k
  {
    if k > 0 {
      ShlPow(k - 1, m - 1);
    }
  }

  lemma BlockInPool(base: Prefix, bits: nat, n: nat)
    requires base.bits <= bits <= 32 && n < BlockCount(base, bits)
    ensures base.addr <= Block(base, bits, n).addr && Block(base, bits, n).Last() <= base.Last()
  {
    var k := 32 - bits;
    ShlNext(n, k);
    ShlMonotone(n + 1, BlockCount(base, bits), k);
    ShlPow(k, 32 - base.bits);
    assert (32 - base.bits) - k == bits - base.bits;
  }

  lemma NoTouchOutside(base: Prefix, bits: nat, p: Prefix, n: nat)
    requires base.bits <= bits <= 32 && !Touches(base, p) && n < BlockCount(base, bits)
    ensures !Touches(Block(base, bits, n), p)
  {
    BlockInPool(base, bits, n);
  }

  // ----- the union of the intervals -----

  predicate In(r: Interval, n: nat) {
    r.first <= n <= r.last
  }

  ghost predicate Hit(s: seq<Interval>, n: nat) {
    exists i :: 0 <= i < |s| && In(s[i], n)
  }

  ghost function Covered(s: seq<Interval>, limit: nat): set<nat> {
    set n: nat | n < limit && Hit(s, n)
  }

  ghost predicate Below(s: seq<Interval>, limit: nat) {
    forall i :: 0 <= i < |s| ==> s[i].first <= s[i].last < limit
  }

  /** A parsed IPv4 prefix, host bits not necessarily zero. */
  predicate Parsed(p: Prefix) {
    p.addr < SPACE && p.bits <= 32
  }

  predicate AllParsed(raw: seq<Prefix>) {
    forall i :: 0 <= i < |raw| ==> Parsed(raw[i])
  }

  /** Every prefix with its host bits cleared. */
  function MaskAll(raw: seq<Prefix>): (s: seq<Prefix>)
    requires AllParsed(raw)
    ensures |s| == |raw| && forall i :: 0 <= i < |raw| ==> s[i] == MaskedPrefix(raw[i].addr, raw[i].bits) && s[i].Valid()
  {
    seq(|raw|, i requires 0 <= i < |raw| => MaskedPrefix(raw[i].addr, raw[i].bits))
  }

  /** The clipped intervals of the prefixes that overlap the pool, in input order. */
  method Clips(base: Prefix, bits: nat, raw: seq<Prefix>) returns (ranges: seq<Interval>)
    requires base.Valid() && base.bits <= bits <= 32
    requires AllParsed(raw)
    ensures Below(ranges, BlockCount(base, bits))
    ensures Covered(ranges, BlockCount(base, bits)) == Occupied(base, bits, MaskAll(raw))
  {
    var n := BlockCount(base, bits);
    ghost var prefixes := MaskAll(raw);
    ranges := [];
    for i := 0 to |raw|
      invariant Below(ranges, n)
      invariant Covered(ranges, n) == Occupied(base, bits, prefixes[..i])
    {
      var p := MaskedPrefix(raw[i].addr, raw[i].bits);
      OverlapsIffShare(base, p);
      assert prefixes[..i + 1] == prefixes[..i] + [p];
      if !base.Overlaps(p) {
        OccupiedSkip(base, bits, prefixes[..i], p);
      } else {
        OccupiedAdd(base, bits, prefixes[..i], p, ranges);
        ranges := ranges + [Clip(base, bits, p)];
      }
    }
    assert prefixes[..|raw|] == prefixes;
  }

  lemma OccupiedSkip(base: Prefix, bits: nat, prefixes: seq<Prefix>, p: Prefix)
    requires base.bits <= bits <= 32 && !Touches(base, p)
    ensures Occupied(base, bits, prefixes + [p]) == Occupied(base, bits, prefixes)
  {
    forall n: nat | n < BlockCount(base, bits)
      ensures n in Occupied(base, bits, prefixes + [p]) <==> n in Occupied(base, bits, prefixes)
    {
      NoTouchOutside(base, bits, p, n);
      TouchedStep(base, bits, prefixes, p, n);
    }
  }

  lemma TouchedStep(base: Prefix, bits: nat, prefixes: seq<Prefix>, p: Prefix, n: nat)
    requires base.bits <= bits <= 32 && n < BlockCount(base, bits)
    ensures n in Occupied(base, bits, prefixes + [p]) <==>
            n in Occupied(base, bits, prefixes) || Touches(Block(base, bits, n), p)
  {
    var more := prefixes + [p];
    if n in Occupied(base, bits, prefixes) {
      var i :| 0 <= i < |prefixes| && Touches(Block(base, bits, n), prefixes[i]);
      assert Touches(Block(base, bits, n), more[i]);
    }
    if Touches(Block(base, bits, n), p) {
      assert Touches(Block(base, bits, n), more[|prefixes|]);
    }
  }

  lemma HitStep(s: seq<Interval>, r: Interval, n: nat)
    ensures Hit(s + [r], n) <==> Hit(s, n) || In(r, n)
  {
    var more := s + [r];
    if Hit(s, n) {
      var i :| 0 <= i < |s| && In(s[i], n);
      assert In(more[i], n);
    }
    if In(r, n) {
      assert In(more[|s|], n);
    }
  }

  lemma OccupiedAdd(base: Prefix, bits: nat, prefixes: seq<Prefix>, p: Prefix, ranges: seq<Interval>)
    requires base.bits <= bits <= 32 && Touches(base, p)
    requires Below(ranges, BlockCount(base, bits))
    requires Covered(ranges, BlockCount(base, bits)) == Occupied(base, bits, prefixes)
    ensures Below(ranges + [Clip(base, bits, p)], BlockCount(base, bits))
    ensures Covered(ranges + [Clip(base, bits, p)], BlockCount(base, bits)) == Occupied(base, bits, prefixes + [p])
  {
    ClipBounds(base, bits, p);
    forall n: nat | n < BlockCount(base, bits)
      ensures n in Covered(ranges + [Clip(base, bits, p)], BlockCount(base, bits)) <==>
              n in Occupied(base, bits, prefixes + [p])
    {
      ClipExact(base, bits, p, n);
      TouchedStep(base, bits, prefixes, p, n);
      HitStep(ranges, Clip(base, bits, p), n);
      assert n in Covered(ranges, BlockCount(base, bits)) <==> n in Occupied(base, bits, prefixes);
    }
  }

  predicate FirstLess(a: Interval, b: Interval) {
    a.first < b.first
  }

  ghost function Range(r: Interval): set<nat> {
    set n: nat | n <= r.last && In(r, n)
  }

  lemma {:induction false} Span(r: Interval)
    requires r.first <= r.last
    ensures |Range(r)| == r.last - r.first + 1
    decreases r.last
  {
    if r.first == r.last {
      assert Range(r) == {r.first};
    } else {
      var s := Interval(r.first, r.last - 1);
      Span(s);
      forall n: nat ensures n in Range(r) <==> n in Range(s) || n == r.last {
        assert In(r, n) <==> In(s, n) || n == r.last;
      }
      assert Range(r) == Range(s) + {r.last};
    }
  }

  lemma CoveredStep(s: seq<Interval>, i: nat, limit: nat)
    requires i < |s| && Below(s, limit)
    ensures Covered(s[..i + 1], limit) == Covered(s[..i], limit) + Range(s[i])
  {
    assert s[..i + 1] == s[..i] + [s[i]];
    forall n: nat ensures n in Covered(s[..i + 1], limit) <==> n in Covered(s[..i], limit) || n in Range(s[i]) {
      HitStep(s[..i], s[i], n);
    }
  }

  /** An interval that starts inside or right after r extends r to their union. */
  lemma Extend(r: Interval, t: Interval)
    requires r.first <= t.first <= r.last + 1 && t.first <= t.last
    ensures Range(r) + Range(t) == Range(r.(last := Max(r.last, t.last)))
  {
    forall n ensures n in Range(r) + Range(t) <==> n in Range(r.(last := Max(r.last, t.last))) {
      assert n in Range(r) <==> In(r, n);
      assert n in Range(t) <==> In(t, n);
    }
  }

  lemma AbsorbStep(s: seq<Interval>, i: nat, limit: nat, before: set<nat>, r: Interval)
    requires i < |s| && Below(s, limit) && r.first <= s[i].first <= r.last + 1
    requires Covered(s[..i], limit) == before + Range(r)
    ensures Covered(s[..i + 1], limit) == before + Range(r.(last := Max(r.last, s[i].last)))
  {
    CoveredStep(s, i, limit);
    Extend(r, s[i]);
    assert (before + Range(r)) + Range(s[i]) == before + (Range(r) + Range(s[i]));
  }

  /** Grow r by every following interval that touches it. */
  method Absorb(ranges: seq<Interval>, start: nat, ghost limit: nat, ghost before: set<nat>) returns (r: Interval, i: nat)
    requires start < |ranges| && Below(ranges, limit) && before == Covered(ranges[..start], limit)
    requires forall j :: start <= j < |ranges| ==> ranges[start].first <= ranges[j].first
    ensures start < i <= |ranges| && r.first == ranges[start].first <= r.last
    ensures Covered(ranges[..i], limit) == before + Range(r)
    ensures i < |ranges| ==> r.last + 1 < ranges[i].first
  {
    r := ranges[start];
    i := start + 1;
    CoveredStep(ranges, start, limit);
    while i < |ranges| && ranges[i].first <= r.last + 1
      invariant start < i <= |ranges| && r.first == ranges[start].first <= r.last
      invariant Covered(ranges[..i], limit) == before + Range(r)
    {
      AbsorbStep(ranges, i, limit, before, r);
      if ranges[i].last > r.last {
        r := r.(last := ranges[i].last);
      }
      i := i + 1;
    }
  }

  /** The merging pass over intervals sorted by their first block. */
  method CountMerged(ranges: seq<Interval>, ghost limit: nat) returns (total: nat)
    requires Sorted(FirstLess, ranges) && Below(ranges, limit)
    ensures total == |Covered(ranges, limit)|
  {
    total := 0;
    var i: nat := 0;
    while i < |ranges|
      invariant i <= |ranges|
      invariant total == |Covered(ranges[..i], limit)|
      invariant i < |ranges| ==> forall n :: n in Covered(ranges[..i], limit) ==> n < ranges[i].first
    {
      ghost var before := Covered(ranges[..i], limit);
      assert forall j :: i < j < |ranges| ==> !FirstLess(ranges[j], ranges[i]);
      var r, next := Absorb(ranges, i, limit, before);
      Span(r);
      assert before !! Range(r) by {
        assert forall n :: n in Range(r) ==> In(r, n);
      }
      assert forall n :: n in Range(r) ==> n <= r.last;
      total := total + (r.last - r.first + 1);
      i := next;
    }
    assert ranges[..|ranges|] == ranges;
  }

  lemma CoveredPermuted(s: seq<Interval>, t: seq<Interval>, limit: nat)
    requires multiset(s) == multiset(t)
    ensures Covered(s, limit) == Covered(t, limit)
    ensures Below(s, limit) ==> Below(t, limit)
  {
    forall r ensures r in s <==> r in t {
      InMultiset(s, r);
      InMultiset(t, r);
    }
    forall n: nat ensures Hit(s, n) <==> Hit(t, n) {
      HitIn(s, n);
      HitIn(t, n);
    }
    if Below(s, limit) {
      forall i | 0 <= i < |t| ensures t[i].first <= t[i].last < limit {
        assert t[i] in s;
      }
    }
  }

  lemma HitIn(s: seq<Interval>, n: nat)
    ensures Hit(s, n) <==> exists r :: r in s && In(r, n)
  {
  }

  method OccupiedBlocks(base: Prefix, bits: nat, prefixes: seq<Prefix>) returns (total: nat)
    requires base.Valid() && base.bits <= bits <= 32
    requires AllParsed(prefixes)
    ensures total == |Occupied(base, bits, MaskAll(prefixes))|
  {
    ghost var limit := BlockCount(base, bits);
    var ranges := Clips(base, bits, prefixes);
    var sorted := Sort(FirstLess, ranges);
    SortSorts(FirstLess, ranges);
    CoveredPermuted(ranges, sorted, limit);
    total := CountMerged(sorted, limit);
  }

  /** Touched and wholly free blocks partition the pool. */
  lemma Partition(base: Prefix, bits: nat, prefixes: seq<Prefix>)
    requires base.bits <= bits <= 32
    ensures |Occupied(base, bits, prefixes)| <= BlockCount(base, bits)
    ensures |Free(base, bits, prefixes)| == BlockCount(base, bits) - |Occupied(base, bits, prefixes)|
  {
    var whole := Interval(0, BlockCount(base, bits) - 1);
    Span(whole);
    forall n: nat
      ensures n in Range(whole) <==> n in Occupied(base, bits, prefixes) + Free(base, bits, prefixes)
    {
      assert n in Range(whole) <==> In(whole, n);
    }
    assert Range(whole) == Occupied(base, bits, prefixes) + Free(base, bits, prefixes);
    assert Occupied(base, bits, prefixes) !! Free(base, bits, prefixes);
  }

  /** counts["allocatable"]: the wholly free blocks of a complete reading, and zero otherwise. */
  method Allocatable(base: Prefix, bits: nat, occupied: seq<Prefix>, complete: bool) returns (count: nat)
    requires base.Valid() && base.bits <= bits <= 32
    requires AllParsed(occupied)
    ensures count == if complete then |Free(base, bits, MaskAll(occupied))| else 0
  {
    count := 0;
    if complete {
      var total := BlockCount(base, bits);
      var used := OccupiedBlocks(base, bits, occupied);
      Partition(base, bits, MaskAll(occupied));
      count := total - used;
    }
  }

  /** The count depends only on which addresses are occupied: not on order, nesting or duplication. */
  lemma OccupiedByAddress(base: Prefix, bits: nat, s: seq<Prefix>, t: seq<Prefix>)
    requires base.bits <= bits <= 32
    requires forall x: int :: Holds(s, x) <==> Holds(t, x)
    ensures Occupied(base, bits, s) == Occupied(base, bits, t)
  {
    OccupiedWithin(base, bits, s, t);
    OccupiedWithin(base, bits, t, s);
  }

  lemma OccupiedWithin(base: Prefix, bits: nat, s: seq<Prefix>, t: seq<Prefix>)
    requires base.bits <= bits <= 32
    requires forall x: int :: Holds(s, x) ==> Holds(t, x)
    ensures Occupied(base, bits, s) <= Occupied(base, bits, t)
  {
    forall n: nat | n in Occupied(base, bits, s) ensures n in Occupied(base, bits, t) {
      var b := Block(base, bits, n);
      var i :| 0 <= i < |s| && Touches(b, s[i]);
      var x := Max(b.addr, s[i].addr);
      assert s[i].Has(x) && Holds(s, x);
      var j :| 0 <= j < |t| && t[j].Has(x);
      assert Touches(b, t[j]);
    }
  }

  // ----- what an address range of the inventory takes from a pool -----

  /** A block is left free by a range exactly when the range ends below the top address and misses the block. */
  lemma FreeOfRangeIff(base: Prefix, bits: nat, a: nat, b: nat, n: nat)
    requires base.Valid() && base.bits <= bits <= 32 && n < BlockCount(base, bits) && a <= b <= TOP
    ensures n in Free(base, bits, RangeCover.Blocks(a, b)) <==>
            b < TOP && (b < Block(base, bits, n).addr || Block(base, bits, n).Last() < a)
  {
    var s, block := RangeCover.Blocks(a, b), Block(base, bits, n);
    TouchesHeld(block, s);
    if b == TOP {
      TopTouches(base, bits, n);
      assert s[|s| - 1] == Prefix(0, 0);
    } else {
      RangeCover.BlocksExactIff(a, b);
      var x := Max(block.addr, a);
      assert Holds(s, x) <==> a <= x <= b;
    }
  }

  lemma TouchesHeld(block: Prefix, s: seq<Prefix>)
    ensures (exists i :: 0 <= i < |s| && Touches(block, s[i])) <==> exists x: int :: block.Has(x) && Holds(s, x)
  {
    if i :| 0 <= i < |s| && Touches(block, s[i]) {
      var x := Max(block.addr, s[i].addr);
      assert s[i].Has(x) && block.Has(x);
    }
    if x: int :| block.Has(x) && Holds(s, x) {
      var i :| 0 <= i < |s| && s[i].Has(x);
      assert Touches(block, s[i]);
    }
  }

  lemma TopTouches(base: Prefix, bits: nat, n: nat)
    requires base.Valid() && base.bits <= bits <= 32 && n < BlockCount(base, bits)
    ensures Touches(Block(base, bits, n), Prefix(0, 0))
  {
    BlockInPool(base, bits, n);
    LastInSpace(base);
    Pow2Values();
  }

  /** One range that ends at the top address leaves no pool anything to allocate, at any size. */
  lemma TopRangeExhausts(base: Prefix, bits: nat, a: nat, occupied: seq<Prefix>)
    requires base.Valid() && base.bits <= bits <= 32 && a <= TOP && AllParsed(occupied)
    requires forall p :: p in RangeCover.Blocks(a, TOP) ==> p in occupied
    ensures |Free(base, bits, MaskAll(occupied))| == 0
  {
    var s := RangeCover.Blocks(a, TOP);
    assert s[|s| - 1] == Prefix(0, 0) && Prefix(0, 0) in occupied;
    var i :| 0 <= i < |occupied| && occupied[i] == Prefix(0, 0);
    RangeCover.WholeSpace(0, 0);
    forall n: nat | n < BlockCount(base, bits) ensures Touches(Block(base, bits, n), MaskAll(occupied)[i]) {
      TopTouches(base, bits, n);
    }
    assert Free(base, bits, MaskAll(occupied)) == {};
  }
}
