/**
  Decomposing an address range into CIDR blocks: prefixLast, coveringPrefix
  and rangeCIDRs of internal/netbox/client.go, and their duplicates lastAddr
  and rangeBlockCount in internal/onboard/plan.go.
 */
module RangeCover {
  import opened Cidr

  const MAX_RANGE_BLOCKS: nat := 4096

  // ----- prefixLast: setting the host bits of a four-byte address -----

  /** The number with bit k set. */
  function SetBit(b: nat, k: nat): nat
    decreases k, b
  {
    if k == 0 then (if b % 2 == 1 then b else b + 1)
    else 2 * SetBit(b / 2, k - 1) + b % 2
  }

  /** netip.Addr.As4, most significant byte first. */
  function As4(a: nat): (o: seq<nat>)
    ensures |o| == 4
  {
    [a / 0x100_0000 % 256, a / 0x1_0000 % 256, a / 0x100 % 256, a % 256]
  }

  /** netip.AddrFrom4. */
  function AddrFrom4(v: seq<nat>): nat
    requires |v| == 4
  {
    v[0] * 0x100_0000 + v[1] * 0x1_0000 + v[2] * 0x100 + v[3]
  }

  /** What setting the low i address bits adds to byte t (least significant first) when they are clear. */
  function Fill(t: nat, i: nat): nat {
    if 8 * t + 8 <= i then 255 else if 8 * t <= i then Pow2(i - 8 * t) - 1 else 0
  }

  ghost predicate HostClear(o: seq<nat>, host: nat)
    requires |o| == 4 && host <= 32
  {
    forall i :: 0 <= i < host ==> Aligned(o[3 - i / 8], i % 8 + 1)
  }

  lemma {:induction false} SetClearBit(o: nat, k: nat)
    requires Aligned(o, k + 1)
    ensures SetBit(o + (Pow2(k) - 1), k) == o + (Pow2(k + 1) - 1)
    decreases k
  {
    if k > 0 {
      SetClearBit(o / 2, k - 1);
      assert (o + (Pow2(k) - 1)) / 2 == o / 2 + (Pow2(k - 1) - 1);
    }
  }

  /** Setting bit i moves its byte from Fill(_, i) to Fill(_, i + 1), and no other. */
  lemma FillStep(o: nat, i: nat)
    requires Aligned(o, i % 8 + 1)
    ensures SetBit(o + Fill(i / 8, i), i % 8) == o + Fill(i / 8, i + 1)
    ensures forall t: nat :: t != i / 8 ==> Fill(t, i) == Fill(t, i + 1)
  {
    SetClearBit(o, i % 8);
    Pow2Values();
    assert i - 8 * (i / 8) == i % 8;
  }

  lemma {:induction false} Pow2Shift(k: nat)
    ensures Pow2(k + 8) == 256 * Pow2(k)
  {
    Pow2Values();
    if k > 0 {
      Pow2Shift(k - 1);
    }
  }

  lemma FillTotal(i: nat)
    requires i <= 32
    ensures Fill(3, i) * 0x100_0000 + Fill(2, i) * 0x1_0000 + Fill(1, i) * 0x100 + Fill(0, i) == Pow2(i) - 1
  {
    if i < 8 {
    } else if i < 16 {
      Pow2Shift(i - 8);
    } else if i < 24 {
      Pow2Shift(i - 8);
      Pow2Shift(i - 16);
    } else {
      Pow2Shift(i - 8);
      Pow2Shift(i - 16);
      Pow2Shift(i - 24);
    }
    Pow2Values();
  }

  lemma FourBytes(a: nat)
    requires a < SPACE
    ensures AddrFrom4(As4(a)) == a
  {
    var x, y := a / 0x100, a / 0x1_0000;
    assert y == x / 0x100 && a / 0x100_0000 == y / 0x100;
  }

  lemma {:induction false} DiffAligned(u: nat, v: nat, k: nat)
    requires Aligned(u, k) && Aligned(v, k) && v <= u
    ensures Aligned(u - v, k)
    decreases k
  {
    if k > 0 {
      DiffAligned(u / 2, v / 2, k - 1);
      assert (u - v) / 2 == u / 2 - v / 2;
    }
  }

  lemma {:induction false} TimesAligned(q: nat, j: nat, k: nat)
    requires j <= k
    ensures Aligned(q * Pow2(k), j)
    decreases k
  {
    if j > 0 {
      TimesAligned(q, j - 1, k - 1);
      assert q * Pow2(k) == 2 * (q * Pow2(k - 1));
    }
  }

  /** An address aligned to 8 + n bits loses its low byte and stays aligned to n. */
  lemma DropByte(a: nat, n: nat)
    requires Aligned(a, 8 + n)
    ensures Aligned(a / 256, n)
  {
    var b := a / 2 / 2 / 2 / 2;
    Nibble(a, 4 + n);
    Nibble(b, n);
    assert b / 2 / 2 / 2 / 2 == a / 256;
  }

  lemma Nibble(a: nat, n: nat)
    requires Aligned(a, 4 + n)
    ensures Aligned(a / 2 / 2 / 2 / 2, n)
  {
    assert Aligned(a / 2, 3 + n);
    assert Aligned(a / 2 / 2, 2 + n);
    assert Aligned(a / 2 / 2 / 2, 1 + n);
  }

  lemma LowByteAligned(a: nat, n: nat)
    requires n <= 8 && Aligned(a, n)
    ensures Aligned(a % 256, n)
  {
    Pow2Values();
    TimesAligned(a / 256, n, 8);
    DiffAligned(a, a / 256 * Pow2(8), n);
  }

  /** The bits about to be set are clear in an address aligned past them. */
  lemma AlignedHostClear(a: nat, host: nat)
    requires host <= 32 && Aligned(a, host)
    ensures HostClear(As4(a), host)
  {
    forall i | 0 <= i < host ensures Aligned(As4(a)[3 - i / 8], i % 8 + 1) {
      BitClear(a, host, i, i / 8, i % 8);
    }
  }

  lemma BitClear(a: nat, host: nat, i: nat, t: nat, k: nat)
    requires i < host <= 32 && Aligned(a, host) && i == 8 * t + k && k < 8
    ensures Aligned(As4(a)[3 - t], k + 1)
  {
    AlignedDown(a, i + 1, host);
    ByteAligned(a, t, k + 1);
  }

  lemma ByteAligned(a: nat, t: nat, k: nat)
    requires t < 4 && k <= 8 && Aligned(a, 8 * t + k)
    ensures Aligned(As4(a)[3 - t], k)
  {
    if t == 0 {
      LowByteAligned(a, k);
    } else {
      DropByte(a, 8 * (t - 1) + k);
      if t == 1 {
        LowByteAligned(a / 0x100, k);
      } else {
        assert a / 0x100 / 256 == a / 0x1_0000;
        DropByte(a / 0x100, 8 * (t - 2) + k);
        if t == 2 {
          LowByteAligned(a / 0x1_0000, k);
        } else {
          assert a / 0x1_0000 / 256 == a / 0x100_0000;
          DropByte(a / 0x1_0000, k);
          LowByteAligned(a / 0x100_0000, k);
        }
      }
    }
  }

  lemma FilledAssembles(a: nat, host: nat, v: seq<nat>)
    requires a < SPACE && host <= 32 && |v| == 4
    requires forall s :: 0 <= s < 4 ==> v[s] == As4(a)[s] + Fill(3 - s, host)
    ensures AddrFrom4(v) == a + (Pow2(host) - 1)
  {
    FillTotal(host);
    FourBytes(a);
  }

  /** The low host bits of a four-byte address, set one at a time in place. */
  method SetHostBits(v: array<nat>, host: nat)
    requires v.Length == 4 && host <= 32 && HostClear(v[..], host)
    modifies v
    ensures forall s :: 0 <= s < 4 ==> v[s] == old(v[s]) + Fill(3 - s, host)
  {
    ghost var o := v[..];
    var i := 0;
    while i < host
      invariant 0 <= i <= host
      invariant forall s :: 0 <= s < 4 ==> v[s] == o[s] + Fill(3 - s, i)
    {
      FillStep(o[3 - i / 8], i);
      v[3 - i / 8] := SetBit(v[3 - i / 8], i % 8);
      i := i + 1;
    }
  }

  /** The last address of a prefix. */
  method PrefixLast(p: Prefix) returns (last: nat)
    requires p.Valid()
    ensures last == p.Last()
  {
    var bytes := As4(p.addr);
    var v := new nat[4](i requires 0 <= i < 4 => bytes[i]);
    assert v[..] == bytes;
    AlignedHostClear(p.addr, 32 - p.bits);
    SetHostBits(v, 32 - p.bits);
    FilledAssembles(p.addr, 32 - p.bits, v[..]);
    last := AddrFrom4(v[..]);
  }

  // ----- rangeCIDRs: the greedy decomposition -----

  /** A block of this mask starts exactly at cur and ends no later than b. */
  predicate Fits(cur: nat, b: nat, bits: nat) {
    bits <= 32 && Aligned(cur, 32 - bits) && Prefix(cur, bits).Last() <= b
  }

  /** The shortest mask that fits: the block the inner loop picks. */
  ghost predicate IsPick(cur: nat, b: nat, bits: nat) {
    Fits(cur, b, bits) && forall c :: 0 <= c < bits ==> !Fits(cur, b, c)
  }

  lemma {:induction false} PickExists(cur: nat, b: nat, from: nat)
    requires cur <= b && from <= 32 && forall c :: 0 <= c < from ==> !Fits(cur, b, c)
    ensures exists bits :: IsPick(cur, b, bits)
    decreases 32 - from
  {
    if Fits(cur, b, from) {
      assert IsPick(cur, b, from);
    } else {
      PickExists(cur, b, from + 1);
    }
  }

  ghost function Pick(cur: nat, b: nat): (bits: nat)
    requires cur <= b
    ensures IsPick(cur, b, bits)
  {
    PickExists(cur, b, 0);
    var bits :| IsPick(cur, b, bits);
    bits
  }

  ghost function Greedy(cur: nat, b: nat): (s: seq<Prefix>)
    requires cur <= b <= TOP
    ensures |s| > 0 && s[0] == Prefix(cur, Pick(cur, b)) && s[0].Valid()
    decreases b - cur
  {
    var p := Prefix(cur, Pick(cur, b));
    [p] + if p.Last() < b then Greedy(p.Last() + 1, b) else []
  }

  /** The union of the blocks is exactly [lo, hi]. */
  ghost predicate CoversExactly(s: seq<Prefix>, lo: nat, hi: nat) {
    forall x: int :: Holds(s, x) <==> lo <= x <= hi
  }

  ghost predicate Ascending(s: seq<Prefix>) {
    forall i, j :: 0 <= i < j < |s| ==> s[i].Last() < s[j].addr
  }

  /** s starts at cur, ends at b, leaves no gap, and every block is the one picked at its address. */
  ghost predicate IsRun(s: seq<Prefix>, cur: nat, b: nat) {
    && |s| > 0 && s[0].addr == cur && s[|s| - 1].Last() == b
    && (forall i :: 0 <= i < |s| ==> s[i].Valid() && s[i].addr <= b && s[i].bits == Pick(s[i].addr, b))
    && (forall i, j :: 0 <= i && j == i + 1 < |s| ==> s[j].addr == s[i].Last() + 1)
  }

  lemma {:induction false} GreedyIsRun(cur: nat, b: nat, s: seq<Prefix>)
    requires cur <= b <= TOP && s == Greedy(cur, b)
    ensures IsRun(s, cur, b)
    decreases b - cur
  {
    var p := Prefix(cur, Pick(cur, b));
    if p.Last() < b {
      var rest := Greedy(p.Last() + 1, b);
      GreedyIsRun(p.Last() + 1, b, rest);
      RunCons(p, rest, b, s);
    }
  }

  lemma RunCons(p: Prefix, rest: seq<Prefix>, b: nat, s: seq<Prefix>)
    requires p.Valid() && p.addr <= b && p.bits == Pick(p.addr, b) && IsRun(rest, p.Last() + 1, b)
    requires s == [p] + rest
    ensures IsRun(s, p.addr, b)
  {
    assert s[|s| - 1] == rest[|rest| - 1];
  }

  lemma {:induction false} RunAscends(s: seq<Prefix>, cur: nat, b: nat, i: nat, j: nat)
    requires IsRun(s, cur, b) && i <= j < |s|
    ensures s[i].addr <= s[j].addr && s[i].Last() <= s[j].Last()
    ensures i < j ==> s[i].Last() < s[j].addr
    decreases j
  {
    if i < j {
      RunAscends(s, cur, b, i, j - 1);
    }
  }

  lemma {:induction false} RunHolds(s: seq<Prefix>, cur: nat, b: nat, x: int, n: nat)
    requires IsRun(s, cur, b) && n < |s| && cur <= x <= s[n].Last()
    ensures Holds(s, x)
    decreases n
  {
    if s[n].Has(x) {
    } else {
      RunHolds(s, cur, b, x, n - 1);
    }
  }

  /** The blocks tile [cur, b] in ascending order without gap or overlap. */
  lemma RunTiles(s: seq<Prefix>, cur: nat, b: nat)
    requires IsRun(s, cur, b)
    ensures Ascending(s)
    ensures CoversExactly(s, cur, b)
  {
    forall i, j | 0 <= i < j < |s| ensures s[i].Last() < s[j].addr {
      RunAscends(s, cur, b, i, j);
    }
    forall x: int ensures Holds(s, x) <==> cur <= x <= b {
      if cur <= x <= b { RunHolds(s, cur, b, x, |s| - 1); }
      if Holds(s, x) {
        var i := Owner(s, x);
        RunAscends(s, cur, b, 0, i);
        RunAscends(s, cur, b, i, |s| - 1);
      }
    }
  }

  ghost function Owner(s: seq<Prefix>, x: int): (k: nat)
    requires Holds(s, x)
    ensures k < |s| && s[k].Has(x)
  {
    var k :| 0 <= k < |s| && s[k].Has(x);
    k
  }

  /** The picked block is the largest aligned one that starts at cur and fits. */
  lemma HeadMaximal(cur: nat, b: nat, q: Prefix)
    requires cur <= b <= TOP
    requires q.Valid() && cur <= q.addr && q.Last() <= b
    requires q.addr <= Prefix(cur, Pick(cur, b)).Last()
    ensures q.Last() <= Prefix(cur, Pick(cur, b)).Last()
  {
    var p := Prefix(cur, Pick(cur, b));
    if p.bits <= q.bits {
      Laminar(p, q, q.addr);
    } else {
      Laminar(q, p, q.addr);
      assert Fits(cur, b, q.bits);
    }
  }

  /** Every aligned block inside the range lies inside one emitted block. */
  lemma RunMaximal(s: seq<Prefix>, cur: nat, b: nat, q: Prefix) returns (i: nat)
    requires IsRun(s, cur, b) && b <= TOP
    requires q.Valid() && cur <= q.addr && q.Last() <= b
    ensures i < |s| && s[i].addr <= q.addr && q.Last() <= s[i].Last()
  {
    RunTiles(s, cur, b);
    assert Holds(s, q.addr);
    i := Owner(s, q.addr);
    HeadMaximal(s[i].addr, b, q);
  }

  // ----- minimality -----

  /** An injection from the first n naturals into the first m needs n <= m. */
  lemma {:induction false} Injection(f: seq<nat>, m: nat)
    requires forall i :: 0 <= i < |f| ==> f[i] < m
    requires forall i, j :: 0 <= i < j < |f| ==> f[i] != f[j]
    ensures |f| <= m
    decreases m
  {
    if |f| > 0 {
      assert m > f[0];
      if m - 1 in f {
        var k :| 0 <= k < |f| && f[k] == m - 1;
        Injection(f[..k] + f[k + 1..], m - 1);
      } else {
        Injection(f, m - 1);
      }
    }
  }

  /** One block inside the range cannot hold the first addresses of two emitted blocks. */
  lemma OneOwner(s: seq<Prefix>, lo: nat, hi: nat, q: Prefix, i: nat, j: nat)
    requires IsRun(s, lo, hi) && hi <= TOP && i < j < |s|
    requires q.Valid() && lo <= q.addr && q.Last() <= hi
    ensures !(q.Has(s[i].addr) && q.Has(s[j].addr))
  {
    RunTiles(s, lo, hi);
    var m := RunMaximal(s, lo, hi, q);
    assert m < i ==> s[m].Last() < s[i].addr;
    assert m < j ==> s[m].Last() < s[j].addr;
    assert m > i ==> s[i].Last() < s[m].addr;
  }

  /** No exact cover of the range by aligned blocks uses fewer blocks. */
  lemma RunMinimal(s: seq<Prefix>, lo: nat, hi: nat, cover: seq<Prefix>)
    requires IsRun(s, lo, hi) && hi <= TOP
    requires forall q :: q in cover ==> q.Valid()
    requires CoversExactly(cover, lo, hi)
    ensures |s| <= |cover|
  {
    RunTiles(s, lo, hi);
    forall i | 0 <= i < |s| ensures Holds(cover, s[i].addr) {
      assert s[i].Has(s[i].addr);
      assert Holds(s, s[i].addr);
    }
    var f := seq(|s|, i requires 0 <= i < |s| => Owner(cover, s[i].addr));
    forall i, j | 0 <= i < j < |s| ensures f[i] != f[j] {
      var q := cover[f[i]];
      assert q.Has(q.addr) && q.Has(q.Last());
      assert Holds(cover, q.addr) && Holds(cover, q.Last());
      OneOwner(s, lo, hi, q, i, j);
    }
    Injection(f, |cover|);
  }

  // ----- the block bound -----

  /** The exponent of a block's size. */
  function Exp(p: Prefix): nat {
    if p.bits <= 32 then 32 - p.bits else 0
  }

  ghost predicate Rises(s: seq<Prefix>) {
    forall i, j :: 0 <= i && j == i + 1 < |s| ==> Exp(s[i]) < Exp(s[j])
  }

  ghost predicate Falls(s: seq<Prefix>) {
    forall i, j :: 0 <= i && j == i + 1 < |s| ==> Exp(s[i]) > Exp(s[j])
  }

  lemma {:induction false} AlignedTwice(cur: nat, k: nat)
    requires Aligned(cur, k) && !Aligned(cur, k + 1)
    ensures Aligned(cur + Pow2(k), k + 1)
    decreases k
  {
    if k > 0 {
      AlignedTwice(cur / 2, k - 1);
      assert (cur + Pow2(k)) / 2 == cur / 2 + Pow2(k - 1);
    }
  }

  /** The rest of a run is a run, from an address as aligned as the head block is large. */
  lemma RunTail(s: seq<Prefix>, cur: nat, b: nat)
    requires IsRun(s, cur, b) && |s| > 1
    ensures IsRun(s[1..], s[0].Last() + 1, b)
    ensures Aligned(s[0].Last() + 1, Exp(s[0]))
    ensures s[1] == s[1..][0] && |s[1..]| == |s| - 1
  {
    var e := Exp(s[0]);
    SizeAligned(e, e);
    SumAligned(cur, s[0].Size(), e);
  }

  lemma FallsCons(s: seq<Prefix>)
    requires |s| > 1 && Falls(s[1..]) && Exp(s[1]) < Exp(s[0])
    ensures Falls(s)
  {
    forall i, j | 0 <= i && j == i + 1 < |s| ensures Exp(s[i]) > Exp(s[j]) {
      if i > 0 { assert s[i] == s[1..][i - 1] && s[j] == s[1..][j - 1]; }
    }
  }

  /** Once less than an aligned size remains, sizes fall strictly from there. */
  lemma {:induction false} FallingPhase(s: seq<Prefix>, cur: nat, b: nat, k: nat)
    requires IsRun(s, cur, b) && b <= TOP && k <= 32 && Aligned(cur, k) && b - cur + 1 < Pow2(k)
    ensures Falls(s) && |s| <= k && Exp(s[0]) < k
    decreases |s|
  {
    var p, e := s[0], Exp(s[0]);
    assert e < k by {
      if e >= k { Pow2Monotone(k, e); assert false; }
    }
    assert b - p.Last() < p.Size() by {
      AlignedDown(cur, e + 1, k);
      assert !Fits(cur, b, p.bits - 1);
      assert Pow2(33 - p.bits) == 2 * p.Size();
    }
    if |s| > 1 {
      RunTail(s, cur, b);
      FallingPhase(s[1..], p.Last() + 1, b, e);
      FallsCons(s);
    }
  }

  ghost function Bound(b: nat): nat {
    if b < TOP then 62 else 64
  }

  /** A fit held back by what remains: the rest of the run falls below it. */
  lemma TailFalls(s: seq<Prefix>, cur: nat, b: nat)
    requires IsRun(s, cur, b) && b <= TOP && b - s[0].Last() < s[0].Size()
    ensures Falls(s) && |s| <= 1 + Exp(s[0])
  {
    var p, e := s[0], Exp(s[0]);
    if |s| > 1 {
      RunTail(s, cur, b);
      FallingPhase(s[1..], p.Last() + 1, b, e);
      FallsCons(s);
    }
  }

  /** How large the first block can be, given how aligned its address is. */
  lemma ExpBound(cur: nat, b: nat, p: Prefix, n: nat)
    requires p.Valid() && p.addr == cur && p.Last() <= b <= TOP && n <= 32 && Aligned(cur, n) && (n == 0 || cur > 0)
    ensures n <= 31 && 1 + Exp(p) <= Bound(b) - n
  {
    Pow2Values();
    if n >= 31 {
      AlignedDown(cur, 31, n);
      ZeroAligned(31);
      ZeroAligned(32);
      if cur < Pow2(31) { MultiplesGap(cur, 0, 31); assert false; }
      if n == 32 {
        MultiplesGap(cur, 0, 32);
        assert false;
      }
      if b < TOP && Exp(p) >= 31 { Pow2Monotone(31, Exp(p)); assert false; }
    }
  }

  /** Block sizes rise strictly and then fall strictly. */
  lemma {:induction false} RunShape(s: seq<Prefix>, cur: nat, b: nat, n: nat) returns (m: nat)
    requires IsRun(s, cur, b) && b <= TOP && Aligned(cur, n)
    ensures m <= |s| && Rises(s[..m]) && Falls(s[m..])
    ensures forall i :: 0 <= i < m ==> Exp(s[i]) >= n
    decreases |s|
  {
    var p, e := s[0], Exp(s[0]);
    if b - p.Last() < p.Size() {
      TailFalls(s, cur, b);
      m := 0;
      assert s[m..] == s;
    } else {
      HeldExponent(cur, b, p, n);
      RunTail(s, cur, b);
      var k := RunShape(s[1..], p.Last() + 1, b, e + 1);
      m := k + 1;
      RisesCons(s, k, e + 1);
    }
  }

  /** Each rising block is aligned one bit further than the last, so the run is short. */
  lemma {:induction false} RunBound(s: seq<Prefix>, cur: nat, b: nat, n: nat)
    requires IsRun(s, cur, b) && b <= TOP && n <= 32 && Aligned(cur, n) && (n == 0 || cur > 0)
    ensures |s| <= Bound(b) - n
    decreases |s|
  {
    var p := s[0];
    ExpBound(cur, b, p, n);
    if b - p.Last() < p.Size() {
      TailFalls(s, cur, b);
    } else {
      HeldExponent(cur, b, p, n);
      RunTail(s, cur, b);
      RunBound(s[1..], p.Last() + 1, b, Exp(p) + 1);
    }
  }

  lemma RisesCons(s: seq<Prefix>, k: nat, e: nat)
    requires |s| > 0 && k <= |s| - 1 && Rises(s[1..][..k]) && Exp(s[0]) < e
    requires forall i :: 0 <= i < k ==> Exp(s[1..][i]) >= e
    ensures Rises(s[..k + 1]) && s[k + 1..] == s[1..][k..]
    ensures forall i :: 1 <= i < k + 1 ==> Exp(s[i]) >= e
  {
    var t, u := s[1..][..k], s[..k + 1];
    assert forall i :: 1 <= i < k + 1 ==> s[i] == s[1..][i - 1] == t[i - 1] && u[i] == s[i];
    forall i, j | 0 <= i && j == i + 1 < |u| ensures Exp(u[i]) < Exp(u[j]) {
      if i > 0 { assert u[i] == t[i - 1] && u[j] == t[j - 1]; }
    }
  }

  /** A pick with room to spare was held back by alignment, so the next address is aligned further. */
  lemma HeldExponent(cur: nat, b: nat, p: Prefix, n: nat)
    requires cur <= b <= TOP && Aligned(cur, n) && p == Prefix(cur, Pick(cur, b)) && b - p.Last() >= p.Size()
    ensures n <= Exp(p) < 32 && Aligned(p.Last() + 1, Exp(p) + 1)
  {
    PickHeldByAlignment(cur, b, p);
    AlignedTwice(cur, Exp(p));
    if Exp(p) < n {
      AlignedDown(cur, Exp(p) + 1, n);
      assert false;
    }
  }

  lemma PickHeldByAlignment(cur: nat, b: nat, p: Prefix)
    requires cur <= b <= TOP && p == Prefix(cur, Pick(cur, b)) && b - p.Last() >= p.Size()
    ensures Exp(p) < 32 && !Aligned(cur, Exp(p) + 1)
  {
    Pow2Values();
    if p.bits > 0 {
      assert !Fits(cur, b, p.bits - 1);
      assert Pow2(33 - p.bits) == 2 * p.Size();
    }
  }

  // ----- the methods -----

  /** The first prefix holding both addresses, scanning masks from /0. */
  method CoveringPrefix(a: nat, b: nat) returns (p: Prefix)
    requires a < SPACE && b < SPACE
    ensures p == Prefix(0, 0)
  {
    p := Prefix(a, 32);
    var bits := 0;
    while bits <= 32
      invariant bits <= 33 && forall c :: 0 <= c < bits ==> !MaskedPrefix(a, c).Has(b)
    {
      p := MaskedPrefix(a, bits);
      if p.Has(b) {
        WholeSpace(a, b);
        return;
      }
      bits := bits + 1;
    }
    WholeSpace(a, b);
    assert false;
  }

  lemma WholeSpace(a: nat, b: nat)
    requires a < SPACE && b < SPACE
    ensures MaskedPrefix(a, 0) == Prefix(0, 0) && MaskedPrefix(a, 0).Has(b)
  {
    Pow2Values();
    ZeroAligned(32);
    MultiplesGap(Masked(a, 32), 0, 32);
  }

  lemma PickUnique(cur: nat, b: nat, bits: nat)
    requires cur <= b && IsPick(cur, b, bits)
    ensures bits == Pick(cur, b)
  {
    var c := Pick(cur, b);
    assert Fits(cur, b, bits) && Fits(cur, b, c);
  }

  /** The inner loop: masks are tried from /0 until one fits. */
  method PickBlock(cur: nat, b: nat) returns (chosen: Prefix)
    requires cur <= b <= TOP
    ensures chosen == Prefix(cur, Pick(cur, b)) && chosen.Valid()
  {
    chosen := Prefix(cur, 32);
    var bits := 0;
    while bits <= 32
      invariant bits <= 33 && forall c :: 0 <= c < bits ==> !Fits(cur, b, c)
    {
      var p := MaskedPrefix(cur, bits);
      var last := PrefixLast(p);
      if p.addr == cur && last <= b {
        PickUnique(cur, b, bits);
        return p;
      }
      bits := bits + 1;
    }
    assert Fits(cur, b, 32);
    assert false;
  }

  datatype Result<T> = Ok(value: T) | Invalid

  /** What rangeCIDRs returns: the greedy run, and 0.0.0.0/0 after it when the range reaches the top address. */
  ghost function Blocks(a: nat, b: nat): seq<Prefix>
    requires a <= b <= TOP
  {
    Greedy(a, b) + if b == TOP then [Prefix(0, 0)] else []
  }

  method RangeCIDRs(a: nat, b: nat) returns (r: Result<seq<Prefix>>)
    requires a < SPACE && b < SPACE
    ensures r.Invalid? <==> a > b
    ensures r.Ok? ==> r.value == Blocks(a, b)
  {
    if a > b {
      return Invalid;
    }
    ghost var run := Greedy(a, b);
    GreedyShort(a, b);
    var out: seq<Prefix> := [];
    var cur := a;
    while cur <= b && |out| < MAX_RANGE_BLOCKS
      invariant |out| <= |run| && out == run[..|out|]
      invariant cur <= b ==> |out| < |run| && run[|out|].addr == cur
      invariant cur > b ==> out == run && b < TOP
      decreases b + 1 - cur
    {
      var chosen := PickBlock(cur, b);
      RunProgress(run, a, b, |out|);
      out := out + [chosen];
      var last := PrefixLast(chosen);
      if last == TOP {
        break;
      }
      cur := last + 1;
    }
    if cur <= b {
      var all := CoveringPrefix(cur, b);
      out := out + [all];
    }
    return Ok(out);
  }

  lemma GreedyShort(a: nat, b: nat)
    requires a <= b <= TOP
    ensures IsRun(Greedy(a, b), a, b) && |Greedy(a, b)| <= Bound(b)
  {
    GreedyIsRun(a, b, Greedy(a, b));
    RunBound(Greedy(a, b), a, b, 0);
  }

  /** Block n of a run is the last one exactly when it ends the range. */
  lemma RunProgress(s: seq<Prefix>, cur: nat, b: nat, n: nat)
    requires IsRun(s, cur, b) && n < |s|
    ensures s[n] == Prefix(s[n].addr, Pick(s[n].addr, b))
    ensures s[n].Last() <= b && (s[n].Last() == b <==> n == |s| - 1)
  {
    RunAscends(s, cur, b, n, |s| - 1);
  }

  /**
    The same walk, counting: internal/onboard's duplicate. No range reaches a
    limit of 64, so with the planner's limit only a range that ends at the top
    address is reported as too large.
   */
  method RangeBlockCount(start: nat, end: nat, limit: nat) returns (blocks: nat, hitCap: bool)
    requires start <= TOP && end <= TOP
    ensures start > end ==> blocks == 0 && !hitCap
    ensures start <= end ==>
      && blocks == (if limit < |Greedy(start, end)| then limit else |Greedy(start, end)|)
      && (hitCap <==> end == TOP || |Greedy(start, end)| > limit)
      && (limit >= 64 ==> (hitCap <==> end == TOP))
  {
    if start > end {
      return 0, false;
    }
    ghost var run := Greedy(start, end);
    GreedyShort(start, end);
    blocks := 0;
    var cur := start;
    while cur <= end && blocks < limit
      invariant blocks <= |run| && blocks <= limit
      invariant cur <= end ==> blocks < |run| && run[blocks].addr == cur
      invariant cur > end ==> blocks == |run| && end < TOP
      decreases end + 1 - cur
    {
      var chosen := PickBlock(cur, end);
      RunProgress(run, start, end, blocks);
      blocks := blocks + 1;
      var last := PrefixLast(chosen);
      if last == TOP {
        break;
      }
      cur := last + 1;
    }
    hitCap := cur <= end;
  }

  // ----- what the result of rangeCIDRs is worth -----

  /**
    Below the top address the result is the exact, disjoint, ascending and
    smallest decomposition, at most 62 blocks long.
   */
  lemma BlocksExact(a: nat, b: nat)
    requires a <= b < TOP
    ensures forall p :: p in Blocks(a, b) ==> p.Valid()
    ensures Ascending(Blocks(a, b)) && CoversExactly(Blocks(a, b), a, b)
    ensures |Blocks(a, b)| <= 62
    ensures exists m: nat :: m <= |Blocks(a, b)| && Rises(Blocks(a, b)[..m]) && Falls(Blocks(a, b)[m..])
    ensures forall cover: seq<Prefix> ::
              (forall q :: q in cover ==> q.Valid()) && CoversExactly(cover, a, b) ==> |Blocks(a, b)| <= |cover|
  {
    GreedyShort(a, b);
    var s := Blocks(a, b);
    assert s == Greedy(a, b);
    RunTiles(s, a, b);
    var m := RunShape(s, a, b, 0);
    assert m <= |s| && Rises(s[..m]) && Falls(s[m..]);
    forall cover: seq<Prefix> | (forall q :: q in cover ==> q.Valid()) && CoversExactly(cover, a, b)
      ensures |s| <= |cover|
    {
      RunMinimal(s, a, b, cover);
    }
  }

  /** Whatever the end, no address of the range is missed. */
  lemma BlocksCover(a: nat, b: nat, x: nat)
    requires a <= x <= b <= TOP
    ensures Holds(Blocks(a, b), x)
  {
    GreedyShort(a, b);
    RunTiles(Greedy(a, b), a, b);
    assert Holds(Greedy(a, b), x);
    var k := Owner(Greedy(a, b), x);
    assert Blocks(a, b)[k].Has(x);
  }

  /** A run that reaches the top address, followed by 0.0.0.0/0. */
  lemma TopBlocks(run: seq<Prefix>, a: nat, s: seq<Prefix>)
    requires IsRun(run, a, TOP) && s == run + [Prefix(0, 0)]
    ensures !Ascending(s) && Holds(s, 0)
    ensures a == 0 ==> CoversExactly(s, a, TOP)
  {
    var n := |run|;
    Pow2Values();
    assert s[0] == run[0] && s[n] == Prefix(0, 0);
    assert !(s[0].Last() < s[n].addr);
    assert s[n].Has(0);
    RunTiles(run, a, TOP);
    forall x: int ensures Holds(s, x) ==> 0 <= x <= TOP {
      if Holds(s, x) {
        var k := Owner(s, x);
        if k < n { assert run[k].Has(x); assert Holds(run, x); }
      }
    }
    forall x: int ensures 0 <= x <= TOP ==> Holds(s, x) {
      if 0 <= x <= TOP { assert s[n].Has(x); }
    }
  }

  /**
    The result is disjoint exactly when the range ends below the top address,
    and covers nothing else exactly when it does or starts at 0.0.0.0.
   */
  lemma BlocksExactIff(a: nat, b: nat)
    requires a <= b <= TOP
    ensures Ascending(Blocks(a, b)) <==> b < TOP
    ensures CoversExactly(Blocks(a, b), a, b) <==> b < TOP || a == 0
  {
    if b < TOP {
      BlocksExact(a, b);
    } else {
      GreedyShort(a, b);
      TopBlocks(Greedy(a, b), a, Blocks(a, b));
    }
  }

  /** 10.0.0.0-255.255.255.255 is one such range: its result holds 0.0.0.0. */
  lemma TopRangeOverblocks()
    ensures !CoversExactly(Blocks(0x0A00_0000, TOP), 0x0A00_0000, TOP)
  {
    BlocksExactIff(0x0A00_0000, TOP);
  }
}
