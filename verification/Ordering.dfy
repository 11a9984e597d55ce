/**
  Sorting, as the source uses it: sort.SliceStable with a comparison, and byte
  order on strings; and sums over all unordered pairs of a list.
 */
module Ordering {

  /** Go's < on strings. */
  predicate StrLess(a: string, b: string) {
    b != [] && (a == [] || a[0] < b[0] || (a[0] == b[0] && StrLess(a[1..], b[1..])))
  }

  lemma {:induction false} StrOrder(a: string, b: string)
    ensures !(StrLess(a, b) && StrLess(b, a))
    ensures !StrLess(a, b) && !StrLess(b, a) ==> a == b
    decreases |a|
  {
    if a != [] && b != [] && a[0] == b[0] {
      StrOrder(a[1..], b[1..]);
      assert a == [a[0]] + a[1..] && b == [b[0]] + b[1..];
    }
  }

  lemma {:induction false} StrTransitive(a: string, b: string, c: string)
    requires !StrLess(b, a) && !StrLess(c, b)
    ensures !StrLess(c, a)
    decreases |a|
  {
    if a != [] && b != [] && c != [] && a[0] == b[0] == c[0] {
      StrTransitive(a[1..], b[1..], c[1..]);
    }
  }

  /** A comparison a stable sort may be given: asymmetric, with "not after" transitive. */
  ghost predicate Orders<T(!new)>(less: (T, T) -> bool) {
    && (forall a, b :: less(a, b) ==> !less(b, a))
    && (forall a, b, c :: !less(b, a) && !less(c, b) ==> !less(c, a))
  }

  ghost predicate Sorted<T(!new)>(less: (T, T) -> bool, s: seq<T>) {
    forall i, j :: 0 <= i < j < |s| ==> !less(s[j], s[i])
  }

  function Insert<T(!new)>(less: (T, T) -> bool, x: T, s: seq<T>): (r: seq<T>)
    ensures multiset(r) == multiset(s) + multiset{x}
  {
    if s == [] then [x]
    else if !less(s[0], x) then
      assert multiset([x] + s) == multiset{x} + multiset(s);
      [x] + s
    else
      assert s == [s[0]] + s[1..];
      [s[0]] + Insert(less, x, s[1..])
  }

  /** sort.SliceStable. */
  function Sort<T(!new)>(less: (T, T) -> bool, s: seq<T>): (r: seq<T>)
    ensures multiset(r) == multiset(s) && |r| == |s|
  {
    if s == [] then []
    else
      assert s == [s[0]] + s[1..];
      var r := Insert(less, s[0], Sort(less, s[1..]));
      assert |multiset(r)| == |r| && |multiset(s)| == |s|;
      r
  }

  lemma InMultiset<T>(s: seq<T>, x: T)
    ensures x in multiset(s) <==> x in s
  {
  }

  lemma {:induction false} InsertSorted<T(!new)>(less: (T, T) -> bool, x: T, s: seq<T>)
    requires Orders(less) && Sorted(less, s)
    ensures Sorted(less, Insert(less, x, s))
    decreases |s|
  {
    if s != [] && less(s[0], x) {
      InsertSorted(less, x, s[1..]);
      var r := Insert(less, x, s[1..]);
      forall y | y in r ensures !less(y, s[0]) {
        InMultiset(r, y);
        InMultiset(s[1..], y);
      }
    }
  }

  lemma {:induction false} SortSorts<T(!new)>(less: (T, T) -> bool, s: seq<T>)
    requires Orders(less)
    ensures Sorted(less, Sort(less, s))
    decreases |s|
  {
    if s != [] {
      SortSorts(less, s[1..]);
      InsertSorted(less, s[0], Sort(less, s[1..]));
    }
  }

  /** Under a comparison without ties a list has only one sorted order. */
  lemma {:induction false} SortedUnique<T(!new)>(less: (T, T) -> bool, s: seq<T>, t: seq<T>)
    requires Sorted(less, s) && Sorted(less, t) && multiset(s) == multiset(t)
    requires forall a, b :: a in s && b in s && !less(a, b) && !less(b, a) ==> a == b
    ensures s == t
    decreases |s|
  {
    if s == [] {
      EmptyPermuted(t);
    } else {
      assert s[0] == t[0] by {
        var k := HeadIn(s, t);
        var j := HeadIn(t, s);
        assert s[j] in s && s[0] in s;
        assert !less(t[k], t[0]) || k == 0;
        assert !less(s[j], s[0]) || j == 0;
      }
      TailsPermuted(s, t);
      SortedUnique(less, s[1..], t[1..]);
      assert s == [s[0]] + s[1..] && t == [t[0]] + t[1..];
    }
  }

  lemma TailsPermuted<A>(s: seq<A>, t: seq<A>)
    requires s != [] && t != [] && s[0] == t[0] && multiset(s) == multiset(t)
    ensures multiset(s[1..]) == multiset(t[1..])
  {
    assert s == [s[0]] + s[1..] && t == [t[0]] + t[1..];
    assert multiset(s[1..]) == multiset(s) - multiset{s[0]};
    assert multiset(t[1..]) == multiset(t) - multiset{t[0]};
  }

  /** Strictly ascending. */
  ghost predicate Rises<T(!new)>(less: (T, T) -> bool, s: seq<T>) {
    forall i, j :: 0 <= i < j < |s| ==> less(s[i], s[j])
  }

  lemma RisesTail<T(!new)>(less: (T, T) -> bool, s: seq<T>, x: T)
    requires Orders(less) && Rises(less, s) && s != []
    ensures x in s[1..] <==> x in s && x != s[0]
  {
    assert s == [s[0]] + s[1..];
    if x in s[1..] {
      var i :| 0 <= i < |s[1..]| && s[1..][i] == x;
      assert less(s[0], s[i + 1]);
    }
  }

  /** A set has one strictly ascending listing. */
  lemma {:induction false} RisesUnique<T(!new)>(less: (T, T) -> bool, s: seq<T>, t: seq<T>)
    requires Orders(less) && Rises(less, s) && Rises(less, t)
    requires forall x :: x in s <==> x in t
    ensures s == t
    decreases |s|
  {
    assert s != [] ==> s[0] in s;
    assert t != [] ==> t[0] in t;
    if s != [] {
      var i :| 0 <= i < |s| && s[i] == t[0];
      var j :| 0 <= j < |t| && t[j] == s[0];
      assert s[0] == t[0];
      forall x ensures x in s[1..] <==> x in t[1..] {
        RisesTail(less, s, x);
        RisesTail(less, t, x);
      }
      RisesUnique(less, s[1..], t[1..]);
      assert s == [s[0]] + s[1..] && t == [t[0]] + t[1..];
    }
  }

  /** A sorted list is strictly ascending when its comparison has no ties on it. */
  lemma SortedRises<T(!new)>(less: (T, T) -> bool, s: seq<T>)
    requires Sorted(less, s)
    requires forall i, j :: 0 <= i < j < |s| ==> less(s[i], s[j]) || less(s[j], s[i])
    ensures Rises(less, s)
  {
  }

  lemma StrOrders()
    ensures Orders(StrLess)
  {
    forall a, b ensures StrLess(a, b) ==> !StrLess(b, a) {
      StrOrder(a, b);
    }
    forall a, b, c | !StrLess(b, a) && !StrLess(c, b) ensures !StrLess(c, a) {
      StrTransitive(a, b, c);
    }
  }

  // ----- sums over pairs -----

  ghost predicate Symmetric<A(!new), B>(f: (A, A) -> multiset<B>) {
    forall a, b :: f(a, b) == f(b, a)
  }

  /** What x contributes against every element of s. */
  ghost function With<A, B>(f: (A, A) -> multiset<B>, x: A, s: seq<A>): multiset<B> {
    if s == [] then multiset{} else f(x, s[0]) + With(f, x, s[1..])
  }

  /** The brute-force sum: every unordered pair of positions once. */
  ghost function Pairs<A, B>(f: (A, A) -> multiset<B>, s: seq<A>): multiset<B> {
    if s == [] then multiset{} else With(f, s[0], s[1..]) + Pairs(f, s[1..])
  }

  lemma {:induction false} WithAppend<A, B>(f: (A, A) -> multiset<B>, x: A, s: seq<A>, y: A)
    ensures With(f, x, s + [y]) == With(f, x, s) + f(x, y)
    decreases |s|
  {
    if s != [] {
      assert (s + [y])[1..] == s[1..] + [y];
      WithAppend(f, x, s[1..], y);
    } else {
      assert (s + [y])[1..] == [];
    }
  }

  lemma {:induction false} PairsAppend<A(!new), B>(f: (A, A) -> multiset<B>, s: seq<A>, y: A)
    requires Symmetric(f)
    ensures Pairs(f, s + [y]) == Pairs(f, s) + With(f, y, s)
    decreases |s|
  {
    if s != [] {
      assert (s + [y])[1..] == s[1..] + [y];
      PairsAppend(f, s[1..], y);
      WithAppend(f, s[0], s[1..], y);
    } else {
      assert (s + [y])[1..] == [];
    }
  }

  ghost function Without<A>(s: seq<A>, k: nat): seq<A>
    requires k < |s|
  {
    s[..k] + s[k + 1..]
  }

  lemma WithoutMultiset<A>(s: seq<A>, k: nat)
    requires k < |s|
    ensures multiset(Without(s, k)) == multiset(s) - multiset{s[k]}
  {
    assert s == s[..k] + [s[k]] + s[k + 1..];
  }

  lemma WithoutCons<A>(s: seq<A>, k: nat)
    requires 0 < k < |s|
    ensures Without(s, k) != [] && Without(s, k)[0] == s[0] && Without(s, k)[1..] == Without(s[1..], k - 1)
  {
    assert s[1..][..k - 1] == s[1..k] && s[1..][k..] == s[k + 1..];
  }

  lemma {:induction false} WithWithout<A, B>(f: (A, A) -> multiset<B>, x: A, s: seq<A>, k: nat)
    requires k < |s|
    ensures With(f, x, s) == f(x, s[k]) + With(f, x, Without(s, k))
    decreases |s|
  {
    if k == 0 {
      assert Without(s, k) == s[1..];
    } else {
      WithoutCons(s, k);
      WithWithout(f, x, s[1..], k - 1);
      assert s[1..][k - 1] == s[k];
    }
  }

  lemma {:induction false} PairsWithout<A(!new), B>(f: (A, A) -> multiset<B>, s: seq<A>, k: nat)
    requires Symmetric(f) && k < |s|
    ensures Pairs(f, s) == With(f, s[k], Without(s, k)) + Pairs(f, Without(s, k))
    decreases |s|
  {
    if k == 0 {
      assert Without(s, k) == s[1..];
    } else {
      var t, u := Without(s, k), Without(s[1..], k - 1);
      WithoutCons(s, k);
      PairsWithout(f, s[1..], k - 1);
      WithWithout(f, s[0], s[1..], k - 1);
      assert s[1..][k - 1] == s[k];
      calc {
        Pairs(f, s);
        With(f, s[0], s[1..]) + Pairs(f, s[1..]);
        (f(s[0], s[k]) + With(f, s[0], u)) + (With(f, s[k], u) + Pairs(f, u));
        (f(s[k], t[0]) + With(f, s[k], t[1..])) + (With(f, t[0], t[1..]) + Pairs(f, t[1..]));
      }
    }
  }

  /** The head of a list sits somewhere in any permutation of it; the rests are permutations again. */
  lemma HeadIn<A>(s: seq<A>, t: seq<A>) returns (k: nat)
    requires s != [] && multiset(s) == multiset(t)
    ensures k < |t| && t[k] == s[0] && multiset(s[1..]) == multiset(Without(t, k))
  {
    InMultiset(t, s[0]);
    InMultiset(s, s[0]);
    k :| 0 <= k < |t| && t[k] == s[0];
    WithoutMultiset(t, k);
    assert s == [s[0]] + s[1..];
    assert multiset(s[1..]) == multiset(s) - multiset{s[0]};
  }

  lemma EmptyPermuted<A>(t: seq<A>)
    requires multiset(t) == multiset{}
    ensures t == []
  {
    assert |multiset(t)| == |t|;
  }

  lemma {:induction false} WithPermuted<A, B>(f: (A, A) -> multiset<B>, x: A, s: seq<A>, t: seq<A>)
    requires multiset(s) == multiset(t)
    ensures With(f, x, s) == With(f, x, t)
    decreases |s|
  {
    if s == [] {
      EmptyPermuted(t);
    } else {
      var k := HeadIn(s, t);
      WithWithout(f, x, t, k);
      WithPermuted(f, x, s[1..], Without(t, k));
    }
  }

  /** The sum over pairs does not depend on the order of the list. */
  lemma {:induction false} PairsPermuted<A(!new), B>(f: (A, A) -> multiset<B>, s: seq<A>, t: seq<A>)
    requires Symmetric(f) && multiset(s) == multiset(t)
    ensures Pairs(f, s) == Pairs(f, t)
    decreases |s|
  {
    if s == [] {
      EmptyPermuted(t);
    } else {
      var k := HeadIn(s, t);
      PairsWithout(f, t, k);
      WithPermuted(f, s[0], s[1..], Without(t, k));
      PairsPermuted(f, s[1..], Without(t, k));
    }
  }

  // ----- how often a pair contributes -----

  ghost predicate WithAt<A, B>(f: (A, A) -> multiset<B>, x: A, s: seq<A>, b: B, j: int) {
    0 <= j < |s| && b in f(x, s[j])
  }

  ghost predicate WithHas<A, B>(f: (A, A) -> multiset<B>, x: A, s: seq<A>, b: B) {
    exists j :: WithAt(f, x, s, b, j)
  }

  ghost predicate WithTwice<A, B>(f: (A, A) -> multiset<B>, x: A, s: seq<A>, b: B) {
    exists j, l :: WithAt(f, x, s, b, j) && WithAt(f, x, s, b, l) && j < l
  }

  lemma WithShift<A, B>(f: (A, A) -> multiset<B>, x: A, s: seq<A>, b: B)
    requires s != []
    ensures WithHas(f, x, s, b) <==> b in f(x, s[0]) || WithHas(f, x, s[1..], b)
    ensures WithTwice(f, x, s, b) <==> (b in f(x, s[0]) && WithHas(f, x, s[1..], b)) || WithTwice(f, x, s[1..], b)
  {
    assert forall j :: WithAt(f, x, s[1..], b, j) ==> WithAt(f, x, s, b, j + 1);
    assert forall j :: WithAt(f, x, s, b, j) && j > 0 ==> WithAt(f, x, s[1..], b, j - 1);
    assert b in f(x, s[0]) <==> WithAt(f, x, s, b, 0);
  }

  lemma {:induction false} WithCount<A(!new), B>(f: (A, A) -> multiset<B>, x: A, s: seq<A>, b: B)
    requires forall y :: f(x, y)[b] <= 1
    ensures b in With(f, x, s) <==> WithHas(f, x, s, b)
    ensures With(f, x, s)[b] >= 2 <==> WithTwice(f, x, s, b)
    decreases |s|
  {
    if s != [] {
      WithCount(f, x, s[1..], b);
      WithShift(f, x, s, b);
    }
  }

  ghost predicate PairAt<A, B>(f: (A, A) -> multiset<B>, s: seq<A>, b: B, i: int, j: int) {
    0 <= i < j < |s| && b in f(s[i], s[j])
  }

  ghost predicate PairHas<A, B>(f: (A, A) -> multiset<B>, s: seq<A>, b: B) {
    exists i, j :: PairAt(f, s, b, i, j)
  }

  ghost predicate PairTwice<A, B>(f: (A, A) -> multiset<B>, s: seq<A>, b: B) {
    exists i, j, k, l :: PairAt(f, s, b, i, j) && PairAt(f, s, b, k, l) && (i != k || j != l)
  }

  lemma PairShift<A, B>(f: (A, A) -> multiset<B>, s: seq<A>, b: B, i: int, j: int)
    requires s != []
    ensures i > 0 ==> (PairAt(f, s, b, i, j) <==> PairAt(f, s[1..], b, i - 1, j - 1))
    ensures PairAt(f, s, b, 0, j) <==> WithAt(f, s[0], s[1..], b, j - 1)
  {
  }

  lemma PairHasShift<A, B>(f: (A, A) -> multiset<B>, s: seq<A>, b: B)
    requires s != []
    ensures PairHas(f, s, b) <==> WithHas(f, s[0], s[1..], b) || PairHas(f, s[1..], b)
  {
    if i, j :| PairAt(f, s, b, i, j) {
      PairShift(f, s, b, i, j);
    }
    if j :| WithAt(f, s[0], s[1..], b, j) {
      PairShift(f, s, b, 0, j + 1);
    }
    if i, j :| PairAt(f, s[1..], b, i, j) {
      PairShift(f, s, b, i + 1, j + 1);
    }
  }

  lemma PairTwiceShift<A, B>(f: (A, A) -> multiset<B>, s: seq<A>, b: B)
    requires s != []
    ensures PairTwice(f, s, b) <==>
      || WithTwice(f, s[0], s[1..], b) || PairTwice(f, s[1..], b)
      || (WithHas(f, s[0], s[1..], b) && PairHas(f, s[1..], b))
  {
    if i, j, k, l :| PairAt(f, s, b, i, j) && PairAt(f, s, b, k, l) && (i != k || j != l) {
      PairShift(f, s, b, i, j);
      PairShift(f, s, b, k, l);
    }
    if j, l :| WithAt(f, s[0], s[1..], b, j) && WithAt(f, s[0], s[1..], b, l) && j < l {
      PairShift(f, s, b, 0, j + 1);
      PairShift(f, s, b, 0, l + 1);
    }
    if i, j, k, l :| PairAt(f, s[1..], b, i, j) && PairAt(f, s[1..], b, k, l) && (i != k || j != l) {
      PairShift(f, s, b, i + 1, j + 1);
      PairShift(f, s, b, k + 1, l + 1);
    }
    if WithHas(f, s[0], s[1..], b) && PairHas(f, s[1..], b) {
      var j :| WithAt(f, s[0], s[1..], b, j);
      var k, l :| PairAt(f, s[1..], b, k, l);
      PairShift(f, s, b, 0, j + 1);
      PairShift(f, s, b, k + 1, l + 1);
    }
  }

  /** A value occurs in the sum when some pair of positions contributes it, and twice when two do. */
  lemma {:induction false} PairsCount<A(!new), B>(f: (A, A) -> multiset<B>, s: seq<A>, b: B)
    requires forall x, y :: f(x, y)[b] <= 1
    ensures b in Pairs(f, s) <==> PairHas(f, s, b)
    ensures Pairs(f, s)[b] >= 2 <==> PairTwice(f, s, b)
    decreases |s|
  {
    if s != [] {
      PairsCount(f, s[1..], b);
      WithCount(f, s[0], s[1..], b);
      PairHasShift(f, s, b);
      PairTwiceShift(f, s, b);
    }
  }

  // ----- lists without a repeated name -----

  ghost predicate Apart<T, U>(name: T -> U, s: seq<T>) {
    forall i, j :: 0 <= i < j < |s| ==> name(s[i]) != name(s[j])
  }

  ghost predicate Absent<T, U>(name: T -> U, s: seq<T>, x: T) {
    forall i :: 0 <= i < |s| ==> name(s[i]) != name(x)
  }

  lemma ApartAppend<T, U>(name: T -> U, s: seq<T>, x: T)
    requires Apart(name, s) && Absent(name, s, x)
    ensures Apart(name, s + [x])
  {
  }

  lemma ApartInsert<T, U>(name: T -> U, t: seq<T>, k: nat)
    requires k < |t| && Apart(name, Without(t, k)) && Absent(name, Without(t, k), t[k])
    ensures Apart(name, t)
  {
    var u := Without(t, k);
    assert forall i :: 0 <= i < k ==> u[i] == t[i];
    assert forall i :: k < i < |t| ==> u[i - 1] == t[i];
  }

  lemma {:induction false} ApartPermuted<T, U>(name: T -> U, s: seq<T>, t: seq<T>)
    requires Apart(name, s) && multiset(s) == multiset(t)
    ensures Apart(name, t)
    decreases |s|
  {
    if s == [] {
      EmptyPermuted(t);
    } else {
      var k := HeadIn(s, t);
      var u := Without(t, k);
      ApartPermuted(name, s[1..], u);
      forall i | 0 <= i < |u| ensures name(u[i]) != name(t[k]) {
        InMultiset(u, u[i]);
        InMultiset(s[1..], u[i]);
        var j :| 0 <= j < |s[1..]| && s[1..][j] == u[i];
        assert name(s[0]) != name(s[j + 1]);
      }
      ApartInsert(name, t, k);
    }
  }

  /** Two elements have one name: different ones, or one that occurs twice. */
  ghost predicate Clash<T(!new), U>(name: T -> U, m: multiset<T>) {
    exists p, q :: p in m && q in m && name(p) == name(q) && (p == q ==> m[p] >= 2)
  }

  lemma ClashStep<T(!new), U>(name: T -> U, m: multiset<T>, r: T)
    ensures Clash(name, m + multiset{r}) <==> Clash(name, m) || exists p :: p in m && name(p) == name(r)
  {
    var more := m + multiset{r};
    assert forall p :: more[p] == m[p] + if p == r then 1 else 0;
    if p, q :| p in more && q in more && name(p) == name(q) && (p == q ==> more[p] >= 2) {
      assert p != r && q != r ==> p in m && q in m;
      assert p == r ==> q in m;
      assert q == r ==> p in m;
    }
    if p :| p in m && name(p) == name(r) {
      assert p in more && r in more;
    }
    if p, q :| p in m && q in m && name(p) == name(q) && (p == q ==> m[p] >= 2) {
      assert p in more && q in more;
    }
  }

  lemma ApartSnoc<T, U>(name: T -> U, s: seq<T>, x: T)
    ensures Apart(name, s + [x]) <==> Apart(name, s) && Absent(name, s, x)
  {
    var more := s + [x];
    if Apart(name, more) {
      assert forall i :: 0 <= i < |s| ==> s[i] == more[i] && name(more[i]) != name(more[|s|]);
    }
  }

  lemma {:induction false} ApartIff<T(!new), U>(name: T -> U, s: seq<T>)
    ensures Apart(name, s) <==> !Clash(name, multiset(s))
    decreases |s|
  {
    if s != [] {
      var init, x := s[..|s| - 1], s[|s| - 1];
      assert s == init + [x];
      ApartIff(name, init);
      ApartSnoc(name, init, x);
      ClashStep(name, multiset(init), x);
      assert multiset(s) == multiset(init) + multiset{x};
      assert Absent(name, init, x) <==> !exists p :: p in init && name(p) == name(x);
    }
  }

  ghost predicate DistinctPairs(n: nat, i: int, j: int, k: int, l: int) {
    0 <= i < j < n && 0 <= k < l < n && (i != k || j != l)
  }

  /** Two pairs contribute values of one name. */
  ghost predicate Namesakes<A, B(!new), U>(f: (A, A) -> multiset<B>, name: B -> U, x: A, y: A, z: A, w: A) {
    exists p, q :: p in f(x, y) && q in f(z, w) && name(p) == name(q)
  }

  ghost predicate PairsAlike<A, B(!new), U>(f: (A, A) -> multiset<B>, name: B -> U, s: seq<A>) {
    exists i, j, k, l :: DistinctPairs(|s|, i, j, k, l) && Namesakes(f, name, s[i], s[j], s[k], s[l])
  }

  ghost predicate AtMostOne<A(!new), B(!new)>(f: (A, A) -> multiset<B>) {
    && (forall x, y, b :: f(x, y)[b] <= 1)
    && (forall x, y, b, c :: b in f(x, y) && c in f(x, y) ==> b == c)
  }

  lemma ClashAlike<A(!new), B(!new), U>(f: (A, A) -> multiset<B>, name: B -> U, s: seq<A>, p: B, q: B)
    requires AtMostOne(f) && name(p) == name(q)
    requires if p == q then PairTwice(f, s, p) else PairHas(f, s, p) && PairHas(f, s, q)
    ensures PairsAlike(f, name, s)
  {
    var i, j, k, l;
    if p == q {
      i, j, k, l :| PairAt(f, s, p, i, j) && PairAt(f, s, p, k, l) && (i != k || j != l);
    } else {
      i, j :| PairAt(f, s, p, i, j);
      k, l :| PairAt(f, s, q, k, l);
    }
    assert DistinctPairs(|s|, i, j, k, l);
    assert Namesakes(f, name, s[i], s[j], s[k], s[l]);
  }

  lemma AlikeClash<A(!new), B(!new), U>(f: (A, A) -> multiset<B>, name: B -> U, s: seq<A>, i: int, j: int, k: int, l: int)
    requires AtMostOne(f) && DistinctPairs(|s|, i, j, k, l) && Namesakes(f, name, s[i], s[j], s[k], s[l])
    ensures Clash(name, Pairs(f, s))
  {
    var p, q :| p in f(s[i], s[j]) && q in f(s[k], s[l]) && name(p) == name(q);
    assert PairAt(f, s, p, i, j) && PairAt(f, s, q, k, l);
    PairsCount(f, s, p);
    PairsCount(f, s, q);
  }

  /** The sum has two values of one name exactly when two pairs of positions contribute such values. */
  lemma PairsClashIff<A(!new), B(!new), U>(f: (A, A) -> multiset<B>, name: B -> U, s: seq<A>)
    requires AtMostOne(f)
    ensures Clash(name, Pairs(f, s)) <==> PairsAlike(f, name, s)
  {
    var m := Pairs(f, s);
    if p, q :| p in m && q in m && name(p) == name(q) && (p == q ==> m[p] >= 2) {
      PairsCount(f, s, p);
      PairsCount(f, s, q);
      ClashAlike(f, name, s, p, q);
    }
    if i, j, k, l :| DistinctPairs(|s|, i, j, k, l) && Namesakes(f, name, s[i], s[j], s[k], s[l]) {
      AlikeClash(f, name, s, i, j, k, l);
    }
  }
}
