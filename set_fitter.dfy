/**
 * The set fitter of the global-macro plugin. It covers a permission set
 * with the permission sets of known macros. Every catalog entry is scored
 * by the share of its permissions that the target needs; the entries that
 * score exactly 1 grant only needed permissions. Among all non-empty
 * combinations of those, the one leaving the fewest target permissions
 * uncovered wins, and among equally good ones the one with the fewest
 * macros, the first in enumeration order.
 */
module SetFitting {

  /** A score `num/den`, kept as an exact fraction. */
  datatype Ratio = Ratio(num: nat, den: nat)

  /** The score a rich set starts with. */
  const Zero: Ratio := Ratio(0, 1)

  /** A score is 1 when its numerator equals its positive denominator. */
  predicate IsOne(r: Ratio) {
    r.den > 0 && r.num == r.den
  }

  /** The strict order `a < b` of two scores with positive denominators. */
  predicate Below(a: Ratio, b: Ratio) {
    a.num * b.den < b.num * a.den
  }

  /** One score below another is not also above it. */
  lemma BelowAsymmetric(a: Ratio, b: Ratio)
    requires Below(a, b)
    ensures !Below(b, a)
  {
  }

  lemma MulLess(x: int, y: int, k: int)
    requires x < y && k > 0
    ensures x * k < y * k
  {
  }

  /** "Not below" is transitive on scores with positive denominators, so descending order is a chain. */
  lemma NotBelowTransitive(a: Ratio, b: Ratio, c: Ratio)
    requires a.den > 0 && b.den > 0 && c.den > 0
    requires !Below(a, b) && !Below(b, c)
    ensures !Below(a, c)
  {
    if Below(a, c) {
      MulLess(a.num * c.den, c.num * a.den, b.den);
      if a.num * b.den > b.num * a.den {
        MulLess(b.num * a.den, a.num * b.den, c.den);
      }
      if b.num * c.den > c.num * b.den {
        MulLess(c.num * b.den, b.num * c.den, a.den);
      }
      assert false;
    }
  }

  lemma SubsetCard(a: set<string>, b: set<string>)
    requires a <= b
    ensures |a| <= |b|
  {
    assert b == a + (b - a);
  }

  lemma SubsetSameCard(a: set<string>, b: set<string>)
    requires a <= b && |a| == |b|
    ensures a == b
  {
    assert b == a + (b - a);
  }

  /**
   * The score of a macro granting `p` against the target `s`: the share
   * |p ∩ s| / |p| of its permissions that the target needs, or 0 when it
   * grants none of them (in particular when `p` is empty).
   */
  function Fitness(p: set<string>, s: set<string>): (r: Ratio)
    ensures r.den > 0 && r.num <= r.den
    ensures r.num == |p * s|
  {
    SubsetCard(p * s, p);
    if |p * s| == 0 then Zero else Ratio(|p * s|, |p|)
  }

  /** A macro scores exactly 1 iff it grants something and only permissions of the target. */
  lemma FitnessOne(p: set<string>, s: set<string>)
    ensures IsOne(Fitness(p, s)) <==> p != {} && p <= s
  {
    SubsetCard(p * s, p);
    if IsOne(Fitness(p, s)) {
      SubsetSameCard(p * s, p);
    }
    if p != {} && p <= s {
      assert p * s == p;
    }
  }

  /** How often each permission of `values` has been seen once the elements of `done` are counted. */
  function CountMap(values: set<string>, done: set<string>): map<string, nat> {
    map e | e in values :: if e in done then 1 else 0
  }

  /** Counting one more element `e` adds a hit exactly when `e` is one of the entry's permissions. */
  lemma CountStep(values: set<string>, done: set<string>, e: string)
    requires e !in done
    ensures |CountMap(values, done)| == |values|
    ensures e in values ==> |values * (done + {e})| == |values * done| + 1
    ensures e in values ==> CountMap(values, done + {e}) == CountMap(values, done)[e := 1]
    ensures e in values ==> Fitness(values, done + {e}) == Ratio(|values * done| + 1, |values|)
    ensures e !in values ==> values * (done + {e}) == values * done
    ensures e !in values ==> CountMap(values, done + {e}) == CountMap(values, done)
  {
    assert CountMap(values, done).Keys == values;
    if e in values {
      assert values * (done + {e}) == values * done + {e};
    } else {
      assert values * (done + {e}) == values * done;
    }
  }

  /** A catalog entry being scored: how often each of its permissions was seen, and the score so far. */
  class RichSet {
    const name: string
    const values: set<string>
    var tally: map<string, nat>
    var nonzero: nat
    var score: Ratio

    /** The state once each element of `done` has been counted exactly once. */
    ghost predicate Counted(done: set<string>)
      reads this
    {
      && tally == CountMap(values, done)
      && nonzero == |values * done|
      && score == Fitness(values, done)
    }

    /** A fresh entry: every permission seen zero times, score 0. */
    constructor (name: string, values: set<string>)
      ensures this.name == name && this.values == values
      ensures tally == map e | e in values :: 0
      ensures nonzero == 0 && score == Zero
      ensures Counted({})
    {
      this.name := name;
      this.values := values;
      var t: map<string, nat> := map[];
      var rest := values;
      while rest != {}
        invariant rest <= values
        invariant t == map e | e in values - rest :: 0
        decreases |rest|
      {
        var e :| e in rest;
        t := t[e := 0];
        rest := rest - {e};
      }
      tally := t;
      nonzero := 0;
      score := Zero;
      assert values * {} == {};
    }

    /**
     * Counts one occurrence of `elem`. The first occurrence of one of the
     * entry's permissions raises the hit count and sets the score to the
     * share of permissions hit; anything else leaves count and score alone.
     */
    method Incr(elem: string)
      modifies this
      ensures elem in old(tally) && old(tally)[elem] == 0 ==>
        nonzero == old(nonzero) + 1 && score == Ratio(nonzero, |old(tally)|)
      ensures !(elem in old(tally) && old(tally)[elem] == 0) ==>
        nonzero == old(nonzero) && score == old(score)
      ensures tally == if elem in old(tally) then old(tally)[elem := old(tally)[elem] + 1] else old(tally)
    {
      if elem in tally {
        if tally[elem] == 0 {
          nonzero := nonzero + 1;
          score := Ratio(nonzero, |tally|);
        }
        tally := tally[elem := tally[elem] + 1];
      }
    }
  }

  /** The rich sets are pairwise distinct objects. */
  ghost predicate Distinct(rich: seq<RichSet>) {
    forall i, j :: 0 <= i < j < |rich| ==> rich[i] != rich[j]
  }

  /** One fresh rich set per catalog entry, in catalog order. */
  method NewRichSets(d: seq<(string, set<string>)>) returns (rich: seq<RichSet>)
    ensures |rich| == |d| && Distinct(rich)
    ensures forall i :: 0 <= i < |d| ==>
      fresh(rich[i]) && rich[i].name == d[i].0 && rich[i].values == d[i].1 && rich[i].Counted({})
  {
    rich := [];
    var i := 0;
    while i < |d|
      invariant 0 <= i <= |d| && |rich| == i && Distinct(rich)
      invariant forall k :: 0 <= k < i ==>
        fresh(rich[k]) && rich[k].name == d[k].0 && rich[k].values == d[k].1 && rich[k].Counted({})
    {
      var r := new RichSet(d[i].0, d[i].1);
      rich := rich + [r];
      i := i + 1;
    }
  }

  /** Counts the element `e`, not counted before, in every rich set. */
  method IncrAll(rich: seq<RichSet>, e: string, ghost done: set<string>)
    requires Distinct(rich) && e !in done
    requires forall i :: 0 <= i < |rich| ==> rich[i].Counted(done)
    modifies set i | 0 <= i < |rich| :: rich[i]
    ensures forall i :: 0 <= i < |rich| ==> rich[i].Counted(done + {e})
  {
    var j := 0;
    while j < |rich|
      invariant 0 <= j <= |rich|
      invariant forall i :: 0 <= i < j ==> rich[i].Counted(done + {e})
      invariant forall i :: j <= i < |rich| ==> rich[i].Counted(done)
    {
      CountStep(rich[j].values, done, e);
      rich[j].Incr(e);
      j := j + 1;
    }
  }

  /** Counts every element of `s` once in every rich set; afterwards each score is its fitness against `s`. */
  method TallyAll(rich: seq<RichSet>, s: set<string>)
    requires Distinct(rich)
    requires forall i :: 0 <= i < |rich| ==> rich[i].Counted({})
    modifies set i | 0 <= i < |rich| :: rich[i]
    ensures forall i :: 0 <= i < |rich| ==> rich[i].Counted(s)
  {
    var rest := s;
    ghost var done: set<string> := {};
    while rest != {}
      invariant rest <= s && done == s - rest
      invariant forall i :: 0 <= i < |rich| ==> rich[i].Counted(done)
      decreases |rest|
    {
      var e :| e in rest;
      IncrAll(rich, e, done);
      rest := rest - {e};
      done := done + {e};
    }
  }

  /** A catalog entry with its final score, as the fitter hands it back. */
  datatype Scored = Scored(name: string, values: set<string>, score: Ratio)

  /** Every catalog entry scored against `s`, in catalog order. */
  function Scores(d: seq<(string, set<string>)>, s: set<string>): (r: seq<Scored>)
    ensures |r| == |d|
    ensures forall i :: 0 <= i < |d| ==> r[i] == Scored(d[i].0, d[i].1, Fitness(d[i].1, s))
  {
    seq(|d|, i requires 0 <= i < |d| => Scored(d[i].0, d[i].1, Fitness(d[i].1, s)))
  }

  /** The score of a scored entry. */
  function ScoredScore(x: Scored): Ratio {
    x.score
  }

  /** The elements scoring exactly 1 by `key`, in order. */
  function Ones<T(!new)>(key: T -> Ratio, xs: seq<T>): (r: seq<T>)
    ensures forall x :: x in r <==> x in xs && IsOne(key(x))
    decreases |xs|
  {
    if |xs| == 0 then []
    else
      var prior := Ones(key, xs[..|xs| - 1]);
      var x := xs[|xs| - 1];
      if IsOne(key(x)) then prior + [x] else prior
  }

  /** The elements scoring below 1 by `key`, in order. */
  function Partial<T(!new)>(key: T -> Ratio, xs: seq<T>): (r: seq<T>)
    ensures forall x :: x in r <==> x in xs && !IsOne(key(x))
    decreases |xs|
  {
    if |xs| == 0 then []
    else
      var prior := Partial(key, xs[..|xs| - 1]);
      var x := xs[|xs| - 1];
      if !IsOne(key(x)) then prior + [x] else prior
  }

  /** The exact and the partial entries together are the catalog, each entry exactly once. */
  lemma {:induction false} OnesPartition<T(!new)>(key: T -> Ratio, xs: seq<T>)
    ensures multiset(Ones(key, xs)) + multiset(Partial(key, xs)) == multiset(xs)
    decreases |xs|
  {
    if |xs| > 0 {
      var front, x := xs[..|xs| - 1], xs[|xs| - 1];
      OnesPartition(key, front);
      assert xs == front + [x];
      assert multiset(xs) == multiset(front) + multiset{x};
      if IsOne(key(x)) {
        assert Ones(key, xs) == Ones(key, front) + [x] && Partial(key, xs) == Partial(key, front);
        assert multiset(Ones(key, xs)) == multiset(Ones(key, front)) + multiset{x};
      } else {
        assert Partial(key, xs) == Partial(key, front) + [x] && Ones(key, xs) == Ones(key, front);
        assert multiset(Partial(key, xs)) == multiset(Partial(key, front)) + multiset{x};
      }
    }
  }

  /** Exact entries grant something and only permissions of the target; partial ones do not. */
  lemma OnesFit(d: seq<(string, set<string>)>, s: set<string>)
    ensures forall x :: x in Ones(ScoredScore, Scores(d, s)) ==> x.values != {} && x.values <= s
    ensures forall x :: x in Partial(ScoredScore, Scores(d, s)) ==> !(x.values != {} && x.values <= s)
  {
    var xs := Scores(d, s);
    forall x | x in xs
      ensures IsOne(x.score) <==> x.values != {} && x.values <= s
    {
      var i :| 0 <= i < |xs| && xs[i] == x;
      FitnessOne(d[i].1, s);
    }
  }

  /** Splits the scored rich sets into the exact and the partial entries. */
  method Partition(rich: seq<RichSet>, ghost d: seq<(string, set<string>)>, ghost s: set<string>)
    returns (ones: seq<Scored>, part: seq<Scored>)
    requires |rich| == |d|
    requires forall i :: 0 <= i < |rich| ==>
      rich[i].name == d[i].0 && rich[i].values == d[i].1 && rich[i].Counted(s)
    ensures ones == Ones(ScoredScore, Scores(d, s)) && part == Partial(ScoredScore, Scores(d, s))
  {
    ghost var xs := Scores(d, s);
    ones, part := [], [];
    var i := 0;
    while i < |rich|
      invariant 0 <= i <= |rich|
      invariant ones == Ones(ScoredScore, xs[..i]) && part == Partial(ScoredScore, xs[..i])
    {
      var x := rich[i];
      var entry := Scored(x.name, x.values, x.score);
      assert xs[..i + 1][..i] == xs[..i];
      assert entry == xs[..i + 1][i];
      if IsOne(x.score) {
        ones := ones + [entry];
      } else {
        part := part + [entry];
      }
      i := i + 1;
    }
    assert xs[..|rich|] == xs;
  }

  /** A combination lists distinct entries in catalog order. */
  predicate Increasing(c: seq<nat>) {
    forall i, j :: 0 <= i < j < |c| ==> c[i] < c[j]
  }

  /** Every index of `c` lies in `lo..n-1`. */
  predicate Within(c: seq<nat>, lo: nat, n: nat) {
    forall i :: 0 <= i < |c| ==> lo <= c[i] < n
  }

  function Prepend(x: nat, cs: seq<seq<nat>>): (r: seq<seq<nat>>)
    ensures |r| == |cs| && forall i :: 0 <= i < |cs| ==> r[i] == [x] + cs[i]
  {
    seq(|cs|, i requires 0 <= i < |cs| => [x] + cs[i])
  }

  /**
   * The k-element combinations of the indices `lo..n-1` in lexicographic
   * order, which is the order in which `itertools.combinations` yields them.
   */
  function Combos(lo: nat, n: nat, k: nat): seq<seq<nat>>
    decreases n - lo
  {
    if k == 0 then [[]]
    else if n <= lo then []
    else Prepend(lo, Combos(lo + 1, n, k - 1)) + Combos(lo + 1, n, k)
  }

  /** The combinations of sizes 1 to i of the indices `0..n-1`, smaller sizes first. */
  function UpTo(n: nat, i: nat): seq<seq<nat>> {
    if i == 0 then [] else UpTo(n, i - 1) + Combos(0, n, i)
  }

  /** Every combination has k distinct indices, in order, from `lo..n-1`. */
  lemma CombosSound(lo: nat, n: nat, k: nat)
    ensures forall c :: c in Combos(lo, n, k) ==> |c| == k && Increasing(c) && Within(c, lo, n)
  {
    forall c | c in Combos(lo, n, k)
      ensures |c| == k && Increasing(c) && Within(c, lo, n)
    {
      CombosSoundAt(lo, n, k, c);
    }
  }

  lemma {:induction false} CombosSoundAt(lo: nat, n: nat, k: nat, c: seq<nat>)
    requires c in Combos(lo, n, k)
    ensures |c| == k && Increasing(c) && Within(c, lo, n)
    decreases n - lo
  {
    if k > 0 {
      var with, without := Combos(lo + 1, n, k - 1), Combos(lo + 1, n, k);
      assert Combos(lo, n, k) == Prepend(lo, with) + without;
      if c in without {
        CombosSoundAt(lo + 1, n, k, c);
      } else {
        var i :| 0 <= i < |with| && Prepend(lo, with)[i] == c;
        CombosSoundAt(lo + 1, n, k - 1, with[i]);
        ConsCombo(lo, n, with[i]);
      }
    }
  }

  /** An index below a combination in `lo+1..n-1` extends it. */
  lemma ConsCombo(lo: nat, n: nat, t: seq<nat>)
    requires lo < n && Increasing(t) && Within(t, lo + 1, n)
    ensures Increasing([lo] + t) && Within([lo] + t, lo, n)
  {
    var c := [lo] + t;
    forall i | 0 <= i < |c| ensures lo <= c[i] < n {
      if i > 0 { assert c[i] == t[i - 1]; }
    }
    forall i, j | 0 <= i < j < |c| ensures c[i] < c[j] {
      assert c[j] == t[j - 1];
      if i > 0 { assert c[i] == t[i - 1]; }
    }
  }

  /** Dropping the first index of a combination leaves a combination above it. */
  lemma TailWithin(c: seq<nat>, n: nat)
    requires |c| > 0 && Increasing(c) && Within(c, 0, n)
    ensures Increasing(c[1..]) && Within(c[1..], c[0] + 1, n)
  {
    var tail := c[1..];
    forall i | 0 <= i < |tail| ensures c[0] + 1 <= tail[i] < n {
      assert tail[i] == c[i + 1];
    }
    forall i, j | 0 <= i < j < |tail| ensures tail[i] < tail[j] {
      assert tail[i] == c[i + 1] && tail[j] == c[j + 1];
    }
  }

  /** Every increasing choice of k indices from `lo..n-1` is one of the combinations. */
  lemma {:induction false} CombosComplete(lo: nat, n: nat, k: nat, c: seq<nat>)
    requires |c| == k && Increasing(c) && Within(c, lo, n)
    ensures c in Combos(lo, n, k)
    decreases n - lo
  {
    if k > 0 {
      assert lo <= c[0] < n;
      var with, without := Combos(lo + 1, n, k - 1), Combos(lo + 1, n, k);
      assert Combos(lo, n, k) == Prepend(lo, with) + without;
      if c[0] == lo {
        TailWithin(c, n);
        CombosComplete(lo + 1, n, k - 1, c[1..]);
        PrependMember(lo, with, c[1..]);
        assert c == [lo] + c[1..];
      } else {
        AboveFirst(c, lo, n);
        CombosComplete(lo + 1, n, k, c);
      }
    }
  }

  lemma PrependMember(x: nat, cs: seq<seq<nat>>, t: seq<nat>)
    requires t in cs
    ensures [x] + t in Prepend(x, cs)
  {
    var i :| 0 <= i < |cs| && cs[i] == t;
    assert Prepend(x, cs)[i] == [x] + t;
  }

  /** A combination that does not start at `lo` lies above it. */
  lemma AboveFirst(c: seq<nat>, lo: nat, n: nat)
    requires |c| > 0 && Increasing(c) && Within(c, lo, n) && c[0] != lo
    ensures Within(c, lo + 1, n)
  {
    forall i | 0 <= i < |c| ensures lo + 1 <= c[i] < n {
      assert i == 0 || c[0] < c[i];
    }
  }

  /** A combination has at most as many indices as there are to choose from. */
  lemma {:induction false} IncreasingBound(c: seq<nat>, lo: nat, n: nat)
    requires Increasing(c) && Within(c, lo, n)
    ensures |c| == 0 || lo + |c| <= n
    decreases |c|
  {
    if |c| > 1 {
      TailWithin(c, n);
      IncreasingBound(c[1..], c[0] + 1, n);
    }
  }

  lemma {:induction false} UpToSound(n: nat, i: nat)
    ensures forall c :: c in UpTo(n, i) ==> 1 <= |c| && Increasing(c) && Within(c, 0, n)
  {
    if i > 0 {
      UpToSound(n, i - 1);
      CombosSound(0, n, i);
      forall c | c in UpTo(n, i)
        ensures 1 <= |c| && Increasing(c) && Within(c, 0, n)
      {
        if c !in UpTo(n, i - 1) {
          assert c in Combos(0, n, i);
          assert |c| == i;
        }
      }
    }
  }

  lemma {:induction false} UpToComplete(n: nat, i: nat, k: nat, c: seq<nat>)
    requires 1 <= k <= i && c in Combos(0, n, k)
    ensures c in UpTo(n, i)
  {
    if k < i {
      UpToComplete(n, i - 1, k, c);
    }
  }

  /** The enumeration holds exactly the non-empty increasing index sequences below n. */
  lemma AllCombosMembers(n: nat)
    ensures forall c :: c in UpTo(n, n) <==> 1 <= |c| && Increasing(c) && Within(c, 0, n)
  {
    forall c | 1 <= |c| && Increasing(c) && Within(c, 0, n)
      ensures c in UpTo(n, n)
    {
      IncreasingBound(c, 0, n);
      CombosComplete(0, n, |c|, c);
      UpToComplete(n, n, |c|, c);
    }
    UpToSound(n, n);
  }

  /** The permissions granted by the entries of `vals` that `c` picks. */
  function UnionOf(vals: seq<set<string>>, c: seq<nat>): set<string>
    decreases |c|
  {
    if |c| == 0 then {}
    else
      var last := c[|c| - 1];
      UnionOf(vals, c[..|c| - 1]) + (if last < |vals| then vals[last] else {})
  }

  /** A permission is granted by a combination iff one of its entries grants it. */
  lemma {:induction false} UnionMembers(vals: seq<set<string>>, c: seq<nat>)
    ensures forall p :: p in UnionOf(vals, c) <==>
      exists j :: 0 <= j < |c| && c[j] < |vals| && p in vals[c[j]]
    decreases |c|
  {
    if |c| > 0 {
      var front := c[..|c| - 1];
      UnionMembers(vals, front);
      forall p
        ensures p in UnionOf(vals, c) <==> exists j :: 0 <= j < |c| && c[j] < |vals| && p in vals[c[j]]
      {
        if p in UnionOf(vals, front) {
          var j :| 0 <= j < |front| && front[j] < |vals| && p in vals[front[j]];
          assert c[j] == front[j];
        }
        if exists j :: 0 <= j < |c| && c[j] < |vals| && p in vals[c[j]] {
          var j :| 0 <= j < |c| && c[j] < |vals| && p in vals[c[j]];
          if j < |front| {
            assert front[j] == c[j];
          }
        }
      }
    }
  }

  /** The number of target permissions a combination leaves uncovered. */
  function Residual(vals: seq<set<string>>, s: set<string>, c: seq<nat>): nat {
    |s - UnionOf(vals, c)|
  }

  /** The residual of every combination against the target `s`. */
  function ResidualOf(vals: seq<set<string>>, s: set<string>): seq<nat> -> nat {
    c => Residual(vals, s, c)
  }

  /**
   * The combinations of `cs` indexed by their residual `res`, each list in
   * enumeration order.
   */
  function Group(res: seq<nat> -> nat, cs: seq<seq<nat>>): (g: map<nat, seq<seq<nat>>>)
    ensures g.Keys == {} <==> |cs| == 0
    ensures forall e :: e in g ==> |g[e]| > 0
    decreases |cs|
  {
    if |cs| == 0 then map[]
    else
      var g := Group(res, cs[..|cs| - 1]);
      var c := cs[|cs| - 1];
      var e := res(c);
      if e in g then g[e := g[e] + [c]] else g[e := [c]]
  }

  /** The lists of the grouping hold exactly the combinations of `cs` with that residual. */
  lemma {:induction false} GroupFacts(res: seq<nat> -> nat, cs: seq<seq<nat>>)
    ensures forall e :: e in Group(res, cs) ==>
      forall c :: c in Group(res, cs)[e] ==> c in cs && res(c) == e
    ensures forall c :: c in cs ==> res(c) in Group(res, cs) && c in Group(res, cs)[res(c)]
    decreases |cs|
  {
    if |cs| > 0 {
      var front, last := cs[..|cs| - 1], cs[|cs| - 1];
      GroupFacts(res, front);
      assert cs == front + [last];
    }
  }

  /** The smallest key of a non-empty set of sizes. */
  ghost function MinOf(ks: set<nat>): (m: nat)
    requires ks != {}
    ensures m in ks && forall k :: k in ks ==> m <= k
  {
    var x :| x in ks;
    if ks == {x} then x
    else
      var r := MinOf(ks - {x});
      assert forall k :: k in ks ==> k == x || k in ks - {x};
      if r < x then r else x
  }

  /** The first of the shortest combinations, as `min(..., key=len)` picks it. */
  function FirstShortest(cs: seq<seq<nat>>): (c: seq<nat>)
    requires |cs| > 0
    ensures c in cs && forall d :: d in cs ==> |c| <= |d|
    ensures exists i :: 0 <= i < |cs| && cs[i] == c && forall j :: 0 <= j < i ==> |c| < |cs[j]|
  {
    if |cs| == 1 then cs[0]
    else
      var r := FirstShortest(cs[1..]);
      assert forall d :: d in cs[1..] ==> d in cs;
      if |r| < |cs[0]| then
        var i :| 0 <= i < |cs[1..]| && cs[1..][i] == r && forall j :: 0 <= j < i ==> |r| < |cs[1..][j]|;
        assert cs[i + 1] == r;
        r
      else cs[0]
  }

  /**
   * The winning combination of the exact entries `vals`: among all
   * non-empty combinations, the first shortest of those leaving the
   * fewest permissions of `s` uncovered; none when there are no entries.
   */
  ghost function WinnerIndices(vals: seq<set<string>>, s: set<string>): seq<nat> {
    var g := Group(ResidualOf(vals, s), UpTo(|vals|, |vals|));
    if g.Keys == {} then [] else FirstShortest(g[MinOf(g.Keys)])
  }

  /** No non-empty combination leaves fewer permissions uncovered, nor as few with fewer macros. */
  lemma WinnerOptimal(vals: seq<set<string>>, s: set<string>, c: seq<nat>)
    requires 1 <= |c| && Increasing(c) && Within(c, 0, |vals|)
    ensures Residual(vals, s, WinnerIndices(vals, s)) <= Residual(vals, s, c)
    ensures Residual(vals, s, WinnerIndices(vals, s)) == Residual(vals, s, c) ==>
      |WinnerIndices(vals, s)| <= |c|
  {
    var cs := UpTo(|vals|, |vals|);
    AllCombosMembers(|vals|);
    GroupFacts(ResidualOf(vals, s), cs);
    var g := Group(ResidualOf(vals, s), cs);
    assert Residual(vals, s, c) in g;
    var m := MinOf(g.Keys);
    var w := FirstShortest(g[m]);
    assert Residual(vals, s, w) == m;
    if Residual(vals, s, w) == Residual(vals, s, c) {
      assert c in g[m];
    }
  }

  /** The winner is empty exactly when there are no exact entries, and is otherwise a combination of them. */
  lemma WinnerShape(vals: seq<set<string>>, s: set<string>)
    ensures |vals| == 0 ==> WinnerIndices(vals, s) == []
    ensures |vals| > 0 ==> var w := WinnerIndices(vals, s);
      1 <= |w| && Increasing(w) && Within(w, 0, |vals|)
  {
    var cs := UpTo(|vals|, |vals|);
    AllCombosMembers(|vals|);
    if |vals| > 0 {
      assert [0] in cs;
      GroupFacts(ResidualOf(vals, s), cs);
    }
  }

  /** The indices `0..n-1`: the combination of every exact entry. */
  function Range(n: nat): (r: seq<nat>)
    ensures |r| == n && forall i :: 0 <= i < n ==> r[i] == i
  {
    seq(n, i => i)
  }

  /** A combination of entries below n grants no more than all n entries together. */
  lemma UnionWithin(vals: seq<set<string>>, c: seq<nat>)
    requires Within(c, 0, |vals|)
    ensures UnionOf(vals, c) <= UnionOf(vals, Range(|vals|))
  {
    var all := Range(|vals|);
    UnionMembers(vals, c);
    UnionMembers(vals, all);
    forall p | p in UnionOf(vals, c) ensures p in UnionOf(vals, all) {
      var j :| 0 <= j < |c| && c[j] < |vals| && p in vals[c[j]];
      assert all[c[j]] == c[j];
    }
  }

  /** Entries within the target combine to a set within the target. */
  lemma UnionInTarget(vals: seq<set<string>>, s: set<string>, c: seq<nat>)
    requires forall i :: 0 <= i < |vals| ==> vals[i] <= s
    ensures UnionOf(vals, c) <= s
  {
    UnionMembers(vals, c);
  }

  /**
   * A combination within the target whose residual is no larger than that
   * of all entries together covers everything they cover.
   */
  lemma CoversAll(vals: seq<set<string>>, s: set<string>, c: seq<nat>)
    requires forall i :: 0 <= i < |vals| ==> vals[i] <= s
    requires Within(c, 0, |vals|)
    requires Residual(vals, s, c) <= Residual(vals, s, Range(|vals|))
    ensures UnionOf(vals, c) == UnionOf(vals, Range(|vals|))
  {
    var all := Range(|vals|);
    var uc, ua := UnionOf(vals, c), UnionOf(vals, all);
    UnionWithin(vals, c);
    UnionInTarget(vals, s, all);
    assert s - ua <= s - uc;
    SubsetCard(s - ua, s - uc);
    SubsetSameCard(s - ua, s - uc);
    assert ua <= uc;
  }

  /** The winner covers every permission that all the exact entries together cover. */
  lemma WinnerCovers(vals: seq<set<string>>, s: set<string>)
    requires forall i :: 0 <= i < |vals| ==> vals[i] <= s
    ensures UnionOf(vals, WinnerIndices(vals, s)) == UnionOf(vals, Range(|vals|))
  {
    var w := WinnerIndices(vals, s);
    WinnerShape(vals, s);
    if |vals| > 0 {
      WinnerOptimal(vals, s, Range(|vals|));
      CoversAll(vals, s, w);
    } else {
      assert Range(|vals|) == [];
    }
  }

  function ValuesOf(xs: seq<Scored>): (vs: seq<set<string>>)
    ensures |vs| == |xs| && forall i :: 0 <= i < |xs| ==> vs[i] == xs[i].values
  {
    seq(|xs|, i requires 0 <= i < |xs| => xs[i].values)
  }

  function Pick(xs: seq<Scored>, c: seq<nat>): (r: seq<Scored>)
    requires Within(c, 0, |xs|)
    ensures |r| == |c| && forall k :: 0 <= k < |c| ==> r[k] == xs[c[k]]
  {
    seq(|c|, k requires 0 <= k < |c| => xs[c[k]])
  }

  /** The winning macros of the catalog `d` for the target `s`. */
  ghost function FitWinner(d: seq<(string, set<string>)>, s: set<string>): seq<Scored> {
    var ones := Ones(ScoredScore, Scores(d, s));
    WinnerShape(ValuesOf(ones), s);
    Pick(ones, WinnerIndices(ValuesOf(ones), s))
  }

  /** Every winning entry is an exact entry of the scored catalog. */
  lemma WinnerFromOnes(d: seq<(string, set<string>)>, s: set<string>)
    ensures forall x :: x in FitWinner(d, s) ==> x in Ones(ScoredScore, Scores(d, s))
  {
    var ones := Ones(ScoredScore, Scores(d, s));
    var vals := ValuesOf(ones);
    WinnerShape(vals, s);
    var c := WinnerIndices(vals, s);
    forall x | x in FitWinner(d, s) ensures x in ones {
      var k :| 0 <= k < |c| && Pick(ones, c)[k] == x;
    }
  }

  /**
   * Every entry of the full match scores exactly 1, and every entry of the
   * partial matches is scored by how much of the target it covers.
   */
  lemma FitScored(d: seq<(string, set<string>)>, s: set<string>)
    ensures forall x :: x in FitWinner(d, s) ==> IsOne(x.score) && x.score == Fitness(x.values, s)
    ensures forall x :: x in Partial(ScoredScore, Scores(d, s)) ==> x.score == Fitness(x.values, s)
  {
    var xs := Scores(d, s);
    forall x | x in xs ensures x.score == Fitness(x.values, s) {
      var i :| 0 <= i < |xs| && xs[i] == x;
    }
    WinnerFromOnes(d, s);
  }

  /** All itertools combinations of n entries, sizes 1 to n. */
  method AllCombinations(n: nat) returns (combs: seq<seq<nat>>)
    ensures combs == UpTo(n, n)
  {
    combs := [];
    var i := 1;
    while i <= n
      invariant 1 <= i <= n + 1
      invariant combs == UpTo(n, i - 1)
    {
      combs := combs + Combos(0, n, i);
      i := i + 1;
    }
  }

  /** The permissions granted by the chosen entries together. */
  method CoverOf(vals: seq<set<string>>, c: seq<nat>) returns (cover: set<string>)
    requires Within(c, 0, |vals|)
    ensures cover == UnionOf(vals, c)
  {
    cover := {};
    var k := 0;
    while k < |c|
      invariant 0 <= k <= |c|
      invariant cover == UnionOf(vals, c[..k])
    {
      assert c[..k + 1][..k] == c[..k];
      cover := cover + vals[c[k]];
      k := k + 1;
    }
    assert c[..|c|] == c;
  }

  // The recursion of Group, one combination further.
  lemma GroupTurn(res: seq<nat> -> nat, cs: seq<seq<nat>>, i: nat)
    requires i < |cs|
    ensures Group(res, cs[..i + 1]) == var g, e := Group(res, cs[..i]), res(cs[i]);
      if e in g then g[e := g[e] + [cs[i]]] else g[e := [cs[i]]]
  {
    var front := cs[..i + 1];
    assert front[..i] == cs[..i] && front[i] == cs[i];
  }

  /** Indexes every combination by the number of permissions of `s` it leaves uncovered. */
  method GroupByResidual(vals: seq<set<string>>, s: set<string>, combs: seq<seq<nat>>)
    returns (extraDim: map<nat, seq<seq<nat>>>)
    requires forall c :: c in combs ==> Within(c, 0, |vals|)
    ensures extraDim == Group(ResidualOf(vals, s), combs)
  {
    extraDim := map[];
    var i := 0;
    while i < |combs|
      invariant 0 <= i <= |combs|
      invariant extraDim == Group(ResidualOf(vals, s), combs[..i])
    {
      var c := combs[i];
      var cover := CoverOf(vals, c);
      var extra := s - cover;
      assert ResidualOf(vals, s)(c) == |extra|;
      GroupTurn(ResidualOf(vals, s), combs, i);
      if |extra| in extraDim {
        extraDim := extraDim[|extra| := extraDim[|extra|] + [c]];
      } else {
        extraDim := extraDim[|extra| := [c]];
      }
      i := i + 1;
    }
    assert combs[..|combs|] == combs;
  }

  /** The smallest key of a non-empty dictionary, as `min` over its keys returns it. */
  method MinKey(m: map<nat, seq<seq<nat>>>) returns (k: nat)
    requires m.Keys != {}
    ensures k in m && forall j :: j in m ==> k <= j
  {
    var rest := m.Keys;
    k :| k in rest;
    rest := rest - {k};
    ghost var seen: set<nat> := {k};
    while rest != {}
      invariant rest <= m.Keys && k in m
      invariant seen + rest == m.Keys
      invariant forall j :: j in seen ==> k <= j
      decreases |rest|
    {
      var j :| j in rest;
      if j < k {
        k := j;
      }
      rest := rest - {j};
      seen := seen + {j};
    }
  }

  /** A fitter over a fixed catalog of macro permission sets. */
  class SetFitter {
    /** The catalog: macro names with their permission sets, in dictionary order. */
    const d: seq<(string, set<string>)>

    constructor (d: seq<(string, set<string>)>)
      ensures this.d == d
    {
      this.d := d;
    }

    /**
     * Scores the catalog against `s` and returns the winning combination
     * of exact entries together with the partial entries, both as the
     * specification functions describe them. The catalog is left alone:
     * the rich sets are built afresh on every call.
     */
    method Fit(s: set<string>) returns (winner: seq<Scored>, part: seq<Scored>)
      ensures winner == FitWinner(d, s)
      ensures part == Partial(ScoredScore, Scores(d, s))
    {
      var rich := NewRichSets(d);
      TallyAll(rich, s);
      var ones;
      ones, part := Partition(rich, d, s);
      var vals := ValuesOf(ones);
      var combs := AllCombinations(|ones|);
      AllCombosMembers(|ones|);
      var extraDim := GroupByResidual(vals, s, combs);
      if extraDim.Keys != {} {
        var m := MinKey(extraDim);
        assert m == MinOf(extraDim.Keys);
        var c := FirstShortest(extraDim[m]);
        GroupFacts(ResidualOf(vals, s), combs);
        winner := Pick(ones, c);
      } else {
        winner := [];
      }
    }
  }

  /** When every entry scores 1, all of them are exact. */
  lemma {:induction false} AllOnes(xs: seq<Scored>)
    requires forall i :: 0 <= i < |xs| ==> IsOne(xs[i].score)
    ensures Ones(ScoredScore, xs) == xs
    decreases |xs|
  {
    if |xs| > 0 {
      AllOnes(xs[..|xs| - 1]);
      assert xs == xs[..|xs| - 1] + [xs[|xs| - 1]];
    }
  }

  /** A one-entry combination grants exactly that entry's permissions. */
  lemma UnionOne(vals: seq<set<string>>, i: nat)
    requires i < |vals|
    ensures UnionOf(vals, [i]) == vals[i]
  {
    assert [i][..0] == [];
  }

  /**
   * When exactly one entry covers the target on its own, the winner is
   * that entry alone.
   */
  lemma SoleCover(vals: seq<set<string>>, s: set<string>, k: nat)
    requires k < |vals| && s <= vals[k]
    requires forall i :: 0 <= i < |vals| && i != k ==> !(s <= vals[i])
    ensures WinnerIndices(vals, s) == [k]
  {
    var w := WinnerIndices(vals, s);
    WinnerShape(vals, s);
    UnionOne(vals, k);
    assert s - UnionOf(vals, [k]) == {};
    WinnerOptimal(vals, s, [k]);
    assert w == [w[0]];
    UnionOne(vals, w[0]);
  }

  /**
   * When every catalog entry is exact and exactly one of them covers the
   * whole target, that entry alone is the winner.
   */
  lemma FitSole(d: seq<(string, set<string>)>, s: set<string>, k: nat)
    requires forall i :: 0 <= i < |d| ==> d[i].1 != {} && d[i].1 <= s
    requires k < |d| && s <= d[k].1
    requires forall i :: 0 <= i < |d| && i != k ==> !(s <= d[i].1)
    ensures FitWinner(d, s) == [Scored(d[k].0, d[k].1, Fitness(d[k].1, s))]
  {
    var xs := Scores(d, s);
    forall i | 0 <= i < |xs| ensures IsOne(xs[i].score) {
      FitnessOne(d[i].1, s);
    }
    AllOnes(xs);
    SoleCover(ValuesOf(xs), s, k);
  }

  /** The catalog of the fewer-macros-wins example. */
  function ExampleCatalog(): seq<(string, set<string>)> {
    [("r_file", {"read", "open"}), ("w_file", {"write", "open"}), ("rw_file", {"read", "write", "open"})]
  }

  /** Covering {read, write, open} picks the single macro rw_file, not r_file with w_file. */
  lemma ExampleFewerMacros()
    ensures FitWinner(ExampleCatalog(), {"read", "write", "open"}) ==
      [Scored("rw_file", {"read", "write", "open"}, Fitness({"read", "write", "open"}, {"read", "write", "open"}))]
  {
    var d := ExampleCatalog();
    assert "write" !in d[0].1 && "read" !in d[1].1;
    FitSole(d, {"read", "write", "open"}, 2);
  }
}
