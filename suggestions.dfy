/**
 * The suggestions of the global-macro plugin: a macro proposed for the
 * lines that contribute to one rule signature, how suggestions compare,
 * the dictionary that collects them per set of lines, and the usage text
 * a selection of suggestions is rendered as. The plugin's reading of the
 * permissions written in a rule's text lives here too, because the usage
 * text is meant to be read back by it.
 */
module Suggestions {
  import opened Text
  import opened Policy
  import opened SetFitting

  /**
   * A proposed macro usage: the macro and its permissions, the rules it
   * would replace, its score, the signature it applies to and the merged
   * permission set of that signature.
   */
  datatype Suggestion = Suggestion(
    name: string,
    macroPerms: set<string>,
    rules: seq<MappedRule>,
    score: Ratio,
    appliesTo: string,
    originalPermset: set<string>)

  /** The lines a suggestion is about. */
  function Filelines(g: Suggestion): set<string> {
    set r | r in g.rules :: r.fileline
  }

  /** Two suggestions are equal when they propose the same macro for the same lines. */
  predicate Same(a: Suggestion, b: Suggestion) {
    a.name == b.name && Filelines(a) == Filelines(b)
  }

  /** Suggestions are ordered by score alone. */
  function SuggestionScore(g: Suggestion): Ratio {
    g.score
  }

  /** The collected suggestions, keyed by the set of lines they are about. */
  type Groups = map<set<string>, seq<Suggestion>>

  /** `g in gs`, with the suggestions' own equality. */
  predicate HasSame(gs: seq<Suggestion>, g: Suggestion) {
    exists i :: 0 <= i < |gs| && Same(gs[i], g)
  }

  /** Every group is non-empty, is about exactly its key's lines and holds no two equal suggestions. */
  ghost predicate WellGrouped(sugs: Groups) {
    forall k :: k in sugs ==>
      && |sugs[k]| > 0
      && (forall i :: 0 <= i < |sugs[k]| ==> Filelines(sugs[k][i]) == k)
      && (forall i, j :: 0 <= i < j < |sugs[k]| ==> !Same(sugs[k][i], sugs[k][j]))
  }

  /** `b` keeps every group of `a` as a prefix of its own: suggestions are only ever appended. */
  predicate Extends(a: Groups, b: Groups) {
    forall k :: k in a ==> k in b && |a[k]| <= |b[k]| && b[k][..|a[k]|] == a[k]
  }

  lemma ExtendsItself(a: Groups)
    ensures Extends(a, a)
  {
    forall k | k in a ensures a[k][..|a[k]|] == a[k] {
    }
  }

  lemma ExtendsTransitive(a: Groups, b: Groups, c: Groups)
    requires Extends(a, b) && Extends(b, c)
    ensures Extends(a, c)
  {
    forall k | k in a ensures k in c && |a[k]| <= |c[k]| && c[k][..|a[k]|] == a[k] {
      assert c[k][..|b[k]|][..|a[k]|] == c[k][..|a[k]|];
    }
  }

  /** A suggestion present in a group stays present as the groups grow. */
  lemma ExtendsKeeps(a: Groups, b: Groups, k: set<string>, g: Suggestion)
    requires Extends(a, b) && k in a && HasSame(a[k], g)
    ensures k in b && HasSame(b[k], g)
  {
    var i :| 0 <= i < |a[k]| && Same(a[k][i], g);
    assert b[k][..|a[k]|][i] == b[k][i];
  }

  /**
   * Records `g` under its lines: a new group when the lines are new,
   * otherwise appended unless an equal suggestion is already there.
   */
  function Add(sugs: Groups, g: Suggestion): (r: Groups)
    ensures WellGrouped(sugs) ==> WellGrouped(r)
    ensures Extends(sugs, r)
    ensures Filelines(g) in r && HasSame(r[Filelines(g)], g)
    ensures forall k :: k in r <==> k in sugs || k == Filelines(g)
    ensures forall k :: k in sugs && k != Filelines(g) ==> r[k] == sugs[k]
    ensures forall k, x :: k in r && x in r[k] ==> (k in sugs && x in sugs[k]) || x == g
  {
    var k := Filelines(g);
    assert Same(g, g);
    if k !in sugs then
      NewGroup(sugs, g);
      sugs[k := [g]]
    else if HasSame(sugs[k], g) then
      ExtendsItself(sugs);
      sugs
    else
      AppendGrouped(sugs, g);
      sugs[k := sugs[k] + [g]]
  }

  // A suggestion about new lines starts a group of its own.
  lemma NewGroup(sugs: Groups, g: Suggestion)
    requires Filelines(g) !in sugs
    ensures var r := sugs[Filelines(g) := [g]];
      && (WellGrouped(sugs) ==> WellGrouped(r))
      && Extends(sugs, r)
      && HasSame(r[Filelines(g)], g)
      && (forall k, x :: k in r && x in r[k] ==> (k in sugs && x in sugs[k]) || x == g)
  {
    var r := sugs[Filelines(g) := [g]];
    assert [g][0] == g && Same(g, g);
    forall k | k in sugs ensures k in r && |sugs[k]| <= |r[k]| && r[k][..|sugs[k]|] == sugs[k] {
      assert r[k] == sugs[k];
    }
  }

  // Appending a suggestion new to its group keeps the groups well formed and only adds `g`.
  lemma AppendGrouped(sugs: Groups, g: Suggestion)
    requires Filelines(g) in sugs && !HasSame(sugs[Filelines(g)], g)
    ensures var r := sugs[Filelines(g) := sugs[Filelines(g)] + [g]];
      && (WellGrouped(sugs) ==> WellGrouped(r))
      && Extends(sugs, r)
      && HasSame(r[Filelines(g)], g)
      && (forall k, x :: k in r && x in r[k] ==> (k in sugs && x in sugs[k]) || x == g)
  {
    var k := Filelines(g);
    var gs := sugs[k] + [g];
    var r := sugs[k := gs];
    assert gs[|sugs[k]|] == g && Same(g, g);
    assert gs[..|sugs[k]|] == sugs[k];
    forall k' | k' in sugs ensures k' in r && |sugs[k']| <= |r[k']| && r[k'][..|sugs[k']|] == sugs[k'] {
      if k' != k {
        assert r[k'] == sugs[k'];
      }
    }
    if WellGrouped(sugs) {
      forall i | 0 <= i < |gs| ensures Filelines(gs[i]) == k {
        if i < |sugs[k]| { assert gs[i] == sugs[k][i]; }
      }
      forall i, j | 0 <= i < j < |gs| ensures !Same(gs[i], gs[j]) {
        assert gs[i] == sugs[k][i];
        if j == |sugs[k]| {
          assert gs[j] == g && !Same(sugs[k][i], g);
        } else {
          assert gs[j] == sugs[k][j];
        }
      }
    }
  }

  /** Descending order by `key`, judged between neighbours. */
  predicate SortedDesc<T>(key: T -> Ratio, xs: seq<T>) {
    forall i :: 0 <= i < |xs| - 1 ==> !Below(key(xs[i]), key(xs[i + 1]))
  }

  /** Inserts `x` after every element of `ys` whose key is not below its own. */
  function InsertDesc<T>(key: T -> Ratio, x: T, ys: seq<T>): (r: seq<T>)
    ensures multiset(r) == multiset(ys) + multiset{x}
    ensures |r| > 0 && (r[0] == x || (|ys| > 0 && r[0] == ys[0]))
    ensures SortedDesc(key, ys) ==> SortedDesc(key, r)
    decreases |ys|
  {
    if |ys| == 0 then [x]
    else if Below(key(ys[0]), key(x)) then
      BelowAsymmetric(key(ys[0]), key(x));
      [x] + ys
    else
      var rest := InsertDesc(key, x, ys[1..]);
      assert ys == [ys[0]] + ys[1..];
      InsertDescStep(key, x, ys, rest);
      [ys[0]] + rest
  }

  // Keeping the head of a descending sequence in front of the insertion into its tail keeps it descending.
  lemma InsertDescStep<T>(key: T -> Ratio, x: T, ys: seq<T>, rest: seq<T>)
    requires |ys| > 0 && !Below(key(ys[0]), key(x)) && |rest| > 0
    requires rest[0] == x || (|ys| > 1 && rest[0] == ys[1])
    requires SortedDesc(key, ys[1..]) ==> SortedDesc(key, rest)
    ensures SortedDesc(key, ys) ==> SortedDesc(key, [ys[0]] + rest)
  {
    if SortedDesc(key, ys) {
      var r := [ys[0]] + rest;
      assert SortedDesc(key, ys[1..]) by {
        forall i | 0 <= i < |ys[1..]| - 1 ensures !Below(key(ys[1..][i]), key(ys[1..][i + 1])) {
          assert ys[1..][i] == ys[i + 1] && ys[1..][i + 1] == ys[i + 2];
        }
      }
      forall i | 0 <= i < |r| - 1 ensures !Below(key(r[i]), key(r[i + 1])) {
        if i > 0 {
          assert r[i] == rest[i - 1] && r[i + 1] == rest[i];
        }
      }
    }
  }

  /**
   * `sorted(xs, reverse=True)` by `key`: descending, and stable, so that
   * elements with equal keys keep their order (`SortDescStable`).
   */
  function SortDesc<T>(key: T -> Ratio, xs: seq<T>): (r: seq<T>)
    ensures multiset(r) == multiset(xs)
    ensures SortedDesc(key, r)
    decreases |xs|
  {
    if |xs| == 0 then []
    else
      assert xs == xs[..|xs| - 1] + [xs[|xs| - 1]];
      InsertDesc(key, xs[|xs| - 1], SortDesc(key, xs[..|xs| - 1]))
  }

  /** With positive denominators, neighbourwise descending order holds between any two positions. */
  lemma {:induction false} SortedDescPairwise<T>(key: T -> Ratio, xs: seq<T>, i: int, j: int)
    requires SortedDesc(key, xs)
    requires forall k :: 0 <= k < |xs| ==> key(xs[k]).den > 0
    requires 0 <= i <= j < |xs|
    ensures !Below(key(xs[i]), key(xs[j]))
    decreases j - i
  {
    if i < j {
      SortedDescPairwise(key, xs, i + 1, j);
      NotBelowTransitive(key(xs[i]), key(xs[i + 1]), key(xs[j]));
    }
  }

  /** Two scores are tied when neither is below the other. */
  predicate Tied(a: Ratio, b: Ratio) {
    !Below(a, b) && !Below(b, a)
  }

  /** The elements of `xs` whose key is tied with `k`, in order. */
  function TiedWith<T>(key: T -> Ratio, xs: seq<T>, k: Ratio): seq<T>
    decreases |xs|
  {
    if |xs| == 0 then []
    else (if Tied(key(xs[0]), k) then [xs[0]] else []) + TiedWith(key, xs[1..], k)
  }

  lemma {:induction false} TiedWithAppend<T>(key: T -> Ratio, a: seq<T>, b: seq<T>, k: Ratio)
    ensures TiedWith(key, a + b, k) == TiedWith(key, a, k) + TiedWith(key, b, k)
    decreases |a|
  {
    if |a| == 0 {
      assert a + b == b;
    } else {
      assert (a + b)[0] == a[0] && (a + b)[1..] == a[1..] + b;
      TiedWithAppend(key, a[1..], b, k);
    }
  }

  /** Nothing in a descending sequence whose head is below `x` is tied with a score `x` is tied with. */
  lemma {:induction false} BelowTiedNone<T>(key: T -> Ratio, x: T, ys: seq<T>, k: Ratio)
    requires SortedDesc(key, ys) && |ys| > 0 && Below(key(ys[0]), key(x)) && Tied(key(x), k) && k.den > 0
    requires key(x).den > 0 && forall i :: 0 <= i < |ys| ==> key(ys[i]).den > 0
    ensures TiedWith(key, ys, k) == []
    decreases |ys|
  {
    if Tied(key(ys[0]), k) {
      NotBelowTransitive(key(ys[0]), k, key(x));
      assert false;
    }
    if |ys| > 1 {
      SortedDescTail(key, ys);
      if !Below(key(ys[1]), key(x)) {
        NotBelowTransitive(key(ys[0]), key(ys[1]), key(x));
        assert false;
      }
      BelowTiedNone(key, x, ys[1..], k);
    }
  }

  /** The tail of a descending sequence is descending. */
  lemma SortedDescTail<T>(key: T -> Ratio, ys: seq<T>)
    requires SortedDesc(key, ys) && |ys| > 0
    ensures SortedDesc(key, ys[1..])
  {
    forall i | 0 <= i < |ys[1..]| - 1 ensures !Below(key(ys[1..][i]), key(ys[1..][i + 1])) {
      assert ys[1..][i] == ys[i + 1] && ys[1..][i + 1] == ys[i + 2];
    }
  }

  /** The ties of `[y] + rest` are those of `y`, then those of `rest`. */
  lemma TiedWithCons<T>(key: T -> Ratio, y: T, rest: seq<T>, k: Ratio)
    ensures TiedWith(key, [y] + rest, k) == (if Tied(key(y), k) then [y] else []) + TiedWith(key, rest, k)
  {
    assert ([y] + rest)[0] == y && ([y] + rest)[1..] == rest;
  }

  /** Inserting in front of a head below `x` adds `x` after the ties, which are none when `x` is tied. */
  lemma InsertTiedFront<T>(key: T -> Ratio, x: T, ys: seq<T>, k: Ratio)
    requires SortedDesc(key, ys) && k.den > 0 && |ys| > 0 && Below(key(ys[0]), key(x))
    requires key(x).den > 0 && forall i :: 0 <= i < |ys| ==> key(ys[i]).den > 0
    ensures TiedWith(key, [x] + ys, k) == TiedWith(key, ys, k) + (if Tied(key(x), k) then [x] else [])
  {
    TiedWithCons(key, x, ys, k);
    if Tied(key(x), k) {
      BelowTiedNone(key, x, ys, k);
    }
  }

  /** Inserting behind the head keeps the head's tie in front of the insertion's. */
  lemma InsertTiedBehind<T>(key: T -> Ratio, x: T, ys: seq<T>, rest: seq<T>, k: Ratio)
    requires |ys| > 0
    requires TiedWith(key, rest, k) == TiedWith(key, ys[1..], k) + (if Tied(key(x), k) then [x] else [])
    ensures TiedWith(key, [ys[0]] + rest, k) == TiedWith(key, ys, k) + (if Tied(key(x), k) then [x] else [])
  {
    TiedWithCons(key, ys[0], rest, k);
    TiedWithCons(key, ys[0], ys[1..], k);
    assert ys == [ys[0]] + ys[1..];
  }

  /** Insertion puts `x` after every element it is tied with. */
  lemma {:induction false} InsertDescTied<T>(key: T -> Ratio, x: T, ys: seq<T>, k: Ratio)
    requires SortedDesc(key, ys) && k.den > 0
    requires key(x).den > 0 && forall i :: 0 <= i < |ys| ==> key(ys[i]).den > 0
    ensures TiedWith(key, InsertDesc(key, x, ys), k) == TiedWith(key, ys, k) + (if Tied(key(x), k) then [x] else [])
    decreases |ys|
  {
    if |ys| == 0 {
      TiedWithCons(key, x, [], k);
    } else if Below(key(ys[0]), key(x)) {
      InsertTiedFront(key, x, ys, k);
    } else {
      SortedDescTail(key, ys);
      InsertDescTied(key, x, ys[1..], k);
      InsertTiedBehind(key, x, ys, InsertDesc(key, x, ys[1..]), k);
    }
  }

  /** Sorting keeps every key's denominator positive. */
  lemma SortDescDens<T>(key: T -> Ratio, xs: seq<T>)
    requires forall i :: 0 <= i < |xs| ==> key(xs[i]).den > 0
    ensures forall i :: 0 <= i < |SortDesc(key, xs)| ==> key(SortDesc(key, xs)[i]).den > 0
  {
    var sorted := SortDesc(key, xs);
    forall i | 0 <= i < |sorted| ensures key(sorted[i]).den > 0 {
      assert sorted[i] in multiset(xs);
    }
  }

  /**
   * `SortDesc` is stable: the elements tied with any score `k` come out in
   * the order they went in.
   */
  lemma {:induction false} SortDescStable<T>(key: T -> Ratio, xs: seq<T>, k: Ratio)
    requires k.den > 0 && forall i :: 0 <= i < |xs| ==> key(xs[i]).den > 0
    ensures TiedWith(key, SortDesc(key, xs), k) == TiedWith(key, xs, k)
    decreases |xs|
  {
    if |xs| > 0 {
      var front, x := xs[..|xs| - 1], xs[|xs| - 1];
      assert xs == front + [x];
      SortDescStable(key, front, k);
      SortDescDens(key, front);
      InsertDescTied(key, x, SortDesc(key, front), k);
      TiedWithAppend(key, front, [x], k);
      TiedWithCons(key, x, [], k);
    }
  }

  /** The elements of a sequence not among its first `n` are those of its tail. */
  lemma DropRest<T>(xs: seq<T>, n: nat)
    requires n <= |xs|
    ensures multiset(xs[..n]) <= multiset(xs)
    ensures multiset(xs) - multiset(xs[..n]) == multiset(xs[n..])
  {
    assert xs == xs[..n] + xs[n..];
  }

  /** In a descending sequence nothing after position `n` scores above anything before it. */
  lemma PrefixAbove<T>(key: T -> Ratio, xs: seq<T>, n: nat)
    requires SortedDesc(key, xs) && n <= |xs|
    requires forall k :: 0 <= k < |xs| ==> key(xs[k]).den > 0
    ensures forall x, y :: x in xs[..n] && y in xs[n..] ==> !Below(key(x), key(y))
  {
    forall x, y | x in xs[..n] && y in xs[n..] ensures !Below(key(x), key(y)) {
      var i :| 0 <= i < n && xs[..n][i] == x;
      var j :| 0 <= j < |xs| - n && xs[n..][j] == y;
      SortedDescPairwise(key, xs, i, n + j);
    }
  }

  /**
   * Keeping the first `n` elements of a descending sequence keeps the best:
   * nothing left out scores above anything kept.
   */
  lemma TakeBest<T>(key: T -> Ratio, xs: seq<T>, n: nat)
    requires SortedDesc(key, xs) && n <= |xs|
    ensures (forall k :: 0 <= k < |xs| ==> key(xs[k]).den > 0) ==>
      forall x, y :: x in xs[..n] && y in multiset(xs) - multiset(xs[..n]) ==> !Below(key(x), key(y))
  {
    DropRest(xs, n);
    if forall k :: 0 <= k < |xs| ==> key(xs[k]).den > 0 {
      PrefixAbove(key, xs, n);
    }
  }

  /**
   * Splits one group into the full matches and the partial matches, the
   * latter sorted by descending score.
   */
  method SplitGroup(gs: seq<Suggestion>) returns (full: seq<Suggestion>, part: seq<Suggestion>)
    ensures full == Ones(SuggestionScore, gs)
    ensures part == SortDesc(SuggestionScore, Partial(SuggestionScore, gs))
    ensures multiset(full) + multiset(part) == multiset(gs)
  {
    full, part := [], [];
    var i := 0;
    while i < |gs|
      invariant 0 <= i <= |gs|
      invariant full == Ones(SuggestionScore, gs[..i]) && part == Partial(SuggestionScore, gs[..i])
    {
      assert gs[..i + 1][..i] == gs[..i];
      if IsOne(gs[i].score) {
        full := full + [gs[i]];
      } else {
        part := part + [gs[i]];
      }
      i := i + 1;
    }
    assert gs[..|gs|] == gs;
    OnesPartition(SuggestionScore, gs);
    part := SortDesc(SuggestionScore, part);
  }

  /** The names of the selected suggestions, in order. */
  function NamesOf(sel: seq<Suggestion>): (ns: seq<string>)
    ensures |ns| == |sel| && forall i :: 0 <= i < |sel| ==> ns[i] == sel[i].name
  {
    seq(|sel|, i requires 0 <= i < |sel| => sel[i].name)
  }

  /** The permissions the selected macros grant together. */
  function PermsOf(sel: seq<Suggestion>): (ps: set<string>)
    ensures forall p :: p in ps <==> exists i :: 0 <= i < |sel| && p in sel[i].macroPerms
    decreases |sel|
  {
    if |sel| == 0 then {}
    else PermsOf(sel[..|sel| - 1]) + sel[|sel| - 1].macroPerms
  }

  /** The members of `extra`, in the order `order` lists them. */
  function Listed(order: seq<string>, extra: set<string>): (r: seq<string>)
    ensures forall p :: p in r <==> p in order && p in extra
    ensures forall i :: 0 <= i < |r| ==> exists j :: 0 <= j < |order| && r[i] == order[j]
    decreases |order|
  {
    if |order| == 0 then []
    else
      var prior := Listed(order[..|order| - 1], extra);
      var p := order[|order| - 1];
      if p in extra then prior + [p] else prior
  }

  /** The permissions of the signature that no selected macro grants. */
  function Extra(sel: seq<Suggestion>): set<string>
    requires |sel| > 0
  {
    sel[0].originalPermset - PermsOf(sel)
  }

  /**
   * The suggested usage for a selection: a single macro with nothing left
   * over is written `rutc name;`; otherwise the selected names, then the
   * left-over permissions in the order `order` lists them, go in braces:
   * `rutc { names extras };`.
   */
  function UsageText(sel: seq<Suggestion>, order: seq<string>): string
    requires |sel| > 0
  {
    var extra := Extra(sel);
    var rutc := sel[0].appliesTo;
    if |sel| > 1 || extra != {} then
      rutc + " { " + Join(NamesOf(sel), " ")
        + (if extra != {} then " " + Join(Listed(order, extra), " ") else "") + " };"
    else
      rutc + " " + sel[0].name + ";"
  }

  /** Merges the permissions of the selected macros, one macro at a time. */
  method MergePerms(sel: seq<Suggestion>) returns (permset: set<string>)
    ensures permset == PermsOf(sel)
  {
    permset := {};
    var i := 0;
    while i < |sel|
      invariant 0 <= i <= |sel|
      invariant permset == PermsOf(sel[..i])
    {
      assert sel[..i + 1][..i] == sel[..i];
      permset := permset + sel[i].macroPerms;
      i := i + 1;
    }
    assert sel[..|sel|] == sel;
  }

  /** Computes the suggested usage for a non-empty selection. */
  method SuggestedUsage(sel: seq<Suggestion>, order: seq<string>) returns (usage: string)
    requires |sel| > 0
    ensures usage == UsageText(sel, order)
  {
    var rutc := sel[0].appliesTo;
    var origPermset := sel[0].originalPermset;
    var permset := MergePerms(sel);
    var extraPerms := origPermset - permset;
    assert extraPerms == Extra(sel);
    usage := rutc;
    if |sel| > 1 || extraPerms != {} {
      usage := usage + " { " + Join(NamesOf(sel), " ");
      ghost var braced := usage;
      if extraPerms != {} {
        usage := usage + " " + Join(Listed(order, extraPerms), " ");
        assert usage == braced + (" " + Join(Listed(order, extraPerms), " "));
      } else {
        assert usage == braced + "";
      }
      usage := usage + " };";
    } else {
      usage := usage + " " + sel[0].name + ";";
    }
  }

  /** The characters `strip("{};")` removes from both ends. */
  const PermBrackets: set<char> := {'{', '}', ';'}

  /** `s[n:]`, which is empty when `n` runs past the end. */
  function Drop(s: string, n: nat): string {
    if n <= |s| then s[n..] else ""
  }

  /**
   * The permissions written in a rule's text after its signature and one
   * separator: `rule[len(sig) + 1:].strip("{};").split()`.
   */
  function RulePerms(rule: string, sig: string): seq<string> {
    SplitWords(Strip(Drop(rule, |sig| + 1), PermBrackets))
  }

  /** The permissions of a rule's text, as a set. */
  function RulePermSet(rule: string, sig: string): (ps: set<string>)
    ensures forall p :: p in ps <==> p in RulePerms(rule, sig)
  {
    set p | p in RulePerms(rule, sig)
  }

  /** A permission that can stand alone after a signature. */
  predicate BareWord(w: string) {
    |w| > 0 && NoSpace(w) && w[0] !in PermBrackets && w[|w| - 1] !in PermBrackets
  }

  /** A rule written `sig perm;` reads back as that one permission. */
  lemma ReadSingle(sig: string, w: string)
    requires BareWord(w)
    ensures RulePerms(sig + " " + w + ";", sig) == [w]
  {
    var text := sig + " " + w + ";";
    assert Drop(text, |sig| + 1) == w + ";";
    StripLeftStop(w + ";", PermBrackets);
    StripRightSkip(w, ';', PermBrackets);
    StripRightStop(w, PermBrackets);
    assert w + ";" == w + [';'];
    SplitWordThen(w, "");
    assert w + "" == w;
    assert SplitWords("") == [];
  }

  lemma {:induction false} JoinAppend(xs: seq<string>, ys: seq<string>)
    requires |xs| > 0 && |ys| > 0
    ensures Join(xs, " ") + " " + Join(ys, " ") == Join(xs + ys, " ")
    decreases |xs|
  {
    if |xs| > 1 {
      JoinAppend(xs[1..], ys);
      assert (xs + ys)[1..] == xs[1..] + ys;
    } else {
      assert (xs + ys)[1..] == ys;
    }
  }

  /** A rule written `sig { perms };` reads back as those permissions, in order. */
  lemma ReadBraced(sig: string, ws: seq<string>)
    requires ValidWords(ws)
    ensures RulePerms(sig + " { " + Join(ws, " ") + " };", sig) == ws
  {
    var inner := Join(ws, " ");
    var text := sig + " { " + inner + " };";
    var tail := " " + inner + " ";
    assert Drop(text, |sig| + 1) == ['{'] + tail + "};";
    assert tail[0] == ' ' && tail[|tail| - 1] == ' ';
    StripWrapped('{', tail, "};", PermBrackets);
    SplitPadded(ws);
  }

  /** The listed extras are valid words when the order is. */
  lemma ListedWords(order: seq<string>, extra: set<string>)
    requires ValidWords(order)
    ensures ValidWords(Listed(order, extra))
  {
    var listed := Listed(order, extra);
    forall i | 0 <= i < |listed| ensures |listed[i]| > 0 && NoSpace(listed[i]) {
      var j :| 0 <= j < |order| && listed[i] == order[j];
    }
  }

  /** With every extra permission in the order, the listed extras are empty exactly when there are none. */
  lemma ListedEmpty(order: seq<string>, extra: set<string>)
    requires forall p :: p in extra ==> p in order
    ensures Listed(order, extra) == [] <==> extra == {}
  {
    var listed := Listed(order, extra);
    if extra != {} {
      var p :| p in extra;
      assert p in listed;
    }
  }

  /** The braced usage text is the names and the extras joined as one list. */
  lemma BracedText(rutc: string, names: seq<string>, listed: seq<string>)
    requires |names| > 0
    ensures rutc + " { " + Join(names, " ") + (if |listed| > 0 then " " + Join(listed, " ") else "") + " };"
         == rutc + " { " + Join(names + listed, " ") + " };"
  {
    var a, b := Join(names, " "), Join(listed, " ");
    if |listed| > 0 {
      JoinAppend(names, listed);
      assert rutc + " { " + a + (" " + b) + " };" == rutc + " { " + (a + " " + b) + " };";
    } else {
      assert names + listed == names;
      assert rutc + " { " + a + "" + " };" == rutc + " { " + a + " };";
    }
  }

  /**
   * The suggested usage, read back the way the plugin reads a rule's
   * permissions, lists exactly the selected macros and then the
   * left-over permissions.
   */
  lemma UsageReadBack(sel: seq<Suggestion>, order: seq<string>)
    requires |sel| > 0
    requires ValidWords(NamesOf(sel)) && ValidWords(order)
    requires |sel| == 1 ==> BareWord(sel[0].name)
    requires forall p :: p in Extra(sel) ==> p in order
    ensures RulePerms(UsageText(sel, order), sel[0].appliesTo) == NamesOf(sel) + Listed(order, Extra(sel))
  {
    var extra := Extra(sel);
    ListedEmpty(order, extra);
    if |sel| > 1 || extra != {} {
      ReadBackBraced(sel, order);
    } else {
      assert NamesOf(sel) + Listed(order, extra) == [sel[0].name];
      ReadSingle(sel[0].appliesTo, sel[0].name);
    }
  }

  // The braced form of the usage reads back as the names and then the left-over permissions.
  lemma ReadBackBraced(sel: seq<Suggestion>, order: seq<string>)
    requires |sel| > 0 && ValidWords(NamesOf(sel)) && ValidWords(order)
    requires |sel| > 1 || Extra(sel) != {}
    requires Listed(order, Extra(sel)) == [] <==> Extra(sel) == {}
    ensures RulePerms(UsageText(sel, order), sel[0].appliesTo) == NamesOf(sel) + Listed(order, Extra(sel))
  {
    var extra := Extra(sel);
    var rutc, names, listed := sel[0].appliesTo, NamesOf(sel), Listed(order, extra);
    ListedWords(order, extra);
    assert UsageText(sel, order) ==
      rutc + " { " + Join(names, " ") + (if |listed| > 0 then " " + Join(listed, " ") else "") + " };";
    BracedText(rutc, names, listed);
    ValidConcat(names, listed);
    ReadBraced(rutc, names + listed);
  }
}
