/**
 * The global-macro plugin's analysis: it builds the catalog of the
 * global macros and the index of the macro usages per line, merges the
 * permissions of the rules that share a signature, fits the merged set
 * with the catalog, screens the full match against the macros already
 * used on the contributing lines, selects the best partial matches, and
 * collects the resulting suggestions per set of lines.
 */
module GlobalMacros {
  import opened Wrappers
  import opened Text
  import opened Policy
  import opened SetFitting
  import opened Suggestions

  /** The file whose macros form the catalog: a definition counts when its file name ends with it. */
  const GlobalFamily: string := "global_macros"

  /** A macro definition: its name, the file defining it and its m4 expansion. */
  datatype MacroDef = MacroDef(name: string, fileDefined: string, expansion: string)

  /** A macro usage: the macro, where it is used and the file defining the macro. */
  datatype MacroUsage = MacroUsage(name: string, fileUsed: string, lineUsed: nat, definedIn: string)

  /**
   * The plugin configuration: the rule-type prefixes it analyses, the
   * absolute paths whose rules it ignores, the macros it never suggests,
   * the score a partial match needs and how many partial matches it shows.
   */
  datatype Config = Config(
    supportedRuleTypes: set<string>,
    ignorePaths: set<string>,
    usagesIgnore: set<string>,
    threshold: Ratio,
    maxNo: nat)

  // ---------------------------------------------------------------------
  // The catalog of global macros
  // ---------------------------------------------------------------------

  /** The words `x` for which `x in "{}"` holds: the substrings of the braces. */
  const BraceParts: set<string> := {"", "{", "}", "{}"}

  /** The words other than the braces. */
  function NonBrace(ws: seq<string>): set<string> {
    set w | w in ws && w !in BraceParts
  }

  /** The permissions of an expansion: its words other than the braces. */
  function MacroArgs(exp: string): set<string> {
    NonBrace(SplitWords(exp))
  }

  predicate IsGlobal(m: MacroDef) {
    EndsWith(m.fileDefined, GlobalFamily)
  }

  /** The global macros with their permission sets, in definition order. */
  function Catalog(defs: seq<MacroDef>): (d: seq<(string, set<string>)>)
    ensures forall e :: e in d <==>
      exists i :: 0 <= i < |defs| && IsGlobal(defs[i]) && e == (defs[i].name, MacroArgs(defs[i].expansion))
    decreases |defs|
  {
    if |defs| == 0 then []
    else
      var prior := Catalog(defs[..|defs| - 1]);
      var m := defs[|defs| - 1];
      if IsGlobal(m) then prior + [(m.name, MacroArgs(m.expansion))] else prior
  }

  /** Builds the catalog entry by entry. */
  method BuildCatalog(defs: seq<MacroDef>) returns (d: seq<(string, set<string>)>)
    ensures d == Catalog(defs)
  {
    d := [];
    var i := 0;
    while i < |defs|
      invariant 0 <= i <= |defs|
      invariant d == Catalog(defs[..i])
    {
      assert defs[..i + 1][..i] == defs[..i];
      var m := defs[i];
      if EndsWith(m.fileDefined, GlobalFamily) {
        var exp := m.expansion;
        var args := set x | x in SplitWords(exp) && x !in BraceParts;
        d := d + [(m.name, args)];
      }
      i := i + 1;
    }
    assert defs[..|defs|] == defs;
  }

  lemma BracedShape(inner: string)
    ensures "{ " + inner + " }" == "{" + ([' '] + (inner + ([' '] + "}")))
  {
  }

  /** Words joined by spaces between two space-free words split into all of them, in order. */
  lemma SplitAround(a: string, ws: seq<string>, b: string)
    requires |a| > 0 && NoSpace(a) && |b| > 0 && NoSpace(b)
    requires ValidWords(ws)
    ensures SplitWords(a + ([' '] + (Join(ws, " ") + ([' '] + b)))) == [a] + ws + [b]
  {
    var inner := Join(ws, " ");
    var last := [' '] + b;
    SplitTrailing(b);
    SplitJoinThen(ws, last);
    assert SplitWords(inner + last) == ws + [b];
    var tail := [' '] + (inner + last);
    SplitLeadingSpace(' ', inner + last);
    assert SplitWords(tail) == ws + [b];
    assert tail[0] == ' ';
    SplitWordThen(a, tail);
    ConsSnoc(a, ws, b);
  }

  lemma ConsSnoc<T>(x: T, ys: seq<T>, z: T)
    ensures [x] + (ys + [z]) == [x] + ys + [z]
  {
  }

  /** A space and then a space-free word split into that word. */
  lemma SplitTrailing(b: string)
    requires |b| > 0 && NoSpace(b)
    ensures SplitWords([' '] + b) == [b]
  {
    SplitLeadingSpace(' ', b);
    assert b + [] == b;
    SplitWordThen(b, []);
    assert SplitWords([]) == [];
  }

  /** A braced expansion splits into the opening brace, the words and the closing brace. */
  lemma SplitBraced(ws: seq<string>)
    requires ValidWords(ws)
    ensures SplitWords("{ " + Join(ws, " ") + " }") == ["{"] + ws + ["}"]
  {
    BracedShape(Join(ws, " "));
    SplitAround("{", ws, "}");
  }

  /** The braces around some permissions leave those permissions. */
  lemma NonBraceInside(ws: seq<string>)
    requires forall i :: 0 <= i < |ws| ==> ws[i] !in BraceParts
    ensures NonBrace(["{"] + ws + ["}"]) == set w | w in ws
  {
    var split := ["{"] + ws + ["}"];
    forall w ensures w in NonBrace(split) <==> w in ws {
      if w in ws {
        var i :| 0 <= i < |ws| && ws[i] == w;
        assert split[i + 1] == w;
      }
      if w in NonBrace(split) {
        var i :| 0 <= i < |split| && split[i] == w;
        assert 0 < i < |split| - 1;
        assert ws[i - 1] == w;
      }
    }
  }

  /** A braced expansion `{ p1 ... pn }` yields exactly its permissions. */
  lemma MacroArgsBraced(ws: seq<string>)
    requires ValidWords(ws)
    requires forall i :: 0 <= i < |ws| ==> ws[i] !in BraceParts
    ensures MacroArgs("{ " + Join(ws, " ") + " }") == set w | w in ws
  {
    SplitBraced(ws);
    NonBraceInside(ws);
  }

  // ---------------------------------------------------------------------
  // The macro usages per line
  // ---------------------------------------------------------------------

  /** The `file:line` a usage is indexed by. */
  function LineKey(u: MacroUsage): string {
    u.fileUsed + ":" + NatToString(u.lineUsed)
  }

  /** The usages on line `k`, in order. */
  function AtLine(us: seq<MacroUsage>, k: string): (r: seq<MacroUsage>)
    ensures forall u :: u in r <==> u in us && LineKey(u) == k
    decreases |us|
  {
    if |us| == 0 then []
    else
      var prior := AtLine(us[..|us| - 1], k);
      var u := us[|us| - 1];
      if LineKey(u) == k then prior + [u] else prior
  }

  /** The usages grouped by line: exactly the lines that have usages, each with its usages in order. */
  function ByLine(us: seq<MacroUsage>): (m: map<string, seq<MacroUsage>>)
    ensures forall k :: k in m <==> |AtLine(us, k)| > 0
    ensures forall k :: k in m ==> m[k] == AtLine(us, k)
    decreases |us|
  {
    if |us| == 0 then map[]
    else
      var prior := ByLine(us[..|us| - 1]);
      var u := us[|us| - 1];
      var k := LineKey(u);
      if k in prior then prior[k := prior[k] + [u]] else prior[k := [u]]
  }

  /** Indexes the usages by line one by one. */
  method UsagesByLine(us: seq<MacroUsage>) returns (m: map<string, seq<MacroUsage>>)
    ensures m == ByLine(us)
  {
    m := map[];
    var i := 0;
    while i < |us|
      invariant 0 <= i <= |us|
      invariant m == ByLine(us[..i])
    {
      assert us[..i + 1][..i] == us[..i];
      var u := us[i];
      var fileline := u.fileUsed + ":" + NatToString(u.lineUsed);
      if fileline in m {
        m := m[fileline := m[fileline] + [u]];
      } else {
        m := m[fileline := [u]];
      }
      i := i + 1;
    }
    assert us[..|us|] == us;
  }

  // ---------------------------------------------------------------------
  // Merging the rules of one signature
  // ---------------------------------------------------------------------

  /** No rule comes from an ignored path. */
  predicate NoneIgnored(rls: seq<MappedRule>, ignore: set<string>) {
    forall i :: 0 <= i < |rls| ==> !Ignored(rls[i].fileline, ignore)
  }

  /** The rules that do not come from an ignored path, in order. */
  function Kept(rls: seq<MappedRule>, ignore: set<string>): (r: seq<MappedRule>)
    ensures forall x :: x in r <==> x in rls && !Ignored(x.fileline, ignore)
    ensures NoneIgnored(r, ignore)
    decreases |rls|
  {
    if |rls| == 0 then []
    else
      var prior := Kept(rls[..|rls| - 1], ignore);
      var x := rls[|rls| - 1];
      if Ignored(x.fileline, ignore) then prior else prior + [x]
  }

  /** How the plugin reads a rule of signature `sig`: the permissions written in its text. */
  function TextPerms(sig: string): MappedRule -> set<string> {
    (r: MappedRule) => RulePermSet(r.rule, sig)
  }

  /** The permissions `read` finds in the rules, merged. */
  function MergedPerms(rls: seq<MappedRule>, read: MappedRule -> set<string>): set<string>
    decreases |rls|
  {
    if |rls| == 0 then {}
    else MergedPerms(rls[..|rls| - 1], read) + read(rls[|rls| - 1])
  }

  /** A permission is merged exactly when reading some rule finds it. */
  lemma {:induction false} MergedMembers(rls: seq<MappedRule>, read: MappedRule -> set<string>)
    ensures forall p :: p in MergedPerms(rls, read) <==> exists i :: 0 <= i < |rls| && p in read(rls[i])
    decreases |rls|
  {
    if |rls| > 0 {
      var front := rls[..|rls| - 1];
      MergedMembers(front, read);
      forall p | p in MergedPerms(front, read) ensures exists i :: 0 <= i < |rls| && p in read(rls[i]) {
        var i :| 0 <= i < |front| && p in read(front[i]);
        assert rls[i] == front[i];
      }
      forall p | (exists i :: 0 <= i < |rls| && p in read(rls[i])) ensures p in MergedPerms(rls, read) {
        var i :| 0 <= i < |rls| && p in read(rls[i]);
        if i < |rls| - 1 {
          assert front[i] == rls[i];
        }
      }
    }
  }

  /** Drops the ignored rules and merges the permissions written in the rest. */
  method MergeRules(sig: string, rls: seq<MappedRule>, ignore: set<string>)
    returns (filtered: seq<MappedRule>, permset: set<string>)
    ensures filtered == Kept(rls, ignore)
    ensures permset == MergedPerms(filtered, TextPerms(sig))
  {
    filtered, permset := [], {};
    var i := 0;
    while i < |rls|
      invariant 0 <= i <= |rls|
      invariant filtered == Kept(rls[..i], ignore)
      invariant permset == MergedPerms(filtered, TextPerms(sig))
    {
      assert rls[..i + 1][..i] == rls[..i];
      var r := rls[i];
      if !StartsWithAny(r.fileline, ignore) {
        filtered := filtered + [r];
        assert filtered[..|filtered| - 1] == Kept(rls[..i], ignore);
        var perms := RulePermSet(r.rule, sig);
        assert perms == TextPerms(sig)(r);
        permset := permset + perms;
      }
      i := i + 1;
    }
    assert rls[..|rls|] == rls;
  }

  /**
   * When reading a rule gives exactly the permissions it grants, the
   * merged permissions are those the non-ignored rules grant.
   */
  lemma MergedIsCovered(rls: seq<MappedRule>, read: MappedRule -> set<string>, ignore: set<string>)
    requires forall i :: 0 <= i < |rls| ==> read(rls[i]) == rls[i].perms
    ensures MergedPerms(Kept(rls, ignore), read) == CoveredPerms(rls, ignore)
  {
    var kept := Kept(rls, ignore);
    MergedMembers(kept, read);
    forall p ensures p in MergedPerms(kept, read) <==> p in CoveredPerms(rls, ignore) {
      if p in MergedPerms(kept, read) {
        var j :| 0 <= j < |kept| && p in read(kept[j]);
        assert kept[j] in kept;
        var i :| 0 <= i < |rls| && rls[i] == kept[j];
      }
      if p in CoveredPerms(rls, ignore) {
        var i :| 0 <= i < |rls| && !Ignored(rls[i].fileline, ignore) && p in rls[i].perms;
        assert rls[i] in kept;
        var j :| 0 <= j < |kept| && kept[j] == rls[i];
      }
    }
  }

  /** Ignoring a path no rule comes from keeps the same rules. */
  lemma {:induction false} IgnoreUnrelated(rls: seq<MappedRule>, ignore: set<string>, p: string)
    requires forall i :: 0 <= i < |rls| ==> !StartsWith(rls[i].fileline, p)
    ensures Kept(rls, ignore + {p}) == Kept(rls, ignore)
    decreases |rls|
  {
    if |rls| > 0 {
      IgnoreUnrelated(rls[..|rls| - 1], ignore, p);
      var x := rls[|rls| - 1];
      assert Ignored(x.fileline, ignore + {p}) <==> Ignored(x.fileline, ignore);
    }
  }

  // ---------------------------------------------------------------------
  // Screening the full match
  // ---------------------------------------------------------------------

  /** The names of the macros used on a line. */
  function NamesAt(us: seq<MacroUsage>): set<string> {
    set u | u in us :: u.name
  }

  /** Every macro used on the line is a global macro. */
  predicate AllGlobal(us: seq<MacroUsage>) {
    forall i :: 0 <= i < |us| ==> EndsWith(us[i].definedIn, GlobalFamily)
  }

  /** The entries whose macro is not among `names`, in order. */
  function Unused(w: seq<Scored>, names: set<string>): (r: seq<Scored>)
    ensures forall x :: x in r <==> x in w && x.name !in names
    decreases |w|
  {
    if |w| == 0 then []
    else
      var prior := Unused(w[..|w| - 1], names);
      var x := w[|w| - 1];
      if x.name in names then prior else prior + [x]
  }

  /**
   * Walks the contributing lines in order: a line using a macro of
   * another family rejects the match; otherwise the macros already used
   * on the line leave the match, and a match left empty is rejected.
   * Yields what is left of the match, or None when it is rejected.
   */
  function Screen(rls: seq<MappedRule>, byLine: map<string, seq<MacroUsage>>, w: seq<Scored>): Option<seq<Scored>>
    decreases |rls|
  {
    if |rls| == 0 then Some(w)
    else if rls[0].fileline !in byLine then Screen(rls[1..], byLine, w)
    else
      var at := byLine[rls[0].fileline];
      if !AllGlobal(at) then None
      else
        var left := Unused(w, NamesAt(at));
        if |left| == 0 then None else Screen(rls[1..], byLine, left)
  }

  /** The macros on a line neither come from another family nor include `name`. */
  predicate FreeFor(us: seq<MacroUsage>, name: string) {
    AllGlobal(us) && name !in NamesAt(us)
  }

  /**
   * A surviving match is non-empty, is part of the original match and
   * reuses no macro on any contributing line, whose macros are all
   * global macros.
   */
  lemma {:induction false} ScreenSound(rls: seq<MappedRule>, byLine: map<string, seq<MacroUsage>>, w: seq<Scored>)
    requires |w| > 0
    requires Screen(rls, byLine, w).Some?
    ensures var left := Screen(rls, byLine, w).value;
      && |left| > 0
      && (forall x :: x in left ==> x in w)
      && (forall i, x :: 0 <= i < |rls| && rls[i].fileline in byLine && x in left ==>
            FreeFor(byLine[rls[i].fileline], x.name))
    decreases |rls|
  {
    if |rls| > 0 {
      var next := if rls[0].fileline !in byLine then w else Unused(w, NamesAt(byLine[rls[0].fileline]));
      ScreenSound(rls[1..], byLine, next);
      var left := Screen(rls, byLine, w).value;
      forall i, x | 0 <= i < |rls| && rls[i].fileline in byLine && x in left
        ensures FreeFor(byLine[rls[i].fileline], x.name)
      {
        if i > 0 {
          assert rls[1..][i - 1] == rls[i];
        }
      }
    }
  }

  /** A contributing line that uses a macro of another family rejects the match. */
  lemma {:induction false} ScreenForeign(rls: seq<MappedRule>, byLine: map<string, seq<MacroUsage>>, w: seq<Scored>, i: nat)
    requires i < |rls| && rls[i].fileline in byLine && !AllGlobal(byLine[rls[i].fileline])
    ensures Screen(rls, byLine, w) == None
    decreases |rls|
  {
    if i > 0 && (rls[0].fileline !in byLine || AllGlobal(byLine[rls[0].fileline])) {
      assert rls[1..][i - 1] == rls[i];
      var next := if rls[0].fileline !in byLine then w else Unused(w, NamesAt(byLine[rls[0].fileline]));
      ScreenForeign(rls[1..], byLine, next, i - 1);
    }
  }

  /** Lines without any macro usage let the whole match through. */
  lemma {:induction false} ScreenFree(rls: seq<MappedRule>, byLine: map<string, seq<MacroUsage>>, w: seq<Scored>)
    requires forall i :: 0 <= i < |rls| ==> rls[i].fileline !in byLine
    ensures Screen(rls, byLine, w) == Some(w)
    decreases |rls|
  {
    if |rls| > 0 {
      ScreenFree(rls[1..], byLine, w);
    }
  }

  /** Does some macro on the line come from another family? */
  method HasForeign(at: seq<MacroUsage>) returns (foreign: bool)
    ensures foreign <==> !AllGlobal(at)
  {
    foreign := false;
    var j := 0;
    while j < |at|
      invariant 0 <= j <= |at|
      invariant !foreign <==> forall k :: 0 <= k < j ==> EndsWith(at[k].definedIn, GlobalFamily)
    {
      if !EndsWith(at[j].definedIn, GlobalFamily) {
        foreign := true;
        break;
      }
      j := j + 1;
    }
  }

  /** Removes from the match every macro already used on the line. */
  method RemoveUsed(w: seq<Scored>, at: seq<MacroUsage>) returns (left: seq<Scored>)
    ensures left == Unused(w, NamesAt(at))
  {
    var names := set u | u in at :: u.name;
    left := [];
    var i := 0;
    while i < |w|
      invariant 0 <= i <= |w|
      invariant left == Unused(w[..i], names)
    {
      assert w[..i + 1][..i] == w[..i];
      if w[i].name !in names {
        left := left + [w[i]];
      }
      i := i + 1;
    }
    assert w[..|w|] == w;
  }

  /** Screens the full match line by line; `suggest` tells whether it survived. */
  method ScreenWinner(rls: seq<MappedRule>, byLine: map<string, seq<MacroUsage>>, w: seq<Scored>)
    returns (suggest: bool, left: seq<Scored>)
    ensures suggest <==> Screen(rls, byLine, w).Some?
    ensures suggest ==> left == Screen(rls, byLine, w).value
  {
    suggest, left := true, w;
    var i := 0;
    while i < |rls|
      invariant 0 <= i <= |rls|
      invariant suggest ==> Screen(rls, byLine, w) == Screen(rls[i..], byLine, left)
      invariant !suggest ==> Screen(rls, byLine, w) == None
      decreases if suggest then |rls| - i else 0
    {
      assert rls[i..][1..] == rls[i + 1..];
      var r := rls[i];
      if r.fileline !in byLine {
        i := i + 1;
        continue;
      }
      var at := byLine[r.fileline];
      var foreign := HasForeign(at);
      if foreign {
        suggest := false;
        break;
      }
      left := RemoveUsed(left, at);
      if |left| == 0 {
        suggest := false;
        break;
      }
      i := i + 1;
    }
    if suggest {
      assert rls[|rls|..] == [];
    }
  }

  // ---------------------------------------------------------------------
  // Suggestions
  // ---------------------------------------------------------------------

  /** The suggestion of entry `x` for the rules of signature `sig`. */
  function Make(x: Scored, rls: seq<MappedRule>, sig: string, permset: set<string>): Suggestion {
    Suggestion(x.name, x.values, rls, x.score, sig, permset)
  }

  /** Adds, in order, the suggestions of the entries whose name is not skipped. */
  function AddAll(sugs: Groups, xs: seq<Scored>, rls: seq<MappedRule>, sig: string, permset: set<string>,
                  skip: set<string>): Groups
    decreases |xs|
  {
    if |xs| == 0 then sugs
    else
      var prior := AddAll(sugs, xs[..|xs| - 1], rls, sig, permset, skip);
      var x := xs[|xs| - 1];
      if x.name in skip then prior else Add(prior, Make(x, rls, sig, permset))
  }

  /** Adds the suggestions one by one. */
  method AddEach(sugs: Groups, xs: seq<Scored>, rls: seq<MappedRule>, sig: string, permset: set<string>,
                 skip: set<string>) returns (r: Groups)
    ensures r == AddAll(sugs, xs, rls, sig, permset, skip)
  {
    r := sugs;
    var i := 0;
    while i < |xs|
      invariant 0 <= i <= |xs|
      invariant r == AddAll(sugs, xs[..i], rls, sig, permset, skip)
    {
      assert xs[..i + 1][..i] == xs[..i];
      var x := xs[i];
      if x.name !in skip {
        var g := Suggestion(x.name, x.values, rls, x.score, sig, permset);
        var k := Filelines(g);
        if k !in r {
          r := r[k := [g]];
        } else if !HasSame(r[k], g) {
          r := r[k := r[k] + [g]];
        }
      }
      i := i + 1;
    }
    assert xs[..|xs|] == xs;
  }

  /** A partial match worth suggesting: at or above the threshold, and not ignored. */
  predicate Eligible(x: Scored, cfg: Config) {
    !Below(x.score, cfg.threshold) && x.name !in cfg.usagesIgnore
  }

  /** The eligible partial matches, in order. */
  function Eligibles(part: seq<Scored>, cfg: Config): (r: seq<Scored>)
    ensures forall x :: x in r <==> x in part && Eligible(x, cfg)
    decreases |part|
  {
    if |part| == 0 then []
    else
      var prior := Eligibles(part[..|part| - 1], cfg);
      var x := part[|part| - 1];
      if Eligible(x, cfg) then prior + [x] else prior
  }

  /** `xs[:n]`. */
  function Take<T>(xs: seq<T>, n: nat): (r: seq<T>)
    ensures |r| <= n && |r| <= |xs| && r == xs[..|r|]
    ensures |r| == if n <= |xs| then n else |xs|
  {
    if n <= |xs| then xs[..n] else xs
  }

  /**
   * The partial matches to suggest: at most `maxNo` eligible matches, the
   * best first, taken from the eligible ones sorted by descending score.
   * With well-formed scores no eligible match left out scores above one
   * that is kept.
   */
  function Top(part: seq<Scored>, cfg: Config): (r: seq<Scored>)
    ensures |r| <= cfg.maxNo
    ensures forall x :: x in r ==> x in part && Eligible(x, cfg)
    ensures multiset(r) <= multiset(Eligibles(part, cfg))
    ensures SortedDesc(ScoredScore, r)
    ensures |r| == if cfg.maxNo <= |Eligibles(part, cfg)| then cfg.maxNo else |Eligibles(part, cfg)|
    ensures (forall x :: x in part ==> x.score.den > 0) ==>
      forall x, y :: x in r && y in multiset(Eligibles(part, cfg)) - multiset(r) ==> !Below(x.score, y.score)
  {
    var sorted := SortDesc(ScoredScore, Eligibles(part, cfg));
    var r := Take(sorted, cfg.maxNo);
    assert forall x :: x in r ==> x in sorted;
    assert forall x :: x in sorted ==> x in multiset(sorted);
    TopBest(Eligibles(part, cfg), sorted, r);
    r
  }

  /** A prefix of a descending permutation of `es` is part of `es`, and none of the rest beats it. */
  lemma TopBest(es: seq<Scored>, sorted: seq<Scored>, r: seq<Scored>)
    requires multiset(sorted) == multiset(es) && SortedDesc(ScoredScore, sorted)
    requires |r| <= |sorted| && r == sorted[..|r|]
    ensures multiset(r) <= multiset(es)
    ensures (forall x :: x in es ==> x.score.den > 0) ==>
      forall x, y :: x in r && y in multiset(es) - multiset(r) ==> !Below(x.score, y.score)
  {
    DropRest(sorted, |r|);
    TakeBest(ScoredScore, sorted, |r|);
    if forall x :: x in es ==> x.score.den > 0 {
      forall k | 0 <= k < |sorted| ensures ScoredScore(sorted[k]).den > 0 {
        assert sorted[k] in multiset(es);
      }
    }
  }

  /** No contributing line uses any macro. */
  predicate NoUsages(rls: seq<MappedRule>, byLine: map<string, seq<MacroUsage>>) {
    forall i :: 0 <= i < |rls| ==> rls[i].fileline !in byLine
  }

  method CheckNoUsages(rls: seq<MappedRule>, byLine: map<string, seq<MacroUsage>>) returns (free: bool)
    ensures free <==> NoUsages(rls, byLine)
  {
    free := true;
    var i := 0;
    while i < |rls|
      invariant 0 <= i <= |rls|
      invariant free <==> forall k :: 0 <= k < i ==> rls[k].fileline !in byLine
    {
      if rls[i].fileline in byLine {
        free := false;
        break;
      }
      i := i + 1;
    }
  }

  /** The screened full match, less the ignored macros, added to the suggestions. */
  function FullStep(sugs: Groups, winner: seq<Scored>, filtered: seq<MappedRule>, sig: string, permset: set<string>,
                    byLine: map<string, seq<MacroUsage>>, cfg: Config): Groups
  {
    var screened := Screen(filtered, byLine, winner);
    if |winner| > 0 && screened.Some? then AddAll(sugs, screened.value, filtered, sig, permset, cfg.usagesIgnore)
    else sugs
  }

  /** The top partial matches added to the suggestions when no contributing line uses a macro. */
  function PartStep(sugs: Groups, part: seq<Scored>, filtered: seq<MappedRule>, sig: string, permset: set<string>,
                    byLine: map<string, seq<MacroUsage>>, cfg: Config): Groups
  {
    if |part| > 0 && NoUsages(filtered, byLine) then AddAll(sugs, Top(part, cfg), filtered, sig, permset, {})
    else sugs
  }

  /** The full match, then the partial matches, added to the suggestions. */
  function Contribute(sugs: Groups, winner: seq<Scored>, part: seq<Scored>, filtered: seq<MappedRule>, sig: string,
                      permset: set<string>, byLine: map<string, seq<MacroUsage>>, cfg: Config): Groups
  {
    PartStep(FullStep(sugs, winner, filtered, sig, permset, byLine, cfg), part, filtered, sig, permset, byLine, cfg)
  }

  /**
   * What one signature contributes: nothing when its rule type is not
   * analysed, when all its rules are ignored or when they grant nothing;
   * otherwise the screened full match and the top partial matches.
   */
  ghost function Step(sugs: Groups, sig: string, rls: seq<MappedRule>, cat: seq<(string, set<string>)>,
                      byLine: map<string, seq<MacroUsage>>, cfg: Config): Groups
  {
    if !StartsWithAny(sig, cfg.supportedRuleTypes) then sugs
    else
      var filtered := Kept(rls, cfg.ignorePaths);
      var permset := MergedPerms(filtered, TextPerms(sig));
      if |filtered| == 0 || permset == {} then sugs
      else
        Contribute(sugs, FitWinner(cat, permset), Partial(ScoredScore, Scores(cat, permset)), filtered, sig, permset, byLine, cfg)
  }

  /** The suggestions after processing the signatures in order. */
  ghost function SuggestAll(sigs: seq<(string, seq<MappedRule>)>, cat: seq<(string, set<string>)>,
                            byLine: map<string, seq<MacroUsage>>, cfg: Config): Groups
    decreases |sigs|
  {
    if |sigs| == 0 then map[]
    else
      var last := sigs[|sigs| - 1];
      Step(SuggestAll(sigs[..|sigs| - 1], cat, byLine, cfg), last.0, last.1, cat, byLine, cfg)
  }

  /**
   * The plugin's analysis: the suggestions, per set of lines, for the
   * signatures of the mapping taken in order.
   */
  method Suggest(defs: seq<MacroDef>, usages: seq<MacroUsage>, sigs: seq<(string, seq<MappedRule>)>, cfg: Config)
    returns (sugs: Groups)
    ensures sugs == SuggestAll(sigs, Catalog(defs), ByLine(usages), cfg)
  {
    var cat := BuildCatalog(defs);
    var byLine := UsagesByLine(usages);
    var sf := new SetFitter(cat);
    sugs := map[];
    var i := 0;
    while i < |sigs|
      invariant 0 <= i <= |sigs|
      invariant sf.d == cat
      invariant sugs == SuggestAll(sigs[..i], cat, byLine, cfg)
    {
      assert sigs[..i + 1][..i] == sigs[..i];
      var sig, rules := sigs[i].0, sigs[i].1;
      sugs := SuggestOne(sugs, sf, sig, rules, byLine, cfg);
      i := i + 1;
    }
    assert sigs[..|sigs|] == sigs;
  }

  // ---------------------------------------------------------------------
  // What the analysis guarantees
  // ---------------------------------------------------------------------

  /** Every contributing line of the suggestion that uses macros uses only global ones, and not this one. */
  predicate LinesFree(g: Suggestion, byLine: map<string, seq<MacroUsage>>) {
    forall i :: 0 <= i < |g.rules| && g.rules[i].fileline in byLine ==> FreeFor(byLine[g.rules[i].fileline], g.name)
  }

  /**
   * What the plugin requires of a suggestion: the macro is not ignored;
   * the rules are the non-ignored rules of an analysed signature and grant
   * something; the score is the share of the macro's permissions the
   * signature uses, and is 1 or reaches the threshold; and no contributing
   * line already uses the macro or a macro of another family.
   */
  ghost predicate GoodSuggestion(g: Suggestion, byLine: map<string, seq<MacroUsage>>, cfg: Config) {
    && g.name !in cfg.usagesIgnore
    && StartsWithAny(g.appliesTo, cfg.supportedRuleTypes)
    && |g.rules| > 0
    && NoneIgnored(g.rules, cfg.ignorePaths)
    && g.originalPermset == MergedPerms(g.rules, TextPerms(g.appliesTo))
    && g.originalPermset != {}
    && g.score == Fitness(g.macroPerms, g.originalPermset)
    && (IsOne(g.score) || !Below(g.score, cfg.threshold))
    && LinesFree(g, byLine)
  }

  /** Well grouped, and every suggestion meets the requirements. */
  ghost predicate Good(sugs: Groups, byLine: map<string, seq<MacroUsage>>, cfg: Config) {
    WellGrouped(sugs) && forall k, g :: k in sugs && g in sugs[k] ==> GoodSuggestion(g, byLine, cfg)
  }

  lemma {:induction false} AddAllGood(sugs: Groups, xs: seq<Scored>, rls: seq<MappedRule>, sig: string,
                                      permset: set<string>, skip: set<string>,
                                      byLine: map<string, seq<MacroUsage>>, cfg: Config)
    requires Good(sugs, byLine, cfg)
    requires forall x :: x in xs && x.name !in skip ==> GoodSuggestion(Make(x, rls, sig, permset), byLine, cfg)
    ensures Good(AddAll(sugs, xs, rls, sig, permset, skip), byLine, cfg)
    ensures Extends(sugs, AddAll(sugs, xs, rls, sig, permset, skip))
    decreases |xs|
  {
    if |xs| > 0 {
      var front := xs[..|xs| - 1];
      assert forall x :: x in front ==> x in xs;
      AddAllGood(sugs, front, rls, sig, permset, skip, byLine, cfg);
      var prior := AddAll(sugs, front, rls, sig, permset, skip);
      var x := xs[|xs| - 1];
      if x.name !in skip {
        var r := Add(prior, Make(x, rls, sig, permset));
        AddGood(prior, Make(x, rls, sig, permset), byLine, cfg);
        ExtendsTransitive(sugs, prior, r);
      }
    }
  }

  lemma AddGood(sugs: Groups, g: Suggestion, byLine: map<string, seq<MacroUsage>>, cfg: Config)
    requires Good(sugs, byLine, cfg) && GoodSuggestion(g, byLine, cfg)
    ensures Good(Add(sugs, g), byLine, cfg)
  {
    var r := Add(sugs, g);
    forall k, h | k in r && h in r[k] ensures GoodSuggestion(h, byLine, cfg) {
      if h != g {
        assert k in sugs && h in sugs[k];
      }
    }
  }

  /** Every entry that is not skipped ends up among the suggestions for the rules' lines. */
  lemma {:induction false} AddAllHas(sugs: Groups, xs: seq<Scored>, rls: seq<MappedRule>, sig: string,
                                     permset: set<string>, skip: set<string>, j: nat)
    requires j < |xs| && xs[j].name !in skip
    ensures var r := AddAll(sugs, xs, rls, sig, permset, skip);
      var g := Make(xs[j], rls, sig, permset);
      Filelines(g) in r && HasSame(r[Filelines(g)], g)
    decreases |xs|
  {
    var front := xs[..|xs| - 1];
    var prior := AddAll(sugs, front, rls, sig, permset, skip);
    var g := Make(xs[j], rls, sig, permset);
    if j < |xs| - 1 {
      AddAllHas(sugs, front, rls, sig, permset, skip, j);
      var x := xs[|xs| - 1];
      if x.name !in skip {
        ExtendsKeeps(prior, Add(prior, Make(x, rls, sig, permset)), Filelines(g), g);
      }
    }
  }

  lemma AddAllExtends(sugs: Groups, xs: seq<Scored>, rls: seq<MappedRule>, sig: string,
                      permset: set<string>, skip: set<string>)
    ensures Extends(sugs, AddAll(sugs, xs, rls, sig, permset, skip))
    decreases |xs|
  {
    if |xs| > 0 {
      var front := xs[..|xs| - 1];
      AddAllExtends(sugs, front, rls, sig, permset, skip);
      var prior := AddAll(sugs, front, rls, sig, permset, skip);
      var x := xs[|xs| - 1];
      if x.name !in skip {
        ExtendsTransitive(sugs, prior, Add(prior, Make(x, rls, sig, permset)));
      }
    }
  }

  /** Every suggestion a signature contributes meets the requirements. */
  lemma StepGood(sugs: Groups, sig: string, rls: seq<MappedRule>, cat: seq<(string, set<string>)>,
                 byLine: map<string, seq<MacroUsage>>, cfg: Config)
    requires Good(sugs, byLine, cfg)
    ensures Good(Step(sugs, sig, rls, cat, byLine, cfg), byLine, cfg)
    ensures Extends(sugs, Step(sugs, sig, rls, cat, byLine, cfg))
  {
    if StartsWithAny(sig, cfg.supportedRuleTypes) {
      var filtered := Kept(rls, cfg.ignorePaths);
      var permset := MergedPerms(filtered, TextPerms(sig));
      StepIs(sugs, sig, rls, cat, byLine, cfg, filtered, permset);
      if |filtered| > 0 && permset != {} {
        FittedGood(sugs, cat, filtered, sig, permset, byLine, cfg);
        return;
      }
    }
    ExtendsItself(sugs);
  }

  /** The matches the catalog gives for the merged permissions keep the suggestions good and only extend them. */
  lemma FittedGood(sugs: Groups, cat: seq<(string, set<string>)>, filtered: seq<MappedRule>,
                   sig: string, permset: set<string>, byLine: map<string, seq<MacroUsage>>, cfg: Config)
    requires Good(sugs, byLine, cfg)
    requires StartsWithAny(sig, cfg.supportedRuleTypes) && |filtered| > 0
    requires NoneIgnored(filtered, cfg.ignorePaths)
    requires permset == MergedPerms(filtered, TextPerms(sig)) && permset != {}
    ensures var r := Contribute(sugs, FitWinner(cat, permset), Partial(ScoredScore, Scores(cat, permset)), filtered, sig, permset,
                                byLine, cfg);
      Good(r, byLine, cfg) && Extends(sugs, r)
  {
    FitScored(cat, permset);
    BothGood(sugs, FitWinner(cat, permset), Partial(ScoredScore, Scores(cat, permset)), filtered, sig, permset, byLine, cfg);
  }

  /** The full match, then the partial matches, keep the suggestions good and only extend them. */
  lemma BothGood(sugs: Groups, winner: seq<Scored>, part: seq<Scored>, filtered: seq<MappedRule>,
                 sig: string, permset: set<string>, byLine: map<string, seq<MacroUsage>>, cfg: Config)
    requires Good(sugs, byLine, cfg)
    requires forall x :: x in winner ==> IsOne(x.score) && x.score == Fitness(x.values, permset)
    requires forall x :: x in part ==> x.score == Fitness(x.values, permset)
    requires StartsWithAny(sig, cfg.supportedRuleTypes) && |filtered| > 0
    requires NoneIgnored(filtered, cfg.ignorePaths)
    requires permset == MergedPerms(filtered, TextPerms(sig)) && permset != {}
    ensures var r := Contribute(sugs, winner, part, filtered, sig, permset, byLine, cfg);
      Good(r, byLine, cfg) && Extends(sugs, r)
  {
    var afterFull := FullStep(sugs, winner, filtered, sig, permset, byLine, cfg);
    FullGood(sugs, winner, filtered, sig, permset, byLine, cfg);
    PartGood(afterFull, part, filtered, sig, permset, byLine, cfg);
    ExtendsTransitive(sugs, afterFull, PartStep(afterFull, part, filtered, sig, permset, byLine, cfg));
  }

  /** The surviving full match yields only suggestions that meet the requirements. */
  lemma FullGood(sugs: Groups, winner: seq<Scored>, filtered: seq<MappedRule>,
                 sig: string, permset: set<string>, byLine: map<string, seq<MacroUsage>>, cfg: Config)
    requires Good(sugs, byLine, cfg)
    requires forall x :: x in winner ==> IsOne(x.score) && x.score == Fitness(x.values, permset)
    requires StartsWithAny(sig, cfg.supportedRuleTypes) && |filtered| > 0
    requires NoneIgnored(filtered, cfg.ignorePaths)
    requires permset == MergedPerms(filtered, TextPerms(sig)) && permset != {}
    ensures Good(FullStep(sugs, winner, filtered, sig, permset, byLine, cfg), byLine, cfg)
    ensures Extends(sugs, FullStep(sugs, winner, filtered, sig, permset, byLine, cfg))
  {
    var screened := Screen(filtered, byLine, winner);
    if |winner| > 0 && screened.Some? {
      ScreenSound(filtered, byLine, winner);
      AddAllGood(sugs, screened.value, filtered, sig, permset, cfg.usagesIgnore, byLine, cfg);
    }
  }

  /** The top partial matches yield only suggestions that meet the requirements. */
  lemma PartGood(sugs: Groups, part: seq<Scored>, filtered: seq<MappedRule>,
                 sig: string, permset: set<string>, byLine: map<string, seq<MacroUsage>>, cfg: Config)
    requires Good(sugs, byLine, cfg)
    requires forall x :: x in part ==> x.score == Fitness(x.values, permset)
    requires StartsWithAny(sig, cfg.supportedRuleTypes) && |filtered| > 0
    requires NoneIgnored(filtered, cfg.ignorePaths)
    requires permset == MergedPerms(filtered, TextPerms(sig)) && permset != {}
    ensures var r := PartStep(sugs, part, filtered, sig, permset, byLine, cfg);
      Good(r, byLine, cfg) && Extends(sugs, r)
  {
    if |part| > 0 && NoUsages(filtered, byLine) {
      var top := Top(part, cfg);
      forall x | x in top
        ensures GoodSuggestion(Make(x, filtered, sig, permset), byLine, cfg)
      {
        PartOneGood(x, filtered, sig, permset, byLine, cfg);
      }
      AddAllGood(sugs, top, filtered, sig, permset, {}, byLine, cfg);
    }
  }

  /** An eligible partial match on lines without macro usages meets the requirements. */
  lemma PartOneGood(x: Scored, filtered: seq<MappedRule>, sig: string, permset: set<string>,
                    byLine: map<string, seq<MacroUsage>>, cfg: Config)
    requires x.score == Fitness(x.values, permset) && Eligible(x, cfg)
    requires StartsWithAny(sig, cfg.supportedRuleTypes) && |filtered| > 0
    requires NoneIgnored(filtered, cfg.ignorePaths) && NoUsages(filtered, byLine)
    requires permset == MergedPerms(filtered, TextPerms(sig)) && permset != {}
    ensures GoodSuggestion(Make(x, filtered, sig, permset), byLine, cfg)
  {
  }

  /** Every suggestion of the analysis meets the requirements, and the suggestions only ever grow. */
  lemma {:induction false} SuggestAllGood(sigs: seq<(string, seq<MappedRule>)>, cat: seq<(string, set<string>)>,
                                          byLine: map<string, seq<MacroUsage>>, cfg: Config)
    ensures Good(SuggestAll(sigs, cat, byLine, cfg), byLine, cfg)
    decreases |sigs|
  {
    if |sigs| > 0 {
      var front := sigs[..|sigs| - 1];
      SuggestAllGood(front, cat, byLine, cfg);
      var last := sigs[|sigs| - 1];
      StepGood(SuggestAll(front, cat, byLine, cfg), last.0, last.1, cat, byLine, cfg);
    }
  }

  /**
   * A full match on lines that use no macro at all is suggested, macro by
   * macro, unless the macro is ignored.
   */
  lemma WinnerSuggested(sugs: Groups, sig: string, rls: seq<MappedRule>, cat: seq<(string, set<string>)>,
                        byLine: map<string, seq<MacroUsage>>, cfg: Config, j: nat)
    requires StartsWithAny(sig, cfg.supportedRuleTypes)
    requires |Kept(rls, cfg.ignorePaths)| > 0
    requires MergedPerms(Kept(rls, cfg.ignorePaths), TextPerms(sig)) != {}
    requires NoUsages(Kept(rls, cfg.ignorePaths), byLine)
    requires var winner := FitWinner(cat, MergedPerms(Kept(rls, cfg.ignorePaths), TextPerms(sig)));
      j < |winner| && winner[j].name !in cfg.usagesIgnore
    ensures var filtered := Kept(rls, cfg.ignorePaths);
      var permset := MergedPerms(filtered, TextPerms(sig));
      var g := Make(FitWinner(cat, permset)[j], filtered, sig, permset);
      var r := Step(sugs, sig, rls, cat, byLine, cfg);
      Filelines(g) in r && HasSame(r[Filelines(g)], g)
  {
    var filtered := Kept(rls, cfg.ignorePaths);
    var permset := MergedPerms(filtered, TextPerms(sig));
    WinnerKept(sugs, FitWinner(cat, permset), Partial(ScoredScore, Scores(cat, permset)), filtered, sig, permset, byLine, cfg, j);
  }

  /** On lines without macro usages, every entry of the full match that is not ignored is suggested. */
  lemma WinnerKept(sugs: Groups, winner: seq<Scored>, part: seq<Scored>, filtered: seq<MappedRule>, sig: string,
                   permset: set<string>, byLine: map<string, seq<MacroUsage>>, cfg: Config, j: nat)
    requires NoUsages(filtered, byLine)
    requires j < |winner| && winner[j].name !in cfg.usagesIgnore
    ensures var g := Make(winner[j], filtered, sig, permset);
      var r := Contribute(sugs, winner, part, filtered, sig, permset, byLine, cfg);
      Filelines(g) in r && HasSame(r[Filelines(g)], g)
  {
    var g := Make(winner[j], filtered, sig, permset);
    ScreenFree(filtered, byLine, winner);
    AddAllHas(sugs, winner, filtered, sig, permset, cfg.usagesIgnore, j);
    var afterFull := FullStep(sugs, winner, filtered, sig, permset, byLine, cfg);
    if |part| > 0 {
      AddAllExtends(afterFull, Top(part, cfg), filtered, sig, permset, {});
      ExtendsKeeps(afterFull, Contribute(sugs, winner, part, filtered, sig, permset, byLine, cfg), Filelines(g), g);
    }
  }

  /** Processes one signature. */
  method SuggestOne(sugs: Groups, sf: SetFitter, sig: string, rules: seq<MappedRule>,
                    byLine: map<string, seq<MacroUsage>>, cfg: Config) returns (r: Groups)
    ensures r == Step(sugs, sig, rules, sf.d, byLine, cfg)
  {
    r := sugs;
    if !StartsWithAny(sig, cfg.supportedRuleTypes) {
      return;
    }
    var filtered, permset := MergeRules(sig, rules, cfg.ignorePaths);
    StepIs(sugs, sig, rules, sf.d, byLine, cfg, filtered, permset);
    if |filtered| == 0 || permset == {} {
      return;
    }
    var winner, part := sf.Fit(permset);
    r := SuggestFitted(r, winner, part, filtered, sig, permset, byLine, cfg);
  }

  // Step on a supported signature, given its kept lines and merged permissions.
  lemma StepIs(sugs: Groups, sig: string, rls: seq<MappedRule>, cat: seq<(string, set<string>)>,
               byLine: map<string, seq<MacroUsage>>, cfg: Config, filtered: seq<MappedRule>, permset: set<string>)
    requires StartsWithAny(sig, cfg.supportedRuleTypes)
    requires filtered == Kept(rls, cfg.ignorePaths) && permset == MergedPerms(filtered, TextPerms(sig))
    ensures Step(sugs, sig, rls, cat, byLine, cfg) == if |filtered| == 0 || permset == {} then sugs
      else Contribute(sugs, FitWinner(cat, permset), Partial(ScoredScore, Scores(cat, permset)), filtered, sig, permset, byLine, cfg)
  {
  }

  /** Records the full match, then the partial matches. */
  method SuggestFitted(sugs: Groups, winner: seq<Scored>, part: seq<Scored>, filtered: seq<MappedRule>, sig: string,
                       permset: set<string>, byLine: map<string, seq<MacroUsage>>, cfg: Config) returns (r: Groups)
    ensures r == Contribute(sugs, winner, part, filtered, sig, permset, byLine, cfg)
  {
    r := SuggestFull(sugs, winner, filtered, sig, permset, byLine, cfg);
    r := SuggestPartial(r, part, filtered, sig, permset, byLine, cfg);
  }

  /** Screens the full match and records what survives. */
  method SuggestFull(sugs: Groups, winner: seq<Scored>, filtered: seq<MappedRule>, sig: string, permset: set<string>,
                     byLine: map<string, seq<MacroUsage>>, cfg: Config) returns (r: Groups)
    ensures r == FullStep(sugs, winner, filtered, sig, permset, byLine, cfg)
  {
    r := sugs;
    if |winner| > 0 {
      var suggest, left := ScreenWinner(filtered, byLine, winner);
      if suggest {
        r := AddEach(r, left, filtered, sig, permset, cfg.usagesIgnore);
      }
    }
  }

  /** Records the top partial matches when no contributing line uses a macro. */
  method SuggestPartial(sugs: Groups, part: seq<Scored>, filtered: seq<MappedRule>, sig: string, permset: set<string>,
                        byLine: map<string, seq<MacroUsage>>, cfg: Config) returns (r: Groups)
    ensures r == PartStep(sugs, part, filtered, sig, permset, byLine, cfg)
  {
    r := sugs;
    if |part| > 0 {
      var free := CheckNoUsages(filtered, byLine);
      if free {
        r := AddEach(r, Top(part, cfg), filtered, sig, permset, {});
      }
    }
  }
}
