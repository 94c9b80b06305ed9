/**
 * `ArgExtractor`: matches a concrete rule against a rule template block by
 * block (kind, source, target, class, permissions or default type, object
 * name) and binds the values captured at the template's placeholders to
 * the argument names `argN`.
 */
module ArgExtraction {
  import opened Text
  import opened Wrappers
  import opened Policy
  import opened Templates

  /** `VALID_ARG_R`, the regular expression each placeholder turns into. */
  const ValidArgRegex: string := "[a-zA-Z0-9_-]+"

  /** A template block as regex text: the placeholder becomes a capturing group. */
  function BlockText(f: Field): string {
    match f
    case Plain(x) => x
    case Holed(p, _, s) => p + "(" + ValidArgRegex + ")" + s
  }

  /** The fifth block of the regex text. */
  function VariableBlock(v: Variable): string {
    match v
    case Perms(ps) => PermsText(ps)
    case Default(f) => BlockText(f)
  }

  /** `set(b.strip("{}").split())` for a block with a brace, `set([b])` otherwise. */
  function PermSet(b: string): set<string> {
    if '{' in b || '}' in b then Elems(SplitWords(Strip(b, {'{', '}'}))) else {b}
  }

  /** `regex_perms`: the permissions an AV template demands; nothing for other kinds. */
  function RegexPerms(t: Template): Option<set<string>> {
    if t.kind in AvRules then Some(PermSet(VariableBlock(t.variable))) else None
  }

  /** The permission set of a template's text is the set of its permission words. */
  lemma PermSetOf(ps: seq<string>)
    requires PermWords(ps)
    ensures PermSet(PermsText(ps)) == Elems(ps)
  {
    if |ps| == 1 {
      assert '{' !in ps[0] && '}' !in ps[0] by {
        forall i | 0 <= i < |ps[0]|
          ensures ps[0][i] != '{' && ps[0][i] != '}'
        {
          assert IsArgChar(ps[0][i]);
        }
      }
      assert Elems(ps) == {ps[0]};
    } else {
      var j := Join(ps, " ");
      StripBraces(j);
      assert ("{ " + j + " }")[0] == '{';
      PermWordsValid(ps);
      SplitPadded(ps);
    }
  }

  // Stripping the braces of `{ j }` leaves the spaces.
  lemma StripBraces(j: string)
    ensures Strip("{ " + j + " }", {'{', '}'}) == " " + j + " "
  {
    var inner := " " + j + " ";
    assert "{ " + j + " }" == ['{'] + inner + "}";
    assert inner[0] == ' ' && inner[|inner| - 1] == ' ';
    StripWrapped('{', inner, "}", {'{', '}'});
  }

  // Permission words are words.
  lemma PermWordsValid(ps: seq<string>)
    requires PermWords(ps)
    ensures ValidWords(ps)
  {
    forall i | 0 <= i < |ps|
      ensures NoSpace(ps[i])
    {
      assert forall k :: 0 <= k < |ps[i]| ==> IsArgChar(ps[i][k]);
    }
  }

  // ---------------------------------------------------------------------
  // re.match of one templated block
  // ---------------------------------------------------------------------

  /** `c` is a value of the group in `prefix([a-zA-Z0-9_-]+)suffix` matched at the start of `x`. */
  predicate Captures(prefix: string, suffix: string, x: string, c: string) {
    |c| > 0 && AllArgChars(c) && StartsWith(x, prefix + c + suffix)
  }

  /** Length of the leading run of `[a-zA-Z0-9_-]` characters. */
  function ArgRun(s: string): (n: nat)
    ensures n <= |s| && AllArgChars(s[..n]) && (n < |s| ==> !IsArgChar(s[n]))
  {
    if |s| == 0 || !IsArgChar(s[0]) then 0
    else
      var m := ArgRun(s[1..]);
      assert s[..m + 1] == [s[0]] + s[1..][..m];
      m + 1
  }

  /** The greedy group gives back characters until the suffix follows: the longest `k <= n` that works. */
  function Backtrack(y: string, n: nat, suffix: string): (k: nat)
    requires n <= |y|
    ensures k <= n && (k > 0 ==> StartsWith(y[k..], suffix))
    ensures forall j :: k < j <= n ==> !StartsWith(y[j..], suffix)
    decreases n
  {
    if n == 0 then 0
    else if StartsWith(y[n..], suffix) then n
    else Backtrack(y, n - 1, suffix)
  }

  /**
   * `re.match(prefix + "([a-zA-Z0-9_-]+)" + suffix, x).group(1)`: anchored at
   * the start of `x` only, the longest capture after which the suffix follows.
   */
  function MatchField(prefix: string, suffix: string, x: string): (m: Option<string>)
    ensures m.Some? ==> Captures(prefix, suffix, x, m.value)
    ensures m.Some? ==> forall c :: Captures(prefix, suffix, x, c) ==> |c| <= |m.value|
    ensures m.None? ==> forall c :: !Captures(prefix, suffix, x, c)
  {
    if !StartsWith(x, prefix) then
      NoPrefixNoCapture(prefix, suffix, x);
      None
    else
      var y := x[|prefix|..];
      var n := ArgRun(y);
      var k := Backtrack(y, n, suffix);
      CaptureBound(prefix, suffix, x, n, k);
      if k == 0 then None
      else
        CaptureOf(prefix, suffix, x, k);
        Some(y[..k])
  }

  lemma NoPrefixNoCapture(prefix: string, suffix: string, x: string)
    requires !StartsWith(x, prefix)
    ensures forall c :: !Captures(prefix, suffix, x, c)
  {
    forall c | Captures(prefix, suffix, x, c)
      ensures false
    {
      CaptureParts(prefix, suffix, x, c);
    }
  }

  // What a capture says about the text, piece by piece.
  lemma CaptureParts(prefix: string, suffix: string, x: string, c: string)
    requires Captures(prefix, suffix, x, c)
    ensures StartsWith(x, prefix)
    ensures x[|prefix|..][..|c|] == c
    ensures StartsWith(x[|prefix|..][|c|..], suffix)
  {
    var w := prefix + c + suffix;
    assert x[..|w|] == w;
    assert x[..|prefix|] == w[..|prefix|] == prefix;
    var y := x[|prefix|..];
    assert y[..|c|] == w[|prefix|..|prefix| + |c|] == c;
    assert y[|c|..][..|suffix|] == w[|prefix| + |c|..] == suffix;
  }

  // A capture of the length backtracking chose.
  lemma CaptureOf(prefix: string, suffix: string, x: string, k: nat)
    requires StartsWith(x, prefix) && 0 < k
    requires k <= ArgRun(x[|prefix|..]) && StartsWith(x[|prefix|..][k..], suffix)
    ensures Captures(prefix, suffix, x, x[|prefix|..][..k])
  {
    var y := x[|prefix|..];
    var c := y[..k];
    assert c == y[..ArgRun(y)][..k];
    assert StartsWith(y, c);
    StartsWithChain(x, prefix, c, suffix);
  }

  // Three pieces that follow one another at the start of `x` start it together.
  lemma StartsWithChain(x: string, p: string, c: string, q: string)
    requires StartsWith(x, p) && StartsWith(x[|p|..], c) && StartsWith(x[|p|..][|c|..], q)
    ensures StartsWith(x, p + c + q)
  {
    var w := p + c + q;
    forall i | 0 <= i < |w|
      ensures x[i] == w[i]
    {
      if i < |p| {
        assert x[..|p|][i] == p[i];
      } else if i < |p| + |c| {
        assert x[|p|..][..|c|][i - |p|] == c[i - |p|];
      } else {
        assert x[|p|..][|c|..][..|q|][i - |p| - |c|] == q[i - |p| - |c|];
      }
    }
    assert x[..|w|] == w;
  }

  // A run of argument characters at the front of `y` is no longer than ArgRun(y).
  lemma {:induction false} RunCovers(y: string, c: string)
    requires |c| <= |y| && y[..|c|] == c && AllArgChars(c)
    ensures |c| <= ArgRun(y)
    decreases |c|
  {
    if |c| > 0 {
      assert y[0] == c[0];
      assert y[1..][..|c| - 1] == c[1..];
      RunCovers(y[1..], c[1..]);
    }
  }

  lemma Resplit<T>(s: seq<T>, i: nat)
    requires i <= |s|
    ensures s == s[..i] + s[i..]
  {
  }

  lemma PrefixOfConcat<T>(w: seq<T>, z: seq<T>)
    ensures (w + z)[..|w|] == w
  {
  }

  // Every capture is no longer than the one backtracking finds.
  lemma CaptureBound(prefix: string, suffix: string, x: string, n: nat, k: nat)
    requires StartsWith(x, prefix)
    requires n == ArgRun(x[|prefix|..]) && k == Backtrack(x[|prefix|..], n, suffix)
    ensures forall c :: Captures(prefix, suffix, x, c) ==> |c| <= k
  {
    var y := x[|prefix|..];
    forall c | Captures(prefix, suffix, x, c)
      ensures |c| <= k
    {
      CaptureParts(prefix, suffix, x, c);
      RunCovers(y, c);
    }
  }

  /** Matching a block against the text the block was filled in with gives back the value. */
  lemma MatchFieldExact(prefix: string, v: string, suffix: string)
    requires |v| > 0 && AllArgChars(v)
    ensures MatchField(prefix, suffix, prefix + v + suffix) == Some(v)
  {
    var x := prefix + v + suffix;
    assert Captures(prefix, suffix, x, v);
    var m := MatchField(prefix, suffix, x);
    var c := m.value;
    assert x[..|prefix + c + suffix|] == prefix + c + suffix;
    assert x[|prefix|..|prefix| + |c|] == c;
    assert x[|prefix|..|prefix| + |v|] == v;
  }

  // ---------------------------------------------------------------------
  // match_rule, block by block
  // ---------------------------------------------------------------------

  /**
   * A source or class block: a block with a placeholder is matched as a
   * regex and yields its capture, a literal block is compared as text.
   */
  function FieldMatch(f: Field, x: string): (m: Option<seq<string>>)
    ensures m.Some? ==> |m.value| == |FieldHoles(f)| && ArgValues(m.value)
  {
    match f
    case Plain(v) => if x == v then Some([]) else None
    case Holed(p, _, s) =>
      var c := MatchField(p, s, x);
      if c.None? then None else Some([c.value])
  }

  /**
   * The target block. A literal `self` also accepts a concrete target
   * equal to the concrete source.
   */
  function TargetMatch(f: Field, target: string, source: string): (m: Option<seq<string>>)
    ensures m.Some? ==> |m.value| == |FieldHoles(f)| && ArgValues(m.value)
    ensures m.Some? && f == Plain("self") ==> target == "self" || target == source
  {
    match f
    case Plain(v) =>
      if v == "self" && target != "self" then (if target == source then Some([]) else None)
      else if target == v then Some([]) else None
    case Holed(_, _, _) => FieldMatch(f, target)
  }

  /** The default-type block of a `type_transition` rule. */
  function DefaultMatch(v: Variable, default: string): (m: Option<seq<string>>)
    ensures m.Some? ==> |m.value| == |VariableHoles(v)| && ArgValues(m.value)
  {
    match v
    case Perms(ps) => if default == PermsText(ps) then Some([]) else None
    case Default(f) => FieldMatch(f, default)
  }

  /** The object-name block: a literal one is compared with the quotes stripped. */
  function ObjnameMatch(f: Field, name: string): (m: Option<seq<string>>)
    ensures m.Some? ==> |m.value| == |FieldHoles(f)| && ArgValues(m.value)
  {
    match f
    case Plain(v) => if Strip(name, {'"'}) == Strip(v, {'"'}) then Some([]) else None
    case Holed(_, _, _) => FieldMatch(f, name)
  }

  /** A value a placeholder can capture: a non-empty run of `[a-zA-Z0-9_-]`. */
  predicate ArgValue(v: string) {
    |v| > 0 && AllArgChars(v)
  }

  predicate ArgValues(vs: seq<string>) {
    forall i :: 0 <= i < |vs| ==> ArgValue(vs[i])
  }

  /** Both blocks match; their captures, in order. */
  function Then(a: Option<seq<string>>, b: Option<seq<string>>): (m: Option<seq<string>>)
    ensures m.Some? <==> a.Some? && b.Some?
    ensures m.Some? ==> m.value == a.value + b.value
  {
    if a.Some? && b.Some? then Some(a.value + b.value) else None
  }

  /** The object name `match_rule` checks: that of a rule matched against a six-block template, when not empty. */
  function CheckedObjname(t: Template, r: Rule): Option<string> {
    if r.ruletype == "type_transition" && t.objname.Some? && r.filename.Some? && r.filename.value != ""
    then r.filename else None
  }

  /**
   * `match_rule`: the captures of the template's placeholders in block
   * order, or None when some block does not match. A `type_transition`
   * rule without an object name never matches a six-block template, and a
   * rule that is neither AV nor `type_transition` never matches.
   */
  function MatchSpec(t: Template, r: Rule): (m: Option<seq<string>>)
    ensures m.Some? ==> r.ruletype == t.kind && t.kind in OnlyMapRules
    ensures t.objname.Some? && r.ruletype == "type_transition" && r.filename.None? ==> m.None?
    ensures m.Some? && t.kind in AvRules ==> RegexPerms(t).Some? && RegexPerms(t).value <= r.perms
    ensures m.Some? && t.target == Plain("self") ==> r.target == "self" || r.target == r.source
    ensures m.Some? ==> |m.value| <= |Holes(t)| && ArgValues(m.value)
  {
    if KindMatches(t, r) then BlocksMatch(t, r) else None
  }

  /** The checks `match_rule` makes before the first block: object name present, supported kind, same kind. */
  predicate KindMatches(t: Template, r: Rule) {
    var isTe := r.ruletype == "type_transition";
    !(isTe && t.objname.Some? && r.filename.None?)
    && (isTe || r.ruletype in AvRules)
    && r.ruletype == t.kind
  }

  /** The permission or default-type block. */
  function VariableMatch(t: Template, r: Rule): (m: Option<seq<string>>)
    ensures m.Some? ==> |m.value| <= |VariableHoles(t.variable)| && ArgValues(m.value)
    ensures m.Some? && r.ruletype in AvRules ==> RegexPerms(t).Some? && RegexPerms(t).value <= r.perms
  {
    if r.ruletype in AvRules then
      (if RegexPerms(t).Some? && RegexPerms(t).value <= r.perms then Some([]) else None)
    else DefaultMatch(t.variable, r.default)
  }

  /** The object-name block, when there is an object name to compare. */
  function LastMatch(t: Template, r: Rule): (m: Option<seq<string>>)
    ensures m.Some? ==> |m.value| <= |ObjnameHoles(t.objname)| && ArgValues(m.value)
  {
    var objname := CheckedObjname(t, r);
    if objname.Some? then ObjnameMatch(t.objname.value, objname.value) else Some([])
  }

  /** The blocks from the source on, in order. */
  function BlocksMatch(t: Template, r: Rule): (m: Option<seq<string>>)
    ensures m.Some? ==> |m.value| <= |Holes(t)| && ArgValues(m.value)
    ensures m.Some? && r.ruletype in AvRules ==> RegexPerms(t).Some? && RegexPerms(t).value <= r.perms
    ensures m.Some? && t.target == Plain("self") ==> r.target == "self" || r.target == r.source
  {
    var a, b, c, d, e := FieldMatch(t.source, r.source), TargetMatch(t.target, r.target, r.source),
      FieldMatch(t.tclass, r.tclass), VariableMatch(t, r), LastMatch(t, r);
    var m := Then(a, Then(b, Then(c, Then(d, e))));
    assert m.Some? ==> ArgValues(m.value) by {
      if m.Some? {
        ThenValues(d, e);
        ThenValues(c, Then(d, e));
        ThenValues(b, Then(c, Then(d, e)));
        ThenValues(a, Then(b, Then(c, Then(d, e))));
      }
    }
    m
  }

  lemma ThenValues(a: Option<seq<string>>, b: Option<seq<string>>)
    requires a.Some? && b.Some? && ArgValues(a.value) && ArgValues(b.value)
    ensures Then(a, b).Some? && ArgValues(Then(a, b).value)
  {
    var m := a.value + b.value;
    forall i | 0 <= i < |m| ensures ArgValue(m[i]) {
      if i >= |a.value| { assert m[i] == b.value[i - |a.value|]; }
    }
  }

  // ---------------------------------------------------------------------
  // extract
  // ---------------------------------------------------------------------

  /** Why `extract` raises: no match or an empty match, disagreeing repeats, or more captures than names. */
  datatype ExtractError = NoMatch | Inconsistent | MissingName

  /** Repeated names carry equal values. */
  predicate Consistent(names: seq<string>, ms: seq<string>)
    requires |ms| <= |names|
  {
    forall i, j :: 0 <= i < |ms| && 0 <= j < |ms| && names[i] == names[j] ==> ms[i] == ms[j]
  }

  /**
   * The binding loop of `extract` over the captures `ms`: the i-th capture
   * is bound to the i-th name, and a repeated name must see the value it
   * already has.
   */
  function Bind(names: seq<string>, ms: seq<string>): (res: Result<map<string, string>, ExtractError>)
    ensures res.Success? <==> |ms| <= |names| && Consistent(names, ms)
    ensures res.Success? ==> res.value.Keys == Elems(names[..|ms|])
    ensures res.Success? ==> forall i :: 0 <= i < |ms| ==> res.value[names[i]] == ms[i]
    decreases |ms|
  {
    if |ms| == 0 then Success(map[])
    else
      var n := |ms| - 1;
      var prior := Bind(names, ms[..n]);
      if prior.Failure? then
        assert |ms| <= |names| ==> !Consistent(names, ms) by {
          if |ms| <= |names| {
            ConsistentPrefix(names, ms, n);
          }
        }
        prior
      else if n >= |names| then Failure(MissingName)
      else
        ConsistentExtend(names, ms);
        BoundNames(names, ms, prior.value);
        BindNext(prior.value, names[n], ms[n])
  }

  /** Binds `k` to `v` unless `k` already has a different value. */
  function BindNext(d: map<string, string>, k: string, v: string): Result<map<string, string>, ExtractError> {
    if k in d then (if d[k] != v then Failure(Inconsistent) else Success(d))
    else Success(d[k := v])
  }

  lemma ConsistentPrefix(names: seq<string>, ms: seq<string>, n: nat)
    requires n <= |ms| <= |names|
    ensures Consistent(names, ms) ==> Consistent(names, ms[..n])
  {
  }

  // Consistency of one more capture: the earlier captures are consistent and agree with it.
  lemma ConsistentExtend(names: seq<string>, ms: seq<string>)
    requires 0 < |ms| <= |names|
    ensures Consistent(names, ms) <==> (Consistent(names, ms[..|ms| - 1])
      && forall i :: 0 <= i < |ms| - 1 && names[i] == names[|ms| - 1] ==> ms[i] == ms[|ms| - 1])
  {
  }

  // The binding of the earlier captures, read at the name of the last one.
  lemma BoundNames(names: seq<string>, ms: seq<string>, d: map<string, string>)
    requires 0 < |ms| <= |names|
    requires d.Keys == Elems(names[..|ms| - 1])
    requires forall i :: 0 <= i < |ms| - 1 ==> d[names[i]] == ms[i]
    requires Consistent(names, ms[..|ms| - 1])
    ensures names[|ms| - 1] in d <==> exists i :: 0 <= i < |ms| - 1 && names[i] == names[|ms| - 1]
    ensures names[|ms| - 1] in d ==>
      forall i :: 0 <= i < |ms| - 1 && names[i] == names[|ms| - 1] ==> ms[i] == d[names[|ms| - 1]]
  {
    var n := |ms| - 1;
    if names[n] in d {
      assert names[n] in names[..n];
      var i :| 0 <= i < n && names[..n][i] == names[n];
      assert names[i] == names[n];
    }
  }

  /** `extract` on the outcome of `match_rule`: no match, or an empty one, raises. */
  function BindArgs(names: seq<string>, m: Option<seq<string>>): Result<map<string, string>, ExtractError> {
    if m.None? || |m.value| == 0 then Failure(NoMatch) else Bind(names, m.value)
  }

  // ---------------------------------------------------------------------
  // The extractor object
  // ---------------------------------------------------------------------

  /**
   * An extractor built from a trigger template: its rule text, the parsed
   * template blocks, the permissions an AV template demands and the
   * argument name of each placeholder occurrence.
   */
  class ArgExtractor {
    const template: Template
    const rule: string
    const regexPerms: Option<set<string>>
    const args: seq<string>

    ghost predicate Valid() {
      rule == RuleText(template)
      && regexPerms == RegexPerms(template)
      && args == PlaceholderNames(FindPlaceholders(rule))
    }

    constructor (t: Template)
      ensures Valid() && template == t
    {
      template := t;
      rule := RuleText(t);
      regexPerms := RegexPerms(t);
      args := PlaceholderNames(FindPlaceholders(RuleText(t)));
    }

    /** `match_rule`: the captures block by block, giving up at the first block that does not match. */
    method MatchRule(r: Rule) returns (m: Option<seq<string>>)
      requires Valid()
      ensures m == MatchSpec(template, r)
    {
      var ruleObjname: Option<string> := None;
      if r.ruletype == "type_transition" {
        if template.objname.Some? {
          if r.filename.None? {
            return None;
          }
          ruleObjname := r.filename;
        }
      } else if r.ruletype !in AvRules {
        return None;
      }
      if r.ruletype != template.kind {
        return None;
      }
      assert KindMatches(template, r);
      m := MatchBlocks(r, ruleObjname);
    }

    // The blocks of `match_rule` from the source on, appending each capture to `matches`.
    method MatchBlocks(r: Rule, ruleObjname: Option<string>) returns (m: Option<seq<string>>)
      requires Valid() && KindMatches(template, r)
      requires ruleObjname.Some? && ruleObjname.value != "" <==> CheckedObjname(template, r).Some?
      requires ruleObjname.Some? ==> ruleObjname == r.filename
      ensures m == BlocksMatch(template, r)
    {
      var matches: seq<string> := [];
      var b := FieldMatch(template.source, r.source);
      if b.None? {
        return None;
      }
      ghost var sa := b.value;
      matches := matches + b.value;
      assert matches == sa;
      b := TargetMatch(template.target, r.target, r.source);
      if b.None? {
        return None;
      }
      ghost var sb := b.value;
      matches := matches + b.value;
      assert matches == sa + sb;
      b := FieldMatch(template.tclass, r.tclass);
      if b.None? {
        return None;
      }
      ghost var sc := b.value;
      matches := matches + b.value;
      assert matches == sa + sb + sc;
      ghost var sd: seq<string> := [];
      if r.ruletype in AvRules {
        if !(regexPerms.value <= r.perms) {
          return None;
        }
        assert matches == sa + sb + sc + sd;
      } else {
        b := DefaultMatch(template.variable, r.default);
        if b.None? {
          return None;
        }
        sd := b.value;
        matches := matches + b.value;
        assert matches == sa + sb + sc + sd;
      }
      assert VariableMatch(template, r) == Some(sd);
      ghost var se: seq<string> := [];
      if ruleObjname.Some? && ruleObjname.value != "" {
        b := ObjnameMatch(template.objname.value, ruleObjname.value);
        if b.None? {
          return None;
        }
        se := b.value;
        matches := matches + b.value;
        assert matches == sa + sb + sc + sd + se;
      } else {
        assert matches == sa + sb + sc + sd + se;
      }
      assert LastMatch(template, r) == Some(se);
      ConcatRight(sa, sb, sc, sd, se);
      return Some(matches);
    }

    /** `extract`: binds the captures of a matching rule to the argument names. */
    method Extract(r: Rule) returns (res: Result<map<string, string>, ExtractError>)
      requires Valid()
      ensures res == BindArgs(args, MatchSpec(template, r))
    {
      var matches := MatchRule(r);
      if matches.None? || |matches.value| == 0 {
        return Failure(NoMatch);
      }
      var ms := matches.value;
      var retdict: map<string, string> := map[];
      var i := 0;
      while i < |ms|
        invariant 0 <= i <= |ms|
        invariant Bind(args, ms[..i]) == Success(retdict)
      {
        BindTurn(args, ms, i, retdict);
        if i >= |args| {
          return Failure(MissingName);
        }
        if args[i] in retdict {
          if retdict[args[i]] != ms[i] {
            return Failure(Inconsistent);
          }
        } else {
          retdict := retdict[args[i] := ms[i]];
        }
        i := i + 1;
      }
      assert ms[..i] == ms;
      return Success(retdict);
    }
  }

  // One turn of the loop of `extract`: what it raises, or the binding it continues with.
  lemma BindTurn(names: seq<string>, ms: seq<string>, i: nat, d: map<string, string>)
    requires i < |ms| && Bind(names, ms[..i]) == Success(d)
    ensures i >= |names| ==> Bind(names, ms) == Failure(MissingName)
    ensures i < |names| && names[i] in d && d[names[i]] != ms[i] ==> Bind(names, ms) == Failure(Inconsistent)
    ensures i < |names| && names[i] in d && d[names[i]] == ms[i] ==> Bind(names, ms[..i + 1]) == Success(d)
    ensures i < |names| && names[i] !in d ==> Bind(names, ms[..i + 1]) == Success(d[names[i] := ms[i]])
  {
    BindStep(names, ms, i, d);
    if Bind(names, ms[..i + 1]).Failure? {
      BindFailureStays(names, ms, i + 1);
    }
  }

  // The recursion of Bind, one capture further.
  lemma BindStep(names: seq<string>, ms: seq<string>, i: nat, d: map<string, string>)
    requires i < |ms| && Bind(names, ms[..i]) == Success(d)
    ensures i >= |names| ==> Bind(names, ms[..i + 1]) == Failure(MissingName)
    ensures i < |names| ==> Bind(names, ms[..i + 1]) == BindNext(d, names[i], ms[i])
  {
    assert ms[..i + 1][..i] == ms[..i];
  }

  lemma ConcatRight<T>(a: seq<T>, b: seq<T>, c: seq<T>, d: seq<T>, e: seq<T>)
    ensures a + b + c + d + e == a + (b + (c + (d + e)))
  {
  }

  /** Once the loop of `extract` raises, the later captures do not matter. */
  lemma {:induction false} BindFailureStays(names: seq<string>, ms: seq<string>, j: nat)
    requires j <= |ms| && Bind(names, ms[..j]).Failure?
    ensures Bind(names, ms) == Bind(names, ms[..j])
    decreases |ms| - j
  {
    if j < |ms| {
      assert ms[..j + 1][..j] == ms[..j];
      BindFailureStays(names, ms, j + 1);
    } else {
      assert ms[..j] == ms;
    }
  }

  // ---------------------------------------------------------------------
  // Properties of matching and extraction
  // ---------------------------------------------------------------------

  /** A literal `self` target accepts a target equal to the source as if it were `self`. */
  lemma MatchSelf(t: Template, r: Rule)
    requires t.target == Plain("self") && r.target == r.source
    ensures MatchSpec(t, r) == MatchSpec(t, r.(target := "self"))
  {
  }

  /** An AV rule granting more permissions matches exactly as the rule does. */
  lemma MatchMorePerms(t: Template, r: Rule, extra: set<string>)
    requires r.ruletype in AvRules && MatchSpec(t, r).Some?
    ensures MatchSpec(t, r.(perms := r.perms + extra)) == MatchSpec(t, r)
  {
  }

  /** A literal object name is compared without its quotes. */
  lemma MatchObjnameQuotes(t: Template, r: Rule, name: string)
    requires t.objname.Some? && t.objname.value.Plain?
    requires r.filename.Some? && r.filename.value != "" && name != ""
    requires Strip(name, {'"'}) == Strip(r.filename.value, {'"'})
    ensures MatchSpec(t, r.(filename := Some(name))) == MatchSpec(t, r)
  {
    var r2 := r.(filename := Some(name));
    assert KindMatches(t, r2) == KindMatches(t, r);
    LastMatchQuotes(t, r, name);
    SameBlocks(t, r, r2);
  }

  lemma LastMatchQuotes(t: Template, r: Rule, name: string)
    requires t.objname.Some? && t.objname.value.Plain?
    requires r.filename.Some? && r.filename.value != "" && name != ""
    requires Strip(name, {'"'}) == Strip(r.filename.value, {'"'})
    ensures LastMatch(t, r.(filename := Some(name))) == LastMatch(t, r)
  {
  }

  /** Rules that differ at most in what the object-name block sees match block for block alike. */
  lemma SameBlocks(t: Template, r: Rule, r2: Rule)
    requires r2.ruletype == r.ruletype && r2.source == r.source && r2.target == r.target
    requires r2.tclass == r.tclass && r2.perms == r.perms && r2.default == r.default
    requires LastMatch(t, r2) == LastMatch(t, r)
    ensures BlocksMatch(t, r2) == BlocksMatch(t, r)
  {
    assert VariableMatch(t, r2) == VariableMatch(t, r);
  }

  /** A template without placeholders makes `extract` raise on every rule, matching or not. */
  lemma ExtractWithoutPlaceholders(t: Template, names: seq<string>, r: Rule)
    requires |Holes(t)| == 0
    ensures BindArgs(names, MatchSpec(t, r)) == Failure(NoMatch)
  {
  }

  /** Whenever `extract` succeeds it binds argument names `argN` to `@`-free values. */
  lemma ExtractedArgsWF(t: Template, r: Rule)
    ensures var res := BindArgs(PlaceholderNames(FindPlaceholders(RuleText(t))), MatchSpec(t, r));
      res.Success? ==> ArgsWF(res.value)
  {
    var found := FindPlaceholders(RuleText(t));
    PlaceholderNamesWF(found);
    var m := MatchSpec(t, r);
    if m.Some? && |m.value| > 0 {
      BoundArgsWF(PlaceholderNames(found), m.value);
    }
  }

  // The names the extractor derives from `findall` are argument names.
  lemma PlaceholderNamesWF(found: seq<string>)
    requires forall i :: 0 <= i < |found| ==>
      7 < |found[i]| && IsDigits(found[i][5..|found[i]| - 2]) && found[i] == Token(found[i][5..|found[i]| - 2])
    ensures forall i :: 0 <= i < |found| ==> IsArgName(PlaceholderNames(found)[i])
  {
    forall i | 0 <= i < |found|
      ensures IsArgName(PlaceholderNames(found)[i])
    {
      var d := found[i][5..|found[i]| - 2];
      PlaceholderNameOf(d);
      ArgNameIs(d);
    }
  }

  // Binding argument names to captured values gives well-formed arguments.
  lemma BoundArgsWF(names: seq<string>, ms: seq<string>)
    requires forall i :: 0 <= i < |names| ==> IsArgName(names[i])
    requires ArgValues(ms)
    ensures Bind(names, ms).Success? ==> ArgsWF(Bind(names, ms).value)
  {
    var res := Bind(names, ms);
    if res.Success? {
      forall k | k in res.value
        ensures IsArgName(k) && '@' !in res.value[k]
      {
        assert k in names[..|ms|];
        var i :| 0 <= i < |ms| && names[..|ms|][i] == k;
        assert names[i] == k;
        assert res.value[k] == ms[i];
        assert ArgValue(ms[i]);
        AtNotArg(ms[i]);
      }
    }
  }

  lemma AtNotArg(v: string)
    requires AllArgChars(v)
    ensures '@' !in v
  {
    assert forall j :: 0 <= j < |v| ==> IsArgChar(v[j]);
  }

  /** Every hole of `ds` is bound in `vals` to a capturable value. */
  predicate Binds(ds: seq<string>, vals: map<string, string>) {
    forall i :: 0 <= i < |ds| ==> ArgName(ds[i]) in vals && ArgValue(vals[ArgName(ds[i])])
  }

  /** The values bound to the holes `ds`, in order. */
  function ValuesOf(ds: seq<string>, vals: map<string, string>): (vs: seq<string>)
    requires Binds(ds, vals)
    ensures |vs| == |ds| && forall i :: 0 <= i < |ds| ==> vs[i] == vals[ArgName(ds[i])]
  {
    seq(|ds|, i requires 0 <= i < |ds| && Binds(ds, vals) => vals[ArgName(ds[i])])
  }

  lemma ValuesAppend(a: seq<string>, b: seq<string>, vals: map<string, string>)
    requires Binds(a + b, vals)
    ensures Binds(a, vals) && Binds(b, vals)
    ensures ValuesOf(a + b, vals) == ValuesOf(a, vals) + ValuesOf(b, vals)
  {
    assert forall i :: 0 <= i < |a| ==> (a + b)[i] == a[i];
    assert forall i :: 0 <= i < |b| ==> (a + b)[|a| + i] == b[i];
  }

  lemma FieldMatchInstance(f: Field, vals: map<string, string>)
    requires Binds(FieldHoles(f), vals)
    ensures FieldMatch(f, FieldText(InstantiateField(f, vals))) == Some(ValuesOf(FieldHoles(f), vals))
  {
    match f
    case Plain(_) =>
    case Holed(p, d, s) =>
      assert FieldHoles(f)[0] == d;
      var v := vals[ArgName(d)];
      assert ArgValue(v);
      assert InstantiateField(f, vals) == Plain(p + v + s);
      MatchFieldExact(p, v, s);
      assert ValuesOf(FieldHoles(f), vals) == [v];
  }

  lemma TargetMatchInstance(f: Field, vals: map<string, string>, source: string)
    requires Binds(FieldHoles(f), vals)
    ensures TargetMatch(f, FieldText(InstantiateField(f, vals)), source) == Some(ValuesOf(FieldHoles(f), vals))
  {
    FieldMatchInstance(f, vals);
  }

  lemma ObjnameMatchInstance(f: Field, vals: map<string, string>)
    requires FieldWF(f) && Binds(FieldHoles(f), vals)
    ensures FieldText(InstantiateField(f, vals)) != ""
    ensures ObjnameMatch(f, FieldText(InstantiateField(f, vals))) == Some(ValuesOf(FieldHoles(f), vals))
  {
    FieldMatchInstance(f, vals);
  }

  /**
   * Matching a template against the rule it denotes once its placeholders
   * are filled in captures the filled-in values, in order.
   */
  lemma MatchInstance(t: Template, vals: map<string, string>)
    requires TemplateWF(t) && t.kind in OnlyMapRules && Binds(Holes(t), vals)
    ensures MatchSpec(t, ToRule(Instantiate(t, vals))) == Some(ValuesOf(Holes(t), vals))
  {
    var it := Instantiate(t, vals);
    var r := ToRule(it);
    var hs, ht, hc, hv, ho := FieldHoles(t.source), FieldHoles(t.target), FieldHoles(t.tclass),
      VariableHoles(t.variable), ObjnameHoles(t.objname);
    ValuesAppend(hs, ht + (hc + (hv + ho)), vals);
    ValuesAppend(ht, hc + (hv + ho), vals);
    ValuesAppend(hc, hv + ho, vals);
    ValuesAppend(hv, ho, vals);
    FieldMatchInstance(t.source, vals);
    TargetMatchInstance(t.target, vals, r.source);
    FieldMatchInstance(t.tclass, vals);
    assert KindMatches(t, r);
    assert VariableMatch(t, r) == Some(ValuesOf(hv, vals)) by {
      if t.kind in AvRules {
        PermSetOf(t.variable.perms);
      } else {
        FieldMatchInstance(t.variable.field, vals);
      }
    }
    assert LastMatch(t, r) == Some(ValuesOf(ho, vals)) by {
      if t.objname.Some? {
        ObjnameMatchInstance(t.objname.value, vals);
      }
    }
  }

  /** Binding the values of the holes to their names gives back those bindings. */
  lemma BindValues(ds: seq<string>, vals: map<string, string>)
    requires Binds(ds, vals)
    ensures Bind(ArgNames(ds), ValuesOf(ds, vals)) == Success(Restrict(vals, Elems(ArgNames(ds))))
  {
    var names, ms := ArgNames(ds), ValuesOf(ds, vals);
    assert Consistent(names, ms) by {
      forall i, j | 0 <= i < |ms| && 0 <= j < |ms| && names[i] == names[j]
        ensures ms[i] == ms[j]
      {
        assert ms[i] == vals[names[i]];
        assert ms[j] == vals[names[j]];
      }
    }
    var res := Bind(names, ms);
    assert names[..|ms|] == names;
    var want := Restrict(vals, Elems(names));
    KeysOfNames(ds, vals);
    assert res.value.Keys == want.Keys;
    forall k | k in want
      ensures res.value[k] == want[k]
    {
      var i :| 0 <= i < |names| && names[i] == k;
      assert ms[i] == vals[names[i]];
    }
    assert res.value == want;
  }

  lemma KeysOfNames(ds: seq<string>, vals: map<string, string>)
    requires Binds(ds, vals)
    ensures Restrict(vals, Elems(ArgNames(ds))).Keys == Elems(ArgNames(ds))
  {
    var names := ArgNames(ds);
    forall k | k in Elems(names)
      ensures k in vals
    {
      var i :| 0 <= i < |names| && names[i] == k;
    }
  }

  /**
   * The round trip of the missing-rule check: for a well-formed trigger
   * template with placeholders, extracting the arguments from the rule the
   * template denotes under `vals` gives back `vals` on the template's
   * argument names.
   */
  lemma ExtractInstance(t: Template, vals: map<string, string>)
    requires TemplateWF(t) && t.kind in OnlyMapRules && |Holes(t)| > 0 && Binds(Holes(t), vals)
    ensures BindArgs(PlaceholderNames(FindPlaceholders(RuleText(t))), MatchSpec(t, ToRule(Instantiate(t, vals))))
      == Success(Restrict(vals, Elems(ArgNames(Holes(t)))))
  {
    TemplateArgNames(t);
    MatchInstance(t, vals);
    BindValues(Holes(t), vals);
  }
}
