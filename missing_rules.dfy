/**
 * The missing-rule check of `plugins/unnecessary_rules.py`: the ignore-path
 * filter applied to the policy query's results, and the loop that looks up
 * every companion rule of a rule tuple once the trigger's arguments are
 * known.
 *
 * The policy query engine is a parameter: `oracle` maps a query rule, whose
 * placeholders stand for the argument regex, to the concrete rules the
 * engine reports.
 */
module MissingRules {
  import opened Text
  import opened Wrappers
  import opened Policy
  import opened Templates
  import opened ArgExtraction

  /** The exceptions the check lets escape. */
  datatype CheckError =
    | MissingSignature(signature: string)   // `KeyError` on the rule mapping
    | ExtractFailed(reason: ExtractError)   // `extract` raised

  // ---------------------------------------------------------------------
  // query_for_rule: constructing the query and filtering its results
  // ---------------------------------------------------------------------

  /** A templated field with its placeholder replaced by the argument regex. */
  function RegexField(f: Field): Field {
    match f
    case Plain(_) => f
    case Holed(p, _, s) => Plain(p + ValidArgRegex + s)
  }

  /** The query rule: the trigger with every placeholder replaced by the argument regex. */
  function QueryRule(t: Template): (q: Rule)
    ensures q.ruletype == t.kind
    ensures q.target == "self" <==> t.target == Plain("self")
  {
    ToRule(t.(source := RegexField(t.source),
              target := RegexField(t.target),
              tclass := RegexField(t.tclass),
              variable := if t.variable.Default? then Default(RegexField(t.variable.field)) else t.variable,
              objname := if t.objname.Some? then Some(RegexField(t.objname.value)) else None))
  }

  /** The results whose source and target coincide, in order. */
  function SameEnds(rs: seq<Rule>): (o: seq<Rule>)
    ensures |o| <= |rs|
    ensures forall k :: 0 <= k < |o| ==> o[k] in rs && o[k].source == o[k].target
    ensures forall k :: 0 <= k < |rs| && rs[k].source == rs[k].target ==> rs[k] in o
    decreases |rs|
  {
    if |rs| == 0 then []
    else
      var prior := SameEnds(rs[..|rs| - 1]);
      var x := rs[|rs| - 1];
      assert forall k :: 0 <= k < |rs| - 1 ==> rs[..|rs| - 1][k] == rs[k];
      if x.source == x.target then prior + [x] else prior
  }

  /** `n` copies of `x`. */
  function Repeat(x: Rule, n: nat): (o: seq<Rule>)
    ensures |o| == n && forall k :: 0 <= k < n ==> o[k] == x
  {
    seq(n, _ => x)
  }

  /**
   * How many copies of the query result `x` survive the ignore filter,
   * given the mapping entries `rls` of its signature: a rule from a single
   * line survives once when that line is not ignored, a multi-line AV rule
   * once when the non-ignored lines alone grant its permissions, and a
   * multi-line `type_transition` rule once per non-ignored line.
   */
  function Copies(x: Rule, rls: seq<MappedRule>, ignore: set<string>): (n: nat)
    ensures |rls| == 1 ==> n <= 1 && (n == 1 <==> !Ignored(rls[0].fileline, ignore))
    ensures |rls| != 1 && x.ruletype in AvRules ==> n <= 1 && (n == 1 <==>
      forall p :: p in x.perms ==>
        exists i :: 0 <= i < |rls| && !Ignored(rls[i].fileline, ignore) && p in rls[i].perms)
    ensures |rls| != 1 && x.ruletype in TeRules ==> n == CountKept(rls, ignore)
    ensures |rls| != 1 && x.ruletype !in OnlyMapRules ==> n == 0
  {
    if |rls| == 1 then (if Ignored(rls[0].fileline, ignore) then 0 else 1)
    else if x.ruletype in AvRules then (if x.perms <= CoveredPerms(rls, ignore) then 1 else 0)
    else if x.ruletype in TeRules then CountKept(rls, ignore)
    else 0
  }

  /** The loop over the (self-filtered) results: copies kept, or the signature the mapping lacks. */
  function FilterKept(results: seq<Rule>, mapping: Mapping, ignore: set<string>): (r: Result<seq<Rule>, CheckError>)
    ensures r.Failure? <==> exists k :: 0 <= k < |results| && UpToClass(results[k]) !in mapping
    ensures r.Success? ==> forall k :: 0 <= k < |r.value| ==> r.value[k] in results && UpToClass(r.value[k]) in mapping
    decreases |results|
  {
    if |results| == 0 then Success([])
    else
      var front := results[..|results| - 1];
      var prior := FilterKept(front, mapping, ignore);
      var x := results[|results| - 1];
      assert forall k :: 0 <= k < |front| ==> front[k] == results[k];
      if prior.Failure? then prior
      else if UpToClass(x) !in mapping then Failure(MissingSignature(UpToClass(x)))
      else Success(prior.value + Repeat(x, Copies(x, mapping[UpToClass(x)], ignore)))
  }

  /** The filtering half of `query_for_rule` for a query whose target is `self` or not. */
  function QueryFilter(selfTarget: bool, raw: seq<Rule>, mapping: Mapping, ignore: set<string>): (r: Result<seq<Rule>, CheckError>)
    ensures r.Success? ==> forall k :: 0 <= k < |r.value| ==>
      r.value[k] in raw && UpToClass(r.value[k]) in mapping
      && (selfTarget ==> r.value[k].source == r.value[k].target)
  {
    FilterKept(if selfTarget then SameEnds(raw) else raw, mapping, ignore)
  }

  // One turn of the filter loop: the failure it ends with, or the copies it appends.
  lemma FilterTurn(results: seq<Rule>, i: nat, mapping: Mapping, ignore: set<string>, filtered: seq<Rule>)
    requires i < |results| && FilterKept(results[..i], mapping, ignore) == Success(filtered)
    ensures UpToClass(results[i]) !in mapping ==>
      FilterKept(results, mapping, ignore) == Failure(MissingSignature(UpToClass(results[i])))
    ensures UpToClass(results[i]) in mapping ==>
      FilterKept(results[..i + 1], mapping, ignore) == Success(filtered + Repeat(results[i], Copies(results[i], mapping[UpToClass(results[i])], ignore)))
  {
    var front := results[..i + 1];
    assert front[..i] == results[..i] && front[i] == results[i];
    if UpToClass(results[i]) !in mapping {
      FilterStays(results, i + 1, mapping, ignore);
    }
  }

  lemma {:induction false} FilterStays(results: seq<Rule>, i: nat, mapping: Mapping, ignore: set<string>)
    requires i <= |results| && FilterKept(results[..i], mapping, ignore).Failure?
    ensures FilterKept(results, mapping, ignore) == FilterKept(results[..i], mapping, ignore)
    decreases |results| - i
  {
    if i < |results| {
      assert results[..i + 1][..i] == results[..i];
      FilterStays(results, i + 1, mapping, ignore);
    } else {
      assert results[..i] == results;
    }
  }

  /**
   * The body of the filter loop for one result `x` whose signature has the
   * entries `rls`: appends the copies of `x` that survive the ignore filter.
   */
  method KeepCopies(before: seq<Rule>, x: Rule, rls: seq<MappedRule>, ignore: set<string>)
    returns (filtered: seq<Rule>)
    ensures filtered == before + Repeat(x, Copies(x, rls, ignore))
  {
    filtered := before;
    if |rls| == 1 {
      if !Ignored(rls[0].fileline, ignore) {
        filtered := filtered + [x];
      }
    } else if x.ruletype in AvRules {
      var tmpset := UnignoredPerms(rls, ignore);
      if x.perms <= tmpset {
        filtered := filtered + [x];
      }
    } else if x.ruletype in TeRules {
      filtered := KeepPerLine(before, x, rls, ignore);
    }
    assert Repeat(x, 0) == [] && Repeat(x, 1) == [x];
  }

  /** The permissions of the entries not from an ignored path, merged in order. */
  method UnignoredPerms(rls: seq<MappedRule>, ignore: set<string>) returns (tmpset: set<string>)
    ensures tmpset == CoveredPerms(rls, ignore)
  {
    tmpset := {};
    var j := 0;
    while j < |rls|
      invariant 0 <= j <= |rls|
      invariant tmpset == CoveredPerms(rls[..j], ignore)
    {
      KeptTurn(rls, j, ignore);
      if !Ignored(rls[j].fileline, ignore) {
        tmpset := tmpset + rls[j].perms;
      }
      j := j + 1;
    }
    assert rls[..j] == rls;
  }

  /** A multi-line `type_transition` result is kept once per entry not from an ignored path. */
  method KeepPerLine(before: seq<Rule>, x: Rule, rls: seq<MappedRule>, ignore: set<string>)
    returns (filtered: seq<Rule>)
    ensures filtered == before + Repeat(x, CountKept(rls, ignore))
  {
    filtered := before;
    ghost var n := 0;
    var j := 0;
    while j < |rls|
      invariant 0 <= j <= |rls|
      invariant n == CountKept(rls[..j], ignore) && filtered == before + Repeat(x, n)
    {
      PerLineTurn(before, x, rls, ignore, j, n);
      if !Ignored(rls[j].fileline, ignore) {
        filtered := filtered + [x];
        n := n + 1;
      }
      j := j + 1;
    }
    assert rls[..j] == rls;
  }

  // One turn of the per-line loop: the count of kept entries, and one more copy when the entry is kept.
  lemma PerLineTurn(before: seq<Rule>, x: Rule, rls: seq<MappedRule>, ignore: set<string>, j: nat, n: nat)
    requires j < |rls| && n == CountKept(rls[..j], ignore)
    ensures Ignored(rls[j].fileline, ignore) ==> CountKept(rls[..j + 1], ignore) == n
    ensures !Ignored(rls[j].fileline, ignore) ==>
      CountKept(rls[..j + 1], ignore) == n + 1 && before + Repeat(x, n) + [x] == before + Repeat(x, n + 1)
  {
    KeptTurn(rls, j, ignore);
    assert Repeat(x, n) + [x] == Repeat(x, n + 1);
  }

  /**
   * The result filter of `query_for_rule`: drops results that do not have
   * equal source and target when the query's target is `self`, then keeps
   * the copies `Copies` allows of each result, failing on a result whose
   * signature the mapping lacks.
   */
  method FilterResults(query: Rule, raw: seq<Rule>, mapping: Mapping, ignore: set<string>)
    returns (res: Result<seq<Rule>, CheckError>)
    ensures res == QueryFilter(query.target == "self", raw, mapping, ignore)
  {
    var results := if query.target == "self" then SameEnds(raw) else raw;
    var filtered: seq<Rule> := [];
    var i := 0;
    while i < |results|
      invariant 0 <= i <= |results|
      invariant FilterKept(results[..i], mapping, ignore) == Success(filtered)
    {
      var x := results[i];
      FilterTurn(results, i, mapping, ignore, filtered);
      var rutc := UpToClass(x);
      if rutc !in mapping {
        return Failure(MissingSignature(rutc));
      }
      filtered := KeepCopies(filtered, x, mapping[rutc], ignore);
      i := i + 1;
    }
    assert results[..i] == results;
    return Success(filtered);
  }

  /** Ignoring more prefixes never keeps more copies of a result. */
  lemma CopiesAntitone(x: Rule, rls: seq<MappedRule>, small: set<string>, large: set<string>)
    requires small <= large
    ensures Copies(x, rls, large) <= Copies(x, rls, small)
  {
    CoveredPermsAntitone(rls, small, large);
    CountKeptAntitone(rls, small, large);
    if |rls| == 1 && !Ignored(rls[0].fileline, large) {
      assert !Ignored(rls[0].fileline, small);
    }
  }

  lemma RepeatSub(x: Rule, m: nat, n: nat)
    requires m <= n
    ensures multiset(Repeat(x, m)) <= multiset(Repeat(x, n))
  {
    assert Repeat(x, n) == Repeat(x, m) + Repeat(x, n - m);
  }

  /**
   * Ignoring more prefixes fails on the same results and keeps a
   * sub-multiset of the results kept before.
   */
  lemma {:induction false} FilterAntitone(results: seq<Rule>, mapping: Mapping, small: set<string>, large: set<string>)
    requires small <= large
    ensures FilterKept(results, mapping, large).Failure? == FilterKept(results, mapping, small).Failure?
    ensures FilterKept(results, mapping, large).Success? ==>
      multiset(FilterKept(results, mapping, large).value) <= multiset(FilterKept(results, mapping, small).value)
    decreases |results|
  {
    if |results| > 0 {
      var front := results[..|results| - 1];
      var x := results[|results| - 1];
      FilterAntitone(front, mapping, small, large);
      if FilterKept(front, mapping, large).Success? && UpToClass(x) in mapping {
        var rls := mapping[UpToClass(x)];
        CopiesAntitone(x, rls, small, large);
        RepeatSub(x, Copies(x, rls, large), Copies(x, rls, small));
      }
    }
  }

  // ---------------------------------------------------------------------
  // main: checking the companions of a trigger
  // ---------------------------------------------------------------------

  /** A missing companion as reported: absent, or present without some permissions. */
  datatype Missing = Absent(rule: string) | Incomplete(rule: string, perms: set<string>)

  /** The companion rule with the trigger's arguments filled in, when the trigger has placeholders. */
  function Companion(c: Template, args: Option<map<string, string>>): Template {
    if args.Some? then Instantiate(c, args.value) else c
  }

  /** Some mapping entry is written exactly as `nec`. */
  predicate TextMapped(nec: string, rls: seq<MappedRule>) {
    exists i :: 0 <= i < |rls| && rls[i].rule == nec
  }

  /**
   * The verdict on one companion with text `nec` that parses to `rule`:
   * absent when its signature is not mapped, an AV companion missing the
   * permissions that no mapped line grants, a `type_transition` companion
   * absent unless some mapped line is written exactly as it.
   */
  function CompanionMissing(nec: string, rule: Rule, mapping: Mapping): (m: Option<Missing>)
    ensures UpToClass(rule) !in mapping ==> m == Some(Absent(nec))
    ensures UpToClass(rule) in mapping && rule.ruletype in AvRules ==>
      (m.None? <==> forall p :: p in rule.perms ==>
        exists i :: 0 <= i < |mapping[UpToClass(rule)]| && p in mapping[UpToClass(rule)][i].perms)
    ensures m.Some? && m.value.Incomplete? ==>
      m.value.rule == nec && m.value.perms != {} && m.value.perms <= rule.perms
      && forall p, i :: p in m.value.perms && 0 <= i < |mapping[UpToClass(rule)]| ==>
        p !in mapping[UpToClass(rule)][i].perms
    ensures UpToClass(rule) in mapping && rule.ruletype in AvRules && m.Some? ==>
      m.value.Incomplete? && m.value.perms == rule.perms - AllPerms(mapping[UpToClass(rule)])
    ensures UpToClass(rule) in mapping && rule.ruletype in TeRules ==>
      (m.None? <==> TextMapped(nec, mapping[UpToClass(rule)]))
    ensures UpToClass(rule) in mapping && rule.ruletype !in OnlyMapRules ==> m.None?
    ensures m.Some? && m.value.Absent? ==> m.value.rule == nec
  {
    var sig := UpToClass(rule);
    if sig !in mapping then Some(Absent(nec))
    else if rule.ruletype in AvRules then
      var have := AllPerms(mapping[sig]);
      if rule.perms <= have then None
      else
        var lacking := rule.perms - have;
        assert exists p :: p in rule.perms && p !in have;
        var w :| w in rule.perms && w !in have;
        assert w in lacking;
        assert forall p, i :: p in lacking && 0 <= i < |mapping[sig]| ==> p !in mapping[sig][i].perms;
        Some(Incomplete(nec, lacking))
    else if rule.ruletype in TeRules then
      if TextMapped(nec, mapping[sig]) then None else Some(Absent(nec))
    else None
  }

  lemma NotIgnoredByNothing(rls: seq<MappedRule>)
    ensures forall i :: 0 <= i < |rls| ==> !Ignored(rls[i].fileline, {})
  {
  }

  /** The permissions granted by all mapping entries of a signature. */
  function AllPerms(rls: seq<MappedRule>): (ps: set<string>)
    ensures forall p :: p in ps <==> exists i :: 0 <= i < |rls| && p in rls[i].perms
  {
    NotIgnoredByNothing(rls);
    CoveredPerms(rls, {})
  }

  /** The merge loop over the entries of a signature, as the companion check runs it. */
  method UnionPerms(rls: seq<MappedRule>) returns (permset: set<string>)
    ensures permset == AllPerms(rls)
  {
    permset := {};
    var j := 0;
    while j < |rls|
      invariant 0 <= j <= |rls|
      invariant permset == CoveredPerms(rls[..j], {})
    {
      KeptTurn(rls, j, {});
      NotIgnoredByNothing(rls);
      permset := permset + rls[j].perms;
      j := j + 1;
    }
    assert rls[..j] == rls;
  }

  /** The verdict on companion `c`; unsupported companions are skipped. */
  function Verdict(c: Template, args: Option<map<string, string>>, mapping: Mapping): Option<Missing> {
    if !StartsWithAny(RuleText(c), OnlyMapRules) then None
    else
      var nec := Companion(c, args);
      CompanionMissing(RuleText(nec), ToRule(nec), mapping)
  }

  /** The companions of `cs` that are missing, in order. */
  function CompanionsSpec(cs: seq<Template>, args: Option<map<string, string>>, mapping: Mapping): (ms: seq<Missing>)
    ensures |ms| <= |cs|
    decreases |cs|
  {
    if |cs| == 0 then []
    else
      var prior := CompanionsSpec(cs[..|cs| - 1], args, mapping);
      var m := Verdict(cs[|cs| - 1], args, mapping);
      if m.Some? then prior + [m.value] else prior
  }

  /**
   * The body of the inner loop of `main` for one companion: skips an
   * unsupported companion, substitutes the trigger's arguments and looks
   * the result up in the mapping.
   */
  method CheckCompanion(c: Template, args: Option<map<string, string>>, mapping: Mapping)
    returns (m: Option<Missing>)
    requires TemplateWF(c)
    requires args.Some? ==> ArgsWF(args.value)
    ensures m == Verdict(c, args, mapping)
  {
    var eachRule := RuleText(c);
    if !StartsWithAny(eachRule, OnlyMapRules) {
      return None;
    }
    var necRule;
    if args.Some? {
      necRule := SubstituteArgs(eachRule, args.value);
      SubstitutedTemplate(c, args.value, necRule);
    } else {
      necRule := eachRule;
    }
    var full := ToRule(Companion(c, args));
    assert necRule == RuleText(Companion(c, args));
    var sig := UpToClass(full);
    if sig !in mapping {
      return Some(Absent(necRule));
    }
    var rls := mapping[sig];
    m := None;
    if full.ruletype in AvRules {
      var permset := UnionPerms(rls);
      if !(full.perms <= permset) {
        m := Some(Incomplete(necRule, full.perms - permset));
      }
    }
    if full.ruletype in TeRules {
      if !TextMapped(necRule, rls) {
        m := Some(Absent(necRule));
      }
    }
  }

  // The recursion of CompanionsSpec, one companion further.
  lemma CompanionsTurn(cs: seq<Template>, i: nat, args: Option<map<string, string>>, mapping: Mapping)
    requires i < |cs|
    ensures CompanionsSpec(cs[..i + 1], args, mapping) == CompanionsSpec(cs[..i], args, mapping)
      + (if Verdict(cs[i], args, mapping).Some? then [Verdict(cs[i], args, mapping).value] else [])
  {
    var front := cs[..i + 1];
    assert front[..i] == cs[..i] && front[i] == cs[i];
  }

  /** The inner loop of `main` for one trigger rule: the verdicts on its missing companions. */
  method CheckCompanions(cs: seq<Template>, args: Option<map<string, string>>, mapping: Mapping)
    returns (missing: seq<Missing>)
    requires forall k :: 0 <= k < |cs| ==> TemplateWF(cs[k])
    requires args.Some? ==> ArgsWF(args.value)
    ensures missing == CompanionsSpec(cs, args, mapping)
  {
    missing := [];
    var i := 0;
    while i < |cs|
      invariant 0 <= i <= |cs|
      invariant missing == CompanionsSpec(cs[..i], args, mapping)
    {
      CompanionsTurn(cs, i, args, mapping);
      var m := CheckCompanion(cs[i], args, mapping);
      if m.Some? {
        missing := missing + [m.value];
      }
      i := i + 1;
    }
    assert cs[..i] == cs;
  }

  // ---------------------------------------------------------------------
  // main: the loop over the rule tuples
  // ---------------------------------------------------------------------

  /** What a report is about: a query result for a templated trigger, or a literal trigger. */
  datatype Trigger = Found(rule: Rule) | Literal(text: string)

  /** One block of output: a trigger and its missing companions. */
  datatype Report = Report(trigger: Trigger, missing: seq<Missing>)

  /** The arguments `extract` takes from the query result `r` for the trigger `t0`. */
  function ExtractedArgs(t0: Template, r: Rule): Result<map<string, string>, ExtractError> {
    BindArgs(PlaceholderNames(FindPlaceholders(RuleText(t0))), MatchSpec(t0, r))
  }

  lemma PrefixMembers<T>(s: seq<T>, n: nat)
    requires n <= |s|
    ensures forall y :: y in s[..n] ==> y in s
  {
  }

  /** The report on one query result `x`, if any of its companions is missing. */
  function FoundStep(t0: Template, cs: seq<Template>, x: Rule, mapping: Mapping): (r: Result<Option<Report>, CheckError>)
    ensures r.Failure? <==> ExtractedArgs(t0, x).Failure?
    ensures r.Success? && r.value.Some? ==> r.value.value.trigger == Found(x) && |r.value.value.missing| > 0
  {
    var args := ExtractedArgs(t0, x);
    if args.Failure? then Failure(ExtractFailed(args.error))
    else
      var missing := CompanionsSpec(cs, Some(args.value), mapping);
      Success(if |missing| > 0 then Some(Report(Found(x), missing)) else None)
  }

  /** The reports for the query results `rules` of a templated trigger. */
  function FoundReports(t0: Template, cs: seq<Template>, rules: seq<Rule>, mapping: Mapping): (r: Result<seq<Report>, CheckError>)
    ensures r.Success? ==> |r.value| <= |rules| && FoundAmong(r.value, rules)
    decreases |rules|
  {
    if |rules| == 0 then Success([])
    else
      var front := rules[..|rules| - 1];
      var prior := FoundReports(t0, cs, front, mapping);
      var x := rules[|rules| - 1];
      if prior.Failure? then prior
      else
        var step := FoundStep(t0, cs, x, mapping);
        if step.Failure? then Failure(step.error)
        else if step.value.None? then
          FoundAmongSnoc(prior.value, None, rules);
          prior
        else
          FoundAmongSnoc(prior.value, step.value, rules);
          Success(prior.value + [step.value.value])
  }

  /** Every report has missing companions and is about one of the query results `rules`. */
  predicate FoundAmong(reps: seq<Report>, rules: seq<Rule>) {
    forall k :: 0 <= k < |reps| ==>
      |reps[k].missing| > 0 && reps[k].trigger.Found? && reps[k].trigger.rule in rules
  }

  // The reports found for all but the last query result, and perhaps one for the last.
  lemma FoundAmongSnoc(prior: seq<Report>, last: Option<Report>, rules: seq<Rule>)
    requires |rules| > 0 && FoundAmong(prior, rules[..|rules| - 1])
    requires last.Some? ==> |last.value.missing| > 0 && last.value.trigger == Found(rules[|rules| - 1])
    ensures FoundAmong(prior, rules)
    ensures last.Some? ==> FoundAmong(prior + [last.value], rules)
  {
    PrefixMembers(rules, |rules| - 1);
    if last.Some? {
      var reps := prior + [last.value];
      forall k | 0 <= k < |reps|
        ensures |reps[k].missing| > 0 && reps[k].trigger.Found? && reps[k].trigger.rule in rules
      {
        if k < |prior| {
          assert reps[k] == prior[k];
        }
      }
    }
  }

  lemma {:induction false} FoundStays(t0: Template, cs: seq<Template>, rules: seq<Rule>, i: nat, mapping: Mapping)
    requires i <= |rules| && FoundReports(t0, cs, rules[..i], mapping).Failure?
    ensures FoundReports(t0, cs, rules, mapping) == FoundReports(t0, cs, rules[..i], mapping)
    decreases |rules| - i
  {
    if i < |rules| {
      assert rules[..i + 1][..i] == rules[..i];
      FoundStays(t0, cs, rules, i + 1, mapping);
    } else {
      assert rules[..i] == rules;
    }
  }

  /** The reports for one rule tuple: the trigger `tuple[0]` and its companions `tuple[1..]`. */
  function TupleSpec(tuple: seq<Template>, mapping: Mapping, ignore: set<string>, oracle: Rule -> seq<Rule>)
    : (r: Result<seq<Report>, CheckError>)
    ensures |tuple| < 2 ==> r == Success([])
    ensures r.Success? ==> forall k :: 0 <= k < |r.value| ==> |r.value[k].missing| > 0
    ensures r.Success? && |tuple| > 0 ==> forall k :: 0 <= k < |r.value| && r.value[k].trigger.Found? ==>
      r.value[k].trigger.rule in oracle(QueryRule(tuple[0]))
      && (QueryRule(tuple[0]).target == "self" ==> r.value[k].trigger.rule.source == r.value[k].trigger.rule.target)
  {
    if |tuple| < 2 || !StartsWithAny(RuleText(tuple[0]), OnlyMapRules) then Success([])
    else if |FindPlaceholders(RuleText(tuple[0]))| == 0 then
      var missing := CompanionsSpec(tuple[1..], None, mapping);
      Success(if |missing| > 0 then [Report(Literal(RuleText(tuple[0])), missing)] else [])
    else
      var q := QueryRule(tuple[0]);
      if q.ruletype !in OnlyMapRules then Success([])
      else
        var rules := QueryFilter(q.target == "self", oracle(q), mapping, ignore);
        if rules.Failure? then Failure(rules.error)
        else
          var reports := FoundReports(tuple[0], tuple[1..], rules.value, mapping);
          if reports.Success? then
            FoundQueried(reports.value, rules.value, oracle(q), q.target == "self", mapping, ignore);
            reports
          else reports
  }

  // The reports on filtered query results are about results of the query.
  lemma FoundQueried(reps: seq<Report>, rules: seq<Rule>, raw: seq<Rule>, selfTarget: bool, mapping: Mapping,
                     ignore: set<string>)
    requires QueryFilter(selfTarget, raw, mapping, ignore) == Success(rules) && FoundAmong(reps, rules)
    ensures forall k :: 0 <= k < |reps| && reps[k].trigger.Found? ==>
      reps[k].trigger.rule in raw && (selfTarget ==> reps[k].trigger.rule.source == reps[k].trigger.rule.target)
  {
    forall k | 0 <= k < |reps| && reps[k].trigger.Found?
      ensures reps[k].trigger.rule in raw && (selfTarget ==> reps[k].trigger.rule.source == reps[k].trigger.rule.target)
    {
      var j :| 0 <= j < |rules| && rules[j] == reps[k].trigger.rule;
    }
  }

  /**
   * The loop of `main` over the query results of a templated trigger:
   * extracts each result's arguments and checks the companions with them.
   */
  method CheckFound(e: ArgExtractor, companions: seq<Template>, rules: seq<Rule>, mapping: Mapping)
    returns (res: Result<seq<Report>, CheckError>)
    requires e.Valid()
    requires forall k :: 0 <= k < |companions| ==> TemplateWF(companions[k])
    ensures res == FoundReports(e.template, companions, rules, mapping)
  {
    var reports: seq<Report> := [];
    var i := 0;
    while i < |rules|
      invariant 0 <= i <= |rules|
      invariant FoundReports(e.template, companions, rules[..i], mapping) == Success(reports)
    {
      var r := rules[i];
      assert rules[..i + 1][..i] == rules[..i];
      var args := e.Extract(r);
      if args.Failure? {
        FoundStays(e.template, companions, rules, i + 1, mapping);
        return Failure(ExtractFailed(args.error));
      }
      ExtractedArgsWF(e.template, r);
      var missing := CheckCompanions(companions, Some(args.value), mapping);
      if |missing| > 0 {
        reports := reports + [Report(Found(r), missing)];
      }
      i := i + 1;
    }
    assert rules[..i] == rules;
    return Success(reports);
  }

  /** One rule tuple of the loop in `main`. */
  method CheckTuple(tuple: seq<Template>, mapping: Mapping, ignore: set<string>, oracle: Rule -> seq<Rule>)
    returns (res: Result<seq<Report>, CheckError>)
    requires forall k :: 0 <= k < |tuple| ==> TemplateWF(tuple[k])
    ensures res == TupleSpec(tuple, mapping, ignore, oracle)
  {
    if |tuple| < 2 {
      return Success([]);
    }
    if !StartsWithAny(RuleText(tuple[0]), OnlyMapRules) {
      return Success([]);
    }
    var companions := tuple[1..];
    assert forall k :: 0 <= k < |companions| ==> TemplateWF(companions[k]) by {
      forall k | 0 <= k < |companions| ensures TemplateWF(companions[k]) {
        assert companions[k] == tuple[k + 1];
      }
    }
    if |FindPlaceholders(RuleText(tuple[0]))| > 0 {
      var e := new ArgExtractor(tuple[0]);
      var q := QueryRule(tuple[0]);
      if q.ruletype !in OnlyMapRules {
        return Success([]);
      }
      var found := FilterResults(q, oracle(q), mapping, ignore);
      if found.Failure? {
        return Failure(found.error);
      }
      res := CheckFound(e, companions, found.value, mapping);
    } else {
      var missing := CheckCompanions(companions, None, mapping);
      if |missing| > 0 {
        return Success([Report(Literal(RuleText(tuple[0])), missing)]);
      }
      return Success([]);
    }
  }

  /** The reports of all tuples, in order; the first escaping exception ends the check. */
  function MissingSpec(tuples: seq<seq<Template>>, mapping: Mapping, ignore: set<string>, oracle: Rule -> seq<Rule>)
    : (r: Result<seq<Report>, CheckError>)
    ensures r.Success? ==> forall k :: 0 <= k < |r.value| ==> |r.value[k].missing| > 0
    decreases |tuples|
  {
    if |tuples| == 0 then Success([])
    else
      var prior := MissingSpec(tuples[..|tuples| - 1], mapping, ignore, oracle);
      if prior.Failure? then prior
      else
        var last := TupleSpec(tuples[|tuples| - 1], mapping, ignore, oracle);
        if last.Failure? then Failure(last.error) else Success(prior.value + last.value)
  }

  lemma {:induction false} MissingStays(tuples: seq<seq<Template>>, i: nat, mapping: Mapping, ignore: set<string>,
                                        oracle: Rule -> seq<Rule>)
    requires i <= |tuples| && MissingSpec(tuples[..i], mapping, ignore, oracle).Failure?
    ensures MissingSpec(tuples, mapping, ignore, oracle) == MissingSpec(tuples[..i], mapping, ignore, oracle)
    decreases |tuples| - i
  {
    if i < |tuples| {
      assert tuples[..i + 1][..i] == tuples[..i];
      MissingStays(tuples, i + 1, mapping, ignore, oracle);
    } else {
      assert tuples[..i] == tuples;
    }
  }

  /**
   * The loop of `main` over the configured rule tuples: the reports it
   * prints, or the exception that escapes it.
   */
  method FindMissingRules(tuples: seq<seq<Template>>, mapping: Mapping, ignore: set<string>, oracle: Rule -> seq<Rule>)
    returns (res: Result<seq<Report>, CheckError>)
    requires forall i, k :: 0 <= i < |tuples| && 0 <= k < |tuples[i]| ==> TemplateWF(tuples[i][k])
    ensures res == MissingSpec(tuples, mapping, ignore, oracle)
  {
    var reports: seq<Report> := [];
    var i := 0;
    while i < |tuples|
      invariant 0 <= i <= |tuples|
      invariant MissingSpec(tuples[..i], mapping, ignore, oracle) == Success(reports)
    {
      assert tuples[..i + 1][..i] == tuples[..i];
      var found := CheckTuple(tuples[i], mapping, ignore, oracle);
      if found.Failure? {
        MissingStays(tuples, i + 1, mapping, ignore, oracle);
        return Failure(found.error);
      }
      reports := reports + found.value;
      i := i + 1;
    }
    assert tuples[..i] == tuples;
    return Success(reports);
  }

  // ---------------------------------------------------------------------
  // Properties of the check
  // ---------------------------------------------------------------------

  /** The check of a templated trigger fails when `extract` raises on one of the results. */
  lemma FoundFails(t0: Template, cs: seq<Template>, rules: seq<Rule>, mapping: Mapping, k: nat)
    requires k < |rules| && ExtractedArgs(t0, rules[k]).Failure?
    ensures FoundReports(t0, cs, rules, mapping).Failure?
  {
    var upTo := rules[..k + 1];
    assert upTo[..k] == rules[..k] && upTo[k] == rules[k];
    assert FoundStep(t0, cs, rules[k], mapping).Failure?;
    assert FoundReports(t0, cs, upTo, mapping).Failure?;
    FoundStays(t0, cs, rules, k + 1, mapping);
  }

  /** ... and only then: a failed check names a result `extract` raises on. */
  lemma {:induction false} FoundFailsOnlyIf(t0: Template, cs: seq<Template>, rules: seq<Rule>, mapping: Mapping)
    requires FoundReports(t0, cs, rules, mapping).Failure?
    ensures exists k :: 0 <= k < |rules| && ExtractedArgs(t0, rules[k]).Failure?
    decreases |rules|
  {
    var front := rules[..|rules| - 1];
    if FoundReports(t0, cs, front, mapping).Failure? {
      FoundFailsOnlyIf(t0, cs, front, mapping);
      var k :| 0 <= k < |front| && ExtractedArgs(t0, front[k]).Failure?;
      assert front[k] == rules[k];
    } else {
      assert FoundStep(t0, cs, rules[|rules| - 1], mapping).Failure?;
    }
  }

  /** A companion written in the policy exactly as required, with its permissions, is not reported. */
  lemma CompanionPresent(nec: string, rule: Rule, mapping: Mapping, i: nat)
    requires UpToClass(rule) in mapping && i < |mapping[UpToClass(rule)]|
    requires mapping[UpToClass(rule)][i].rule == nec && rule.perms <= mapping[UpToClass(rule)][i].perms
    ensures CompanionMissing(nec, rule, mapping).None?
  {
    var rls := mapping[UpToClass(rule)];
    assert TextMapped(nec, rls);
    forall p | p in rule.perms
      ensures exists j :: 0 <= j < |rls| && p in rls[j].perms
    {
      assert p in rls[i].perms;
    }
  }

  /**
   * Granting more permissions to a signature's lines never turns a present
   * AV companion into a missing one.
   */
  lemma CompanionMoreGrants(nec: string, rule: Rule, mapping: Mapping, extra: MappedRule)
    requires rule.ruletype in AvRules && UpToClass(rule) in mapping
    requires CompanionMissing(nec, rule, mapping).None?
    ensures CompanionMissing(nec, rule, mapping[UpToClass(rule) := mapping[UpToClass(rule)] + [extra]]).None?
  {
    var sig := UpToClass(rule);
    var rls := mapping[sig];
    var more: Mapping := mapping[sig := rls + [extra]];
    forall p | p in rule.perms
      ensures exists j :: 0 <= j < |more[sig]| && p in more[sig][j].perms
    {
      var j :| 0 <= j < |rls| && p in rls[j].perms;
      assert more[sig][j] == rls[j];
    }
  }

  /**
   * A query result that is the trigger with values `vals` filled in is
   * checked against the companions with the trigger's arguments bound to
   * those values: substituting and extracting are inverse.
   */
  lemma FoundInstance(t0: Template, cs: seq<Template>, vals: map<string, string>, mapping: Mapping)
    requires TemplateWF(t0) && t0.kind in OnlyMapRules && |Holes(t0)| > 0 && Binds(Holes(t0), vals)
    ensures FoundStep(t0, cs, ToRule(Instantiate(t0, vals)), mapping) ==
      var missing := CompanionsSpec(cs, Some(Restrict(vals, Elems(ArgNames(Holes(t0))))), mapping);
      Success(if |missing| > 0 then Some(Report(Found(ToRule(Instantiate(t0, vals))), missing)) else None)
  {
    ExtractInstance(t0, vals);
  }

  // ---------------------------------------------------------------------
  // The configured tuple and its worked example
  // ---------------------------------------------------------------------

  function Arg(d: string): Field {
    Holed("", d, "")
  }

  /** The configured tuple: a domain transition and the three rules it needs. */
  function TransitionTuple(): seq<Template> {
    [Template("type_transition", Arg("0"), Arg("1"), Plain("process"), Default(Arg("2")), None),
     Template("allow", Arg("0"), Arg("1"), Plain("file"), Perms(["execute"]), None),
     Template("allow", Arg("2"), Arg("1"), Plain("file"), Perms(["entrypoint"]), None),
     Template("allow", Arg("0"), Arg("2"), Plain("process"), Perms(["transition"]), None)]
  }

  /** The transition of the worked example. */
  function ExampleTransition(): Rule {
    Rule("type_transition", "initrc_t", "acct_exec_t", "process", {}, "acct_t", None)
  }

  /** A policy holding the transition and the `execute` rule, but neither of the other two companions. */
  function ExampleMapping(): Mapping {
    map["type_transition initrc_t acct_exec_t:process" :=
          [MappedRule("type_transition initrc_t acct_exec_t:process acct_t;", {}, "/policy/init.te:10")],
        "allow initrc_t acct_exec_t:file" :=
          [MappedRule("allow initrc_t acct_exec_t:file execute;", {"execute"}, "/policy/init.te:11")]]
  }

  function ExampleArgs(): map<string, string> {
    map["arg0" := "initrc_t", "arg1" := "acct_exec_t", "arg2" := "acct_t"]
  }

  lemma KindPrefix(t: Template)
    ensures StartsWith(RuleText(t), t.kind)
  {
    var rest := " " + FieldText(t.source) + " " + FieldText(t.target) + ":" + FieldText(t.tclass)
      + " " + VariableText(t.variable) + ClosingText(t.objname);
    assert RuleText(t) == t.kind + rest;
    assert (t.kind + rest)[..|t.kind|] == t.kind;
  }

  lemma ExampleNames()
    ensures ArgName("0") == "arg0" && ArgName("1") == "arg1" && ArgName("2") == "arg2"
  {
    assert "arg" + "0" == "arg0";
    assert "arg" + "1" == "arg1";
    assert "arg" + "2" == "arg2";
  }

  lemma InstantiateArg(d: string, vals: map<string, string>)
    requires ArgName(d) in vals
    ensures InstantiateField(Arg(d), vals) == Plain(vals[ArgName(d)])
  {
    assert "" + vals[ArgName(d)] + "" == vals[ArgName(d)];
  }

  /** An AV rule with one permission and no placeholders, as text and as a rule. */
  lemma PlainAllow(s: string, t: string, c: string, p: string)
    ensures RuleText(Template("allow", Plain(s), Plain(t), Plain(c), Perms([p]), None))
      == "allow " + s + " " + t + ":" + c + " " + p + ";"
    ensures ToRule(Template("allow", Plain(s), Plain(t), Plain(c), Perms([p]), None))
      == Rule("allow", s, t, c, {p}, "", None)
  {
    assert Elems([p]) == {p};
  }

  /** A companion `allow` template over two arguments, filled in. */
  lemma AllowInstance(ds: string, dt: string, c: string, p: string, vals: map<string, string>)
    requires ArgName(ds) in vals && ArgName(dt) in vals
    ensures var it := Instantiate(Template("allow", Arg(ds), Arg(dt), Plain(c), Perms([p]), None), vals);
      RuleText(it) == "allow " + vals[ArgName(ds)] + " " + vals[ArgName(dt)] + ":" + c + " " + p + ";"
      && ToRule(it) == Rule("allow", vals[ArgName(ds)], vals[ArgName(dt)], c, {p}, "", None)
  {
    InstantiateArg(ds, vals);
    InstantiateArg(dt, vals);
    PlainAllow(vals[ArgName(ds)], vals[ArgName(dt)], c, p);
  }

  lemma ExampleLookups()
    ensures ArgName("0") in ExampleArgs() && ExampleArgs()[ArgName("0")] == "initrc_t"
    ensures ArgName("1") in ExampleArgs() && ExampleArgs()[ArgName("1")] == "acct_exec_t"
    ensures ArgName("2") in ExampleArgs() && ExampleArgs()[ArgName("2")] == "acct_t"
  {
    ExampleNames();
  }

  lemma ExecuteText()
    ensures "allow " + "initrc_t" + " " + "acct_exec_t" + ":" + "file" + " " + "execute" + ";"
      == "allow initrc_t acct_exec_t:file execute;"
  {
  }

  lemma ExecuteSignature()
    ensures "allow" + " " + "initrc_t" + " " + "acct_exec_t" + ":" + "file" == "allow initrc_t acct_exec_t:file"
  {
  }

  lemma TriggerSignature()
    ensures "type_transition" + " " + "initrc_t" + " " + "acct_exec_t" + ":" + "process"
      == "type_transition initrc_t acct_exec_t:process"
  {
  }

  lemma EntrypointText()
    ensures "allow " + "acct_t" + " " + "acct_exec_t" + ":" + "file" + " " + "entrypoint" + ";"
      == "allow acct_t acct_exec_t:file entrypoint;"
  {
  }

  lemma TransitionText()
    ensures "allow " + "initrc_t" + " " + "acct_t" + ":" + "process" + " " + "transition" + ";"
      == "allow initrc_t acct_t:process transition;"
  {
  }

  lemma ExampleExecute()
    ensures RuleText(Instantiate(TransitionTuple()[1], ExampleArgs())) == "allow initrc_t acct_exec_t:file execute;"
    ensures ToRule(Instantiate(TransitionTuple()[1], ExampleArgs())) ==
      Rule("allow", "initrc_t", "acct_exec_t", "file", {"execute"}, "", None)
    ensures UpToClass(ToRule(Instantiate(TransitionTuple()[1], ExampleArgs()))) == "allow initrc_t acct_exec_t:file"
  {
    ExampleLookups();
    AllowInstance("0", "1", "file", "execute", ExampleArgs());
    ExecuteText();
    ExecuteSignature();
  }

  lemma ExampleEntrypoint()
    ensures RuleText(Instantiate(TransitionTuple()[2], ExampleArgs())) == "allow acct_t acct_exec_t:file entrypoint;"
    ensures UpToClass(ToRule(Instantiate(TransitionTuple()[2], ExampleArgs()))) !in ExampleMapping()
  {
    ExampleLookups();
    AllowInstance("2", "1", "file", "entrypoint", ExampleArgs());
    EntrypointText();
    assert |UpToClass(ToRule(Instantiate(TransitionTuple()[2], ExampleArgs())))| == 29;
  }

  lemma ExampleTransitionRule()
    ensures RuleText(Instantiate(TransitionTuple()[3], ExampleArgs())) == "allow initrc_t acct_t:process transition;"
    ensures UpToClass(ToRule(Instantiate(TransitionTuple()[3], ExampleArgs()))) !in ExampleMapping()
  {
    ExampleLookups();
    AllowInstance("0", "2", "process", "transition", ExampleArgs());
    TransitionText();
    assert |UpToClass(ToRule(Instantiate(TransitionTuple()[3], ExampleArgs())))| == 29;
  }

  lemma ExampleVerdicts()
    ensures Verdict(TransitionTuple()[1], Some(ExampleArgs()), ExampleMapping()).None?
    ensures Verdict(TransitionTuple()[2], Some(ExampleArgs()), ExampleMapping())
      == Some(Absent("allow acct_t acct_exec_t:file entrypoint;"))
    ensures Verdict(TransitionTuple()[3], Some(ExampleArgs()), ExampleMapping())
      == Some(Absent("allow initrc_t acct_t:process transition;"))
  {
    ExecuteVerdict();
    EntrypointVerdict();
    TransitionVerdict();
  }

  lemma ExecuteVerdict()
    ensures Verdict(TransitionTuple()[1], Some(ExampleArgs()), ExampleMapping()).None?
  {
    var c1 := Instantiate(TransitionTuple()[1], ExampleArgs());
    KindPrefix(TransitionTuple()[1]);
    ExampleExecute();
    CompanionPresent(RuleText(c1), ToRule(c1), ExampleMapping(), 0);
  }

  lemma EntrypointVerdict()
    ensures Verdict(TransitionTuple()[2], Some(ExampleArgs()), ExampleMapping())
      == Some(Absent("allow acct_t acct_exec_t:file entrypoint;"))
  {
    KindPrefix(TransitionTuple()[2]);
    ExampleEntrypoint();
  }

  lemma TransitionVerdict()
    ensures Verdict(TransitionTuple()[3], Some(ExampleArgs()), ExampleMapping())
      == Some(Absent("allow initrc_t acct_t:process transition;"))
  {
    KindPrefix(TransitionTuple()[3]);
    ExampleTransitionRule();
  }

  /** Three companions of which the last two are missing. */
  lemma LastTwoMissing(cs: seq<Template>, args: Option<map<string, string>>, mapping: Mapping, a: Missing, b: Missing)
    requires |cs| == 3 && Verdict(cs[0], args, mapping).None?
    requires Verdict(cs[1], args, mapping) == Some(a) && Verdict(cs[2], args, mapping) == Some(b)
    ensures CompanionsSpec(cs, args, mapping) == [a, b]
  {
    assert cs[..1][..0] == [] && cs[..2][..1] == cs[..1] && cs[..3][..2] == cs[..2] && cs[..3] == cs;
    assert CompanionsSpec(cs[..1], args, mapping) == [];
    assert CompanionsSpec(cs[..2], args, mapping) == [a];
  }

  lemma ExampleCompanions()
    ensures CompanionsSpec(TransitionTuple()[1..], Some(ExampleArgs()), ExampleMapping()) ==
      [Absent("allow acct_t acct_exec_t:file entrypoint;"), Absent("allow initrc_t acct_t:process transition;")]
  {
    var cs := TransitionTuple()[1..];
    ExampleVerdicts();
    assert cs[0] == TransitionTuple()[1] && cs[1] == TransitionTuple()[2] && cs[2] == TransitionTuple()[3];
    LastTwoMissing(cs, Some(ExampleArgs()), ExampleMapping(),
      Absent("allow acct_t acct_exec_t:file entrypoint;"), Absent("allow initrc_t acct_t:process transition;"));
  }

  lemma ExampleQuery()
    ensures QueryRule(TransitionTuple()[0]).ruletype == "type_transition"
    ensures QueryRule(TransitionTuple()[0]).target != "self"
    ensures QueryFilter(false, [ExampleTransition()], ExampleMapping(), {}) == Success([ExampleTransition()])
  {
    var r: Rule, mapping: Mapping := ExampleTransition(), ExampleMapping();
    TriggerSignature();
    assert UpToClass(r) == "type_transition initrc_t acct_exec_t:process";
    assert Copies(r, mapping[UpToClass(r)], {}) == 1;
    assert Repeat(r, 1) == [r];
    assert [r][..0] == [];
    assert FilterKept([r][..0], mapping, {}) == Success([]);
    assert FilterKept([r], mapping, {}) == Success([] + [r]);
    assert [] + [r] == [r];
  }

  lemma ExampleHoles()
    ensures Holes(TransitionTuple()[0]) == ["0", "1", "2"]
    ensures Binds(Holes(TransitionTuple()[0]), ExampleArgs())
  {
    ExampleLookups();
  }

  lemma ExampleTrigger()
    ensures Holes(TransitionTuple()[0]) == ["0", "1", "2"]
    ensures Binds(Holes(TransitionTuple()[0]), ExampleArgs())
    ensures ToRule(Instantiate(TransitionTuple()[0], ExampleArgs())) == ExampleTransition()
    ensures Restrict(ExampleArgs(), Elems(ArgNames(Holes(TransitionTuple()[0])))) == ExampleArgs()
  {
    var t0, vals := TransitionTuple()[0], ExampleArgs();
    ExampleHoles();
    ExampleLookups();
    InstantiateArg("0", vals);
    InstantiateArg("1", vals);
    InstantiateArg("2", vals);
    ExampleNames();
    assert ArgNames(["0", "1", "2"]) == ["arg0", "arg1", "arg2"];
    assert Elems(["arg0", "arg1", "arg2"]) == {"arg0", "arg1", "arg2"};
  }

  /** A single query result that is an instance of the trigger. */
  lemma FoundOne(t0: Template, cs: seq<Template>, vals: map<string, string>, mapping: Mapping, r: Rule, missing: seq<Missing>)
    requires TemplateWF(t0) && t0.kind in OnlyMapRules && |Holes(t0)| > 0 && Binds(Holes(t0), vals)
    requires ToRule(Instantiate(t0, vals)) == r && Restrict(vals, Elems(ArgNames(Holes(t0)))) == vals
    requires CompanionsSpec(cs, Some(vals), mapping) == missing && |missing| > 0
    ensures FoundReports(t0, cs, [r], mapping) == Success([Report(Found(r), missing)])
  {
    FoundInstance(t0, cs, vals, mapping);
    FoundSingle(t0, cs, r, mapping, Report(Found(r), missing));
  }

  // A single query result with a report reports just that.
  lemma FoundSingle(t0: Template, cs: seq<Template>, r: Rule, mapping: Mapping, rep: Report)
    requires FoundStep(t0, cs, r, mapping) == Success(Some(rep))
    ensures FoundReports(t0, cs, [r], mapping) == Success([rep])
  {
    assert FoundReports(t0, cs, [], mapping) == Success([]);
    FoundSnoc(t0, cs, [], r, mapping, [], rep);
    assert [] + [r] == [r] && [] + [rep] == [rep];
  }

  // The recursion of FoundReports, one query result with a report further.
  lemma FoundSnoc(t0: Template, cs: seq<Template>, rules: seq<Rule>, x: Rule, mapping: Mapping, prior: seq<Report>, rep: Report)
    requires FoundReports(t0, cs, rules, mapping) == Success(prior)
    requires FoundStep(t0, cs, x, mapping) == Success(Some(rep))
    ensures FoundReports(t0, cs, rules + [x], mapping) == Success(prior + [rep])
  {
    var all := rules + [x];
    assert all[..|all| - 1] == rules;
    assert all[|all| - 1] == x;
  }

  lemma ExampleWF()
    ensures TemplateWF(TransitionTuple()[0])
  {
  }

  lemma ExampleFound()
    ensures FoundReports(TransitionTuple()[0], TransitionTuple()[1..], [ExampleTransition()], ExampleMapping()) ==
      Success([Report(Found(ExampleTransition()),
        [Absent("allow acct_t acct_exec_t:file entrypoint;"),
         Absent("allow initrc_t acct_t:process transition;")])])
  {
    ExampleTrigger();
    ExampleCompanions();
    ExampleWF();
    FoundOne(TransitionTuple()[0], TransitionTuple()[1..], ExampleArgs(), ExampleMapping(), ExampleTransition(),
      [Absent("allow acct_t acct_exec_t:file entrypoint;"), Absent("allow initrc_t acct_t:process transition;")]);
  }

  /** A single templated tuple whose query and reports are known. */
  lemma TupleOne(tuple: seq<Template>, mapping: Mapping, ignore: set<string>, oracle: Rule -> seq<Rule>,
                 rules: seq<Rule>, reports: seq<Report>)
    requires |tuple| >= 2 && StartsWithAny(RuleText(tuple[0]), OnlyMapRules)
    requires |FindPlaceholders(RuleText(tuple[0]))| > 0 && QueryRule(tuple[0]).ruletype in OnlyMapRules
    requires QueryFilter(QueryRule(tuple[0]).target == "self", oracle(QueryRule(tuple[0])), mapping, ignore) == Success(rules)
    requires FoundReports(tuple[0], tuple[1..], rules, mapping) == Success(reports)
    ensures MissingSpec([tuple], mapping, ignore, oracle) == Success(reports)
  {
    assert TupleSpec(tuple, mapping, ignore, oracle) == Success(reports);
    assert [tuple][..0] == [];
    assert MissingSpec([tuple][..0], mapping, ignore, oracle) == Success([]);
    assert [] + reports == reports;
  }

  /** A well-formed template's text has one placeholder per hole. */
  lemma PlaceholderCount(t: Template)
    requires TemplateWF(t)
    ensures |FindPlaceholders(RuleText(t))| == |Holes(t)|
  {
    TemplateArgNames(t);
  }

  lemma ExampleTriggerText()
    ensures StartsWithAny(RuleText(TransitionTuple()[0]), OnlyMapRules)
    ensures |FindPlaceholders(RuleText(TransitionTuple()[0]))| == 3
  {
    var t0 := TransitionTuple()[0];
    KindPrefix(t0);
    ExampleWF();
    PlaceholderCount(t0);
    ExampleHoles();
  }

  /**
   * On that policy the check reports the transition once, with the
   * `entrypoint` and `transition` rules missing.
   */
  lemma ExampleReports(oracle: Rule -> seq<Rule>)
    requires forall q :: oracle(q) == [ExampleTransition()]
    ensures MissingSpec([TransitionTuple()], ExampleMapping(), {}, oracle) ==
      Success([Report(Found(ExampleTransition()),
        [Absent("allow acct_t acct_exec_t:file entrypoint;"),
         Absent("allow initrc_t acct_t:process transition;")])])
  {
    var t0 := TransitionTuple()[0];
    ExampleTriggerText();
    ExampleQuery();
    ExampleFound();
    assert oracle(QueryRule(t0)) == [ExampleTransition()];
    TupleOne(TransitionTuple(), ExampleMapping(), {}, oracle, [ExampleTransition()],
      [Report(Found(ExampleTransition()),
        [Absent("allow acct_t acct_exec_t:file entrypoint;"), Absent("allow initrc_t acct_t:process transition;")])]);
  }
}
