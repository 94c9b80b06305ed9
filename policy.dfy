/**
 * The policy data both analysis plugins read: concrete rules as the policy
 * query engine reports them, and the rule mapping, which sends a rule's
 * signature (everything up to and including the class) to the source lines
 * that contribute to it.
 */
module Policy {
  import opened Text
  import opened Wrappers

  /** The access-vector rule kinds. */
  const AvRules: set<string> := {"allow", "auditallow", "dontaudit", "neverallow"}

  /** The type-enforcement rule kinds the plugins support. */
  const TeRules: set<string> := {"type_transition"}

  /** Every rule kind that appears in the rule mapping. */
  const OnlyMapRules: set<string> := AvRules + TeRules

  /**
   * A concrete rule. An AV rule carries a permission set, a
   * `type_transition` rule a default type and, for a name transition,
   * the object name.
   */
  datatype Rule = Rule(
    ruletype: string,
    source: string,
    target: string,
    tclass: string,
    perms: set<string>,
    default: string,
    filename: Option<string>)

  /** The signature `kind source target:class` of a rule. */
  function UpToClass(r: Rule): string {
    r.ruletype + " " + r.source + " " + r.target + ":" + r.tclass
  }

  /**
   * One source line contributing to a signature: the rule text written
   * there, the permissions it grants (empty for a `type_transition` rule)
   * and its provenance `file:line`.
   */
  datatype MappedRule = MappedRule(rule: string, perms: set<string>, fileline: string)

  type Mapping = map<string, seq<MappedRule>>

  /** A provenance lies under an ignored path when it starts with one of the prefixes. */
  predicate Ignored(fileline: string, prefixes: set<string>) {
    StartsWithAny(fileline, prefixes)
  }

  /** The permissions granted by the entries that do not come from an ignored path. */
  function CoveredPerms(rls: seq<MappedRule>, ignore: set<string>): (ps: set<string>)
    ensures forall p :: p in ps <==>
      exists i :: 0 <= i < |rls| && !Ignored(rls[i].fileline, ignore) && p in rls[i].perms
    decreases |rls|
  {
    if |rls| == 0 then {}
    else
      var last := rls[|rls| - 1];
      var prior := CoveredPerms(rls[..|rls| - 1], ignore);
      if Ignored(last.fileline, ignore) then prior else prior + last.perms
  }

  /** The number of entries that do not come from an ignored path. */
  function CountKept(rls: seq<MappedRule>, ignore: set<string>): (n: nat)
    ensures n <= |rls|
    ensures n == 0 <==> forall i :: 0 <= i < |rls| ==> Ignored(rls[i].fileline, ignore)
    decreases |rls|
  {
    if |rls| == 0 then 0
    else
      var last := rls[|rls| - 1];
      var prior := CountKept(rls[..|rls| - 1], ignore);
      if Ignored(last.fileline, ignore) then prior else prior + 1
  }

  // The recursions of CoveredPerms and CountKept, one entry further.
  lemma KeptTurn(rls: seq<MappedRule>, j: nat, ignore: set<string>)
    requires j < |rls|
    ensures CoveredPerms(rls[..j + 1], ignore) ==
      if Ignored(rls[j].fileline, ignore) then CoveredPerms(rls[..j], ignore) else CoveredPerms(rls[..j], ignore) + rls[j].perms
    ensures CountKept(rls[..j + 1], ignore) ==
      if Ignored(rls[j].fileline, ignore) then CountKept(rls[..j], ignore) else CountKept(rls[..j], ignore) + 1
  {
    var front := rls[..j + 1];
    assert front[..j] == rls[..j] && front[j] == rls[j];
  }

  /** Ignoring more prefixes never keeps more permissions. */
  lemma {:induction false} CoveredPermsAntitone(rls: seq<MappedRule>, small: set<string>, large: set<string>)
    requires small <= large
    ensures CoveredPerms(rls, large) <= CoveredPerms(rls, small)
  {
    forall p | p in CoveredPerms(rls, large)
      ensures p in CoveredPerms(rls, small)
    {
      var i :| 0 <= i < |rls| && !Ignored(rls[i].fileline, large) && p in rls[i].perms;
      assert !Ignored(rls[i].fileline, small);
    }
  }

  /** Ignoring more prefixes never keeps more entries. */
  lemma {:induction false} CountKeptAntitone(rls: seq<MappedRule>, small: set<string>, large: set<string>)
    requires small <= large
    ensures CountKept(rls, large) <= CountKept(rls, small)
    decreases |rls|
  {
    if |rls| > 0 {
      CountKeptAntitone(rls[..|rls| - 1], small, large);
      var last := rls[|rls| - 1];
      if !Ignored(last.fileline, large) {
        assert !Ignored(last.fileline, small);
      }
    }
  }
}
