# SELinux policy analysis plugins, modelled in Dafny

This project models three pieces of an SELinux policy-source analysis tool and proves properties of them.

- **Missing-companion check** (`plugins/unnecessary_rules.py`). The tool is configured with rule tuples. The first rule of a tuple, the trigger, may contain positional placeholders `@@ARGn@@`. The check does four things:
  - It asks the policy query engine for every concrete rule the trigger stands for.
  - It drops results that come only from ignored source paths.
  - It extracts the placeholder values from each remaining rule (`ArgExtractor`).
  - It substitutes those values into the other rules of the tuple, the companions (`substitute_args`), and reports every companion the policy lacks. An AV companion can also be reported with the permissions it lacks.
- **Global-macro suggestions** (`plugins/global_macros.py`). For each rule signature `kind source target:class`, the plugin works in three steps:
  - It merges the permissions of the signature's non-ignored rules.
  - It scores each global macro by the share of its permissions the signature uses (`SetFitter.RichSet`).
  - It picks the best combination of exactly fitting macros (`SetFitter.fit`): the fewest uncovered permissions first, then the fewest macros.

  It then filters the suggestions against the macros already used on the same lines, groups them by line set, and builds a suggested-usage string.
- **The `te_macros` plugin** (`policysource/macro_plugins/te_macros.py`).
  - The file is cut into blocks at separator lines: `##` or more, right after an empty line.
  - Each block is classified by its definition line `# name(arg, ...)`.
  - The dictionary of macros is built from the valid blocks.

## Modules

- `Wrappers`: `Option` and `Result`.
- `Text`: string helpers.
  - prefix and suffix tests;
  - `str.replace`, `str.strip` and `str.split` without arguments;
  - `" ".join`, `upper`, `lower` and `os.path.basename`.
- `Policy`: the shared policy data.
  - concrete rules and the rule mapping;
  - ignore prefixes;
  - the permissions covered by non-ignored lines.
- `Templates`: rule templates with placeholders.
  - their text;
  - the placeholders `re.findall` finds in the text;
  - `substitute_args`.
- `ArgExtraction`: the `ArgExtractor` class (`__init__`, `match_rule`, `extract`).
- `MissingRules`:
  - the result filter of `query_for_rule`;
  - the companion loop of `main`, which also covers tuple selection;
  - the configured tuple as a worked example.
- `SetFitting`: the `RichSet` and `SetFitter` classes, and the combination search of `fit`.
- `Suggestions`: the `GlobalMacroSuggestion` record and how suggestions are grouped, sorted and printed as usage strings.
- `GlobalMacros`: the per-signature suggestion loop of `main`.
- `TeMacros`:
  - the macro definition line;
  - the `TEBlock` class;
  - `__split__`, `expects` and `parse`.

Imperative code stays imperative:
- Every loop of the source is a `method` with a `while` loop and its invariants.
- Each such method is tied by its `ensures` to a function of its inputs, and the lemmas state the source's promises about those functions.
- `ArgExtractor`, `RichSet`, `SetFitter` and `TEBlock` are classes.
- `RichSet.Incr` updates `tally`, `nonzero` and `score` in place.

## Model

| member | source | states |
|---|---|---|
| Templates.SubstituteArgs | plugins/unnecessary_rules.py:138-152 | Text without `@` comes back unchanged. With arguments named `argN` whose values contain no `@`, the result is the text with every placeholder of a bound argument replaced by its value, however the text is split into literal and placeholder pieces. |
| Templates.KeyedArgs | plugins/unnecessary_rules.py:148-150 | The keyed map has one entry `"@@" + upper(k) + "@@"` per argument `k`, holding `k`'s value. For argument names `argN` the keys are distinct, so no value is lost. |
| Templates.ReplaceRender | plugins/unnecessary_rules.py:151-152 | `str.replace` of one placeholder on well-formed template text acts exactly on the pieces that are that placeholder. It never matches across a piece boundary. |
| Templates.SubstitutedTemplate | plugins/unnecessary_rules.py:138-152 | Substituting the arguments into a well-formed template's text gives the text of the template instantiated field by field. |
| Templates.FindRender | plugins/unnecessary_rules.py:295-296 | `re.findall("@@ARG[0-9]+@@", rule)` on a well-formed template's text returns exactly its placeholders, in order, repeats included. |
| Templates.TemplateArgNames | plugins/unnecessary_rules.py:295-296 | `ArgExtractor.args` names every placeholder occurrence `argN`, from first to last, repeats included. |
| Templates.PlaceholderNameOf | plugins/unnecessary_rules.py:295-296 | `x.strip("@").lower()` of `@@ARGn@@` is `argn`. |
| Templates.ArgNameInjective | plugins/unnecessary_rules.py:295-296 | Different placeholder numbers give different argument names. |
| ArgExtraction.ArgExtractor.constructor | plugins/unnecessary_rules.py:269-296 | The extractor keeps the rule text of its template, the permission set an AV template demands (none for other kinds), and the argument names of the placeholder occurrences. |
| ArgExtraction.PermSetOf | plugins/unnecessary_rules.py:286-291 | The permission block of an AV template, braced or a single word, reads back as exactly the set of its permission words. |
| ArgExtraction.MatchField | plugins/unnecessary_rules.py:357-363 | Models prefix-anchored `re.match` of `prefix([a-zA-Z0-9_-]+)suffix` and its `group(1)`. A captured value has the field's shape and is the longest capture possible, as greedy matching gives. None means no capture exists. |
| ArgExtraction.MatchFieldExact | plugins/unnecessary_rules.py:357-363 | A field written as `prefix + v + suffix`, with `v` a valid argument, captures exactly `v`. |
| ArgExtraction.TargetMatch | plugins/unnecessary_rules.py:370-386 | A literal `self` template target matches a concrete target only when that target is `self` or equals the concrete source. |
| ArgExtraction.MatchSpec | plugins/unnecessary_rules.py:324-449 | A match requires the rule kind to equal the template kind and to be an AV or `type_transition` kind. A 6-field template against a transition without a file name gives None. An AV match requires the template's permissions to be a subset of the rule's. A `self` target matches as above. Every capture is a valid argument, one per placeholder at most. |
| ArgExtraction.ArgExtractor.MatchRule | plugins/unnecessary_rules.py:324-449 | The block-by-block comparison with its early returns computes `MatchSpec`. |
| ArgExtraction.ArgExtractor.MatchBlocks | plugins/unnecessary_rules.py:350-449 | The comparison from block 1 on, appending each capture to `matches`, computes `BlocksMatch`. |
| ArgExtraction.BlocksMatch | plugins/unnecessary_rules.py:355-449 | A match of blocks 1-5 has the template's permissions among the rule's and satisfies the `self` rule. |
| ArgExtraction.MatchSelf | plugins/unnecessary_rules.py:380-386 | Under a `self` template target, a rule whose target equals its source matches exactly as the same rule with target `self`. |
| ArgExtraction.MatchMorePerms | plugins/unnecessary_rules.py:406-413 | Granting an AV rule more permissions never changes a successful match: the template asks for a subset only. |
| ArgExtraction.MatchObjnameQuotes | plugins/unnecessary_rules.py:433-446 | Literal object names are compared after stripping `"`. Two names equal up to quotes match alike. |
| ArgExtraction.Then | plugins/unnecessary_rules.py:349-449 | The captures of two block groups combine only when both match, in order. |
| ArgExtraction.Bind | plugins/unnecessary_rules.py:298-318 | Binding succeeds exactly when there is a name for every capture and every repeated name gets one value. The result's keys are the names used, and each name maps to its captured value. |
| ArgExtraction.BindTurn | plugins/unnecessary_rules.py:304-317 | One turn of the `extract` loop. A new name is added. A repeated name with the same value leaves the map as it is. A repeated name with another value raises. |
| ArgExtraction.ArgExtractor.Extract | plugins/unnecessary_rules.py:298-322 | `extract` raises when the rule does not match, when the match list is empty, or when occurrences disagree. Otherwise it returns the consistent binding. |
| ArgExtraction.ExtractWithoutPlaceholders | plugins/unnecessary_rules.py:300-302 | For a template without placeholders the match list is empty, so `extract` always raises. |
| ArgExtraction.MatchInstance | plugins/unnecessary_rules.py:324-449 | Matching a well-formed template against the rule it denotes under given values captures exactly those values, placeholder by placeholder. |
| ArgExtraction.ExtractInstance | plugins/unnecessary_rules.py:138-152 | Substitution and extraction are inverse: `extract` on the template instantiated with `vals` returns `vals` restricted to the template's argument names. |
| MissingRules.QueryRule | plugins/unnecessary_rules.py:198-200 | The query rule has the trigger's kind and has every placeholder replaced by the argument regex. Its target is `self` exactly when the trigger's target is `self`. |
| MissingRules.SameEnds | plugins/unnecessary_rules.py:84-87 | For a `self` query, exactly the results whose source equals their target are kept. |
| MissingRules.Copies | plugins/unnecessary_rules.py:92-134 | A result from one mapped line survives once unless that line is ignored. A multi-line AV result survives once exactly when the non-ignored lines together grant all its permissions. A multi-line `type_transition` result survives once per non-ignored line. |
| Policy.CoveredPerms | plugins/unnecessary_rules.py:112-119 | A permission is covered exactly when some non-ignored mapped line grants it. |
| Policy.CountKept | plugins/unnecessary_rules.py:126-134 | Counts the non-ignored lines. It is 0 exactly when every line is ignored. |
| MissingRules.UnignoredPerms | plugins/unnecessary_rules.py:112-119 | The `tmpset` loop computes the covered permissions. |
| MissingRules.KeepCopies | plugins/unnecessary_rules.py:98-125 | The single-line and AV branches append the result as many times as it survives. |
| MissingRules.KeepPerLine | plugins/unnecessary_rules.py:126-134 | The `type_transition` branch appends the result once per non-ignored line. |
| MissingRules.FilterKept | plugins/unnecessary_rules.py:92-135 | The filter raises `KeyError`, modelled as a failure, exactly when some result's signature is not in the mapping. Every kept result is a result with a mapped signature. |
| MissingRules.QueryFilter | plugins/unnecessary_rules.py:84-135 | Every kept rule is a query result with a mapped signature. For a `self` query its source equals its target. |
| MissingRules.FilterResults | plugins/unnecessary_rules.py:84-135 | The filtering loop computes `QueryFilter`. |
| MissingRules.FilterAntitone | plugins/unnecessary_rules.py:92-135 | Ignoring more path prefixes never keeps more: the results kept are a sub-multiset and the outcome (failure or not) is unchanged. |
| Policy.CoveredPermsAntitone | plugins/unnecessary_rules.py:112-119 | Ignoring more path prefixes never covers more permissions. |
| MissingRules.CompanionMissing | plugins/unnecessary_rules.py:226-256 | An unmapped companion is reported absent. An AV companion is reported exactly when some permission of it is granted by no mapped line. It is then reported as incomplete, never absent, with exactly the companion's permissions minus the union of all mapped lines' permissions, a non-empty set. A `type_transition` companion is reported unless some mapped line is written exactly as it. Other kinds are never reported. |
| MissingRules.UnionPerms | plugins/unnecessary_rules.py:237-240 | The merged permission set holds exactly the permissions some mapped line grants. |
| MissingRules.CheckCompanion | plugins/unnecessary_rules.py:220-256 | One turn of the companion loop: unsupported companions are skipped; the others are substituted and judged as `CompanionMissing` says. |
| MissingRules.CheckCompanions | plugins/unnecessary_rules.py:220-256 | The companion loop collects the verdicts in order. |
| MissingRules.CompanionPresent | plugins/unnecessary_rules.py:235-254 | A companion written on a mapped line that grants all its permissions is not reported. |
| MissingRules.CompanionMoreGrants | plugins/unnecessary_rules.py:235-251 | An AV companion that is present stays present when the mapping gains lines. |
| MissingRules.FoundStep | plugins/unnecessary_rules.py:213-256 | Handling one query result fails exactly when `extract` raises. A report is made only when something is missing. |
| MissingRules.FoundReports | plugins/unnecessary_rules.py:213-256 | At most one report per result, each about a result with a non-empty missing list. |
| MissingRules.CheckFound | plugins/unnecessary_rules.py:213-256 | The loop over query results computes `FoundReports`. |
| MissingRules.FoundFails | plugins/unnecessary_rules.py:217 | An `extract` error on any result escapes `main`. |
| MissingRules.FoundFailsOnlyIf | plugins/unnecessary_rules.py:217 | The check fails only because of such an error. |
| MissingRules.FoundInstance | plugins/unnecessary_rules.py:213-256 | A result that is the trigger instantiated with `vals` is checked with exactly `vals` bound. |
| MissingRules.TupleSpec | plugins/unnecessary_rules.py:183-256 | Tuples shorter than two are skipped. Every report has a non-empty missing list. Every trigger reported is a result of the query, with equal source and target for a `self` query. |
| MissingRules.CheckTuple | plugins/unnecessary_rules.py:183-256 | The body of the tuple loop computes `TupleSpec`. |
| MissingRules.MissingSpec | plugins/unnecessary_rules.py:183-256 | The reports of all tuples, in order. Each report lists something missing. |
| MissingRules.FindMissingRules | plugins/unnecessary_rules.py:183-256 | The tuple loop computes `MissingSpec`. The first escaping exception ends it. |
| MissingRules.FoundOne | plugins/unnecessary_rules.py:213-256 | One matching result whose companions are missing gives exactly one report listing them. |
| MissingRules.TupleOne | plugins/unnecessary_rules.py:183-212 | A supported placeholder trigger yields exactly the reports for the filtered query results. |
| MissingRules.PlaceholderCount | plugins/unnecessary_rules.py:198 | The placeholder test on the trigger's text counts exactly the template's placeholders. |
| MissingRules.ExampleCompanions | plugins/config/unnecessary_rules.py:32-48 | In the configured example, the `execute` companion is present. The `entrypoint` and `transition` companions are reported absent. |
| MissingRules.ExampleReports | plugins/config/unnecessary_rules.py:32-48 | Worked example: with a query engine returning `type_transition initrc_t acct_exec_t:process acct_t;`, the check reports one rule with exactly two missing companions. |
| SetFitting.Fitness | plugins/global_macros.py:278-296 | The score of macro set P against s is the pair \|P∩s\| / \|P\|. The numerator never exceeds the denominator. |
| SetFitting.FitnessOne | plugins/global_macros.py:295 | A score equals 1 exactly when P is non-empty and P ⊆ s. |
| SetFitting.RichSet.constructor | plugins/global_macros.py:278-285 | A fresh entry counts every permission zero times, with `nonzero` 0 and score 0. |
| SetFitting.RichSet.Incr | plugins/global_macros.py:290-296 | The first hit on one of the set's permissions increments `nonzero` and recomputes the score. Later hits and foreign elements leave both alone. The tally of a member goes up by one. |
| SetFitting.CountStep | plugins/global_macros.py:290-296 | Counting one new element keeps `nonzero` equal to \|P∩seen\| and the score equal to its fitness. An empty P keeps score 0. |
| SetFitting.NewRichSets | plugins/global_macros.py:335-336 | One fresh, distinct entry per catalog item, in catalog order. |
| SetFitting.IncrAll | plugins/global_macros.py:339-340 | One element counted in every entry keeps every entry exact. |
| SetFitting.TallyAll | plugins/global_macros.py:338-340 | After the tally loop every entry's score is the fitness against s. |
| SetFitting.Ones | plugins/global_macros.py:341-347 | The elements whose score is exactly 1, in order. It serves for the scored catalog here and for the suggestions of a group at lines 213-217. |
| SetFitting.Partial | plugins/global_macros.py:341-347 | The elements scoring below 1, in order. It serves for the scored catalog and for a group's suggestions. |
| SetFitting.OnesPartition | plugins/global_macros.py:341-347 | The exact and the partial elements together are a permutation of the input. |
| SetFitting.OnesFit | plugins/global_macros.py:344-347 | Every macro in `ones` is a non-empty subset of s, and no macro in `part` is. |
| SetFitting.Partition | plugins/global_macros.py:341-347 | The partition loop computes `Ones` and `Partial` of the scores. |
| SetFitting.AllCombinations | plugins/global_macros.py:349-351 | The enumeration of `itertools.combinations` by increasing size. |
| SetFitting.AllCombosMembers | plugins/global_macros.py:349-351 | The combinations enumerated are exactly the non-empty increasing index sequences. |
| SetFitting.CombosComplete | plugins/global_macros.py:351 | Every increasing index sequence of size k is among the size-k combinations. |
| SetFitting.UnionMembers | plugins/global_macros.py:359-361 | A permission is in a combination's union exactly when one of its macros grants it. |
| SetFitting.CoverOf | plugins/global_macros.py:359-361 | The `c_set` loop computes the union of the combination's macros. |
| SetFitting.GroupByResidual | plugins/global_macros.py:353-370 | `extra_dim` groups the combinations by the number of permissions they leave uncovered, each group in enumeration order. |
| SetFitting.Group | plugins/global_macros.py:353-370 | Grouping gives no keys exactly when there are no combinations. Every group is non-empty. |
| SetFitting.MinKey | plugins/global_macros.py:374 | `min(extra_dim)` is a key no larger than any other. |
| SetFitting.FirstShortest | plugins/global_macros.py:375 | `min(..., key=len)` returns a shortest combination, the first of them in order. |
| SetFitting.WinnerOptimal | plugins/global_macros.py:349-377 | No non-empty combination of exact macros leaves fewer permissions uncovered than the winner. None that leaves as few has fewer macros. |
| SetFitting.WinnerShape | plugins/global_macros.py:373-377 | The winner is empty exactly when there are no exact macros. Otherwise it is a non-empty combination of them. |
| SetFitting.WinnerCovers | plugins/global_macros.py:352-375 | The winner covers as much of s as all exact macros together. |
| SetFitting.WinnerFromOnes | plugins/global_macros.py:344-375 | Every macro of the winner is an exact macro. |
| SetFitting.FitScored | plugins/global_macros.py:338-347 | Every winner macro has score 1 and every partial entry has its fitness as score. |
| SetFitting.SetFitter.constructor | plugins/global_macros.py:324-330 | The fitter keeps the catalog. |
| SetFitting.SetFitter.Fit | plugins/global_macros.py:332-378 | `fit` returns the optimal winner and the partial entries. It builds fresh entries and does not modify the catalog. |
| SetFitting.SoleCover | plugins/global_macros.py:349-377 | When exactly one exact macro covers s, the winner is that macro alone. |
| SetFitting.ExampleFewerMacros | plugins/global_macros.py:349-377 | Of `r_file`, `w_file` and `rw_file` for `{read, write, open}`, the single macro `rw_file` wins over the pair of smaller macros. |
| SetFitting.NotBelowTransitive | plugins/global_macros.py:306-322 | The score order of entries and suggestions is a total preorder: not-below is transitive. |
| SetFitting.BelowAsymmetric | plugins/global_macros.py:312-313 | Score `<` is asymmetric. |
| GlobalMacros.Catalog | plugins/global_macros.py:88-95 | The catalog holds, for each macro defined in a `global_macros` file, its name and the words of its expansion other than `{` and `}`. |
| GlobalMacros.BuildCatalog | plugins/global_macros.py:88-95 | The definition loop computes `Catalog`. |
| GlobalMacros.MacroArgsBraced | plugins/global_macros.py:92-93 | The expansion `{ p1 ... pn }` yields exactly the permissions p1..pn. |
| GlobalMacros.ByLine | plugins/global_macros.py:97-103 | A line is a key exactly when some macro is used on it. Its entry lists exactly the usages on it, in order. |
| GlobalMacros.UsagesByLine | plugins/global_macros.py:97-103 | The usage loop computes `ByLine`. |
| GlobalMacros.Kept | plugins/global_macros.py:115-120 | The filtered rules are exactly the rules not from ignored paths, in order. |
| GlobalMacros.MergedMembers | plugins/global_macros.py:121-124 | A permission is merged exactly when some kept rule's text lists it after the signature. |
| GlobalMacros.MergeRules | plugins/global_macros.py:111-124 | The merge loop computes the kept rules and their merged permissions. |
| GlobalMacros.MergedIsCovered | plugins/global_macros.py:115-124 | When the rule text lists the rule's permissions, the merged set is the set covered by non-ignored lines. |
| GlobalMacros.IgnoreUnrelated | plugins/global_macros.py:118 | An ignore prefix that no rule's line starts with changes nothing. |
| GlobalMacros.StepIs | plugins/global_macros.py:125-128 | A signature whose rules all come from ignored paths, or whose merged permissions are empty, adds no suggestion. Otherwise the fitted winner and partial entries contribute. |
| GlobalMacros.HasForeign | plugins/global_macros.py:146-150 | Detects a usage of a macro defined outside `global_macros`. |
| GlobalMacros.Unused | plugins/global_macros.py:155-159 | The winner keeps exactly its macros not already used on the line, in order. |
| GlobalMacros.RemoveUsed | plugins/global_macros.py:155-159 | The `winner.remove` loop computes `Unused`. |
| GlobalMacros.ScreenWinner | plugins/global_macros.py:137-164 | The check loop over the filtered rules decides `suggest_this` and what is left of the winner. |
| GlobalMacros.ScreenSound | plugins/global_macros.py:137-164 | A surviving winner is non-empty and part of the original. None of its macros is already used on a contributing line. |
| GlobalMacros.ScreenForeign | plugins/global_macros.py:145-153 | A contributing line using a macro of another family suppresses the full match. |
| GlobalMacros.ScreenFree | plugins/global_macros.py:139-143 | On lines without macro usages the winner survives whole. |
| GlobalMacros.AddEach | plugins/global_macros.py:166-177 | Every winner macro not ignored by the user becomes a suggestion added to its line group. |
| GlobalMacros.CheckNoUsages | plugins/global_macros.py:180-191 | Partial suggestions are allowed exactly when no contributing line uses any macro. |
| GlobalMacros.Eligibles | plugins/global_macros.py:196-198 | The candidates are exactly the partial entries that meet the threshold and are not ignored. |
| GlobalMacros.Top | plugins/global_macros.py:193-199 | The selection is a sub-multiset of the eligible entries, sorted by descending score. Its length is the smaller of `SUGGESTION_MAX_NO` and the number of eligible entries. With positive denominators, no eligible entry left out scores above one that is kept. |
| GlobalMacros.SuggestFull | plugins/global_macros.py:136-177 | The full-match branch. |
| GlobalMacros.SuggestPartial | plugins/global_macros.py:179-208 | The partial-match branch. |
| GlobalMacros.SuggestFitted | plugins/global_macros.py:132-208 | Both branches for one signature, full first. |
| GlobalMacros.SuggestOne | plugins/global_macros.py:107-208 | The loop body for one signature computes `Step`. |
| GlobalMacros.Suggest | plugins/global_macros.py:88-208 | The suggestion part of `main` computes `SuggestAll` over the catalog and the usages by line. |
| GlobalMacros.SuggestAllGood | plugins/global_macros.py:107-208 | Every collected suggestion meets these conditions, and every group is well formed: <br>• its macro is not ignored; <br>• its rules are the non-ignored rules of a supported signature and grant something; <br>• its score is the macro's fitness, 1 or at least the threshold; <br>• no contributing line uses it or a macro of another family. |
| GlobalMacros.StepGood | plugins/global_macros.py:107-208 | One signature keeps the collection good and only appends to it. |
| GlobalMacros.FullGood | plugins/global_macros.py:136-177 | The full-match branch adds only good suggestions. |
| GlobalMacros.PartGood | plugins/global_macros.py:179-208 | The partial branch adds only good suggestions. |
| GlobalMacros.AddAllGood | plugins/global_macros.py:166-177 | Adding good suggestions keeps the collection good and extends it. |
| GlobalMacros.WinnerSuggested | plugins/global_macros.py:136-177 | On lines without macro usages, every macro of the winner that is not ignored is suggested for those lines. |
| Suggestions.Add | plugins/global_macros.py:173-177 | Adding a suggestion puts it in the group of its line set, creating the group if needed. It appends only when no equal suggestion is there, keeps groups well formed (non-empty, one line set, no two equal) and leaves other groups unchanged. |
| Suggestions.NewGroup | plugins/global_macros.py:174-175 | A suggestion for new lines opens a well-formed group of its own. |
| Suggestions.AppendGrouped | plugins/global_macros.py:176-177 | Appending a suggestion with no equal in its group keeps the group well formed. |
| Suggestions.ExtendsTransitive | plugins/global_macros.py:173-208 | Suggestions are only ever appended, so extension composes across signatures. |
| Suggestions.InsertDesc | plugins/global_macros.py:196-199 | Insertion gives a permutation of the inputs and keeps descending order. |
| Suggestions.SortDesc | plugins/global_macros.py:196-199 | `sorted(..., reverse=True)` gives a permutation sorted by descending score. |
| Suggestions.SortDescStable | plugins/global_macros.py:196-199 | The sort is stable, as Python's is: the elements tied with any score keep their input order. Ties are by value, so 1/2 and 2/4 tie. |
| Suggestions.TakeBest | plugins/global_macros.py:199 | Taking the first n of a descending sequence leaves out nothing that scores above something kept. |
| Suggestions.SortedDescPairwise | plugins/global_macros.py:218 | In a sorted list no later entry scores higher than an earlier one. |
| Suggestions.SplitGroup | plugins/global_macros.py:211-218 | The loop splits a group into its score-1 suggestions, in order, and the rest sorted by descending score. Together they are a permutation of the group. |
| Suggestions.PermsOf | plugins/global_macros.py:230-232 | The union of the selected macros' permissions. |
| Suggestions.MergePerms | plugins/global_macros.py:230-232 | The merge loop computes `PermsOf`. |
| Suggestions.Listed | plugins/global_macros.py:238 | The extra permissions, each listed once in the given order. |
| Suggestions.SuggestedUsage | plugins/global_macros.py:228-241 | Builds the usage string from the extra permissions, the original set minus the union of the chosen macros: <br>• a single macro with no extras gives `rutc name;`; <br>• otherwise `rutc { names extras };`. <br>The same code serves lines 250-263. |
| Suggestions.UsageReadBack | plugins/global_macros.py:228-263 | Reading the usage string back as a rule lists exactly the chosen macro names, then the extra permissions. |
| Suggestions.ReadSingle | plugins/global_macros.py:241 | `rutc name;` reads back as the single word `name`. |
| Suggestions.ReadBraced | plugins/global_macros.py:235-239 | `rutc { w1 ... wn };` reads back as w1..wn. |
| Suggestions.ListedEmpty | plugins/global_macros.py:237 | The extras line is present exactly when there are extra permissions. |
| TeMacros.WordRunMaximal | policysource/macro_plugins/te_macros.py:30 | The word scanner stops at the first non-word character. |
| TeMacros.DefinitionWords | policysource/macro_plugins/te_macros.py:30 | A line accepted as a definition names a word starting with a letter and one or more word arguments. |
| TeMacros.DefinitionRoundTrip | policysource/macro_plugins/te_macros.py:30 | `# name(a1, ..., an)` is accepted as a definition with exactly that name and those arguments. |
| TeMacros.ArgListJoin | policysource/macro_plugins/te_macros.py:30 | An argument list joined with `, ` and closed by `)` reads back as that list. |
| TeMacros.DefinitionTokens | policysource/macro_plugins/te_macros.py:54-58 | Splitting an accepted line at `\W+` and dropping empty tokens gives the name, then the arguments. |
| TeMacros.ArgTokens | policysource/macro_plugins/te_macros.py:56 | The tokens of an argument list are its arguments. |
| TeMacros.CommentLinesMembers | policysource/macro_plugins/te_macros.py:61-65 | The comments are exactly the lines starting with `#`. |
| TeMacros.TEBlock.constructor | policysource/macro_plugins/te_macros.py:37-65 | The block keeps start, end and content. The block is valid exactly when it has a second line that is a definition line. A valid block's name and arguments are that line's. The comments are exactly the lines after the first that start with `#`. |
| TeMacros.NewBlock | policysource/macro_plugins/te_macros.py:45-50 | The sanity check raises `ValueError` exactly when `start + len(content) != end`; otherwise the block is built. |
| TeMacros.LinePositions | policysource/macro_plugins/te_macros.py:67-95 | `start()` is the index plus one in line numbers. `end()` adds one for line numbers and subtracts one when inclusive. Every convention spans the block's length. |
| TeMacros.CutsBelowIff | policysource/macro_plugins/te_macros.py:156-172 | Before line i, a cut falls exactly at the separators that follow an empty line. |
| TeMacros.CutsIff | policysource/macro_plugins/te_macros.py:156-172 | A block starts at index j > 0 exactly where line j matches `^##+$` and line j-1 is empty. |
| TeMacros.Bounds | policysource/macro_plugins/te_macros.py:153-178 | The block boundaries start at 0 and end at the number of lines, with at least one block. |
| TeMacros.SplitBlocks | policysource/macro_plugins/te_macros.py:156-172 | Every inner boundary is a separator after an empty line, and no line inside a block is one. |
| TeMacros.SplitCovers | policysource/macro_plugins/te_macros.py:151-178 | The blocks' contents, concatenated, give back the file's lines. |
| TeMacros.BoundsAt | policysource/macro_plugins/te_macros.py:165-175 | Block k is `lines[b_k:b_(k+1)]`. |
| TeMacros.SplitLine | policysource/macro_plugins/te_macros.py:156-172 | One turn of the loop keeps the split state: <br>• blocks so far; <br>• `start` at the last cut; <br>• `previous_is_empty` meaning the last line was empty. |
| TeMacros.Split | policysource/macro_plugins/te_macros.py:151-178 | `__split__` returns at least one block. The blocks are contiguous from 0 to `len(file_lines)`, each end equal to the next start. Each block holds exactly its slice of the lines. |
| TeMacros.BasenameOf | policysource/macro_plugins/te_macros.py:145 | A path that is `w`, or ends in `/w`, has base name `w` when `w` contains no `/`. |
| TeMacros.ExpectsIff | policysource/macro_plugins/te_macros.py:143-148 | `expects` is true exactly when the path ends with the component `te_macros`. |
| TeMacros.ParseTurn | policysource/macro_plugins/te_macros.py:196-214 | One block of the `parse` loop: an invalid block or a failing expansion adds nothing; otherwise the macro is stored under its name. |
| TeMacros.AddBlock | policysource/macro_plugins/te_macros.py:196-214 | The loop body computes `ParseTurn`'s step. |
| TeMacros.Parse | policysource/macro_plugins/te_macros.py:181-215 | `parse` computes `ParseSpec`: the file's blocks, split as above, folded in order. |
| TeMacros.ParseFails | policysource/macro_plugins/te_macros.py:186-187 | `parse` raises `ValueError` exactly when `expects` rejects the path. |
| TeMacros.ParseKeys | policysource/macro_plugins/te_macros.py:196-215 | A name is in the dictionary exactly when some valid block defines it and its macro expands. |
| TeMacros.ParseLatest | policysource/macro_plugins/te_macros.py:196-215 | Each entry is the macro of the last valid, expanding block with that name, defined in the parsed file. |
| TeMacros.CollectLast | policysource/macro_plugins/te_macros.py:214 | A later block with the same name replaces an earlier one. |
| TeMacros.DefinitionCheckAsWritten | policysource/macro_plugins/te_macros.py:52 | As written, the definition check raises when the block has fewer than two lines. Otherwise it tests the second line. |
| TeMacros.EmptyFileRaisesAsWritten | policysource/macro_plugins/te_macros.py:151-178 | An empty file splits into one empty block, whose definition check at line 52 raises. |
| TeMacros.TrailingSeparatorRaisesAsWritten | policysource/macro_plugins/te_macros.py:151-178 | A file ending in a separator splits into a one-line last block, whose definition check at line 52 raises. |
| TeMacros.ShortBlocksSkipped | policysource/macro_plugins/te_macros.py:52-60 | Corrected behaviour: a block of fewer than two lines is invalid and defines no macro. |

## Left out

- The construction and execution of the policy query (plugins/unnecessary_rules.py:44-82) come from a foreign engine. They are the `oracle` parameter, applied to the trigger with its placeholders replaced by the argument regex. The query's optional fields and regex flags are not modelled.
- The rule parser and rule factory of `policysource.mapping`, and the `policy.mapping`, `macro_defs` and `macro_usages` objects, are not part of this model.
  - Rules arrive already parsed: `Policy.Rule`, `Policy.MappedRule`, `GlobalMacros.MacroDef`, `GlobalMacros.MacroUsage`.
  - Templates arrive as `Templates.Template`, one field per rule block.
- The general regex engine is replaced by specific code:
  - Each templated field is literal text around one placeholder, captured over `[a-zA-Z0-9_-]+` with the prefix anchoring of `re.match` and greedy backtracking.
  - `\w` and `\s` in the definition regex are ASCII only.
- Placeholder-free triggers follow the code: the companions are checked once, unconditionally. The trigger itself is not looked up.
- Printing and logging are left out (plugins/unnecessary_rules.py:257-262, plugins/global_macros.py:219-267 and the `LOG` calls). The usage strings and the missing-rule reports are computed but not printed.
- `os.path.abspath` and `os.path.join` for the ignore paths are left out. The ignore paths are a set of string prefixes.
- `NON_IGNORED_MAPPING` is written but never read, so it is dropped.
- Dict and set iteration order is an explicit input sequence. This covers the catalog order in `fit`, the order of extra permissions in a usage string, and the substitution order. The winner of `fit` is the one exception; see the next line.
- SetFitting.FitWinner: the winner is a Python `set` (plugins/global_macros.py:357 and 375), shrunk by `winner.remove` (155-159) and iterated at 166. Its iteration order comes from hashes. The model fixes that order to increasing catalog index, which is the combination's own order. From there it is neither an input nor a free choice.
- GlobalMacros.AddEach: the winner's macros join their line group in that combination order, so the order of names after "Full match:" and inside `rutc { a b };` is one of the orders Python may print. `UsageReadBack` and `SplitGroup` are proved for that one order, and the set of names they state does not depend on it.
- The float score becomes the rational pair `nonzero/size`, so equality with 1 is exact. `SUGGESTION_THRESHOLD` is then a ratio.
- The configuration constants are fields of `GlobalMacros.Config` and are not fixed to the configured values: `SUPPORTED_RULE_TYPES`, `USAGES_IGNORE`, `SUGGESTION_THRESHOLD`, `SUGGESTION_MAX_NO` and `RULE_IGNORE_PATHS`.
- Reading the `te_macros` file and building `M4Macro` are left out. The file arrives as its lines, and m4 expansion is the `expands` predicate. The `M4MacroError` message is not modelled.
- The `mdl`, `nargs`, `__len__` and `__repr__` accessors of `TEBlock`, and `__repr__`/`__hash__` of the suggestion and rich-set classes, are not modelled.
- `plugins/global_macros.py` outside lines 72-378 is not part of this model, and neither is `policysource/macro_plugins/global_macros.py`.
- MissingRules.CompanionMissing: the "missing" permissions are reported as a set. The space-joined string, whose order is set iteration order, is not built.
- MissingRules.CompanionMissing: a `type_transition` companion counts as present when some mapped line has exactly its text. The `MappedRule` equality behind `not in` is not part of this model.
- Templates.SubstituteArgs: the result is characterised only when the arguments have the shape `extract` produces (names `argN`, values without `@`) or when the text has no `@`. For other maps `str.replace` may rewrite text produced by an earlier replacement.
- MissingRules.CheckCompanion, MissingRules.CheckFound, MissingRules.CheckTuple and MissingRules.FindMissingRules require well-formed templates. Each field holds at most one placeholder, the literals are identifier-like, and the permission block holds literal words only, never a placeholder. That is what the configured tuples look like. An AV companion with a placeholder among its permissions, which `substitute_args` would fill in, cannot be expressed.
- GlobalMacros.MergedIsCovered: the permissions come from the rule text after the signature, as the source does. The lemma ties them to the parsed permission sets only when the two agree.

## Findings

| source | as written | input that shows it | evidently intended | confidence | as-written member | corrected member |
|---|---|---|---|---|---|---|
| policysource/macro_plugins/te_macros.py:52 | The block constructor reads `content[1]` unconditionally, so a block of fewer than two lines raises `IndexError` and aborts `parse`. | The empty file (one empty block), or `["##", "# m(a)", "", "##"]`, whose last block is the single line `##`. | A block without a definition line is invalid and skipped, like any other bad block. | not executed | TeMacros.DefinitionCheckAsWritten, TeMacros.EmptyFileRaisesAsWritten, TeMacros.TrailingSeparatorRaisesAsWritten | TeMacros.ShortBlocksSkipped, TeMacros.TEBlock.constructor |
