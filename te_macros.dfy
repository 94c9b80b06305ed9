/**
 * The macro plugin for the `te_macros` file of an SELinux policy: the file
 * is cut into blocks at separator lines (`##` or more, following an empty
 * line), the second line of each block declares a macro as
 * `# name(arg0, arg1, ...)`, and every block whose declaration is well
 * formed and whose macro expands becomes an entry of the macro dictionary.
 */
module TeMacros {
  import opened Wrappers
  import opened Text

  /** `MACRO_FILE`: the only file name the plugin handles. */
  const MacroFile: string := "te_macros"

  // ---------------------------------------------------------------------
  // The macro definition line, `MDL`
  // `^#\s[a-zA-Z][a-zA-Z0-9_]*\((?:[a-zA-Z0-9_]+,\s?)*(?:[a-zA-Z0-9_]+)\)$`
  // ---------------------------------------------------------------------

  /** A non-empty run of `[a-zA-Z0-9_]`. */
  predicate IsWord(w: string) {
    |w| > 0 && forall i :: 0 <= i < |w| ==> IsWordChar(w[i])
  }

  /** What a regular expression's `$` accepts as the rest of the line: nothing, or one final newline. */
  predicate LineEnd(s: string) {
    s == "" || s == "\n"
  }

  /** The length of the leading run of `[a-zA-Z0-9_]` characters of `s`. */
  function WordRun(s: string): (n: nat)
    ensures n <= |s|
  {
    if |s| == 0 || !IsWordChar(s[0]) then 0 else WordRun(s[1..]) + 1
  }

  /** The run is maximal: it holds only word characters and is not followed by one. */
  lemma {:induction false} WordRunMaximal(s: string)
    ensures forall i :: 0 <= i < WordRun(s) ==> IsWordChar(s[i])
    ensures WordRun(s) < |s| ==> !IsWordChar(s[WordRun(s)])
    decreases |s|
  {
    if |s| > 0 && IsWordChar(s[0]) {
      WordRunMaximal(s[1..]);
      assert forall i :: 1 <= i < WordRun(s) ==> s[i] == s[1..][i - 1];
    }
  }

  /**
   * The part of `MDL` after the opening parenthesis,
   * `(?:[a-zA-Z0-9_]+,\s?)*(?:[a-zA-Z0-9_]+)\)$`: the argument names, or
   * None when `s` does not match.
   */
  function ArgList(s: string): Option<seq<string>>
    decreases |s|
  {
    var n := WordRun(s);
    if n == 0 || n == |s| then None
    else if s[n] == ')' then
      if LineEnd(s[n + 1..]) then Some([s[..n]]) else None
    else if s[n] == ',' then
      var rest := s[n + 1..];
      var after := if |rest| > 0 && IsSpace(rest[0]) then rest[1..] else rest;
      match ArgList(after)
      case None => None
      case Some(tail) => Some([s[..n]] + tail)
    else None
  }

  /**
   * `re.match(MDL, line)`: the macro name and its argument names when
   * `line` is a macro definition line, None otherwise.
   */
  function Definition(line: string): Option<(string, seq<string>)> {
    if |line| < 3 || line[0] != '#' || !IsSpace(line[1]) || !IsLetter(line[2]) then None
    else
      var t := line[2..];
      var n := WordRun(t);
      if n == |t| || t[n] != '(' then None
      else
        match ArgList(t[n + 1..])
        case None => None
        case Some(args) => Some((t[..n], args))
  }

  /** The leading run of a string that starts with a word character is a word. */
  lemma WordPrefix(s: string)
    requires WordRun(s) > 0
    ensures IsWord(s[..WordRun(s)])
  {
    WordRunMaximal(s);
    assert forall i :: 0 <= i < WordRun(s) ==> s[..WordRun(s)][i] == s[i];
  }

  /** Every name in `xs` is a word. */
  predicate AllWords(xs: seq<string>) {
    forall i :: 0 <= i < |xs| ==> IsWord(xs[i])
  }

  lemma AllWordsCons(x: string, xs: seq<string>)
    requires IsWord(x) && AllWords(xs)
    ensures AllWords([x] + xs)
  {
    assert forall i :: 1 <= i < |xs| + 1 ==> ([x] + xs)[i] == xs[i - 1];
  }

  /** A matching argument list names at least one argument, and every name is a word. */
  lemma {:induction false} ArgListWords(s: string)
    requires ArgList(s).Some?
    ensures |ArgList(s).value| > 0 && AllWords(ArgList(s).value)
    decreases |s|
  {
    var n := WordRun(s);
    WordPrefix(s);
    if s[n] == ',' {
      var rest := s[n + 1..];
      var after := if |rest| > 0 && IsSpace(rest[0]) then rest[1..] else rest;
      ArgListWords(after);
      AllWordsCons(s[..n], ArgList(after).value);
    }
  }

  /**
   * A definition line names its macro with a word that starts with a
   * letter, and declares at least one argument, every one a word.
   */
  lemma DefinitionWords(line: string)
    requires Definition(line).Some?
    ensures IsWord(Definition(line).value.0) && IsLetter(Definition(line).value.0[0])
    ensures |Definition(line).value.1| > 0 && AllWords(Definition(line).value.1)
  {
    var t := line[2..];
    assert t[0] == line[2];
    WordPrefix(t);
    ArgListWords(t[WordRun(t) + 1..]);
  }

  /** `[x for x in re.split(r'\W+', s) if x]`: the maximal runs of `[a-zA-Z0-9_]` in `s`, in order. */
  function WordTokens(s: string): seq<string>
    decreases |s|
  {
    if |s| == 0 then []
    else if !IsWordChar(s[0]) then WordTokens(s[1..])
    else
      var n := WordRun(s);
      [s[..n]] + WordTokens(s[n..])
  }

  /** The canonical definition line of a macro, `# name(arg0, arg1, ...)`. */
  function DefinitionLine(name: string, args: seq<string>): string {
    "# " + name + "(" + Join(args, ", ") + ")"
  }

  lemma {:induction false} WordRunOf(w: string, rest: string)
    requires IsWord(w) && (|rest| == 0 || !IsWordChar(rest[0]))
    ensures WordRun(w + rest) == |w|
    decreases |w|
  {
    var s := w + rest;
    assert s[0] == w[0];
    if |w| > 1 {
      assert s[1..] == w[1..] + rest;
      assert IsWord(w[1..]) by {
        forall i | 0 <= i < |w[1..]| ensures IsWordChar(w[1..][i]) {
          assert w[1..][i] == w[i + 1];
        }
      }
      WordRunOf(w[1..], rest);
    } else {
      assert s[1..] == rest;
    }
  }

  lemma ArgListClose(a: string)
    requires IsWord(a)
    ensures ArgList(a + ")") == Some([a])
  {
    var s := a + ")";
    WordRunOf(a, ")");
    assert s[..|a|] == a && s[|a|] == ')' && s[|a| + 1..] == "";
  }

  lemma ArgListComma(a: string, j: string)
    requires IsWord(a) && ArgList(j).Some?
    ensures ArgList(a + ", " + j) == Some([a] + ArgList(j).value)
  {
    CommaRun(a, j);
    CommaPieces(a, j);
  }

  lemma CommaRun(a: string, j: string)
    requires IsWord(a)
    ensures WordRun(a + ", " + j) == |a|
  {
    WordRunOf(a, ", " + j);
    Associative(a, ", ", j);
  }

  lemma CommaPieces(a: string, j: string)
    ensures (a + ", " + j)[..|a|] == a && (a + ", " + j)[|a|] == ','
    ensures (a + ", " + j)[|a| + 1..] == " " + j && (" " + j)[1..] == j
  {
  }

  lemma Associative(a: string, b: string, c: string)
    ensures a + b + c == a + (b + c)
  {
  }

  /** The argument list of a canonical definition line reads back as the argument names. */
  lemma {:induction false} ArgListJoin(args: seq<string>)
    requires |args| > 0 && forall i :: 0 <= i < |args| ==> IsWord(args[i])
    ensures ArgList(Join(args, ", ") + ")") == Some(args)
    decreases |args|
  {
    if |args| == 1 {
      ArgListClose(args[0]);
      assert Join(args, ", ") == args[0] && args == [args[0]];
    } else {
      assert forall i :: 0 <= i < |args[1..]| ==> IsWord(args[1..][i]);
      ArgListJoin(args[1..]);
      ArgListJoinStep(args[0], args[1..]);
      assert [args[0]] + args[1..] == args;
    }
  }

  lemma ArgListJoinStep(a: string, rest: seq<string>)
    requires IsWord(a) && |rest| > 0 && ArgList(Join(rest, ", ") + ")") == Some(rest)
    ensures ArgList(Join([a] + rest, ", ") + ")") == Some([a] + rest)
  {
    JoinCons(a, rest);
    ArgListComma(a, Join(rest, ", ") + ")");
  }

  lemma JoinCons(a: string, rest: seq<string>)
    requires |rest| > 0
    ensures Join([a] + rest, ", ") + ")" == a + ", " + (Join(rest, ", ") + ")")
  {
    var args := [a] + rest;
    assert args[0] == a && args[1..] == rest;
    assert Join(args, ", ") == a + ", " + Join(rest, ", ");
    Associative(a + ", ", Join(rest, ", "), ")");
  }

  /** A canonical definition line of a well-formed name and argument list is recognised, with the same name and arguments. */
  lemma DefinitionRoundTrip(name: string, args: seq<string>)
    requires IsWord(name) && IsLetter(name[0])
    requires |args| > 0 && forall i :: 0 <= i < |args| ==> IsWord(args[i])
    ensures Definition(DefinitionLine(name, args)) == Some((name, args))
  {
    var line := DefinitionLine(name, args);
    var tail := Join(args, ", ") + ")";
    assert line == "# " + (name + ("(" + tail));
    var t := line[2..];
    assert t == name + ("(" + tail);
    WordRunOf(name, "(" + tail);
    assert t[..|name|] == name && t[|name|] == '(' && t[|name| + 1..] == tail;
    ArgListJoin(args);
  }

  lemma TokensSkip(s: string)
    requires |s| > 0 && !IsWordChar(s[0])
    ensures WordTokens(s) == WordTokens(s[1..])
  {
  }

  lemma TokensRun(s: string, n: nat)
    requires |s| > 0 && IsWordChar(s[0]) && n == WordRun(s)
    ensures WordTokens(s) == [s[..n]] + WordTokens(s[n..])
  {
  }

  /** Splitting a matching argument list on non-word characters gives the argument names. */
  lemma {:induction false} ArgTokens(s: string)
    requires ArgList(s).Some?
    ensures WordTokens(s) == ArgList(s).value
    decreases |s|
  {
    var n := WordRun(s);
    TokensRun(s, n);
    var u := s[n..];
    assert u[0] == s[n];
    if s[n] == ')' {
      TokensSkip(u);
      if |u| == 2 {
        assert u[1..][0] == '\n';
        TokensSkip(u[1..]);
        assert u[1..][1..] == [];
      } else {
        assert u[1..] == [];
      }
    } else {
      var rest := s[n + 1..];
      TokensSkip(u);
      assert u[1..] == rest;
      var after := if |rest| > 0 && IsSpace(rest[0]) then rest[1..] else rest;
      if |rest| > 0 && IsSpace(rest[0]) {
        TokensSkip(rest);
      }
      ArgTokens(after);
    }
  }

  /**
   * On a definition line, the tokens of `re.split(r'\W+', line)` that are
   * not empty are the macro name followed by its argument names: the
   * constructor's `definition[0]` and `definition[1:]`.
   */
  lemma DefinitionTokens(line: string)
    requires Definition(line).Some?
    ensures WordTokens(line) == [Definition(line).value.0] + Definition(line).value.1
  {
    TokensSkip(line);
    assert line[1..][0] == line[1];
    TokensSkip(line[1..]);
    var t := line[2..];
    assert line[1..][1..] == t;
    var n := WordRun(t);
    TokensRun(t, n);
    var u := t[n..];
    assert u[0] == '(';
    TokensSkip(u);
    assert u[1..] == t[n + 1..];
    ArgTokens(t[n + 1..]);
  }

  // ---------------------------------------------------------------------
  // Blocks
  // ---------------------------------------------------------------------

  /** `re.match(BLK_SEP, line)` with `BLK_SEP` = `^##+$`: two or more `#` and nothing else. */
  predicate IsSeparator(line: string) {
    var core := if |line| > 0 && line[|line| - 1] == '\n' then line[..|line| - 1] else line;
    |core| >= 2 && forall i :: 0 <= i < |core| ==> core[i] == '#'
  }

  /** `content[1:]`: every line but the first. */
  function AfterFirst(content: seq<string>): seq<string> {
    if |content| == 0 then [] else content[1..]
  }

  /** The lines of `ls` that start with `#`, in order. */
  function CommentLines(ls: seq<string>): seq<string> {
    if |ls| == 0 then []
    else CommentLines(ls[..|ls| - 1]) + (if StartsWith(ls[|ls| - 1], "#") then [ls[|ls| - 1]] else [])
  }

  /** The comments of a block are exactly its lines after the first that start with `#`. */
  lemma {:induction false} CommentLinesMembers(ls: seq<string>)
    ensures forall x :: x in CommentLines(ls) <==> x in ls && StartsWith(x, "#")
  {
    if |ls| > 0 {
      var front := ls[..|ls| - 1];
      CommentLinesMembers(front);
      assert ls == front + [ls[|ls| - 1]];
    }
  }

  /** Whether a block's content carries a well-formed macro definition line as its second line. */
  predicate ValidContent(content: seq<string>) {
    |content| >= 2 && Definition(content[1]).Some?
  }

  /** The errors a block's construction raises. */
  datatype BlockError =
    | InvalidRange   // `ValueError`: `start + len(content) != end`
    | NoDefinitionLine   // `IndexError`: `content[1]` on a block of fewer than two lines

  /**
   * The constructor's definition check as written: it reads `content[1]`
   * before asking whether that line exists.
   */
  function DefinitionCheckAsWritten(content: seq<string>): (r: Result<bool, BlockError>)
    ensures r.Failure? <==> |content| < 2
    ensures r.Success? ==> r.value == ValidContent(content)
  {
    if |content| < 2 then Failure(NoDefinitionLine) else Success(Definition(content[1]).Some?)
  }

  /** A macro block of the `te_macros` file. */
  class TEBlock {
    /** The index of the first line, from 0. */
    const start: int
    /** The index after the last line, from 0. */
    const end: int
    /** The lines of the block, `lines[start:end]`. */
    const content: seq<string>
    const valid: bool
    const name: Option<string>
    const args: Option<seq<string>>
    const comments: seq<string>

    /** What the constructor establishes about the fields. */
    predicate Faithful() {
      && start + |content| == end
      && valid == ValidContent(content)
      && (valid ==> name == Some(Definition(content[1]).value.0) && args == Some(Definition(content[1]).value.1))
      && (!valid ==> name.None? && args.None?)
      && comments == CommentLines(AfterFirst(content))
    }

    /**
     * Builds the block of lines `[start, end)`. A block with fewer than two
     * lines has no definition line and is invalid.
     */
    constructor (start: int, end: int, content: seq<string>)
      requires start + |content| == end
      ensures this.start == start && this.end == end && this.content == content
      ensures valid <==> |content| >= 2 && Definition(content[1]).Some?
      ensures valid ==> name == Some(Definition(content[1]).value.0) && args == Some(Definition(content[1]).value.1)
      ensures !valid ==> name.None? && args.None?
      ensures forall x :: x in comments <==> x in AfterFirst(content) && StartsWith(x, "#")
      ensures Faithful()
    {
      this.start := start;
      this.end := end;
      this.content := content;
      if ValidContent(content) {
        var definition := WordTokens(content[1]);
        DefinitionTokens(content[1]);
        this.valid := true;
        this.name := Some(definition[0]);
        this.args := Some(definition[1..]);
      } else {
        this.valid := false;
        this.name := None;
        this.args := None;
      }
      var rest := AfterFirst(content);
      var found: seq<string> := [];
      var i := 0;
      while i < |rest|
        invariant 0 <= i <= |rest|
        invariant found == CommentLines(rest[..i])
      {
        var prefix := rest[..i + 1];
        assert prefix[..i] == rest[..i] && prefix[i] == rest[i];
        if StartsWith(rest[i], "#") {
          found := found + [rest[i]];
        }
        i := i + 1;
      }
      assert rest[..i] == rest;
      CommentLinesMembers(rest);
      this.comments := found;
    }

    /** `start(line_number)`: the first line, numbered from 1 or indexed from 0. */
    function Start(lineNumber: bool): int {
      if lineNumber then start + 1 else start
    }

    /** `end(line_number, inclusive)`: the end, numbered from 1 or indexed from 0, inclusive or not. */
    function End(lineNumber: bool, inclusive: bool): int {
      var pos := if lineNumber then end + 1 else end;
      if inclusive then pos - 1 else pos
    }
  }

  /**
   * `TEBlock(start, end, content)` with its sanity check: a range that
   * does not fit the content is a `ValueError`.
   */
  method NewBlock(start: int, end: int, content: seq<string>) returns (r: Result<TEBlock, BlockError>)
    ensures r.Failure? <==> start + |content| != end
    ensures r.Failure? ==> r.error == InvalidRange
    ensures r.Success? ==> fresh(r.value) && r.value.Faithful()
    ensures r.Success? ==> r.value.start == start && r.value.end == end && r.value.content == content
  {
    if start + |content| != end {
      return Failure(InvalidRange);
    }
    var b := new TEBlock(start, end, content);
    return Success(b);
  }

  /**
   * The positions a block reports cover its content: numbered from 1 the
   * block is lines `Start(true)` to `End(true, true)` inclusive, and every
   * convention gives the same number of lines.
   */
  lemma LinePositions(b: TEBlock)
    requires b.Faithful()
    ensures b.Start(true) == b.Start(false) + 1
    ensures b.End(true, false) == b.End(false, false) + 1
    ensures b.End(false, false) - b.Start(false) == |b.content|
    ensures b.End(true, true) - b.Start(true) + 1 == |b.content|
    ensures b.End(false, true) == b.End(true, true) - 1
  {
  }

  // ---------------------------------------------------------------------
  // Splitting the file, `__split__`
  // ---------------------------------------------------------------------

  /** A block starts at line `i`: a separator line that follows an empty line. */
  predicate IsBoundary(lines: seq<string>, i: int) {
    0 < i < |lines| && lines[i - 1] == "" && IsSeparator(lines[i])
  }

  /** The block boundaries among the first `i` lines. */
  function CutsBelow(lines: seq<string>, i: nat): seq<nat>
    requires i <= |lines|
    decreases i
  {
    if i == 0 then []
    else CutsBelow(lines, i - 1) + (if IsBoundary(lines, i - 1) then [i - 1] else [])
  }

  /** The boundaries among the first `i` lines lie between the first line and `i`, in increasing order. */
  lemma {:induction false} CutsBelowOrdered(lines: seq<string>, i: nat)
    requires i <= |lines|
    ensures forall k :: 0 <= k < |CutsBelow(lines, i)| ==> 0 < CutsBelow(lines, i)[k] < i
    ensures forall k, l :: 0 <= k < l < |CutsBelow(lines, i)| ==> CutsBelow(lines, i)[k] < CutsBelow(lines, i)[l]
    decreases i
  {
    if i > 0 {
      CutsBelowOrdered(lines, i - 1);
    }
  }

  lemma {:induction false} CutsBelowIff(lines: seq<string>, i: nat, j: int)
    requires i <= |lines|
    ensures j in CutsBelow(lines, i) <==> j < i && IsBoundary(lines, j)
    decreases i
  {
    if i > 0 {
      CutsBelowIff(lines, i - 1, j);
    }
  }

  lemma CutsTurn(lines: seq<string>, i: nat)
    requires i < |lines|
    ensures IsBoundary(lines, i) ==> CutsBelow(lines, i + 1) == CutsBelow(lines, i) + [i]
    ensures !IsBoundary(lines, i) ==> CutsBelow(lines, i + 1) == CutsBelow(lines, i)
  {
  }

  /** Every boundary of the file, in increasing order. */
  function Cuts(lines: seq<string>): seq<nat> {
    CutsBelow(lines, |lines|)
  }

  /** The block boundaries are exactly the separators that follow an empty line. */
  lemma CutsIff(lines: seq<string>, j: int)
    ensures j in Cuts(lines) <==> IsBoundary(lines, j)
  {
    CutsBelowIff(lines, |lines|, j);
  }

  /** Positions that never decrease and never pass `n`. */
  predicate Chain(b: seq<nat>, n: nat) {
    && (forall i :: 0 <= i < |b| ==> b[i] <= n)
    && (forall i, j :: 0 <= i < j < |b| ==> b[i] <= b[j])
  }

  /** The slices of `lines` between consecutive positions of `b`. */
  function Slices(lines: seq<string>, b: seq<nat>): (ss: seq<seq<string>>)
    requires Chain(b, |lines|)
    ensures |ss| == if |b| == 0 then 0 else |b| - 1
    decreases |b|
  {
    if |b| < 2 then []
    else Slices(lines, b[..|b| - 1]) + [lines[b[|b| - 2]..b[|b| - 1]]]
  }

  /** Where each block starts, followed by the end of the file. */
  function Bounds(lines: seq<string>): (b: seq<nat>)
    ensures |b| >= 2 && b[0] == 0 && b[|b| - 1] == |lines|
  {
    [0] + Cuts(lines) + [|lines|]
  }

  /** The bounds never decrease and never pass the end of the file. */
  lemma BoundsChain(lines: seq<string>)
    ensures Chain(Bounds(lines), |lines|)
  {
    var cs := Cuts(lines);
    var b := Bounds(lines);
    CutsBelowOrdered(lines, |lines|);
    assert forall i :: 0 < i < |b| - 1 ==> b[i] == cs[i - 1];
  }

  /** The contents of the blocks `__split__` produces, in order. */
  function BlockContents(lines: seq<string>): (bs: seq<seq<string>>)
    ensures |bs| == |Bounds(lines)| - 1
  {
    BoundsChain(lines);
    Slices(lines, Bounds(lines))
  }

  /** The concatenation of a sequence of sequences. */
  function Flatten(xss: seq<seq<string>>): seq<string> {
    if |xss| == 0 then [] else Flatten(xss[..|xss| - 1]) + xss[|xss| - 1]
  }

  lemma {:induction false} SlicesFlatten(lines: seq<string>, b: seq<nat>)
    requires |b| >= 1 && Chain(b, |lines|)
    ensures Flatten(Slices(lines, b)) == lines[b[0]..b[|b| - 1]]
    decreases |b|
  {
    if |b| >= 2 {
      var front := b[..|b| - 1];
      SlicesFlatten(lines, front);
      assert lines[b[0]..b[|b| - 2]] + lines[b[|b| - 2]..b[|b| - 1]] == lines[b[0]..b[|b| - 1]];
    }
  }

  lemma {:induction false} SliceAt(lines: seq<string>, b: seq<nat>, k: nat)
    requires Chain(b, |lines|) && k + 1 < |b|
    ensures Slices(lines, b)[k] == lines[b[k]..b[k + 1]]
    decreases |b|
  {
    if k + 2 < |b| {
      SliceAt(lines, b[..|b| - 1], k);
    }
  }

  /** The blocks of `__split__` put back together are the file: no line is lost, repeated or moved. */
  lemma SplitCovers(lines: seq<string>)
    ensures Flatten(BlockContents(lines)) == lines
  {
    var b := Bounds(lines);
    BoundsChain(lines);
    SlicesFlatten(lines, b);
    assert lines[0..|lines|] == lines;
  }

  /** Where block `k` starts, given the boundaries `cs`. */
  function Before(cs: seq<nat>, k: nat): nat
    requires k <= |cs|
  {
    if k == 0 then 0 else cs[k - 1]
  }

  /** Where block `k` ends, given the boundaries `cs` and the number of lines `n`. */
  function Upto(cs: seq<nat>, n: nat, k: nat): nat
    requires k <= |cs|
  {
    if k < |cs| then cs[k] else n
  }

  /** No boundary lies strictly inside a block. */
  lemma CutsOutside(cs: seq<nat>, n: nat, k: nat, m: nat)
    requires forall k, l :: 0 <= k < l < |cs| ==> cs[k] < cs[l]
    requires k <= |cs| && m < |cs|
    ensures cs[m] <= Before(cs, k) || cs[m] >= Upto(cs, n, k)
  {
  }

  /** The bounds of block `k` in terms of the boundaries, and its content. */
  lemma BoundsAt(lines: seq<string>, k: nat)
    requires k < |Bounds(lines)| - 1
    ensures k <= |Cuts(lines)|
    ensures Bounds(lines)[k] == Before(Cuts(lines), k) && Bounds(lines)[k + 1] == Upto(Cuts(lines), |lines|, k)
    ensures Bounds(lines)[k] <= Bounds(lines)[k + 1] <= |lines|
    ensures BlockContents(lines)[k] == lines[Bounds(lines)[k]..Bounds(lines)[k + 1]]
  {
    BoundsChain(lines);
    SliceAt(lines, Bounds(lines), k);
  }

  /** Line `j` lies in block `k`, past its first line. */
  predicate InsideBlock(lines: seq<string>, k: int, j: int) {
    0 <= k < |Bounds(lines)| - 1 && Bounds(lines)[k] < j < Bounds(lines)[k + 1]
  }

  /**
   * The blocks of `__split__`: there is at least one; the first starts at
   * the top of the file and the last ends at its bottom; every other block
   * starts at a separator that follows an empty line; and no block holds
   * such a separator past its first line.
   */
  lemma SplitBlocks(lines: seq<string>)
    ensures |Bounds(lines)| >= 2 && Bounds(lines)[0] == 0 && Bounds(lines)[|Bounds(lines)| - 1] == |lines|
    ensures forall k :: 0 < k < |Bounds(lines)| - 1 ==> IsBoundary(lines, Bounds(lines)[k])
    ensures forall k, j :: InsideBlock(lines, k, j) ==> !IsBoundary(lines, j)
  {
    var b := Bounds(lines);
    var cs := Cuts(lines);
    assert b == [0] + cs + [|lines|];
    forall k | 0 < k < |b| - 1 ensures IsBoundary(lines, b[k]) {
      assert b[k] == cs[k - 1];
      CutsIff(lines, cs[k - 1]);
    }
    forall k, j | InsideBlock(lines, k, j) ensures !IsBoundary(lines, j) {
      if IsBoundary(lines, j) {
        CutsIff(lines, j);
        var m :| 0 <= m < |cs| && cs[m] == j;
        CutsBelowOrdered(lines, |lines|);
        CutsOutside(cs, |lines|, k, m);
      }
    }
  }

  /** The blocks `Split` has built, one per boundary in `cuts`. */
  ghost predicate SplitSoFar(lines: seq<string>, blocks: seq<TEBlock>, cuts: seq<nat>) {
    && |blocks| == |cuts|
    && forall k {:trigger blocks[k]} :: 0 <= k < |blocks| ==>
      && blocks[k].Faithful()
      && Before(cuts, k) <= cuts[k] <= |lines|
      && blocks[k].start == Before(cuts, k) && blocks[k].end == cuts[k]
      && blocks[k].content == lines[Before(cuts, k)..cuts[k]]
  }

  /**
   * The state of the loop of `Split` before line `i`: the boundaries so
   * far, whether the previous line is empty, where the current block
   * starts, and the blocks built.
   */
  ghost predicate SplitState(lines: seq<string>, i: nat, start: nat, previousIsEmpty: bool, blocks: seq<TEBlock>, cuts: seq<nat>) {
    && i <= |lines|
    && cuts == CutsBelow(lines, i)
    && previousIsEmpty == (i > 0 && lines[i - 1] == "")
    && start == Before(cuts, |cuts|) && start <= i
    && SplitSoFar(lines, blocks, cuts)
  }

  /** A line that does not start a block leaves the blocks as they are. */
  lemma SplitStepPlain(lines: seq<string>, i: nat, start: nat, previousIsEmpty: bool, blocks: seq<TEBlock>, cuts: seq<nat>)
    requires i < |lines| && SplitState(lines, i, start, previousIsEmpty, blocks, cuts)
    requires lines[i] == "" || !previousIsEmpty || !IsSeparator(lines[i])
    ensures SplitState(lines, i + 1, start, lines[i] == "", blocks, cuts)
  {
    assert !IsBoundary(lines, i);
    CutsTurn(lines, i);
  }

  /** A separator after an empty line closes the current block and starts the next one. */
  lemma SplitStepCut(lines: seq<string>, i: nat, start: nat, blocks: seq<TEBlock>, cuts: seq<nat>, block: TEBlock)
    requires i < |lines| && SplitState(lines, i, start, true, blocks, cuts)
    requires lines[i] != "" && IsSeparator(lines[i])
    requires block.Faithful() && block.start == start && block.end == i && block.content == lines[start..i]
    ensures SplitState(lines, i + 1, i, false, blocks + [block], cuts + [i])
  {
    assert IsBoundary(lines, i);
    CutsTurn(lines, i);
    SplitSoFarCut(lines, blocks, cuts, i, block);
  }

  lemma SplitSoFarCut(lines: seq<string>, blocks: seq<TEBlock>, cuts: seq<nat>, i: nat, block: TEBlock)
    requires Before(cuts, |cuts|) <= i <= |lines|
    requires SplitSoFar(lines, blocks, cuts)
    requires block.Faithful() && block.start == Before(cuts, |cuts|) && block.end == i
    requires block.content == lines[Before(cuts, |cuts|)..i]
    ensures SplitSoFar(lines, blocks + [block], cuts + [i])
  {
    var bs := blocks + [block];
    var cs := cuts + [i];
    forall k {:trigger bs[k]} | 0 <= k < |bs|
      ensures bs[k].Faithful() && bs[k].start == Before(cs, k) && bs[k].end == cs[k] && bs[k].content == lines[Before(cs, k)..cs[k]]
    {
      if k < |blocks| {
        assert bs[k] == blocks[k];
        assert Before(cs, k) == Before(cuts, k) && cs[k] == cuts[k];
      }
    }
  }

  /** The last block runs to the end of the file; with it the blocks are those of `Bounds`. */
  lemma SplitDone(lines: seq<string>, start: nat, previousIsEmpty: bool, blocks: seq<TEBlock>, cuts: seq<nat>, last: TEBlock)
    requires SplitState(lines, |lines|, start, previousIsEmpty, blocks, cuts)
    requires last.Faithful() && last.start == start && last.end == |lines| && last.content == lines[start..]
    ensures |blocks + [last]| == |Bounds(lines)| - 1
    ensures forall k :: 0 <= k < |blocks + [last]| ==> (blocks + [last])[k].Faithful()
    ensures forall k {:trigger (blocks + [last])[k]} :: 0 <= k < |blocks + [last]| ==>
      (blocks + [last])[k].start == Bounds(lines)[k] && (blocks + [last])[k].end == Bounds(lines)[k + 1] &&
      (blocks + [last])[k].content == BlockContents(lines)[k]
  {
    var bs := blocks + [last];
    assert Bounds(lines) == [0] + cuts + [|lines|];
    forall k | 0 <= k < |bs| ensures bs[k].Faithful() {
      if k < |blocks| {
        assert bs[k] == blocks[k];
      }
    }
    forall k {:trigger bs[k]} | 0 <= k < |bs|
      ensures bs[k].start == Bounds(lines)[k] && bs[k].end == Bounds(lines)[k + 1] && bs[k].content == BlockContents(lines)[k]
    {
      SplitDoneAt(lines, blocks, cuts, last, k);
    }
  }

  lemma SplitDoneAt(lines: seq<string>, blocks: seq<TEBlock>, cuts: seq<nat>, last: TEBlock, k: nat)
    requires cuts == Cuts(lines) && SplitSoFar(lines, blocks, cuts)
    requires last.start == Before(cuts, |cuts|) <= |lines| && last.end == |lines| && last.content == lines[last.start..]
    requires k <= |blocks|
    ensures k < |Bounds(lines)| - 1
    ensures (blocks + [last])[k].start == Bounds(lines)[k] && (blocks + [last])[k].end == Bounds(lines)[k + 1]
    ensures (blocks + [last])[k].content == BlockContents(lines)[k]
  {
    BoundsAt(lines, k);
    if k < |blocks| {
      assert (blocks + [last])[k] == blocks[k];
    } else {
      assert (blocks + [last])[k] == last;
    }
  }

  /** One turn of the loop of `__split__`: line `i` either closes the current block or not. */
  method SplitLine(lines: seq<string>, i: nat, start: nat, previousIsEmpty: bool, blocks: seq<TEBlock>, ghost cuts: seq<nat>)
    returns (blocks': seq<TEBlock>, start': nat, previousIsEmpty': bool, ghost cuts': seq<nat>)
    requires i < |lines| && SplitState(lines, i, start, previousIsEmpty, blocks, cuts)
    ensures SplitState(lines, i + 1, start', previousIsEmpty', blocks', cuts')
  {
    blocks', start', previousIsEmpty', cuts' := blocks, start, previousIsEmpty, cuts;
    var line := lines[i];
    if line == "" {
      SplitStepPlain(lines, i, start, previousIsEmpty, blocks, cuts);
      previousIsEmpty' := true;
    } else if previousIsEmpty {
      if IsSeparator(line) {
        var block := new TEBlock(start, i, lines[start..i]);
        SplitStepCut(lines, i, start, blocks, cuts, block);
        blocks' := blocks + [block];
        cuts' := cuts + [i];
        start' := i;
      } else {
        SplitStepPlain(lines, i, start, previousIsEmpty, blocks, cuts);
      }
      previousIsEmpty' := false;
    } else {
      SplitStepPlain(lines, i, start, previousIsEmpty, blocks, cuts);
    }
  }

  /**
   * `__split__(file_lines)`: cuts the file at every separator line that
   * follows an empty line, building one block per stretch of lines.
   */
  method Split(lines: seq<string>) returns (blocks: seq<TEBlock>)
    ensures |blocks| == |Bounds(lines)| - 1
    ensures forall k :: 0 <= k < |blocks| ==> blocks[k].Faithful()
    ensures forall k {:trigger blocks[k]} :: 0 <= k < |blocks| ==>
      blocks[k].start == Bounds(lines)[k] && blocks[k].end == Bounds(lines)[k + 1] && blocks[k].content == BlockContents(lines)[k]
  {
    blocks := [];
    var start: nat := 0;
    var previousIsEmpty := false;
    ghost var cuts: seq<nat> := [];
    var i := 0;
    while i < |lines|
      invariant SplitState(lines, i, start, previousIsEmpty, blocks, cuts)
    {
      blocks, start, previousIsEmpty, cuts := SplitLine(lines, i, start, previousIsEmpty, blocks, cuts);
      i := i + 1;
    }
    var last := new TEBlock(start, |lines|, lines[start..]);
    SplitDone(lines, start, previousIsEmpty, blocks, cuts, last);
    blocks := blocks + [last];
  }

  // ---------------------------------------------------------------------
  // Parsing, `expects` and `parse`
  // ---------------------------------------------------------------------

  /** `expects(expected_file)`: the plugin handles a path whose last component is `te_macros`. */
  predicate Expects(path: string) {
    path != "" && Basename(path) == MacroFile
  }

  lemma {:induction false} BasenameOf(p: string, w: string)
    requires '/' !in w && EndsWith(p, w)
    requires |p| == |w| || p[|p| - |w| - 1] == '/'
    ensures Basename(p) == w
    decreases |w|
  {
    if |w| > 0 {
      var q, v := p[..|p| - 1], w[..|w| - 1];
      DropLast(p, w);
      assert '/' !in v;
      BasenameOf(q, v);
    } else if |p| > 0 {
      assert p[|p| - 1] == '/';
    }
  }

  /** Dropping the last character of a path and of a suffix of it keeps the suffix relation. */
  lemma DropLast(p: string, w: string)
    requires |w| > 0 && EndsWith(p, w)
    requires |p| == |w| || p[|p| - |w| - 1] == '/'
    ensures p[|p| - 1] == w[|w| - 1] && w == w[..|w| - 1] + [p[|p| - 1]]
    ensures EndsWith(p[..|p| - 1], w[..|w| - 1])
    ensures |p| - 1 == |w| - 1 || p[..|p| - 1][|p| - 1 - (|w| - 1) - 1] == '/'
  {
    var q, v := p[..|p| - 1], w[..|w| - 1];
    assert p[|p| - |w|..][|w| - 1] == p[|p| - 1];
    assert q[|q| - |v|..] == p[|p| - |w|..][..|v|];
  }

  /** The plugin handles exactly the paths that are `te_macros` or end in `/te_macros`. */
  lemma ExpectsIff(path: string)
    ensures Expects(path) <==> EndsWith(path, MacroFile) && (|path| == |MacroFile| || path[|path| - |MacroFile| - 1] == '/')
  {
    if EndsWith(path, MacroFile) && (|path| == |MacroFile| || path[|path| - |MacroFile| - 1] == '/') {
      BasenameOf(path, MacroFile);
    }
  }

  /** A macro the plugin defines: what `M4Macro` is built from. */
  datatype MacroDef = MacroDef(name: string, file: string, args: seq<string>, comments: seq<string>)

  /** The `ValueError` of `parse`: the plugin cannot handle the file. */
  datatype ParseError = CannotHandle(file: string)

  /** The macro a block of `file` defines, or None when the block is invalid. */
  function DefOf(content: seq<string>, file: string): Option<MacroDef> {
    if ValidContent(content) then
      var d := Definition(content[1]).value;
      Some(MacroDef(d.0, file, d.1, CommentLines(AfterFirst(content))))
    else None
  }

  /** The macro of every block of the file, in order. */
  function Defs(lines: seq<string>, file: string): (ds: seq<Option<MacroDef>>)
    ensures |ds| == |BlockContents(lines)|
  {
    var bs := BlockContents(lines);
    seq(|bs|, k requires 0 <= k < |bs| => DefOf(bs[k], file))
  }

  /** Whether a block's macro is kept: the block is valid and its macro expands. */
  predicate Accepted(d: Option<MacroDef>, expands: MacroDef -> bool) {
    d.Some? && expands(d.value)
  }

  /** The macro dictionary: the accepted macros by name, a later block replacing an earlier one of the same name. */
  function Collect(ds: seq<Option<MacroDef>>, expands: MacroDef -> bool): map<string, MacroDef> {
    if |ds| == 0 then map[]
    else
      Record(Collect(ds[..|ds| - 1], expands), ds[|ds| - 1], expands)
  }

  /** The dictionary after one more block: its macro, when accepted, replaces any of the same name. */
  function Record(m: map<string, MacroDef>, d: Option<MacroDef>, expands: MacroDef -> bool): map<string, MacroDef> {
    if Accepted(d, expands) then m[d.value.name := d.value] else m
  }

  /** A name is in the dictionary exactly when some accepted block defines it. */
  lemma {:induction false} CollectKeys(ds: seq<Option<MacroDef>>, expands: MacroDef -> bool, name: string)
    ensures name in Collect(ds, expands) <==>
      exists j :: 0 <= j < |ds| && Accepted(ds[j], expands) && ds[j].value.name == name
  {
    if |ds| > 0 {
      var front := ds[..|ds| - 1];
      CollectKeys(front, expands, name);
      if exists j :: 0 <= j < |front| && Accepted(front[j], expands) && front[j].value.name == name {
        var j :| 0 <= j < |front| && Accepted(front[j], expands) && front[j].value.name == name;
        assert ds[j] == front[j];
      }
      if exists j :: 0 <= j < |ds| && Accepted(ds[j], expands) && ds[j].value.name == name {
        var j :| 0 <= j < |ds| && Accepted(ds[j], expands) && ds[j].value.name == name;
        if j < |front| {
          assert front[j] == ds[j];
        }
      }
    }
  }

  /**
   * Every entry of the dictionary is the macro of the last accepted block
   * with its name: it sits under its own name, it expands, and no later
   * accepted block has that name.
   */
  lemma {:induction false} CollectLast(ds: seq<Option<MacroDef>>, expands: MacroDef -> bool, name: string)
    requires name in Collect(ds, expands)
    ensures Collect(ds, expands)[name].name == name && expands(Collect(ds, expands)[name])
    ensures exists j ::
        && 0 <= j < |ds| && ds[j] == Some(Collect(ds, expands)[name])
        && forall l :: j < l < |ds| && Accepted(ds[l], expands) ==> ds[l].value.name != name
  {
    var front := ds[..|ds| - 1];
    var d := ds[|ds| - 1];
    var m := Collect(ds, expands);
    if Accepted(d, expands) && d.value.name == name {
      assert m[name] == d.value;
      assert ds[|ds| - 1] == Some(m[name]);
    } else {
      assert name in Collect(front, expands) && m[name] == Collect(front, expands)[name];
      CollectLast(front, expands, name);
      var j :|
        && 0 <= j < |front| && front[j] == Some(m[name])
        && forall l :: j < l < |front| && Accepted(front[l], expands) ==> front[l].value.name != name;
      assert ds[j] == front[j];
      forall l | j < l < |ds| && Accepted(ds[l], expands) ensures ds[l].value.name != name {
        if l < |front| {
          assert ds[l] == front[l];
        }
      }
    }
  }

  /** What `parse(f_to_parse, macro_expander)` returns for a file of these lines. */
  function ParseSpec(path: string, lines: seq<string>, expands: MacroDef -> bool): Result<map<string, MacroDef>, ParseError> {
    if path == "" || !Expects(path) then Failure(CannotHandle(path))
    else Success(Collect(Defs(lines, path), expands))
  }

  /** One block of the loop of `parse`: an invalid block adds nothing, a valid one adds its macro when it expands. */
  lemma ParseTurn(ds: seq<Option<MacroDef>>, k: nat, expands: MacroDef -> bool)
    requires k < |ds|
    ensures Collect(ds[..k + 1], expands) == Record(Collect(ds[..k], expands), ds[k], expands)
  {
    var front := ds[..k + 1];
    assert front[..k] == ds[..k] && front[k] == ds[k];
  }

  /** One turn of the loop of `parse`: the macro of a valid block enters the dictionary when it expands. */
  method AddBlock(macros: map<string, MacroDef>, block: TEBlock, path: string, expands: MacroDef -> bool)
    returns (macros': map<string, MacroDef>)
    requires block.Faithful()
    ensures macros' == Record(macros, DefOf(block.content, path), expands)
  {
    macros' := macros;
    if block.valid {
      var newMacro := MacroDef(block.name.value, path, block.args.value, block.comments);
      if expands(newMacro) {
        macros' := macros[block.name.value := newMacro];
      }
    }
  }

  /**
   * `parse(f_to_parse, macro_expander)`, the file already read into
   * `lines` and `expands` telling whether `M4Macro` builds a macro without
   * an `M4MacroError`: the dictionary of the macros of the valid blocks.
   */
  method Parse(path: string, lines: seq<string>, expands: MacroDef -> bool) returns (r: Result<map<string, MacroDef>, ParseError>)
    ensures r == ParseSpec(path, lines, expands)
  {
    if path == "" || !Expects(path) {
      return Failure(CannotHandle(path));
    }
    var macros: map<string, MacroDef> := map[];
    var blocks := Split(lines);
    ghost var ds := Defs(lines, path);
    var k := 0;
    while k < |blocks|
      invariant 0 <= k <= |blocks|
      invariant macros == Collect(ds[..k], expands)
    {
      assert ds[k] == DefOf(blocks[k].content, path);
      ParseTurn(ds, k, expands);
      macros := AddBlock(macros, blocks[k], path, expands);
      k := k + 1;
    }
    assert ds[..k] == ds;
    return Success(macros);
  }

  /** `parse` raises `ValueError` exactly on a path the plugin does not expect. */
  lemma ParseFails(path: string, lines: seq<string>, expands: MacroDef -> bool)
    ensures ParseSpec(path, lines, expands).Failure? <==> !Expects(path)
    ensures ParseSpec(path, lines, expands).Failure? ==> ParseSpec(path, lines, expands).error == CannotHandle(path)
  {
  }

  lemma DefsAt(lines: seq<string>, path: string, k: nat)
    requires k < |BlockContents(lines)|
    ensures Defs(lines, path)[k] == DefOf(BlockContents(lines)[k], path)
  {
  }

  /**
   * On a file the plugin expects, a name is defined exactly when some
   * block of the file is valid, declares that name and its macro expands.
   */
  lemma ParseKeys(path: string, lines: seq<string>, expands: MacroDef -> bool, name: string)
    requires Expects(path)
    ensures name in ParseSpec(path, lines, expands).value <==>
      exists k :: 0 <= k < |BlockContents(lines)| && Accepted(DefOf(BlockContents(lines)[k], path), expands) &&
        DefOf(BlockContents(lines)[k], path).value.name == name
  {
    var ds := Defs(lines, path);
    CollectKeys(ds, expands, name);
    forall k | 0 <= k < |ds| {
      DefsAt(lines, path, k);
    }
  }

  /**
   * On a file the plugin expects, every defined name maps to the macro of
   * the last valid, expanding block that declares it, with the parsed
   * file as its file.
   */
  lemma ParseLatest(path: string, lines: seq<string>, expands: MacroDef -> bool, name: string)
    requires Expects(path) && name in ParseSpec(path, lines, expands).value
    ensures ParseSpec(path, lines, expands).value[name].name == name
    ensures ParseSpec(path, lines, expands).value[name].file == path
    ensures exists k ::
        && 0 <= k < |BlockContents(lines)| && DefOf(BlockContents(lines)[k], path) == Some(ParseSpec(path, lines, expands).value[name])
        && forall l :: k < l < |BlockContents(lines)| && Accepted(DefOf(BlockContents(lines)[l], path), expands) ==>
          DefOf(BlockContents(lines)[l], path).value.name != name
  {
    var bs := BlockContents(lines);
    var ds := Defs(lines, path);
    var m := Collect(ds, expands);
    assert ParseSpec(path, lines, expands) == Success(m);
    CollectLast(ds, expands, name);
    var j :|
      && 0 <= j < |ds| && ds[j] == Some(m[name])
      && forall l :: j < l < |ds| && Accepted(ds[l], expands) ==> ds[l].value.name != name;
    DefsAt(lines, path, j);
    assert DefOf(bs[j], path) == Some(m[name]);
    forall l | j < l < |bs| && Accepted(DefOf(bs[l], path), expands) ensures DefOf(bs[l], path).value.name != name {
      DefsAt(lines, path, l);
    }
  }

  // ---------------------------------------------------------------------
  // The blocks the definition check cannot read
  // ---------------------------------------------------------------------

  /**
   * As written, the constructor raises `IndexError` on the one block of an
   * empty file, so `parse` raises instead of returning no macros.
   */
  lemma EmptyFileRaisesAsWritten()
    ensures BlockContents([]) == [[]]
    ensures DefinitionCheckAsWritten(BlockContents([])[0]) == Failure(NoDefinitionLine)
  {
    var lines: seq<string> := [];
    assert Cuts(lines) == [];
    BoundsAt(lines, 0);
  }

  /** A file whose last line is a separator after an empty line. */
  const TrailingSeparatorFile: seq<string> := ["##", "# m(a)", "", "##"]

  lemma TrailingSeparatorCuts()
    ensures Cuts(TrailingSeparatorFile) == [3]
  {
    var lines := TrailingSeparatorFile;
    assert IsSeparator(lines[3]) by {
      assert lines[3] == "##";
    }
    CutsTurn(lines, 0);
    CutsTurn(lines, 1);
    CutsTurn(lines, 2);
    CutsTurn(lines, 3);
  }

  lemma TrailingSeparatorBlocks()
    ensures BlockContents(TrailingSeparatorFile) == [["##", "# m(a)", ""], ["##"]]
  {
    TrailingSeparatorCuts();
    TwoBlocksOf(TrailingSeparatorFile, 3, ["##", "# m(a)", ""], ["##"]);
  }

  lemma TwoBlocksOf(lines: seq<string>, c: nat, front: seq<string>, back: seq<string>)
    requires Cuts(lines) == [c] && lines == front + back && c == |front|
    ensures BlockContents(lines) == [front, back]
  {
    assert lines[..c] == front && lines[c..] == back;
    TwoBlocks(lines, c);
  }

  /** A file with one boundary has two blocks, split there. */
  lemma TwoBlocks(lines: seq<string>, c: nat)
    requires Cuts(lines) == [c] && c <= |lines|
    ensures BlockContents(lines) == [lines[..c], lines[c..]]
  {
    var b := Bounds(lines);
    assert b == [0, c, |lines|];
    BoundsAt(lines, 0);
    BoundsAt(lines, 1);
    var bs := BlockContents(lines);
    assert |bs| == 2 && bs[0] == lines[..c] && bs[1] == lines[c..];
  }

  /**
   * As written, the constructor raises `IndexError` on the last block of a
   * file that ends with a separator after an empty line, so `parse` raises
   * instead of skipping that block.
   */
  lemma TrailingSeparatorRaisesAsWritten()
    ensures BlockContents(TrailingSeparatorFile) == [["##", "# m(a)", ""], ["##"]]
    ensures DefinitionCheckAsWritten(BlockContents(TrailingSeparatorFile)[1]) == Failure(NoDefinitionLine)
  {
    TrailingSeparatorBlocks();
  }

  /**
   * With the definition check corrected, a block of fewer than two lines
   * is an invalid block: it defines no macro and `parse` skips it.
   */
  lemma ShortBlocksSkipped(content: seq<string>, file: string)
    requires |content| < 2
    ensures !ValidContent(content) && DefOf(content, file).None?
  {
  }
}
