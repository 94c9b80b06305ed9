/**
 * The handful of Python string operations the analysis plugins rely on,
 * written out so that their edge cases are explicit: `str.startswith`,
 * `str.endswith`, `str.replace`, `str.strip`, `str.split()`, `str.upper`,
 * `str.lower`, `" ".join`, `str(int)` and `os.path.basename`.
 */
module Text {

  predicate StartsWith(s: string, p: string) {
    |p| <= |s| && s[..|p|] == p
  }

  predicate EndsWith(s: string, p: string) {
    |p| <= |s| && s[|s| - |p|..] == p
  }

  /** `s.startswith(tuple(ps))`: true when some prefix in `ps` starts `s`. */
  predicate StartsWithAny(s: string, ps: set<string>) {
    exists p :: p in ps && StartsWith(s, p)
  }

  predicate IsDigit(c: char) {
    '0' <= c <= '9'
  }

  predicate IsLetter(c: char) {
    'a' <= c <= 'z' || 'A' <= c <= 'Z'
  }

  /** A character of `[a-zA-Z0-9_-]`, the class of a valid m4 argument. */
  predicate IsArgChar(c: char) {
    IsLetter(c) || IsDigit(c) || c == '_' || c == '-'
  }

  predicate AllArgChars(s: string) {
    forall i :: 0 <= i < |s| ==> IsArgChar(s[i])
  }

  /** A character of the regular-expression class `\w` (ASCII). */
  predicate IsWordChar(c: char) {
    IsLetter(c) || IsDigit(c) || c == '_'
  }

  /** The whitespace characters of Python 2 byte strings (`\s`, `str.split()`). */
  predicate IsSpace(c: char) {
    c == ' ' || c == '\t' || c == '\n' || c == '\r' || c == '\U{000B}' || c == '\U{000C}'
  }

  predicate NoSpace(s: string) {
    forall i :: 0 <= i < |s| ==> !IsSpace(s[i])
  }

  function UpperChar(c: char): char {
    if 'a' <= c <= 'z' then (c as int - 32) as char else c
  }

  function LowerChar(c: char): char {
    if 'A' <= c <= 'Z' then (c as int + 32) as char else c
  }

  /** `s.upper()` on ASCII text. */
  function Upper(s: string): (r: string)
    ensures |r| == |s| && forall i :: 0 <= i < |s| ==> r[i] == UpperChar(s[i])
  {
    seq(|s|, i requires 0 <= i < |s| => UpperChar(s[i]))
  }

  /** `s.lower()` on ASCII text. */
  function Lower(s: string): (r: string)
    ensures |r| == |s| && forall i :: 0 <= i < |s| ==> r[i] == LowerChar(s[i])
  {
    seq(|s|, i requires 0 <= i < |s| => LowerChar(s[i]))
  }

  /**
   * `s.replace(pat, rep)`: scans left to right and replaces every
   * non-overlapping occurrence of `pat`, leftmost first.
   */
  function Replace(s: string, pat: string, rep: string): string
    requires |pat| > 0
    decreases |s|
  {
    if |s| < |pat| then s
    else if s[..|pat|] == pat then rep + Replace(s[|pat|..], pat, rep)
    else [s[0]] + Replace(s[1..], pat, rep)
  }

  /** Text that does not contain the first character of `pat` is left alone. */
  lemma {:induction false} ReplaceAbsent(s: string, pat: string, rep: string)
    requires |pat| > 0
    requires forall i :: 0 <= i < |s| ==> s[i] != pat[0]
    ensures Replace(s, pat, rep) == s
  {
    if |s| >= |pat| {
      assert s[..|pat|][0] == s[0];
      ReplaceAbsent(s[1..], pat, rep);
      assert [s[0]] + s[1..] == s;
    }
  }

  /** A lead `a` free of `pat[0]` passes through a replacement unchanged. */
  lemma {:induction false} ReplaceSkipLead(a: string, b: string, pat: string, rep: string)
    requires |pat| > 0
    requires forall i :: 0 <= i < |a| ==> a[i] != pat[0]
    ensures Replace(a + b, pat, rep) == a + Replace(b, pat, rep)
  {
    if |a| > 0 {
      var s := a + b;
      if |s| < |pat| {
        assert Replace(b, pat, rep) == b;
      } else {
        assert s[..|pat|][0] == a[0];
        assert s[1..] == a[1..] + b;
        ReplaceSkipLead(a[1..], b, pat, rep);
        assert [a[0]] + a[1..] == a;
      }
    } else {
      assert a + b == b;
    }
  }

  /** An occurrence of `pat` at the very front is replaced. */
  lemma ReplaceFront(b: string, pat: string, rep: string)
    requires |pat| > 0
    ensures Replace(pat + b, pat, rep) == rep + Replace(b, pat, rep)
  {
    var s := pat + b;
    assert s[..|pat|] == pat;
    assert s[|pat|..] == b;
  }

  /** `pat` occurs in `s` starting at position `p`. */
  predicate OccursAt(s: string, pat: string, p: nat) {
    p + |pat| <= |s| && s[p..p + |pat|] == pat
  }

  /** An occurrence in the tail is an occurrence one position later in the text. */
  lemma OccursTail(s: string, pat: string, p: nat)
    requires |s| > 0
    ensures OccursAt(s[1..], pat, p) <==> OccursAt(s, pat, p + 1)
  {
    if p + 1 + |pat| <= |s| {
      assert s[1..][p..p + |pat|] == s[p + 1..p + 1 + |pat|];
    }
  }

  /**
   * When no occurrence of `pat` starts at any of the first `j` positions of
   * `s`, the first `j` characters are kept and the scan resumes at `j`.
   */
  lemma {:induction false} ReplaceSkip(s: string, j: nat, pat: string, rep: string)
    requires |pat| > 0 && j <= |s|
    requires forall p: nat :: p < j ==> !OccursAt(s, pat, p)
    ensures Replace(s, pat, rep) == s[..j] + Replace(s[j..], pat, rep)
  {
    if j == 0 {
      assert s[j..] == s;
    } else {
      var t := s[1..];
      ReplaceNoMatch(s, pat, rep);
      forall p: nat | p < j - 1
        ensures !OccursAt(t, pat, p)
      {
        OccursTail(s, pat, p);
      }
      ReplaceSkip(t, j - 1, pat, rep);
      ReplaceShift(s, j, Replace(s[j..], pat, rep));
    }
  }

  /** Without an occurrence at the front, the first character is kept. */
  lemma ReplaceNoMatch(s: string, pat: string, rep: string)
    requires |pat| > 0 && |s| > 0 && !OccursAt(s, pat, 0)
    ensures Replace(s, pat, rep) == [s[0]] + Replace(s[1..], pat, rep)
  {
    if |s| >= |pat| {
      assert s[0..|pat|] == s[..|pat|];
    } else {
      assert Replace(s[1..], pat, rep) == s[1..];
      assert [s[0]] + s[1..] == s;
    }
  }

  lemma ShiftHelp(s: string, j: nat, r: string)
    requires 0 < j <= |s|
    ensures [s[0]] + (s[1..][..j - 1] + r) == s[..j] + r
  {
    assert [s[0]] + s[1..][..j - 1] == s[..j];
  }

  /** Reassembles the kept first character with the rest of the scan. */
  lemma ReplaceShift(s: string, j: nat, r: string)
    requires 0 < j <= |s|
    ensures s[1..][j - 1..] == s[j..]
    ensures [s[0]] + (s[1..][..j - 1] + r) == s[..j] + r
  {
    ShiftHelp(s, j, r);
  }

  function StripLeft(s: string, cs: set<char>): (r: string)
    ensures |r| <= |s| && r == s[|s| - |r|..]
    ensures |r| > 0 ==> r[0] !in cs
    decreases |s|
  {
    if |s| > 0 && s[0] in cs then StripLeft(s[1..], cs) else s
  }

  function StripRight(s: string, cs: set<char>): (r: string)
    ensures |r| <= |s| && r == s[..|r|]
    ensures |r| > 0 ==> r[|r| - 1] !in cs
    decreases |s|
  {
    if |s| > 0 && s[|s| - 1] in cs then StripRight(s[..|s| - 1], cs) else s
  }

  lemma StripLeftSkip(c: char, x: string, cs: set<char>)
    requires c in cs
    ensures StripLeft([c] + x, cs) == StripLeft(x, cs)
  {
    assert ([c] + x)[1..] == x;
  }

  lemma StripLeftStop(x: string, cs: set<char>)
    requires |x| > 0 && x[0] !in cs
    ensures StripLeft(x, cs) == x
  {
  }

  lemma StripRightSkip(x: string, c: char, cs: set<char>)
    requires c in cs
    ensures StripRight(x + [c], cs) == StripRight(x, cs)
  {
    assert (x + [c])[..|x|] == x;
  }

  lemma StripRightStop(x: string, cs: set<char>)
    requires |x| > 0 && x[|x| - 1] !in cs
    ensures StripRight(x, cs) == x
  {
  }

  /** `s.strip(chars)`: removes every leading and trailing character of `cs`. */
  function Strip(s: string, cs: set<char>): string {
    StripRight(StripLeft(s, cs), cs)
  }

  /** Splitting the space-padded join of words gives back the words. */
  lemma SplitPadded(ws: seq<string>)
    requires ValidWords(ws)
    ensures SplitWords(" " + Join(ws, " ") + " ") == ws
  {
    var inner := Join(ws, " ");
    assert " " + inner + " " == [' '] + (inner + " ");
    SplitLeadingSpace(' ', inner + " ");
    SplitJoinThen(ws, " ");
    assert " " == [' '] + "";
    SplitLeadingSpace(' ', "");
    assert SplitWords("") == [];
  }

  /** Characters of `cs` appended to a text are stripped from its right end. */
  lemma {:induction false} StripRightAll(x: string, t: string, cs: set<char>)
    requires forall i :: 0 <= i < |t| ==> t[i] in cs
    ensures StripRight(x + t, cs) == StripRight(x, cs)
    decreases |t|
  {
    if |t| > 0 {
      var f := t[..|t| - 1];
      assert x + t == (x + f) + [t[|t| - 1]];
      StripRightSkip(x + f, t[|t| - 1], cs);
      StripRightAll(x, f, cs);
    } else {
      assert x + t == x;
    }
  }

  /**
   * A text opened by a character of `cs` and closed by characters of `cs`
   * strips to the text when its own ends are not in `cs`.
   */
  lemma StripWrapped(a: char, inner: string, close: string, cs: set<char>)
    requires a in cs && forall i :: 0 <= i < |close| ==> close[i] in cs
    requires |inner| > 0 && inner[0] !in cs && inner[|inner| - 1] !in cs
    ensures Strip([a] + inner + close, cs) == inner
  {
    assert [a] + inner + close == [a] + (inner + close);
    StripLeftSkip(a, inner + close, cs);
    assert (inner + close)[0] == inner[0];
    StripLeftStop(inner + close, cs);
    StripRightAll(inner, close, cs);
    StripRightStop(inner, cs);
  }

  /** Length of the leading run of non-whitespace characters. */
  function WordLength(s: string): (n: nat)
    ensures n <= |s| && NoSpace(s[..n]) && (n < |s| ==> IsSpace(s[n]))
  {
    if |s| == 0 || IsSpace(s[0]) then 0
    else
      var m := WordLength(s[1..]);
      assert s[..m + 1] == [s[0]] + s[1..][..m];
      m + 1
  }

  /** `s.split()`: the maximal runs of non-whitespace characters, in order. */
  function SplitWords(s: string): (ws: seq<string>)
    ensures ValidWords(ws)
    decreases |s|
  {
    if |s| == 0 then []
    else if IsSpace(s[0]) then SplitWords(s[1..])
    else
      var n := WordLength(s);
      var rest := SplitWords(s[n..]);
      ValidCons(s[..n], rest);
      [s[..n]] + rest
  }

  lemma ValidCons(w: string, ws: seq<string>)
    requires |w| > 0 && NoSpace(w) && ValidWords(ws)
    ensures ValidWords([w] + ws)
  {
    forall i | 0 <= i < |[w] + ws| ensures |([w] + ws)[i]| > 0 && NoSpace(([w] + ws)[i]) {
      if i > 0 {
        assert ([w] + ws)[i] == ws[i - 1];
      }
    }
  }

  /** `sep.join(xs)`. */
  function Join(xs: seq<string>, sep: string): string {
    if |xs| == 0 then ""
    else if |xs| == 1 then xs[0]
    else xs[0] + sep + Join(xs[1..], sep)
  }

  predicate ValidWords(ws: seq<string>) {
    forall i :: 0 <= i < |ws| ==> |ws[i]| > 0 && NoSpace(ws[i])
  }

  lemma ValidConcat(a: seq<string>, b: seq<string>)
    requires ValidWords(a) && ValidWords(b)
    ensures ValidWords(a + b)
  {
    forall i | 0 <= i < |a + b| ensures |(a + b)[i]| > 0 && NoSpace((a + b)[i]) {
      if i >= |a| { assert (a + b)[i] == b[i - |a|]; }
    }
  }

  lemma SplitLeadingSpace(c: char, s: string)
    requires IsSpace(c)
    ensures SplitWords([c] + s) == SplitWords(s)
  {
    assert ([c] + s)[1..] == s;
  }

  lemma {:induction false} SplitSpaces(sp: string, s: string)
    requires forall i :: 0 <= i < |sp| ==> IsSpace(sp[i])
    ensures SplitWords(sp + s) == SplitWords(s)
  {
    if |sp| > 0 {
      assert sp + s == [sp[0]] + (sp[1..] + s);
      SplitLeadingSpace(sp[0], sp[1..] + s);
      SplitSpaces(sp[1..], s);
    } else {
      assert sp + s == s;
    }
  }

  /** A word followed by a space-led (or empty) rest splits off first. */
  lemma SplitWordThen(w: string, rest: string)
    requires |w| > 0 && NoSpace(w)
    requires |rest| == 0 || IsSpace(rest[0])
    ensures SplitWords(w + rest) == [w] + SplitWords(rest)
  {
    var s := w + rest;
    assert s[0] == w[0];
    WordLengthOf(w, rest);
    assert s[..|w|] == w && s[|w|..] == rest;
  }

  lemma {:induction false} WordLengthOf(w: string, rest: string)
    requires NoSpace(w)
    requires |rest| == 0 || IsSpace(rest[0])
    ensures WordLength(w + rest) == |w|
  {
    if |w| > 0 {
      assert (w + rest)[1..] == w[1..] + rest;
      WordLengthOf(w[1..], rest);
    } else {
      assert w + rest == rest;
    }
  }

  /**
   * Splitting words joined by single spaces, followed by a rest that is empty
   * or starts with whitespace, gives the words and then the rest's words.
   */
  lemma {:induction false} SplitJoinThen(ws: seq<string>, rest: string)
    requires ValidWords(ws)
    requires |rest| == 0 || IsSpace(rest[0])
    ensures SplitWords(Join(ws, " ") + rest) == ws + SplitWords(rest)
  {
    if |ws| == 0 {
      assert Join(ws, " ") + rest == rest;
    } else if |ws| == 1 {
      SplitOneThen(ws, rest);
    } else {
      var tail := ws[1..];
      assert ValidWords(tail);
      SplitJoinThen(tail, rest);
      SplitConsThen(ws, rest);
    }
  }

  lemma {:induction false} SplitConsThen(ws: seq<string>, rest: string)
    requires |ws| > 1 && |ws[0]| > 0 && NoSpace(ws[0])
    requires SplitWords(Join(ws[1..], " ") + rest) == ws[1..] + SplitWords(rest)
    ensures SplitWords(Join(ws, " ") + rest) == ws + SplitWords(rest)
  {
    var w, tail := ws[0], ws[1..];
    var more := Join(tail, " ") + rest;
    calc {
      SplitWords(Join(ws, " ") + rest);
      == { JoinThen(ws, rest); }
      SplitWords(w + (" " + more));
      == { SplitWordSpaceThen(w, more); }
      [w] + SplitWords(more);
      ==
      [w] + (tail + SplitWords(rest));
      == { ConsAppend(ws, SplitWords(rest)); }
      ws + SplitWords(rest);
    }
  }

  lemma ConsAppend<T>(xs: seq<T>, r: seq<T>)
    requires |xs| > 0
    ensures [xs[0]] + (xs[1..] + r) == xs + r
  {
    assert xs == [xs[0]] + xs[1..];
  }

  lemma SplitOneThen(ws: seq<string>, rest: string)
    requires |ws| == 1 && |ws[0]| > 0 && NoSpace(ws[0])
    requires |rest| == 0 || IsSpace(rest[0])
    ensures SplitWords(Join(ws, " ") + rest) == ws + SplitWords(rest)
  {
    assert Join(ws, " ") == ws[0];
    SplitWordThen(ws[0], rest);
    assert ws == [ws[0]];
  }

  lemma JoinThen(ws: seq<string>, rest: string)
    requires |ws| > 1
    ensures Join(ws, " ") + rest == ws[0] + (" " + (Join(ws[1..], " ") + rest))
  {
  }

  lemma SplitWordSpaceThen(w: string, more: string)
    requires |w| > 0 && NoSpace(w)
    ensures SplitWords(w + (" " + more)) == [w] + SplitWords(more)
  {
    SplitWordThen(w, " " + more);
    SplitLeadingSpace(' ', more);
    assert [' '] + more == " " + more;
  }

  /** Joining words with single spaces and splitting again gives the words back. */
  lemma SplitJoin(ws: seq<string>)
    requires ValidWords(ws)
    ensures SplitWords(Join(ws, " ")) == ws
  {
    SplitJoinThen(ws, "");
    assert Join(ws, " ") + "" == Join(ws, " ");
    assert SplitWords("") == [];
  }

  function DigitChar(d: nat): char
    requires d < 10
  {
    ['0', '1', '2', '3', '4', '5', '6', '7', '8', '9'][d]
  }

  /** `str(n)` for a non-negative integer. */
  function NatToString(n: nat): (r: string)
    ensures |r| > 0 && forall i :: 0 <= i < |r| ==> IsDigit(r[i])
  {
    if n < 10 then [DigitChar(n)] else NatToString(n / 10) + [DigitChar(n % 10)]
  }

  /** `os.path.basename(p)`: the text after the last `/`. */
  function Basename(p: string): (r: string)
    ensures EndsWith(p, r) && '/' !in r
    ensures r != p ==> p[|p| - |r| - 1] == '/'
  {
    if |p| == 0 then p
    else if p[|p| - 1] == '/' then ""
    else
      var b := Basename(p[..|p| - 1]);
      BasenameStep(p, b);
      b + [p[|p| - 1]]
  }

  lemma BasenameStep(p: string, b: string)
    requires |p| > 0 && p[|p| - 1] != '/'
    requires EndsWith(p[..|p| - 1], b) && '/' !in b
    requires b != p[..|p| - 1] ==> p[..|p| - 1][|p| - 1 - |b| - 1] == '/'
    ensures var r := b + [p[|p| - 1]];
      EndsWith(p, r) && '/' !in r && (r != p ==> p[|p| - |r| - 1] == '/')
  {
    var q := p[..|p| - 1];
    var r := b + [p[|p| - 1]];
    assert q[|q| - |b|..] == b;
    assert p[|p| - |r|..] == q[|q| - |b|..] + [p[|p| - 1]];
    if r != p {
      assert b != q;
      assert p[|p| - |r| - 1] == q[|q| - |b| - 1];
    }
  }
}
