/**
 * Rule templates of the missing-rule check. A template is rule text in
 * which a field may hold one positional placeholder `@@ARGn@@`, such as
 * `allow @@ARG0@@ @@ARG0@@_tmpfs:file execute;`. This module gives the
 * template its text, finds the placeholders in it the way
 * `re.findall("@@ARG[0-9]+@@", ...)` does, and substitutes argument values
 * by plain text replacement (`substitute_args`).
 */
module Templates {
  import opened Text
  import opened Wrappers
  import opened Policy

  predicate IsDigits(d: string) {
    |d| > 0 && forall i :: 0 <= i < |d| ==> IsDigit(d[i])
  }

  /** The placeholder `@@ARGn@@` for the decimal digits `n`. */
  function Token(d: string): string {
    "@@ARG" + d + "@@"
  }

  /** The argument name `argn` under which the value of `@@ARGn@@` is bound. */
  function ArgName(d: string): string {
    "arg" + d
  }

  predicate IsArgName(k: string) {
    |k| > 3 && k[..3] == "arg" && IsDigits(k[3..])
  }

  lemma TokenChars(d: string)
    ensures |Token(d)| == |d| + 7
    ensures Token(d)[0] == '@' && Token(d)[1] == '@' && Token(d)[2] == 'A'
    ensures Token(d)[3] == 'R' && Token(d)[4] == 'G'
    ensures forall i :: 0 <= i < |d| ==> Token(d)[5 + i] == d[i]
    ensures Token(d)[5 + |d|] == '@' && Token(d)[6 + |d|] == '@'
  {
  }

  lemma ArgNameInjective(d: string, e: string)
    requires ArgName(d) == ArgName(e)
    ensures d == e
  {
    assert d == ArgName(d)[3..];
    assert e == ArgName(e)[3..];
  }

  lemma ArgNameIs(d: string)
    requires IsDigits(d)
    ensures IsArgName(ArgName(d)) && ArgName(d)[3..] == d
  {
    assert ArgName(d)[..3] == "arg";
    assert ArgName(d)[3..] == d;
  }

  lemma ArgNameOf(k: string)
    requires IsArgName(k)
    ensures k == ArgName(k[3..])
  {
    assert k == k[..3] + k[3..];
  }

  // ---------------------------------------------------------------------
  // Template text as a sequence of literal pieces and placeholders
  // ---------------------------------------------------------------------

  datatype Piece = Lit(text: string) | Ph(digits: string)

  function PieceText(p: Piece): string {
    match p
    case Lit(t) => t
    case Ph(d) => Token(d)
  }

  function Render(ps: seq<Piece>): string
    decreases |ps|
  {
    if |ps| == 0 then "" else PieceText(ps[0]) + Render(ps[1..])
  }

  /** What may follow a placeholder: nothing, or literal text not starting with `A`. */
  predicate GoodStart(ps: seq<Piece>) {
    |ps| == 0 || (ps[0].Lit? && |ps[0].text| > 0 && ps[0].text[0] != 'A')
  }

  /**
   * Well-formed pieces: literals hold no `@`, placeholders hold digits,
   * and the text after a placeholder cannot be read as the rest of another
   * placeholder.
   */
  predicate PiecesWF(ps: seq<Piece>)
    decreases |ps|
  {
    |ps| == 0 ||
    ((match ps[0]
      case Lit(t) => '@' !in t
      case Ph(d) => IsDigits(d) && GoodStart(ps[1..]))
     && PiecesWF(ps[1..]))
  }

  /** The digits of the placeholders, in order. */
  function PhDigits(ps: seq<Piece>): (ds: seq<string>)
    decreases |ps|
  {
    if |ps| == 0 then []
    else if ps[0].Ph? then [ps[0].digits] + PhDigits(ps[1..])
    else PhDigits(ps[1..])
  }

  /** Every placeholder `@@ARGd@@` becomes the literal `v`. */
  function SubstPiece(ps: seq<Piece>, d: string, v: string): seq<Piece>
    decreases |ps|
  {
    if |ps| == 0 then []
    else if ps[0] == Ph(d) then [Lit(v)] + SubstPiece(ps[1..], d, v)
    else [ps[0]] + SubstPiece(ps[1..], d, v)
  }

  function FillPiece(p: Piece, args: map<string, string>): Piece {
    match p
    case Lit(_) => p
    case Ph(d) => if ArgName(d) in args then Lit(args[ArgName(d)]) else p
  }

  /** Every placeholder whose argument is bound becomes the bound value. */
  function Fill(ps: seq<Piece>, args: map<string, string>): (r: seq<Piece>)
    ensures |r| == |ps|
    decreases |ps|
  {
    if |ps| == 0 then [] else [FillPiece(ps[0], args)] + Fill(ps[1..], args)
  }

  lemma {:induction false} RenderAppend(a: seq<Piece>, b: seq<Piece>)
    ensures Render(a + b) == Render(a) + Render(b)
    decreases |a|
  {
    if |a| == 0 {
      assert a + b == b;
    } else {
      assert (a + b)[1..] == a[1..] + b;
      RenderAppend(a[1..], b);
    }
  }

  lemma {:induction false} FillAppend(a: seq<Piece>, b: seq<Piece>, args: map<string, string>)
    ensures Fill(a + b, args) == Fill(a, args) + Fill(b, args)
    decreases |a|
  {
    if |a| == 0 {
      assert a + b == b;
    } else {
      assert (a + b)[1..] == a[1..] + b;
      FillAppend(a[1..], b, args);
    }
  }

  lemma {:induction false} PhDigitsAppend(a: seq<Piece>, b: seq<Piece>)
    ensures PhDigits(a + b) == PhDigits(a) + PhDigits(b)
    decreases |a|
  {
    if |a| == 0 {
      assert a + b == b;
    } else {
      assert (a + b)[1..] == a[1..] + b;
      PhDigitsAppend(a[1..], b);
    }
  }

  lemma {:induction false} PiecesWFAppend(a: seq<Piece>, b: seq<Piece>)
    requires PiecesWF(a) && PiecesWF(b)
    requires |a| == 0 || a[|a| - 1].Lit? || GoodStart(b)
    ensures PiecesWF(a + b)
    decreases |a|
  {
    if |a| == 0 {
      assert a + b == b;
    } else {
      var ab := a + b;
      assert ab[1..] == a[1..] + b;
      assert ab[0] == a[0];
      if |a| > 1 {
        assert a[1..][|a[1..]| - 1] == a[|a| - 1];
        assert ab[1] == a[1];
      }
      PiecesWFAppend(a[1..], b);
      assert a[0].Ph? ==> GoodStart(ab[1..]);
    }
  }

  /** Binding values free of `@` keeps the pieces well formed. */
  lemma {:induction false} FillWF(ps: seq<Piece>, args: map<string, string>)
    requires PiecesWF(ps)
    requires forall k :: k in args ==> '@' !in args[k]
    ensures PiecesWF(Fill(ps, args))
    decreases |ps|
  {
    if |ps| > 0 {
      FillWF(ps[1..], args);
      var f := Fill(ps, args);
      assert f[1..] == Fill(ps[1..], args);
      if |ps| > 1 && ps[0].Ph? {
        assert f[1] == FillPiece(ps[1], args) == ps[1];
      }
    }
  }

  /** Binding one more argument is replacing its placeholders by the value. */
  lemma {:induction false} FillSubst(ps: seq<Piece>, args: map<string, string>, d: string, v: string)
    requires ArgName(d) !in args
    ensures SubstPiece(Fill(ps, args), d, v) == Fill(ps, args[ArgName(d) := v])
    decreases |ps|
  {
    if |ps| > 0 {
      FillSubst(ps[1..], args, d, v);
      var f := Fill(ps, args);
      assert f[1..] == Fill(ps[1..], args);
      match ps[0]
      case Lit(_) =>
      case Ph(e) =>
        if e != d && ArgName(e) == ArgName(d) {
          ArgNameInjective(e, d);
        }
    }
  }

  /** A character that disagrees with `pat` rules out an occurrence at `p`. */
  lemma MismatchAt(s: string, pat: string, p: nat, k: nat)
    requires k < |pat|
    requires p + |pat| <= |s| ==> s[p + k] != pat[k]
    ensures !OccursAt(s, pat, p)
  {
    if p + |pat| <= |s| {
      assert s[p..p + |pat|][k] == s[p + k];
    }
  }

  lemma DiffIndex(d: string, e: string)
    requires |d| == |e| && d != e
    ensures exists i :: 0 <= i < |d| && d[i] != e[i]
  {
  }

  /**
   * A different placeholder does not occur at any position inside
   * `@@ARGe@@`, provided the text after it neither starts with `A` nor `@`.
   */
  lemma TokenMismatch(d: string, e: string, b: string)
    requires IsDigits(d) && IsDigits(e) && d != e
    requires |b| == 0 || (b[0] != 'A' && b[0] != '@')
    ensures forall p: nat :: p < |Token(e)| ==> !OccursAt(Token(e) + b, Token(d), p)
  {
    forall p: nat | p < |Token(e)|
      ensures !OccursAt(Token(e) + b, Token(d), p)
    {
      TokenChars(e);
      if p == 0 {
        MismatchFront(d, e, b);
      } else if p < 5 + |e| {
        MismatchInside(d, e, b, p);
      } else {
        MismatchTail(d, e, b, p);
      }
    }
  }

  /** Two different placeholders disagree somewhere in their common length. */
  lemma MismatchFront(d: string, e: string, b: string)
    requires IsDigits(d) && IsDigits(e) && d != e
    ensures !OccursAt(Token(e) + b, Token(d), 0)
  {
    var j: nat;
    if |d| == |e| {
      DiffIndex(d, e);
      var i :| 0 <= i < |d| && d[i] != e[i];
      j := 5 + i;
    } else if |d| < |e| {
      j := 5 + |d|;
    } else {
      j := 5 + |e|;
    }
    FrontDiffers(d, e, j);
    MismatchAt(Token(e) + b, Token(d), 0, j);
  }

  // Position `j` of two different placeholders holds different characters.
  lemma FrontDiffers(d: string, e: string, j: nat)
    requires IsDigits(d) && IsDigits(e)
    requires |d| == |e| ==> 5 <= j < 5 + |d| && d[j - 5] != e[j - 5]
    requires |d| < |e| ==> j == 5 + |d|
    requires |d| > |e| ==> j == 5 + |e|
    ensures j < |Token(d)| && j < |Token(e)| && Token(d)[j] != Token(e)[j]
  {
    TokenChars(d);
    TokenChars(e);
    if |d| < |e| {
      assert Token(e)[5 + |d|] == e[|d|];
    } else if |d| > |e| {
      assert Token(d)[5 + |e|] == d[|e|];
    }
  }

  /** No placeholder starts on the second `@`, the name or the digits of another. */
  lemma MismatchInside(d: string, e: string, b: string, p: nat)
    requires IsDigits(d) && IsDigits(e)
    requires 0 < p < 5 + |e|
    ensures !OccursAt(Token(e) + b, Token(d), p)
  {
    var s, tk := Token(e) + b, Token(d);
    TokenChars(d);
    TokenChars(e);
    if p == 1 {
      assert s[2] == 'A';
      MismatchAt(s, tk, 1, 1);
    } else {
      if 5 <= p {
        assert s[p] == e[p - 5];
      }
      assert s[p] != '@';
      MismatchAt(s, tk, p, 0);
    }
  }

  /** No placeholder starts on the closing `@@`, given what may follow it. */
  lemma MismatchTail(d: string, e: string, b: string, p: nat)
    requires IsDigits(d) && IsDigits(e)
    requires |b| == 0 || (b[0] != 'A' && b[0] != '@')
    requires 5 + |e| <= p < |Token(e)|
    ensures !OccursAt(Token(e) + b, Token(d), p)
  {
    var s, tk := Token(e) + b, Token(d);
    TokenChars(d);
    TokenChars(e);
    if p == 5 + |e| {
      if |b| > 0 {
        assert s[p + 2] == b[0];
      }
      MismatchAt(s, tk, p, 2);
    } else {
      if |b| > 0 {
        assert s[p + 1] == b[0];
      }
      MismatchAt(s, tk, p, 1);
    }
  }

  /** Replacing the text of one placeholder acts on the pieces. */
  lemma {:induction false} ReplaceRender(ps: seq<Piece>, d: string, v: string)
    requires PiecesWF(ps) && IsDigits(d) && '@' !in v
    ensures Replace(Render(ps), Token(d), v) == Render(SubstPiece(ps, d, v))
    decreases |ps|
  {
    var tk := Token(d);
    TokenChars(d);
    if |ps| > 0 {
      var rest := Render(ps[1..]);
      ReplaceRender(ps[1..], d, v);
      match ps[0]
      case Lit(t) =>
        ReplaceSkipLead(t, rest, tk, v);
      case Ph(e) =>
        if e == d {
          ReplaceFront(rest, tk, v);
        } else {
          assert |rest| == 0 || (rest[0] != 'A' && rest[0] != '@') by {
            if |ps[1..]| > 0 {
              assert ps[1..][0].Lit?;
              assert rest == ps[1..][0].text + Render(ps[1..][1..]);
            }
          }
          TokenMismatch(d, e, rest);
          ReplaceSkip(Token(e) + rest, |Token(e)|, tk, v);
          assert (Token(e) + rest)[..|Token(e)|] == Token(e);
          assert (Token(e) + rest)[|Token(e)|..] == rest;
        }
    } else {
      assert Replace("", tk, v) == "";
    }
  }

  // ---------------------------------------------------------------------
  // Finding placeholders: re.findall("@@ARG[0-9]+@@", text)
  // ---------------------------------------------------------------------

  /** Length of the leading run of decimal digits. */
  function DigitRun(s: string): (n: nat)
    ensures n <= |s| && (forall i :: 0 <= i < n ==> IsDigit(s[i]))
    ensures n < |s| ==> !IsDigit(s[n])
  {
    if |s| == 0 || !IsDigit(s[0]) then 0 else DigitRun(s[1..]) + 1
  }

  lemma {:induction false} DigitRunOf(d: string, rest: string)
    requires forall i :: 0 <= i < |d| ==> IsDigit(d[i])
    requires |rest| > 0 && !IsDigit(rest[0])
    ensures DigitRun(d + rest) == |d|
  {
    if |d| > 0 {
      assert (d + rest)[1..] == d[1..] + rest;
      DigitRunOf(d[1..], rest);
    } else {
      assert d + rest == rest;
    }
  }

  /**
   * The length of the match of `@@ARG[0-9]+@@` at the very front of `s`, or
   * 0 when there is none. The digit run is greedy; giving digits back
   * cannot help, since `@` is not a digit.
   */
  function TokenAt(s: string): (n: nat)
    ensures n == 0 || (7 < n <= |s| && IsDigits(s[5..n - 2]) && s[..n] == Token(s[5..n - 2]))
    ensures forall d :: IsDigits(d) && StartsWith(s, Token(d)) ==> n == |Token(d)|
  {
    var n := if StartsWith(s, "@@ARG") then
      var m := DigitRun(s[5..]);
      if m > 0 && StartsWith(s[5 + m..], "@@") then m + 7 else 0
    else 0;
    assert n > 0 ==> s[..n] == Token(s[5..n - 2]) by {
      if n > 0 {
        assert s[..n] == s[..5] + s[5..n - 2] + s[n - 2..n];
      }
    }
    TokenAtOnly(s, n);
    n
  }

  // The uniqueness half of TokenAt's contract.
  lemma TokenAtOnly(s: string, n: nat)
    requires n == (if StartsWith(s, "@@ARG") then
      var m := DigitRun(s[5..]);
      if m > 0 && StartsWith(s[5 + m..], "@@") then m + 7 else 0
    else 0)
    ensures forall d :: IsDigits(d) && StartsWith(s, Token(d)) ==> n == |Token(d)|
  {
    forall d | IsDigits(d) && StartsWith(s, Token(d))
      ensures n == |Token(d)|
    {
      TokenChars(d);
      var tk := Token(d);
      assert s[..|tk|] == tk;
      assert s[..5] == tk[..5];
      var t := s[5..];
      assert t[..|d| + 2] == d + "@@" by {
        assert t[..|d| + 2] == s[5..|tk|];
        assert tk[5..] == d + "@@";
      }
      assert t == d + t[|d|..] by {
        assert t[..|d|] == d;
      }
      DigitRunOf(d, t[|d|..]);
      assert t[|d|..][..2] == "@@";
    }
  }

  /** `re.findall("@@ARG[0-9]+@@", s)`: the placeholders of `s`, left to right. */
  function FindPlaceholders(s: string): (ms: seq<string>)
    ensures forall i :: 0 <= i < |ms| ==>
      7 < |ms[i]| && IsDigits(ms[i][5..|ms[i]| - 2]) && ms[i] == Token(ms[i][5..|ms[i]| - 2])
    decreases |s|
  {
    if |s| == 0 then []
    else
      var n := TokenAt(s);
      if n > 0 then [s[..n]] + FindPlaceholders(s[n..]) else FindPlaceholders(s[1..])
  }

  lemma {:induction false} FindSkipLead(t: string, b: string)
    requires '@' !in t
    ensures FindPlaceholders(t + b) == FindPlaceholders(b)
  {
    if |t| > 0 {
      var s := t + b;
      assert s[0] == t[0];
      TokenAtNone(s);
      FindNoToken(s);
      assert s[1..] == t[1..] + b;
      FindSkipLead(t[1..], b);
    } else {
      assert t + b == b;
    }
  }

  /** No placeholder starts at a character other than `@`. */
  lemma TokenAtNone(s: string)
    requires |s| > 0 && s[0] != '@'
    ensures TokenAt(s) == 0
  {
    if |s| >= 5 {
      assert s[..5][0] == s[0];
    }
    assert !StartsWith(s, "@@ARG");
  }

  /** Without a placeholder at the front, the search moves one character on. */
  lemma FindNoToken(s: string)
    requires |s| > 0 && TokenAt(s) == 0
    ensures FindPlaceholders(s) == FindPlaceholders(s[1..])
  {
  }

  lemma FindFront(d: string, b: string)
    requires IsDigits(d)
    ensures FindPlaceholders(Token(d) + b) == [Token(d)] + FindPlaceholders(b)
  {
    var s := Token(d) + b;
    TokenChars(d);
    assert StartsWith(s, Token(d));
    var n := TokenAt(s);
    assert n == |Token(d)|;
    assert s[..n] == Token(d);
    assert s[n..] == b;
  }

  /** The placeholder text of each placeholder piece, in order. */
  function Tokens(ps: seq<Piece>): seq<string>
    decreases |ps|
  {
    if |ps| == 0 then []
    else if ps[0].Ph? then [Token(ps[0].digits)] + Tokens(ps[1..])
    else Tokens(ps[1..])
  }

  /** `findall` finds exactly the placeholders of well-formed pieces, in order. */
  lemma {:induction false} FindRender(ps: seq<Piece>)
    requires PiecesWF(ps)
    ensures FindPlaceholders(Render(ps)) == Tokens(ps)
    decreases |ps|
  {
    if |ps| > 0 {
      FindRender(ps[1..]);
      match ps[0]
      case Lit(t) => FindSkipLead(t, Render(ps[1..]));
      case Ph(d) => FindFront(d, Render(ps[1..]));
    }
  }

  /** The argument name a placeholder is bound under: `x.strip("@").lower()`. */
  function PlaceholderName(x: string): string {
    Lower(Strip(x, {'@'}))
  }

  lemma PlaceholderNameOf(d: string)
    requires IsDigits(d)
    ensures PlaceholderName(Token(d)) == ArgName(d)
  {
    var core := "ARG" + d;
    assert Token(d) == ['@', '@'] + core + ['@', '@'];
    assert core[0] == 'A' && core[|core| - 1] == d[|d| - 1];
    StripPadded('@', core, {'@'});
    LowerArg(d);
  }

  /** Stripping `cs` from a core padded by two characters of `cs` on each side gives the core. */
  lemma StripPadded(c: char, core: string, cs: set<char>)
    requires c in cs && |core| > 0 && core[0] !in cs && core[|core| - 1] !in cs
    ensures Strip([c, c] + core + [c, c], cs) == core
  {
    assert [c, c] + core + [c, c] == [c] + ([c] + (core + [c, c]));
    StripLeftSkip(c, [c] + (core + [c, c]), cs);
    StripLeftSkip(c, core + [c, c], cs);
    StripLeftStop(core + [c, c], cs);
    assert core + [c, c] == (core + [c]) + [c];
    StripRightSkip(core + [c], c, cs);
    StripRightSkip(core, c, cs);
    StripRightStop(core, cs);
  }

  lemma LowerArg(d: string)
    requires IsDigits(d)
    ensures Lower("ARG" + d) == ArgName(d)
  {
    var low := Lower("ARG" + d);
    forall i | 0 <= i < |low|
      ensures low[i] == ArgName(d)[i]
    {
      if i >= 3 {
        assert ("ARG" + d)[i] == d[i - 3];
      }
    }
  }

  // ---------------------------------------------------------------------
  // substitute_args
  // ---------------------------------------------------------------------

  /** The text `"@@" + k.upper() + "@@"` that `substitute_args` replaces for the key `k`. */
  function Key(k: string): string {
    "@@" + Upper(k) + "@@"
  }

  lemma ArgNameKey(k: string)
    requires IsArgName(k)
    ensures Key(k) == Token(k[3..])
  {
    var d := k[3..];
    var u := Upper(k);
    assert u == "ARG" + d by {
      assert |u| == |"ARG" + d|;
      forall i | 0 <= i < |u|
        ensures u[i] == ("ARG" + d)[i]
      {
        if i < 3 {
          assert k[i] == k[..3][i];
        } else {
          assert k[i] == d[i - 3];
        }
      }
    }
  }

  lemma KeyInjective(k: string, j: string)
    requires IsArgName(k) && IsArgName(j) && Key(k) == Key(j)
    ensures k == j
  {
    ArgNameKey(k);
    ArgNameKey(j);
    var d, e := k[3..], j[3..];
    assert d == Token(d)[5..|Token(d)| - 2];
    assert e == Token(e)[5..|Token(e)| - 2];
    ArgNameOf(k);
    ArgNameOf(j);
  }

  /** The argument maps `extract` produces: names `argN`, values free of `@`. */
  predicate ArgsWF(args: map<string, string>) {
    forall k :: k in args ==> IsArgName(k) && '@' !in args[k]
  }

  function Restrict(args: map<string, string>, names: set<string>): map<string, string> {
    map k | k in args && k in names :: args[k]
  }

  /** `r` is `rule` with the arguments of `sub` filled in, whatever the pieces of `rule`. */
  ghost predicate Filled(rule: string, r: string, sub: map<string, string>) {
    forall ps :: Render(ps) == rule && PiecesWF(ps) ==> r == Render(Fill(ps, sub))
  }

  /**
   * `substitute_args(rule, args)`: replaces every `@@ARGN@@` by the value of
   * `argN`. Text without placeholders comes back unchanged, and text made of
   * well-formed pieces comes back with every bound placeholder filled in.
   */
  method SubstituteArgs(rule: string, args: map<string, string>) returns (r: string)
    ensures '@' !in rule ==> r == rule
    ensures ArgsWF(args) ==> Filled(rule, r, args)
  {
    var modified;
    ghost var origin;
    modified, origin := KeyedArgs(args);
    r := rule;
    var remaining := modified.Keys;
    ghost var done: set<string> := {};
    FilledNothing(rule, args);
    while remaining != {}
      invariant remaining <= modified.Keys
      invariant '@' !in rule ==> r == rule
      invariant done <= args.Keys
      invariant ArgsWF(args) ==> forall key :: key in remaining ==> origin[key] !in done
      invariant ArgsWF(args) ==> forall k :: k in args.Keys - done ==> Key(k) in remaining
      invariant ArgsWF(args) ==> Filled(rule, r, Restrict(args, done))
      decreases |remaining|
    {
      var key :| key in remaining;
      ghost var k := origin[key];
      ghost var prev := r;
      r := Replace(r, key, modified[key]);
      if '@' !in rule {
        KeyShape(k);
        ReplaceAbsent(prev, key, modified[key]);
      }
      if ArgsWF(args) {
        SubstStep(rule, prev, args, done, k);
        DrainStep(args, origin, remaining, done, key);
        done := done + {k};
      }
      remaining := remaining - {key};
    }
    if ArgsWF(args) {
      FilledAll(rule, r, args, done);
    }
  }

  /**
   * The first loop of `substitute_args`: the map from `"@@" + k.upper() + "@@"`
   * to the value of `k`. `origin` records the argument each key comes from.
   */
  method KeyedArgs(args: map<string, string>) returns (modified: map<string, string>, ghost origin: map<string, string>)
    ensures origin.Keys == modified.Keys
    ensures forall key :: key in origin ==>
      origin[key] in args && Key(origin[key]) == key && modified[key] == args[origin[key]]
    ensures forall k :: k in args ==> Key(k) in modified
    ensures ArgsWF(args) ==> forall k :: k in args ==> origin[Key(k)] == k
  {
    modified := map[];
    var todo := args.Keys;
    origin := map[];
    while todo != {}
      invariant todo <= args.Keys
      invariant origin.Keys == modified.Keys
      invariant forall key :: key in origin ==>
        origin[key] in args.Keys - todo && Key(origin[key]) == key && modified[key] == args[origin[key]]
      invariant forall k :: k in args.Keys - todo ==> Key(k) in modified
      invariant ArgsWF(args) ==> forall k :: k in args.Keys - todo ==> origin[Key(k)] == k
      decreases |todo|
    {
      var k :| k in todo;
      if ArgsWF(args) {
        KeysDistinct(args, k);
      }
      modified := modified[Key(k) := args[k]];
      origin := origin[Key(k) := k];
      todo := todo - {k};
    }
  }

  lemma FilledAll(rule: string, r: string, args: map<string, string>, done: set<string>)
    requires forall k :: k in args.Keys - done ==> Key(k) in {}
    requires Filled(rule, r, Restrict(args, done))
    ensures Filled(rule, r, args)
  {
    forall k | k in args
      ensures k in done
    {
      assert k in args.Keys - done ==> Key(k) in {};
    }
    assert Restrict(args, done).Keys == args.Keys;
    assert Restrict(args, done) == args;
  }

  lemma DrainStep(args: map<string, string>, origin: map<string, string>, remaining: set<string>,
                  done: set<string>, key: string)
    requires ArgsWF(args) && key in remaining && remaining <= origin.Keys
    requires forall key :: key in origin ==> origin[key] in args && Key(origin[key]) == key
    requires forall key :: key in remaining ==> origin[key] !in done
    requires forall k :: k in args.Keys - done ==> Key(k) in remaining
    ensures forall key' :: key' in remaining - {key} ==> origin[key'] !in done + {origin[key]}
    ensures forall k :: k in args.Keys - (done + {origin[key]}) ==> Key(k) in remaining - {key}
  {
    KeysDistinct(args, origin[key]);
  }

  lemma KeysDistinct(args: map<string, string>, k: string)
    requires ArgsWF(args) && k in args
    ensures forall j :: j in args && j != k ==> Key(j) != Key(k)
  {
    forall j | j in args && j != k
      ensures Key(j) != Key(k)
    {
      if Key(j) == Key(k) {
        KeyInjective(j, k);
      }
    }
  }

  lemma KeyShape(k: string)
    ensures |Key(k)| >= 4 && Key(k)[0] == '@'
  {
  }

  lemma FilledNothing(rule: string, args: map<string, string>)
    ensures Filled(rule, rule, Restrict(args, {}))
  {
    assert Restrict(args, {}) == map[];
    forall ps | Render(ps) == rule && PiecesWF(ps)
      ensures rule == Render(Fill(ps, map[]))
    {
      FillEmpty(ps);
    }
  }

  lemma {:induction false} FillEmpty(ps: seq<Piece>)
    ensures Fill(ps, map[]) == ps
    decreases |ps|
  {
    if |ps| > 0 {
      FillEmpty(ps[1..]);
      assert ps == [ps[0]] + ps[1..];
    }
  }

  lemma SubstStep(rule: string, prev: string, args: map<string, string>, done: set<string>, k: string)
    requires ArgsWF(args) && k in args && k !in done
    requires Filled(rule, prev, Restrict(args, done))
    ensures Filled(rule, Replace(prev, Key(k), args[k]), Restrict(args, done + {k}))
  {
    var d := k[3..];
    ArgNameKey(k);
    ArgNameOf(k);
    var sub := Restrict(args, done);
    forall ps | Render(ps) == rule && PiecesWF(ps)
      ensures Replace(prev, Key(k), args[k]) == Render(Fill(ps, Restrict(args, done + {k})))
    {
      FillWF(ps, sub);
      ReplaceRender(Fill(ps, sub), d, args[k]);
      FillSubst(ps, sub, d, args[k]);
      assert sub[ArgName(d) := args[k]] == Restrict(args, done + {k});
    }
  }


  // ---------------------------------------------------------------------
  // Rule templates
  // ---------------------------------------------------------------------

  /** A rule field: literal text, or literal text around one placeholder. */
  datatype Field = Plain(text: string) | Holed(prefix: string, digits: string, suffix: string)

  /** The fifth field: an AV rule's permissions or a `type_transition` rule's default type. */
  datatype Variable = Perms(perms: seq<string>) | Default(field: Field)

  /**
   * `kind source target:class variable [objname];`, the six blocks the rule
   * parser splits a rule into; `objname` is present for a name transition.
   */
  datatype Template = Template(
    kind: string,
    source: Field,
    target: Field,
    tclass: Field,
    variable: Variable,
    objname: Option<Field>)

  function FieldText(f: Field): string {
    match f
    case Plain(x) => x
    case Holed(p, d, s) => p + Token(d) + s
  }

  /** A permission set as written: a single word, or `{ p1 p2 ... }`. */
  function PermsText(ps: seq<string>): string {
    if |ps| == 1 then ps[0] else "{ " + Join(ps, " ") + " }"
  }

  function FieldPieces(f: Field): seq<Piece> {
    match f
    case Plain(x) => [Lit(x)]
    case Holed(p, d, s) => [Lit(p), Ph(d)] + (if s == "" then [] else [Lit(s)])
  }

  function SepThen(sep: string, rest: seq<Piece>): seq<Piece> {
    [Lit(sep)] + rest
  }

  function FieldThen(f: Field, rest: seq<Piece>): seq<Piece> {
    FieldPieces(f) + rest
  }

  function VariableThen(v: Variable, rest: seq<Piece>): seq<Piece> {
    match v
    case Perms(ps) => SepThen(PermsText(ps), rest)
    case Default(f) => FieldThen(f, rest)
  }

  /** The optional object name and the closing `;`. */
  function ClosingPieces(o: Option<Field>): seq<Piece> {
    match o
    case None => [Lit(";")]
    case Some(f) => SepThen(" ", FieldThen(f, [Lit(";")]))
  }

  /** The template text as pieces: separators and fields alternate. */
  function TemplatePieces(t: Template): seq<Piece> {
    SepThen(t.kind + " ", FieldThen(t.source, SepThen(" ", FieldThen(t.target, SepThen(":",
      FieldThen(t.tclass, SepThen(" ", VariableThen(t.variable, ClosingPieces(t.objname)))))))))
  }

  function VariableText(v: Variable): string {
    match v
    case Perms(ps) => PermsText(ps)
    case Default(f) => FieldText(f)
  }

  function ClosingText(o: Option<Field>): string {
    match o
    case None => ";"
    case Some(f) => " " + FieldText(f) + ";"
  }

  /** The rule text of a template, placeholders written as `@@ARGn@@`. */
  function RuleText(t: Template): string {
    t.kind + " " + FieldText(t.source) + " " + FieldText(t.target) + ":" + FieldText(t.tclass)
      + " " + VariableText(t.variable) + ClosingText(t.objname)
  }

  /** The digits of the template's placeholders, field by field. */
  function FieldHoles(f: Field): seq<string> {
    match f
    case Plain(_) => []
    case Holed(_, d, _) => [d]
  }

  function VariableHoles(v: Variable): seq<string> {
    match v
    case Perms(_) => []
    case Default(f) => FieldHoles(f)
  }

  function ObjnameHoles(o: Option<Field>): seq<string> {
    match o
    case None => []
    case Some(f) => FieldHoles(f)
  }

  function Holes(t: Template): seq<string> {
    FieldHoles(t.source) + (FieldHoles(t.target) + (FieldHoles(t.tclass)
      + (VariableHoles(t.variable) + ObjnameHoles(t.objname))))
  }

  /** A character of a literal template field (an m4 identifier character or a quote). */
  predicate NameChar(c: char) {
    IsArgChar(c) || c == '"'
  }

  predicate NameText(x: string) {
    forall i :: 0 <= i < |x| ==> NameChar(x[i])
  }

  predicate FieldWF(f: Field) {
    match f
    case Plain(x) => |x| > 0 && NameText(x)
    case Holed(p, d, s) => NameText(p) && IsDigits(d) && NameText(s) && (s == "" || s[0] != 'A')
  }

  predicate PermWords(ps: seq<string>) {
    forall i :: 0 <= i < |ps| ==> |ps[i]| > 0 && AllArgChars(ps[i])
  }

  predicate VariableWF(v: Variable) {
    match v
    case Perms(ps) => PermWords(ps)
    case Default(f) => FieldWF(f)
  }

  /**
   * A well-formed template: identifier-like literals, at most one placeholder
   * per field, a permission set for AV kinds without an object name, and a
   * default type for `type_transition`.
   */
  predicate TemplateWF(t: Template) {
    |t.kind| > 0 && AllArgChars(t.kind)
    && FieldWF(t.source) && FieldWF(t.target) && FieldWF(t.tclass)
    && VariableWF(t.variable)
    && (t.objname.Some? ==> FieldWF(t.objname.value))
    && (t.kind in AvRules ==> t.variable.Perms? && t.objname.None?)
    && (t.kind in TeRules ==> t.variable.Default?)
  }

  /** Every placeholder whose argument is bound becomes literal text. */
  function InstantiateField(f: Field, args: map<string, string>): Field {
    match f
    case Plain(_) => f
    case Holed(p, d, s) => if ArgName(d) in args then Plain(p + args[ArgName(d)] + s) else f
  }

  function InstantiateVariable(v: Variable, args: map<string, string>): Variable {
    match v
    case Perms(_) => v
    case Default(f) => Default(InstantiateField(f, args))
  }

  function Instantiate(t: Template, args: map<string, string>): Template {
    t.(source := InstantiateField(t.source, args),
       target := InstantiateField(t.target, args),
       tclass := InstantiateField(t.tclass, args),
       variable := InstantiateVariable(t.variable, args),
       objname := if t.objname.Some? then Some(InstantiateField(t.objname.value, args)) else None)
  }

  function Elems(ws: seq<string>): set<string> {
    set w | w in ws
  }

  /** The concrete rule a template denotes when read as a policy rule. */
  function ToRule(t: Template): Rule {
    Rule(t.kind, FieldText(t.source), FieldText(t.target), FieldText(t.tclass),
         if t.variable.Perms? then Elems(t.variable.perms) else {},
         if t.variable.Default? then FieldText(t.variable.field) else "",
         if t.objname.Some? then Some(FieldText(t.objname.value)) else None)
  }

  // ---------------------------------------------------------------------
  // Lemmas about template text
  // ---------------------------------------------------------------------

  lemma NameTextNoAt(x: string)
    requires NameText(x)
    ensures '@' !in x
  {
    forall i | 0 <= i < |x|
      ensures x[i] != '@'
    {
      assert NameChar(x[i]);
    }
  }

  lemma SepThenWF(sep: string, rest: seq<Piece>)
    requires '@' !in sep && PiecesWF(rest)
    ensures PiecesWF(SepThen(sep, rest))
    ensures |sep| > 0 && sep[0] != 'A' ==> GoodStart(SepThen(sep, rest))
  {
    assert SepThen(sep, rest)[1..] == rest;
  }

  lemma FieldThenWF(f: Field, rest: seq<Piece>)
    requires FieldWF(f) && PiecesWF(rest) && GoodStart(rest)
    ensures PiecesWF(FieldThen(f, rest))
  {
    match f {
      case Plain(x) =>
        NameTextNoAt(x);
        LitThenWF(x, rest);
      case Holed(p, d, s) =>
        HoledThenWF(p, d, s, rest);
    }
  }

  lemma HoledThenWF(p: string, d: string, s: string, rest: seq<Piece>)
    requires FieldWF(Holed(p, d, s)) && PiecesWF(rest) && GoodStart(rest)
    ensures PiecesWF(FieldThen(Holed(p, d, s), rest))
  {
    NameTextNoAt(p);
    NameTextNoAt(s);
    var tail := (if s == "" then [] else [Lit(s)]) + rest;
    if s != "" {
      LitThenWF(s, rest);
    } else {
      assert tail == rest;
    }
    var q := FieldThen(Holed(p, d, s), rest);
    assert q[0] == Lit(p) && q[1] == Ph(d);
    assert q[1..][1..] == tail;
  }

  lemma LitThenWF(x: string, rest: seq<Piece>)
    requires '@' !in x && PiecesWF(rest)
    ensures PiecesWF([Lit(x)] + rest)
    ensures |x| > 0 && x[0] != 'A' ==> GoodStart([Lit(x)] + rest)
  {
    assert ([Lit(x)] + rest)[1..] == rest;
  }

  lemma PhThenWF(d: string, rest: seq<Piece>)
    requires IsDigits(d) && PiecesWF(rest) && GoodStart(rest)
    ensures PiecesWF([Ph(d)] + rest)
  {
    assert ([Ph(d)] + rest)[1..] == rest;
  }

  lemma VariableThenWF(v: Variable, rest: seq<Piece>)
    requires VariableWF(v) && PiecesWF(rest) && GoodStart(rest)
    ensures PiecesWF(VariableThen(v, rest))
  {
    match v {
      case Perms(ps) =>
        PermsTextNoAt(ps);
        SepThenWF(PermsText(ps), rest);
      case Default(f) => FieldThenWF(f, rest);
    }
  }

  lemma PermsTextNoAt(ps: seq<string>)
    requires PermWords(ps)
    ensures '@' !in PermsText(ps)
  {
    if |ps| != 1 {
      JoinNoAt(ps);
    }
  }

  lemma {:induction false} JoinNoAt(ps: seq<string>)
    requires PermWords(ps)
    ensures '@' !in Join(ps, " ")
    decreases |ps|
  {
    if |ps| > 1 {
      JoinNoAt(ps[1..]);
    }
  }

  /** The pieces of a well-formed template are well formed. */
  lemma TemplatePiecesWF(t: Template)
    requires TemplateWF(t)
    ensures PiecesWF(TemplatePieces(t))
  {
    var close := ClosingPieces(t.objname);
    ClosingWF(t.objname);
    var p7 := VariableThen(t.variable, close);
    VariableThenWF(t.variable, close);
    SepThenWF(" ", p7);
    var p5 := FieldThen(t.tclass, SepThen(" ", p7));
    FieldThenWF(t.tclass, SepThen(" ", p7));
    SepThenWF(":", p5);
    var p3 := FieldThen(t.target, SepThen(":", p5));
    FieldThenWF(t.target, SepThen(":", p5));
    SepThenWF(" ", p3);
    FieldThenWF(t.source, SepThen(" ", p3));
    KindNoAt(t.kind);
    SepThenWF(t.kind + " ", FieldThen(t.source, SepThen(" ", p3)));
  }

  lemma ClosingWF(o: Option<Field>)
    requires o.Some? ==> FieldWF(o.value)
    ensures PiecesWF(ClosingPieces(o)) && GoodStart(ClosingPieces(o))
  {
    SepThenWF(";", []);
    if o.Some? {
      FieldThenWF(o.value, [Lit(";")]);
      SepThenWF(" ", FieldThen(o.value, [Lit(";")]));
    }
  }

  lemma KindNoAt(kind: string)
    requires AllArgChars(kind)
    ensures '@' !in kind + " "
  {
    forall i | 0 <= i < |kind|
      ensures kind[i] != '@'
    {
      assert IsArgChar(kind[i]);
    }
  }

  lemma FieldThenDigits(f: Field, rest: seq<Piece>)
    ensures PhDigits(FieldThen(f, rest)) == FieldHoles(f) + PhDigits(rest)
  {
    match f {
      case Plain(x) =>
        LitDigits(x, rest);
      case Holed(p, d, s) =>
        var tail := (if s == "" then [] else [Lit(s)]) + rest;
        assert PhDigits(tail) == PhDigits(rest) by {
          if s != "" {
            LitDigits(s, rest);
          } else {
            assert tail == rest;
          }
        }
        assert FieldThen(f, rest) == [Lit(p)] + ([Ph(d)] + tail);
        LitDigits(p, [Ph(d)] + tail);
        PhDigitsCons(d, tail);
    }
  }

  lemma LitDigits(x: string, rest: seq<Piece>)
    ensures PhDigits([Lit(x)] + rest) == PhDigits(rest)
  {
    assert ([Lit(x)] + rest)[1..] == rest;
  }

  lemma PhDigitsCons(d: string, rest: seq<Piece>)
    ensures PhDigits([Ph(d)] + rest) == [d] + PhDigits(rest)
  {
    assert ([Ph(d)] + rest)[1..] == rest;
  }

  lemma SepThenDigits(sep: string, rest: seq<Piece>)
    ensures PhDigits(SepThen(sep, rest)) == PhDigits(rest)
  {
    LitDigits(sep, rest);
  }

  /** The placeholders of a template's text are its holes, in order. */
  lemma TemplateDigits(t: Template)
    ensures PhDigits(TemplatePieces(t)) == Holes(t)
  {
    var close := ClosingPieces(t.objname);
    ClosingDigits(t.objname);
    var p7 := VariableThen(t.variable, close);
    VariableThenDigits(t.variable, close);
    var d7 := VariableHoles(t.variable) + ObjnameHoles(t.objname);
    assert PhDigits(p7) == d7;
    SepThenDigits(" ", p7);
    var p5 := FieldThen(t.tclass, SepThen(" ", p7));
    FieldThenDigits(t.tclass, SepThen(" ", p7));
    var d5 := FieldHoles(t.tclass) + d7;
    assert PhDigits(p5) == d5;
    SepThenDigits(":", p5);
    var p3 := FieldThen(t.target, SepThen(":", p5));
    FieldThenDigits(t.target, SepThen(":", p5));
    assert PhDigits(p3) == FieldHoles(t.target) + d5;
    SepThenDigits(" ", p3);
    FieldThenDigits(t.source, SepThen(" ", p3));
    SepThenDigits(t.kind + " ", FieldThen(t.source, SepThen(" ", p3)));
  }

  lemma ClosingDigits(o: Option<Field>)
    ensures PhDigits(ClosingPieces(o)) == ObjnameHoles(o)
  {
    SepThenDigits(";", []);
    if o.Some? {
      FieldThenDigits(o.value, [Lit(";")]);
      SepThenDigits(" ", FieldThen(o.value, [Lit(";")]));
    }
  }

  lemma VariableThenDigits(v: Variable, rest: seq<Piece>)
    ensures PhDigits(VariableThen(v, rest)) == VariableHoles(v) + PhDigits(rest)
  {
    match v {
      case Perms(ps) => SepThenDigits(PermsText(ps), rest);
      case Default(f) => FieldThenDigits(f, rest);
    }
  }

  lemma SepThenRender(sep: string, rest: seq<Piece>, args: map<string, string>)
    ensures Render(SepThen(sep, rest)) == sep + Render(rest)
    ensures Render(Fill(SepThen(sep, rest), args)) == sep + Render(Fill(rest, args))
  {
    RenderAppend([Lit(sep)], rest);
    FillAppend([Lit(sep)], rest, args);
    RenderAppend([Lit(sep)], Fill(rest, args));
  }

  lemma RenderCons(x: Piece, rest: seq<Piece>, args: map<string, string>)
    ensures Render([x] + rest) == PieceText(x) + Render(rest)
    ensures Fill([x] + rest, args) == [FillPiece(x, args)] + Fill(rest, args)
  {
    assert ([x] + rest)[1..] == rest;
  }

  lemma FieldRender(f: Field, args: map<string, string>)
    ensures Render(FieldPieces(f)) == FieldText(f)
    ensures Render(Fill(FieldPieces(f), args)) == FieldText(InstantiateField(f, args))
  {
    match f {
      case Plain(x) =>
        RenderCons(Lit(x), [], args);
        RenderCons(Lit(x), Fill([], args), args);
      case Holed(p, d, s) =>
        HoledRender(p, d, s, args);
    }
  }

  lemma HoledRender(p: string, d: string, s: string, args: map<string, string>)
    ensures var f := Holed(p, d, s);
      Render(FieldPieces(f)) == FieldText(f) && Render(Fill(FieldPieces(f), args)) == FieldText(InstantiateField(f, args))
  {
    var f := Holed(p, d, s);
    var tail: seq<Piece> := if s == "" then [] else [Lit(s)];
    assert Render(tail) == s && Fill(tail, args) == tail by {
      if s != "" {
        RenderCons(Lit(s), [], args);
      }
    }
    assert FieldPieces(f) == [Lit(p)] + ([Ph(d)] + tail);
    RenderCons(Lit(p), [Ph(d)] + tail, args);
    RenderCons(Ph(d), tail, args);
    var mid := FillPiece(Ph(d), args);
    RenderCons(Lit(p), [mid] + tail, args);
    RenderCons(mid, tail, args);
    assert Render(Fill(FieldPieces(f), args)) == p + (PieceText(mid) + s);
    assert p + (PieceText(mid) + s) == p + PieceText(mid) + s;
    assert p + (Token(d) + s) == p + Token(d) + s;
  }

  lemma FieldThenRender(f: Field, rest: seq<Piece>, args: map<string, string>)
    ensures Render(FieldThen(f, rest)) == FieldText(f) + Render(rest)
    ensures Render(Fill(FieldThen(f, rest), args)) == FieldText(InstantiateField(f, args)) + Render(Fill(rest, args))
  {
    var fp := FieldPieces(f);
    FieldRender(f, args);
    RenderAppend(fp, rest);
    FillAppend(fp, rest, args);
    RenderAppend(Fill(fp, args), Fill(rest, args));
  }

  lemma VariableThenRender(v: Variable, rest: seq<Piece>, args: map<string, string>)
    ensures Render(VariableThen(v, rest)) == VariableText(v) + Render(rest)
    ensures Render(Fill(VariableThen(v, rest), args)) == VariableText(InstantiateVariable(v, args)) + Render(Fill(rest, args))
  {
    match v {
      case Perms(ps) => SepThenRender(PermsText(ps), rest, args);
      case Default(f) => FieldThenRender(f, rest, args);
    }
  }

  lemma ClosingRender(o: Option<Field>, args: map<string, string>)
    ensures Render(ClosingPieces(o)) == ClosingText(o)
    ensures Render(Fill(ClosingPieces(o), args))
      == ClosingText(if o.Some? then Some(InstantiateField(o.value, args)) else None)
  {
    SepThenRender(";", [], args);
    assert Fill([], args) == [];
    if o.Some? {
      FieldThenRender(o.value, [Lit(";")], args);
      SepThenRender(" ", FieldThen(o.value, [Lit(";")]), args);
    }
  }

  /** The pieces of a template render as its rule text, and filled in as the instantiated template's text. */
  lemma TemplateRender(t: Template, args: map<string, string>)
    ensures Render(TemplatePieces(t)) == RuleText(t)
    ensures Render(Fill(TemplatePieces(t), args)) == RuleText(Instantiate(t, args))
  {
    TemplateRenderPlain(t, args);
    TemplateRenderPlain(Instantiate(t, args), map[]);
    TemplateRenderFill(t, args);
  }

  lemma TemplateRenderPlain(t: Template, args: map<string, string>)
    ensures Render(TemplatePieces(t)) == RuleText(t)
  {
    var close := ClosingPieces(t.objname);
    ClosingRender(t.objname, args);
    var p7 := VariableThen(t.variable, close);
    VariableThenRender(t.variable, close, args);
    var s7 := VariableText(t.variable) + ClosingText(t.objname);
    assert Render(p7) == s7;
    SepThenRender(" ", p7, args);
    var p5 := FieldThen(t.tclass, SepThen(" ", p7));
    FieldThenRender(t.tclass, SepThen(" ", p7), args);
    var s5 := FieldText(t.tclass) + (" " + s7);
    assert Render(p5) == s5;
    SepThenRender(":", p5, args);
    var p3 := FieldThen(t.target, SepThen(":", p5));
    FieldThenRender(t.target, SepThen(":", p5), args);
    var s3 := FieldText(t.target) + (":" + s5);
    assert Render(p3) == s3;
    SepThenRender(" ", p3, args);
    var p1 := FieldThen(t.source, SepThen(" ", p3));
    FieldThenRender(t.source, SepThen(" ", p3), args);
    var s1 := FieldText(t.source) + (" " + s3);
    assert Render(p1) == s1;
    SepThenRender(t.kind + " ", p1, args);
    RuleTextNested(t);
  }

  // RuleText regrouped to the right, the way the pieces are nested.
  lemma RuleTextNested(t: Template)
    ensures RuleText(t) == t.kind + " " + (FieldText(t.source) + (" " + (FieldText(t.target)
      + (":" + (FieldText(t.tclass) + (" " + (VariableText(t.variable) + ClosingText(t.objname))))))))
  {
    var k, a, b, c, v, o := t.kind + " ", FieldText(t.source), FieldText(t.target), FieldText(t.tclass),
      VariableText(t.variable), ClosingText(t.objname);
    calc {
      RuleText(t);
      k + a + " " + b + ":" + c + " " + v + o;
      k + (a + (" " + (b + (":" + (c + (" " + (v + o)))))));
    }
  }

  // The filled-in half of TemplateRender, one segment at a time.
  lemma TemplateRenderFill(t: Template, args: map<string, string>)
    ensures Render(Fill(TemplatePieces(t), args)) == Render(TemplatePieces(Instantiate(t, args)))
  {
    var it := Instantiate(t, args);
    var close := ClosingPieces(t.objname);
    ClosingRender(t.objname, args);
    ClosingRender(it.objname, args);
    var p7 := VariableThen(t.variable, close);
    VariableThenRender(t.variable, close, args);
    VariableThenRender(it.variable, ClosingPieces(it.objname), args);
    var q7 := VariableThen(it.variable, ClosingPieces(it.objname));
    assert Render(Fill(p7, args)) == Render(q7);
    SepThenRender(" ", p7, args);
    SepThenRender(" ", q7, args);
    var p5 := FieldThen(t.tclass, SepThen(" ", p7));
    var q5 := FieldThen(it.tclass, SepThen(" ", q7));
    FieldThenRender(t.tclass, SepThen(" ", p7), args);
    FieldThenRender(it.tclass, SepThen(" ", q7), args);
    assert Render(Fill(p5, args)) == Render(q5);
    SepThenRender(":", p5, args);
    SepThenRender(":", q5, args);
    var p3 := FieldThen(t.target, SepThen(":", p5));
    var q3 := FieldThen(it.target, SepThen(":", q5));
    FieldThenRender(t.target, SepThen(":", p5), args);
    FieldThenRender(it.target, SepThen(":", q5), args);
    assert Render(Fill(p3, args)) == Render(q3);
    SepThenRender(" ", p3, args);
    SepThenRender(" ", q3, args);
    var p1 := FieldThen(t.source, SepThen(" ", p3));
    var q1 := FieldThen(it.source, SepThen(" ", q3));
    FieldThenRender(t.source, SepThen(" ", p3), args);
    FieldThenRender(it.source, SepThen(" ", q3), args);
    assert Render(Fill(p1, args)) == Render(q1);
    SepThenRender(t.kind + " ", p1, args);
    SepThenRender(t.kind + " ", q1, args);
  }

  /**
   * `substitute_args` on the text of a well-formed template gives the text
   * of the template with the bound placeholders instantiated.
   */
  lemma SubstitutedTemplate(t: Template, args: map<string, string>, r: string)
    requires TemplateWF(t) && ArgsWF(args) && Filled(RuleText(t), r, args)
    ensures r == RuleText(Instantiate(t, args))
  {
    TemplatePiecesWF(t);
    TemplateRender(t, args);
    var ps := TemplatePieces(t);
    assert Render(ps) == RuleText(t) && PiecesWF(ps);
  }

  /** The argument names `argN` of a sequence of digit strings. */
  function ArgNames(ds: seq<string>): (ns: seq<string>)
    ensures |ns| == |ds| && forall i :: 0 <= i < |ds| ==> ns[i] == ArgName(ds[i])
  {
    seq(|ds|, i requires 0 <= i < |ds| => ArgName(ds[i]))
  }

  /** `[x.strip("@").lower() for x in ms]`. */
  function PlaceholderNames(ms: seq<string>): (ns: seq<string>)
    ensures |ns| == |ms| && forall i :: 0 <= i < |ms| ==> ns[i] == PlaceholderName(ms[i])
  {
    seq(|ms|, i requires 0 <= i < |ms| => PlaceholderName(ms[i]))
  }

  lemma {:induction false} TokenNames(ps: seq<Piece>)
    requires PiecesWF(ps)
    ensures PlaceholderNames(Tokens(ps)) == ArgNames(PhDigits(ps))
    decreases |ps|
  {
    if |ps| > 0 {
      TokenNames(ps[1..]);
      if ps[0].Ph? {
        var d := ps[0].digits;
        assert Tokens(ps) == [Token(d)] + Tokens(ps[1..]);
        assert PhDigits(ps) == [d] + PhDigits(ps[1..]);
        PlaceholderNameOf(d);
        PlaceholderNamesCons(Token(d), Tokens(ps[1..]));
        ArgNamesCons(d, PhDigits(ps[1..]));
      } else {
        assert Tokens(ps) == Tokens(ps[1..]);
        assert PhDigits(ps) == PhDigits(ps[1..]);
      }
    }
  }

  lemma PlaceholderNamesCons(m: string, ms: seq<string>)
    ensures PlaceholderNames([m] + ms) == [PlaceholderName(m)] + PlaceholderNames(ms)
  {
    var a, b := PlaceholderNames([m] + ms), [PlaceholderName(m)] + PlaceholderNames(ms);
    forall i | 0 <= i < |a| ensures a[i] == b[i] {
      if i > 0 {
        assert ([m] + ms)[i] == ms[i - 1];
      }
    }
  }

  lemma ArgNamesCons(d: string, ds: seq<string>)
    ensures ArgNames([d] + ds) == [ArgName(d)] + ArgNames(ds)
  {
    var a, b := ArgNames([d] + ds), [ArgName(d)] + ArgNames(ds);
    forall i | 0 <= i < |a| ensures a[i] == b[i] {
      if i > 0 {
        assert ([d] + ds)[i] == ds[i - 1];
      }
    }
  }

  /**
   * The extractor's argument list for a well-formed template: the name
   * `argN` of each placeholder, in order of occurrence, repeats included.
   */
  lemma TemplateArgNames(t: Template)
    requires TemplateWF(t)
    ensures PlaceholderNames(FindPlaceholders(RuleText(t))) == ArgNames(Holes(t))
  {
    var ps := TemplatePieces(t);
    TemplatePiecesWF(t);
    TemplateRender(t, map[]);
    FindRender(ps);
    TokenNames(ps);
    TemplateDigits(t);
  }
}
