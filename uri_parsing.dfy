/** The path resolver of the navigation engine: a navigation string becomes
    the ordered queue of page segments and the list of (key, sub-uri) query
    parameters. The `..` back operator is rewritten to a marker segment first
    and the markers are then balanced against real page names. */
module UriParsing {
  import opened Wrappers

  /** The back operator as written in a navigation path. */
  const BackOperator: string := ".."
  /** The segment that stands for one back operator after rewriting. */
  const Marker: string := "__onePageBack"
  /** Every relative path is made absolute under this scheme and host. */
  const AppBase: string := "app://MPowerKit.github"

  /* ---------------------------------------------------------------- */
  /* Character-level helpers                                           */
  /* ---------------------------------------------------------------- */

  /** Number of occurrences of `c` in `s`. */
  function Count(s: string, c: char): nat
    decreases |s|
  {
    if |s| == 0 then 0 else (if s[0] == c then 1 else 0) + Count(s[1..], c)
  }

  lemma {:induction false} CountConcat(a: string, b: string, c: char)
    ensures Count(a + b, c) == Count(a, c) + Count(b, c)
    decreases |a|
  {
    if |a| == 0 {
      assert a + b == b;
    } else {
      assert (a + b)[1..] == a[1..] + b;
      CountConcat(a[1..], b, c);
    }
  }

  /** Index of the first `c` in `s`, or `|s|` when there is none. */
  function IndexOf(s: string, c: char): (i: nat)
    ensures i <= |s|
    ensures i < |s| ==> s[i] == c
    ensures forall j :: 0 <= j < i ==> s[j] != c
    decreases |s|
  {
    if |s| == 0 then 0 else if s[0] == c then 0 else 1 + IndexOf(s[1..], c)
  }

  lemma CountZeroMeansAbsent(s: string, c: char)
    requires Count(s, c) == 0
    ensures forall j :: 0 <= j < |s| ==> s[j] != c
    decreases |s|
  {
    if |s| > 0 {
      CountZeroMeansAbsent(s[1..], c);
      assert forall j :: 1 <= j < |s| ==> s[j] == s[1..][j - 1];
    }
  }

  lemma {:induction false} AbsentMeansCountZero(s: string, c: char)
    requires forall j :: 0 <= j < |s| ==> s[j] != c
    ensures Count(s, c) == 0
    decreases |s|
  {
    if |s| > 0 {
      assert forall j :: 0 <= j < |s[1..]| ==> s[1..][j] == s[j + 1];
      AbsentMeansCountZero(s[1..], c);
    }
  }

  /** The text after the first `c`, or "" when `s` has none. */
  function After(s: string, c: char): string {
    var i := IndexOf(s, c);
    if i < |s| then s[i + 1..] else ""
  }

  /** The text before the first `c` (all of `s` when it has none). */
  function Before(s: string, c: char): string {
    s[..IndexOf(s, c)]
  }

  /** Removing the first `c` splits the count of `c` into its two sides. */
  lemma CountAround(s: string, c: char)
    requires IndexOf(s, c) < |s|
    ensures Count(s, c) == Count(s[..IndexOf(s, c)], c) + 1 + Count(After(s, c), c)
  {
    var i := IndexOf(s, c);
    assert s == s[..i] + ([s[i]] + s[i + 1..]);
    CountConcat(s[..i], [s[i]] + s[i + 1..], c);
    CountConcat([s[i]], s[i + 1..], c);
  }

  lemma CountAfter(s: string, c: char)
    ensures IndexOf(s, c) < |s| ==> Count(After(s, c), c) == Count(s, c) - 1
    ensures IndexOf(s, c) == |s| ==> After(s, c) == ""
  {
    var i := IndexOf(s, c);
    if i < |s| {
      CountAround(s, c);
      AbsentMeansCountZero(s[..i], c);
    }
  }

  /** A prefix without `c` does not change what follows the first `c`. */
  lemma AfterPrefix(p: string, s: string, c: char)
    requires forall j :: 0 <= j < |p| ==> p[j] != c
    ensures After(p + s, c) == After(s, c)
    decreases |p|
  {
    if |p| > 0 {
      var ps := p + s;
      assert ps[0] != c;
      assert ps[1..] == p[1..] + s;
      AfterPrefix(p[1..], s, c);
      assert IndexOf(ps, c) == 1 + IndexOf(ps[1..], c);
      if IndexOf(ps, c) < |ps| {
        assert ps[IndexOf(ps, c) + 1..] == ps[1..][IndexOf(ps[1..], c) + 1..];
      }
    } else {
      assert p + s == s;
    }
  }

  /** `s` contains the back operator "..". */
  predicate HasBackOperator(s: string) {
    exists i :: 0 <= i < |s| - 1 && s[i] == '.' && s[i + 1] == '.'
  }

  /** .NET `string.Replace(pat, rep)`: every non-overlapping occurrence of
      `pat`, scanned from the left, is replaced by `rep`. */
  function Replace(s: string, pat: string, rep: string): string
    requires |pat| > 0
    decreases |s|
  {
    if |s| < |pat| then s
    else if s[..|pat|] == pat then rep + Replace(s[|pat|..], pat, rep)
    else [s[0]] + Replace(s[1..], pat, rep)
  }

  /** .NET `string.Replace(a, b)` on characters. */
  function ReplaceChar(s: string, a: char, b: char): string {
    seq(|s|, i requires 0 <= i < |s| => if s[i] == a then b else s[i])
  }

  lemma ReplaceCharCount(s: string, a: char, b: char, c: char)
    requires c != a && c != b
    ensures Count(ReplaceChar(s, a, b), c) == Count(s, c)
    decreases |s|
  {
    if |s| > 0 {
      assert ReplaceChar(s, a, b)[1..] == ReplaceChar(s[1..], a, b);
      ReplaceCharCount(s[1..], a, b, c);
    }
  }

  /** The string that results from rewriting the back operators. */
  function ReplaceDots(s: string): string {
    Replace(s, BackOperator, Marker)
  }

  /** The first character of a rewritten string is the original first
      character or the first character of the marker. */
  lemma {:induction false} ReplaceDotsHead(s: string)
    requires |s| > 0
    ensures |ReplaceDots(s)| > 0
    ensures ReplaceDots(s)[0] == s[0] || ReplaceDots(s)[0] == '_'
  {
    if |s| < 2 {
    } else if s[..2] == BackOperator {
      assert ReplaceDots(s) == Marker + ReplaceDots(s[2..]);
    } else {
      assert ReplaceDots(s) == [s[0]] + ReplaceDots(s[1..]);
    }
  }

  lemma NoBackOperatorConcat(a: string, b: string)
    requires !HasBackOperator(a) && !HasBackOperator(b)
    requires |a| == 0 || |b| == 0 || a[|a| - 1] != '.' || b[0] != '.'
    ensures !HasBackOperator(a + b)
  {
    var ab := a + b;
    forall i | 0 <= i < |ab| - 1
      ensures !(ab[i] == '.' && ab[i + 1] == '.')
    {
      if i + 1 < |a| {
        assert ab[i] == a[i] && ab[i + 1] == a[i + 1];
      } else if i >= |a| {
        assert ab[i] == b[i - |a|] && ab[i + 1] == b[i + 1 - |a|];
      }
    }
  }

  /** After rewriting, no back operator is left, and every occurrence of
      ".." (also one inside a name such as `a..b`) became the marker. */
  lemma {:induction false} ReplaceDotsRemovesBackOperators(s: string)
    ensures !HasBackOperator(ReplaceDots(s))
    decreases |s|
  {
    if |s| < 2 {
      assert ReplaceDots(s) == s;
    } else if s[..2] == BackOperator {
      ReplaceDotsRemovesBackOperators(s[2..]);
      assert !HasBackOperator(Marker);
      NoBackOperatorConcat(Marker, ReplaceDots(s[2..]));
      assert ReplaceDots(s) == Marker + ReplaceDots(s[2..]);
    } else {
      ReplaceDotsRemovesBackOperators(s[1..]);
      var rest := ReplaceDots(s[1..]);
      if s[0] == '.' && |rest| > 0 {
        ReplaceDotsHead(s[1..]);
        assert s[1] != '.' by {
          assert s[..2] == [s[0], s[1]];
        }
      }
      NoBackOperatorConcat([s[0]], rest);
      assert ReplaceDots(s) == [s[0]] + rest;
    }
  }

  /** A string without back operators is left unchanged. */
  lemma {:induction false} ReplaceDotsIdentity(s: string)
    requires !HasBackOperator(s)
    ensures ReplaceDots(s) == s
    decreases |s|
  {
    if |s| >= 2 {
      assert !(s[0] == '.' && s[1] == '.');
      assert s[..2] == [s[0], s[1]];
      forall i | 0 <= i < |s[1..]| - 1
        ensures !(s[1..][i] == '.' && s[1..][i + 1] == '.')
      {
        assert s[1..][i] == s[i + 1] && s[1..][i + 1] == s[i + 2];
      }
      ReplaceDotsIdentity(s[1..]);
    }
  }

  /** Replacing does not add or remove any character that occurs in
      neither the pattern nor its replacement. */
  lemma {:induction false} ReplaceCount(s: string, pat: string, rep: string, c: char)
    requires |pat| > 0 && Count(pat, c) == 0 && Count(rep, c) == 0
    ensures Count(Replace(s, pat, rep), c) == Count(s, c)
    decreases |s|
  {
    if |s| < |pat| {
    } else if s[..|pat|] == pat {
      var rest := Replace(s[|pat|..], pat, rep);
      ReplaceCount(s[|pat|..], pat, rep, c);
      CountConcat(rep, rest, c);
      assert s == s[..|pat|] + s[|pat|..];
      CountConcat(s[..|pat|], s[|pat|..], c);
    } else {
      var rest := Replace(s[1..], pat, rep);
      ReplaceCount(s[1..], pat, rep, c);
      CountConcat([s[0]], rest, c);
      assert s == [s[0]] + s[1..];
      CountConcat([s[0]], s[1..], c);
    }
  }

  lemma ReplaceDotsCount(s: string, c: char)
    requires c != '.' && c != '_' && !IsAlpha(c)
    ensures Count(ReplaceDots(s), c) == Count(s, c)
  {
    AbsentMeansCountZero(BackOperator, c);
    AbsentMeansCountZero(Marker, c);
    ReplaceCount(s, BackOperator, Marker, c);
  }

  lemma ReplaceDotsExample()
    ensures ReplaceDots("a..b") == "a__onePageBackb"
    ensures ReplaceDots("../A") == "__onePageBack/A"
  {
    assert ReplaceDots("b") == "b";
    assert ReplaceDots("..b") == Marker + ReplaceDots("b");
    assert ReplaceDots("a..b") == ['a'] + ReplaceDots("..b");
    assert ReplaceDots("A") == "A";
    assert ReplaceDots("/A") == ['/'] + ReplaceDots("A");
    assert ReplaceDots("../A") == Marker + ReplaceDots("/A");
  }

  /* ---------------------------------------------------------------- */
  /* Uri values                                                        */
  /* ---------------------------------------------------------------- */

  /** A parsed uri, known by its original string. */
  datatype Uri = Uri(original: string)

  /** `char.IsWhiteSpace`: the Unicode separators, the line and
      paragraph separators, and U+0009 to U+000D, U+0085 and U+00A0. */
  predicate IsWhiteSpace(c: char) {
    c == ' ' || ('\t' <= c <= '\r') || c == '\U{0085}' || c == '\U{00A0}' || c == '\U{1680}'
    || ('\U{2000}' <= c <= '\U{200A}') || c == '\U{2028}' || c == '\U{2029}' || c == '\U{202F}'
    || c == '\U{205F}' || c == '\U{3000}'
  }

  /** Empty or white space only. */
  predicate IsBlank(s: string) {
    forall i :: 0 <= i < |s| ==> IsWhiteSpace(s[i])
  }

  predicate IsAlpha(c: char) {
    'a' <= c <= 'z' || 'A' <= c <= 'Z'
  }

  predicate IsSchemeChar(c: char) {
    IsAlpha(c) || '0' <= c <= '9' || c == '+' || c == '-' || c == '.'
  }

  /** Length of the longest prefix of scheme characters. */
  function SchemeLength(s: string): (n: nat)
    ensures n <= |s|
    ensures forall j :: 0 <= j < n ==> IsSchemeChar(s[j])
    ensures n < |s| ==> !IsSchemeChar(s[n])
    decreases |s|
  {
    if |s| > 0 && IsSchemeChar(s[0]) then 1 + SchemeLength(s[1..]) else 0
  }

  /** A string that `System.Uri` reads as an absolute uri: a scheme
      followed by "://". */
  predicate IsAbsoluteText(s: string) {
    var n := SchemeLength(s);
    n > 0 && IsAlpha(s[0]) && n + 3 <= |s| && s[n..n + 3] == "://"
  }

  predicate IsAbsolute(u: Uri) {
    IsAbsoluteText(u.original)
  }

  lemma AppBaseIsAbsolute(t: string)
    ensures IsAbsoluteText(AppBase + t)
  {
    var s := AppBase + t;
    assert s[0] == 'a' && s[1] == 'p' && s[2] == 'p' && s[3] == ':';
    assert SchemeLength(s[3..]) == 0;
    assert s[1..][1..][1..] == s[3..];
    assert SchemeLength(s) == 3;
    assert s[3..6] == "://";
  }

  /** MPowerKit's `Parse`: a blank string is rejected, a string starting with
      '/' becomes absolute under the application base, anything else is
      taken as written (absolute or relative). */
  function Parse(s: string): Result<Uri> {
    if IsBlank(s) then Failure(BlankUri)
    else if s[0] == '/' then Success(Uri(AppBase + s))
    else Success(Uri(s))
  }

  lemma ParseContract(s: string)
    ensures Parse(s).Failure? <==> IsBlank(s)
    ensures Parse(s).Failure? ==> Parse(s).error == BlankUri
    ensures !IsBlank(s) && s[0] == '/' ==> IsAbsolute(Parse(s).value) && Parse(s).value.original == AppBase + s
    ensures !IsBlank(s) && s[0] != '/' ==> Parse(s).value.original == s
  {
    if !IsBlank(s) && s[0] == '/' {
      AppBaseIsAbsolute(s);
    }
  }

  /** `ReplaceDotsAndParseUri`. */
  function ReplaceDotsAndParse(s: string): Result<Uri> {
    Parse(ReplaceDots(s))
  }

  lemma ReplaceDotsAndParseContract(s: string)
    ensures ReplaceDotsAndParse(s).Success? ==> !HasBackOperator(ReplaceDotsAndParse(s).value.original)
    ensures ReplaceDotsAndParse(s).Failure? <==> IsBlank(ReplaceDots(s))
  {
    var t := ReplaceDots(s);
    ReplaceDotsRemovesBackOperators(s);
    if !IsBlank(t) && t[0] == '/' {
      assert !HasBackOperator(AppBase) by {
        forall i | 0 <= i < |AppBase| - 1
          ensures !(AppBase[i] == '.' && AppBase[i + 1] == '.')
        {
        }
      }
      NoBackOperatorConcat(AppBase, t);
    }
  }

  function StripLeadingSlash(s: string): string {
    if |s| > 0 && s[0] == '/' then s[1..] else s
  }

  /** `EnsureAbsolute`: a relative uri is placed under the application base,
      with one '/' inserted only when the original lacks it. */
  function EnsureAbsolute(u: Uri): (r: Uri)
    ensures IsAbsolute(r)
    ensures IsAbsolute(u) ==> r == u
    ensures !IsAbsolute(u) ==> r.original == AppBase + "/" + StripLeadingSlash(u.original)
  {
    if IsAbsolute(u) then u
    else
      var delimiter := if |u.original| > 0 && u.original[0] == '/' then "" else "/";
      AppBaseIsAbsolute(delimiter + u.original);
      assert AppBase + delimiter + u.original == AppBase + (delimiter + u.original);
      assert AppBase + delimiter + u.original == AppBase + "/" + StripLeadingSlash(u.original) by {
        if delimiter == "" {
          assert u.original == "/" + u.original[1..];
        }
      }
      Uri(AppBase + delimiter + u.original)
  }

  /** The absolute text the resolver works on. */
  function AbsoluteText(u: Uri): string {
    EnsureAbsolute(u).original
  }

  /* ---------------------------------------------------------------- */
  /* Splitting                                                         */
  /* ---------------------------------------------------------------- */

  /** All pieces of `s` between occurrences of `c` (empty ones included). */
  function Split(s: string, c: char): (pieces: seq<string>)
    ensures |pieces| > 0
    ensures forall k, j :: 0 <= k < |pieces| && 0 <= j < |pieces[k]| ==> pieces[k][j] != c
    decreases |s|
  {
    var i := IndexOf(s, c);
    if i == |s| then [s] else [s[..i]] + Split(s[i + 1..], c)
  }

  function Join(pieces: seq<string>, c: char): string
    requires |pieces| > 0
    decreases |pieces|
  {
    if |pieces| == 1 then pieces[0] else pieces[0] + [c] + Join(pieces[1..], c)
  }

  /** Splitting loses nothing: joining the pieces gives the string back. */
  lemma {:induction false} SplitJoin(s: string, c: char)
    ensures Join(Split(s, c), c) == s
    decreases |s|
  {
    var i := IndexOf(s, c);
    if i < |s| {
      SplitJoin(s[i + 1..], c);
      assert s == s[..i] + [c] + s[i + 1..];
    }
  }

  /** Every piece holds at most as many `d` as the whole string. */
  lemma {:induction false} SplitCount(s: string, c: char, d: char)
    requires c != d
    ensures forall k :: 0 <= k < |Split(s, c)| ==> Count(Split(s, c)[k], d) <= Count(s, d)
    decreases |s|
  {
    var i := IndexOf(s, c);
    if i < |s| {
      SplitCount(s[i + 1..], c, d);
      assert s == s[..i] + ([s[i]] + s[i + 1..]);
      CountConcat(s[..i], [s[i]] + s[i + 1..], d);
      CountConcat([s[i]], s[i + 1..], d);
    }
  }

  /** The non-empty pieces, in order; pieces free of `c` stay free of it. */
  function NonEmpty(pieces: seq<string>, c: char): (r: seq<string>)
    ensures forall k :: 0 <= k < |r| ==> |r[k]| > 0
    ensures (forall k, j :: 0 <= k < |pieces| && 0 <= j < |pieces[k]| ==> pieces[k][j] != c)
            ==> (forall k, j :: 0 <= k < |r| && 0 <= j < |r[k]| ==> r[k][j] != c)
    decreases |pieces|
  {
    if |pieces| == 0 then []
    else if |pieces[0]| == 0 then NonEmpty(pieces[1..], c)
    else [pieces[0]] + NonEmpty(pieces[1..], c)
  }

  /** The path part of an absolute text: after "scheme://authority", up to
      the query. */
  function PathPart(s: string): string {
    var pre := Before(s, '?');
    var n := SchemeLength(pre);
    if n + 3 <= |pre| then
      var rest := pre[n + 3..];
      rest[IndexOf(rest, '/')..]
    else ""
  }

  /** The query part (after the first '?') of a uri once made absolute. */
  function QueryText(u: Uri): string {
    After(AbsoluteText(u), '?')
  }

  /** `GetUriSegments`: `System.Uri.Segments` without the "/" entries and
      without the '/' each segment ends with, i.e. the non-empty pieces of
      the path between slashes. */
  function Segments(u: Uri): (segs: seq<string>)
    ensures forall k :: 0 <= k < |segs| ==> |segs[k]| > 0 && segs[k] != "/"
    ensures forall k, j :: 0 <= k < |segs| && 0 <= j < |segs[k]| ==> segs[k][j] != '/'
  {
    var r := NonEmpty(Split(PathPart(AbsoluteText(u)), '/'), '/');
    assert forall k :: 0 <= k < |r| ==> r[k][0] != '/';
    r
  }

  /* ---------------------------------------------------------------- */
  /* Balancing back markers                                            */
  /* ---------------------------------------------------------------- */

  /** One step of the balancing loop over a stack whose top is its last
      element: a marker pops a real name on top, anything else is pushed. */
  function Step(stack: seq<string>, segment: string): seq<string> {
    if segment == Marker && |stack| > 0 && stack[|stack| - 1] != Marker then stack[..|stack| - 1]
    else stack + [segment]
  }

  /** The stack after the balancing loop has consumed `segs`. */
  function Balance(segs: seq<string>): seq<string>
    decreases |segs|
  {
    if |segs| == 0 then [] else Step(Balance(segs[..|segs| - 1]), segs[|segs| - 1])
  }

  /** Zero or more markers, followed only by real names. */
  predicate NormalForm(st: seq<string>) {
    forall i, j :: 0 <= i < j < |st| && st[i] != Marker ==> st[j] != Marker
  }

  lemma StepNormalForm(st: seq<string>, x: string)
    requires NormalForm(st)
    ensures NormalForm(Step(st, x))
  {
    if x == Marker && |st| > 0 && st[|st| - 1] != Marker {
    } else if x == Marker {
      assert forall i :: 0 <= i < |st| ==> st[i] == Marker;
    }
  }

  /** A marker never follows a real name in the balanced result. */
  lemma {:induction false} BalanceNormalForm(segs: seq<string>)
    ensures NormalForm(Balance(segs))
    decreases |segs|
  {
    if |segs| > 0 {
      BalanceNormalForm(segs[..|segs| - 1]);
      StepNormalForm(Balance(segs[..|segs| - 1]), segs[|segs| - 1]);
    }
  }

  /** Input already in normal form is left as it is. */
  lemma {:induction false} BalanceOfNormalForm(t: seq<string>)
    requires NormalForm(t)
    ensures Balance(t) == t
    decreases |t|
  {
    if |t| > 0 {
      var p := t[..|t| - 1];
      assert NormalForm(p);
      BalanceOfNormalForm(p);
      if t[|t| - 1] == Marker && |p| > 0 {
        assert p[|p| - 1] == Marker;
      }
      assert p + [t[|t| - 1]] == t;
    }
  }

  /** Balancing is idempotent. */
  lemma BalanceIdempotent(segs: seq<string>)
    ensures Balance(Balance(segs)) == Balance(segs)
  {
    BalanceNormalForm(segs);
    BalanceOfNormalForm(Balance(segs));
  }

  /** Without markers nothing is popped. */
  lemma {:induction false} BalanceWithoutMarkers(segs: seq<string>)
    requires forall k :: 0 <= k < |segs| ==> segs[k] != Marker
    ensures Balance(segs) == segs
    decreases |segs|
  {
    if |segs| > 0 {
      BalanceWithoutMarkers(segs[..|segs| - 1]);
      assert segs[..|segs| - 1] + [segs[|segs| - 1]] == segs;
    }
  }

  /** Real names minus markers. */
  function Weight(s: seq<string>): int
    decreases |s|
  {
    if |s| == 0 then 0 else Weight(s[..|s| - 1]) + (if s[|s| - 1] == Marker then -1 else 1)
  }

  /** Every pop cancels one name against one marker, so names minus markers
      is the same before and after balancing. */
  lemma {:induction false} BalanceWeight(segs: seq<string>)
    ensures Weight(Balance(segs)) == Weight(segs)
    decreases |segs|
  {
    if |segs| > 0 {
      var p := segs[..|segs| - 1];
      var st := Balance(p);
      var x := segs[|segs| - 1];
      BalanceWeight(p);
      if x == Marker && |st| > 0 && st[|st| - 1] != Marker {
      } else {
        assert (st + [x])[..|st + [x]| - 1] == st;
      }
    }
  }

  predicate Increasing(idx: seq<nat>) {
    forall a, b :: 0 <= a < b < |idx| ==> idx[a] < idx[b]
  }

  /** `sub` is `s` with some elements dropped and the rest in their order. */
  ghost predicate IsSubsequence(sub: seq<string>, s: seq<string>) {
    exists idx: seq<nat> ::
      |idx| == |sub| && Increasing(idx) &&
      (forall k :: 0 <= k < |idx| ==> idx[k] < |s| && sub[k] == s[idx[k]])
  }

  lemma SubsequencePop(st: seq<string>, s: seq<string>)
    requires |st| > 0 && IsSubsequence(st, s)
    ensures IsSubsequence(st[..|st| - 1], s)
  {
    var idx: seq<nat> :| |idx| == |st| && Increasing(idx) &&
      (forall k :: 0 <= k < |idx| ==> idx[k] < |s| && st[k] == s[idx[k]]);
    var idx' := idx[..|idx| - 1];
    assert |idx'| == |st[..|st| - 1]| && Increasing(idx');
    assert forall k :: 0 <= k < |idx'| ==> idx'[k] < |s| && st[..|st| - 1][k] == s[idx'[k]];
  }

  lemma SubsequencePush(st: seq<string>, s: seq<string>, x: string)
    requires IsSubsequence(st, s)
    ensures IsSubsequence(st + [x], s + [x])
  {
    var idx: seq<nat> :| |idx| == |st| && Increasing(idx) &&
      (forall k :: 0 <= k < |idx| ==> idx[k] < |s| && st[k] == s[idx[k]]);
    var idx' := idx + [|s|];
    assert Increasing(idx');
    assert forall k :: 0 <= k < |idx'| ==> idx'[k] < |s + [x]| && (st + [x])[k] == (s + [x])[idx'[k]];
  }

  lemma SubsequenceExtend(st: seq<string>, s: seq<string>, x: string)
    requires IsSubsequence(st, s)
    ensures IsSubsequence(st, s + [x])
  {
    var idx: seq<nat> :| |idx| == |st| && Increasing(idx) &&
      (forall k :: 0 <= k < |idx| ==> idx[k] < |s| && st[k] == s[idx[k]]);
    assert forall k :: 0 <= k < |idx| ==> idx[k] < |s + [x]| && st[k] == (s + [x])[idx[k]];
  }

  /** Surviving segments keep their left-to-right order. */
  lemma {:induction false} BalanceKeepsOrder(segs: seq<string>)
    ensures IsSubsequence(Balance(segs), segs)
    decreases |segs|
  {
    if |segs| == 0 {
      var idx: seq<nat> := [];
      assert |idx| == |Balance(segs)| && Increasing(idx);
    } else {
      var p := segs[..|segs| - 1];
      var st := Balance(p);
      var x := segs[|segs| - 1];
      assert segs == p + [x];
      BalanceKeepsOrder(p);
      if x == Marker && |st| > 0 && st[|st| - 1] != Marker {
        SubsequencePop(st, p);
        SubsequenceExtend(st[..|st| - 1], p, x);
      } else {
        SubsequencePush(st, p, x);
      }
    }
  }

  lemma BalanceExamples()
    ensures Balance(["A", Marker]) == []
    ensures Balance([Marker, "A", "B", Marker]) == [Marker, "A"]
    ensures Balance([Marker, Marker]) == [Marker, Marker]
  {
    assert ["A", Marker][..1] == ["A"];
    assert ["A"][..0] == [];
    assert Balance(["A"]) == ["A"];
    assert [Marker, "A", "B", Marker][..3] == [Marker, "A", "B"];
    assert [Marker, "A", "B"][..2] == [Marker, "A"];
    assert [Marker, "A"][..1] == [Marker];
    assert [Marker][..0] == [];
    assert Balance([Marker]) == [Marker];
    assert Balance([Marker, "A"]) == [Marker, "A"];
    assert Balance([Marker, "A", "B"]) == [Marker, "A", "B"];
    assert [Marker, Marker][..1] == [Marker];
  }

  /* ---------------------------------------------------------------- */
  /* Query parameters                                                  */
  /* ---------------------------------------------------------------- */

  /** One entry of a `NameValueCollection`: a key (None for a piece without
      '=') and the values added under it, in order. */
  datatype QueryGroup = QueryGroup(key: Option<string>, values: seq<string>)

  /** One `(key, uri)` pair handed to page construction. */
  datatype QueryPair = QueryPair(key: Option<string>, uri: Uri)

  /** The pieces `HttpUtility.ParseQueryString` reads: an empty query has
      none, otherwise every piece between '&' counts, empty ones too. */
  function QueryPieces(q: string): seq<string> {
    if |q| == 0 then [] else Split(q, '&')
  }

  /** A piece becomes a key and a value at its first '='. */
  function KeyOf(piece: string): Option<string> {
    var i := IndexOf(piece, '=');
    if i < |piece| then Some(piece[..i]) else None
  }

  function ValueOf(piece: string): string {
    var i := IndexOf(piece, '=');
    if i < |piece| then piece[i + 1..] else piece
  }

  lemma ValueOfCount(piece: string, d: char)
    requires d != '='
    ensures Count(ValueOf(piece), d) <= Count(piece, d)
  {
    var i := IndexOf(piece, '=');
    if i < |piece| {
      assert piece == piece[..i + 1] + piece[i + 1..];
      CountConcat(piece[..i + 1], piece[i + 1..], d);
    }
  }

  /** `NameValueCollection.Add`: the value joins the group of its key, or
      a new group is appended. */
  function AddValue(groups: seq<QueryGroup>, key: Option<string>, value: string): seq<QueryGroup>
    decreases |groups|
  {
    if |groups| == 0 then [QueryGroup(key, [value])]
    else if groups[0].key == key then [groups[0].(values := groups[0].values + [value])] + groups[1..]
    else [groups[0]] + AddValue(groups[1..], key, value)
  }

  /** `ParseQueryString` over the pieces. */
  function GroupPieces(pieces: seq<string>): seq<QueryGroup>
    decreases |pieces|
  {
    if |pieces| == 0 then []
    else
      var last := pieces[|pieces| - 1];
      AddValue(GroupPieces(pieces[..|pieces| - 1]), KeyOf(last), ValueOf(last))
  }

  /** Keys of a grouped collection are distinct. */
  predicate DistinctKeys(groups: seq<QueryGroup>) {
    forall a, b :: 0 <= a < b < |groups| ==> groups[a].key != groups[b].key
  }

  function Repeat(key: Option<string>, n: nat): (r: seq<Option<string>>)
    ensures |r| == n && forall k :: 0 <= k < n ==> r[k] == key
    decreases n
  {
    if n == 0 then [] else Repeat(key, n - 1) + [key]
  }

  /** The key of every value, one per value, group by group. */
  function FlatKeys(groups: seq<QueryGroup>): seq<Option<string>>
    decreases |groups|
  {
    if |groups| == 0 then []
    else Repeat(groups[0].key, |groups[0].values|) + FlatKeys(groups[1..])
  }

  /** The key of every piece, in order. */
  function PieceKeys(pieces: seq<string>): seq<Option<string>>
    decreases |pieces|
  {
    if |pieces| == 0 then [] else PieceKeys(pieces[..|pieces| - 1]) + [KeyOf(pieces[|pieces| - 1])]
  }

  lemma {:induction false} AddValueDistinct(groups: seq<QueryGroup>, key: Option<string>, value: string)
    requires DistinctKeys(groups)
    ensures DistinctKeys(AddValue(groups, key, value))
    ensures forall g :: g in AddValue(groups, key, value) ==> g.key == key || g in groups
    decreases |groups|
  {
    AddValueGroups(groups, key, value);
    if |groups| > 0 && groups[0].key != key {
      var tail := AddValue(groups[1..], key, value);
      AddValueDistinct(groups[1..], key, value);
      AddValueGroups(groups[1..], key, value);
      assert DistinctKeys(groups[1..]) by {
        assert forall a :: 0 <= a < |groups[1..]| ==> groups[1..][a] == groups[a + 1];
      }
      forall b | 0 <= b < |tail| ensures tail[b].key != groups[0].key {
        assert tail[b] in tail;
        if tail[b].key != key {
          var c :| 0 <= c < |groups[1..]| && groups[1..][c] == tail[b];
          assert groups[c + 1] == tail[b];
        }
      }
      ConsDistinct(groups[0], tail);
    } else if |groups| > 0 {
      var r := AddValue(groups, key, value);
      assert forall a :: 0 <= a < |r| ==> r[a].key == groups[a].key;
    }
  }

  lemma {:induction false} AddValueGroups(groups: seq<QueryGroup>, key: Option<string>, value: string)
    ensures forall g :: g in AddValue(groups, key, value) ==> g.key == key || g in groups
    decreases |groups|
  {
    if |groups| > 0 && groups[0].key != key {
      AddValueGroups(groups[1..], key, value);
    }
  }

  lemma ConsDistinct(g: QueryGroup, tail: seq<QueryGroup>)
    requires DistinctKeys(tail) && forall b :: 0 <= b < |tail| ==> tail[b].key != g.key
    ensures DistinctKeys([g] + tail)
  {
    var r := [g] + tail;
    assert forall a :: 0 < a < |r| ==> r[a] == tail[a - 1];
  }

  lemma {:induction false} AddValueFlatKeys(groups: seq<QueryGroup>, key: Option<string>, value: string)
    ensures multiset(FlatKeys(AddValue(groups, key, value))) == multiset(FlatKeys(groups)) + multiset{key}
    decreases |groups|
  {
    var r := AddValue(groups, key, value);
    if |groups| == 0 {
      assert r == [QueryGroup(key, [value])];
      assert FlatKeys(r) == Repeat(key, 1) + FlatKeys(r[1..]);
      assert Repeat(key, 1) == [key];
    } else {
      var g := groups[0];
      var rest := FlatKeys(groups[1..]);
      assert FlatKeys(groups) == Repeat(g.key, |g.values|) + rest;
      if g.key == key {
        var g' := g.(values := g.values + [value]);
        assert r == [g'] + groups[1..];
        assert r[1..] == groups[1..];
        assert FlatKeys(r) == Repeat(key, |g'.values|) + rest;
        assert Repeat(key, |g'.values|) == Repeat(key, |g.values|) + [key];
        assert multiset(FlatKeys(r)) == multiset(Repeat(key, |g.values|)) + multiset{key} + multiset(rest);
      } else {
        var tail := AddValue(groups[1..], key, value);
        assert r == [g] + tail;
        assert r[1..] == tail;
        AddValueFlatKeys(groups[1..], key, value);
        assert FlatKeys(r) == Repeat(g.key, |g.values|) + FlatKeys(tail);
        assert multiset(FlatKeys(r)) == multiset(Repeat(g.key, |g.values|)) + multiset(FlatKeys(tail));
      }
    }
  }

  /** Grouping keeps one entry per key and exactly one key occurrence per
      piece: repeated keys give several values. */
  lemma {:induction false} GroupPiecesKeys(pieces: seq<string>)
    ensures DistinctKeys(GroupPieces(pieces))
    ensures multiset(FlatKeys(GroupPieces(pieces))) == multiset(PieceKeys(pieces))
    decreases |pieces|
  {
    if |pieces| > 0 {
      var p := pieces[..|pieces| - 1];
      var last := pieces[|pieces| - 1];
      GroupPiecesKeys(p);
      AddValueDistinct(GroupPieces(p), KeyOf(last), ValueOf(last));
      AddValueFlatKeys(GroupPieces(p), KeyOf(last), ValueOf(last));
    }
  }

  /** Every value of every group holds at most `n` question marks. */
  predicate ValuesBounded(groups: seq<QueryGroup>, n: nat) {
    forall a, b :: 0 <= a < |groups| && 0 <= b < |groups[a].values| ==> Count(groups[a].values[b], '?') <= n
  }

  lemma {:induction false} AddValueBounded(groups: seq<QueryGroup>, key: Option<string>, value: string, n: nat)
    requires ValuesBounded(groups, n) && Count(value, '?') <= n
    ensures ValuesBounded(AddValue(groups, key, value), n)
    decreases |groups|
  {
    if |groups| > 0 && groups[0].key != key {
      AddValueBounded(groups[1..], key, value, n);
      var r := AddValue(groups, key, value);
      assert r == [groups[0]] + AddValue(groups[1..], key, value);
      forall a, b | 0 <= a < |r| && 0 <= b < |r[a].values|
        ensures Count(r[a].values[b], '?') <= n
      {
        if a > 0 {
          assert r[a] == AddValue(groups[1..], key, value)[a - 1];
        }
      }
    }
  }

  lemma {:induction false} GroupPiecesBounded(pieces: seq<string>, n: nat)
    requires forall k :: 0 <= k < |pieces| ==> Count(pieces[k], '?') <= n
    ensures ValuesBounded(GroupPieces(pieces), n)
    decreases |pieces|
  {
    if |pieces| > 0 {
      var last := pieces[|pieces| - 1];
      GroupPiecesBounded(pieces[..|pieces| - 1], n);
      ValueOfCount(last, '?');
      AddValueBounded(GroupPieces(pieces[..|pieces| - 1]), KeyOf(last), ValueOf(last), n);
    }
  }

  /** The pair one query value yields: '|' becomes '/', the back operators
      are rewritten and the result is parsed. */
  function PairOf(key: Option<string>, value: string): Result<QueryPair> {
    var u :- ReplaceDotsAndParse(ReplaceChar(value, '|', '/'));
    Success(QueryPair(key, u))
  }

  /** Pairs for the first `n` values of one group. */
  function GroupPairs(key: Option<string>, values: seq<string>): Result<seq<QueryPair>>
    decreases |values|
  {
    if |values| == 0 then Success([])
    else
      var init :- GroupPairs(key, values[..|values| - 1]);
      var last :- PairOf(key, values[|values| - 1]);
      Success(init + [last])
  }

  /** The list of query parameters built from the grouped collection. */
  function QueryParameters(groups: seq<QueryGroup>): Result<seq<QueryPair>>
    decreases |groups|
  {
    if |groups| == 0 then Success([])
    else
      var init :- QueryParameters(groups[..|groups| - 1]);
      var last :- GroupPairs(groups[|groups| - 1].key, groups[|groups| - 1].values);
      Success(init + last)
  }

  lemma GroupPairsFailure(key: Option<string>, values: seq<string>)
    ensures GroupPairs(key, values).Failure? ==> GroupPairs(key, values).error == BlankUri
    decreases |values|
  {
    if |values| > 0 {
      GroupPairsFailure(key, values[..|values| - 1]);
    }
  }

  lemma {:induction false} QueryParametersFailure(groups: seq<QueryGroup>)
    ensures QueryParameters(groups).Failure? ==> QueryParameters(groups).error == BlankUri
    decreases |groups|
  {
    if |groups| > 0 {
      QueryParametersFailure(groups[..|groups| - 1]);
      GroupPairsFailure(groups[|groups| - 1].key, groups[|groups| - 1].values);
    }
  }

  /** A failure on a prefix of the groups is a failure of the whole. */
  lemma {:induction false} QueryParametersPrefixFailure(groups: seq<QueryGroup>, i: nat)
    requires i <= |groups|
    requires QueryParameters(groups[..i]).Failure?
    ensures QueryParameters(groups).Failure?
    decreases |groups| - i
  {
    if i < |groups| {
      var j := i + 1;
      assert groups[..j][..i] == groups[..i];
      QueryParametersPrefixFailure(groups, j);
    } else {
      assert groups[..i] == groups;
    }
  }

  lemma {:induction false} GroupPairsPrefixFailure(key: Option<string>, values: seq<string>, i: nat)
    requires i <= |values|
    requires GroupPairs(key, values[..i]).Failure?
    ensures GroupPairs(key, values).Failure?
    decreases |values| - i
  {
    if i < |values| {
      assert values[..i + 1][..i] == values[..i];
      GroupPairsPrefixFailure(key, values, i + 1);
    } else {
      assert values[..i] == values;
    }
  }

  /** Each value yields its own pair, with the key of its group. */
  lemma {:induction false} QueryParametersKeys(groups: seq<QueryGroup>)
    requires QueryParameters(groups).Success?
    ensures |QueryParameters(groups).value| == |FlatKeys(groups)|
    ensures forall k :: 0 <= k < |FlatKeys(groups)| ==> QueryParameters(groups).value[k].key == FlatKeys(groups)[k]
    decreases |groups|
  {
    if |groups| > 0 {
      var n := |groups| - 1;
      QueryParametersKeys(groups[..n]);
      FlatKeysSnoc(groups[..n], groups[n]);
      assert groups[..n] + [groups[n]] == groups;
      GroupPairsKeys(groups[n].key, groups[n].values);
    }
  }

  lemma {:induction false} GroupPairsKeys(key: Option<string>, values: seq<string>)
    requires GroupPairs(key, values).Success?
    ensures |GroupPairs(key, values).value| == |values|
    ensures forall k :: 0 <= k < |values| ==> GroupPairs(key, values).value[k].key == key
    decreases |values|
  {
    if |values| > 0 {
      GroupPairsKeys(key, values[..|values| - 1]);
    }
  }

  lemma {:induction false} FlatKeysSnoc(groups: seq<QueryGroup>, g: QueryGroup)
    ensures FlatKeys(groups + [g]) == FlatKeys(groups) + Repeat(g.key, |g.values|)
    decreases |groups|
  {
    if |groups| == 0 {
      assert [g][1..] == [];
    } else {
      assert (groups + [g])[1..] == groups[1..] + [g];
      FlatKeysSnoc(groups[1..], g);
    }
  }

  /** No parsed query uri keeps a '|' or a back operator. */
  predicate CleanPair(p: QueryPair) {
    !HasBackOperator(p.uri.original) && Count(p.uri.original, '|') == 0
  }

  lemma ParsedNoChar(t: string, c: char)
    requires !IsBlank(t) && Count(t, c) == 0 && Count(AppBase, c) == 0
    ensures Count(Parse(t).value.original, c) == 0
  {
    if t[0] == '/' {
      CountConcat(AppBase, t, c);
    }
  }

  lemma PairOfClean(key: Option<string>, value: string)
    requires PairOf(key, value).Success?
    ensures CleanPair(PairOf(key, value).value)
  {
    var v := ReplaceChar(value, '|', '/');
    var t := ReplaceDots(v);
    AbsentMeansCountZero(v, '|');
    ReplaceDotsCount(v, '|');
    ReplaceDotsAndParseContract(v);
    AbsentMeansCountZero(AppBase, '|');
    assert PairOf(key, value).value.uri == Parse(t).value;
    ParsedNoChar(t, '|');
  }

  lemma {:induction false} GroupPairsClean(key: Option<string>, values: seq<string>)
    requires GroupPairs(key, values).Success?
    ensures forall k :: 0 <= k < |GroupPairs(key, values).value| ==> CleanPair(GroupPairs(key, values).value[k])
    decreases |values|
  {
    if |values| > 0 {
      GroupPairsClean(key, values[..|values| - 1]);
      PairOfClean(key, values[|values| - 1]);
    }
  }

  lemma {:induction false} QueryParametersClean(groups: seq<QueryGroup>)
    requires QueryParameters(groups).Success?
    ensures forall k :: 0 <= k < |QueryParameters(groups).value| ==> CleanPair(QueryParameters(groups).value[k])
    decreases |groups|
  {
    if |groups| > 0 {
      QueryParametersClean(groups[..|groups| - 1]);
      GroupPairsClean(groups[|groups| - 1].key, groups[|groups| - 1].values);
    }
  }

  /* ---------------------------------------------------------------- */
  /* ProcessUri                                                        */
  /* ---------------------------------------------------------------- */

  /** What `ProcessUri` returns: the balanced segments in path order and
      the query pairs. */
  datatype ProcessedUri = ProcessedUri(segments: seq<string>, query: seq<QueryPair>)

  /** The grouped query collection of a uri. */
  function QueryGroups(u: Uri): seq<QueryGroup> {
    GroupPieces(QueryPieces(QueryText(u)))
  }

  /** The result `ProcessUri` computes from a uri's segments and its
      grouped query: the balanced segments, refused when nothing is left,
      and one pair per query value. */
  function ProcessParts(segments: seq<string>, groups: seq<QueryGroup>): Result<ProcessedUri> {
    var segs := Balance(segments);
    if |segs| == 0 then Failure(NotBalanced)
    else
      var query :- QueryParameters(groups);
      Success(ProcessedUri(segs, query))
  }

  /** The result `ProcessUri` computes. */
  function Processed(u: Uri): Result<ProcessedUri> {
    ProcessParts(Segments(u), QueryGroups(u))
  }

  /** `ProcessUri`: the stack loop balances the segments, a path that cancels
      out entirely is rejected, and the nested loop builds one pair per
      query value. */
  method ProcessUri(u: Uri) returns (r: Result<ProcessedUri>)
    ensures r == Processed(u)
  {
    var segments := Segments(u);
    var groups := QueryGroups(u);
    r := ProcessSegments(segments, groups);
  }

  /** The loops of `ProcessUri` once the segments and the query groups are
      known. */
  method ProcessSegments(segments: seq<string>, groups: seq<QueryGroup>) returns (r: Result<ProcessedUri>)
    ensures r == ProcessParts(segments, groups)
  {
    var realPages: seq<string> := [];
    var i := 0;
    while i < |segments|
      invariant 0 <= i <= |segments|
      invariant realPages == Balance(segments[..i])
    {
      var segment := segments[i];
      assert segments[..i + 1][..i] == segments[..i];
      if segment == Marker && |realPages| > 0 && realPages[|realPages| - 1] != Marker {
        realPages := realPages[..|realPages| - 1];
      } else {
        realPages := realPages + [segment];
      }
      i := i + 1;
    }
    assert segments[..i] == segments;
    if |realPages| == 0 {
      return Failure(NotBalanced);
    }
    var queryParams := BuildQueryParameters(groups);
    if queryParams.Failure? {
      return Failure(queryParams.error);
    }
    r := Success(ProcessedUri(realPages, queryParams.value));
  }

  /** The nested loop of `ProcessUri` over the grouped query collection. */
  method BuildQueryParameters(groups: seq<QueryGroup>) returns (r: Result<seq<QueryPair>>)
    ensures r == QueryParameters(groups)
  {
    var queryParams: seq<QueryPair> := [];
    var i := 0;
    while i < |groups|
      invariant 0 <= i <= |groups|
      invariant QueryParameters(groups[..i]) == Success(queryParams)
    {
      var key := groups[i].key;
      var values := groups[i].values;
      var pairs: seq<QueryPair> := [];
      var j := 0;
      while j < |values|
        invariant 0 <= j <= |values|
        invariant GroupPairs(key, values[..j]) == Success(pairs)
      {
        assert values[..j + 1][..j] == values[..j];
        var p := PairOf(key, values[j]);
        if p.Failure? {
          GroupPairsPrefixFailure(key, values, j + 1);
          assert groups[..i + 1][..i] == groups[..i];
          assert groups[..i + 1][i] == groups[i];
          QueryParametersPrefixFailure(groups, i + 1);
          QueryParametersFailure(groups);
          return Failure(p.error);
        }
        pairs := pairs + [p.value];
        j := j + 1;
      }
      assert values[..j] == values;
      assert groups[..i + 1][..i] == groups[..i];
      assert groups[..i + 1][i] == groups[i];
      queryParams := queryParams + pairs;
      i := i + 1;
    }
    assert groups[..i] == groups;
    r := Success(queryParams);
  }

  /** A path that cancels out, like `A/..`, is rejected as unbalanced. */
  lemma {:induction false} UnbalancedPathRejected(u: Uri)
    requires Segments(u) == ["A", Marker]
    ensures Processed(u) == Failure(NotBalanced)
  {
    BalanceExamples();
  }

  /** A path is refused as unbalanced exactly when its back operators
      cancel every segment, whatever its query. */
  lemma NotBalancedExactlyWhenCancelled(u: Uri)
    ensures Processed(u) == Failure(NotBalanced) <==> Balance(Segments(u)) == []
  {
    QueryParametersFailure(QueryGroups(u));
  }

  /** Properties of a successful `ProcessUri`: the segments are balanced
      (markers first, then names), in their original order, with names minus
      markers as in the path, and the query holds one clean pair per value
      with the key it was given under. */
  lemma ProcessedContract(u: Uri)
    requires Processed(u).Success?
    ensures var p := Processed(u).value;
      |p.segments| > 0 && NormalForm(p.segments) && IsSubsequence(p.segments, Segments(u))
      && Weight(p.segments) == Weight(Segments(u))
      && (forall k :: 0 <= k < |p.query| ==> CleanPair(p.query[k]))
      && multiset(PairKeys(p.query))
         == multiset(PieceKeys(QueryPieces(QueryText(u))))
  {
    PartsContract(Segments(u), QueryGroups(u));
    GroupPiecesKeys(QueryPieces(QueryText(u)));
  }

  /** `ProcessedContract` for given segments and query groups. */
  lemma PartsContract(segments: seq<string>, groups: seq<QueryGroup>)
    requires ProcessParts(segments, groups).Success?
    ensures var p := ProcessParts(segments, groups).value;
      |p.segments| > 0 && NormalForm(p.segments) && IsSubsequence(p.segments, segments)
      && Weight(p.segments) == Weight(segments)
      && (forall k :: 0 <= k < |p.query| ==> CleanPair(p.query[k]))
      && PairKeys(p.query) == FlatKeys(groups)
  {
    BalanceNormalForm(segments);
    BalanceKeepsOrder(segments);
    BalanceWeight(segments);
    QueryKeys(groups);
  }

  /** The keys of a list of query pairs, in order. */
  function PairKeys(q: seq<QueryPair>): seq<Option<string>> {
    seq(|q|, k requires 0 <= k < |q| => q[k].key)
  }

  /** The query pairs are clean and carry the grouped keys in order. */
  lemma QueryKeys(groups: seq<QueryGroup>)
    requires QueryParameters(groups).Success?
    ensures var q := QueryParameters(groups).value;
      (forall k :: 0 <= k < |q| ==> CleanPair(q[k]))
      && PairKeys(q) == FlatKeys(groups)
  {
    QueryParametersClean(groups);
    QueryParametersKeys(groups);
  }

  /* ---------------------------------------------------------------- */
  /* Nesting measure                                                   */
  /* ---------------------------------------------------------------- */

  /** Query nesting measure: a query-parameter uri is always smaller than
      the uri it came from, which bounds the recursion of page construction
      through `CreateTab`. */
  function Nesting(u: Uri): nat {
    var q := QueryText(u);
    if |q| == 0 then 0 else 1 + Count(q, '?')
  }

  lemma AbsoluteTextOfParsed(t: string)
    requires !IsBlank(t)
    ensures exists p: string :: (forall j :: 0 <= j < |p| ==> p[j] != '?') && AbsoluteText(Parse(t).value) == p + t
  {
    var u := Parse(t).value;
    assert forall j :: 0 <= j < |AppBase| ==> AppBase[j] != '?';
    if t[0] == '/' {
      AppBaseIsAbsolute(t);
      assert AbsoluteText(u) == AppBase + t;
    } else if IsAbsoluteText(t) {
      assert AbsoluteText(u) == "" + t;
    } else {
      assert AbsoluteText(u) == (AppBase + "/") + t;
      assert forall j :: 0 <= j < |AppBase + "/"| ==> (AppBase + "/")[j] != '?';
    }
  }

  lemma PairOfNesting(key: Option<string>, value: string, n: nat)
    requires PairOf(key, value).Success?
    requires Count(value, '?') <= n
    ensures Nesting(PairOf(key, value).value.uri) <= n
  {
    var v := ReplaceChar(value, '|', '/');
    var t := ReplaceDots(v);
    ReplaceCharCount(value, '|', '/', '?');
    ReplaceDotsCount(v, '?');
    var sub := PairOf(key, value).value.uri;
    AbsoluteTextOfParsed(t);
    var p: string :| (forall j :: 0 <= j < |p| ==> p[j] != '?') && AbsoluteText(sub) == p + t;
    AfterPrefix(p, t, '?');
    assert QueryText(sub) == After(t, '?');
    CountAfter(t, '?');
  }

  lemma {:induction false} GroupPairsNesting(key: Option<string>, values: seq<string>, n: nat)
    requires GroupPairs(key, values).Success?
    requires forall b :: 0 <= b < |values| ==> Count(values[b], '?') <= n
    ensures forall k :: 0 <= k < |GroupPairs(key, values).value| ==> Nesting(GroupPairs(key, values).value[k].uri) <= n
    decreases |values|
  {
    if |values| > 0 {
      GroupPairsNesting(key, values[..|values| - 1], n);
      PairOfNesting(key, values[|values| - 1], n);
    }
  }

  lemma {:induction false} QueryParametersNesting(groups: seq<QueryGroup>, n: nat)
    requires QueryParameters(groups).Success?
    requires ValuesBounded(groups, n)
    ensures forall k :: 0 <= k < |QueryParameters(groups).value| ==> Nesting(QueryParameters(groups).value[k].uri) <= n
    decreases |groups|
  {
    if |groups| > 0 {
      var m := |groups| - 1;
      assert ValuesBounded(groups[..m], n) by {
        forall a, b | 0 <= a < m && 0 <= b < |groups[..m][a].values|
          ensures Count(groups[..m][a].values[b], '?') <= n
        {
          assert groups[..m][a] == groups[a];
        }
      }
      QueryParametersNesting(groups[..m], n);
      assert forall b :: 0 <= b < |groups[m].values| ==> Count(groups[m].values[b], '?') <= n;
      GroupPairsNesting(groups[m].key, groups[m].values, n);
    }
  }

  /** Every query-parameter uri nests strictly less than its parent. */
  lemma ProcessedNesting(u: Uri)
    requires Processed(u).Success?
    ensures forall k :: 0 <= k < |Processed(u).value.query| ==> Nesting(Processed(u).value.query[k].uri) < Nesting(u)
  {
    var q := QueryText(u);
    if |q| == 0 {
      assert QueryGroups(u) == [];
    } else {
      SplitCount(q, '&', '?');
      GroupPiecesBounded(QueryPieces(q), Count(q, '?'));
      QueryParametersNesting(QueryGroups(u), Count(q, '?'));
    }
  }
}
