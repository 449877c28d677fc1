/** The operations of Rust's `str` that the scorer-output parser relies on:
    `lines`, `trim`, `starts_with` and `split_once`, and `Iterator::find`. */
module Text {
  import opened Wrappers

  /** `k` is the first index of `xs` whose element satisfies `p`. */
  predicate IsFirst<T>(xs: seq<T>, k: nat, p: T -> bool) {
    k < |xs| && p(xs[k]) && forall j :: 0 <= j < k ==> !p(xs[j])
  }

  /** The position of the first element satisfying `p`, as `Iterator::find` scans for it. */
  function FindIndex<T>(xs: seq<T>, p: T -> bool): (r: Option<nat>)
    ensures r.None? <==> forall i :: 0 <= i < |xs| ==> !p(xs[i])
    ensures r.Some? ==> IsFirst(xs, r.value, p)
    decreases |xs|
  {
    if |xs| == 0 then None
    else if p(xs[0]) then Some(0)
    else match FindIndex(xs[1..], p)
      case None => None
      case Some(i) => Some(i + 1)
  }

  /** There is at most one first index. */
  lemma FirstIsUnique<T>(xs: seq<T>, k: nat, m: nat, p: T -> bool)
    requires IsFirst(xs, k, p) && IsFirst(xs, m, p)
    ensures k == m
  {
  }

  predicate IsNewline(c: char) { c == '\n' }

  predicate EndsWithCarriageReturn(line: string) {
    |line| > 0 && line[|line| - 1] == '\r'
  }

  function StripCarriageReturn(line: string): string {
    if EndsWithCarriageReturn(line) then line[..|line| - 1] else line
  }

  /** `str::lines`: the text is cut after every '\n'; a piece that ends in "\n" loses it,
      and then loses one '\r' before it too; a final piece without '\n' is kept as it is,
      and a final '\n' does not start an empty line. */
  function Lines(s: string): (ls: seq<string>)
    ensures forall k :: 0 <= k < |ls| ==> '\n' !in ls[k]
    ensures ls == [] <==> s == ""
    decreases |s|
  {
    match FindIndex(s, IsNewline)
    case None => if s == "" then [] else [s]
    case Some(i) =>
      assert forall j :: 0 <= j < i ==> s[..i][j] == s[j];
      [StripCarriageReturn(s[..i])] + Lines(s[i + 1..])
  }

  /** Each line followed by '\n': the text whose `lines()` are `ls`. */
  function Unlines(ls: seq<string>): string {
    if ls == [] then "" else ls[0] + "\n" + Unlines(ls[1..])
  }

  lemma {:induction false} FirstNewline(l: string, rest: string)
    requires '\n' !in l
    ensures FindIndex(l + "\n" + rest, IsNewline) == Some(|l|)
  {
    var s := l + "\n" + rest;
    assert s[|l|] == '\n';
    assert forall j :: 0 <= j < |l| ==> s[j] == l[j];
    var r := FindIndex(s, IsNewline);
    assert r.Some?;
    assert IsFirst(s, |l|, IsNewline);
    FirstIsUnique(s, r.value, |l|, IsNewline);
  }

  /** Splitting text built from lines that hold no '\n' and end in no '\r' gives those lines back. */
  lemma {:induction false} LinesOfUnlines(ls: seq<string>)
    requires forall k :: 0 <= k < |ls| ==> '\n' !in ls[k] && !EndsWithCarriageReturn(ls[k])
    ensures Lines(Unlines(ls)) == ls
  {
    if ls != [] {
      var l, rest := ls[0], Unlines(ls[1..]);
      var s := l + "\n" + rest;
      assert Unlines(ls) == s;
      FirstNewline(l, rest);
      assert s[..|l|] == l;
      assert s[|l| + 1..] == rest;
      LinesOfUnlines(ls[1..]);
      assert ls == [l] + ls[1..];
    }
  }

  /** Each line followed by "\r\n": the text a scorer writes with Windows line endings. */
  function UnlinesCrlf(ls: seq<string>): string {
    if ls == [] then "" else ls[0] + "\r\n" + UnlinesCrlf(ls[1..])
  }

  /** Splitting text whose lines end in "\r\n" gives the lines without either character:
      the '\r' before each '\n' is dropped, whatever the line ends with. */
  lemma {:induction false} LinesOfUnlinesCrlf(ls: seq<string>)
    requires forall k :: 0 <= k < |ls| ==> '\n' !in ls[k]
    ensures Lines(UnlinesCrlf(ls)) == ls
  {
    if ls != [] {
      var l, rest := ls[0], UnlinesCrlf(ls[1..]);
      var lr := l + "\r";
      var s := lr + "\n" + rest;
      assert UnlinesCrlf(ls) == s;
      assert '\n' !in lr by {
        forall j | 0 <= j < |lr| ensures lr[j] != '\n' {
          if j < |l| { assert lr[j] == l[j]; }
        }
      }
      FirstNewline(lr, rest);
      assert s[..|lr|] == lr;
      assert s[|lr| + 1..] == rest;
      assert lr[..|lr| - 1] == l;
      assert StripCarriageReturn(lr) == l;
      LinesOfUnlinesCrlf(ls[1..]);
      assert ls == [l] + ls[1..];
    }
  }

  /** No '\r' comes right before a '\n' in `s`: no line of it loses a '\r' when split. */
  predicate NoCarriageReturnBeforeNewline(s: string) {
    forall i :: 0 < i < |s| && s[i] == '\n' ==> s[i - 1] != '\r'
  }

  /** What follows a character of such a text is such a text too. */
  lemma NoCarriageReturnBeforeNewlineInSuffix(s: string, i: nat)
    requires NoCarriageReturnBeforeNewline(s) && i <= |s|
    ensures NoCarriageReturnBeforeNewline(s[i..])
  {
    forall j | 0 < j < |s| - i && s[i..][j] == '\n' ensures s[i..][j - 1] != '\r' {
      assert s[i..][j] == s[i + j] && s[i..][j - 1] == s[i + j - 1];
    }
  }

  /** The text a line was cut from, with the newline it ended in, and its remainder. */
  lemma LinesAtNewline(s: string, i: nat)
    requires FindIndex(s, IsNewline) == Some(i)
    ensures Lines(s) == [StripCarriageReturn(s[..i])] + Lines(s[i + 1..])
  {
  }

  lemma UnlinesCons(l: string, ls: seq<string>)
    ensures Unlines([l] + ls) == l + "\n" + Unlines(ls)
  {
    assert ([l] + ls)[1..] == ls;
  }

  /** The '\n' a terminated text needs no addition; an unterminated one gets one. */
  lemma TerminatedJoin(line: string, rest: string)
    ensures var s := line + "\n" + rest;
      line + "\n" + (if rest == [] || rest[|rest| - 1] == '\n' then rest else rest + "\n")
      == (if s[|s| - 1] == '\n' then s else s + "\n")
  {
    var s := line + "\n" + rest;
    if rest != [] {
      assert s[|s| - 1] == rest[|rest| - 1];
    }
  }

  /** Conversely, joining the lines of a text in which no '\r' precedes a '\n' gives the
      text back, with a '\n' added when its last line was not terminated. */
  lemma {:induction false} UnlinesOfLines(s: string)
    requires NoCarriageReturnBeforeNewline(s)
    ensures Unlines(Lines(s)) == if s == [] || s[|s| - 1] == '\n' then s else s + "\n"
    decreases |s|
  {
    var f := FindIndex(s, IsNewline);
    if f.Some? {
      var i := f.value;
      var line, rest := s[..i], s[i + 1..];
      LinesAtNewline(s, i);
      NoCarriageReturnBeforeNewlineInSuffix(s, i + 1);
      if i > 0 {
        assert line[|line| - 1] == s[i - 1];
      }
      assert StripCarriageReturn(line) == line;
      UnlinesOfLines(rest);
      UnlinesCons(line, Lines(rest));
      TerminatedJoin(line, rest);
      assert s == line + "\n" + rest;
    }
  }

  /** The Unicode White_Space property, which `char::is_whitespace` tests. */
  predicate IsWhitespace(c: char)
    ensures c == ' ' || c == '\t' || c == '\n' || c == '\r' ==> IsWhitespace(c)
    ensures IsWhitespace(c) ==> !('0' <= c <= '9') && c != '-' && c != '+' && c != '.'
    ensures IsWhitespace(c) ==> !('a' <= c <= 'z') && !('A' <= c <= 'Z')
  {
    ('\t' <= c <= '\r') || c == ' ' || c == '\U{85}' || c == '\U{A0}' || c == '\U{1680}'
    || ('\U{2000}' <= c <= '\U{200A}') || c == '\U{2028}' || c == '\U{2029}'
    || c == '\U{202F}' || c == '\U{205F}' || c == '\U{3000}'
  }

  /** The number of whitespace characters `s` starts with. */
  function LeadingWhitespace(s: string): (n: nat)
    ensures n <= |s|
    ensures forall i :: 0 <= i < n ==> IsWhitespace(s[i])
    ensures n == |s| || !IsWhitespace(s[n])
    decreases |s|
  {
    if s == "" || !IsWhitespace(s[0]) then 0
    else
      var n := LeadingWhitespace(s[1..]);
      assert forall i :: 1 <= i < |s| ==> s[i] == s[1..][i - 1];
      n + 1
  }

  /** The index at which the whitespace `s` ends with begins. */
  function TrailingWhitespaceStart(s: string): (m: nat)
    ensures m <= |s|
    ensures forall i :: m <= i < |s| ==> IsWhitespace(s[i])
    ensures m == 0 || !IsWhitespace(s[m - 1])
    decreases |s|
  {
    if s == "" || !IsWhitespace(s[|s| - 1]) then |s|
    else
      var m := TrailingWhitespaceStart(s[..|s| - 1]);
      assert forall i :: 0 <= i < |s| - 1 ==> s[i] == s[..|s| - 1][i];
      m
  }

  /** `s` is `r` with only whitespace before index `lo` and after `r`. */
  predicate IsPaddedBy(s: string, r: string, lo: nat) {
    && lo + |r| <= |s|
    && (forall i :: 0 <= i < |r| ==> r[i] == s[lo + i])
    && (forall i :: 0 <= i < lo ==> IsWhitespace(s[i]))
    && (forall i :: lo + |r| <= i < |s| ==> IsWhitespace(s[i]))
  }

  /** `str::trim`: the slice of `s` between its leading and its trailing whitespace. */
  function Trim(s: string): (r: string)
    ensures r != "" ==> !IsWhitespace(r[0]) && !IsWhitespace(r[|r| - 1])
    ensures IsPaddedBy(s, r, LeadingWhitespace(s))
  {
    var lo, hi := LeadingWhitespace(s), TrailingWhitespaceStart(s);
    if hi <= lo then "" else s[lo..hi]
  }

  /** A text trims to nothing exactly when it is all whitespace. */
  lemma TrimEmpty(s: string)
    ensures Trim(s) == "" <==> forall i :: 0 <= i < |s| ==> IsWhitespace(s[i])
  {
    var lo := LeadingWhitespace(s);
    if Trim(s) != "" {
      assert !IsWhitespace(s[lo]);
    }
  }

  /** `str::starts_with`. */
  predicate StartsWith(s: string, prefix: string)
    ensures StartsWith(s, prefix) <==> |prefix| <= |s| && forall i :: 0 <= i < |prefix| ==> s[i] == prefix[i]
  {
    |prefix| <= |s| && s[..|prefix|] == prefix
  }

  /** `pat` occurs in `s` at index `i`. */
  predicate OccursAt(s: string, pat: string, i: nat) {
    i + |pat| <= |s| && s[i..i + |pat|] == pat
  }

  /** The first index at or after `from` where `pat` occurs, as `str::find` scans for it. */
  function FindFrom(s: string, pat: string, from: nat): (r: Option<nat>)
    requires from <= |s|
    ensures r.None? <==> forall j :: from <= j <= |s| ==> !OccursAt(s, pat, j)
    ensures r.Some? ==> from <= r.value && OccursAt(s, pat, r.value)
    ensures r.Some? ==> forall j :: from <= j < r.value ==> !OccursAt(s, pat, j)
    decreases |s| - from
  {
    if OccursAt(s, pat, from) then Some(from)
    else if from == |s| then None
    else FindFrom(s, pat, from + 1)
  }

  /** `str::split_once`: the text before and after the first occurrence of `delim`. */
  function SplitOnce(s: string, delim: string): (r: Option<(string, string)>)
    ensures r.None? <==> forall j :: 0 <= j <= |s| ==> !OccursAt(s, delim, j)
    ensures r.Some? ==> s == r.value.0 + delim + r.value.1
    ensures r.Some? ==> forall j :: 0 <= j < |r.value.0| ==> !OccursAt(s, delim, j)
  {
    match FindFrom(s, delim, 0)
    case None => None
    case Some(i) =>
      assert s == s[..i] + delim + s[i + |delim|..];
      Some((s[..i], s[i + |delim|..]))
  }

  /** Any split of `s` at the first occurrence of `delim` is the one `SplitOnce` returns. */
  lemma SplitOnceAtFirst(s: string, delim: string, before: string, after: string)
    requires s == before + delim + after
    requires forall j :: 0 <= j < |before| ==> !OccursAt(s, delim, j)
    ensures SplitOnce(s, delim) == Some((before, after))
  {
    assert s[|before|..|before| + |delim|] == delim;
    assert OccursAt(s, delim, |before|);
    var r := SplitOnce(s, delim);
    assert r.Some?;
    var (a, b) := r.value;
    assert OccursAt(s, delim, |a|) by {
      assert s[|a|..|a| + |delim|] == delim;
    }
    assert |a| == |before|;
    assert a == s[..|a|] && before == s[..|before|];
    assert b == s[|a| + |delim|..] && after == s[|before| + |delim|..];
  }
}
