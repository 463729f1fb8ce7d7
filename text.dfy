/** The string operations the filter uses, with Python's meaning:
    `startswith`, `split`, `join`, `replace` and `strip`; a suffix test used
    when reading emitted text back; and the scans its regular expressions
    perform (a lazy `.*?` up to the next delimiter, a maximal run of
    characters from a class, and a lazy `.*?` that may not cross a line). */
module Text {
  import opened Options

  /** `s.startswith(pat)`. */
  predicate StartsWith(s: string, pat: string) {
    |pat| <= |s| && s[..|pat|] == pat
  }

  /** `s.endswith(pat)`. */
  predicate EndsWith(s: string, pat: string) {
    |pat| <= |s| && s[|s| - |pat|..] == pat
  }

  /** `pat` occurs in `s` beginning at index `k`. */
  predicate OccursAt(s: string, pat: string, k: int) {
    0 <= k && k + |pat| <= |s| && s[k..k + |pat|] == pat
  }

  /** `pat` occurs nowhere in `s`. */
  ghost predicate Absent(s: string, pat: string) {
    forall k :: !OccursAt(s, pat, k)
  }

  predicate AllIn(s: string, cs: set<char>) {
    forall i :: 0 <= i < |s| ==> s[i] in cs
  }

  /** The first occurrence of `pat` at or after `from`: where a lazy `.*?`
      followed by `pat` stops. */
  function IndexOf(s: string, pat: string, from: nat): (r: Option<nat>)
    requires from <= |s|
    ensures r.Some? ==> from <= r.value <= |s| && OccursAt(s, pat, r.value)
    ensures r.Some? ==> forall j :: from <= j < r.value ==> !OccursAt(s, pat, j)
    ensures r.None? ==> forall j :: from <= j ==> !OccursAt(s, pat, j)
    decreases |s| - from
  {
    if OccursAt(s, pat, from) then Some(from)
    else if from == |s| then None
    else IndexOf(s, pat, from + 1)
  }

  /** `IndexOf` finds an occurrence with no earlier one after `from`. */
  lemma IndexOfFinds(s: string, pat: string, from: nat, k: nat)
    requires from <= k <= |s| && OccursAt(s, pat, k)
    requires forall j :: from <= j < k ==> !OccursAt(s, pat, j)
    ensures IndexOf(s, pat, from) == Some(k)
  {
  }

  /** The end of the longest run of characters from `cs` that starts at
      `from` (a greedy `[...]*`). */
  function SpanEnd(s: string, from: nat, cs: set<char>): (e: nat)
    requires from <= |s|
    ensures from <= e <= |s|
    ensures forall i :: from <= i < e ==> s[i] in cs
    ensures e < |s| ==> s[e] !in cs
    decreases |s| - from
  {
    if from < |s| && s[from] in cs then SpanEnd(s, from + 1, cs) else from
  }

  /** The pattern `open[cs]+close` at index `at` of `s` (no other character
      class, so no backtracking is possible when `close` does not begin with a
      character of `cs`); the result is where the match ends. */
  function Bracketed(s: string, at: nat, open: string, cs: set<char>, close: string): (e: Option<nat>)
    requires at <= |s|
    ensures e.Some? ==> at + |open| < e.value - |close| && e.value <= |s|
    ensures e.Some? ==> OccursAt(s, open, at) && OccursAt(s, close, e.value - |close|)
    ensures e.Some? ==> forall i :: at + |open| <= i < e.value - |close| ==> s[i] in cs
  {
    if !OccursAt(s, open, at) then None
    else
      var m := SpanEnd(s, at + |open|, cs);
      if m > at + |open| && OccursAt(s, close, m) then Some(m + |close|) else None
  }

  /** What `Bracketed` matched is `open`, then the run, then `close`. */
  lemma BracketedSound(s: string, at: nat, open: string, cs: set<char>, close: string)
    requires at <= |s| && Bracketed(s, at, open, cs, close).Some?
    ensures var e := Bracketed(s, at, open, cs, close).value;
      var mid := s[at + |open|..e - |close|];
      |mid| > 0 && AllIn(mid, cs) && s[at..e] == open + mid + close
  {
    var e := Bracketed(s, at, open, cs, close).value;
    var a, b := at + |open|, e - |close|;
    assert s[at..e] == s[at..a] + s[a..b] + s[b..e];
  }

  /** Every text of the shape `open mid close`, with `mid` a non-empty run of
      `cs`, is found by `Bracketed`, and the match covers exactly that text. */
  lemma BracketedComplete(s: string, at: nat, open: string, mid: string, cs: set<char>, close: string)
    requires at <= |s| && |mid| > 0 && AllIn(mid, cs)
    requires |close| > 0 && close[0] !in cs
    requires OccursAt(s, open + mid + close, at)
    ensures Bracketed(s, at, open, cs, close) == Some(at + |open| + |mid| + |close|)
  {
    var a, b := at + |open|, at + |open| + |mid|;
    assert s[at..b + |close|] == open + mid + close;
    assert s[at..a] == open by {
      assert s[at..a] == s[at..b + |close|][..|open|];
    }
    assert forall k :: a <= k < b ==> s[k] == mid[k - a] by {
      forall k | a <= k < b ensures s[k] == mid[k - a] {
        assert s[k] == s[at..b + |close|][k - at] == (open + mid + close)[k - at];
      }
    }
    assert s[b..b + |close|] == close by {
      assert s[b..b + |close|] == s[at..b + |close|][|open| + |mid|..];
    }
    assert s[b] == close[0];
  }

  /** `.*?pat` without DOTALL: the first occurrence of `pat` at or after
      `from` that is reached without crossing a newline. */
  function LineUntil(s: string, pat: string, from: nat): (r: Option<nat>)
    requires from <= |s|
    ensures r.Some? ==> from <= r.value <= |s| && OccursAt(s, pat, r.value)
    ensures r.Some? ==> forall i :: from <= i < r.value ==> s[i] != '\n'
    ensures r.Some? ==> forall j :: from <= j < r.value ==> !OccursAt(s, pat, j)
    ensures r.None? ==> forall j :: from <= j <= |s| && (forall i :: from <= i < j ==> s[i] != '\n') ==> !OccursAt(s, pat, j)
    decreases |s| - from
  {
    if OccursAt(s, pat, from) then Some(from)
    else if from == |s| || s[from] == '\n' then None
    else LineUntil(s, pat, from + 1)
  }

  /** `LineUntil` finds an occurrence of `pat` that is on the same line and
      has no earlier occurrence before it. */
  lemma LineUntilFinds(s: string, pat: string, from: nat, k: nat)
    requires from <= k <= |s| && OccursAt(s, pat, k)
    requires forall i :: from <= i < k ==> s[i] != '\n'
    requires forall j :: from <= j < k ==> !OccursAt(s, pat, j)
    ensures LineUntil(s, pat, from) == Some(k)
  {
  }

  /** The pattern `open([cs]+)close(.*?)pat` at index `at` of `s`, without
      DOTALL: the run of `cs` and the text on the same line up to the first
      `pat` after `close`. */
  function BracketedLine(s: string, at: nat, open: string, cs: set<char>, close: string, pat: string): Option<(string, string)>
    requires at <= |s|
  {
    match Bracketed(s, at, open, cs, close)
    case None => None
    case Some(e) =>
      match LineUntil(s, pat, e)
      case None => None
      case Some(k) => Some((s[at + |open|..e - |close|], s[e..k]))
  }

  /** What that pattern describes: `open`, a nonempty run `mid` of `cs`,
      `close`, then `text` with no newline, and the first `pat` after it. */
  ghost predicate IsBracketedLine(s: string, at: int, open: string, mid: string, cs: set<char>, close: string, text: string, pat: string) {
    var c := at + |open|;
    var e := c + |mid| + |close|;
    |mid| > 0 && AllIn(mid, cs) && '\n' !in text
    && OccursAt(s, open, at) && OccursAt(s, mid, c) && OccursAt(s, close, c + |mid|)
    && OccursAt(s, text, e) && OccursAt(s, pat, e + |text|)
    && forall j :: e <= j < e + |text| ==> !OccursAt(s, pat, j)
  }

  /** A string laid out as open, mid, close, text, pat and anything after is
      such a line at 0 when pat's first character is not in text. */
  lemma BracketedLineLaidOut(open: string, mid: string, cs: set<char>, close: string, text: string, pat: string, rest: string)
    requires |mid| > 0 && AllIn(mid, cs) && '\n' !in text && |pat| > 0 && pat[0] !in text
    ensures IsBracketedLine(open + mid + close + text + pat + rest, 0, open, mid, cs, close, text, pat)
  {
    var s := open + mid + close + text + pat + rest;
    var c := |open|;
    var e := c + |mid| + |close|;
    assert s[..c] == open;
    assert s[c..c + |mid|] == mid;
    assert s[c + |mid|..e] == close;
    assert s[e..e + |text|] == text;
    assert s[e + |text|..e + |text| + |pat|] == pat;
    forall j | e <= j < e + |text| ensures !OccursAt(s, pat, j) {
      OccursAtHead(s, pat, j);
      assert s[j] == text[j - e];
    }
  }

  /** The scan finds only what the pattern describes. */
  lemma BracketedLineSound(s: string, at: nat, open: string, cs: set<char>, close: string, pat: string)
    requires at <= |s| && BracketedLine(s, at, open, cs, close, pat).Some?
    ensures var (mid, text) := BracketedLine(s, at, open, cs, close, pat).value;
      IsBracketedLine(s, at, open, mid, cs, close, text, pat)
  {
    var e := Bracketed(s, at, open, cs, close).value;
    var (mid, text) := BracketedLine(s, at, open, cs, close, pat).value;
    BracketedSound(s, at, open, cs, close);
    forall i | 0 <= i < |text| ensures text[i] != '\n' {
      assert text[i] == s[e + i];
    }
  }

  /** The scan finds everything the pattern describes, when `close` cannot
      be read as part of the run. */
  lemma BracketedLineComplete(s: string, at: nat, open: string, mid: string, cs: set<char>, close: string, text: string, pat: string)
    requires at <= |s| && |close| > 0 && close[0] !in cs
    requires IsBracketedLine(s, at, open, mid, cs, close, text, pat)
    ensures BracketedLine(s, at, open, cs, close, pat) == Some((mid, text))
  {
    var e := at + |open| + |mid| + |close|;
    OccursAtJoin(s, open, mid, at);
    OccursAtJoin(s, open + mid, close, at);
    BracketedComplete(s, at, open, mid, cs, close);
    forall i | e <= i < e + |text| ensures s[i] != '\n' {
      assert s[i] == s[e..e + |text|][i - e];
    }
    LineUntilFinds(s, pat, e, e + |text|);
    assert s[at + |open|..e - |close|] == mid;
  }

  /** `sep.join(parts)`. */
  function Join(parts: seq<string>, sep: string): string {
    if |parts| == 0 then ""
    else if |parts| == 1 then parts[0]
    else parts[0] + sep + Join(parts[1..], sep)
  }

  /** `s.split(sep)`: the pieces between the non-overlapping occurrences of
      `sep`, found from left to right (Python rejects an empty separator). */
  function Split(s: string, sep: string): (pieces: seq<string>)
    requires |sep| > 0
    ensures |pieces| > 0
    decreases |s|
  {
    match IndexOf(s, sep, 0)
    case None => [s]
    case Some(k) => [s[..k]] + Split(s[k + |sep|..], sep)
  }

  /** `s.replace(pat, rep)`: every non-overlapping occurrence of `pat`, found
      from left to right, is replaced by `rep` (the source never passes an
      empty `pat`). */
  function Replace(s: string, pat: string, rep: string): (r: string)
    requires |pat| > 0
    ensures Absent(s, pat) ==> r == s
    decreases |s|
  {
    match IndexOf(s, pat, 0)
    case None => s
    case Some(k) => s[..k] + rep + Replace(s[k + |pat|..], pat, rep)
  }

  /** An occurrence begins with the pattern's first character. */
  lemma OccursAtHead(s: string, pat: string, k: int)
    requires |pat| > 0
    ensures OccursAt(s, pat, k) ==> s[k] == pat[0]
  {
    if OccursAt(s, pat, k) {
      assert s[k] == s[k..k + |pat|][0];
    }
  }

  /** An occurrence of `a` followed by one of `b` is an occurrence of `a + b`. */
  lemma OccursAtJoin(s: string, a: string, b: string, k: int)
    requires OccursAt(s, a, k) && OccursAt(s, b, k + |a|)
    ensures OccursAt(s, a + b, k)
  {
    assert s[k..k + |a + b|] == s[k..k + |a|] + s[k + |a|..k + |a| + |b|];
  }

  /** An occurrence in a suffix is an occurrence in the whole string. */
  lemma OccursInSuffix(s: string, pat: string, n: nat, j: int)
    requires n <= |s| && OccursAt(s[n..], pat, j)
    ensures OccursAt(s, pat, n + j)
  {
    assert s[n..][j..j + |pat|] == s[n + j..n + j + |pat|];
  }

  /** An occurrence inside a prefix is an occurrence in the whole string. */
  lemma OccursInPrefix(s: string, pat: string, n: nat, j: int)
    requires n <= |s| && OccursAt(s[..n], pat, j)
    ensures OccursAt(s, pat, j)
  {
    assert s[..n][j..j + |pat|] == s[j..j + |pat|];
  }

  /** The piece before the first occurrence of `pat` does not contain it. */
  lemma PrefixBeforeFirstIsFree(s: string, pat: string, k: nat)
    requires |pat| > 0 && IndexOf(s, pat, 0) == Some(k)
    ensures Absent(s[..k], pat)
  {
    forall j | OccursAt(s[..k], pat, j) ensures false {
      OccursInPrefix(s, pat, k, j);
    }
  }

  /** Joining the pieces of a split with the same separator gives back the
      string: nothing is dropped or merged. */
  lemma {:induction false} JoinSplit(s: string, sep: string)
    requires |sep| > 0
    ensures Join(Split(s, sep), sep) == s
    decreases |s|
  {
    match IndexOf(s, sep, 0)
    case None =>
    case Some(k) =>
      var rest := s[k + |sep|..];
      JoinSplit(rest, sep);
      assert s[k..k + |sep|] == sep;
      assert s == s[..k] + sep + rest;
  }

  /** No piece of a split contains the separator. */
  lemma {:induction false} SplitPiecesFree(s: string, sep: string)
    requires |sep| > 0
    ensures forall i :: 0 <= i < |Split(s, sep)| ==> Absent(Split(s, sep)[i], sep)
    decreases |s|
  {
    match IndexOf(s, sep, 0)
    case None =>
    case Some(k) =>
      SplitPiecesFree(s[k + |sep|..], sep);
      PrefixBeforeFirstIsFree(s, sep, k);
  }

  /** A string without the separator splits into itself alone. */
  lemma SplitAbsent(s: string, sep: string)
    requires |sep| > 0 && Absent(s, sep)
    ensures Split(s, sep) == [s]
  {
  }

  /** `s.replace(pat, rep) == rep.join(s.split(pat))`: replacing is splitting
      and joining with the replacement. */
  lemma {:induction false} ReplaceIsJoinSplit(s: string, pat: string, rep: string)
    requires |pat| > 0
    ensures Replace(s, pat, rep) == Join(Split(s, pat), rep)
    decreases |s|
  {
    match IndexOf(s, pat, 0)
    case None =>
    case Some(k) =>
      var rest := Split(s[k + |pat|..], pat);
      ReplaceIsJoinSplit(s[k + |pat|..], pat, rep);
      assert ([s[..k]] + rest)[1..] == rest;
      assert Join([s[..k]] + rest, rep) == s[..k] + rep + Join(rest, rep);
  }

  /** The characters Python's `str.isspace` accepts, restricted to ASCII:
      tab, line feed, vertical tab, form feed, carriage return, the four
      information separators and space. */
  predicate IsSpace(c: char) {
    9 <= c as int <= 13 || 28 <= c as int <= 32
  }

  predicate AllSpace(s: string) {
    forall i :: 0 <= i < |s| ==> IsSpace(s[i])
  }

  /** The index of the first non-space character at or after `i`. */
  function SkipSpace(s: string, i: nat): (j: nat)
    requires i <= |s|
    ensures i <= j <= |s| && (forall k :: i <= k < j ==> IsSpace(s[k]))
    ensures j < |s| ==> !IsSpace(s[j])
    decreases |s| - i
  {
    if i < |s| && IsSpace(s[i]) then SkipSpace(s, i + 1) else i
  }

  /** The index just after the last non-space character before `j`, not
      going below `lo`. */
  function SkipSpaceBack(s: string, lo: nat, j: nat): (k: nat)
    requires lo <= j <= |s|
    ensures lo <= k <= j && (forall i :: k <= i < j ==> IsSpace(s[i]))
    ensures k > lo ==> !IsSpace(s[k - 1])
    decreases j
  {
    if j > lo && IsSpace(s[j - 1]) then SkipSpaceBack(s, lo, j - 1) else j
  }

  /** `s.strip()`: the result is `s` with its leading and trailing white space
      removed, and it neither begins nor ends with white space. */
  function Strip(s: string): (r: string)
    ensures r == [] || (!IsSpace(r[0]) && !IsSpace(r[|r| - 1]))
    ensures exists i :: 0 <= i <= |s| - |r| && s[i..][..|r|] == r && AllSpace(s[..i]) && AllSpace(s[i + |r|..])
  {
    var i := SkipSpace(s, 0);
    var j := SkipSpaceBack(s, i, |s|);
    assert i == j || !IsSpace(s[i]);
    assert s[i..][..j - i] == s[i..j];
    assert AllSpace(s[..i]) && AllSpace(s[j..]);
    s[i..j]
  }

  /** `Strip` is the only string of that description: any infix of `s` that
      is surrounded by white space only and does not itself begin or end
      with white space is `Strip(s)`. */
  lemma StripUnique(s: string, i: nat, r: string)
    requires i + |r| <= |s| && s[i..i + |r|] == r
    requires AllSpace(s[..i]) && AllSpace(s[i + |r|..])
    requires r == [] || (!IsSpace(r[0]) && !IsSpace(r[|r| - 1]))
    ensures Strip(s) == r
  {
    var a := SkipSpace(s, 0);
    var b := SkipSpaceBack(s, a, |s|);
    assert forall k :: 0 <= k < i ==> IsSpace(s[k]) by {
      forall k | 0 <= k < i ensures IsSpace(s[k]) { assert s[..i][k] == s[k]; }
    }
    assert forall k :: i + |r| <= k < |s| ==> IsSpace(s[k]) by {
      forall k | i + |r| <= k < |s| ensures IsSpace(s[k]) { assert s[i + |r|..][k - i - |r|] == s[k]; }
    }
    if r == [] {
      assert a == |s|;
      assert b == |s|;
    } else {
      assert s[i] == r[0];
      assert s[i + |r| - 1] == r[|r| - 1];
      assert a == i;
      assert b == i + |r|;
    }
  }
}
