/** `re.sub(pattern, callback, s)` over a pattern that never matches the
    empty string: the text is scanned from left to right; where the pattern
    matches, the match is replaced by the callback's result and the scan
    resumes after it; elsewhere one character is copied. A callback that
    raises makes the whole substitution raise. */
module Substitution {
  import opened Options

  /** A match at the start of the remaining text: the number of characters it
      covers, and the callback's result (`None` when the callback raised). */
  datatype Hit = Hit(len: nat, replacement: Option<string>)

  /** A matcher looks at the remaining text and reports a match at its start. */
  type Matcher = string -> Option<Hit>

  /** Every match covers at least one character of the remaining text. */
  ghost predicate Advances(m: Matcher) {
    forall t :: m(t).Some? ==> 0 < m(t).value.len <= |t|
  }

  /** No callback result of `m` is a failure. */
  ghost predicate NeverRaises(m: Matcher) {
    forall t :: m(t).Some? ==> m(t).value.replacement.Some?
  }

  /** `m` matches at no position of `s`. */
  ghost predicate NoMatchIn(s: string, m: Matcher) {
    forall i :: 0 <= i <= |s| ==> m(s[i..]).None?
  }

  /** The leftmost match of `m` in `s` is at index `i`, and it is `h`. */
  ghost predicate LeftmostMatch(s: string, m: Matcher, i: nat, h: Hit) {
    i <= |s| && (forall k :: 0 <= k < i ==> m(s[k..]).None?) && m(s[i..]) == Some(h)
  }

  /** The substitution applied to `s` from index `from` on. */
  function SubFrom(s: string, m: Matcher, from: nat): (r: Option<string>)
    requires Advances(m) && from <= |s|
    decreases |s| - from
  {
    match m(s[from..])
    case Some(h) =>
      var rep :- h.replacement;
      var rest :- SubFrom(s, m, from + h.len);
      Some(rep + rest)
    case None =>
      if from == |s| then Some("")
      else
        var rest :- SubFrom(s, m, from + 1);
        Some([s[from]] + rest)
  }

  /** `re.sub` over the whole text. */
  function Sub(s: string, m: Matcher): Option<string>
    requires Advances(m)
  {
    SubFrom(s, m, 0)
  }

  /** `re.sub` with a callback that cannot raise. */
  function Rewrite(s: string, m: Matcher): (r: string)
    requires Advances(m) && NeverRaises(m)
    ensures Sub(s, m) == Some(r)
  {
    SubNeverRaises(s, m, 0);
    Sub(s, m).value
  }

  /** Scanning `s` from index `j` is scanning the suffix that starts there:
      a matcher sees only the remaining text. */
  lemma {:induction false} SubFromSuffix(s: string, m: Matcher, j: nat, k: nat)
    requires Advances(m) && j + k <= |s|
    ensures SubFrom(s, m, j + k) == SubFrom(s[j..], m, k)
    decreases |s| - j - k
  {
    assert s[j..][k..] == s[j + k..];
    match m(s[j + k..])
    case Some(h) => SubFromSuffix(s, m, j, k + h.len);
    case None =>
      if j + k < |s| {
        SubFromSuffix(s, m, j, k + 1);
        assert s[j..][k] == s[j + k];
      }
  }

  /** Where the pattern matches nowhere from `from` on, the rest of the text
      comes back unchanged. */
  lemma {:induction false} SubNoMatch(s: string, m: Matcher, from: nat)
    requires Advances(m) && from <= |s|
    requires forall i :: from <= i <= |s| ==> m(s[i..]).None?
    ensures SubFrom(s, m, from) == Some(s[from..])
    decreases |s| - from
  {
    if from < |s| {
      SubNoMatch(s, m, from + 1);
      assert [s[from]] + s[from + 1..] == s[from..];
    }
  }

  /** A text the pattern matches nowhere comes back unchanged. */
  lemma SubNoMatchAll(s: string, m: Matcher)
    requires Advances(m) && NoMatchIn(s, m)
    ensures Sub(s, m) == Some(s)
  {
    assert s[0..] == s;
    SubNoMatch(s, m, 0);
  }

  /** The same for a callback that cannot raise. */
  lemma RewriteNoMatch(s: string, m: Matcher)
    requires Advances(m) && NeverRaises(m) && NoMatchIn(s, m)
    ensures Rewrite(s, m) == s
  {
    SubNoMatchAll(s, m);
  }

  /** Where the pattern does not match, one character is copied. */
  lemma SubCopies(s: string, m: Matcher, from: nat)
    requires Advances(m) && from < |s| && m(s[from..]).None?
    ensures SubFrom(s, m, from) == (var rest :- SubFrom(s, m, from + 1); Some([s[from]] + rest))
  {
  }

  /** Where the pattern matches, the match is replaced by its callback's
      result and the scan resumes after it. */
  lemma SubReplaces(s: string, m: Matcher, i: nat, n: nat, rep: string)
    requires Advances(m) && i <= |s| && m(s[i..]) == Some(Hit(n, Some(rep)))
    ensures i + n <= |s|
    ensures SubFrom(s, m, i) == (var rest :- SubFrom(s, m, i + n); Some(rep + rest))
  {
  }

  /** Copying one more character in front of a copied slice. */
  lemma PrependSlice(s: string, from: nat, i: nat, t: string)
    requires from < i <= |s|
    ensures [s[from]] + (s[from + 1..i] + t) == s[from..i] + t
  {
    assert [s[from]] + s[from + 1..i] == s[from..i];
  }

  /** The text before the leftmost match is copied, the match is replaced by
      its callback's result, and the scan resumes right after the match. */
  lemma {:induction false} SubLeftmost(s: string, m: Matcher, from: nat, i: nat, n: nat, rep: string)
    requires Advances(m) && from <= i <= |s|
    requires forall k :: from <= k < i ==> m(s[k..]).None?
    requires m(s[i..]) == Some(Hit(n, Some(rep)))
    ensures i + n <= |s|
    ensures SubFrom(s, m, i + n).None? ==> SubFrom(s, m, from).None?
    ensures SubFrom(s, m, i + n).Some? ==> SubFrom(s, m, from) == Some(s[from..i] + (rep + SubFrom(s, m, i + n).value))
    decreases i - from
  {
    if from < i {
      SubLeftmost(s, m, from + 1, i, n, rep);
      SubCopies(s, m, from);
      var after := SubFrom(s, m, i + n);
      if after.Some? {
        PrependSlice(s, from, i, rep + after.value);
      }
    } else {
      SubReplaces(s, m, i, n, rep);
      var after := SubFrom(s, m, i + n);
      if after.Some? {
        assert s[from..i] + (rep + after.value) == rep + after.value;
      }
    }
  }

  /** `SubLeftmost` for the whole text, with the rest of the scan stated as a
      substitution on the text after the match. */
  lemma SubRewritesLeftmost(s: string, m: Matcher, i: nat, n: nat, rep: string)
    requires Advances(m) && LeftmostMatch(s, m, i, Hit(n, Some(rep)))
    ensures i + n <= |s|
    ensures Sub(s[i + n..], m).None? ==> Sub(s, m).None?
    ensures Sub(s[i + n..], m).Some? ==> Sub(s, m) == Some(s[..i] + (rep + Sub(s[i + n..], m).value))
  {
    SubLeftmost(s, m, 0, i, n, rep);
    assert s[0..i] == s[..i];
    SubFromSuffix(s, m, i + n, 0);
  }

  /** When the callback of the leftmost match raises, the substitution raises. */
  lemma {:induction false} SubLeftmostRaises(s: string, m: Matcher, from: nat, i: nat, n: nat)
    requires Advances(m) && from <= i <= |s|
    requires forall k :: from <= k < i ==> m(s[k..]).None?
    requires m(s[i..]) == Some(Hit(n, None))
    ensures SubFrom(s, m, from) == None
    decreases i - from
  {
    if from < i {
      SubLeftmostRaises(s, m, from + 1, i, n);
    }
  }

  /** `SubLeftmostRaises` for the whole text. */
  lemma SubRaisesAtLeftmost(s: string, m: Matcher, i: nat, n: nat)
    requires Advances(m) && LeftmostMatch(s, m, i, Hit(n, None))
    ensures Sub(s, m) == None
  {
    SubLeftmostRaises(s, m, 0, i, n);
  }

  /** A substitution whose callback never raises never fails. */
  lemma {:induction false} SubNeverRaises(s: string, m: Matcher, from: nat)
    requires Advances(m) && NeverRaises(m) && from <= |s|
    ensures SubFrom(s, m, from).Some?
    decreases |s| - from
  {
    match m(s[from..])
    case Some(h) => SubNeverRaises(s, m, from + h.len);
    case None => if from < |s| { SubNeverRaises(s, m, from + 1); }
  }
}
