# The Apress HTML fix-up filter, in Dafny

`_filters/apress_fix.py` post-processes the HTML of a book page. Its `run`
applies four whole-buffer `re.sub` substitutions. They always run in this
order, and each one works on the previous one's output:

1. **Page markers.** Every `<a id="page_<digits>" />` is deleted.
2. **Link blocks.** A `<div class="pl">\n<code>…</code>\n</div>` block is rewritten when its body starts with `www` or `http`:
   - the body is trimmed and split on `<br />\n`;
   - each line becomes `<tt><a href="U">U</a></tt>`, where U is the line with `http://` added unless it already starts with it;
   - the links are joined with `<br>` inside `<ul>…</ul>`.
3. **Code blocks.** Every remaining such block becomes `<pre>\n#!lang\ntext</pre>`:
   - the text is the trimmed body with `<br />` removed;
   - the language is guessed from the text's first characters.
4. **Listings.** A `<div id="list_…" class="listing">` with its `<p class="normal">…</p>\n` header keeps the header verbatim. The body becomes a `<pre>` block:
   - if the body holds a caption `Chapter N - F<br />`, the block holds the file `_listings_fopnp/python2/N/F`, tagged `python`;
   - otherwise the block holds the body with `<code>`, `</code>` and `<br />` removed, tagged with the guessed language.

The project has four modules:

- `Options` (`options.dfy`): an `Option` type with the `:-` operator.
- `Text` (`text.dfy`): the Python string operations the filter uses (`startswith`, `split`, `join`, `replace`, `strip`), and a suffix test that the read-back functions `ParsePre` and `ParseNiceLink` use. It also has the scans the filter's regular expressions perform:
  - a greedy run of a character class between two delimiters;
  - a lazy `.*?` that stops at the first occurrence of the next delimiter;
  - the same lazy scan restricted to one line (no DOTALL).
- `Substitution` (`substitution.dfy`): `re.sub` for a pattern that never matches the empty string. The scan goes left to right over a *matcher*. A matcher looks at the remaining text and reports the length of the match at its start and the callback's result. When the callback raises, the result is `None`.
- `ApressFix` (`apress_fix.dfy`): the four patterns as matchers, the callbacks `nicelink`, `linkblock_fix`, `codeblock_fix` and `listing_fix`, the shared language guess, and `run` (`Run`).

The file read of `listing_fix` is a parameter, `readFile: string -> Option<string>`. It is applied to the path the filter builds. `None` stands for an `open` or `read` that raises, which makes the whole filter raise (`Run` returns `None`).

Every emitted `<pre>` block has a partner that reads it back, `ParsePre`; every emitted link has one too, `ParseNiceLink`. Joining the pieces of a split with its separator is proved to give the string back. `Replace` is proved to equal split-then-join. The caption scanner is proved sound and complete against a declarative description of the caption pattern.

## Model

| member | source | states |
|---|---|---|
| `Text.StartsWith` | _filters/apress_fix.py:6 | no contract of its own: `str.startswith`, the prefix test of `nicelink` and of the language guess |
| `Text.IndexOf` | _filters/apress_fix.py:15 | the lazy `.*?` before a delimiter: the result is an occurrence at or after `from` with no earlier one after `from`, and `None` means there is no occurrence at or after `from` |
| `Text.IndexOfFinds` | _filters/apress_fix.py:15 | an occurrence with no earlier one after `from` is exactly what `IndexOf` returns |
| `Text.SpanEnd` | _filters/apress_fix.py:26 | the greedy `[\d_]+`: every character before the end is in the class, and the character at the end is not |
| `Text.Bracketed` | _filters/apress_fix.py:52 | `open[cs]+close`: a match has `open` at the start, a non-empty run of `cs`, and `close` ending at the reported end |
| `Text.BracketedSound` | _filters/apress_fix.py:52 | the matched text is exactly `open`, a non-empty run of `cs`, then `close` |
| `Text.BracketedComplete` | _filters/apress_fix.py:52 | every occurrence of `open mid close`, with `mid` a non-empty run of `cs`, is matched with exactly that length, provided `close` cannot continue the run |
| `Text.LineUntil` | _filters/apress_fix.py:31 | the non-DOTALL `.*?<br />`: the first occurrence reached without crossing a newline, and `None` only when no occurrence is reachable on the line |
| `Text.LineUntilFinds` | _filters/apress_fix.py:31 | the first occurrence on the same line is what `LineUntil` returns |
| `Text.BracketedLine` | _filters/apress_fix.py:31 | no contract of its own: the scan `open([cs]+)close(.*?)pat` without DOTALL at one index, returning the run and the same-line text; its meaning is carried by `Text.BracketedLineSound` and `Text.BracketedLineComplete` |
| `Text.BracketedLineSound` | _filters/apress_fix.py:31 | what the caption-shaped scan returns is a caption-shaped text: open, digits, close, one-line text, and the first `<br />` after that text |
| `Text.BracketedLineComplete` | _filters/apress_fix.py:31 | every caption-shaped text is found by the scan, which returns its number and its text |
| `Text.BracketedLineLaidOut` | _filters/apress_fix.py:31 | `open mid close text pat` followed by anything is caption-shaped when `text` has no newline and no first character of `pat` |
| `Text.Join` | _filters/apress_fix.py:13 | no contract of its own: `sep.join(parts)`; its meaning is carried by `Text.JoinSplit` and `Text.ReplaceIsJoinSplit` |
| `Text.Split` | _filters/apress_fix.py:12 | `str.split` always returns at least one piece; the pieces are cut at occurrences found from left to right, as in Python. `JoinSplit` and `SplitPiecesFree` alone pin the pieces only for a separator with no border (no proper prefix that is also a suffix), which holds for every separator the filter uses (`<br />\n`, `<br />`, `<code>`, `</code>`); no lemma states this |
| `Text.JoinSplit` | _filters/apress_fix.py:12 | joining the pieces of a split with its separator gives the string back |
| `Text.SplitPiecesFree` | _filters/apress_fix.py:12 | no piece of a split contains the separator |
| `Text.SplitAbsent` | _filters/apress_fix.py:12 | a string without the separator splits into itself alone |
| `Text.Replace` | _filters/apress_fix.py:19 | `str.replace` leaves a string without the pattern unchanged |
| `Text.ReplaceIsJoinSplit` | _filters/apress_fix.py:44-45 | `s.replace(p, r)` equals `r.join(s.split(p))`: all non-overlapping occurrences, left to right, are replaced |
| `Text.IsSpace` | _filters/apress_fix.py:18 | no contract of its own: the white space that `strip` removes at :11 and :18, restricted to ASCII (tab through carriage return, the four information separators, space) |
| `Text.Strip` | _filters/apress_fix.py:18 | `str.strip` returns an infix of `s` with only white space before and after it, and the infix neither starts nor ends with white space |
| `Text.StripUnique` | _filters/apress_fix.py:11 | any infix with that description equals `Strip(s)` |
| `Substitution.SubFrom` | _filters/apress_fix.py:52-55 | no contract of its own: the left-to-right scan of `re.sub` from an index; its meaning is carried by the `Sub…` lemmas below |
| `Substitution.Sub` | _filters/apress_fix.py:52-55 | no contract of its own: `re.sub` over the whole text; see `Substitution.SubRewritesLeftmost`, `Substitution.SubRaisesAtLeftmost` and `Substitution.SubNoMatch` |
| `Substitution.Rewrite` | _filters/apress_fix.py:52-54 | `re.sub` whose callback cannot raise always returns a string |
| `Substitution.SubFromSuffix` | _filters/apress_fix.py:52-55 | the scan from index `j` on equals the scan of the suffix from `j`, since a matcher sees only the remaining text |
| `Substitution.SubNoMatch` | _filters/apress_fix.py:52-55 | with no match from `from` on, the rest is copied unchanged |
| `Substitution.SubNoMatchAll` | _filters/apress_fix.py:52-55 | a text the pattern matches nowhere comes back unchanged |
| `Substitution.RewriteNoMatch` | _filters/apress_fix.py:52-54 | the same for a callback that cannot raise |
| `Substitution.SubCopies` | _filters/apress_fix.py:52-55 | where nothing matches, one character is copied and the scan moves on by one |
| `Substitution.SubReplaces` | _filters/apress_fix.py:52-55 | a match is replaced by its callback's result, and the scan resumes right after it |
| `Substitution.SubLeftmost` | _filters/apress_fix.py:52-55 | before the leftmost match the text is copied, the match is replaced, and the scan resumes after it; a failure later fails the whole |
| `Substitution.SubRewritesLeftmost` | _filters/apress_fix.py:52-55 | the output is the text before the leftmost match, the callback's result, then the substitution of the text after the match |
| `Substitution.SubLeftmostRaises` | _filters/apress_fix.py:55 | a raising callback at the leftmost match from `from` makes the substitution raise |
| `Substitution.SubRaisesAtLeftmost` | _filters/apress_fix.py:55 | a raising callback at the leftmost match makes `re.sub` raise |
| `Substitution.SubNeverRaises` | _filters/apress_fix.py:52-55 | with a callback that never raises, the substitution never fails |
| `ApressFix.LangTag` | _filters/apress_fix.py:20-22 | no contract of its own: the three tags `html`, `bash` and `python`; see `ApressFix.LangTagRoundTrip` |
| `ApressFix.LangTagRoundTrip` | _filters/apress_fix.py:23 | each tag written after `#!` is read back by `LangNamed` as the language it was written for |
| `ApressFix.LangNamed` | _filters/apress_fix.py:23 | a language tag read back names the language whose tag it is |
| `ApressFix.GuessLang` | _filters/apress_fix.py:20-22 | the guess is total: Html if and only if the text starts with `<` or `&lt;`; Bash if and only if it starts with `$`; Python otherwise, including for empty text |
| `ApressFix.GuessLangLooksAhead` | _filters/apress_fix.py:46-48 | the guess depends on the first four characters only |
| `ApressFix.GuessLangExamples` | _filters/apress_fix.py:20-22 | `$ ls -la` is Bash, `<html>` and `&lt;p&gt;` are Html, `x = 1` and the empty text are Python |
| `ApressFix.Pre` | _filters/apress_fix.py:23 | no contract of its own: the format string `<pre>\n#!{}\n{}</pre>`; its meaning is carried by `ApressFix.PreRoundTrip` |
| `ApressFix.ParsePre` | _filters/apress_fix.py:23 | a block that reads back as (lang, text) is exactly `<pre>\n#!` + tag + `\n` + text + `</pre>` |
| `ApressFix.PreRoundTrip` | _filters/apress_fix.py:23 | every emitted block reads back as the language and text it was built from |
| `ApressFix.PageMarkerAt` | _filters/apress_fix.py:52 | a match is `<a id="page_`, a non-empty run of digits and `" />` exactly, and it is replaced by nothing |
| `ApressFix.PageMarkerFound` | _filters/apress_fix.py:52 | every page marker is matched whole and deleted |
| `ApressFix.PageMarkerExample` | _filters/apress_fix.py:52 | `<a id="page_42" />` is an 18-character match replaced by nothing |
| `ApressFix.CodeBlockSpan` | _filters/apress_fix.py:15 | a code block matches if and only if the opening is there and some `</code>\n</div>` follows it; the capture ends at the first one |
| `ApressFix.UrlLead` | _filters/apress_fix.py:3 | no contract of its own: how many characters the `(?:www|http)` group takes after the opening, or 0 when it does not match; see `ApressFix.LeadHidesClose` and `ApressFix.LinkBlockSpan` |
| `ApressFix.LeadHidesClose` | _filters/apress_fix.py:3 | no `</code>\n</div>` can begin inside the `www` or `http` lead |
| `ApressFix.LinkBlockSpan` | _filters/apress_fix.py:3 | a link block matches if and only if the opening is followed by `www` or `http` and by some `</code>\n</div>`; the capture ends at the first one |
| `ApressFix.LinkBlockIsCodeBlock` | _filters/apress_fix.py:53-54 | a link block is also a code block with the same extent, so the link stage has to run first |
| `ApressFix.NormalizeUrl` | _filters/apress_fix.py:6-7 | the result starts with `http://` and ends with the URL; a URL already starting with `http://` is unchanged, and any other URL gets exactly that prefix |
| `ApressFix.NormalizeUrlIdempotent` | _filters/apress_fix.py:6-7 | the prefix is added at most once |
| `ApressFix.ParseNiceLink` | _filters/apress_fix.py:8 | a link that reads back as U is exactly `<tt><a href="U">U</a></tt>` |
| `ApressFix.NiceLink` | _filters/apress_fix.py:5-8 | `nicelink` yields a link whose `href` and visible text are both the normalised URL |
| `ApressFix.NiceLinks` | _filters/apress_fix.py:13 | one link per URL, in order |
| `ApressFix.LinkPieces` | _filters/apress_fix.py:11-12 | no contract of its own: the trimmed capture split on `<br />\n`; see `ApressFix.LinkBlockOneLinkPerLine` |
| `ApressFix.LinkBlockFix` | _filters/apress_fix.py:13 | the result is wrapped in `<ul>` and `</ul>` |
| `ApressFix.LinkBlockOneLinkPerLine` | _filters/apress_fix.py:10-13 | one link per line of the trimmed block split on `<br />\n`, in order, none dropped or merged: the lines rejoin to the trimmed block, none holds a separator, and link `i` points to line `i` normalised; its last conjunct only restates `LinkBlockFix`'s body (`<ul>` + links joined by `<br>` + `</ul>`) for use beside the others |
| `ApressFix.LinkBlockSingleUrl` | _filters/apress_fix.py:10-13 | a block holding a single URL gives a one-item list |
| `ApressFix.LinkBlockAt` | _filters/apress_fix.py:53 | a link-block match covers at least one character and its callback never raises |
| `ApressFix.CodeText` | _filters/apress_fix.py:18-19 | no contract of its own: the capture trimmed, then `<br />` removed; see `Text.StripUnique` and `Text.ReplaceIsJoinSplit` |
| `ApressFix.CodeBlockFix` | _filters/apress_fix.py:17-23 | the output reads back as the guessed language and the trimmed capture with `<br />` removed in one pass, so it is exactly `<pre>\n#!` + lang + `\n` + that text + `</pre>` |
| `ApressFix.CodeBlockAt` | _filters/apress_fix.py:54 | a code-block match covers at least one character and its callback never raises |
| `ApressFix.CaptionAt` | _filters/apress_fix.py:31 | no contract of its own: the caption pattern at one index; its meaning is carried by `ApressFix.CaptionAtSound` and `ApressFix.CaptionAtComplete` |
| `ApressFix.CaptionAtSound` | _filters/apress_fix.py:31 | what the caption scan returns is a caption: `Chapter `, digits, ` - `, a one-line file name, and the first `<br />` after it |
| `ApressFix.CaptionAtComplete` | _filters/apress_fix.py:31 | every caption is found, with its chapter and file name |
| `ApressFix.FindCaption` | _filters/apress_fix.py:35 | `re.search` finds the leftmost position where a caption begins, or reports that none exists |
| `ApressFix.ListingSourceOf` | _filters/apress_fix.py:35-38 | no contract of its own: the chapter and file of the body's first caption, or the body itself; see `ApressFix.ListingSourceIsLeftmostCaption` |
| `ApressFix.ListingSourceIsLeftmostCaption` | _filters/apress_fix.py:35-38 | a listing is inline if and only if its body holds no caption, and then its text comes from the body; otherwise it names the chapter and file of the leftmost caption |
| `ApressFix.ListingSourceAtStart` | _filters/apress_fix.py:35-38 | a caption at the start of the body names the listing's source |
| `ApressFix.SocketsCaption` | _filters/apress_fix.py:31 | `Chapter 3 - sockets.py<br />` is a caption for chapter `3` and file `sockets.py` |
| `ApressFix.ListingReferenceExample` | _filters/apress_fix.py:35-38 | a body opening with that caption refers to chapter `3`, file `sockets.py` |
| `ApressFix.ListingPath` | _filters/apress_fix.py:39 | no contract of its own: `_listings_fopnp/python2/` + chapter + `/` + file; see `ApressFix.ListingPathExample` |
| `ApressFix.InlineText` | _filters/apress_fix.py:44-45 | no contract of its own: three `replace` passes in the source's order; see `Text.ReplaceIsJoinSplit` |
| `ApressFix.ListingFix` | _filters/apress_fix.py:33-49 | no contract of its own: `listing_fix` with the read injected; its meaning is carried by `ApressFix.ListingFixEmits`, `ApressFix.ListingFixFrame` and `ApressFix.ListingFixFailsOnRead` |
| `ApressFix.ListingPathExample` | _filters/apress_fix.py:39 | that file is read from `_listings_fopnp/python2/3/sockets.py` |
| `ApressFix.ListingFixEmits` | _filters/apress_fix.py:33-49 | a reference fails exactly when the read fails; otherwise its output holds the file's content tagged `python`. An inline body's output holds the body with `<code>`, `</code>`, `<br />` removed, untrimmed, tagged with the guessed language. Either way the output is the header verbatim plus `</div>` plus a block that reads back as that language and text |
| `ApressFix.EmitsPre` | _filters/apress_fix.py:49 | the header, `</div>` and a built block form an emitted listing |
| `ApressFix.ListingFixFailsOnRead` | _filters/apress_fix.py:39-41 | a reference whose file cannot be read makes `listing_fix` fail |
| `ApressFix.EmitsListingFrame` | _filters/apress_fix.py:49 | an emitted listing starts with the header followed by `</div><pre>\n#!` and ends with `</pre>` |
| `ApressFix.ListingFixFrame` | _filters/apress_fix.py:49 | every successful `listing_fix` output starts with the header verbatim and `</div><pre>\n#!` and ends with `</pre>` |
| `ApressFix.ListingFixReadable` | _filters/apress_fix.py:33-49 | when every read succeeds, `listing_fix` succeeds |
| `ApressFix.ListingSpan` | _filters/apress_fix.py:25-30 | the header runs from the opening `<div id="list_[\d_]+" …>` to the first `</p>\n` after it, and the body runs from there to the next `</div>` |
| `ApressFix.ListingSpanComplete` | _filters/apress_fix.py:25-30 | every listing at the start of the text is matched: an opening, some `</p>\n` after it and some `</div>` after that suffice |
| `ApressFix.ListingSpanFirst` | _filters/apress_fix.py:25-30 | the match ends the header at the first `</p>\n` after the opening and the body at the first `</div>` after the header |
| `ApressFix.ListingScans` | _filters/apress_fix.py:25-30 | proof step: the two lazy scans stop at the first `</p>\n` after the opening and the first `</div>` after the header |
| `ApressFix.ListingSpanOf` | _filters/apress_fix.py:25-30 | proof step: the match is the one the three scans find |
| `ApressFix.ListingAt` | _filters/apress_fix.py:55 | a listing match covers at least one character |
| `ApressFix.ListingMatcher` | _filters/apress_fix.py:55 | the listing matcher is the listing pattern with `listing_fix`, and it advances |
| `ApressFix.ListingMatcherMisses` | _filters/apress_fix.py:55 | proof step, unfolding the definitions: where the listing pattern does not match, the matcher reports nothing |
| `ApressFix.ListingMatcherHits` | _filters/apress_fix.py:55 | proof step, unfolding the definitions: where the listing pattern matches, the matcher reports the whole listing and `listing_fix` of its header and body |
| `ApressFix.ListingAtHit` | _filters/apress_fix.py:55 | proof step, unfolding the definition of `ListingAt`: the same for `ListingAt` |
| `ApressFix.ListingMatcherNeverRaises` | _filters/apress_fix.py:55 | when every read succeeds, the listing callback never raises |
| `ApressFix.ListingsNeverRaise` | _filters/apress_fix.py:55 | when every read succeeds, the listing stage succeeds |
| `ApressFix.ListingStageMatchesLeftmost` | _filters/apress_fix.py:55 | the leftmost listing is the stage's leftmost match, covering it up to its `</div>` and replaced by `listing_fix` of its header and body |
| `ApressFix.ListingStageFailsAt` | _filters/apress_fix.py:40-41 | a leftmost listing naming an unreadable file is a match whose callback raises |
| `ApressFix.FirstStages` | _filters/apress_fix.py:52-54 | no contract of its own: the first three substitutions in order, none of which can fail; see `Substitution.Rewrite` |
| `ApressFix.Run` | _filters/apress_fix.py:51-56 | `run` chains the four stages in order, and it fails only through a listing read: with every read succeeding it succeeds |
| `ApressFix.RunUnchanged` | _filters/apress_fix.py:51-56 | a page where none of the four patterns matches comes back unchanged |
| `ApressFix.RunOnlyMarkers` | _filters/apress_fix.py:51-56 | a page that, once its page markers are removed, holds no link block, code block or listing comes back as the page with only the markers removed |
| `ApressFix.FirstStagesOnlyMarkers` | _filters/apress_fix.py:52-54 | proof step: with no link block or code block left after the markers are removed, the first three stages only remove the markers |
| `ApressFix.NoListingsUnchanged` | _filters/apress_fix.py:55 | proof step: the listing stage leaves a text without listings unchanged |
| `ApressFix.RunPlainPage` | _filters/apress_fix.py:51-56 | in particular a page without a page-marker, `pl`-block or listing opening comes back unchanged |
| `ApressFix.RunFailsOnRead` | _filters/apress_fix.py:55 | when the first listing left after the first three stages raises, `run` raises |
| `ApressFix.RunRewritesListing` | _filters/apress_fix.py:55 | when that listing is rewritten, `run`'s output keeps everything before it, puts the rewrite in its place, and continues the listing stage after its `</div>` |

## Left out

- The file system. The read at `_filters/apress_fix.py:40-41` is the parameter `readFile`, keyed by the path the filter builds. Opening in text mode, the encoding, newline translation and the working directory belong to `readFile`.
- Changes to a file during one run. `readFile` is a fixed function, so two reads of the same path within one run are assumed to return the same content (or to fail alike).
- Python's regular-expression engine in general. Each of the five patterns is modelled by the delimiter scan it amounts to: a greedy class run, a lazy `.*?` up to the next delimiter, and the non-DOTALL variant for the caption. No general matcher is proved equal to these scans.
- `Text.Strip`: white space (`Text.IsSpace`) is ASCII only (tab through carriage return, the four information separators, space). Python also strips Unicode white space such as U+0085 and U+00A0.
- `Text.IsSpace`: only ASCII 9–13 and 28–32 count as white space; Python's `str.isspace` also accepts U+0085, U+00A0 and other Unicode white space.
- `ApressFix.CaptionAtComplete`: the digits of the caption's `\d+` are ASCII `0`–`9` only. Python's `\d` also matches other Unicode decimal digits.
- `ApressFix.PageMarkerAt`: the digits of the page marker's `\d+` are ASCII `0`–`9` only, for the same reason.
- `ApressFix.ListingSpan`: the listing id's `[\d_]+` takes ASCII digits and `_` only, for the same reason.
- Any claim that no `<br />`, `<code>` or page marker is left after removal. A single replace pass can create a new occurrence, and the source does not promise otherwise.
- Idempotence of `run`: the source does not promise it.
- How `run` is invoked and what happens to its output: the calling pipeline is not part of this model.
