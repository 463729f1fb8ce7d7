/** The HTML post-processing filter for the Apress book pages: four
    whole-buffer substitutions applied in a fixed order (page markers, link
    blocks, code blocks, listings), each with a small string-rewriting
    callback. The listing callback reads a companion file; that read is the
    parameter `readFile`, keyed by the path the filter builds, and `None`
    stands for a read that raises. */
module ApressFix {
  import opened Options
  import opened Text
  import opened Substitution

  const Digits: set<char> := set c: char | '0' <= c <= '9'
  const BrTag := "<br />"

  // ---------------------------------------------------------------------
  // The language hint and the block both code callbacks emit

  datatype Lang = Html | Bash | Python

  /** The tag written after `#!`. */
  function LangTag(lang: Lang): string {
    match lang
    case Html => "html"
    case Bash => "bash"
    case Python => "python"
  }

  function LangNamed(tag: string): (r: Option<Lang>)
    ensures r.Some? ==> LangTag(r.value) == tag
  {
    if tag == "html" then Some(Html)
    else if tag == "bash" then Some(Bash)
    else if tag == "python" then Some(Python)
    else None
  }

  /** Each tag written is read back as the language it was written for. */
  lemma LangTagRoundTrip(lang: Lang)
    ensures LangNamed(LangTag(lang)) == Some(lang)
  {
  }

  /** The language guessed from the first characters of a text; it is total,
      and since `<`, `&` and `$` differ, each language is decided by the
      first character alone (plus `&lt;` for HTML). */
  function GuessLang(text: string): (lang: Lang)
    ensures lang == Html <==> |text| > 0 && (text[0] == '<' || StartsWith(text, "&lt;"))
    ensures lang == Bash <==> |text| > 0 && text[0] == '$'
    ensures lang == Python <==> |text| == 0 || (text[0] != '<' && text[0] != '$' && !StartsWith(text, "&lt;"))
  {
    if StartsWith(text, "<") || StartsWith(text, "&lt;") then Html
    else if StartsWith(text, "$") then Bash
    else Python
  }

  /** The guess looks at no more than the first four characters. */
  lemma GuessLangLooksAhead(text: string, more: string)
    requires |text| >= 4
    ensures GuessLang(text + more) == GuessLang(text)
  {
    assert (text + more)[..4] == text[..4];
  }

  const PreOpen := "<pre>\n#!"
  const PreClose := "</pre>"

  /** `<pre>\n#!{lang}\n{text}</pre>`. */
  function Pre(lang: Lang, text: string): string {
    PreOpen + LangTag(lang) + "\n" + text + PreClose
  }

  /** Reads an emitted block back into its language line and its text. */
  function ParsePre(block: string): (r: Option<(Lang, string)>)
    ensures r.Some? ==> block == Pre(r.value.0, r.value.1)
  {
    if !StartsWith(block, PreOpen) || !EndsWith(block, PreClose) then None
    else
      match IndexOf(block, "\n", |PreOpen|)
      case None => None
      case Some(k) =>
        if k + 1 > |block| - |PreClose| then None
        else
          match LangNamed(block[|PreOpen|..k])
          case None => None
          case Some(lang) =>
            var text := block[k + 1..|block| - |PreClose|];
            assert block == block[..|PreOpen|] + block[|PreOpen|..k] + block[k..k + 1] + text + block[|block| - |PreClose|..];
            Some((lang, text))
  }

  /** The language line ends at the first newline after `#!`, so the block
      reads back as exactly the language and text it was built from. */
  lemma PreRoundTrip(lang: Lang, text: string)
    ensures ParsePre(Pre(lang, text)) == Some((lang, text))
  {
    var block := Pre(lang, text);
    var tag := LangTag(lang);
    var k := |PreOpen| + |tag|;
    assert block[..|PreOpen|] == PreOpen;
    assert block[|block| - |PreClose|..] == PreClose;
    assert block[k..k + 1] == "\n";
    assert forall i :: 0 <= i < |tag| ==> tag[i] != '\n';
    forall j | |PreOpen| <= j < k ensures !OccursAt(block, "\n", j) {
      OccursAtHead(block, "\n", j);
      assert block[j] == tag[j - |PreOpen|];
    }
    assert OccursAt(block, "\n", k);
    IndexOfFinds(block, "\n", |PreOpen|, k);
    assert block[|PreOpen|..k] == tag;
    assert block[k + 1..|block| - |PreClose|] == text;
  }

  // ---------------------------------------------------------------------
  // Stage 1: page markers `<a id="page_<digits>" />`

  const PageOpen := "<a id=\"page_"
  const PageClose := "\" />"

  /** The page-marker pattern at the start of `t`; a match is deleted. */
  function PageMarkerAt(t: string): (h: Option<Hit>)
    ensures h.Some? ==> |PageOpen| + |PageClose| < h.value.len <= |t| && h.value.replacement == Some("")
    ensures h.Some? ==> var digits := t[|PageOpen|..h.value.len - |PageClose|];
      |digits| > 0 && AllIn(digits, Digits) && t[..h.value.len] == PageOpen + digits + PageClose
  {
    match Bracketed(t, 0, PageOpen, Digits, PageClose)
    case None => None
    case Some(e) =>
      BracketedSound(t, 0, PageOpen, Digits, PageClose);
      Some(Hit(e, Some("")))
  }

  /** Every page marker is matched, and the match is the whole marker. */
  lemma PageMarkerFound(t: string, digits: string)
    requires |digits| > 0 && AllIn(digits, Digits)
    requires StartsWith(t, PageOpen + digits + PageClose)
    ensures PageMarkerAt(t) == Some(Hit(|PageOpen| + |digits| + |PageClose|, Some("")))
  {
    assert OccursAt(t, PageOpen + digits + PageClose, 0);
    BracketedComplete(t, 0, PageOpen, digits, Digits, PageClose);
  }

  // ---------------------------------------------------------------------
  // Stages 2 and 3: `<div class="pl">\n<code>...</code>\n</div>` blocks

  const BlockOpen := "<div class=\"pl\">\n<code>"
  const BlockClose := "</code>\n</div>"

  /** `e` is where the first `</code>\n</div>` after the block's opening
      begins (the lazy `.*?` of both block patterns). */
  ghost predicate ClosesFirst(t: string, e: int) {
    |BlockOpen| <= e && OccursAt(t, BlockClose, e)
    && forall j :: |BlockOpen| <= j < e ==> !OccursAt(t, BlockClose, j)
  }

  /** `codeblock_re` at the start of `t`: the end of its capture, which
      begins right after the opening. */
  function CodeBlockSpan(t: string): (e: Option<nat>)
    ensures e.Some? <==> OccursAt(t, BlockOpen, 0) && exists j :: |BlockOpen| <= j && OccursAt(t, BlockClose, j)
    ensures e.Some? ==> ClosesFirst(t, e.value)
  {
    if !OccursAt(t, BlockOpen, 0) then None else IndexOf(t, BlockClose, |BlockOpen|)
  }

  /** How many characters the `(?:www|http)` of `linkblock_re` takes (0 when
      neither is there). */
  function UrlLead(t: string): nat {
    if OccursAt(t, "www", |BlockOpen|) then 3
    else if OccursAt(t, "http", |BlockOpen|) then 4
    else 0
  }

  /** No block end can begin inside `www` or `http`. */
  lemma LeadHidesClose(t: string)
    requires UrlLead(t) > 0
    ensures forall j :: |BlockOpen| <= j < |BlockOpen| + UrlLead(t) ==> !OccursAt(t, BlockClose, j)
  {
    var b := |BlockOpen|;
    forall j | b <= j < b + UrlLead(t) ensures !OccursAt(t, BlockClose, j) {
      OccursAtHead(t, BlockClose, j);
      if UrlLead(t) == 3 {
        assert t[j] == t[b..b + 3][j - b] == "www"[j - b];
      } else {
        assert t[j] == t[b..b + 4][j - b] == "http"[j - b];
      }
    }
  }

  /** `linkblock_re` at the start of `t`: the end of its capture. */
  function LinkBlockSpan(t: string): (e: Option<nat>)
    ensures e.Some? <==> OccursAt(t, BlockOpen, 0) && UrlLead(t) > 0 && exists j :: |BlockOpen| <= j && OccursAt(t, BlockClose, j)
    ensures e.Some? ==> ClosesFirst(t, e.value)
  {
    if !OccursAt(t, BlockOpen, 0) || UrlLead(t) == 0 then None
    else
      LeadHidesClose(t);
      IndexOf(t, BlockClose, |BlockOpen| + UrlLead(t))
  }

  /** A link block is also a code block ending at the same place: the code
      pattern is the wider one, which is why link blocks are rewritten first. */
  lemma LinkBlockIsCodeBlock(t: string)
    requires LinkBlockSpan(t).Some?
    ensures CodeBlockSpan(t) == LinkBlockSpan(t)
  {
  }

  // ---------------------------------------------------------------------
  // Stage 2: link blocks

  const Scheme := "http://"
  const LinkSep := "<br />\n"

  /** The URL with `http://` in front unless it already begins with it: the
      prefix is added at most once. */
  function NormalizeUrl(url: string): (u: string)
    ensures StartsWith(u, Scheme) && EndsWith(u, url)
    ensures StartsWith(url, Scheme) ==> u == url
    ensures !StartsWith(url, Scheme) ==> |u| == |Scheme| + |url|
  {
    if StartsWith(url, Scheme) then url else Scheme + url
  }

  lemma NormalizeUrlIdempotent(url: string)
    ensures NormalizeUrl(NormalizeUrl(url)) == NormalizeUrl(url)
  {
  }

  const AnchorOpen := "<tt><a href=\""
  const AnchorMid := "\">"
  const AnchorClose := "</a></tt>"

  /** Reads a rendered link back: the URL it points to, provided its visible
      text is that same URL. */
  function ParseNiceLink(link: string): (r: Option<string>)
    ensures r.Some? ==> link == AnchorOpen + r.value + AnchorMid + r.value + AnchorClose
  {
    if |link| < |AnchorOpen| + |AnchorMid| + |AnchorClose| || !StartsWith(link, AnchorOpen) || !EndsWith(link, AnchorClose) then None
    else
      var inner := link[|AnchorOpen|..|link| - |AnchorClose|];
      var n := (|inner| - |AnchorMid|) / 2;
      if inner == inner[..n] + AnchorMid + inner[..n] then
        assert link == link[..|AnchorOpen|] + inner + link[|link| - |AnchorClose|..];
        Some(inner[..n])
      else None
  }

  /** `nicelink`: the URL, normalised, as a monospaced link whose `href` and
      visible text are both that URL. */
  function NiceLink(url: string): (link: string)
    ensures ParseNiceLink(link) == Some(NormalizeUrl(url))
  {
    var u := NormalizeUrl(url);
    var link := AnchorOpen + u + AnchorMid + u + AnchorClose;
    var inner := link[|AnchorOpen|..|link| - |AnchorClose|];
    assert StartsWith(link, AnchorOpen) && EndsWith(link, AnchorClose);
    assert inner == u + AnchorMid + u;
    assert (|inner| - |AnchorMid|) / 2 == |u|;
    assert inner[..|u|] == u;
    link
  }

  /** The links of a block, one per URL, in order. */
  function NiceLinks(urls: seq<string>): (links: seq<string>)
    ensures |links| == |urls|
    ensures forall i :: 0 <= i < |urls| ==> links[i] == NiceLink(urls[i])
  {
    if urls == [] then [] else [NiceLink(urls[0])] + NiceLinks(urls[1..])
  }

  /** The lines of a link block: the capture trimmed and split on `<br />\n`. */
  function LinkPieces(capture: string): seq<string> {
    Split(Strip(capture), LinkSep)
  }

  /** `linkblock_fix`. */
  function LinkBlockFix(capture: string): (r: string)
    ensures StartsWith(r, "<ul>") && EndsWith(r, "</ul>")
  {
    "<ul>" + Join(NiceLinks(LinkPieces(capture)), "<br>") + "</ul>"
  }

  /** Every line of the trimmed block becomes exactly one link, in order:
      the lines rejoined give the trimmed block back (none dropped or
      merged), none of them holds a separator, and link `i` points to line
      `i` with its scheme added. */
  lemma LinkBlockOneLinkPerLine(capture: string)
    ensures var pieces := LinkPieces(capture);
      var links := NiceLinks(pieces);
      |pieces| > 0 && |links| == |pieces|
      && Join(pieces, LinkSep) == Strip(capture)
      && (forall i :: 0 <= i < |pieces| ==> Absent(pieces[i], LinkSep))
      && (forall i :: 0 <= i < |links| ==> ParseNiceLink(links[i]) == Some(NormalizeUrl(pieces[i])))
      && LinkBlockFix(capture) == "<ul>" + Join(links, "<br>") + "</ul>"
  {
    JoinSplit(Strip(capture), LinkSep);
    SplitPiecesFree(Strip(capture), LinkSep);
  }

  /** A block holding a single URL gives a one-item list. */
  lemma LinkBlockSingleUrl(capture: string)
    requires Absent(Strip(capture), LinkSep)
    ensures LinkBlockFix(capture) == "<ul>" + NiceLink(Strip(capture)) + "</ul>"
  {
    SplitAbsent(Strip(capture), LinkSep);
  }

  /** The link-block pattern at the start of `t`, replaced by `linkblock_fix`
      of its capture. */
  function LinkBlockAt(t: string): (h: Option<Hit>)
    ensures h.Some? ==> 0 < h.value.len <= |t| && h.value.replacement.Some?
  {
    match LinkBlockSpan(t)
    case None => None
    case Some(e) => Some(Hit(e + |BlockClose|, Some(LinkBlockFix(t[|BlockOpen|..e]))))
  }

  // ---------------------------------------------------------------------
  // Stage 3: code blocks

  /** The text `codeblock_fix` emits: the capture trimmed, then every
      `<br />` removed in one pass. */
  function CodeText(capture: string): string {
    Replace(Strip(capture), BrTag, "")
  }

  /** `codeblock_fix`: a block that reads back as the guessed language of
      the cleaned text and that text. */
  function CodeBlockFix(capture: string): (r: string)
    ensures ParsePre(r) == Some((GuessLang(CodeText(capture)), CodeText(capture)))
  {
    var text := CodeText(capture);
    PreRoundTrip(GuessLang(text), text);
    Pre(GuessLang(text), text)
  }

  /** The code-block pattern at the start of `t`, replaced by
      `codeblock_fix` of its capture. */
  function CodeBlockAt(t: string): (h: Option<Hit>)
    ensures h.Some? ==> 0 < h.value.len <= |t| && h.value.replacement.Some?
  {
    match CodeBlockSpan(t)
    case None => None
    case Some(e) => Some(Hit(e + |BlockClose|, Some(CodeBlockFix(t[|BlockOpen|..e]))))
  }

  // ---------------------------------------------------------------------
  // Stage 4: listings

  const CaptionOpen := "Chapter "
  const CaptionDash := " - "
  const ListingsRoot := "_listings_fopnp/python2/"

  /** `Chapter (\d+) - (.*?)<br />` at index `p` of a listing body, without
      DOTALL: the chapter number and the file name. */
  function CaptionAt(body: string, p: nat): Option<(string, string)>
    requires p <= |body|
  {
    BracketedLine(body, p, CaptionOpen, Digits, CaptionDash, BrTag)
  }

  /** What the caption pattern describes: `Chapter `, digits, ` - `, then a
      file name on the same line that runs up to the first `<br />`. */
  ghost predicate IsCaptionAt(body: string, p: int, chapter: string, filename: string) {
    IsBracketedLine(body, p, CaptionOpen, chapter, Digits, CaptionDash, filename, BrTag)
  }

  /** The caption scan finds only captions. */
  lemma CaptionAtSound(body: string, p: nat)
    requires p <= |body| && CaptionAt(body, p).Some?
    ensures IsCaptionAt(body, p, CaptionAt(body, p).value.0, CaptionAt(body, p).value.1)
  {
    BracketedLineSound(body, p, CaptionOpen, Digits, CaptionDash, BrTag);
  }

  /** The caption scan finds every caption, with its chapter and file name:
      the digits cannot run into ` - `. */
  lemma CaptionAtComplete(body: string, p: nat, chapter: string, filename: string)
    requires p <= |body| && IsCaptionAt(body, p, chapter, filename)
    ensures CaptionAt(body, p) == Some((chapter, filename))
  {
    assert CaptionDash[0] !in Digits;
    BracketedLineComplete(body, p, CaptionOpen, chapter, Digits, CaptionDash, filename, BrTag);
  }

  /** `re.search` of the caption pattern from index `from`: the leftmost
      position where a caption begins. */
  function FindCaption(body: string, from: nat): (p: Option<nat>)
    requires from <= |body|
    ensures p.Some? ==> from <= p.value <= |body| && CaptionAt(body, p.value).Some?
    ensures p.Some? ==> forall q :: from <= q < p.value ==> CaptionAt(body, q).None?
    ensures p.None? ==> forall q :: from <= q <= |body| ==> CaptionAt(body, q).None?
    decreases |body| - from
  {
    if CaptionAt(body, from).Some? then Some(from)
    else if from == |body| then None
    else FindCaption(body, from + 1)
  }

  /** Where a listing's text comes from: the file its caption names, or its
      own body. */
  datatype ListingSource = Reference(chapter: string, filename: string) | Inline(body: string)

  /** The body's leftmost caption decides the listing's source. */
  function ListingSourceOf(body: string): ListingSource {
    match FindCaption(body, 0)
    case None => Inline(body)
    case Some(p) =>
      var (chapter, filename) := CaptionAt(body, p).value;
      Reference(chapter, filename)
  }

  /** A listing is inline exactly when its body holds no caption, and then
      its text is the body; otherwise it refers to the chapter and file name
      of the leftmost caption. */
  lemma ListingSourceIsLeftmostCaption(body: string)
    ensures ListingSourceOf(body).Inline? <==> forall q :: 0 <= q <= |body| ==> CaptionAt(body, q).None?
    ensures ListingSourceOf(body).Inline? ==> ListingSourceOf(body).body == body
    ensures match ListingSourceOf(body)
      case Reference(chapter, filename) =>
        exists p :: 0 <= p <= |body| && CaptionAt(body, p) == Some((chapter, filename))
                    && (forall q :: 0 <= q < p ==> CaptionAt(body, q).None?)
      case Inline(_) => true
  {
  }

  /** The file a caption names: `_listings_fopnp/python2/<chapter>/<filename>`. */
  function ListingPath(chapter: string, filename: string): string {
    ListingsRoot + chapter + "/" + filename
  }

  /** The inline text of a listing: the body with every `<code>`, then every
      `</code>`, then every `<br />` removed; it is not trimmed. */
  function InlineText(body: string): string {
    Replace(Replace(Replace(body, "<code>", ""), "</code>", ""), BrTag, "")
  }

  const DivClose := "</div>"

  /** `out` is the header, `</div>`, and a block reading back as (lang, text). */
  predicate EmitsListing(out: string, header: string, lang: Lang, text: string) {
    StartsWith(out, header + DivClose) && ParsePre(out[|header| + |DivClose|..]) == Some((lang, text))
  }

  /** `listing_fix` with the file read injected: the header is kept, a
      `</div>` closes the header's `<div>`, and the body becomes a `<pre>`
      block. */
  function ListingFix(header: string, body: string, readFile: string -> Option<string>): Option<string> {
    match ListingSourceOf(body)
    case Reference(chapter, filename) =>
      var text :- readFile(ListingPath(chapter, filename));
      Some(header + DivClose + Pre(Python, text))
    case Inline(b) =>
      var text := InlineText(b);
      Some(header + DivClose + Pre(GuessLang(text), text))
  }

  /** A reference is replaced by the file's content tagged `python`, and the
      rewrite fails exactly when the read fails; an inline body is replaced
      by its cleaned text with the guessed language. Either way the header
      is kept verbatim and the block reads back as that language and text. */
  lemma ListingFixEmits(header: string, body: string, readFile: string -> Option<string>)
    ensures var r := ListingFix(header, body, readFile);
      match ListingSourceOf(body)
      case Reference(chapter, filename) =>
        var content := readFile(ListingPath(chapter, filename));
        (content.None? ==> r.None?) && (content.Some? ==> r.Some? && EmitsListing(r.value, header, Python, content.value))
      case Inline(b) =>
        r.Some? && EmitsListing(r.value, header, GuessLang(InlineText(b)), InlineText(b))
  {
    match ListingSourceOf(body)
    case Reference(chapter, filename) =>
      var content := readFile(ListingPath(chapter, filename));
      if content.Some? {
        EmitsPre(header, Python, content.value);
      }
    case Inline(b) =>
      EmitsPre(header, GuessLang(InlineText(b)), InlineText(b));
  }

  /** The header, `</div>` and a block built by `Pre` is an emitted listing. */
  lemma EmitsPre(header: string, lang: Lang, text: string)
    ensures EmitsListing(header + DivClose + Pre(lang, text), header, lang, text)
  {
    PreRoundTrip(lang, text);
    assert (header + DivClose + Pre(lang, text))[|header| + |DivClose|..] == Pre(lang, text);
  }

  /** A reference whose file cannot be read makes `listing_fix` fail. */
  lemma ListingFixFailsOnRead(header: string, body: string, readFile: string -> Option<string>, chapter: string, filename: string)
    requires ListingSourceOf(body) == Reference(chapter, filename)
    requires readFile(ListingPath(chapter, filename)).None?
    ensures ListingFix(header, body, readFile) == None
  {
  }

  /** An emitted listing begins with the header verbatim followed by
      `</div><pre>\n#!` and ends with `</pre>`. */
  lemma EmitsListingFrame(out: string, header: string, lang: Lang, text: string)
    requires EmitsListing(out, header, lang, text)
    ensures StartsWith(out, header + DivClose + PreOpen)
    ensures EndsWith(out, PreClose)
  {
    var block := out[|header| + |DivClose|..];
    assert StartsWith(block, PreOpen);
    assert out == out[..|header| + |DivClose|] + block;
    assert out[..|header| + |DivClose| + |PreOpen|] == header + DivClose + PreOpen;
    assert out[|out| - |PreClose|..] == block[|block| - |PreClose|..];
  }

  /** Whatever the source, a successful rewrite begins with the header
      verbatim followed by `</div><pre>\n#!` and ends with `</pre>`. */
  lemma ListingFixFrame(header: string, body: string, readFile: string -> Option<string>)
    requires ListingFix(header, body, readFile).Some?
    ensures StartsWith(ListingFix(header, body, readFile).value, header + DivClose + PreOpen)
    ensures EndsWith(ListingFix(header, body, readFile).value, PreClose)
  {
    var out := ListingFix(header, body, readFile).value;
    ListingFixEmits(header, body, readFile);
    match ListingSourceOf(body)
    case Reference(chapter, filename) =>
      EmitsListingFrame(out, header, Python, readFile(ListingPath(chapter, filename)).value);
    case Inline(b) =>
      EmitsListingFrame(out, header, GuessLang(InlineText(b)), InlineText(b));
  }

  const ListOpen := "<div id=\"list_"
  const IdChars: set<char> := set c: char | '0' <= c <= '9' || c == '_'
  const ListMid := "\" class=\"listing\">\n<p class=\"normal\">"
  const HeaderEnd := "</p>\n"

  /** `listing_re` at the start of `t`: where group 1 (the header, up to the
      first `</p>\n` after the opening) ends, and where group 2 (the body, up
      to the next `</div>`) ends. */
  function ListingSpan(t: string): (r: Option<(nat, nat)>)
    ensures r.Some? ==> Bracketed(t, 0, ListOpen, IdChars, ListMid).Some?
    ensures r.Some? ==> var k := Bracketed(t, 0, ListOpen, IdChars, ListMid).value;
      var (h, d) := r.value;
      k + |HeaderEnd| <= h <= d && d + |DivClose| <= |t|
      && OccursAt(t, HeaderEnd, h - |HeaderEnd|) && (forall j :: k <= j < h - |HeaderEnd| ==> !OccursAt(t, HeaderEnd, j))
      && OccursAt(t, DivClose, d) && (forall j :: h <= j < d ==> !OccursAt(t, DivClose, j))
  {
    match Bracketed(t, 0, ListOpen, IdChars, ListMid)
    case None => None
    case Some(k) =>
      match IndexOf(t, HeaderEnd, k)
      case None => None
      case Some(p) =>
        match IndexOf(t, DivClose, p + |HeaderEnd|)
        case None => None
        case Some(d) => Some((p + |HeaderEnd|, d))
  }

  /** Every listing at the start of `t` is matched: an opening, then some
      `</p>\n`, then some `</div>` after it, is enough. */
  lemma ListingSpanComplete(t: string, k: nat, p: nat, d: nat)
    requires Bracketed(t, 0, ListOpen, IdChars, ListMid) == Some(k)
    requires k <= p && OccursAt(t, HeaderEnd, p)
    requires p + |HeaderEnd| <= d && OccursAt(t, DivClose, d)
    ensures ListingSpan(t).Some?
  {
    var q := IndexOf(t, HeaderEnd, k);
    assert q.Some?;
    var e := IndexOf(t, DivClose, q.value + |HeaderEnd|);
    assert e.Some?;
  }

  /** The match ends the header at the first `</p>\n` after the opening and
      the body at the first `</div>` after that. */
  lemma ListingSpanFirst(t: string, k: nat, p: nat, d: nat)
    requires Bracketed(t, 0, ListOpen, IdChars, ListMid) == Some(k)
    requires k <= p && OccursAt(t, HeaderEnd, p) && forall j :: k <= j < p ==> !OccursAt(t, HeaderEnd, j)
    requires p + |HeaderEnd| <= d && OccursAt(t, DivClose, d)
    requires forall j :: p + |HeaderEnd| <= j < d ==> !OccursAt(t, DivClose, j)
    ensures ListingSpan(t).Some?
    ensures ListingSpan(t).value.0 == p + |HeaderEnd| && ListingSpan(t).value.1 == d
  {
    ListingScans(t, k, p, d);
    ListingSpanOf(t, k, p, d);
  }

  /** The two lazy scans of the listing pattern stop at the first `</p>\n` and
      the first `</div>` after it. */
  lemma ListingScans(t: string, k: nat, p: nat, d: nat)
    requires k <= p && OccursAt(t, HeaderEnd, p) && forall j :: k <= j < p ==> !OccursAt(t, HeaderEnd, j)
    requires p + |HeaderEnd| <= d && OccursAt(t, DivClose, d)
    requires forall j :: p + |HeaderEnd| <= j < d ==> !OccursAt(t, DivClose, j)
    ensures IndexOf(t, HeaderEnd, k) == Some(p)
    ensures p + |HeaderEnd| <= |t| && IndexOf(t, DivClose, p + |HeaderEnd|) == Some(d)
  {
    IndexOfFinds(t, HeaderEnd, k, p);
    IndexOfFinds(t, DivClose, p + |HeaderEnd|, d);
  }

  /** The match as the three scans find it. */
  lemma ListingSpanOf(t: string, k: nat, p: nat, d: nat)
    requires Bracketed(t, 0, ListOpen, IdChars, ListMid) == Some(k)
    requires IndexOf(t, HeaderEnd, k) == Some(p)
    requires p + |HeaderEnd| <= |t| && IndexOf(t, DivClose, p + |HeaderEnd|) == Some(d)
    ensures ListingSpan(t).Some?
    ensures ListingSpan(t).value.0 == p + |HeaderEnd| && ListingSpan(t).value.1 == d
  {
  }

  /** The listing pattern at the start of `t`, replaced by `listing_fix`. */
  function ListingAt(t: string, readFile: string -> Option<string>): (h: Option<Hit>)
    ensures h.Some? ==> 0 < h.value.len <= |t|
  {
    match ListingSpan(t)
    case None => None
    case Some((h, d)) => Some(Hit(d + |DivClose|, ListingFix(t[..h], t[h..d], readFile)))
  }

  /** The listing pattern with its callback, as one matcher. */
  function ListingMatcher(readFile: string -> Option<string>): (m: Matcher)
    ensures forall t :: m(t) == ListingAt(t, readFile)
    ensures Advances(m)
  {
    t => ListingAt(t, readFile)
  }

  // ---------------------------------------------------------------------
  // The filter

  /** `run`: the four substitutions in their fixed order, each on the
      previous one's output; the only way it fails is a listing read that
      fails. */
  function Run(content: string, readFile: string -> Option<string>): (r: Option<string>)
    ensures (forall path :: readFile(path).Some?) ==> r.Some?
  {
    var code := FirstStages(content);
    ListingsNeverRaise(code, readFile);
    Sub(code, ListingMatcher(readFile))
  }

  /** The first three substitutions, whose callbacks never raise: page
      markers removed, link blocks rewritten, then code blocks rewritten. */
  function FirstStages(content: string): string {
    var noMarkers := Rewrite(content, PageMarkerAt);
    var links := Rewrite(noMarkers, LinkBlockAt);
    Rewrite(links, CodeBlockAt)
  }

  /** With every read succeeding, `listing_fix` does not fail. */
  lemma ListingFixReadable(header: string, body: string, readFile: string -> Option<string>)
    requires forall path :: readFile(path).Some?
    ensures ListingFix(header, body, readFile).Some?
  {
    match ListingSourceOf(body)
    case Reference(chapter, filename) =>
      assert readFile(ListingPath(chapter, filename)).Some?;
    case Inline(_) =>
  }

  /** With every read succeeding, the listing callback never raises. */
  lemma ListingMatcherNeverRaises(readFile: string -> Option<string>)
    requires forall path :: readFile(path).Some?
    ensures NeverRaises(ListingMatcher(readFile))
  {
    forall t | ListingAt(t, readFile).Some? ensures ListingAt(t, readFile).value.replacement.Some? {
      var (h, d) := ListingSpan(t).value;
      ListingFixReadable(t[..h], t[h..d], readFile);
    }
  }

  /** With every read succeeding, the listing stage does not fail. */
  lemma ListingsNeverRaise(s: string, readFile: string -> Option<string>)
    ensures (forall path :: readFile(path).Some?) ==> Sub(s, ListingMatcher(readFile)).Some?
  {
    if forall path :: readFile(path).Some? {
      ListingMatcherNeverRaises(readFile);
      SubNeverRaises(s, ListingMatcher(readFile), 0);
    }
  }

  /** A page with no match of any of the four patterns comes back unchanged. */
  lemma RunUnchanged(content: string, readFile: string -> Option<string>)
    requires NoMatchIn(content, PageMarkerAt) && NoMatchIn(content, LinkBlockAt)
    requires NoMatchIn(content, CodeBlockAt) && NoMatchIn(content, ListingMatcher(readFile))
    ensures Run(content, readFile) == Some(content)
  {
    assert content[0..] == content;
    SubNoMatch(content, PageMarkerAt, 0);
    assert Rewrite(content, PageMarkerAt) == content;
    SubNoMatch(content, LinkBlockAt, 0);
    SubNoMatch(content, CodeBlockAt, 0);
    SubNoMatch(content, ListingMatcher(readFile), 0);
  }

  /** A page whose only special content is page markers comes back with
      just the markers removed: once they are gone, no link block, code
      block or listing is left to rewrite. */
  lemma RunOnlyMarkers(content: string, readFile: string -> Option<string>)
    requires var s := Rewrite(content, PageMarkerAt);
      NoMatchIn(s, LinkBlockAt) && NoMatchIn(s, CodeBlockAt) && NoMatchIn(s, ListingMatcher(readFile))
    ensures Run(content, readFile) == Some(Rewrite(content, PageMarkerAt))
  {
    var s := Rewrite(content, PageMarkerAt);
    FirstStagesOnlyMarkers(content);
    NoListingsUnchanged(s, readFile);
  }

  /** With no block left after the markers are removed, the first three
      stages only remove the markers. */
  lemma FirstStagesOnlyMarkers(content: string)
    requires NoMatchIn(Rewrite(content, PageMarkerAt), LinkBlockAt)
    requires NoMatchIn(Rewrite(content, PageMarkerAt), CodeBlockAt)
    ensures FirstStages(content) == Rewrite(content, PageMarkerAt)
  {
    var s := Rewrite(content, PageMarkerAt);
    RewriteNoMatch(s, LinkBlockAt);
    RewriteNoMatch(s, CodeBlockAt);
  }

  /** The listing stage leaves a text without listings unchanged. */
  lemma NoListingsUnchanged(s: string, readFile: string -> Option<string>)
    requires NoMatchIn(s, ListingMatcher(readFile))
    ensures Sub(s, ListingMatcher(readFile)) == Some(s)
  {
    SubNoMatchAll(s, ListingMatcher(readFile));
  }

  /** In particular a page without a page-marker opening, a `pl` block
      opening or a listing opening comes back unchanged. */
  lemma RunPlainPage(content: string, readFile: string -> Option<string>)
    requires Absent(content, PageOpen) && Absent(content, BlockOpen) && Absent(content, ListOpen)
    ensures Run(content, readFile) == Some(content)
  {
    forall i | 0 <= i <= |content|
      ensures PageMarkerAt(content[i..]).None? && LinkBlockAt(content[i..]).None?
      ensures CodeBlockAt(content[i..]).None? && ListingAt(content[i..], readFile).None?
    {
      var t := content[i..];
      if OccursAt(t, PageOpen, 0) { OccursInSuffix(content, PageOpen, i, 0); }
      if OccursAt(t, BlockOpen, 0) { OccursInSuffix(content, BlockOpen, i, 0); }
      if OccursAt(t, ListOpen, 0) { OccursInSuffix(content, ListOpen, i, 0); }
    }
    RunUnchanged(content, readFile);
  }

  /** Where the listing pattern does not match, neither does the matcher. */
  lemma ListingMatcherMisses(t: string, readFile: string -> Option<string>)
    requires ListingSpan(t).None?
    ensures ListingMatcher(readFile)(t).None?
  {
  }

  /** Where the listing pattern matches, the matcher reports the whole listing
      with `listing_fix`'s result. */
  lemma ListingMatcherHits(t: string, readFile: string -> Option<string>, h: nat, d: nat)
    requires ListingSpan(t) == Some((h, d))
    ensures ListingMatcher(readFile)(t) == Some(Hit(d + |DivClose|, ListingFix(t[..h], t[h..d], readFile)))
  {
    ListingAtHit(t, readFile, h, d);
  }

  /** Where the listing pattern matches, `ListingAt` reports the whole
      listing with `listing_fix`'s result. */
  lemma ListingAtHit(t: string, readFile: string -> Option<string>, h: nat, d: nat)
    requires ListingSpan(t) == Some((h, d))
    ensures ListingAt(t, readFile) == Some(Hit(d + |DivClose|, ListingFix(t[..h], t[h..d], readFile)))
  {
  }

  /** The listing stage sees nothing before the leftmost listing, and sees
      that listing as one match covering it up to its `</div>`, replaced by
      `listing_fix`'s result; with `SubRewritesLeftmost` this says that the
      text before the listing is kept, the listing is rewritten in place and
      the scan resumes after its `</div>`. */
  lemma ListingStageMatchesLeftmost(s: string, readFile: string -> Option<string>, i: nat, h: nat, d: nat)
    requires i <= |s| && forall k :: 0 <= k < i ==> ListingSpan(s[k..]).None?
    requires ListingSpan(s[i..]) == Some((h, d))
    ensures LeftmostMatch(s, ListingMatcher(readFile), i, Hit(d + |DivClose|, ListingFix(s[i..][..h], s[i..][h..d], readFile)))
  {
    forall k | 0 <= k < i ensures ListingMatcher(readFile)(s[k..]).None? {
      ListingMatcherMisses(s[k..], readFile);
    }
    ListingMatcherHits(s[i..], readFile, h, d);
  }

  /** When the leftmost listing names a file that cannot be read, the
      listing stage sees that listing as a match whose callback raises. */
  lemma ListingStageFailsAt(s: string, readFile: string -> Option<string>, i: nat, h: nat, d: nat, chapter: string, filename: string)
    requires i <= |s| && forall k :: 0 <= k < i ==> ListingSpan(s[k..]).None?
    requires ListingSpan(s[i..]) == Some((h, d))
    requires ListingSourceOf(s[i..][h..d]) == Reference(chapter, filename)
    requires readFile(ListingPath(chapter, filename)).None?
    ensures LeftmostMatch(s, ListingMatcher(readFile), i, Hit(d + |DivClose|, None))
  {
    ListingStageMatchesLeftmost(s, readFile, i, h, d);
    ListingFixFailsOnRead(s[i..][..h], s[i..][h..d], readFile, chapter, filename);
  }

  /** When the leftmost listing that reaches the listing stage raises, the
      whole filter fails. */
  lemma RunFailsOnRead(content: string, readFile: string -> Option<string>, i: nat, n: nat)
    requires LeftmostMatch(FirstStages(content), ListingMatcher(readFile), i, Hit(n, None))
    ensures Run(content, readFile) == None
  {
    SubRaisesAtLeftmost(FirstStages(content), ListingMatcher(readFile), i, n);
  }

  /** When the leftmost listing that reaches the listing stage is rewritten,
      the filter's output keeps everything before it, puts the rewrite in its
      place, and continues with the listing stage on the rest. */
  lemma RunRewritesListing(content: string, readFile: string -> Option<string>, i: nat, n: nat, out: string)
    requires LeftmostMatch(FirstStages(content), ListingMatcher(readFile), i, Hit(n, Some(out)))
    ensures var code := FirstStages(content);
      i + n <= |code|
      && (Sub(code[i + n..], ListingMatcher(readFile)).None? ==> Run(content, readFile).None?)
      && (Sub(code[i + n..], ListingMatcher(readFile)).Some? ==>
            Run(content, readFile) == Some(code[..i] + (out + Sub(code[i + n..], ListingMatcher(readFile)).value)))
  {
    SubRewritesLeftmost(FirstStages(content), ListingMatcher(readFile), i, n, out);
  }

  // ---------------------------------------------------------------------
  // Worked examples

  /** The language guesses for a shell prompt, an HTML tag and a Python
      statement. */
  lemma GuessLangExamples()
    ensures GuessLang("$ ls -la") == Bash
    ensures GuessLang("<html>") == Html
    ensures GuessLang("&lt;p&gt;") == Html
    ensures GuessLang("x = 1") == Python
    ensures GuessLang("") == Python
  {
  }

  /** `<a id="page_42" />` is matched whole and deleted. */
  lemma PageMarkerExample(rest: string)
    ensures PageMarkerAt("<a id=\"page_42\" />" + rest) == Some(Hit(18, Some("")))
  {
    var t := "<a id=\"page_42\" />" + rest;
    assert t[..|PageOpen + "42" + PageClose|] == PageOpen + "42" + PageClose;
    PageMarkerFound(t, "42");
  }

  /** A caption at the very start of the body names the listing's source. */
  lemma ListingSourceAtStart(body: string, chapter: string, filename: string)
    requires CaptionAt(body, 0) == Some((chapter, filename))
    ensures ListingSourceOf(body) == Reference(chapter, filename)
  {
  }

  /** `Chapter 3 - sockets.py<br />` is a caption for chapter 3 and file
      `sockets.py`. */
  lemma SocketsCaption(rest: string)
    ensures IsCaptionAt("Chapter 3 - sockets.py<br />" + rest, 0, "3", "sockets.py")
  {
    assert "Chapter 3 - sockets.py<br />" + rest == CaptionOpen + "3" + CaptionDash + "sockets.py" + BrTag + rest;
    BracketedLineLaidOut(CaptionOpen, "3", Digits, CaptionDash, "sockets.py", BrTag, rest);
  }

  /** A body opening with `Chapter 3 - sockets.py<br />` refers to file
      `sockets.py` of chapter 3. */
  lemma ListingReferenceExample(rest: string)
    ensures ListingSourceOf("Chapter 3 - sockets.py<br />" + rest) == Reference("3", "sockets.py")
  {
    var body := "Chapter 3 - sockets.py<br />" + rest;
    SocketsCaption(rest);
    CaptionAtComplete(body, 0, "3", "sockets.py");
    ListingSourceAtStart(body, "3", "sockets.py");
  }

  /** Chapter 3's `sockets.py` is read from `_listings_fopnp/python2/3/sockets.py`. */
  lemma ListingPathExample()
    ensures ListingPath("3", "sockets.py") == "_listings_fopnp/python2/3/sockets.py"
  {
  }
}
