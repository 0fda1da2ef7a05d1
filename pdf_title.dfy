/**
 * Title and DOI for a PDF: the trim applied to a DOI match, the local title guess
 * (document metadata first, else the largest, topmost span of the first page), and
 * the per-file fallback chain that always produces a title. The PDF reader, the
 * DOI regular expression and the Crossref request are parameters.
 */
module PdfTitle {
  import opened Wrappers
  import opened Text

  // ---------------------------------------------------------------- DOI tail

  /** The characters `rstrip(').,;]')` removes. */
  predicate IsTailChar(c: char) {
    c == ')' || c == '.' || c == ',' || c == ';' || c == ']'
  }

  /** `m.group(0).rstrip(').,;]')`: drop the trailing closing punctuation. */
  function TrimDoiTail(s: string): (r: string)
    ensures |r| <= |s| && r == s[..|r|]
    ensures r == [] || !IsTailChar(r[|r| - 1])
    ensures forall i :: |r| <= i < |s| ==> IsTailChar(s[i])
  {
    if s != [] && IsTailChar(s[|s| - 1]) then TrimDoiTail(s[..|s| - 1]) else s
  }

  /** Trimming twice is trimming once. */
  lemma TrimDoiTailIdempotent(s: string)
    ensures TrimDoiTail(TrimDoiTail(s)) == TrimDoiTail(s)
  {
  }

  /** A match that opens with something other than closing punctuation is never trimmed away. */
  lemma TrimDoiTailKeepsHead(s: string)
    requires s != [] && !IsTailChar(s[0])
    ensures TrimDoiTail(s) != [] && TrimDoiTail(s)[0] == s[0]
  {
  }

  /** `find_doi` after the search: the trimmed match, or `None` when nothing matched. */
  function FindDoi(firstMatch: Option<string>): (r: Option<string>)
    ensures r.Some? <==> firstMatch.Some?
    ensures r.Some? ==> r.value == TrimDoiTail(firstMatch.value)
  {
    match firstMatch
    case None => None
    case Some(m) => Some(TrimDoiTail(m))
  }

  // ---------------------------------------------------------------- metadata title

  const WordPrefix: string := "microsoft word"

  /**
   * The metadata title is used when it is non-empty once trimmed and is not a
   * "Microsoft Word - ..." placeholder, ignoring letter case; its trimmed form is
   * returned.
   */
  function MetaTitle(meta: Option<string>): (r: Option<string>)
    ensures r.Some? ==> meta.Some? && r.value == Strip(meta.value)
  {
    if meta.Some? && meta.value != [] && Strip(meta.value) != []
       && !StartsWith(Lower(Strip(meta.value)), WordPrefix)
    then Some(Strip(meta.value))
    else None
  }

  /** Both directions: the metadata title is used exactly when the two conditions hold. */
  lemma MetaTitleUsedIff(meta: string)
    ensures MetaTitle(Some(meta)).Some? <==>
      Strip(meta) != [] && !StartsWith(Lower(Strip(meta)), WordPrefix)
  {
  }

  /** An accepted metadata title is trimmed and is accepted again as it is. */
  lemma MetaTitleStable(meta: Option<string>)
    requires MetaTitle(meta).Some?
    ensures var t := MetaTitle(meta).value;
      t != [] && !IsSpace(t[0]) && !IsSpace(t[|t| - 1]) && MetaTitle(Some(t)) == Some(t)
  {
    StripIdempotent(meta.value);
  }

  // ---------------------------------------------------------------- candidate spans

  /** A text span of the first page; `None` marks an absent key. */
  datatype Span = Span(size: Option<real>, top: Option<real>, text: Option<string>)

  /** `page.get_text("dict")["blocks"]`: blocks of lines of spans. */
  type Block = seq<seq<Span>>

  /** A candidate: font size, top coordinate and stripped text. */
  datatype Candidate = Candidate(size: real, top: real, text: string)

  /** The words that mark a span as boilerplate rather than a title. */
  const Boilerplate: seq<string> := ["doi:", "http", "arxiv", "issn", "license", "copyright"]

  /** A span's stripped text qualifies: at least six characters and no boilerplate word, ignoring letter case. */
  predicate IsTitleText(txt: string) {
    |txt| >= 6 && forall k :: 0 <= k < |Boilerplate| ==> !Contains(Lower(txt), Boilerplate[k])
  }

  /** The candidate a span yields, with `size` 0 and top 9999 when they are absent. */
  function CandidateOf(s: Span): Candidate {
    Candidate(s.size.GetOr(0.0), s.top.GetOr(9999.0), Strip(s.text.GetOr("")))
  }

  /** The candidates of one line, in span order. */
  function LineCandidates(line: seq<Span>): seq<Candidate>
  {
    if line == [] then []
    else
      var c := CandidateOf(line[|line| - 1]);
      LineCandidates(line[..|line| - 1]) + (if IsTitleText(c.text) then [c] else [])
  }

  /** The candidates of one block, line by line. */
  function BlockCandidates(block: Block): seq<Candidate>
  {
    if block == [] then []
    else BlockCandidates(block[..|block| - 1]) + LineCandidates(block[|block| - 1])
  }

  /** The candidates of the page, in reading order. */
  function PageCandidates(blocks: seq<Block>): seq<Candidate>
  {
    if blocks == [] then []
    else PageCandidates(blocks[..|blocks| - 1]) + BlockCandidates(blocks[|blocks| - 1])
  }

  /** Every qualifying span of a line is a candidate, and every candidate comes from a span. */
  lemma {:induction false} LineCandidatesComplete(line: seq<Span>)
    ensures forall s :: s in line && IsTitleText(CandidateOf(s).text) ==> CandidateOf(s) in LineCandidates(line)
    ensures forall c :: c in LineCandidates(line) ==> exists s :: s in line && c == CandidateOf(s)
    ensures forall c :: c in LineCandidates(line) ==> IsTitleText(c.text)
  {
    if line != [] {
      var init := line[..|line| - 1];
      LineCandidatesComplete(init);
      assert line == init + [line[|line| - 1]];
    }
  }

  /** Every candidate of the page qualifies as title text. */
  lemma {:induction false} PageCandidatesQualify(blocks: seq<Block>)
    ensures forall c :: c in PageCandidates(blocks) ==> |c.text| >= 6 && IsTitleText(c.text)
  {
    if blocks != [] {
      PageCandidatesQualify(blocks[..|blocks| - 1]);
      BlockCandidatesQualify(blocks[|blocks| - 1]);
    }
  }

  lemma {:induction false} BlockCandidatesQualify(block: Block)
    ensures forall c :: c in BlockCandidates(block) ==> IsTitleText(c.text)
  {
    if block != [] {
      BlockCandidatesQualify(block[..|block| - 1]);
      LineCandidatesComplete(block[|block| - 1]);
    }
  }

  /**
   * The nested loops of `guess_title_local`: every span of every line of every
   * block, stripped and kept when it qualifies. The loop over the spans of one line
   * and the loop over the lines of one block are the two methods below.
   */
  method CollectCandidates(blocks: seq<Block>) returns (candidates: seq<Candidate>)
    ensures candidates == PageCandidates(blocks)
  {
    candidates := [];
    var b := 0;
    while b < |blocks|
      invariant 0 <= b <= |blocks|
      invariant candidates == PageCandidates(blocks[..b])
    {
      var found := CollectBlock(blocks[b]);
      candidates := candidates + found;
      assert blocks[..b + 1][..b] == blocks[..b];
      b := b + 1;
    }
    assert blocks[..b] == blocks;
  }

  /** The candidates of one block, line by line. */
  method CollectBlock(block: Block) returns (candidates: seq<Candidate>)
    ensures candidates == BlockCandidates(block)
  {
    candidates := [];
    var l := 0;
    while l < |block|
      invariant 0 <= l <= |block|
      invariant candidates == BlockCandidates(block[..l])
    {
      var found := CollectLine(block[l]);
      candidates := candidates + found;
      assert block[..l + 1][..l] == block[..l];
      l := l + 1;
    }
    assert block[..l] == block;
  }

  /** One more span of the line adds its candidate when it qualifies. */
  lemma LineCandidatesStep(line: seq<Span>, k: nat)
    requires k < |line|
    ensures var c := CandidateOf(line[k]);
      LineCandidates(line[..k + 1]) == LineCandidates(line[..k]) + (if IsTitleText(c.text) then [c] else [])
  {
    assert line[..k + 1][..k] == line[..k];
  }

  /** The candidates of one line: each span's stripped text, kept when it qualifies. */
  method CollectLine(line: seq<Span>) returns (candidates: seq<Candidate>)
    ensures candidates == LineCandidates(line)
  {
    candidates := [];
    var k := 0;
    while k < |line|
      invariant 0 <= k <= |line|
      invariant candidates == LineCandidates(line[..k])
    {
      var c := CandidateOf(line[k]);
      LineCandidatesStep(line, k);
      if IsTitleText(c.text) {
        candidates := candidates + [c];
      }
      k := k + 1;
    }
    assert line[..k] == line;
  }

  /** The sort key `(-size, top)`: `a` sorts strictly before `b`. */
  predicate SortsBefore(a: Candidate, b: Candidate) {
    a.size > b.size || (a.size == b.size && a.top < b.top)
  }

  /**
   * `candidates.sort(key=...)[0]`: the largest font, then the smallest top; the
   * sort is stable, so among equal keys the earliest candidate comes first.
   */
  function BestIndex(cands: seq<Candidate>): (i: nat)
    requires cands != []
    ensures i < |cands|
    ensures forall j :: 0 <= j < |cands| ==> !SortsBefore(cands[j], cands[i])
    ensures forall j :: 0 <= j < i ==> SortsBefore(cands[i], cands[j])
  {
    if |cands| == 1 then 0
    else
      var k := BestIndex(cands[1..]) + 1;
      assert forall j :: 1 <= j < |cands| ==> cands[j] == cands[1..][j - 1];
      if SortsBefore(cands[k], cands[0]) then k else 0
  }

  /** The document as far as the title guess reads it; `None` where reading raises. */
  datatype Document = Document(metaTitle: Option<string>, firstPage: Option<seq<Block>>)

  /** What `guess_title_local` returns for a document (`None` when the file cannot be opened). */
  function GuessedTitle(doc: Option<Document>): Option<string> {
    if doc.None? then None
    else if MetaTitle(doc.value.metaTitle).Some? then MetaTitle(doc.value.metaTitle)
    else if doc.value.firstPage.None? then None
    else
      var cands := PageCandidates(doc.value.firstPage.value);
      if cands == [] then None else Some(cands[BestIndex(cands)].text)
  }

  /** `guess_title_local(pdf_path)`. */
  method GuessTitleLocal(doc: Option<Document>) returns (title: Option<string>)
    ensures title == GuessedTitle(doc)
  {
    if doc.None? {
      return None;
    }
    var meta := MetaTitle(doc.value.metaTitle);
    if meta.Some? {
      return meta;
    }
    if doc.value.firstPage.None? {
      return None;
    }
    var candidates := CollectCandidates(doc.value.firstPage.value);
    if candidates == [] {
      return None;
    }
    return Some(candidates[BestIndex(candidates)].text);
  }

  /**
   * The guess from the page is the text of a qualifying span with the largest font
   * size, the smallest top among those, and no earlier span with the same key.
   */
  lemma GuessedTitleFromPage(doc: Document)
    requires MetaTitle(doc.metaTitle).None? && doc.firstPage.Some?
    requires PageCandidates(doc.firstPage.value) != []
    ensures var cands := PageCandidates(doc.firstPage.value);
      exists i :: 0 <= i < |cands| && GuessedTitle(Some(doc)) == Some(cands[i].text)
        && IsTitleText(cands[i].text)
        && (forall j :: 0 <= j < |cands| ==> cands[j].size <= cands[i].size)
        && (forall j :: 0 <= j < |cands| && cands[j].size == cands[i].size ==> cands[i].top <= cands[j].top)
  {
    var cands := PageCandidates(doc.firstPage.value);
    var i := BestIndex(cands);
    PageCandidatesQualify(doc.firstPage.value);
    assert cands[i] in cands;
  }

  /** A guess is never an empty string: a metadata title is non-empty, a span text has six characters or more. */
  lemma GuessedTitleNonEmpty(doc: Option<Document>)
    requires GuessedTitle(doc).Some?
    ensures GuessedTitle(doc).value != []
  {
    var d := doc.value;
    if MetaTitle(d.metaTitle).None? {
      var cands := PageCandidates(d.firstPage.value);
      PageCandidatesQualify(d.firstPage.value);
      assert cands[BestIndex(cands)] in cands;
    }
  }

  // ---------------------------------------------------------------- per-file row

  /** Python truthiness of an optional string. */
  predicate Truthy(s: Option<string>) {
    s.Some? && s.value != []
  }

  /** The title chain: the first truthy option, else the last resort. */
  function FirstTruthy(options: seq<Option<string>>, lastResort: string): (t: string)
    ensures (exists k :: 0 <= k < |options| && Truthy(options[k])) ==> t != []
    ensures (forall k :: 0 <= k < |options| ==> !Truthy(options[k])) ==> t == lastResort
    ensures (exists k :: 0 <= k < |options| && Truthy(options[k])) ==>
      exists k :: 0 <= k < |options| && Truthy(options[k]) && t == options[k].value
                  && forall j :: 0 <= j < k ==> !Truthy(options[j])
  {
    if options == [] then lastResort
    else if Truthy(options[0]) then options[0].value
    else
      assert forall k :: 1 <= k < |options| ==> options[k] == options[1..][k - 1];
      FirstTruthy(options[1..], lastResort)
  }

  /** The title lookups tried in turn: Crossref only when both a DOI and a contact address are present. */
  function TitleOptions(doi: Option<string>, mailto: Option<string>,
                        crossrefTitle: string -> Option<string>, localGuess: Option<string>): seq<Option<string>>
  {
    (if Truthy(doi) && Truthy(mailto) then [crossrefTitle(doi.value)] else []) + [localGuess]
  }

  /** `doi or ""`. */
  function DoiCell(doi: Option<string>): (cell: string)
    ensures cell == [] <==> !Truthy(doi)
    ensures Truthy(doi) ==> cell == doi.value
  {
    if Truthy(doi) then doi.value else ""
  }

  /** One CSV row: title, DOI cell, file name. */
  datatype TitleRow = TitleRow(title: string, doi: string, filename: string)

  /**
   * The body of the `process_folder` loop for one PDF: `title` is reassigned step
   * by step until it is truthy, falling back to the file stem.
   */
  method ProcessPdf(doi: Option<string>, mailto: Option<string>, crossrefTitle: string -> Option<string>,
                    localGuess: Option<string>, stem: string, filename: string)
    returns (row: TitleRow)
    ensures row.title == FirstTruthy(TitleOptions(doi, mailto, crossrefTitle, localGuess), stem)
    ensures row.doi == DoiCell(doi) && row.filename == filename
  {
    var title: Option<string> := None;
    if Truthy(doi) && Truthy(mailto) {
      title := crossrefTitle(doi.value);
    }
    if !Truthy(title) {
      title := localGuess;
    }
    if !Truthy(title) {
      title := Some(stem);
    }
    row := TitleRow(title.value, DoiCell(doi), filename);
  }

  /** Without a DOI or a contact address Crossref is never consulted: its answer cannot change the title. */
  lemma CrossrefNeedsDoiAndMailto(doi: Option<string>, mailto: Option<string>,
                                  lookup1: string -> Option<string>, lookup2: string -> Option<string>,
                                  localGuess: Option<string>, stem: string)
    requires !Truthy(doi) || !Truthy(mailto)
    ensures FirstTruthy(TitleOptions(doi, mailto, lookup1, localGuess), stem)
         == FirstTruthy(TitleOptions(doi, mailto, lookup2, localGuess), stem)
  {
  }

  /** A Crossref title, when tried and non-empty, wins over the local guess. */
  lemma CrossrefTitleFirst(doi: string, mailto: string, crossrefTitle: string -> Option<string>,
                           localGuess: Option<string>, stem: string)
    requires doi != [] && mailto != [] && Truthy(crossrefTitle(doi))
    ensures FirstTruthy(TitleOptions(Some(doi), Some(mailto), crossrefTitle, localGuess), stem)
         == crossrefTitle(doi).value
  {
  }

  /** Without a usable Crossref title, a non-empty local guess is the title. */
  lemma LocalGuessSecond(doi: Option<string>, mailto: Option<string>, crossrefTitle: string -> Option<string>,
                         localGuess: Option<string>, stem: string)
    requires !(Truthy(doi) && Truthy(mailto)) || !Truthy(crossrefTitle(doi.value))
    requires Truthy(localGuess)
    ensures FirstTruthy(TitleOptions(doi, mailto, crossrefTitle, localGuess), stem) == localGuess.value
  {
    var options := TitleOptions(doi, mailto, crossrefTitle, localGuess);
    assert Truthy(options[|options| - 1]);
  }

  /** With neither a Crossref title nor a local guess, the stem is the title. */
  lemma StemLast(doi: Option<string>, mailto: Option<string>, crossrefTitle: string -> Option<string>,
                 localGuess: Option<string>, stem: string)
    requires !(Truthy(doi) && Truthy(mailto)) || !Truthy(crossrefTitle(doi.value))
    requires !Truthy(localGuess)
    ensures FirstTruthy(TitleOptions(doi, mailto, crossrefTitle, localGuess), stem) == stem
  {
  }

  /** A written title is never empty unless every source, the stem included, is empty. */
  lemma TitleNonEmpty(doi: Option<string>, mailto: Option<string>, crossrefTitle: string -> Option<string>,
                      localGuess: Option<string>, stem: string)
    requires stem != []
    ensures FirstTruthy(TitleOptions(doi, mailto, crossrefTitle, localGuess), stem) != []
  {
  }
}
