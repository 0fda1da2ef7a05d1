/**
 * Metadata for a DOI from three bibliographic services. The services themselves
 * are parameters (a fetcher maps a DOI to an optional record); modelled here are
 * what is done with their answers: the OpenAlex abstract rebuilt from its inverted
 * index, the Crossref abstract and author shaping, and the first-success fallback.
 */
module FetchMetadata {
  import opened Wrappers
  import opened Text

  // ---------------------------------------------------------------- OpenAlex abstract

  /**
   * `abstract_inverted_index`: each word with the positions it occupies, in the
   * order the dictionary is iterated.
   */
  type InvertedIndex = seq<(string, seq<int>)>

  /** The inner loop: `pos_to_word[pos] = word` for each position in turn. */
  function Place(m: map<int, string>, word: string, positions: seq<int>): map<int, string> {
    if positions == [] then m
    else Place(m, word, positions[..|positions| - 1])[positions[|positions| - 1] := word]
  }

  /** The dictionary `pos_to_word` after the nested loop over the whole index. */
  function PositionMap(index: InvertedIndex): map<int, string> {
    if index == [] then map[]
    else Place(PositionMap(index[..|index| - 1]), index[|index| - 1].0, index[|index| - 1].1)
  }

  /** The word of the last entry that lists position `p`: the one iterated last. */
  function LastWordAt(index: InvertedIndex, p: int): Option<string> {
    if index == [] then None
    else if p in index[|index| - 1].1 then Some(index[|index| - 1].0)
    else LastWordAt(index[..|index| - 1], p)
  }

  lemma {:induction false} PlaceMeaning(m: map<int, string>, word: string, positions: seq<int>)
    ensures forall p :: p in Place(m, word, positions) <==> p in m || p in positions
    ensures forall p :: p in positions ==> Place(m, word, positions)[p] == word
    ensures forall p :: p in m && p !in positions ==> Place(m, word, positions)[p] == m[p]
  {
    if positions != [] {
      PlaceMeaning(m, word, positions[..|positions| - 1]);
      assert positions == positions[..|positions| - 1] + [positions[|positions| - 1]];
    }
  }

  /**
   * Every listed position gets a word, nothing else does, and where two words claim
   * the same position the one iterated later wins.
   */
  lemma {:induction false} PositionMapMeaning(index: InvertedIndex)
    ensures forall p :: p in PositionMap(index) <==> LastWordAt(index, p).Some?
    ensures forall p :: p in PositionMap(index) ==> PositionMap(index)[p] == LastWordAt(index, p).value
  {
    if index != [] {
      var init := index[..|index| - 1];
      PositionMapMeaning(init);
      PlaceMeaning(PositionMap(init), index[|index| - 1].0, index[|index| - 1].1);
    }
  }

  /** Every non-empty finite set of integers has a least element. */
  lemma {:induction false} LeastElement(s: set<int>) returns (m: int)
    requires s != {}
    ensures m in s && forall x :: x in s ==> m <= x
    decreases |s|
  {
    if forall y :: y !in s {
      assert false;
    }
    var y :| y in s;
    var rest := s - {y};
    if rest == {} {
      m := y;
      forall x | x in s ensures m <= x {
        assert x !in rest;
      }
    } else {
      var r := LeastElement(rest);
      m := if y < r then y else r;
      forall x | x in s ensures m <= x {
        if x != y {
          assert x in rest;
        }
      }
    }
  }

  lemma MinExists(s: set<int>)
    requires s != {}
    ensures exists m :: m in s && forall x :: x in s ==> m <= x
  {
    var m := LeastElement(s);
  }

  /** `sorted(keys)`: the elements of `s` in ascending order. */
  function SortedPositions(s: set<int>): (ks: seq<int>)
    ensures |ks| == |s|
    ensures forall i :: 0 <= i < |ks| ==> ks[i] in s
    decreases |s|
  {
    if s == {} then []
    else
      MinExists(s);
      var m :| m in s && forall x :: x in s ==> m <= x;
      [m] + SortedPositions(s - {m})
  }

  predicate StrictlyIncreasing(ks: seq<int>) {
    forall i, j :: 0 <= i < j < |ks| ==> ks[i] < ks[j]
  }

  /** The sorted keys are strictly ascending and hold every element of the set. */
  lemma {:induction false} SortedPositionsMeaning(s: set<int>)
    ensures StrictlyIncreasing(SortedPositions(s))
    ensures forall p :: p in s ==> p in SortedPositions(s)
    decreases |s|
  {
    if s != {} {
      var ks := SortedPositions(s);
      var m := ks[0];
      var tail := SortedPositions(s - {m});
      assert m in s && (forall x :: x in s ==> m <= x) && ks == [m] + tail;
      SortedPositionsMeaning(s - {m});
      forall i, j | 0 <= i < j < |ks| ensures ks[i] < ks[j] {
        assert ks[j] == tail[j - 1];
        if i > 0 {
          assert ks[i] == tail[i - 1];
        } else {
          assert tail[j - 1] in s - {m};
        }
      }
      forall p | p in s ensures p in ks {
        if p != m {
          assert p in tail;
        }
      }
    }
  }

  /** The words of the abstract, one per occupied position, in ascending position order. */
  function AbstractWords(index: InvertedIndex): seq<string> {
    var m := PositionMap(index);
    var ks := SortedPositions(m.Keys);
    seq(|ks|, i requires 0 <= i < |ks| => m[ks[i]])
  }

  /**
   * The `if abstract:` branch of `fetch_openalex`: fill `pos_to_word` in a nested
   * loop over the index, then join its words by ascending position.
   */
  method ReconstructAbstract(index: InvertedIndex) returns (text: string)
    ensures text == Join(AbstractWords(index), " ")
  {
    var posToWord: map<int, string> := map[];
    var w := 0;
    while w < |index|
      invariant 0 <= w <= |index|
      invariant posToWord == PositionMap(index[..w])
    {
      var (word, positions) := index[w];
      var j := 0;
      while j < |positions|
        invariant 0 <= j <= |positions|
        invariant posToWord == Place(PositionMap(index[..w]), word, positions[..j])
      {
        posToWord := posToWord[positions[j] := word];
        assert positions[..j + 1][..j] == positions[..j];
        j := j + 1;
      }
      assert positions[..j] == positions;
      assert index[..w + 1][..w] == index[..w];
      w := w + 1;
    }
    assert index[..w] == index;
    var keys := SortedPositions(posToWord.Keys);
    text := Join(seq(|keys|, i requires 0 <= i < |keys| => posToWord[keys[i]]), " ");
  }

  /**
   * The abstract holds one word per distinct position, in ascending position
   * order, each the word iterated last for that position.
   */
  lemma AbstractWordsMeaning(index: InvertedIndex)
    ensures var ks := SortedPositions(PositionMap(index).Keys);
      && StrictlyIncreasing(ks)
      && (forall p :: LastWordAt(index, p).Some? <==> p in ks)
      && |AbstractWords(index)| == |ks|
      && forall i :: 0 <= i < |ks| ==> Some(AbstractWords(index)[i]) == LastWordAt(index, ks[i])
  {
    PositionMapMeaning(index);
    SortedPositionsMeaning(PositionMap(index).Keys);
  }

  /** With space-free words the abstract splits back on single spaces into exactly those words. */
  lemma AbstractSplitsIntoWords(index: InvertedIndex)
    requires AbstractWords(index) != []
    requires forall k :: 0 <= k < |AbstractWords(index)| ==> !Contains(AbstractWords(index)[k], " ")
    ensures Split(Join(AbstractWords(index), " "), " ") == AbstractWords(index)
  {
    SplitJoin(AbstractWords(index), " ");
  }

  // ---------------------------------------------------------------- Crossref shaping

  /** One entry of Crossref's `author` list; `None` marks an absent key. */
  datatype CrossrefAuthor = CrossrefAuthor(given: Option<string>, family: Option<string>)

  /** `f"{given} {family}".strip()` with empty defaults. */
  function AuthorName(a: CrossrefAuthor): (name: string)
    ensures name == [] || (!IsSpace(name[0]) && !IsSpace(name[|name| - 1]))
    ensures name == Strip(a.given.GetOr("") + " " + a.family.GetOr(""))
  {
    Strip(a.given.GetOr("") + " " + a.family.GetOr(""))
  }

  /** The `Authors` field: the names joined by ", " in input order. */
  function CrossrefAuthors(authors: seq<CrossrefAuthor>): string {
    Join(seq(|authors|, i requires 0 <= i < |authors| => AuthorName(authors[i])), ", ")
  }

  /** A name made of a trimmed given name and a trimmed family name is the two joined by one space. */
  lemma AuthorNameOfTrimmedParts(given: string, family: string)
    requires given != [] && !IsSpace(given[0])
    requires family != [] && !IsSpace(family[|family| - 1])
    ensures AuthorName(CrossrefAuthor(Some(given), Some(family))) == given + " " + family
  {
    var s := given + " " + family;
    assert s[0] == given[0] && s[|s| - 1] == family[|family| - 1];
    StripStable(s);
  }

  /** With one part missing, the name is the other part, trimmed; with both missing it is empty. */
  lemma AuthorNameOfOnePart(given: string, family: string)
    ensures AuthorName(CrossrefAuthor(None, Some(family))) == Strip(family)
    ensures AuthorName(CrossrefAuthor(Some(given), None)) == Strip(given)
    ensures AuthorName(CrossrefAuthor(None, None)) == []
  {
    FamilyOnly(family);
    GivenOnly(given);
    FamilyOnly("");
  }

  lemma FamilyOnly(family: string)
    ensures AuthorName(CrossrefAuthor(None, Some(family))) == Strip(family)
  {
    assert "" + " " + family == " " + family;
    StripSpacePrefix(family);
  }

  lemma GivenOnly(given: string)
    ensures AuthorName(CrossrefAuthor(Some(given), None)) == Strip(given)
  {
    assert given + " " + "" == given + " ";
    StripSpaceSuffix(given);
  }

  lemma NoBorderComma()
    ensures NoBorder(", ")
  {
    assert ", "[1..] == " " && ", "[..1] == ",";
  }

  /**
   * The author list keeps order and count: when no name holds ", ", splitting the
   * field on ", " gives back the names one by one.
   */
  lemma CrossrefAuthorsRoundTrip(authors: seq<CrossrefAuthor>)
    requires authors != []
    requires forall k :: 0 <= k < |authors| ==> !Contains(AuthorName(authors[k]), ", ")
    ensures var names := seq(|authors|, i requires 0 <= i < |authors| => AuthorName(authors[i]));
      Split(CrossrefAuthors(authors), ", ") == names
  {
    NoBorderComma();
    var names := seq(|authors|, i requires 0 <= i < |authors| => AuthorName(authors[i]));
    SplitJoin(names, ", ");
  }

  const OpenTag: string := "<jats:p>"
  const CloseTag: string := "</jats:p>"

  /**
   * The abstract cleanup: a non-empty abstract loses every `<jats:p>` and then
   * every `</jats:p>` (one replace pass each) and is trimmed; a missing or empty
   * one is passed through.
   */
  function CleanAbstract(raw: Option<string>): (r: Option<string>)
    ensures r.None? <==> raw.None?
    ensures raw == Some([]) ==> r == raw
    ensures raw.Some? && raw.value != [] ==>
      r == Some(Strip(ReplaceAll(ReplaceAll(raw.value, OpenTag, ""), CloseTag, "")))
  {
    if raw.Some? && raw.value != [] then
      Some(Strip(ReplaceAll(ReplaceAll(raw.value, OpenTag, ""), CloseTag, "")))
    else raw
  }

  /** A paragraph wrapped in the JATS tags loses both tags and is trimmed. */
  lemma WrappedParagraphUnwrapped(body: string)
    requires !Contains(body, OpenTag) && !Contains(body, CloseTag)
    ensures CleanAbstract(Some(OpenTag + body + CloseTag)) == Some(Strip(body))
  {
    OpenPassDropsOpenTag(body);
    ClosePassDropsCloseTag(body);
  }

  /** The `<jats:p>` pass removes the leading tag and leaves the rest alone. */
  lemma OpenPassDropsOpenTag(body: string)
    requires !Contains(body, OpenTag)
    ensures ReplaceAll(OpenTag + body + CloseTag, OpenTag, "") == body + CloseTag
  {
    var t := body + CloseTag;
    assert OpenTag + body + CloseTag == OpenTag + t;
    ReplaceAllLeading(OpenTag, "", t);
    OpenTagAbsentAfter(body);
  }

  /** Nothing after the opening tag forms another one. */
  lemma OpenTagAbsentAfter(body: string)
    requires !Contains(body, OpenTag)
    ensures !Contains(body + CloseTag, OpenTag)
  {
    forall q: nat ensures !OccursAt(body + CloseTag, OpenTag, q) {
      OpenTagNotAt(body, q);
    }
  }

  /** The `</jats:p>` pass removes the trailing tag of a paragraph without one inside. */
  lemma ClosePassDropsCloseTag(body: string)
    requires !Contains(body, CloseTag)
    ensures ReplaceAll(body + CloseTag, CloseTag, "") == body
  {
    var t := body + CloseTag;
    CloseTagNoBorder();
    forall q: nat | q < |body| ensures !OccursAt(t, CloseTag, q) {
      NoOccurrenceBeforeSeparator(body, CloseTag, "", q);
      assert body + CloseTag + "" == t;
    }
    assert OccursAt(t, CloseTag, |body|);
    assert Find(t, CloseTag) == Some(|body|);
    ReplaceAllStep(t, CloseTag, "", |body|);
    assert t[..|body|] == body && t[|body| + |CloseTag|..] == "";
  }

  /** `<jats:p>` cannot start before a following `</jats:p>` and run into it. */
  lemma OpenTagNotAt(body: string, q: nat)
    requires !Contains(body, OpenTag)
    ensures !OccursAt(body + CloseTag, OpenTag, q)
  {
    var s := body + CloseTag;
    if q + |OpenTag| <= |body| {
      assert !OccursAt(body, OpenTag, q);
      assert s[q..q + |OpenTag|] == body[q..q + |OpenTag|];
    } else if q + |OpenTag| <= |s| {
      if q == |body| + 1 {
        assert s[q] == CloseTag[1] == '/';
      } else {
        assert s[q + 7] == CloseTag[q + 7 - |body|];
      }
    }
  }

  /** No proper suffix of `</jats:p>` is also a prefix of it. */
  lemma CloseTagNoBorder()
    ensures NoBorder(CloseTag)
  {
    forall d | 0 < d < |CloseTag| ensures CloseTag[d..] != CloseTag[..|CloseTag| - d] {
      assert CloseTag[d..][0] != '<';
    }
  }

  /** An abstract with neither tag is only trimmed. */
  lemma TaglessAbstractOnlyTrimmed(raw: string)
    requires !Contains(raw, OpenTag) && !Contains(raw, CloseTag)
    ensures CleanAbstract(Some(raw)) == Some(Strip(raw))
  {
  }

  /** Crossref's `message`; `None` marks an absent key. */
  datatype CrossrefMessage = CrossrefMessage(
    authors: seq<CrossrefAuthor>,
    abstractText: Option<string>,
    titles: Option<seq<string>>,
    dateParts: Option<seq<seq<Option<int>>>>,
    url: Option<string>)

  /** The record a source returns. */
  datatype Metadata = Metadata(
    source: string,
    title: Option<string>,
    abstractText: Option<string>,
    authors: string,
    year: Option<int>,
    url: Option<string>)

  /**
   * The record `fetch_crossref` builds from a message: `None` where indexing the
   * title list or the date parts raises, which the fetcher turns into `None`.
   */
  function CrossrefRecord(msg: CrossrefMessage): (r: Option<Metadata>)
    ensures r.Some? <==>
      (msg.titles.None? || msg.titles.value != [])
      && (msg.dateParts.None? || (msg.dateParts.value != [] && msg.dateParts.value[0] != []))
    ensures r.Some? ==> r.value.source == "Crossref" && r.value.title.Some?
    ensures r.Some? ==> r.value.abstractText == CleanAbstract(msg.abstractText)
    ensures r.Some? ==> r.value.authors == CrossrefAuthors(msg.authors)
    ensures r.Some? ==> r.value.year == (if msg.dateParts.None? then None else msg.dateParts.value[0][0])
    ensures r.Some? ==> r.value.url == msg.url
  {
    var titles := msg.titles.GetOr([""]);
    var parts := msg.dateParts.GetOr([[None]]);
    if titles == [] || parts == [] || parts[0] == [] then None
    else Some(Metadata("Crossref", Some(titles[0]), CleanAbstract(msg.abstractText),
                       CrossrefAuthors(msg.authors), parts[0][0], msg.url))
  }

  /** The record's author field splits back on ", " into the names, in message order. */
  lemma CrossrefRecordAuthors(msg: CrossrefMessage)
    requires CrossrefRecord(msg).Some? && msg.authors != []
    requires forall k :: 0 <= k < |msg.authors| ==> !Contains(AuthorName(msg.authors[k]), ", ")
    ensures Split(CrossrefRecord(msg).value.authors, ", ")
         == seq(|msg.authors|, i requires 0 <= i < |msg.authors| => AuthorName(msg.authors[i]))
  {
    CrossrefAuthorsRoundTrip(msg.authors);
  }

  /** A record whose abstract is one wrapped paragraph holds the paragraph's body, trimmed. */
  lemma CrossrefRecordAbstract(msg: CrossrefMessage, body: string)
    requires CrossrefRecord(msg).Some? && msg.abstractText == Some(OpenTag + body + CloseTag)
    requires !Contains(body, OpenTag) && !Contains(body, CloseTag)
    ensures CrossrefRecord(msg).value.abstractText == Some(Strip(body))
  {
    WrappedParagraphUnwrapped(body);
  }

  /** The Crossref title is the first listed title, or "" when the list is absent. */
  lemma CrossrefTitleIsFirst(msg: CrossrefMessage)
    requires CrossrefRecord(msg).Some?
    ensures CrossrefRecord(msg).value.title == Some(if msg.titles.None? then "" else msg.titles.value[0])
  {
  }

  // ---------------------------------------------------------------- fallback

  /** A source's answer, given the DOI: a record or `None` on any failure. */
  type Fetcher = string -> Option<Metadata>

  /** `meta and meta.get("Title")`: a record with a non-empty title. */
  predicate Usable(meta: Option<Metadata>) {
    meta.Some? && meta.value.title.Some? && meta.value.title.value != []
  }

  /** The index of the first usable answer, if any. */
  function FirstUsable(results: seq<Option<Metadata>>): (k: Option<nat>)
    ensures k.Some? ==> k.value < |results| && Usable(results[k.value])
                        && forall j :: 0 <= j < k.value ==> !Usable(results[j])
    ensures k.None? ==> forall j :: 0 <= j < |results| ==> !Usable(results[j])
  {
    if results == [] then None
    else if Usable(results[0]) then Some(0)
    else match FirstUsable(results[1..])
      case Some(k) => Some(k + 1)
      case None => None
  }

  /** The row written for a DOI: the DOI and the chosen record's fields, or all `None`. */
  datatype Row = Row(
    doi: string,
    source: Option<string>,
    title: Option<string>,
    abstractText: Option<string>,
    authors: Option<string>,
    year: Option<int>,
    url: Option<string>)

  function RowOf(doi: string, meta: Metadata): Row {
    Row(doi, Some(meta.source), meta.title, meta.abstractText, Some(meta.authors), meta.year, meta.url)
  }

  function NoMetadata(doi: string): Row {
    Row(doi, None, None, None, None, None, None)
  }

  /**
   * `get_metadata_from_doi`: ask Semantic Scholar, Crossref and OpenAlex in turn
   * and return the first record with a title, tagged with the DOI; a row of `None`s
   * when none has one.
   */
  method GetMetadata(doi: string, semantic: Fetcher, crossref: Fetcher, openAlex: Fetcher)
    returns (row: Row)
    ensures row.doi == doi
    ensures var results := [semantic(doi), crossref(doi), openAlex(doi)];
      match FirstUsable(results)
      case Some(k) => row == RowOf(doi, results[k].value)
      case None => row == NoMetadata(doi)
  {
    var fetchers := [semantic, crossref, openAlex];
    ghost var results := [semantic(doi), crossref(doi), openAlex(doi)];
    var i := 0;
    while i < |fetchers|
      invariant 0 <= i <= |fetchers|
      invariant forall j :: 0 <= j < i ==> !Usable(results[j])
    {
      var meta := fetchers[i](doi);
      assert meta == results[i];
      if meta.Some? && meta.value.title.Some? && meta.value.title.value != [] {
        return RowOf(doi, meta.value);
      }
      i := i + 1;
    }
    return NoMetadata(doi);
  }

  /** The chosen record always has a title, and falling through means no source had one. */
  lemma FallbackMeaning(doi: string, results: seq<Option<Metadata>>)
    ensures FirstUsable(results).Some? ==>
      var row := RowOf(doi, results[FirstUsable(results).value].value);
      row.title.Some? && row.title.value != [] && row.doi == doi
    ensures FirstUsable(results).None? <==> forall j :: 0 <= j < |results| ==> !Usable(results[j])
  {
  }
}
