# PolyMD decision logic in Dafny

PolyMD assembles a corpus of polymer molecular-dynamics papers. It harvests DOIs
from Crossref and fetches their metadata. It also recovers titles and DOIs from
local PDFs, triages abstracts with a zero-shot classifier, extracts structured
data with a language model and checks the extracted data with a second model.
This project models the deterministic decision logic of those scripts and proves
properties of it. Everything foreign is a parameter: the models, the web
services, the PDF reader and the JSON decoder.

Modules, one per script plus shared helpers:

- `Wrappers`: `Option` and `Result`.
- `Text`: the Python string operations the scripts use. These are `strip`,
  `lower`/`upper`, `startswith`/`endswith`, `in`, `find`, `split`, `join` and
  `replace`.
- `TermMatch`: a case-insensitive literal term matcher with word boundaries. It
  stands in for the classifier's keyword regexes.
- `ScoreMaps`: the label→score dictionary as an insertion-ordered sequence of
  pairs. Also the group maximum and the stable descending sort behind `top`.
- `OneShotClassifier` (`src/one_shot_classifier.py`) covers:
  - the label taxonomy and the keyword lists;
  - `prefilter` and `decide`;
  - the batched prefilter / score / scatter loop that fills an `array<bool>` of
    accept flags.
- `VerifyExtractedData` (`verify_extracted_data.py`): `parse_response` and
  `parse_structured_response`.
- `FetchMetadata` (`src/fetch_metadata_from_doi.py`) covers:
  - the OpenAlex abstract rebuilt from its inverted index, as a method with
    nested loops over a `map`;
  - the Crossref abstract, author and record shaping;
  - the first-success fallback over three sources.
- `PdfTitle` (`helpers/get_doi_title_from_pdf.py`) covers:
  - the DOI tail trim;
  - the metadata-title test;
  - title-candidate collection and selection;
  - the per-file title fallback and CSV row.
- `DoiHarvest` (`extract_doi_from_keywords.py`): the cursor-paginated harvest
  loop, with its retries, the `seen` set, the counter and the stop conditions.
- `ReplyCleanup` (`src/prompt_based_extraction.py`): input selection, output
  naming, and the reply cleanup before JSON decoding.

## Model

| member | source | states |
|---|---|---|
| Text.Strip | src/prompt_based_extraction.py:213 | `str.strip()`: the result is no longer than the input and neither starts nor ends with whitespace |
| Text.StripPosition | src/prompt_based_extraction.py:213 | the stripped text sits in the input at some position, with only whitespace before and after it |
| Text.StripIdempotent | helpers/get_doi_title_from_pdf.py:31-32 | stripping twice is stripping once |
| Text.Find | verify_extracted_data.py:201 | the first occurrence of a substring: it occurs there and nowhere before; `None` exactly when it occurs nowhere |
| Text.Split | src/prompt_based_extraction.py:217 | `str.split(sep)`: at least one piece; the pieces joined by `sep` give the input back; no piece holds `sep`; a single piece exactly when `sep` does not occur |
| Text.SplitFirst | verify_extracted_data.py:201 | the first piece is the text before the first occurrence; the rest is the split of what follows it |
| Text.SplitJoin | src/fetch_metadata_from_doi.py:38 | joining pieces free of a border-free separator and splitting again returns the pieces |
| Text.ReplaceAll | src/fetch_metadata_from_doi.py:41 | `str.replace`: a text without the pattern is returned unchanged |
| Text.ReplaceAllStep | src/fetch_metadata_from_doi.py:41 | the pass keeps the text before the first occurrence, puts the replacement in its place and resumes after it |
| Text.ReplaceAllLeading | src/fetch_metadata_from_doi.py:41 | a text opening with the pattern gets the replacement first, then the pass over the rest |
| Text.FindAtStart | src/fetch_metadata_from_doi.py:41 | a text opening with the pattern finds it at index 0 |
| Text.StripSpacePrefix | src/fetch_metadata_from_doi.py:38 | a space put in front does not survive `strip()` |
| Text.StripSpaceSuffix | src/fetch_metadata_from_doi.py:38 | a space put at the end does not survive `strip()` |
| TermMatch.SearchFrom | src/one_shot_classifier.py:66-71 | the first whole-word, case-insensitive occurrence of a term at or after a position, or none at all |
| TermMatch.Matches | src/one_shot_classifier.py:66-71 | a term matches exactly when it occurs somewhere in the text as a whole word, ignoring case |
| TermMatch.MatchIsOccurrence | src/one_shot_classifier.py:66-71 | a term that matches is a substring of the lower-cased text |
| TermMatch.EmptyMatchesNothing | src/one_shot_classifier.py:66-71 | non-empty terms never match the empty text |
| TermMatch.NoMatchInsideWord | src/one_shot_classifier.py:66-71 | no match ends in the middle of a word |
| TermMatch.WellFormedIsLower | src/one_shot_classifier.py:66-71 | a well-formed term has no capitals, so lower-casing leaves it as it is |
| ScoreMaps.KeyIndex | src/one_shot_classifier.py:93 | the position of a label in the score dictionary; it is unique |
| ScoreMaps.Put | src/one_shot_classifier.py:93 | dictionary assignment: the key maps to the new value and every other key keeps its value; a new key is appended; keys stay distinct |
| ScoreMaps.DictFromPairsMeaning | src/one_shot_classifier.py:93 | `dict(zip(labels, scores))`: distinct keys, each mapped to the last score given for it, and no pair invented |
| ScoreMaps.DictOfDistinct | src/one_shot_classifier.py:93 | with distinct labels, the dictionary holds the pairs as given |
| ScoreMaps.GroupMax | src/one_shot_classifier.py:95-97 | `max(s.get(l, 0.0) for l in group)`: at least every group score, and equal to one of them |
| ScoreMaps.GroupMaxNonNegative | src/one_shot_classifier.py:95-97 | with non-negative scores the group maximum is non-negative |
| ScoreMaps.GroupMaxMonotone | src/one_shot_classifier.py:95-97 | raising scores within a group never lowers its maximum |
| ScoreMaps.InsertDescPermutes | src/one_shot_classifier.py:106 | one insertion step of the sort adds exactly that item |
| ScoreMaps.InsertDescSorted | src/one_shot_classifier.py:106 | one insertion step keeps the sequence in non-increasing score order |
| ScoreMaps.InsertDescStable | src/one_shot_classifier.py:106 | one insertion step keeps the relative order of items with equal scores |
| ScoreMaps.SortDescMeaning | src/one_shot_classifier.py:106 | the sort is a permutation, non-increasing by score, and stable: items of each score keep their input order |
| ScoreMaps.Top | src/one_shot_classifier.py:106 | `top` has length min(6, number of labels) |
| ScoreMaps.SortedCut | src/one_shot_classifier.py:106 | a prefix of a sorted sequence is sorted and scores at least as high as everything after it |
| ScoreMaps.TopIsBest | src/one_shot_classifier.py:106 | `top` is sorted, drawn from the dictionary, and no item left out outscores an item kept |
| OneShotClassifier.TaxonomyWellFormed | src/one_shot_classifier.py:9-44 | 9 positive, 7 property and 10 negative labels, 26 in all, no label twice, so the groups are disjoint |
| OneShotClassifier.TermListsWellFormed | src/one_shot_classifier.py:47-64 | every term of the three prefilter lists is non-empty, lower-case and begins and ends with a word character |
| OneShotClassifier.GroupsSeparated | src/one_shot_classifier.py:9-42 | the first property label and the first positive label belong to no other group |
| OneShotClassifier.Prefilter | src/one_shot_classifier.py:66-71 | `prefilter`: the gate passes exactly when the lower-cased text contains "polymer" and an MD or force-field term matches as a whole word; the "polymeric" test adds nothing |
| OneShotClassifier.RejectionIgnoresScorer | src/one_shot_classifier.py:82-85 | a text failing the gate is not accepted and not prioritised; it has reason "fails keyword prefilter", all scores 0.0 and an empty `top`; the decision is the same for every scorer |
| OneShotClassifier.EmptyTextRejected | src/one_shot_classifier.py:82-85 | the empty abstract gets the rejection record |
| OneShotClassifier.NoPolymerNoAccept | src/one_shot_classifier.py:66-85 | a text without "polymer" is neither accepted nor prioritised |
| OneShotClassifier.AssessScoresAreGroupMaxima | src/one_shot_classifier.py:95-97 | each group score is at least every in-group score, absent labels counting 0.0, and is attained by one of them |
| OneShotClassifier.AssessNonNegative | src/one_shot_classifier.py:95-104 | non-negative scores give non-negative group scores and priority score |
| OneShotClassifier.ScoresNonNegative | src/one_shot_classifier.py:87-104 | when the scorer returns non-negative scores, every score in the decision is non-negative |
| OneShotClassifier.AssessAcceptMeaning | src/one_shot_classifier.py:95-108 | accept holds exactly when some positive label reaches the threshold and beats every negative label by the margin |
| OneShotClassifier.PolymericHasPolymer | src/one_shot_classifier.py:68 | any text holding "polymeric" holds "polymer" |
| OneShotClassifier.Decide | src/one_shot_classifier.py:73-121 | `decide`: accept holds exactly when the gate passes and some positive label reaches the threshold and beats every negative label by the margin; its reason, priority, scores and `top` are stated by ReasonTracksAccept, PriorityMeaning, AssessScoresAreGroupMaxima, TopMeaning and RejectionIgnoresScorer |
| OneShotClassifier.ReasonTracksAccept | src/one_shot_classifier.py:82-114 | the reason is "pos high & margin over neg" exactly when accepted, and "fails keyword prefilter" exactly when the gate fails |
| OneShotClassifier.PriorityMeaning | src/one_shot_classifier.py:100-109 | the priority score is 0.7·prop + 0.3·pos + 0.05 when a property term matches; priority holds exactly when that score and the property-over-negative margin reach their limits |
| OneShotClassifier.GetOfTwo | src/one_shot_classifier.py:93 | a two-label score map reads back its two scores and 0.0 elsewhere |
| OneShotClassifier.AssessPropertyHeavy | src/one_shot_classifier.py:100-109 | a property-heavy score map is prioritised but not accepted under the default limits |
| OneShotClassifier.PriorityWithoutAccept | src/one_shot_classifier.py:100-109 | priority is independent of accept: some scorer output gives a passing text priority without acceptance |
| OneShotClassifier.AcceptMonotone | src/one_shot_classifier.py:108 | with `score_neg` and the limits fixed, raising `score_pos` never withdraws acceptance |
| OneShotClassifier.AssessAcceptMonotone | src/one_shot_classifier.py:95-108 | raising positive-label scores while negative scores stay fixed never withdraws acceptance |
| OneShotClassifier.AcceptMonotoneInScores | src/one_shot_classifier.py:87-108 | the same for a whole text, comparing two scorers |
| OneShotClassifier.TopMeaning | src/one_shot_classifier.py:93-106 | `top` of a passing text has min(6, labels) items, sorted, drawn from the score map, none outscored by an item left out; with distinct labels the map is the scorer's pairs |
| OneShotClassifier.PassingIndices | src/one_shot_classifier.py:183 | `to_run`: the indices whose mask is true, strictly ascending, every one of them |
| OneShotClassifier.PrefilterMask | src/one_shot_classifier.py:177 | one gate verdict per text, in order |
| OneShotClassifier.DecideAcceptIsScoredAccept | src/one_shot_classifier.py:206 | the batch's accept test on a scorer output equals `decide(...)["accept"]` under the thresholds 0.70 / 0.15 written at the call |
| OneShotClassifier.AcceptOf | src/one_shot_classifier.py:198-206 | the accept verdict computed from one pipeline output |
| OneShotClassifier.ScatterAccepts | src/one_shot_classifier.py:198-209 | each scored item's verdict is written at its original index; slots not scored stay false |
| OneShotClassifier.BatchAcceptsAreDecisions | src/one_shot_classifier.py:177-209 | after the scatter, every slot equals the single-item decision's accept |
| OneShotClassifier.BatchAccepts | src/one_shot_classifier.py:177-209 | one fresh accept flag per input, in input order, each equal to the single-item decision's accept |
| OneShotClassifier.EmitRows | src/one_shot_classifier.py:212-213 | one row per input, pairing each file name with its flag |
| OneShotClassifier.RowsAgreeAppend | src/one_shot_classifier.py:172-213 | rows of consecutive batches concatenate into rows for the whole prefix |
| OneShotClassifier.ClassifyBatch | src/one_shot_classifier.py:172-213 | a batch yields exactly one row per item, in order, with the single-item accept |
| OneShotClassifier.ClassifyAll | src/one_shot_classifier.py:172-213 | processing in batches of 16 gives the same rows as deciding every abstract alone |
| VerifyExtractedData.Head | verify_extracted_data.py:183 | `response[:100]`: a prefix of length min(100, length) |
| VerifyExtractedData.ParseResponse | verify_extracted_data.py:166-194 | the answer is always YES, NO or UNKNOWN; no reply at all gives ("UNKNOWN", "Empty response") |
| VerifyExtractedData.ReadStripped | verify_extracted_data.py:171-192 | the answer read from a stripped reply is always YES, NO or UNKNOWN; which branch gives which answer is stated by the lemmas LeadingYes, LeadingNo, HeadYesOnly, MixedHeadIsNo and HeadNeither |
| VerifyExtractedData.ReadStrippedReasoning | verify_extracted_data.py:174-192 | the reasoning is always a piece of the stripped reply |
| VerifyExtractedData.ReasoningFromResponse | verify_extracted_data.py:166-194 | an empty reply gives ("UNKNOWN", "Empty response"); otherwise the reasoning is a piece of the reply |
| VerifyExtractedData.HeadDecidesPrefix | verify_extracted_data.py:174-183 | a prefix of at most 100 characters is seen in the reply exactly when it is seen in its head |
| VerifyExtractedData.AnswerReadsOnlyTheHead | verify_extracted_data.py:174-192 | two stripped replies with the same first 100 characters get the same answer |
| VerifyExtractedData.ParseAnswerReadsOnlyTheHead | verify_extracted_data.py:166-192 | the same for raw replies whose stripped forms share their head |
| VerifyExtractedData.LeadingYes | verify_extracted_data.py:175-177 | a reply opening with "yes" in any case is YES, with the rest after 3 characters, stripped, as reasoning |
| VerifyExtractedData.LeadingNo | verify_extracted_data.py:178-180 | a reply opening with "no" in any case is NO, with the rest after 2 characters, stripped, as reasoning |
| VerifyExtractedData.HeadYesOnly | verify_extracted_data.py:184-186 | without a leading YES/NO, a head containing YES and no NO answers YES, with the whole reply as reasoning |
| VerifyExtractedData.HeadNeither | verify_extracted_data.py:190-192 | without a leading YES/NO, a head containing neither answers UNKNOWN, with the whole reply as reasoning |
| VerifyExtractedData.MixedHeadIsNo | verify_extracted_data.py:181-189 | without a leading YES/NO, a head containing NO answers NO, whether or not it contains YES, with the whole reply as reasoning |
| VerifyExtractedData.UpTo | verify_extracted_data.py:201-203 | `split(sep)[0]`: the text before the first separator, holding none |
| VerifyExtractedData.SplitHeadIsUpTo | verify_extracted_data.py:201-203 | the first piece of a split is the text up to the first separator |
| VerifyExtractedData.AfterFenceMeaning | verify_extracted_data.py:201-203 | the fence body is the stripped text after the first marker, up to the next marker and the next fence |
| VerifyExtractedData.FenceJsonMeaning | verify_extracted_data.py:200-201 | with "```json" present, only the text after its first occurrence and before the next fence is decoded |
| VerifyExtractedData.FenceBareMeaning | verify_extracted_data.py:202-203 | otherwise, with "```" present, only the text between the first two fences is decoded |
| VerifyExtractedData.NoFenceUnchanged | verify_extracted_data.py:200-205 | a reply without fences is decoded as it is |
| VerifyExtractedData.UpToIdempotent | verify_extracted_data.py:201-203 | cutting at the first separator twice is cutting once |
| VerifyExtractedData.ParseStructuredResponse | verify_extracted_data.py:196-231 | two lists of exactly `num_entries` slots; on a decoding failure every slot is "ERROR" with the failure message; otherwise each slot holds the last in-range record for its index, or "ERROR" / "Missing response for this entry" |
| VerifyExtractedData.CollectRecords | verify_extracted_data.py:208-215 | the dictionary holds exactly the in-range indices some record names, each with the fields of the last such record and the `get` defaults |
| VerifyExtractedData.ReadSlots | verify_extracted_data.py:218-228 | one slot per entry, read from the dictionary, "ERROR" where it has none |
| VerifyExtractedData.OutOfRangeIgnored | verify_extracted_data.py:210-211 | a record tagged outside [0, num_entries) changes no slot |
| VerifyExtractedData.LaterRecordWins | verify_extracted_data.py:211-215 | a later record for an index overwrites the earlier one |
| VerifyExtractedData.UntaggedIgnored | verify_extracted_data.py:210-211 | a record with no `entry_index` (read as -1) changes no slot |
| FetchMetadata.PlaceMeaning | src/fetch_metadata_from_doi.py:68-69 | the inner loop gives every listed position the word and leaves all other entries alone |
| FetchMetadata.PositionMapMeaning | src/fetch_metadata_from_doi.py:66-69 | after the nested loop a position has a word exactly when some entry lists it, and the word is the one iterated last |
| FetchMetadata.LeastElement | src/fetch_metadata_from_doi.py:70 | a non-empty set of positions has a least element |
| FetchMetadata.MinExists | src/fetch_metadata_from_doi.py:70 | the same, stated as an existence |
| FetchMetadata.SortedPositions | src/fetch_metadata_from_doi.py:70 | `sorted(keys)` has one entry per key, each a key |
| FetchMetadata.SortedPositionsMeaning | src/fetch_metadata_from_doi.py:70 | the sorted keys are strictly ascending and include every key |
| FetchMetadata.ReconstructAbstract | src/fetch_metadata_from_doi.py:64-70 | the nested loops and the join produce the words by ascending position, joined by single spaces |
| FetchMetadata.AbstractWordsMeaning | src/fetch_metadata_from_doi.py:65-70 | one word per distinct position, in strictly ascending position order, each the word iterated last there |
| FetchMetadata.AbstractSplitsIntoWords | src/fetch_metadata_from_doi.py:70 | with space-free words, the abstract splits back on single spaces into exactly those words |
| FetchMetadata.AuthorName | src/fetch_metadata_from_doi.py:38 | an author's name is `f"{given} {family}".strip()` with a missing part read as "": trimmed at both ends |
| FetchMetadata.AuthorNameOfOnePart | src/fetch_metadata_from_doi.py:38 | with one part missing the name is the other part, trimmed, with no stray space; with both missing it is empty |
| FetchMetadata.AuthorNameOfTrimmedParts | src/fetch_metadata_from_doi.py:38 | with both parts present, the name is given, one space, family |
| FetchMetadata.NoBorderComma | src/fetch_metadata_from_doi.py:38 | the separator ", " cannot overlap itself |
| FetchMetadata.CrossrefAuthorsRoundTrip | src/fetch_metadata_from_doi.py:37-38 | the author field splits back on ", " into the names, in input order, when no name holds ", " |
| FetchMetadata.CleanAbstract | src/fetch_metadata_from_doi.py:39-41 | an absent abstract stays absent, an empty one is kept as it is, and any other has every `<jats:p>`, then every `</jats:p>`, removed and is then trimmed |
| FetchMetadata.WrappedParagraphUnwrapped | src/fetch_metadata_from_doi.py:39-41 | a body wrapped in one `<jats:p>`…`</jats:p>` pair, holding neither tag itself, comes out as the body, trimmed |
| FetchMetadata.OpenPassDropsOpenTag | src/fetch_metadata_from_doi.py:41 | the `<jats:p>` pass over a wrapped body removes only the leading tag |
| FetchMetadata.ClosePassDropsCloseTag | src/fetch_metadata_from_doi.py:41 | the `</jats:p>` pass removes only the trailing tag |
| FetchMetadata.TaglessAbstractOnlyTrimmed | src/fetch_metadata_from_doi.py:39-41 | an abstract with neither JATS tag is only trimmed |
| FetchMetadata.CrossrefRecord | src/fetch_metadata_from_doi.py:36-49 | a record exists exactly when the title list and the date parts can be indexed; it is tagged Crossref and has a title; its abstract is the cleaned abstract, its authors the joined author names, its year the first date part (none when `issued` or `date-parts` is absent) and its URL the message's |
| FetchMetadata.CrossrefRecordAuthors | src/fetch_metadata_from_doi.py:37-38 | the record's author field splits back on ", " into the names, in message order, when no name holds ", " |
| FetchMetadata.CrossrefRecordAbstract | src/fetch_metadata_from_doi.py:39-41 | a record whose abstract is one `<jats:p>` paragraph holds the paragraph's body, trimmed |
| FetchMetadata.CrossrefTitleIsFirst | src/fetch_metadata_from_doi.py:44 | the title is the first listed, or "" when the key is absent |
| FetchMetadata.FirstUsable | src/fetch_metadata_from_doi.py:88-91 | the first result that is present and has a non-empty title, none before it; none when no result has one |
| FetchMetadata.GetMetadata | src/fetch_metadata_from_doi.py:86-100 | Semantic Scholar, then Crossref, then OpenAlex: the first with a title supplies the row; otherwise every field is None; the DOI is always the input |
| FetchMetadata.FallbackMeaning | src/fetch_metadata_from_doi.py:88-100 | a chosen row has a non-empty title and the input DOI; the fallback happens exactly when no source had a title |
| PdfTitle.TrimDoiTail | helpers/get_doi_title_from_pdf.py:23 | `rstrip(').,;]')`: a prefix with only those characters cut, not ending in one |
| PdfTitle.TrimDoiTailIdempotent | helpers/get_doi_title_from_pdf.py:23 | trimming again changes nothing |
| PdfTitle.TrimDoiTailKeepsHead | helpers/get_doi_title_from_pdf.py:23 | a DOI not starting with a tail character keeps its first character |
| PdfTitle.FindDoi | helpers/get_doi_title_from_pdf.py:20-23 | a DOI is returned exactly when the pattern matched, and it is the match, trimmed |
| PdfTitle.MetaTitle | helpers/get_doi_title_from_pdf.py:30-32 | a metadata title, when used, is the trimmed metadata |
| PdfTitle.MetaTitleUsedIff | helpers/get_doi_title_from_pdf.py:30-32 | used exactly when non-empty after trimming and not starting with "microsoft word" in any case |
| PdfTitle.MetaTitleStable | helpers/get_doi_title_from_pdf.py:30-32 | an accepted title is non-empty, trimmed, and accepted again as it is |
| PdfTitle.LineCandidatesComplete | helpers/get_doi_title_from_pdf.py:43-50 | a span is a candidate exactly when its stripped text qualifies, with its size and top defaulted |
| PdfTitle.BlockCandidatesQualify | helpers/get_doi_title_from_pdf.py:42-50 | every candidate of a block qualifies |
| PdfTitle.PageCandidatesQualify | helpers/get_doi_title_from_pdf.py:41-50 | every page candidate has at least 6 characters and none of the boilerplate words, ignoring case |
| PdfTitle.LineCandidatesStep | helpers/get_doi_title_from_pdf.py:43-50 | adding one span adds its candidate exactly when it qualifies |
| PdfTitle.CollectLine | helpers/get_doi_title_from_pdf.py:43-50 | the loop over a line's spans appends exactly its candidates, in order |
| PdfTitle.CollectBlock | helpers/get_doi_title_from_pdf.py:42-50 | the loop over a block's lines appends exactly its candidates, in order |
| PdfTitle.CollectCandidates | helpers/get_doi_title_from_pdf.py:40-50 | the nested loops collect exactly the page's candidates, in reading order |
| PdfTitle.BestIndex | helpers/get_doi_title_from_pdf.py:51-52 | the first element of the sorted list: no candidate sorts before it, and it sorts strictly before every earlier one |
| PdfTitle.GuessTitleLocal | helpers/get_doi_title_from_pdf.py:25-52 | the metadata title if usable, else the best candidate, else none |
| PdfTitle.GuessedTitleFromPage | helpers/get_doi_title_from_pdf.py:51-52 | the guess from the page is a qualifying text with the largest font and the smallest top among those |
| PdfTitle.GuessedTitleNonEmpty | helpers/get_doi_title_from_pdf.py:25-52 | a guessed title is never empty |
| PdfTitle.FirstTruthy | helpers/get_doi_title_from_pdf.py:87-93 | the `or` chain yields the first non-empty option, every earlier one being empty or absent; with no non-empty option, the last resort |
| PdfTitle.DoiCell | helpers/get_doi_title_from_pdf.py:96 | `doi or ""`: empty exactly when no DOI was found, else the DOI |
| PdfTitle.ProcessPdf | helpers/get_doi_title_from_pdf.py:86-96 | the row's title is the first non-empty of the Crossref title (if tried), the local guess and the stem; its DOI cell and file name |
| PdfTitle.LocalGuessSecond | helpers/get_doi_title_from_pdf.py:87-93 | when Crossref is not tried or gives nothing, a non-empty local guess is the title |
| PdfTitle.StemLast | helpers/get_doi_title_from_pdf.py:87-93 | when neither Crossref nor the local guess gives a title, the file stem is the title |
| PdfTitle.CrossrefNeedsDoiAndMailto | helpers/get_doi_title_from_pdf.py:88-89 | without a DOI or a contact address the Crossref answer cannot affect the title |
| PdfTitle.CrossrefTitleFirst | helpers/get_doi_title_from_pdf.py:88-91 | a non-empty Crossref title, when tried, wins |
| PdfTitle.TitleNonEmpty | helpers/get_doi_title_from_pdf.py:87-93 | with a non-empty stem the written title is never empty |
| DoiHarvest.Request | extract_doi_from_keywords.py:22-26 | at most 3 attempts, stopping at the first 200; success exactly when one of the 3 answered 200; a failure has made all 3 attempts |
| DoiHarvest.DedupMeaning | extract_doi_from_keywords.py:35-39 | the DOIs written have no duplicates and are exactly the non-empty DOIs present |
| DoiHarvest.DedupAppendOnly | extract_doi_from_keywords.py:35-39 | later pages only append: earlier lines are never changed |
| DoiHarvest.WritePage | extract_doi_from_keywords.py:35-39 | after a page the lines written are the de-duplicated DOIs so far, `seen` is their set and the counter their number |
| DoiHarvest.FirstStop | extract_doi_from_keywords.py:14-44 | the first page at which one of the stop conditions holds |
| DoiHarvest.PageDoisStep | extract_doi_from_keywords.py:30-39 | the DOIs of one more page are appended to those before it |
| DoiHarvest.FetchAllDois | extract_doi_from_keywords.py:4-47 | the file holds the de-duplicated DOIs of the pages read up to the stop; the counter equals its line count; each request carried the cursor the previous reply gave ("*" first) |
| DoiHarvest.StopAt | extract_doi_from_keywords.py:26-44 | the pages read end at the first stop; that page's items are written only when its request succeeded and it had items |
| DoiHarvest.CursorsFollowReplies | extract_doi_from_keywords.py:42-44 | every request after the first sends the non-empty `next-cursor` of the previous reply |
| DoiHarvest.HarvestMeaning | extract_doi_from_keywords.py:35-39 | no DOI is written twice, and a DOI is written exactly when it is non-empty and on a page read |
| DoiHarvest.EarlierPagesContinued | extract_doi_from_keywords.py:22-44 | every page before the stop succeeded, had items and gave a non-empty cursor |
| ReplyCleanup.Stem | src/prompt_based_extraction.py:20 | `splitext(name)[0]` for a ".md" name: the whole name exactly when only dots precede ".md", otherwise the name without ".md" |
| ReplyCleanup.PlanJobs | src/prompt_based_extraction.py:16-27 | the loop keeps, in listing order, the ".md" names whose JSON output does not exist, with their two output names |
| ReplyCleanup.JobsMeaning | src/prompt_based_extraction.py:16-27 | every job is a listed ".md" name, with outputs named after its stem, and its JSON output did not exist; conversely every such name gets its job |
| ReplyCleanup.OutputsDiffer | src/prompt_based_extraction.py:20-22 | the ".json" and "_raw.txt" outputs never coincide and both start with the stem |
| ReplyCleanup.OrdinaryStem | src/prompt_based_extraction.py:20 | an ordinary name loses exactly its ".md" |
| ReplyCleanup.LastPiece | src/prompt_based_extraction.py:217 | `split(sep)[-1]`: what follows the last separator, holding none, so the text ends with the separator and it; the whole text when there is no separator |
| Text.JoinSnoc | src/prompt_based_extraction.py:217 | joined pieces end with the separator and the last piece, after the join of the others |
| Text.JoinLastIsSuffix | src/prompt_based_extraction.py:217 | the separator followed by the last piece is a suffix of the joined text |
| ReplyCleanup.CutThinking | src/prompt_based_extraction.py:216-217 | the text after the last "</think>", trimmed, or the text as it was |
| ReplyCleanup.DropLeadingFence | src/prompt_based_extraction.py:220-223 | drops a leading "```json" in preference to "```", then trims |
| ReplyCleanup.DropTrailingFence | src/prompt_based_extraction.py:224-225 | drops one trailing "```", then trims |
| ReplyCleanup.CleanReply | src/prompt_based_extraction.py:213-225 | the content is trimmed, cut after the last "</think>", stripped of a leading and a trailing fence, in that order |
| ReplyCleanup.LeadingFenceMeaning | src/prompt_based_extraction.py:220-223 | a leading "```json" is removed whole, else a leading "```", and the rest trimmed; a text with neither is unchanged |
| ReplyCleanup.WithoutLeadingFenceIsPiece | src/prompt_based_extraction.py:220-223 | removing a leading fence keeps a piece of the text |
| ReplyCleanup.WithoutTrailingFenceIsPiece | src/prompt_based_extraction.py:224-225 | removing a trailing fence keeps a piece of the text |
| ReplyCleanup.WithoutFencesIsPiece | src/prompt_based_extraction.py:220-225 | removing both fences keeps a piece of the text |
| ReplyCleanup.AfterThinkingLacksTag | src/prompt_based_extraction.py:216-217 | after the cut no "</think>" remains |
| ReplyCleanup.CleanedLacksThinkTag | src/prompt_based_extraction.py:213-225 | the decoder never sees a "</think>" |
| ReplyCleanup.CleanedIsPieceOfReply | src/prompt_based_extraction.py:213-225 | without "</think>", the decoder sees a piece of the reply itself |
| ReplyCleanup.PlainReplyOnlyTrimmed | src/prompt_based_extraction.py:213-225 | a reply with no "</think>" and no fence at either end is only trimmed |
| ReplyCleanup.JsonFenceIsFence | src/prompt_based_extraction.py:220-222 | a text opening with "```json" opens with "```" |

## Left out

- The zero-shot pipeline (DeBERTa) is the `Scorer` parameter. It maps an abstract to the (label, score) pairs it returns for the full label sequence. The batched pipeline call is modelled as that scorer applied to each text that runs.
- Scores are `real`. IEEE float rounding, exact float equality at the thresholds, and the `float()`/`bool()` casts are not modelled.
- The keyword regexes are modelled by a literal, case-insensitive matcher with ASCII word boundaries. Each optional group is expanded into literal alternatives. Python's `re` engine and `DOI_RE` are not modelled: `FindDoi` takes the pattern's first match as given.
- Case mapping is ASCII only: there is no Unicode case folding. Whitespace follows Python's `str.isspace` over the whole of Unicode.
- `json.loads` is a parameter that returns either records or an error message. Items that are not dictionaries and indices that are not integers are not modelled.
- JSON `null` values for `answer`/`reasoning` are not modelled: only present and absent keys are.
- FetchMetadata.AuthorName: a Crossref `given` or `family` that is JSON `null` is not modelled. Python's `.get(k, '')` returns `None` for a key that is present with a null value, and the f-string then writes "None". The `Option` stands only for an absent key.
- Each harvest attempt answers with a status code only. A request that raises (a time-out or a connection error at `extract_doi_from_keywords.py:23`) is not retried by the source and aborts `fetch_all_dois`; that exception path is not modelled.
- Network access, retries with back-off, sleeps and time-outs are not modelled. Each service is a given answer: a status per attempt for the harvest, and an optional record per source for the metadata.
- The Semantic Scholar and OpenAlex record shaping (apart from the abstract rebuild), and the year, URL and author shaping of OpenAlex, are not modelled. They pass service fields through.
- `title_via_crossref` is the `crossrefTitle` parameter.
- The thread pool that fetches metadata concurrently is not modelled.
- PyMuPDF is not modelled: spans are given as optional (size, top, text) triples, and the document as an optional metadata title and an optional first page. A `bbox` with fewer than two entries is not modelled.
- File I/O, CSV and log writing, glob, console output, the dataset and data-loader classes are not modelled. Their directory listings are sequences of names, and batches are sequences of (file name, text) pairs.
- Joining the output paths with the output directory is not modelled. The existence test is the `parsedExists` parameter applied to the output name.
- The prompt templates and the model calls of the extraction and verification scripts are not modelled. They are fixed text and foreign services.
- The verification script's main loop is not modelled. It skips the first 32 files, and its summary percentages divide by the row count.
- DoiHarvest.FetchAllDois requires that some reply in the given sequence stops the loop. The source's `while True` has no bound of its own, so a harvest that never stops is not modelled.
- DoiHarvest.FetchAllDois models the JSON body only on a successful reply: a body without `message` (a `KeyError`) is not modelled.
