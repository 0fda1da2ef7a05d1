/**
 * Reading the verifier model's answers: a free-text YES/NO/UNKNOWN reader, and a
 * reader for a structured reply that carries one record per entry, tagged by index.
 * The JSON decoder is a parameter: it either yields the list of records or fails
 * with a message.
 */
module VerifyExtractedData {
  import opened Wrappers
  import opened Text

  function Min(a: int, b: int): int {
    if a <= b then a else b
  }

  // ---------------------------------------------------------------- free text

  /** The longest prefix the fallback reads. */
  const HeadLength: nat := 100

  /** `response[:100]`. */
  function Head(s: string): (h: string)
    ensures |h| == Min(HeadLength, |s|) && h == s[..|h|]
  {
    s[..Min(HeadLength, |s|)]
  }

  /**
   * `parse_response(response)`: the answer and the reasoning. `None` stands for
   * Python's `None`; it and the empty string are "Empty response".
   */
  function ParseResponse(response: Option<string>): (r: (string, string))
    ensures r.0 == "YES" || r.0 == "NO" || r.0 == "UNKNOWN"
    ensures response.None? ==> r == ("UNKNOWN", "Empty response")
  {
    if response.None? || response.value == [] then ("UNKNOWN", "Empty response")
    else ReadStripped(Strip(response.value))
  }

  /**
   * The branches of `parse_response` after stripping: a leading YES or NO in any
   * letter case, else a search of the first hundred characters in which NO wins
   * whenever it appears.
   */
  function ReadStripped(s: string): (r: (string, string))
    ensures r.0 == "YES" || r.0 == "NO" || r.0 == "UNKNOWN"
  {
    var upper := Upper(s);
    if StartsWith(upper, "YES") then ("YES", Strip(s[3..]))
    else if StartsWith(upper, "NO") then ("NO", Strip(s[2..]))
    else
      var firstPart := Upper(Head(s));
      if Contains(firstPart, "YES") && !Contains(firstPart, "NO") then ("YES", s)
      else if Contains(firstPart, "NO") then ("NO", s)
      else ("UNKNOWN", s)
  }

  /** The reasoning read from a stripped reply is a piece of that reply. */
  lemma ReadStrippedReasoning(s: string)
    ensures Contains(s, ReadStripped(s).1)
  {
    var upper := Upper(s);
    if StartsWith(upper, "YES") {
      assert s[3..|s|] == s[3..];
      StripSliceIsPiece(s, 3, |s|);
    } else if StartsWith(upper, "NO") {
      assert s[2..|s|] == s[2..];
      StripSliceIsPiece(s, 2, |s|);
    } else {
      assert OccursAt(s, s, 0);
    }
  }

  /**
   * The reasoning is never invented: it is "Empty response" for an empty reply and
   * otherwise a piece of the reply itself.
   */
  lemma ReasoningFromResponse(response: string)
    ensures response == [] ==> ParseResponse(Some(response)) == ("UNKNOWN", "Empty response")
    ensures response != [] ==> Contains(response, ParseResponse(Some(response)).1)
  {
    if response != [] {
      var s := Strip(response);
      StripIsPiece(response);
      ReadStrippedReasoning(s);
      PieceTrans(response, s, ReadStripped(s).1);
    }
  }

  /** Whether the upper-cased text starts with a short prefix is read off its head. */
  lemma HeadDecidesPrefix(s: string, p: string)
    requires |p| <= HeadLength
    ensures StartsWith(Upper(s), p) == StartsWith(Upper(Head(s)), p)
  {
    var h := Head(s);
    if |p| <= |h| {
      UpperSlice(s, 0, |p|);
      UpperSlice(h, 0, |p|);
      assert h[..|p|] == s[..|p|];
    }
  }

  /**
   * Only the first hundred characters of the stripped reply decide the answer: two
   * stripped replies that agree there get the same answer.
   */
  lemma AnswerReadsOnlyTheHead(a: string, b: string)
    requires Head(a) == Head(b)
    ensures ReadStripped(a).0 == ReadStripped(b).0
  {
    HeadDecidesPrefix(a, "YES");
    HeadDecidesPrefix(b, "YES");
    HeadDecidesPrefix(a, "NO");
    HeadDecidesPrefix(b, "NO");
  }

  /** The same, for whole replies: what follows the first hundred stripped characters is never read for the answer. */
  lemma ParseAnswerReadsOnlyTheHead(a: string, b: string)
    requires a != [] && b != []
    requires Head(Strip(a)) == Head(Strip(b))
    ensures ParseResponse(Some(a)).0 == ParseResponse(Some(b)).0
  {
    AnswerReadsOnlyTheHead(Strip(a), Strip(b));
  }

  /** A reply opening with "yes" in any letter case is a YES, its reasoning the stripped rest. */
  lemma LeadingYes(s: string)
    requires |s| >= 3 && Upper(s[..3]) == "YES"
    ensures ReadStripped(s) == ("YES", Strip(s[3..]))
  {
    UpperSlice(s, 0, 3);
  }

  /** A reply opening with "no" in any letter case is a NO, its reasoning the stripped rest after two characters. */
  lemma LeadingNo(s: string)
    requires |s| >= 2 && Upper(s[..2]) == "NO"
    ensures ReadStripped(s) == ("NO", Strip(s[2..]))
  {
    var u := Upper(s);
    UpperSlice(s, 0, 2);
    assert u[..2] == "NO";
    assert !StartsWith(u, "YES") by {
      assert u[0] == 'N';
    }
  }

  /** Without a leading YES or NO, a head that mentions YES and not NO is read as YES, with the whole reply as reasoning. */
  lemma HeadYesOnly(s: string)
    requires !StartsWith(Upper(s), "YES") && !StartsWith(Upper(s), "NO")
    requires Contains(Upper(Head(s)), "YES") && !Contains(Upper(Head(s)), "NO")
    ensures ReadStripped(s) == ("YES", s)
  {
  }

  /** Without a leading YES or NO, a head that mentions neither is UNKNOWN, with the whole reply as reasoning. */
  lemma HeadNeither(s: string)
    requires !StartsWith(Upper(s), "YES") && !StartsWith(Upper(s), "NO")
    requires !Contains(Upper(Head(s)), "YES") && !Contains(Upper(Head(s)), "NO")
    ensures ReadStripped(s) == ("UNKNOWN", s)
  {
  }

  /**
   * Without a leading YES or NO, a head that mentions both is read as NO: the
   * fallback gives NO the last word.
   */
  lemma MixedHeadIsNo(s: string)
    requires !StartsWith(Upper(s), "YES") && !StartsWith(Upper(s), "NO")
    requires Contains(Upper(Head(s)), "NO")
    ensures ReadStripped(s) == ("NO", s)
  {
  }

  // ---------------------------------------------------------------- structured reply

  /**
   * One decoded record; `None` marks an absent key, which `item.get` replaces by
   * its default.
   */
  datatype Record = Record(entryIndex: Option<int>, answer: Option<string>, reasoning: Option<string>)

  /** `json.loads`: the list of records, or the exception's message. */
  type JsonLoads = string -> Result<seq<Record>, string>

  const ErrorAnswer: string := "ERROR"
  const MissingReasoning: string := "Missing response for this entry"
  const FailurePrefix: string := "Failed to parse response: "

  /** `text.split(sep)[1].split("```")[0].strip()`: the stripped text after the first `sep` up to the next fence. */
  function AfterFence(text: string, sep: string): (body: string)
    requires sep != [] && Contains(text, sep)
  {
    var parts := Split(text, sep);
    Strip(Split(parts[1], "```")[0])
  }

  /** The markdown fence removal at the start of `parse_structured_response`. */
  function FenceBody(response: string): string {
    if Contains(response, "```json") then AfterFence(response, "```json")
    else if Contains(response, "```") then AfterFence(response, "```")
    else response
  }

  /** The text of `s` before the first `sep`, or all of it. */
  function UpTo(s: string, sep: string): (r: string)
    requires sep != []
    ensures !Contains(r, sep)
  {
    match Find(s, sep)
    case Some(j) =>
      assert !Contains(s[..j], sep) by {
        if Contains(s[..j], sep) {
          var k :| OccursAt(s[..j], sep, k);
          OccursInSlice(s, sep, 0, j, k);
        }
      }
      s[..j]
    case None => s
  }

  lemma SplitHeadIsUpTo(s: string, sep: string)
    requires sep != []
    ensures Split(s, sep)[0] == UpTo(s, sep)
  {
    match Find(s, sep)
    case Some(j) => SplitFirst(s, sep, j);
    case None => SplitWithout(s, sep);
  }

  /**
   * What a fence split keeps: the stripped text after the first `sep`, cut at the
   * next `sep`, then at the next "```".
   */
  lemma AfterFenceMeaning(text: string, sep: string, i: nat)
    requires sep != [] && Find(text, sep) == Some(i)
    ensures AfterFence(text, sep) == Strip(UpTo(UpTo(text[i + |sep|..], sep), "```"))
  {
    SplitFirst(text, sep, i);
    SplitHeadIsUpTo(text[i + |sep|..], sep);
    assert Split(text, sep)[1] == Split(text[i + |sep|..], sep)[0];
    SplitHeadIsUpTo(Split(text, sep)[1], "```");
  }

  /**
   * With a "```json" fence, the body is the stripped text that follows the first
   * one, up to the next "```json" and then up to the next "```".
   */
  lemma FenceJsonMeaning(response: string, i: nat)
    requires Find(response, "```json") == Some(i)
    ensures FenceBody(response) == Strip(UpTo(UpTo(response[i + 7..], "```json"), "```"))
  {
    AfterFenceMeaning(response, "```json", i);
  }

  /**
   * With only bare fences, the body is the stripped text between the first "```"
   * and the next one (or the end).
   */
  lemma FenceBareMeaning(response: string, i: nat)
    requires !Contains(response, "```json") && Find(response, "```") == Some(i)
    ensures FenceBody(response) == Strip(UpTo(response[i + 3..], "```"))
  {
    AfterFenceMeaning(response, "```", i);
    UpToIdempotent(response[i + 3..], "```");
  }

  /** A reply without any fence is decoded as it is. */
  lemma NoFenceUnchanged(response: string)
    requires !Contains(response, "```")
    ensures FenceBody(response) == response
  {
    if Contains(response, "```json") {
      var i: nat :| OccursAt(response, "```json", i);
      assert OccursAt(response, "```", i) by {
        assert response[i..i + 3] == response[i..i + 7][..3];
      }
    }
  }

  lemma UpToIdempotent(s: string, sep: string)
    requires sep != []
    ensures UpTo(UpTo(s, sep), sep) == UpTo(s, sep)
  {
  }

  /** The last record tagged with index `i`, if any: later records overwrite earlier ones. */
  function LastFor(records: seq<Record>, i: int): Option<Record> {
    if records == [] then None
    else if records[|records| - 1].entryIndex.GetOr(-1) == i then Some(records[|records| - 1])
    else LastFor(records[..|records| - 1], i)
  }

  /** The (answer, reasoning) slot that a record fills, with `item.get`'s defaults. */
  function Fields(rec: Record): (string, string) {
    (rec.answer.GetOr("UNKNOWN"), rec.reasoning.GetOr(""))
  }

  /** What `parse_structured_response` puts at position `i` when decoding succeeded. */
  function SlotFor(records: seq<Record>, i: int): (string, string) {
    match LastFor(records, i)
    case Some(rec) => Fields(rec)
    case None => (ErrorAnswer, MissingReasoning)
  }

  /**
   * `parse_structured_response(response, num_entries)`: strip a markdown fence,
   * decode, keep the last in-range record per index in a dictionary, then read the
   * dictionary into two lists, one slot per entry, with "ERROR" for every entry no
   * record answered; when decoding fails every slot carries the failure.
   */
  method ParseStructuredResponse(response: string, numEntries: nat, jsonLoads: JsonLoads)
    returns (answers: seq<string>, reasonings: seq<string>)
    ensures |answers| == numEntries && |reasonings| == numEntries
    ensures jsonLoads(FenceBody(response)).Err? ==>
      forall i :: 0 <= i < numEntries ==>
        answers[i] == ErrorAnswer
        && reasonings[i] == FailurePrefix + jsonLoads(FenceBody(response)).error
    ensures jsonLoads(FenceBody(response)).Ok? ==>
      forall i :: 0 <= i < numEntries ==>
        (answers[i], reasonings[i]) == SlotFor(jsonLoads(FenceBody(response)).value, i)
  {
    var body := FenceBody(response);
    match jsonLoads(body)
    case Err(msg) =>
      answers := seq(numEntries, _ => ErrorAnswer);
      reasonings := seq(numEntries, _ => FailurePrefix + msg);
    case Ok(results) =>
      var resultDict := CollectRecords(results, numEntries);
      answers, reasonings := ReadSlots(resultDict, results, numEntries);
  }

  /** `result_dict` holds, for each in-range index some record names, the fields of the last such record. */
  ghost predicate HoldsLastRecords(resultDict: map<int, (string, string)>, records: seq<Record>, numEntries: nat) {
    && (forall i :: i in resultDict <==> 0 <= i < numEntries && LastFor(records, i).Some?)
    && (forall i :: i in resultDict ==> resultDict[i] == Fields(LastFor(records, i).value))
  }

  /** The loop over the decoded records that fills `result_dict`. */
  method CollectRecords(results: seq<Record>, numEntries: nat) returns (resultDict: map<int, (string, string)>)
    ensures HoldsLastRecords(resultDict, results, numEntries)
  {
    resultDict := map[];
    var k := 0;
    while k < |results|
      invariant 0 <= k <= |results|
      invariant HoldsLastRecords(resultDict, results[..k], numEntries)
    {
      var item := results[k];
      var idx := item.entryIndex.GetOr(-1);
      if 0 <= idx < numEntries {
        resultDict := resultDict[idx := (item.answer.GetOr("UNKNOWN"), item.reasoning.GetOr(""))];
      }
      assert results[..k + 1][..k] == results[..k];
      k := k + 1;
    }
    assert results[..k] == results;
  }

  /** The loop over the entries that reads `result_dict` into the two lists. */
  method ReadSlots(resultDict: map<int, (string, string)>, results: seq<Record>, numEntries: nat)
    returns (answers: seq<string>, reasonings: seq<string>)
    requires HoldsLastRecords(resultDict, results, numEntries)
    ensures |answers| == numEntries && |reasonings| == numEntries
    ensures forall i :: 0 <= i < numEntries ==> (answers[i], reasonings[i]) == SlotFor(results, i)
  {
    answers, reasonings := [], [];
    var i := 0;
    while i < numEntries
      invariant 0 <= i <= numEntries && |answers| == i && |reasonings| == i
      invariant forall j :: 0 <= j < i ==> (answers[j], reasonings[j]) == SlotFor(results, j)
    {
      if i in resultDict {
        answers := answers + [resultDict[i].0];
        reasonings := reasonings + [resultDict[i].1];
      } else {
        answers := answers + [ErrorAnswer];
        reasonings := reasonings + [MissingReasoning];
      }
      i := i + 1;
    }
  }

  /** A record tagged with an index outside the entries changes no slot. */
  lemma OutOfRangeIgnored(records: seq<Record>, rec: Record, numEntries: nat, i: int)
    requires !(0 <= rec.entryIndex.GetOr(-1) < numEntries) && 0 <= i < numEntries
    ensures SlotFor(records + [rec], i) == SlotFor(records, i)
  {
    assert (records + [rec])[..|records|] == records;
  }

  /** A later record for the same index overwrites the earlier answer. */
  lemma LaterRecordWins(records: seq<Record>, rec: Record, i: int)
    requires rec.entryIndex.GetOr(-1) == i
    ensures SlotFor(records + [rec], i) == Fields(rec)
  {
  }

  /** A record without an index is read as index -1, and so answers no entry. */
  lemma UntaggedIgnored(records: seq<Record>, answer: Option<string>, reasoning: Option<string>, i: nat)
    ensures SlotFor(records + [Record(None, answer, reasoning)], i) == SlotFor(records, i)
  {
    assert (records + [Record(None, answer, reasoning)])[..|records|] == records;
  }
}
