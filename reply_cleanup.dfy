/**
 * The extraction driver's file handling around the language model: which input
 * files are processed and where their outputs go, and the cleanup of a reply
 * (drop a reasoning section, drop a markdown fence, trim) before it is decoded.
 * The directory listing and the existence test are parameters.
 */
module ReplyCleanup {
  import opened Text

  // ---------------------------------------------------------------- output names

  const MarkdownExt: string := ".md"
  const JsonSuffix: string := ".json"
  const RawSuffix: string := "_raw.txt"

  /**
   * `os.path.splitext(filename)[0]` for a name ending in ".md": the name without the
   * extension, unless everything before it is dots (".md", "..md"), in which case
   * `splitext` sees no extension and keeps the whole name.
   */
  function Stem(filename: string): (stem: string)
    requires EndsWith(filename, MarkdownExt)
    ensures stem == filename || filename == stem + MarkdownExt
    ensures (forall i :: 0 <= i < |filename| - 3 ==> filename[i] == '.') <==> stem == filename
  {
    var base := filename[..|filename| - 3];
    if forall i :: 0 <= i < |base| ==> base[i] == '.' then filename
    else
      assert filename == base + MarkdownExt;
      base
  }

  /** The planned work for one input: its name, the JSON output and the raw-reply output. */
  datatype Job = Job(filename: string, parsedName: string, rawName: string)

  function JobFor(filename: string): Job
    requires EndsWith(filename, MarkdownExt)
  {
    var stem := Stem(filename);
    Job(filename, stem + JsonSuffix, stem + RawSuffix)
  }

  /** The inputs processed, in listing order: ".md" files whose JSON output does not exist yet. */
  function Jobs(filenames: seq<string>, parsedExists: string -> bool): seq<Job> {
    if filenames == [] then []
    else
      var rest := Jobs(filenames[..|filenames| - 1], parsedExists);
      var f := filenames[|filenames| - 1];
      if EndsWith(f, MarkdownExt) && !parsedExists(JobFor(f).parsedName) then rest + [JobFor(f)] else rest
  }

  /**
   * The head of the driver's loop over the input directory: skip names that do not
   * end in ".md", name the two outputs after the stem, and skip inputs whose JSON
   * output exists.
   */
  method PlanJobs(filenames: seq<string>, parsedExists: string -> bool) returns (jobs: seq<Job>)
    ensures jobs == Jobs(filenames, parsedExists)
  {
    jobs := [];
    var k := 0;
    while k < |filenames|
      invariant 0 <= k <= |filenames|
      invariant jobs == Jobs(filenames[..k], parsedExists)
    {
      var filename := filenames[k];
      assert filenames[..k + 1][..k] == filenames[..k];
      if EndsWith(filename, MarkdownExt) {
        var stem := Stem(filename);
        var parsedPath := stem + JsonSuffix;
        var rawPath := stem + RawSuffix;
        if !parsedExists(parsedPath) {
          jobs := jobs + [Job(filename, parsedPath, rawPath)];
        }
      }
      k := k + 1;
    }
    assert filenames[..k] == filenames;
  }

  /**
   * Every job is an ".md" input from the listing whose JSON output is not there
   * yet, and its outputs are its stem followed by ".json" and "_raw.txt".
   */
  lemma {:induction false} JobsMeaning(filenames: seq<string>, parsedExists: string -> bool)
    ensures forall j :: j in Jobs(filenames, parsedExists) ==>
      && j.filename in filenames
      && EndsWith(j.filename, MarkdownExt)
      && j == JobFor(j.filename)
      && !parsedExists(j.parsedName)
    ensures forall f :: f in filenames && EndsWith(f, MarkdownExt) && !parsedExists(JobFor(f).parsedName) ==>
      JobFor(f) in Jobs(filenames, parsedExists)
  {
    if filenames != [] {
      var init := filenames[..|filenames| - 1];
      JobsMeaning(init, parsedExists);
      assert filenames == init + [filenames[|filenames| - 1]];
    }
  }

  /** The ".json" and "_raw.txt" outputs of an input never coincide, and both start with its stem. */
  lemma OutputsDiffer(filename: string)
    requires EndsWith(filename, MarkdownExt)
    ensures JobFor(filename).parsedName != JobFor(filename).rawName
    ensures StartsWith(JobFor(filename).parsedName, Stem(filename))
    ensures StartsWith(JobFor(filename).rawName, Stem(filename))
  {
    var stem := Stem(filename);
    var p, r := stem + JsonSuffix, stem + RawSuffix;
    assert p[|stem|] == '.' && r[|stem|] == '_';
    assert p[..|stem|] == stem && r[..|stem|] == stem;
  }

  /** An ordinary name loses exactly its ".md". */
  lemma OrdinaryStem(name: string)
    requires name != [] && name[0] != '.'
    ensures Stem(name + MarkdownExt) == name
  {
    var f := name + MarkdownExt;
    assert f[..|f| - 3] == name;
  }

  // ---------------------------------------------------------------- reply cleanup

  const ThinkEnd: string := "</think>"
  const JsonFence: string := "```json"
  const Fence: string := "```"

  /** `s.split(sep)[-1]`: what follows the last occurrence of `sep`, which holds none. */
  function LastPiece(s: string, sep: string): (r: string)
    requires sep != []
    ensures !Contains(r, sep)
    ensures Contains(s, sep) ==> EndsWith(s, sep + r)
    ensures !Contains(s, sep) ==> r == s
  {
    var parts := Split(s, sep);
    if Contains(s, sep) then
      JoinLastIsSuffix(parts, sep);
      parts[|parts| - 1]
    else
      assert |parts| == 1;
      parts[0]
  }

  /** Keep what follows the last "</think>", trimmed; a reply without one is kept. */
  function AfterThinking(s: string): string {
    if Contains(s, ThinkEnd) then Strip(LastPiece(s, ThinkEnd)) else s
  }

  /** Drop a leading "```json" (in preference to a bare "```"), trimming after it. */
  function WithoutLeadingFence(s: string): string {
    if StartsWith(s, JsonFence) then Strip(s[7..])
    else if StartsWith(s, Fence) then Strip(s[3..])
    else s
  }

  /** Drop one trailing "```", trimming after it. */
  function WithoutTrailingFence(t: string): string {
    if EndsWith(t, Fence) then Strip(t[..|t| - 3]) else t
  }

  function WithoutFences(s: string): string {
    WithoutTrailingFence(WithoutLeadingFence(s))
  }

  /** The reply as it is handed to the JSON decoder. */
  function Cleaned(reply: string): string {
    WithoutFences(AfterThinking(Strip(reply)))
  }

  /**
   * The cleanup in the extraction driver: `content` is trimmed, cut after the last
   * "</think>", stripped of a leading and a trailing fence, each step reassigning it.
   */
  method CleanReply(reply: string) returns (content: string)
    ensures content == Cleaned(reply)
  {
    content := Strip(reply);
    content := CutThinking(content);
    content := DropLeadingFence(content);
    content := DropTrailingFence(content);
  }

  method CutThinking(s: string) returns (content: string)
    ensures content == AfterThinking(s)
  {
    content := s;
    if Contains(content, ThinkEnd) {
      content := Strip(LastPiece(content, ThinkEnd));
    }
  }

  method DropLeadingFence(s: string) returns (content: string)
    ensures content == WithoutLeadingFence(s)
  {
    content := s;
    if StartsWith(content, JsonFence) {
      content := Strip(content[7..]);
    } else if StartsWith(content, Fence) {
      content := Strip(content[3..]);
    }
  }

  method DropTrailingFence(s: string) returns (content: string)
    ensures content == WithoutTrailingFence(s)
  {
    content := s;
    if EndsWith(content, Fence) {
      content := Strip(content[..|content| - 3]);
    }
  }

  /** Removing a leading fence keeps a piece of the text. */
  lemma WithoutLeadingFenceIsPiece(s: string)
    ensures Contains(s, WithoutLeadingFence(s))
  {
    if StartsWith(s, JsonFence) {
      assert s[7..|s|] == s[7..];
      StripSliceIsPiece(s, 7, |s|);
    } else if StartsWith(s, Fence) {
      assert s[3..|s|] == s[3..];
      StripSliceIsPiece(s, 3, |s|);
    } else {
      assert OccursAt(s, s, 0);
    }
  }

  /** Removing a trailing fence keeps a piece of the text. */
  lemma WithoutTrailingFenceIsPiece(t: string)
    ensures Contains(t, WithoutTrailingFence(t))
  {
    if EndsWith(t, Fence) {
      assert t[0..|t| - 3] == t[..|t| - 3];
      StripSliceIsPiece(t, 0, |t| - 3);
    } else {
      assert OccursAt(t, t, 0);
    }
  }

  /** Removing fences keeps a piece of the text. */
  lemma WithoutFencesIsPiece(s: string)
    ensures Contains(s, WithoutFences(s))
  {
    var t := WithoutLeadingFence(s);
    WithoutLeadingFenceIsPiece(s);
    WithoutTrailingFenceIsPiece(t);
    PieceTrans(s, t, WithoutTrailingFence(t));
  }

  /** After the think cut no "</think>" is left. */
  lemma AfterThinkingLacksTag(s: string)
    ensures !Contains(AfterThinking(s), ThinkEnd)
  {
    if Contains(s, ThinkEnd) {
      var last := LastPiece(s, ThinkEnd);
      StripIsPiece(last);
      PieceLacks(last, Strip(last), ThinkEnd);
    }
  }

  /** The decoder never sees a "</think>". */
  lemma CleanedLacksThinkTag(reply: string)
    ensures !Contains(Cleaned(reply), ThinkEnd)
  {
    var s := AfterThinking(Strip(reply));
    AfterThinkingLacksTag(Strip(reply));
    WithoutFencesIsPiece(s);
    PieceLacks(s, WithoutFences(s), ThinkEnd);
  }

  /** Without a "</think>", the decoder sees a piece of the reply itself. */
  lemma CleanedIsPieceOfReply(reply: string)
    requires !Contains(reply, ThinkEnd)
    ensures Contains(reply, Cleaned(reply))
  {
    var s := Strip(reply);
    StripIsPiece(reply);
    PieceLacks(reply, s, ThinkEnd);
    WithoutFencesIsPiece(s);
    PieceTrans(reply, s, Cleaned(reply));
  }

  /** A reply with no "</think>" and no fence at either end is only trimmed. */
  lemma PlainReplyOnlyTrimmed(reply: string)
    requires !Contains(Strip(reply), ThinkEnd)
    requires !StartsWith(Strip(reply), Fence) && !EndsWith(Strip(reply), Fence)
    ensures Cleaned(reply) == Strip(reply)
  {
    var s := Strip(reply);
    assert AfterThinking(s) == s;
    JsonFenceIsFence(s);
    assert WithoutLeadingFence(s) == s;
  }

  /**
   * A leading "```json" is removed whole, in preference to the bare "```" it starts
   * with; a bare leading fence loses three characters.
   */
  lemma LeadingFenceMeaning(s: string)
    ensures StartsWith(s, JsonFence) ==> StartsWith(s, Fence) && WithoutLeadingFence(s) == Strip(s[|JsonFence|..])
    ensures !StartsWith(s, JsonFence) && StartsWith(s, Fence) ==> WithoutLeadingFence(s) == Strip(s[|Fence|..])
    ensures !StartsWith(s, Fence) ==> WithoutLeadingFence(s) == s
  {
    JsonFenceIsFence(s);
  }

  /** A text that opens with "```json" opens with "```". */
  lemma JsonFenceIsFence(s: string)
    ensures StartsWith(s, JsonFence) ==> StartsWith(s, Fence)
  {
    if StartsWith(s, JsonFence) {
      assert s[..3] == s[..7][..3];
    }
  }
}
