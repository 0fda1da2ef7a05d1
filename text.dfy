/**
 * The handful of Python `str` operations the scripts rely on: strip, lower/upper,
 * startswith/endswith, `in`, find, split, join and replace. Case mapping covers
 * ASCII letters only; whitespace is exactly the set Python's `str.isspace` accepts.
 */
module Text {
  import opened Wrappers

  /** Python's `str.isspace()` for one character. */
  predicate IsSpace(c: char) {
    || ('\t' <= c <= '\r')
    || ('\U{1C}' <= c <= '\U{1F}')
    || c == ' ' || c == '\U{85}' || c == '\U{A0}' || c == '\U{1680}'
    || ('\U{2000}' <= c <= '\U{200A}')
    || c == '\U{2028}' || c == '\U{2029}' || c == '\U{202F}' || c == '\U{205F}' || c == '\U{3000}'
  }

  /** `s.lstrip()`: drops the leading whitespace and nothing else. */
  function TrimLeft(s: string): (r: string)
    ensures |r| <= |s| && r == s[|s| - |r|..]
    ensures r == [] || !IsSpace(r[0])
    ensures forall i :: 0 <= i < |s| - |r| ==> IsSpace(s[i])
  {
    if s != [] && IsSpace(s[0]) then TrimLeft(s[1..]) else s
  }

  /** `s.rstrip()`: drops the trailing whitespace and nothing else. */
  function TrimRight(s: string): (r: string)
    ensures |r| <= |s| && r == s[..|r|]
    ensures r == [] || !IsSpace(r[|r| - 1])
    ensures forall i :: |r| <= i < |s| ==> IsSpace(s[i])
  {
    if s != [] && IsSpace(s[|s| - 1]) then TrimRight(s[..|s| - 1]) else s
  }

  /** `s.strip()`: the longest slice of `s` that neither starts nor ends with whitespace. */
  function Strip(s: string): (r: string)
    ensures |r| <= |s|
    ensures r == [] || (!IsSpace(r[0]) && !IsSpace(r[|r| - 1]))
  {
    TrimRight(TrimLeft(s))
  }

  /**
   * Where `Strip(s)` sits in `s`: everything before it and everything after it is
   * whitespace.
   */
  lemma StripPosition(s: string) returns (i: nat)
    ensures OccursAt(s, Strip(s), i)
    ensures forall j :: 0 <= j < i ==> IsSpace(s[j])
    ensures forall j :: i + |Strip(s)| <= j < |s| ==> IsSpace(s[j])
  {
    var l := TrimLeft(s);
    i := |s| - |l|;
    assert Strip(s) == TrimRight(l);
    forall j | i + |Strip(s)| <= j < |s| ensures IsSpace(s[j]) {
      assert s[j] == l[j - i];
    }
  }

  /** A string without surrounding whitespace is its own strip. */
  lemma StripStable(s: string)
    requires s == [] || (!IsSpace(s[0]) && !IsSpace(s[|s| - 1]))
    ensures Strip(s) == s
  {
  }

  lemma StripIdempotent(s: string)
    ensures Strip(Strip(s)) == Strip(s)
  {
    StripStable(Strip(s));
  }

  /** A space in front does not change the strip. */
  lemma StripSpacePrefix(x: string)
    ensures Strip(" " + x) == Strip(x)
  {
    assert (" " + x)[1..] == x;
  }

  /** A space behind does not change the strip. */
  lemma StripSpaceSuffix(x: string)
    ensures Strip(x + " ") == Strip(x)
  {
    var l := TrimLeft(x);
    TrimLeftSpaceSuffix(x);
    if l != [] {
      assert (l + " ")[..|l|] == l;
    }
  }

  lemma {:induction false} TrimLeftSpaceSuffix(x: string)
    ensures TrimLeft(x + " ") == if TrimLeft(x) == [] then [] else TrimLeft(x) + " "
  {
    if x == [] {
      assert TrimLeft(" ") == TrimLeft(" "[1..]);
    } else if IsSpace(x[0]) {
      assert (x + " ")[1..] == x[1..] + " ";
      TrimLeftSpaceSuffix(x[1..]);
    }
  }

  /** Python's `str.lower()` on ASCII letters. */
  function LowerChar(c: char): char {
    if 'A' <= c <= 'Z' then (c as int - 'A' as int + 'a' as int) as char else c
  }

  /** Python's `str.upper()` on ASCII letters. */
  function UpperChar(c: char): char {
    if 'a' <= c <= 'z' then (c as int - 'a' as int + 'A' as int) as char else c
  }

  function Lower(s: string): (r: string)
    ensures |r| == |s| && forall i :: 0 <= i < |s| ==> r[i] == LowerChar(s[i])
  {
    seq(|s|, i requires 0 <= i < |s| => LowerChar(s[i]))
  }

  function Upper(s: string): (r: string)
    ensures |r| == |s| && forall i :: 0 <= i < |s| ==> r[i] == UpperChar(s[i])
  {
    seq(|s|, i requires 0 <= i < |s| => UpperChar(s[i]))
  }

  /** Case mapping commutes with slicing, so `s[:k].upper() == s.upper()[:k]`. */
  lemma UpperSlice(s: string, a: nat, b: nat)
    requires a <= b <= |s|
    ensures Upper(s[a..b]) == Upper(s)[a..b]
  {
  }

  lemma LowerSlice(s: string, a: nat, b: nat)
    requires a <= b <= |s|
    ensures Lower(s[a..b]) == Lower(s)[a..b]
  {
  }

  predicate StartsWith(s: string, prefix: string) {
    |prefix| <= |s| && s[..|prefix|] == prefix
  }

  predicate EndsWith(s: string, suffix: string) {
    |suffix| <= |s| && s[|s| - |suffix|..] == suffix
  }

  /** `sub` occurs in `s` starting at index `i`. */
  predicate OccursAt(s: string, sub: string, i: nat) {
    i + |sub| <= |s| && s[i..i + |sub|] == sub
  }

  /** `s.find(sub, start)`: the first occurrence at or after `start`. */
  function FindFrom(s: string, sub: string, start: nat): (r: Option<nat>)
    decreases |s| - start
    ensures r.Some? ==> start <= r.value && OccursAt(s, sub, r.value)
    ensures r.Some? ==> forall j :: start <= j < r.value ==> !OccursAt(s, sub, j)
    ensures r.None? ==> forall j :: start <= j ==> !OccursAt(s, sub, j)
  {
    if start + |sub| > |s| then None
    else if OccursAt(s, sub, start) then Some(start)
    else FindFrom(s, sub, start + 1)
  }

  /** `s.find(sub)`, with `None` for Python's -1. */
  function Find(s: string, sub: string): (r: Option<nat>)
    ensures r.Some? ==> OccursAt(s, sub, r.value) && forall j: nat :: j < r.value ==> !OccursAt(s, sub, j)
    ensures r.None? ==> forall j: nat :: !OccursAt(s, sub, j)
  {
    FindFrom(s, sub, 0)
  }

  /** Python's `sub in s`. */
  predicate Contains(s: string, sub: string)
    ensures Contains(s, sub) <==> exists i: nat :: OccursAt(s, sub, i)
  {
    Find(s, sub).Some?
  }

  /** An occurrence inside a slice is an occurrence in the whole string. */
  lemma OccursInSlice(s: string, sub: string, a: nat, b: nat, j: nat)
    requires a <= b <= |s|
    requires OccursAt(s[a..b], sub, j)
    ensures OccursAt(s, sub, a + j)
  {
    assert a + j + |sub| <= b;
    var inner, outer := s[a..b][j..j + |sub|], s[a + j..a + j + |sub|];
    forall k | 0 <= k < |sub| ensures inner[k] == outer[k] {
      assert inner[k] == s[a + j + k] == outer[k];
    }
    assert inner == outer;
  }

  /** A slice of a string that lacks `sub` lacks it too. */
  lemma SliceLacks(s: string, sub: string, a: nat, b: nat)
    requires a <= b <= |s|
    requires !Contains(s, sub)
    ensures !Contains(s[a..b], sub)
  {
    if Contains(s[a..b], sub) {
      var j :| OccursAt(s[a..b], sub, j);
      OccursInSlice(s, sub, a, b, j);
    }
  }

  /** The strip of a text is a piece of it. */
  lemma StripIsPiece(t: string)
    ensures Contains(t, Strip(t))
  {
    var j := StripPosition(t);
  }

  /** A stripped slice is a piece of the whole. */
  lemma StripSliceIsPiece(s: string, a: nat, b: nat)
    requires a <= b <= |s|
    ensures Contains(s, Strip(s[a..b]))
  {
    var t := s[a..b];
    var j := StripPosition(t);
    OccursInSlice(s, Strip(t), a, b, j);
  }

  /** A piece of a piece is a piece. */
  lemma PieceTrans(s: string, mid: string, sub: string)
    requires Contains(s, mid) && Contains(mid, sub)
    ensures Contains(s, sub)
  {
    var i: nat :| OccursAt(s, mid, i);
    var j: nat :| OccursAt(mid, sub, j);
    assert mid == s[i..i + |mid|];
    OccursInSlice(s, sub, i, i + |mid|, j);
  }

  /** A piece of a text that lacks a pattern lacks it too. */
  lemma PieceLacks(s: string, piece: string, pattern: string)
    requires Contains(s, piece) && !Contains(s, pattern)
    ensures !Contains(piece, pattern)
  {
    var i: nat :| OccursAt(s, piece, i);
    assert piece == s[i..i + |piece|];
    SliceLacks(s, pattern, i, i + |piece|);
  }

  /** `sep.join(parts)`. */
  function Join(parts: seq<string>, sep: string): string {
    if parts == [] then ""
    else if |parts| == 1 then parts[0]
    else parts[0] + sep + Join(parts[1..], sep)
  }

  /**
   * `s.split(sep)`: the pieces between the non-overlapping occurrences of `sep`,
   * scanned left to right. Joining them back with `sep` gives `s`, and no piece holds `sep`.
   */
  function Split(s: string, sep: string): (parts: seq<string>)
    requires sep != []
    decreases |s|
    ensures |parts| >= 1
    ensures Join(parts, sep) == s
    ensures forall k :: 0 <= k < |parts| ==> !Contains(parts[k], sep)
    ensures |parts| == 1 <==> !Contains(s, sep)
  {
    match Find(s, sep)
    case None => [s]
    case Some(i) =>
      var rest := Split(s[i + |sep|..], sep);
      SplitStepJoin(s, sep, i, rest);
      SplitStepPieces(s, sep, i, rest);
      [s[..i]] + rest
  }

  /** The text before an occurrence, the separator and the rest glue back to the whole. */
  lemma SplitStepJoin(s: string, sep: string, i: nat, rest: seq<string>)
    requires OccursAt(s, sep, i)
    requires |rest| >= 1 && Join(rest, sep) == s[i + |sep|..]
    ensures Join([s[..i]] + rest, sep) == s
  {
    JoinCons(s[..i], rest, sep);
    ThreeParts(s, i, i + |sep|);
  }

  /** No piece holds `sep`: not the text before its first occurrence, nor any later piece. */
  lemma SplitStepPieces(s: string, sep: string, i: nat, rest: seq<string>)
    requires sep != [] && Find(s, sep) == Some(i)
    requires forall k :: 0 <= k < |rest| ==> !Contains(rest[k], sep)
    ensures forall k :: 0 <= k < |rest| + 1 ==> !Contains(([s[..i]] + rest)[k], sep)
  {
    BeforeFirstOccurrence(s, sep, i);
    forall k | 0 <= k < |rest| + 1 ensures !Contains(([s[..i]] + rest)[k], sep) {
      if k > 0 {
        assert ([s[..i]] + rest)[k] == rest[k - 1];
      }
    }
  }

  /** The text before the first occurrence of `sep` holds none. */
  lemma BeforeFirstOccurrence(s: string, sep: string, i: nat)
    requires sep != [] && Find(s, sep) == Some(i)
    ensures !Contains(s[..i], sep)
  {
    if Contains(s[..i], sep) {
      var j :| OccursAt(s[..i], sep, j);
      OccursInSlice(s, sep, 0, i, j);
    }
  }

  /** Cutting at two points and gluing the parts back gives the text. */
  lemma ThreeParts(s: string, i: nat, j: nat)
    requires i <= j <= |s|
    ensures s == s[..i] + s[i..j] + s[j..]
  {
  }

  /** Joining a head before a non-empty rest puts one separator between them. */
  lemma JoinCons(head: string, rest: seq<string>, sep: string)
    requires rest != []
    ensures Join([head] + rest, sep) == head + sep + Join(rest, sep)
  {
    assert ([head] + rest)[1..] == rest;
  }

  /** Joining two or more pieces ends with the separator and the last piece. */
  lemma {:induction false} JoinSnoc(parts: seq<string>, sep: string)
    requires |parts| >= 2
    ensures Join(parts, sep) == Join(parts[..|parts| - 1], sep) + sep + parts[|parts| - 1]
  {
    var n := |parts|;
    if n == 2 {
      assert parts[..1] == [parts[0]];
    } else {
      JoinSnoc(parts[1..], sep);
      assert parts[1..][..n - 2] == parts[..n - 1][1..];
      assert parts[1..][n - 2] == parts[n - 1];
    }
  }

  /** Two or more pieces joined end with the separator and the last piece. */
  lemma JoinLastIsSuffix(parts: seq<string>, sep: string)
    requires |parts| >= 2
    ensures EndsWith(Join(parts, sep), sep + parts[|parts| - 1])
  {
    JoinSnoc(parts, sep);
    var front := Join(parts[..|parts| - 1], sep);
    var tail := sep + parts[|parts| - 1];
    assert Join(parts, sep) == front + tail;
    assert (front + tail)[|front|..] == tail;
  }

  /** Without an occurrence of `sep`, `split` yields the whole string. */
  lemma SplitWithout(s: string, sep: string)
    requires sep != [] && !Contains(s, sep)
    ensures Split(s, sep) == [s]
  {
  }

  /** With an occurrence, the first piece is the text before the first occurrence. */
  lemma SplitFirst(s: string, sep: string, i: nat)
    requires sep != [] && Find(s, sep) == Some(i)
    ensures |Split(s, sep)| >= 2 && Split(s, sep)[0] == s[..i]
    ensures Split(s, sep)[1..] == Split(s[i + |sep|..], sep)
  {
  }

  /** No proper suffix of `sep` is also a prefix of it, so two occurrences never overlap. */
  predicate NoBorder(sep: string) {
    forall d :: 0 < d < |sep| ==> sep[d..] != sep[..|sep| - d]
  }

  /** Before the separator that follows a sep-free piece, the separator does not occur. */
  lemma NoOccurrenceBeforeSeparator(p: string, sep: string, t: string, q: nat)
    requires q < |p| && !Contains(p, sep) && NoBorder(sep)
    ensures !OccursAt(p + sep + t, sep, q)
  {
    if OccursAt(p + sep + t, sep, q) {
      if q + |sep| <= |p| {
        OccurrenceInsidePiece(p, sep, t, q);
      } else {
        OverlapIsBorder(p, sep, t, q);
      }
    }
  }

  /** An occurrence that ends within the leading piece is an occurrence in that piece. */
  lemma OccurrenceInsidePiece(p: string, sep: string, t: string, q: nat)
    requires q + |sep| <= |p| && OccursAt(p + sep + t, sep, q)
    ensures OccursAt(p, sep, q)
  {
    var s := p + sep + t;
    assert s[q..q + |sep|] == p[q..q + |sep|];
  }

  /** An occurrence that straddles the end of the leading piece makes a border of `sep`. */
  lemma OverlapIsBorder(p: string, sep: string, t: string, q: nat)
    requires q < |p| < q + |sep| && OccursAt(p + sep + t, sep, q)
    ensures sep[|p| - q..] == sep[..|sep| - (|p| - q)]
  {
    var s := p + sep + t;
    var l := |p| - q;
    forall d | 0 <= d < |sep| - l ensures sep[l..][d] == sep[..|sep| - l][d] {
      assert sep[l + d] == s[q + l + d] == sep[d];
    }
  }

  /**
   * Splitting undoes joining, for a separator that cannot overlap itself and
   * pieces that do not hold it.
   */
  lemma {:induction false} SplitJoin(parts: seq<string>, sep: string)
    requires sep != [] && |parts| >= 1 && NoBorder(sep)
    requires forall k :: 0 <= k < |parts| ==> !Contains(parts[k], sep)
    ensures Split(Join(parts, sep), sep) == parts
  {
    if |parts| == 1 {
      SplitWithout(parts[0], sep);
    } else {
      var p, rest := parts[0], Join(parts[1..], sep);
      var s := p + sep + rest;
      assert Join(parts, sep) == s;
      assert OccursAt(s, sep, |p|) by { assert s[|p|..|p| + |sep|] == sep; }
      forall q: nat | q < |p| ensures !OccursAt(s, sep, q) {
        NoOccurrenceBeforeSeparator(p, sep, rest, q);
      }
      assert Find(s, sep) == Some(|p|);
      SplitFirst(s, sep, |p|);
      assert s[|p| + |sep|..] == rest;
      SplitJoin(parts[1..], sep);
      assert s[..|p|] == p;
      assert Split(s, sep) == [Split(s, sep)[0]] + Split(s, sep)[1..];
    }
  }

  /** `s.replace(pattern, replacement)` for a non-empty `pattern`: one left-to-right pass. */
  function ReplaceAll(s: string, pattern: string, replacement: string): (r: string)
    requires pattern != []
    ensures !Contains(s, pattern) ==> r == s
  {
    Join(Split(s, pattern), replacement)
  }

  /** A text that starts with a non-empty pattern has that occurrence replaced first. */
  lemma ReplaceAllLeading(pattern: string, replacement: string, t: string)
    requires pattern != []
    ensures ReplaceAll(pattern + t, pattern, replacement) == replacement + ReplaceAll(t, pattern, replacement)
  {
    var s := pattern + t;
    FindAtStart(pattern, t);
    ReplaceAllStep(s, pattern, replacement, 0);
    assert s[|pattern|..] == t;
    var rest := ReplaceAll(t, pattern, replacement);
    assert ReplaceAll(s, pattern, replacement) == s[..0] + replacement + rest;
    assert s[..0] + replacement == replacement;
  }

  /** A text that starts with a non-empty pattern finds it at index 0. */
  lemma FindAtStart(pattern: string, t: string)
    requires pattern != []
    ensures Find(pattern + t, pattern) == Some(0)
  {
    assert (pattern + t)[0..|pattern|] == pattern;
    assert OccursAt(pattern + t, pattern, 0);
  }

  /**
   * The pass, one step at a time: the text before the first occurrence is kept,
   * the occurrence becomes `replacement`, and the pass resumes after it.
   */
  lemma ReplaceAllStep(s: string, pattern: string, replacement: string, i: nat)
    requires pattern != [] && Find(s, pattern) == Some(i)
    ensures ReplaceAll(s, pattern, replacement)
         == s[..i] + replacement + ReplaceAll(s[i + |pattern|..], pattern, replacement)
  {
    var parts := Split(s, pattern);
    SplitFirst(s, pattern, i);
    assert parts == [parts[0]] + parts[1..];
    JoinCons(parts[0], parts[1..], replacement);
  }
}
