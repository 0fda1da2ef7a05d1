/**
 * The keyword patterns of the classifier, `re.search(r"\bterm\b", text, re.I)`, as a
 * case-insensitive literal search bounded by word boundaries. Every pattern in the
 * term lists is a literal with optional groups and character classes; each is listed
 * as its literal alternatives, so a pattern matches exactly when one of them does.
 */
module TermMatch {
  import opened Wrappers
  import opened Text

  /** Python's `\w` on ASCII: letters, digits and the underscore. */
  predicate IsWordChar(c: char) {
    ('a' <= c <= 'z') || ('A' <= c <= 'Z') || ('0' <= c <= '9') || c == '_'
  }

  /** A term is written in lower case and begins and ends with a word character. */
  predicate WellFormedTerm(term: string) {
    && term != [] && IsWordChar(term[0]) && IsWordChar(term[|term| - 1])
    && forall i :: 0 <= i < |term| ==> !('A' <= term[i] <= 'Z')
  }

  /** A term without capitals is its own lower-case form. */
  lemma WellFormedIsLower(term: string)
    requires WellFormedTerm(term)
    ensures Lower(term) == term
  {
  }

  /** `\bterm\b` matches `text` at index `i`, ignoring ASCII case. */
  predicate MatchAt(text: string, term: string, i: nat) {
    && i + |term| <= |text|
    && Lower(text[i..i + |term|]) == term
    && (i == 0 || !IsWordChar(text[i - 1]))
    && (i + |term| == |text| || !IsWordChar(text[i + |term|]))
  }

  /** The first match of `term` at or after `start`, as `re.search` finds it. */
  function SearchFrom(text: string, term: string, start: nat): (r: Option<nat>)
    decreases |text| - start
    ensures r.Some? ==> start <= r.value && MatchAt(text, term, r.value)
    ensures r.None? ==> forall j: nat :: start <= j ==> !MatchAt(text, term, j)
  {
    if start + |term| > |text| then None
    else if MatchAt(text, term, start) then Some(start)
    else SearchFrom(text, term, start + 1)
  }

  predicate Matches(text: string, term: string)
    ensures Matches(text, term) <==> exists i: nat :: MatchAt(text, term, i)
  {
    SearchFrom(text, term, 0).Some?
  }

  /** `any(re.search(p, text, re.I) for p in terms)`. */
  predicate MatchesAny(text: string, terms: seq<string>) {
    exists k :: 0 <= k < |terms| && Matches(text, terms[k])
  }

  /** A match is an occurrence of the term in the lower-cased text. */
  lemma MatchIsOccurrence(text: string, term: string)
    requires Matches(text, term)
    ensures Contains(Lower(text), term)
  {
    var i: nat :| MatchAt(text, term, i);
    LowerSlice(text, i, i + |term|);
    assert OccursAt(Lower(text), term, i);
  }

  /** Empty text matches no term: it simply fails the lexical gate. */
  lemma EmptyMatchesNothing(terms: seq<string>)
    requires forall k :: 0 <= k < |terms| ==> terms[k] != []
    ensures !MatchesAny("", terms)
  {
  }

  /**
   * The boundaries keep a term from matching inside a longer word: a term
   * directly followed by a word character does not match there.
   */
  lemma NoMatchInsideWord(text: string, term: string, i: nat)
    requires i + |term| < |text| && IsWordChar(text[i + |term|])
    ensures !MatchAt(text, term, i)
  {
  }
}
