/**
 * The abstract triage engine: a lexical prefilter, then a multi-label zero-shot
 * scorer, reduced to group maxima and two threshold-and-margin tests that yield
 * `accept` (a polymer MD paper) and `priority` (one that evaluates properties).
 *
 * The zero-shot pipeline itself is a parameter: a function from one abstract to the
 * (label, score) pairs it returns for the full label sequence.
 */
module OneShotClassifier {
  import opened Wrappers
  import opened Text
  import opened TermMatch
  import opened ScoreMaps

  // ---------------------------------------------------------------- label taxonomy

  const PositiveLabels: seq<Label> := [
    "polymer molecular dynamics with force fields",
    "all-atom polymer molecular dynamics",
    "united-atom polymer molecular dynamics",
    "coarse-grained polymer MD (MARTINI)",
    "reactive polymer MD (ReaxFF)",
    "polymer melt or solution MD",
    "MD of polymer blends or copolymers",
    "polymer MD using LAMMPS or GROMACS",
    "polymer MD with OPLS/AMBER/CHARMM/COMPASS/DREIDING/PCFF/GROMOS/TraPPE"
  ]

  /** Property-focused positives: the signal for prioritisation. */
  const PropertyLabels: seq<Label> := [
    "polymer properties from MD (viscosity, diffusion, Tg)",
    "MD evaluation of polymer viscosity (rheology)",
    "MD estimation of polymer glass transition temperature (Tg)",
    "MD calculation of polymer diffusion or self-diffusion",
    "MD calculation of polymer mechanical properties (Young's modulus, stress\U{2013}strain)",
    "MD prediction of polymer density or radius of gyration",
    "MD calculation of polymer transport or permeability"
  ]

  const NegativeLabels: seq<Label> := [
    "experimental polymer rheology (no simulation)",
    "polymer synthesis or characterization (no simulation)",
    "quantum chemistry or DFT (no MD)",
    "Monte Carlo simulations (not MD)",
    "dissipative particle dynamics (DPD) without atomistic force fields",
    "continuum modeling or FEM/CFD (no MD)",
    "biomolecular MD (proteins/DNA, not polymers)",
    "materials science unrelated to polymers",
    "machine learning predictions without MD simulation",
    "review article (survey)"
  ]

  /** The full label sequence handed to the scorer, in this fixed order. */
  const Labels: seq<Label> := PositiveLabels + PropertyLabels + NegativeLabels

  /** The three groups are non-empty and no label appears twice, so the groups are disjoint. */
  lemma TaxonomyWellFormed()
    ensures |PositiveLabels| == 9 && |PropertyLabels| == 7 && |NegativeLabels| == 10
    ensures |Labels| == 26
    ensures forall i, j :: 0 <= i < j < |Labels| ==> Labels[i] != Labels[j]
  {
  }

  // ---------------------------------------------------------------- keyword terms

  /** `MD_TERMS`, each pattern spelled out as its literal alternatives. */
  const MdTerms: seq<string> := [
    "molecular dynamics", "md", "md simulation", "md simulations",
    "lammps", "gromacs", "namd"
  ]

  /** `FF_TERMS`; `[- ]` becomes a hyphen and a space alternative. */
  const FfTerms: seq<string> := [
    "force-field", "force field", "opls", "amber", "charmm", "compass",
    "dreiding", "pcff", "gromos", "trappe", "martini", "reaxff",
    "coarse-grained", "coarse grained", "united-atom", "united atom",
    "all-atom", "all atom"
  ]

  /** `PROPERTY_TERMS`, with `(y|ies)`, `'?`, `[-\U{2013}]` and `R[gG]` spelled out. */
  const PropertyTerms: seq<string> := [
    "viscosity", "viscosities", "rheology", "rheological",
    "glass transition", "tg",
    "diffusion", "diffusivity", "self-diffusion", "self diffusion",
    "self-diffusivity", "self diffusivity",
    "young's modulus", "youngs modulus", "elastic modulus",
    "stress-strain", "stress\U{2013}strain",
    "density", "radius of gyration", "rg",
    "permeability", "permeabilities", "transport", "thermal conductivity",
    "dielectric constant", "dielectric permittivity", "conductivity"
  ]

  /**
   * Every term is lower case and starts and ends with a word character, so `\b` on
   * either side of it is exactly the boundary test of the matcher.
   */
  lemma TermListsWellFormed()
    ensures forall k :: 0 <= k < |MdTerms| ==> WellFormedTerm(MdTerms[k])
    ensures forall k :: 0 <= k < |FfTerms| ==> WellFormedTerm(FfTerms[k])
    ensures forall k :: 0 <= k < |PropertyTerms| ==> WellFormedTerm(PropertyTerms[k])
  {
    MdTermsWellFormed();
    FfTermsWellFormed();
    PropertyTermsWellFormed();
  }

  lemma MdTermsWellFormed()
    ensures forall k :: 0 <= k < |MdTerms| ==> WellFormedTerm(MdTerms[k])
  {
  }

  lemma FfTermsWellFormed()
    ensures forall k :: 0 <= k < |FfTerms| ==> WellFormedTerm(FfTerms[k])
  {
  }

  lemma PropertyTermsWellFormed()
    ensures forall k :: 0 <= k < |PropertyTerms| ==> WellFormedTerm(PropertyTerms[k])
  {
    PropertyTermsWellFormedPart1();
    PropertyTermsWellFormedPart2();
    PropertyTermsWellFormedPart3();
  }

  lemma PropertyTermsWellFormedPart1()
    ensures forall k :: 0 <= k < 9 ==> WellFormedTerm(PropertyTerms[k])
  {
  }

  lemma PropertyTermsWellFormedPart2()
    ensures forall k :: 9 <= k < 18 ==> WellFormedTerm(PropertyTerms[k])
  {
  }

  lemma PropertyTermsWellFormedPart3()
    ensures forall k :: 18 <= k < |PropertyTerms| ==> WellFormedTerm(PropertyTerms[k])
  {
  }

  // ---------------------------------------------------------------- prefilter

  /**
   * `prefilter(text)`: polymer vocabulary and an MD-method or force-field term. The
   * gate passes exactly when the lower-cased text contains "polymer" and some MD or
   * force-field term matches; the "polymeric" test adds nothing.
   */
  predicate Prefilter(text: string)
    ensures Prefilter(text) <==>
      Contains(Lower(text), "polymer") && (MatchesAny(text, MdTerms) || MatchesAny(text, FfTerms))
  {
    var t := Lower(text);
    PolymericHasPolymer(t);
    var hasPoly := Contains(t, "polymer") || Contains(t, "polymeric");
    var mdHit := MatchesAny(text, MdTerms);
    var ffHit := MatchesAny(text, FfTerms);
    hasPoly && (mdHit || ffHit)
  }

  /** Every "polymeric" contains a "polymer". */
  lemma PolymericHasPolymer(t: string)
    ensures Contains(t, "polymeric") ==> Contains(t, "polymer")
  {
    if Contains(t, "polymeric") {
      var i: nat :| OccursAt(t, "polymeric", i);
      assert t[i..i + 7] == t[i..i + 9][..7];
      assert "polymeric"[..7] == "polymer";
      assert OccursAt(t, "polymer", i);
    }
  }

  // ---------------------------------------------------------------- decision

  /** The four tuning parameters, passed explicitly on every call. */
  datatype Config = Config(
    acceptThreshold: real, acceptMargin: real,
    priorityThreshold: real, priorityMargin: real)

  /** The keyword defaults of `decide`. */
  const DefaultConfig: Config := Config(0.70, 0.15, 0.65, 0.10)

  /**
   * One abstract's decision. `propKeywords` is `None` on the prefilter-failure record,
   * which has no `prop_keywords` entry.
   */
  datatype Decision = Decision(
    accept: bool,
    priority: bool,
    reason: string,
    scorePos: real,
    scoreNeg: real,
    scoreProp: real,
    priorityScore: real,
    propKeywords: Option<bool>,
    top: seq<Item>)

  const ReasonPrefilter: string := "fails keyword prefilter"
  const ReasonAccepted: string := "pos high & margin over neg"
  const ReasonNotAccepted: string := "pos low or margin small"

  /** The record returned, without consulting the scorer, when the prefilter fails. */
  const PrefilterRejection: Decision :=
    Decision(false, false, ReasonPrefilter, 0.0, 0.0, 0.0, 0.0, None, [])

  /** The zero-shot pipeline applied to one abstract with the full label sequence. */
  type Scorer = string -> ScorerOutput

  /** The three label groups whose maxima the decision reads. */
  datatype Taxonomy = Taxonomy(positive: seq<Label>, property: seq<Label>, negative: seq<Label>)
  {
    predicate Valid() {
      positive != [] && property != [] && negative != []
    }
  }

  /** The fixed groups of the classifier. */
  const Groups: Taxonomy := Taxonomy(PositiveLabels, PropertyLabels, NegativeLabels)

  /** `accept`: absolute confidence in the positive group and a margin over the negative group. */
  predicate AcceptRule(scorePos: real, scoreNeg: real, threshold: real, margin: real) {
    scorePos >= threshold && scorePos - scoreNeg >= margin
  }

  /** The composite priority score, weighted toward property evidence, with the keyword boost. */
  function PriorityScore(scoreProp: real, scorePos: real, propKeywords: bool): real {
    0.7 * scoreProp + 0.3 * scorePos + (if propKeywords then 0.05 else 0.0)
  }

  /** `priority`: the composite score over its threshold and property over negative by a margin. */
  predicate PriorityRule(priorityScore: real, scoreProp: real, scoreNeg: real, threshold: real, margin: real) {
    priorityScore >= threshold && scoreProp - scoreNeg >= margin
  }

  /**
   * The part of `decide` after the scorer has answered and the property keywords
   * have been searched (`propKw`), for the label groups `tax`.
   */
  function Assess(propKw: bool, scoreMap: seq<Item>, cfg: Config, tax: Taxonomy): Decision
    requires tax.Valid()
  {
    var scorePos := GroupMax(scoreMap, tax.positive);
    var scoreNeg := GroupMax(scoreMap, tax.negative);
    var scoreProp := GroupMax(scoreMap, tax.property);
    var priorityScore := PriorityScore(scoreProp, scorePos, propKw);
    var accept := AcceptRule(scorePos, scoreNeg, cfg.acceptThreshold, cfg.acceptMargin);
    var priority := PriorityRule(priorityScore, scoreProp, scoreNeg, cfg.priorityThreshold, cfg.priorityMargin);
    Decision(
      accept, priority,
      if accept then ReasonAccepted else ReasonNotAccepted,
      scorePos, scoreNeg, scoreProp, priorityScore,
      Some(propKw),
      Top(scoreMap))
  }

  /**
   * `decide(abstract_text, ...)`: accepted exactly when the gate passes and some
   * positive label reaches the threshold while beating every negative label by the
   * margin.
   */
  function Decide(text: string, classify: Scorer, cfg: Config): (d: Decision)
    ensures d.accept <==> Prefilter(text) && AcceptedByLabels(DictFromPairs(classify(text)), cfg, Groups)
  {
    if !Prefilter(text) then PrefilterRejection
    else
      var m := DictFromPairs(classify(text));
      AssessAcceptMeaning(MatchesAny(text, PropertyTerms), m, cfg, Groups);
      Assess(MatchesAny(text, PropertyTerms), m, cfg, Groups)
  }

  /**
   * A text that fails the prefilter gets the rejection record whatever the scorer
   * would have said: the scorer is never consulted.
   */
  lemma RejectionIgnoresScorer(text: string, classify: Scorer, other: Scorer, cfg: Config)
    requires !Prefilter(text)
    ensures Decide(text, classify, cfg) == Decide(text, other, cfg)
    ensures var d := Decide(text, classify, cfg);
      && !d.accept && !d.priority && d.reason == ReasonPrefilter
      && d.scorePos == 0.0 && d.scoreNeg == 0.0 && d.scoreProp == 0.0 && d.priorityScore == 0.0
      && d.propKeywords.None? && d.top == []
  {
  }

  /** Empty text is a normal rejection. */
  lemma EmptyTextRejected(classify: Scorer, cfg: Config)
    ensures Decide("", classify, cfg) == PrefilterRejection
  {
    assert !Contains(Lower(""), "polymer");
  }

  /** A text without "polymer" in any letter case is never accepted nor prioritised. */
  lemma NoPolymerNoAccept(text: string, classify: Scorer, cfg: Config)
    requires !Contains(Lower(text), "polymer")
    ensures !Decide(text, classify, cfg).accept && !Decide(text, classify, cfg).priority
  {
  }

  /**
   * Each group score is the maximum of that group's scores, with absent labels
   * counting as 0.0.
   */
  lemma AssessScoresAreGroupMaxima(propKw: bool, m: seq<Item>, cfg: Config, tax: Taxonomy)
    requires tax.Valid()
    ensures var d := Assess(propKw, m, cfg, tax);
      && (forall l :: l in tax.positive ==> Get(m, l) <= d.scorePos)
      && (exists l :: l in tax.positive && Get(m, l) == d.scorePos)
      && (forall l :: l in tax.negative ==> Get(m, l) <= d.scoreNeg)
      && (exists l :: l in tax.negative && Get(m, l) == d.scoreNeg)
      && (forall l :: l in tax.property ==> Get(m, l) <= d.scoreProp)
      && (exists l :: l in tax.property && Get(m, l) == d.scoreProp)
  {
    var p := GroupMax(m, tax.positive);
    var i :| 0 <= i < |tax.positive| && Get(m, tax.positive[i]) == p;
    var n := GroupMax(m, tax.negative);
    var j :| 0 <= j < |tax.negative| && Get(m, tax.negative[j]) == n;
    var q := GroupMax(m, tax.property);
    var k :| 0 <= k < |tax.property| && Get(m, tax.property[k]) == q;
    assert tax.positive[i] in tax.positive;
    assert tax.negative[j] in tax.negative;
    assert tax.property[k] in tax.property;
  }

  /** With non-negative scores in the map, all four scores are non-negative. */
  lemma AssessNonNegative(propKw: bool, m: seq<Item>, cfg: Config, tax: Taxonomy)
    requires tax.Valid()
    requires forall it :: it in m ==> it.1 >= 0.0
    ensures var d := Assess(propKw, m, cfg, tax);
      d.scorePos >= 0.0 && d.scoreNeg >= 0.0 && d.scoreProp >= 0.0 && d.priorityScore >= 0.0
  {
    GroupMaxNonNegative(m, tax.positive);
    GroupMaxNonNegative(m, tax.negative);
    GroupMaxNonNegative(m, tax.property);
  }

  /** Non-negative scores from the scorer give non-negative decision scores. */
  lemma ScoresNonNegative(text: string, classify: Scorer, cfg: Config)
    requires forall it :: it in classify(text) ==> it.1 >= 0.0
    ensures var d := Decide(text, classify, cfg);
      d.scorePos >= 0.0 && d.scoreNeg >= 0.0 && d.scoreProp >= 0.0 && d.priorityScore >= 0.0
  {
    if Prefilter(text) {
      DictFromPairsMeaning(classify(text));
      AssessNonNegative(MatchesAny(text, PropertyTerms), DictFromPairs(classify(text)), cfg, Groups);
    }
  }

  /** Some positive label reaches the threshold and beats every negative label by the margin. */
  predicate AcceptedByLabels(m: seq<Item>, cfg: Config, tax: Taxonomy) {
    exists l :: l in tax.positive && Get(m, l) >= cfg.acceptThreshold &&
      forall n :: n in tax.negative ==> Get(m, l) - Get(m, n) >= cfg.acceptMargin
  }

  /** `accept` in terms of single labels rather than group maxima. */
  lemma AssessAcceptMeaning(propKw: bool, m: seq<Item>, cfg: Config, tax: Taxonomy)
    requires tax.Valid()
    ensures Assess(propKw, m, cfg, tax).accept <==> AcceptedByLabels(m, cfg, tax)
  {
    var p := GroupMax(m, tax.positive);
    var neg := GroupMax(m, tax.negative);
    var i :| 0 <= i < |tax.positive| && Get(m, tax.positive[i]) == p;
    var j :| 0 <= j < |tax.negative| && Get(m, tax.negative[j]) == neg;
    assert tax.positive[i] in tax.positive;
    assert tax.negative[j] in tax.negative;
  }

  /** The reason string says which way the decision went. */
  lemma ReasonTracksAccept(text: string, classify: Scorer, cfg: Config)
    ensures var d := Decide(text, classify, cfg);
      && (d.reason == ReasonAccepted <==> d.accept)
      && (d.reason == ReasonPrefilter <==> !Prefilter(text))
      && (d.reason == ReasonNotAccepted <==> Prefilter(text) && !d.accept)
  {
  }

  /**
   * `priority` on the scored path: the composite score (property-weighted, with the
   * keyword boost when a property term matches) and the property-over-negative margin.
   */
  lemma PriorityMeaning(text: string, classify: Scorer, cfg: Config)
    requires Prefilter(text)
    ensures var d := Decide(text, classify, cfg);
      && d.propKeywords == Some(MatchesAny(text, PropertyTerms))
      && d.priorityScore == 0.7 * d.scoreProp + 0.3 * d.scorePos
                            + (if MatchesAny(text, PropertyTerms) then 0.05 else 0.0)
      && (d.priority <==> d.priorityScore >= cfg.priorityThreshold
                          && d.scoreProp - d.scoreNeg >= cfg.priorityMargin)
  {
  }

  /** `Get` on a two-entry map with distinct keys. */
  lemma GetOfTwo(a: Label, x: real, b: Label, y: real, k: Label)
    requires a != b
    ensures Get([(a, x), (b, y)], k) == if k == a then x else if k == b then y else 0.0
  {
    var d := [(a, x), (b, y)];
    assert d[1..] == [(b, y)];
    assert [(b, y)][1..] == [];
    assert KeyIndex([(b, y)], k) == if k == b then Some(0) else None;
    assert KeyIndex(d, k) == if k == a then Some(0) else if k == b then Some(1) else None;
  }

  /**
   * With a modest positive score and a strong property score, the labels of one
   * group being foreign to the others, the text is prioritised but not accepted.
   */
  lemma AssessPropertyHeavy(propKw: bool, tax: Taxonomy)
    requires tax.Valid()
    requires tax.property[0] !in tax.positive
    requires tax.positive[0] !in tax.negative && tax.property[0] !in tax.negative
    ensures var m := [(tax.positive[0], 0.5), (tax.property[0], 0.9)];
      Assess(propKw, m, DefaultConfig, tax).priority && !Assess(propKw, m, DefaultConfig, tax).accept
  {
    var a, b := tax.positive[0], tax.property[0];
    assert a != b;
    var m := [(a, 0.5), (b, 0.9)];
    forall l | l in tax.negative ensures Get(m, l) == 0.0 {
      GetOfTwo(a, 0.5, b, 0.9, l);
    }
    forall l | l in tax.positive ensures Get(m, l) <= 0.5 {
      GetOfTwo(a, 0.5, b, 0.9, l);
    }
    forall l | l in tax.property ensures Get(m, l) <= 0.9 {
      GetOfTwo(a, 0.5, b, 0.9, l);
    }
    GetOfTwo(a, 0.5, b, 0.9, a);
    GetOfTwo(a, 0.5, b, 0.9, b);
    assert a in tax.positive && b in tax.property;
    assert GroupMax(m, tax.positive) == 0.5;
    assert GroupMax(m, tax.negative) == 0.0;
    assert GroupMax(m, tax.property) == 0.9;
  }

  /** The first positive and first property labels belong to no other group. */
  lemma GroupsSeparated()
    ensures PropertyLabels[0] !in PositiveLabels
    ensures PositiveLabels[0] !in NegativeLabels && PropertyLabels[0] !in NegativeLabels
  {
    TaxonomyWellFormed();
    assert Labels[0] == PositiveLabels[0] && Labels[9] == PropertyLabels[0];
    forall j | 0 <= j < |PositiveLabels| ensures PositiveLabels[j] != PropertyLabels[0] {
      assert Labels[j] == PositiveLabels[j];
    }
    forall j | 0 <= j < |NegativeLabels|
      ensures NegativeLabels[j] != PositiveLabels[0] && NegativeLabels[j] != PropertyLabels[0]
    {
      assert Labels[16 + j] == NegativeLabels[j];
    }
  }

  /** A scorer answer with a modest positive score and a strong property score. */
  const PropertyHeavy: ScorerOutput := [(PositiveLabels[0], 0.5), (PropertyLabels[0], 0.9)]

  /**
   * `priority` does not require `accept`: any text that passes the prefilter, scored
   * 0.5 on a positive label and 0.9 on a property label, is a priority paper that is
   * not accepted.
   */
  lemma PriorityWithoutAccept(text: string)
    requires Prefilter(text)
    ensures Decide(text, _ => PropertyHeavy, DefaultConfig).priority
    ensures !Decide(text, _ => PropertyHeavy, DefaultConfig).accept
  {
    GroupsSeparated();
    DictOfDistinct(PropertyHeavy);
    AssessPropertyHeavy(MatchesAny(text, PropertyTerms), Groups);
  }

  /** Raising the positive score with the negative score and thresholds fixed never revokes `accept`. */
  lemma AcceptMonotone(p: real, p': real, scoreNeg: real, threshold: real, margin: real)
    requires p <= p' && AcceptRule(p, scoreNeg, threshold, margin)
    ensures AcceptRule(p', scoreNeg, threshold, margin)
  {
  }

  lemma AssessAcceptMonotone(propKw: bool, m: seq<Item>, m': seq<Item>, cfg: Config, tax: Taxonomy)
    requires tax.Valid()
    requires forall l :: l in tax.positive ==> Get(m, l) <= Get(m', l)
    requires forall l :: l in tax.negative ==> Get(m, l) == Get(m', l)
    requires Assess(propKw, m, cfg, tax).accept
    ensures Assess(propKw, m', cfg, tax).accept
  {
    GroupMaxMonotone(m, m', tax.positive);
    GroupMaxMonotone(m', m, tax.negative);
  }

  /**
   * The same at the level of the scorer: raising positive-label scores while the
   * negative-label scores stay put keeps an accepted text accepted.
   */
  lemma AcceptMonotoneInScores(text: string, classify: Scorer, better: Scorer, cfg: Config)
    requires var m, m' := DictFromPairs(classify(text)), DictFromPairs(better(text));
      && (forall l :: l in PositiveLabels ==> Get(m, l) <= Get(m', l))
      && (forall l :: l in NegativeLabels ==> Get(m, l) == Get(m', l))
    requires Decide(text, classify, cfg).accept
    ensures Decide(text, better, cfg).accept
  {
    AssessAcceptMonotone(MatchesAny(text, PropertyTerms), DictFromPairs(classify(text)), DictFromPairs(better(text)), cfg, Groups);
  }

  /**
   * `top`: at most six items drawn from the score map, best first, none beaten by an
   * item left out; when the scorer's labels are distinct (as for the fixed label
   * sequence) the map is the scorer's answer in its own order.
   */
  lemma TopMeaning(text: string, classify: Scorer, cfg: Config)
    requires Prefilter(text)
    ensures var m, d := DictFromPairs(classify(text)), Decide(text, classify, cfg);
      && |d.top| == Min(TopCount, |m|)
      && SortedDesc(d.top)
      && multiset(d.top) <= multiset(m)
      && (forall t, u :: t in d.top && u in multiset(m) - multiset(d.top) ==> t.1 >= u.1)
      && (DistinctKeys(classify(text)) ==> m == classify(text))
  {
    TopIsBest(DictFromPairs(classify(text)));
    if DistinctKeys(classify(text)) {
      DictOfDistinct(classify(text));
    }
  }

  // ---------------------------------------------------------------- batched loop

  /** The `DataLoader` batch size. */
  const BatchSize: nat := 16

  /** `[i for i, m in enumerate(mask) if m]`. */
  function PassingIndices(mask: seq<bool>): (idx: seq<nat>)
    ensures forall k :: 0 <= k < |idx| ==> idx[k] < |mask| && mask[idx[k]]
    ensures forall k, l :: 0 <= k < l < |idx| ==> idx[k] < idx[l]
    ensures forall i :: 0 <= i < |mask| && mask[i] ==> i in idx
  {
    if mask == [] then []
    else
      var rest := PassingIndices(mask[..|mask| - 1]);
      if mask[|mask| - 1] then rest + [|mask| - 1] else rest
  }

  /**
   * The accept test of the batched loop, on one scorer answer: the same thresholds
   * as the default configuration, without the prefilter and without the keyword boost.
   */
  predicate ScoredAccept(output: ScorerOutput, tax: Taxonomy)
    requires tax.Valid()
  {
    var scoreMap := DictFromPairs(output);
    AcceptRule(GroupMax(scoreMap, tax.positive), GroupMax(scoreMap, tax.negative), 0.70, 0.15)
  }

  /**
   * The batched loop's arithmetic agrees with `decide`: a text is accepted exactly when
   * it passes the prefilter and the scorer's answer for it passes the accept test.
   */
  lemma DecideAcceptIsScoredAccept(text: string, classify: Scorer)
    ensures Decide(text, classify, DefaultConfig).accept <==> Prefilter(text) && ScoredAccept(classify(text), Groups)
  {
  }

  /**
   * Step 3 of a batch: for each scorer answer in order, compute its accept and
   * write it at the answer's original index; indices not run keep their `false`.
   */
  method ScatterAccepts(accepts: array<bool>, toRun: seq<nat>, outputs: seq<ScorerOutput>, tax: Taxonomy)
    requires tax.Valid()
    requires |outputs| == |toRun|
    requires forall k :: 0 <= k < |toRun| ==> toRun[k] < accepts.Length
    requires forall k, l :: 0 <= k < l < |toRun| ==> toRun[k] < toRun[l]
    requires forall i :: 0 <= i < accepts.Length ==> !accepts[i]
    modifies accepts
    ensures forall k :: 0 <= k < |toRun| ==> accepts[toRun[k]] == ScoredAccept(outputs[k], tax)
    ensures forall i :: 0 <= i < accepts.Length && i !in toRun ==> !accepts[i]
  {
    var localIdx := 0;
    while localIdx < |outputs|
      invariant 0 <= localIdx <= |outputs|
      invariant forall k :: 0 <= k < localIdx ==> accepts[toRun[k]] == ScoredAccept(outputs[k], tax)
      invariant forall i :: 0 <= i < accepts.Length && i !in toRun[..localIdx] ==> !accepts[i]
    {
      var accept := AcceptOf(outputs[localIdx], tax);
      var globalIdx := toRun[localIdx];
      accepts[globalIdx] := accept;
      assert toRun[..localIdx + 1] == toRun[..localIdx] + [globalIdx];
      localIdx := localIdx + 1;
    }
  }

  /** The accept of one scorer answer: group maxima, then the acceptance rule. */
  method AcceptOf(output: ScorerOutput, tax: Taxonomy) returns (accept: bool)
    requires tax.Valid()
    ensures accept == ScoredAccept(output, tax)
  {
    var scoreMap := DictFromPairs(output);
    var scorePos := GroupMax(scoreMap, tax.positive);
    var scoreNeg := GroupMax(scoreMap, tax.negative);
    accept := AcceptRule(scorePos, scoreNeg, 0.70, 0.15);
  }

  /** `rows` holds one (filename, accept) row per input, in input order, with `decide`'s accept. */
  predicate RowsAgree(rows: seq<(string, bool)>, items: seq<(string, string)>, classify: Scorer) {
    |rows| == |items| &&
    forall i :: 0 <= i < |items| ==> rows[i] == (items[i].0, Decide(items[i].1, classify, DefaultConfig).accept)
  }

  /** The rows of consecutive chunks, concatenated, are the rows of the whole. */
  lemma RowsAgreeAppend(rows: seq<(string, bool)>, more: seq<(string, bool)>,
                        items: seq<(string, string)>, start: nat, end: nat, classify: Scorer)
    requires start <= end <= |items|
    requires RowsAgree(rows, items[..start], classify)
    requires RowsAgree(more, items[start..end], classify)
    ensures RowsAgree(rows + more, items[..end], classify)
  {
    forall i | 0 <= i < end
      ensures (rows + more)[i] == (items[i].0, Decide(items[i].1, classify, DefaultConfig).accept)
    {
      if i >= start {
        assert items[start..end][i - start] == items[i];
      } else {
        assert items[..start][i] == items[i];
      }
    }
  }

  /** `[prefilter(t) for t in texts]`. */
  function PrefilterMask(texts: seq<string>): (mask: seq<bool>)
    ensures |mask| == |texts| && forall i :: 0 <= i < |texts| ==> mask[i] == Prefilter(texts[i])
  {
    seq(|texts|, i requires 0 <= i < |texts| => Prefilter(texts[i]))
  }

  /**
   * After the scatter step every slot holds `decide`'s accept: slots of texts that
   * passed the prefilter hold the scored accept of their own answer, the others
   * kept `false`.
   */
  lemma BatchAcceptsAreDecisions(texts: seq<string>, classify: Scorer, toRun: seq<nat>,
                                 outputs: seq<ScorerOutput>, accepts: seq<bool>)
    requires |accepts| == |texts|
    requires toRun == PassingIndices(PrefilterMask(texts))
    requires |outputs| == |toRun|
    requires forall k :: 0 <= k < |toRun| ==> outputs[k] == classify(texts[toRun[k]])
    requires forall k :: 0 <= k < |toRun| ==> accepts[toRun[k]] == ScoredAccept(outputs[k], Groups)
    requires forall i :: 0 <= i < |accepts| && i !in toRun ==> !accepts[i]
    ensures forall i :: 0 <= i < |texts| ==> accepts[i] == Decide(texts[i], classify, DefaultConfig).accept
  {
    var mask := PrefilterMask(texts);
    forall i | 0 <= i < |texts|
      ensures accepts[i] == Decide(texts[i], classify, DefaultConfig).accept
    {
      DecideAcceptIsScoredAccept(texts[i], classify);
      if mask[i] {
        var k :| 0 <= k < |toRun| && toRun[k] == i;
      } else {
        forall k | 0 <= k < |toRun| ensures toRun[k] != i {
          assert mask[toRun[k]];
        }
        assert i !in toRun;
      }
    }
  }

  /**
   * Steps 1-3 of a batch: prefilter every text, start from all `false`, score only
   * the passing texts (in their order) and write each accept back at its original
   * index. Every slot ends up holding `decide`'s accept.
   */
  method BatchAccepts(texts: seq<string>, classify: Scorer) returns (accepts: array<bool>)
    ensures fresh(accepts) && accepts.Length == |texts|
    ensures forall i :: 0 <= i < |texts| ==> accepts[i] == Decide(texts[i], classify, DefaultConfig).accept
  {
    var mask := PrefilterMask(texts);
    accepts := new bool[|texts|](_ => false);
    var toRun := PassingIndices(mask);
    var outputs: seq<ScorerOutput> := [];
    if toRun != [] {
      var runTexts := seq(|toRun|, k requires 0 <= k < |toRun| => texts[toRun[k]]);
      outputs := seq(|runTexts|, k requires 0 <= k < |runTexts| => classify(runTexts[k]));
      ScatterAccepts(accepts, toRun, outputs, Groups);
    }
    BatchAcceptsAreDecisions(texts, classify, toRun, outputs, accepts[..]);
  }

  /** Step 4 of a batch: one (filename, accept) row per input, in input order. */
  method EmitRows(filenames: seq<string>, accepts: array<bool>) returns (rows: seq<(string, bool)>)
    requires |filenames| == accepts.Length
    ensures |rows| == |filenames|
    ensures forall j :: 0 <= j < |rows| ==> rows[j] == (filenames[j], accepts[j])
  {
    rows := [];
    var i := 0;
    while i < |filenames|
      invariant 0 <= i <= |filenames| && |rows| == i
      invariant forall j :: 0 <= j < i ==> rows[j] == (filenames[j], accepts[j])
    {
      rows := rows + [(filenames[i], accepts[i])];
      i := i + 1;
    }
  }

  /**
   * One batch of (filename, text) pairs: the accepts of the batch, then its rows.
   * Each row is the input's filename with `decide`'s accept under the default thresholds.
   */
  method ClassifyBatch(batch: seq<(string, string)>, classify: Scorer) returns (rows: seq<(string, bool)>)
    ensures RowsAgree(rows, batch, classify)
  {
    var filenames := seq(|batch|, i requires 0 <= i < |batch| => batch[i].0);
    var texts := seq(|batch|, i requires 0 <= i < |batch| => batch[i].1);
    var accepts := BatchAccepts(texts, classify);
    rows := EmitRows(filenames, accepts);
  }

  /**
   * The whole run: consecutive batches of `BatchSize` in input order, their rows
   * concatenated: one row per input, in input order, each with `decide`'s accept.
   */
  method ClassifyAll(items: seq<(string, string)>, classify: Scorer) returns (rows: seq<(string, bool)>)
    ensures RowsAgree(rows, items, classify)
  {
    rows := [];
    var start := 0;
    while start < |items|
      invariant 0 <= start <= |items|
      invariant RowsAgree(rows, items[..start], classify)
    {
      var end := if start + BatchSize <= |items| then start + BatchSize else |items|;
      var batchRows := ClassifyBatch(items[start..end], classify);
      RowsAgreeAppend(rows, batchRows, items, start, end, classify);
      rows := rows + batchRows;
      start := end;
    }
    assert items[..start] == items;
  }
}
