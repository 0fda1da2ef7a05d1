/**
 * The label -> score dictionary the classifier builds from one zero-shot call
 * (`dict(zip(res["labels"], res["scores"]))`), the group maximum over it, and the
 * stable descending sort behind the `top` diagnostic.
 *
 * A Python dict remembers insertion order, and `top` depends on that order for ties,
 * so the dictionary is an insertion-ordered sequence of (label, score) items.
 */
module ScoreMaps {
  import opened Wrappers

  type Label = string

  /** One (label, score) pair. */
  type Item = (Label, real)

  /** What one zero-shot call returns: its labels zipped with its scores. */
  type ScorerOutput = seq<Item>

  predicate DistinctKeys(d: seq<Item>) {
    forall i, j :: 0 <= i < j < |d| ==> d[i].0 != d[j].0
  }

  /** `o` is the position of the first item of `d` with key `k`, or `None` when there is none. */
  predicate IsKeyIndex(d: seq<Item>, k: Label, o: Option<nat>) {
    match o
    case Some(i) => i < |d| && d[i].0 == k && forall j :: 0 <= j < i ==> d[j].0 != k
    case None => forall j :: 0 <= j < |d| ==> d[j].0 != k
  }

  lemma KeyIndexUnique(d: seq<Item>, k: Label, o: Option<nat>, o': Option<nat>)
    requires IsKeyIndex(d, k, o) && IsKeyIndex(d, k, o')
    ensures o == o'
  {
  }

  function KeyIndex(d: seq<Item>, k: Label): (r: Option<nat>)
    ensures IsKeyIndex(d, k, r)
  {
    if d == [] then None
    else if d[0].0 == k then Some(0)
    else
      match KeyIndex(d[1..], k)
      case Some(i) => Some(i + 1)
      case None => None
  }

  /** `d[k]` if present. */
  function Lookup(d: seq<Item>, k: Label): Option<real> {
    match KeyIndex(d, k)
    case Some(i) => Some(d[i].1)
    case None => None
  }

  /** `score_map.get(k, 0.0)`: an absent label counts as 0.0. */
  function Get(d: seq<Item>, k: Label): real {
    Lookup(d, k).GetOr(0.0)
  }

  /**
   * `d[k] = v`: an existing key keeps its position and takes the new value,
   * a new key goes to the end.
   */
  function Put(d: seq<Item>, k: Label, v: real): (r: seq<Item>)
    ensures Lookup(r, k) == Some(v)
    ensures forall k' :: k' != k ==> Lookup(r, k') == Lookup(d, k')
    ensures KeyIndex(d, k).None? ==> r == d + [(k, v)]
    ensures DistinctKeys(d) ==> DistinctKeys(r)
    ensures forall it :: it in r ==> it in d || it == (k, v)
  {
    match KeyIndex(d, k)
    case Some(i) =>
      var r := d[i := (k, v)];
      forall k' ensures KeyIndex(r, k') == KeyIndex(d, k') {
        KeyIndexUnique(r, k', KeyIndex(r, k'), KeyIndex(d, k'));
      }
      r
    case None =>
      var r := d + [(k, v)];
      forall k' ensures k' != k ==> KeyIndex(r, k') == KeyIndex(d, k') {
        if k' != k {
          KeyIndexUnique(r, k', KeyIndex(r, k'), KeyIndex(d, k'));
        }
      }
      KeyIndexUnique(r, k, KeyIndex(r, k), Some(|d|));
      r
  }

  /** The value of the last pair with key `k`: later pairs overwrite earlier ones. */
  function LastValue(ps: seq<Item>, k: Label): Option<real> {
    if ps == [] then None
    else if ps[|ps| - 1].0 == k then Some(ps[|ps| - 1].1)
    else LastValue(ps[..|ps| - 1], k)
  }

  /** `dict(pairs)`, one pair at a time. */
  function DictFromPairs(ps: seq<Item>): seq<Item> {
    if ps == [] then []
    else Put(DictFromPairs(ps[..|ps| - 1]), ps[|ps| - 1].0, ps[|ps| - 1].1)
  }

  /**
   * `dict(pairs)` holds each key once, in order of first appearance, with the value
   * of its last pair, and every item of it is one of the pairs.
   */
  lemma {:induction false} DictFromPairsMeaning(ps: seq<Item>)
    ensures DistinctKeys(DictFromPairs(ps))
    ensures forall k :: Lookup(DictFromPairs(ps), k) == LastValue(ps, k)
    ensures forall it :: it in DictFromPairs(ps) ==> it in ps
  {
    if ps != [] {
      var init := ps[..|ps| - 1];
      DictFromPairsMeaning(init);
      forall it | it in DictFromPairs(init) ensures it in ps {
        assert it in init;
      }
    }
  }

  /** When the pairs already have distinct labels, the dictionary keeps them as they are. */
  lemma {:induction false} DictOfDistinct(ps: seq<Item>)
    requires DistinctKeys(ps)
    ensures DictFromPairs(ps) == ps
  {
    if ps != [] {
      var init := ps[..|ps| - 1];
      assert DistinctKeys(init);
      DictOfDistinct(init);
      assert init + [ps[|ps| - 1]] == ps;
    }
  }

  /**
   * `max(score_map.get(k, 0.0) for k in group)`: at least every member's score,
   * and equal to one of them.
   */
  function GroupMax(d: seq<Item>, group: seq<Label>): (r: real)
    requires group != []
    ensures forall l :: l in group ==> Get(d, l) <= r
    ensures exists i :: 0 <= i < |group| && Get(d, group[i]) == r
  {
    if |group| == 1 then Get(d, group[0])
    else
      var rest := GroupMax(d, group[1..]);
      assert forall l :: l in group ==> l == group[0] || l in group[1..];
      if Get(d, group[0]) >= rest then Get(d, group[0]) else rest
  }

  /** With non-negative scores, every group maximum is non-negative too. */
  lemma GroupMaxNonNegative(d: seq<Item>, group: seq<Label>)
    requires group != []
    requires forall it :: it in d ==> it.1 >= 0.0
    ensures GroupMax(d, group) >= 0.0
  {
    var m := GroupMax(d, group);
    var i :| 0 <= i < |group| && Get(d, group[i]) == m;
    LookupInRange(d, group[i]);
  }

  lemma LookupInRange(d: seq<Item>, k: Label)
    requires forall it :: it in d ==> it.1 >= 0.0
    ensures Get(d, k) >= 0.0
  {
    if KeyIndex(d, k).Some? {
      assert d[KeyIndex(d, k).value] in d;
    }
  }

  /** Raising member scores can only raise the group maximum. */
  lemma GroupMaxMonotone(d: seq<Item>, d': seq<Item>, group: seq<Label>)
    requires group != []
    requires forall l :: l in group ==> Get(d, l) <= Get(d', l)
    ensures GroupMax(d, group) <= GroupMax(d', group)
  {
    var m := GroupMax(d, group);
    var i :| 0 <= i < |group| && Get(d, group[i]) == m;
    assert group[i] in group;
  }

  predicate SortedDesc(s: seq<Item>) {
    forall i, j :: 0 <= i < j < |s| ==> s[i].1 >= s[j].1
  }

  /** The items of `s` whose score is exactly `v`, in their order in `s`. */
  function WithScore(s: seq<Item>, v: real): seq<Item> {
    if s == [] then [] else KeepIf(s[0], v) + WithScore(s[1..], v)
  }

  function KeepIf(y: Item, v: real): seq<Item> {
    if y.1 == v then [y] else []
  }

  lemma {:induction false} WithScoreAppend(a: seq<Item>, b: seq<Item>, v: real)
    ensures WithScore(a + b, v) == WithScore(a, v) + WithScore(b, v)
  {
    if a == [] {
      assert a + b == b;
    } else {
      var ab := a + b;
      assert ab[0] == a[0];
      assert ab[1..] == a[1..] + b;
      WithScoreAppend(a[1..], b, v);
      calc {
        WithScore(ab, v);
        KeepIf(a[0], v) + WithScore(a[1..] + b, v);
        KeepIf(a[0], v) + (WithScore(a[1..], v) + WithScore(b, v));
        (KeepIf(a[0], v) + WithScore(a[1..], v)) + WithScore(b, v);
      }
    }
  }

  lemma WithScoreSingle(y: Item, v: real)
    ensures WithScore([y], v) == KeepIf(y, v)
  {
    assert [y][1..] == [];
  }

  /** Puts `x` before the first item of `t` that does not score higher than it. */
  function InsertDesc(x: Item, t: seq<Item>): seq<Item> {
    if t == [] || t[0].1 <= x.1 then [x] + t
    else [t[0]] + InsertDesc(x, t[1..])
  }

  lemma {:induction false} InsertDescPermutes(x: Item, t: seq<Item>)
    ensures |InsertDesc(x, t)| == |t| + 1
    ensures multiset(InsertDesc(x, t)) == multiset([x] + t)
  {
    if t != [] && t[0].1 > x.1 {
      InsertDescPermutes(x, t[1..]);
      assert [x] + t == [x] + [t[0]] + t[1..];
    }
  }

  lemma {:induction false} InsertDescSorted(x: Item, t: seq<Item>)
    requires SortedDesc(t)
    ensures SortedDesc(InsertDesc(x, t))
  {
    if t != [] && t[0].1 > x.1 {
      var rest := InsertDesc(x, t[1..]);
      InsertDescSorted(x, t[1..]);
      InsertDescPermutes(x, t[1..]);
      forall j | 0 <= j < |rest| ensures t[0].1 >= rest[j].1 {
        assert rest[j] in multiset([x] + t[1..]);
      }
    }
  }

  /** Insertion keeps the relative order of equally scored items, with `x` first among them. */
  lemma {:induction false} InsertDescStable(x: Item, t: seq<Item>, v: real)
    ensures WithScore(InsertDesc(x, t), v) == WithScore([x] + t, v)
  {
    if t != [] && t[0].1 > x.1 {
      var tail := t[1..];
      var kx, kt := KeepIf(x, v), KeepIf(t[0], v);
      calc {
        WithScore(InsertDesc(x, t), v);
      == { WithScoreAppend([t[0]], InsertDesc(x, tail), v); WithScoreSingle(t[0], v); }
        kt + WithScore(InsertDesc(x, tail), v);
      == { InsertDescStable(x, tail, v); WithScoreAppend([x], tail, v); WithScoreSingle(x, v); }
        kt + (kx + WithScore(tail, v));
      == { assert kt + kx == kx + kt; assert kt + (kx + WithScore(tail, v)) == (kt + kx) + WithScore(tail, v); }
        kx + (kt + WithScore(tail, v));
      == { WithScoreAppend([t[0]], tail, v); WithScoreSingle(t[0], v); assert [t[0]] + tail == t; }
        kx + WithScore(t, v);
      == { WithScoreAppend([x], t, v); WithScoreSingle(x, v); }
        WithScore([x] + t, v);
      }
    }
  }

  /** `sorted(items, key=score, reverse=True)`, by insertion. */
  function SortDesc(s: seq<Item>): seq<Item> {
    if s == [] then [] else InsertDesc(s[0], SortDesc(s[1..]))
  }

  /**
   * The sort is non-increasing by score, a permutation of its input, and items of
   * equal score keep their input order (it is stable). Together these three
   * determine the result.
   */
  lemma {:induction false} SortDescMeaning(s: seq<Item>)
    ensures |SortDesc(s)| == |s|
    ensures SortedDesc(SortDesc(s))
    ensures multiset(SortDesc(s)) == multiset(s)
    ensures forall v :: WithScore(SortDesc(s), v) == WithScore(s, v)
  {
    if s != [] {
      var rest := SortDesc(s[1..]);
      SortDescMeaning(s[1..]);
      InsertDescSorted(s[0], rest);
      InsertDescPermutes(s[0], rest);
      assert s == [s[0]] + s[1..];
      forall v ensures WithScore(InsertDesc(s[0], rest), v) == WithScore(s, v) {
        InsertDescStable(s[0], rest, v);
        WithScoreAppend([s[0]], rest, v);
        WithScoreAppend([s[0]], s[1..], v);
      }
    }
  }

  const TopCount: nat := 6

  function Min(a: int, b: int): int {
    if a <= b then a else b
  }

  /** `sorted(score_map.items(), key=lambda x: x[1], reverse=True)[:6]`. */
  function Top(d: seq<Item>): (top: seq<Item>)
    ensures |top| == Min(TopCount, |d|)
  {
    SortDescMeaning(d);
    SortDesc(d)[..Min(TopCount, |d|)]
  }

  /** Cutting a sorted sequence leaves every item of the front at least as good as every item of the back. */
  lemma SortedCut(s: seq<Item>, n: nat)
    requires SortedDesc(s) && n <= |s|
    ensures SortedDesc(s[..n])
    ensures multiset(s) - multiset(s[..n]) == multiset(s[n..])
    ensures forall t, u :: t in s[..n] && u in multiset(s[n..]) ==> t.1 >= u.1
  {
    var top, rest := s[..n], s[n..];
    assert s == top + rest;
    assert multiset(s) == multiset(top) + multiset(rest);
    forall t: Item, u: Item | t in top && u in multiset(rest) ensures t.1 >= u.1 {
      var i :| 0 <= i < n && top[i] == t;
      var j :| 0 <= j < |rest| && rest[j] == u;
      assert s[i] == t && s[n + j] == u;
    }
  }

  /**
   * `top` holds the six best items (all of them when there are fewer), best first:
   * it is drawn from the map, and each of its items scores at least as much as
   * every item left out.
   */
  lemma TopIsBest(d: seq<Item>)
    ensures SortedDesc(Top(d))
    ensures multiset(Top(d)) <= multiset(d)
    ensures forall t, u :: t in Top(d) && u in multiset(d) - multiset(Top(d)) ==> t.1 >= u.1
  {
    var s := SortDesc(d);
    SortDescMeaning(d);
    SortedCut(s, Min(TopCount, |d|));
  }
}
