/** Reciprocal-rank fusion: several ranked lists merged into one by summed reciprocal rank. */
module Rrf {
  import opened Base

  // ----- What the merge should compute -----

  /** 1 / (k + rank + 1) for every position at which the key stands in one list. */
  ghost function ListScore<T, K>(list: seq<T>, keyOf: T -> K, k: real, key: K): real
    requires k > -1.0
  {
    if list == [] then 0.0
    else var n := |list| - 1;
         ListScore(list[..n], keyOf, k, key) + if keyOf(list[n]) == key then 1.0 / (k + n as real + 1.0) else 0.0
  }

  /** The fused score of a key. */
  ghost function Score<T, K>(lists: seq<seq<T>>, keyOf: T -> K, k: real, key: K): real
    requires k > -1.0
  {
    if lists == [] then 0.0
    else var n := |lists| - 1; Score(lists[..n], keyOf, k, key) + ListScore(lists[n], keyOf, k, key)
  }

  /** All items in the order in which the lists are read. */
  ghost function Flatten<T>(lists: seq<seq<T>>): seq<T> {
    if lists == [] then [] else Flatten(lists[..|lists| - 1]) + lists[|lists| - 1]
  }

  /** The first item read with a given key, if any. */
  ghost predicate IsFirst<T(!new), K>(items: seq<T>, keyOf: T -> K, item: T) {
    exists i :: 0 <= i < |items| && items[i] == item && forall j :: 0 <= j < i ==> keyOf(items[j]) != keyOf(item)
  }

  ghost predicate Occurs<T, K>(items: seq<T>, keyOf: T -> K, key: K) {
    exists i :: 0 <= i < |items| && keyOf(items[i]) == key
  }

  /** Key a is read for the first time before key b is. */
  ghost predicate SeenBefore<T, K>(items: seq<T>, keyOf: T -> K, a: K, b: K) {
    exists i :: 0 <= i < |items| && keyOf(items[i]) == a && forall j :: 0 <= j <= i ==> keyOf(items[j]) != b
  }

  /** The place the merge gives a relative to b: a higher score, or the same score and read first. */
  ghost predicate RanksBefore<T, K>(lists: seq<seq<T>>, keyOf: T -> K, k: real, a: K, b: K)
    requires k > -1.0
  {
    var sa, sb := Score(lists, keyOf, k, a), Score(lists, keyOf, k, b);
    sa > sb || (sa == sb && SeenBefore(Flatten(lists), keyOf, a, b))
  }

  // ----- The stable sort -----

  /** a stands somewhere before b. */
  ghost predicate Precedes<K>(s: seq<K>, a: K, b: K) {
    exists i, j :: 0 <= i < j < |s| && s[i] == a && s[j] == b
  }

  ghost predicate StablyBefore<K>(s: seq<K>, scores: map<K, real>, a: K, b: K)
    requires a in scores && b in scores
  {
    scores[a] > scores[b] || (scores[a] == scores[b] && Precedes(s, a, b))
  }

  ghost predicate StablySorted<K>(r: seq<K>, s: seq<K>, scores: map<K, real>)
    requires forall x :: x in r ==> x in scores
  {
    forall i, j :: 0 <= i < j < |r| ==> StablyBefore(s, scores, r[i], r[j])
  }

  /** One step of the sort: x goes after every key that scores at least as much. */
  function Insert<K(==, !new)>(r: seq<K>, x: K, scores: map<K, real>): (t: seq<K>)
    requires x in scores && forall y :: y in r ==> y in scores
    ensures |t| == |r| + 1 && forall y :: y in t <==> y in r || y == x
  {
    if r == [] || scores[r[|r| - 1]] >= scores[x] then r + [x]
    else
      var n := |r| - 1;
      assert r == r[..n] + [r[n]];
      Insert(r[..n], x, scores) + [r[n]]
  }

  /** The library's stable sort, by falling score. */
  function SortByScore<K(==, !new)>(s: seq<K>, scores: map<K, real>): (r: seq<K>)
    requires forall x :: x in s ==> x in scores
    ensures |r| == |s| && forall x :: x in r <==> x in s
  {
    if s == [] then []
    else
      var n := |s| - 1;
      assert s == s[..n] + [s[n]];
      Insert(SortByScore(s[..n], scores), s[n], scores)
  }

  lemma AppendKeepsSorted<K(!new)>(t: seq<K>, s: seq<K>, x: K, scores: map<K, real>)
    requires x in scores && (forall y :: y in t ==> y in scores) && StablySorted(t, s, scores)
    requires forall y :: y in t ==> StablyBefore(s, scores, y, x)
    ensures (forall y :: y in t + [x] ==> y in scores) && StablySorted(t + [x], s, scores)
  {
    hide StablyBefore;
    var t' := t + [x];
    forall i, j | 0 <= i < j < |t'| ensures StablyBefore(s, scores, t'[i], t'[j]) {
      if j == |t| { assert t[i] in t; } else { assert StablyBefore(s, scores, t[i], t[j]); }
    }
  }

  lemma {:induction false} InsertKeepsSorted<K(!new)>(r: seq<K>, s: seq<K>, x: K, scores: map<K, real>)
    requires x in scores && (forall y :: y in r ==> y in scores) && StablySorted(r, s, scores)
    requires forall y :: y in r ==> Precedes(s, y, x)
    ensures (forall y :: y in Insert(r, x, scores) ==> y in scores) && StablySorted(Insert(r, x, scores), s, scores)
  {
    hide Precedes;
    if r != [] {
      var n := |r| - 1;
      forall y | y in r ensures scores[y] >= scores[r[n]] && (y == r[n] || StablyBefore(s, scores, y, r[n])) {
        var i :| 0 <= i < |r| && r[i] == y;
        if i < n { assert StablyBefore(s, scores, r[i], r[n]); }
      }
      if scores[r[n]] < scores[x] {
        assert forall y :: y in r[..n] ==> y in r;
        InsertKeepsSorted(r[..n], s, x, scores);
        var t := Insert(r[..n], x, scores);
        forall y | y in t ensures StablyBefore(s, scores, y, r[n]) {
          if y != x { var i :| 0 <= i < n && r[i] == y; assert StablyBefore(s, scores, r[i], r[n]); }
        }
        AppendKeepsSorted(t, s, r[n], scores);
      }
    }
    if r == [] || scores[r[|r| - 1]] >= scores[x] {
      AppendKeepsSorted(r, s, x, scores);
    }
  }

  lemma {:induction false} PrecedesExtends<K>(r: seq<K>, s: seq<K>, s': seq<K>, scores: map<K, real>)
    requires (forall y :: y in r ==> y in scores) && StablySorted(r, s, scores) && s <= s'
    ensures StablySorted(r, s', scores)
  {
    forall i, j | 0 <= i < j < |r| ensures StablyBefore(s', scores, r[i], r[j]) {
      assert StablyBefore(s, scores, r[i], r[j]);
      if scores[r[i]] == scores[r[j]] {
        var a, b :| 0 <= a < b < |s| && s[a] == r[i] && s[b] == r[j];
        assert s'[a] == r[i] && s'[b] == r[j];
      }
    }
  }

  /** The sort puts higher scores first and keeps the order of equal ones. */
  lemma {:induction false} SortIsStable<K(!new)>(s: seq<K>, scores: map<K, real>)
    requires (forall x :: x in s ==> x in scores) && Distinct(s)
    ensures (forall x :: x in SortByScore(s, scores) ==> x in scores) && StablySorted(SortByScore(s, scores), s, scores)
  {
    if s != [] {
      var n := |s| - 1;
      SortIsStable(s[..n], scores);
      var r := SortByScore(s[..n], scores);
      PrecedesExtends(r, s[..n], s, scores);
      forall y | y in r ensures Precedes(s, y, s[n]) {
        var i :| 0 <= i < n && s[..n][i] == y;
        assert s[i] == y && s[n] == s[n];
      }
      InsertKeepsSorted(r, s, s[n], scores);
    }
  }

  // ----- The merge -----

  /** What the two maps and their insertion order hold once `items` has been read. */
  ghost predicate Collected<T(!new), K(!new)>(items: seq<T>, keyOf: T -> K, kept: map<K, T>, order: seq<K>) {
    && Distinct(order) && (forall key :: key in kept <==> key in order)
    && (forall key :: key in kept <==> Occurs(items, keyOf, key))
    && (forall key :: key in kept ==> keyOf(kept[key]) == key && IsFirst(items, keyOf, kept[key]))
    && (forall i, j :: 0 <= i < j < |order| ==> SeenBefore(items, keyOf, order[i], order[j]))
  }

  ghost predicate Scored<T, K>(before: seq<seq<T>>, part: seq<T>, keyOf: T -> K, k: real, scores: map<K, real>)
    requires k > -1.0
  {
    forall key :: key in scores ==> scores[key] == Score(before, keyOf, k, key) + ListScore(part, keyOf, k, key)
  }

  lemma ReadKeeps<T(!new), K(!new)>(items: seq<T>, keyOf: T -> K, kept: map<K, T>, order: seq<K>, item: T)
    requires Collected(items, keyOf, kept, order)
    ensures keyOf(item) in kept ==> Collected(items + [item], keyOf, kept, order)
    ensures keyOf(item) !in kept ==> Collected(items + [item], keyOf, kept[keyOf(item) := item], order + [keyOf(item)])
  {
    var items', key := items + [item], keyOf(item);
    OccursAfter(items, keyOf, item);
    forall a, b | SeenBefore(items, keyOf, a, b)
      ensures SeenBefore(items', keyOf, a, b)
    {
      SeenBeforeExtends(items, keyOf, item, a, b);
    }
    forall x | IsFirst(items, keyOf, x) ensures IsFirst(items', keyOf, x) { FirstExtends(items, keyOf, item, x); }
    if key !in kept {
      assert IsFirst(items', keyOf, item) by { assert items'[|items|] == item; }
      forall a | Occurs(items, keyOf, a)
        ensures SeenBefore(items', keyOf, a, key)
      {
        SeenBeforeNew(items, keyOf, item, a);
      }
    }
  }

  lemma OccursAfter<T, K(!new)>(items: seq<T>, keyOf: T -> K, item: T)
    ensures forall key :: Occurs(items + [item], keyOf, key) <==> Occurs(items, keyOf, key) || key == keyOf(item)
  {
    assert (items + [item])[|items|] == item;
    forall key | Occurs(items, keyOf, key) ensures Occurs(items + [item], keyOf, key) {
      var i :| 0 <= i < |items| && keyOf(items[i]) == key;
      assert (items + [item])[i] == items[i];
    }
  }

  lemma SeenBeforeExtends<T, K>(items: seq<T>, keyOf: T -> K, item: T, a: K, b: K)
    requires SeenBefore(items, keyOf, a, b)
    ensures SeenBefore(items + [item], keyOf, a, b)
  {
    var i :| 0 <= i < |items| && keyOf(items[i]) == a && forall j :: 0 <= j <= i ==> keyOf(items[j]) != b;
    assert (items + [item])[i] == items[i];
  }

  lemma FirstExtends<T(!new), K>(items: seq<T>, keyOf: T -> K, item: T, x: T)
    requires IsFirst(items, keyOf, x)
    ensures IsFirst(items + [item], keyOf, x)
  {
    var i :| 0 <= i < |items| && items[i] == x && forall j :: 0 <= j < i ==> keyOf(items[j]) != keyOf(x);
    assert (items + [item])[i] == x;
  }

  lemma SeenBeforeNew<T, K>(items: seq<T>, keyOf: T -> K, item: T, a: K)
    requires Occurs(items, keyOf, a) && !Occurs(items, keyOf, keyOf(item))
    ensures SeenBefore(items + [item], keyOf, a, keyOf(item))
  {
    var i :| 0 <= i < |items| && keyOf(items[i]) == a;
    assert (items + [item])[i] == items[i];
    forall j | 0 <= j <= i ensures keyOf((items + [item])[j]) != keyOf(item) { assert keyOf(items[j]) != keyOf(item); }
  }

  lemma {:induction false} NoListScore<T, K>(list: seq<T>, keyOf: T -> K, k: real, key: K)
    requires k > -1.0 && !Occurs(list, keyOf, key)
    ensures ListScore(list, keyOf, k, key) == 0.0
  {
    if list != [] {
      var n := |list| - 1;
      assert keyOf(list[n]) != key;
      assert forall i :: 0 <= i < n ==> list[..n][i] == list[i];
      NoListScore(list[..n], keyOf, k, key);
    }
  }

  lemma OccursInPart<T, K>(before: seq<T>, part: seq<T>, keyOf: T -> K, key: K)
    ensures Occurs(before + part, keyOf, key) <==> Occurs(before, keyOf, key) || Occurs(part, keyOf, key)
  {
    if Occurs(before, keyOf, key) {
      var i :| 0 <= i < |before| && keyOf(before[i]) == key;
      assert (before + part)[i] == before[i];
    }
    if Occurs(part, keyOf, key) {
      var i :| 0 <= i < |part| && keyOf(part[i]) == key;
      assert (before + part)[|before| + i] == part[i];
    }
  }

  lemma {:induction false} NoScore<T, K>(lists: seq<seq<T>>, keyOf: T -> K, k: real, key: K)
    requires k > -1.0 && !Occurs(Flatten(lists), keyOf, key)
    ensures Score(lists, keyOf, k, key) == 0.0
  {
    if lists != [] {
      var n := |lists| - 1;
      OccursInPart(Flatten(lists[..n]), lists[n], keyOf, key);
      NoScore(lists[..n], keyOf, k, key);
      NoListScore(lists[n], keyOf, k, key);
    }
  }

  lemma AddScore<T, K(!new)>(before: seq<seq<T>>, list: seq<T>, j: nat, keyOf: T -> K, k: real, scores: map<K, real>)
    requires k > -1.0 && j < |list| && Scored(before, list[..j], keyOf, k, scores)
    requires forall key :: key in scores <==> Occurs(Flatten(before) + list[..j], keyOf, key)
    ensures var key := keyOf(list[j]);
            var prior := if key in scores then scores[key] else 0.0;
            Scored(before, list[..j + 1], keyOf, k, scores[key := prior + 1.0 / (k + j as real + 1.0)])
  {
    assert list[..j + 1][..j] == list[..j];
    var key := keyOf(list[j]);
    if key !in scores {
      OccursInPart(Flatten(before), list[..j], keyOf, key);
      NoScore(before, keyOf, k, key);
      NoListScore(list[..j], keyOf, k, key);
    }
  }

  /** The merged list is the stable ranked union of the lists. */
  ghost predicate IsFusion<T(!new), K(!new)>(merged: seq<T>, lists: seq<seq<T>>, keyOf: T -> K, k: real)
    requires k > -1.0
  {
    && (forall key :: Occurs(merged, keyOf, key) <==> Occurs(Flatten(lists), keyOf, key))
    && (forall i :: 0 <= i < |merged| ==> IsFirst(Flatten(lists), keyOf, merged[i]))
    && (forall i, j :: 0 <= i < j < |merged| ==> RanksBefore(lists, keyOf, k, keyOf(merged[i]), keyOf(merged[j])))
  }

  /** The inner loop: one list is read item by item. */
  method ReadList<T(!new), K(==, !new)>(list: seq<T>, keyOf: T -> K, k: real, scores: map<K, real>, kept: map<K, T>,
                                        order: seq<K>,
                                        ghost before: seq<seq<T>>)
    returns (scores': map<K, real>, kept': map<K, T>, order': seq<K>)
    requires k > -1.0 && scores.Keys == kept.Keys
    requires Collected(Flatten(before), keyOf, kept, order) && Scored(before, [], keyOf, k, scores)
    ensures scores'.Keys == kept'.Keys
    ensures Collected(Flatten(before) + list, keyOf, kept', order') && Scored(before, list, keyOf, k, scores')
  {
    hide IsFirst, SeenBefore, Distinct, Score, ListScore, Occurs;
    scores', kept', order' := scores, kept, order;
    ghost var items := Flatten(before);
    assert items + list[..0] == items;
    for j := 0 to |list|
      invariant scores'.Keys == kept'.Keys
      invariant Collected(items + list[..j], keyOf, kept', order') && Scored(before, list[..j], keyOf, k, scores')
    {
      var item := list[j];
      var key := keyOf(item);
      ReadKeeps(items + list[..j], keyOf, kept', order', item);
      AddScore(before, list, j, keyOf, k, scores');
      assert items + list[..j + 1] == items + list[..j] + [item];
      scores' := scores'[key := (if key in scores' then scores'[key] else 0.0) + 1.0 / (k + j as real + 1.0)];
      if key !in kept' {
        kept' := kept'[key := item];
        order' := order' + [key];
      }
    }
    assert list[..|list|] == list;
  }

  /** The next list starts where the previous one ended. */
  lemma NextList<T(!new), K(!new)>(lists: seq<seq<T>>, i: nat, keyOf: T -> K, k: real, scores: map<K, real>,
                                   kept: map<K, T>, order: seq<K>)
    requires k > -1.0 && i < |lists|
    requires Collected(Flatten(lists[..i]) + lists[i], keyOf, kept, order)
    requires Scored(lists[..i], lists[i], keyOf, k, scores)
    ensures Collected(Flatten(lists[..i + 1]), keyOf, kept, order) && Scored(lists[..i + 1], [], keyOf, k, scores)
  {
    hide Collected;
    assert lists[..i + 1][..i] == lists[..i];
  }

  /** `rrfMerge`: the loops over the lists, then the sort. */
  method RrfMerge<T(!new), K(==, !new)>(lists: seq<seq<T>>, keyOf: T -> K, k: real) returns (merged: seq<T>)
    requires k > -1.0
    ensures IsFusion(merged, lists, keyOf, k)
  {
    hide IsFusion, IsFirst, SeenBefore;
    var scores: map<K, real>, kept: map<K, T>, order: seq<K> := map[], map[], [];
    for i := 0 to |lists|
      invariant scores.Keys == kept.Keys
      invariant Collected(Flatten(lists[..i]), keyOf, kept, order) && Scored(lists[..i], [], keyOf, k, scores)
    {
      scores, kept, order := ReadList(lists[i], keyOf, k, scores, kept, order, lists[..i]);
      NextList(lists, i, keyOf, k, scores, kept, order);
    }
    assert lists[..|lists|] == lists;
    var keys := SortByScore(order, scores);
    SortIsStable(order, scores);
    merged := seq(|keys|, (i: nat) requires i < |keys| && keys[i] in kept => kept[keys[i]]);
    SortedIsFusion(lists, keyOf, k, scores, kept, order, keys, merged);
  }

  lemma SortedIsFusion<T(!new), K(!new)>(lists: seq<seq<T>>, keyOf: T -> K, k: real, scores: map<K, real>,
                                         kept: map<K, T>, order: seq<K>, keys: seq<K>, merged: seq<T>)
    requires k > -1.0 && Collected(Flatten(lists), keyOf, kept, order) && Scored(lists, [], keyOf, k, scores)
    requires scores.Keys == kept.Keys
    requires |keys| == |order| && (forall x :: x in keys <==> x in order) && StablySorted(keys, order, scores)
    requires |merged| == |keys| && forall i :: 0 <= i < |keys| ==> keys[i] in kept && merged[i] == kept[keys[i]]
    ensures IsFusion(merged, lists, keyOf, k)
  {
    forall key ensures Occurs(merged, keyOf, key) <==> Occurs(Flatten(lists), keyOf, key) {
      if key in keys { var i :| 0 <= i < |keys| && keys[i] == key; assert keyOf(merged[i]) == key; }
    }
    forall i, j | 0 <= i < j < |merged| ensures RanksBefore(lists, keyOf, k, keyOf(merged[i]), keyOf(merged[j])) {
      var a, b := keys[i], keys[j];
      assert keyOf(merged[i]) == a && keyOf(merged[j]) == b;
      assert StablyBefore(order, scores, a, b);
      if scores[a] == scores[b] {
        var x, y :| 0 <= x < y < |order| && order[x] == a && order[y] == b;
        assert SeenBefore(Flatten(lists), keyOf, order[x], order[y]);
      }
    }
  }

  // ----- What the fusion means -----

  lemma RankingIsStrict<T, K>(lists: seq<seq<T>>, keyOf: T -> K, k: real, a: K, b: K)
    requires k > -1.0 && RanksBefore(lists, keyOf, k, a, b)
    ensures a != b && !RanksBefore(lists, keyOf, k, b, a)
  {
  }

  /** Every key comes out once. */
  lemma EachKeyOnce<T(!new), K(!new)>(merged: seq<T>, lists: seq<seq<T>>, keyOf: T -> K, k: real, i: nat, j: nat)
    requires k > -1.0 && IsFusion(merged, lists, keyOf, k) && i < |merged| && j < |merged|
    requires keyOf(merged[i]) == keyOf(merged[j])
    ensures i == j
  {
    if i < j { RankingIsStrict(lists, keyOf, k, keyOf(merged[i]), keyOf(merged[j])); }
    if j < i { RankingIsStrict(lists, keyOf, k, keyOf(merged[j]), keyOf(merged[i])); }
  }

  lemma ReciprocalPositive(x: real)
    requires x > 0.0
    ensures 1.0 / x > 0.0
  {
  }

  lemma {:induction false} ListScoreNonNegative<T, K>(list: seq<T>, keyOf: T -> K, k: real, key: K)
    requires k > -1.0
    ensures ListScore(list, keyOf, k, key) >= 0.0
  {
    if list != [] { ListScoreNonNegative(list[..|list| - 1], keyOf, k, key); }
  }

  lemma {:induction false} ListScoreAtLeast<T, K>(list: seq<T>, keyOf: T -> K, k: real, i: nat)
    requires k > -1.0 && i < |list|
    ensures ListScore(list, keyOf, k, keyOf(list[i])) >= 1.0 / (k + i as real + 1.0)
  {
    var n := |list| - 1;
    if i < n {
      ListScoreAtLeast(list[..n], keyOf, k, i);
      ReciprocalPositive(k + n as real + 1.0);
    } else { ListScoreNonNegative(list[..n], keyOf, k, keyOf(list[i])); }
  }

  lemma {:induction false} ListScoreExactly<T, K>(list: seq<T>, keyOf: T -> K, k: real, i: nat)
    requires k > -1.0 && i < |list| && forall j :: 0 <= j < |list| && keyOf(list[j]) == keyOf(list[i]) ==> j == i
    ensures ListScore(list, keyOf, k, keyOf(list[i])) == 1.0 / (k + i as real + 1.0)
  {
    var n := |list| - 1;
    if i < n { ListScoreExactly(list[..n], keyOf, k, i); } else { NoListScore(list[..n], keyOf, k, keyOf(list[i])); }
  }

  /** The rank of a key in a list, counted from one. */
  ghost predicate RankIs<T, K>(list: seq<T>, keyOf: T -> K, key: K, rank: Option<nat>) {
    match rank
    case None => !Occurs(list, keyOf, key)
    case Some(r) => 1 <= r <= |list| && forall i :: 0 <= i < |list| ==> (keyOf(list[i]) == key <==> i == r - 1)
  }

  /** The sum of 1 / (k + rank) over the lists that rank the key. */
  ghost function ReciprocalRanks(ranks: seq<Option<nat>>, k: real): real
    requires k > -1.0
  {
    if ranks == [] then 0.0
    else
      var rest := ReciprocalRanks(ranks[1..], k);
      if ranks[0].Some? && ranks[0].value >= 1 then 1.0 / (k + ranks[0].value as real) + rest else rest
  }

  lemma {:induction false} ReciprocalRanksAppend(ranks: seq<Option<nat>>, rank: Option<nat>, k: real)
    requires k > -1.0
    ensures ReciprocalRanks(ranks + [rank], k) == ReciprocalRanks(ranks, k) + ReciprocalRanks([rank], k)
  {
    if ranks != [] {
      assert (ranks + [rank])[1..] == ranks[1..] + [rank];
      ReciprocalRanksAppend(ranks[1..], rank, k);
    } else {
      assert ranks + [rank] == [rank];
    }
  }

  /** The fused score is the sum of the reciprocal ranks. */
  lemma {:induction false} ScoreIsReciprocalRanks<T, K>(lists: seq<seq<T>>, keyOf: T -> K, k: real, key: K,
                                                        ranks: seq<Option<nat>>)
    requires k > -1.0 && |ranks| == |lists|
    requires forall l :: 0 <= l < |lists| ==> RankIs(lists[l], keyOf, key, ranks[l])
    ensures Score(lists, keyOf, k, key) == ReciprocalRanks(ranks, k)
  {
    if lists != [] {
      var n := |lists| - 1;
      ScoreIsReciprocalRanks(lists[..n], keyOf, k, key, ranks[..n]);
      assert ranks == ranks[..n] + [ranks[n]];
      ReciprocalRanksAppend(ranks[..n], ranks[n], k);
      var last := [ranks[n]];
      assert last[1..] == [];
      if ranks[n].Some? {
        assert keyOf(lists[n][ranks[n].value - 1]) == key;
        ListScoreExactly(lists[n], keyOf, k, ranks[n].value - 1);
      } else {
        NoListScore(lists[n], keyOf, k, key);
      }
    }
  }

  /** The key occurs at most once in the list. */
  ghost predicate AtMostOnce<T, K>(list: seq<T>, keyOf: T -> K, key: K) {
    forall i, j :: 0 <= i < |list| && 0 <= j < |list| && keyOf(list[i]) == key && keyOf(list[j]) == key ==> i == j
  }

  /** Wherever b stands in the list, a stands before it. */
  ghost predicate AheadIn<T, K>(list: seq<T>, keyOf: T -> K, a: K, b: K) {
    forall j :: 0 <= j < |list| && keyOf(list[j]) == b ==> exists i :: 0 <= i < j && keyOf(list[i]) == a
  }

  lemma AheadScoresMore<T, K>(list: seq<T>, keyOf: T -> K, k: real, a: K, b: K)
    requires k > -1.0 && AtMostOnce(list, keyOf, b) && AheadIn(list, keyOf, a, b)
    ensures ListScore(list, keyOf, k, a) >= ListScore(list, keyOf, k, b)
    ensures Occurs(list, keyOf, b) ==> ListScore(list, keyOf, k, a) > ListScore(list, keyOf, k, b)
  {
    if Occurs(list, keyOf, b) {
      var j :| 0 <= j < |list| && keyOf(list[j]) == b;
      var i :| 0 <= i < j && keyOf(list[i]) == a;
      ListScoreExactly(list, keyOf, k, j);
      ListScoreAtLeast(list, keyOf, k, i);
      ReciprocalFalls(k + i as real + 1.0, k + j as real + 1.0);
    } else {
      NoListScore(list, keyOf, k, b);
      ListScoreNonNegative(list, keyOf, k, a);
    }
  }

  lemma ReciprocalFalls(x: real, y: real)
    requires 0.0 < x < y
    ensures 1.0 / x > 1.0 / y
  {
    assert 1.0 / x - 1.0 / y == (y - x) / (x * y);
  }

  lemma {:induction false} AheadEverywhereScoresMore<T, K>(lists: seq<seq<T>>, keyOf: T -> K, k: real, a: K, b: K)
    requires k > -1.0
    requires forall i :: 0 <= i < |lists| ==> AtMostOnce(lists[i], keyOf, b) && AheadIn(lists[i], keyOf, a, b)
    ensures Score(lists, keyOf, k, a) >= Score(lists, keyOf, k, b)
    ensures Occurs(Flatten(lists), keyOf, b) ==> Score(lists, keyOf, k, a) > Score(lists, keyOf, k, b)
  {
    if lists != [] {
      var n := |lists| - 1;
      OccursInPart(Flatten(lists[..n]), lists[n], keyOf, b);
      AheadEverywhereScoresMore(lists[..n], keyOf, k, a, b);
      AheadScoresMore(lists[n], keyOf, k, a, b);
    }
  }

  /** An item ranked ahead of another in every list that holds the other is merged ahead of it. */
  lemma AheadEverywhereMeansAhead<T(!new), K(!new)>(merged: seq<T>, lists: seq<seq<T>>, keyOf: T -> K, k: real, i: nat,
                                                    j: nat)
    requires k > -1.0 && IsFusion(merged, lists, keyOf, k) && i < |merged| && j < |merged|
    requires forall l :: 0 <= l < |lists|
               ==> AtMostOnce(lists[l], keyOf, keyOf(merged[j]))
                   && AheadIn(lists[l], keyOf, keyOf(merged[i]), keyOf(merged[j]))
    ensures i < j
  {
    assert j < i ==> RanksBefore(lists, keyOf, k, keyOf(merged[j]), keyOf(merged[i]));
    assert Occurs(merged, keyOf, keyOf(merged[j]));
    AheadEverywhereScoresMore(lists, keyOf, k, keyOf(merged[i]), keyOf(merged[j]));
  }

  /** There is only one stable ranked union, so the merge is determined by its inputs. */
  lemma {:induction false} FusionIsUnique<T(!new), K(!new)>(m: seq<T>, m': seq<T>, lists: seq<seq<T>>, keyOf: T -> K,
                                                            k: real)
    requires k > -1.0 && IsFusion(m, lists, keyOf, k) && IsFusion(m', lists, keyOf, k)
    ensures m == m'
  {
    SameOrder(m, m', lists, keyOf, k, 0);
  }

  /** From a position up to which they agree, two fusions agree to the end. */
  lemma {:induction false} SameOrder<T(!new), K(!new)>(m: seq<T>, m': seq<T>, lists: seq<seq<T>>, keyOf: T -> K,
                                                       k: real, n: nat)
    requires k > -1.0 && IsFusion(m, lists, keyOf, k) && IsFusion(m', lists, keyOf, k)
    requires n <= |m| && n <= |m'| && m[..n] == m'[..n]
    ensures m == m'
    decreases |m| - n
  {
    if n < |m| {
      var i := Later(m', m, lists, keyOf, k, n);
      var j := Later(m, m', lists, keyOf, k, n);
      if i != n {
        RankingIsStrict(lists, keyOf, k, keyOf(m'[n]), keyOf(m'[i]));
      }
      SameFirst(lists, keyOf, m[n], m'[n]);
      assert m[..n + 1] == m[..n] + [m[n]] && m'[..n + 1] == m'[..n] + [m'[n]];
      SameOrder(m, m', lists, keyOf, k, n + 1);
    } else if n < |m'| {
      var j := Later(m, m', lists, keyOf, k, n);
    }
  }

  /** Where the key at position n of `other` stands in `m`, which agrees with it up to n. */
  lemma Later<T(!new), K(!new)>(m: seq<T>, other: seq<T>, lists: seq<seq<T>>, keyOf: T -> K, k: real, n: nat)
    returns (i: nat)
    requires k > -1.0 && IsFusion(m, lists, keyOf, k) && IsFusion(other, lists, keyOf, k)
    requires n < |other| && n <= |m| && m[..n] == other[..n]
    ensures n <= i < |m| && keyOf(m[i]) == keyOf(other[n])
  {
    assert Occurs(other, keyOf, keyOf(other[n]));
    i :| 0 <= i < |m| && keyOf(m[i]) == keyOf(other[n]);
    if i < n {
      assert m[i] == m[..n][i] == other[..n][i] == other[i];
      EachKeyOnce(other, lists, keyOf, k, i, n);
    }
  }

  lemma SameFirst<T(!new), K>(lists: seq<seq<T>>, keyOf: T -> K, x: T, y: T)
    requires IsFirst(Flatten(lists), keyOf, x) && IsFirst(Flatten(lists), keyOf, y) && keyOf(x) == keyOf(y)
    ensures x == y
  {
    var items := Flatten(lists);
    var i :| 0 <= i < |items| && items[i] == x && forall j :: 0 <= j < i ==> keyOf(items[j]) != keyOf(x);
    var i' :| 0 <= i' < |items| && items[i'] == y && forall j :: 0 <= j < i' ==> keyOf(items[j]) != keyOf(y);
  }
}
