/** Ranking by score: `list.map(x => ({x, score}))`, `sort((a, b) => a.score - b.score)`
    (a stable sort, so equal scores keep their original order) and `slice(0, count)`. */
module Ranking {
  import opened Seqs

  /** An item with its score and its position in the list being ranked. */
  datatype Ranked<T> = Ranked(item: T, score: real, pos: int)

  /** `a` sorts before `b`: a lower score, or the same score and an earlier
      position. */
  predicate Precedes<T>(a: Ranked<T>, b: Ranked<T>) {
    a.score < b.score || (a.score == b.score && a.pos < b.pos)
  }

  predicate SortedByRank<T>(s: seq<Ranked<T>>) {
    forall i, j :: 0 <= i < j < |s| ==> Precedes(s[i], s[j])
  }

  /** Each item paired with its score and its position. */
  function Rank<T>(items: seq<T>, score: T -> real): (r: seq<Ranked<T>>)
    ensures |r| == |items|
    ensures forall i :: 0 <= i < |r| ==> r[i] == Ranked(items[i], score(items[i]), i)
  {
    seq(|items|, i requires 0 <= i < |items| => Ranked(items[i], score(items[i]), i))
  }

  /** Put `x` in front of the first element whose score is not below its own. */
  function Insert<T>(x: Ranked<T>, sorted: seq<Ranked<T>>): (r: seq<Ranked<T>>)
    ensures multiset(r) == multiset(sorted) + multiset{x}
  {
    if sorted == [] || x.score <= sorted[0].score then [x] + sorted
    else
      assert sorted == [sorted[0]] + sorted[1..];
      [sorted[0]] + Insert(x, sorted[1..])
  }

  /** A stable ascending sort by score. */
  function SortRanked<T>(s: seq<Ranked<T>>): (r: seq<Ranked<T>>)
    ensures multiset(r) == multiset(s)
  {
    if s == [] then []
    else
      assert s == [s[0]] + s[1..];
      Insert(s[0], SortRanked(s[1..]))
  }

  /** Inserting an element that comes earlier than everything in a sorted list
      keeps the list sorted. */
  lemma {:induction false} InsertSorted<T>(x: Ranked<T>, sorted: seq<Ranked<T>>)
    requires SortedByRank(sorted)
    requires forall i :: 0 <= i < |sorted| ==> x.pos < sorted[i].pos
    ensures SortedByRank(Insert(x, sorted))
  {
    if sorted != [] && x.score > sorted[0].score {
      var rest := sorted[1..];
      InsertSorted(x, rest);
      var tail := Insert(x, rest);
      forall k | 0 <= k < |tail|
        ensures Precedes(sorted[0], tail[k])
      {
        assert tail[k] in multiset(tail);
        if tail[k] != x {
          assert tail[k] in multiset(rest);
          var m :| 0 <= m < |rest| && rest[m] == tail[k];
          assert sorted[m + 1] == tail[k];
        }
      }
    }
  }

  /** Elements with increasing positions sort into rank order. */
  lemma {:induction false} SortRankedSorted<T>(s: seq<Ranked<T>>)
    requires forall i, j :: 0 <= i < j < |s| ==> s[i].pos < s[j].pos
    ensures SortedByRank(SortRanked(s))
  {
    if s != [] {
      var rest := s[1..];
      SortRankedSorted(rest);
      var sorted := SortRanked(rest);
      forall k | 0 <= k < |sorted|
        ensures s[0].pos < sorted[k].pos
      {
        assert sorted[k] in multiset(rest);
        var m :| 0 <= m < |rest| && rest[m] == sorted[k];
        assert s[m + 1] == sorted[k];
      }
      InsertSorted(s[0], sorted);
    }
  }

  /** The ranked entries that selection keeps: the first `count` after sorting. */
  function Selected<T>(items: seq<T>, score: T -> real, count: nat): (sel: seq<Ranked<T>>)
    ensures |sel| == if count < |items| then count else |items|
  {
    var sorted := SortRanked(Rank(items, score));
    assert |multiset(sorted)| == |multiset(Rank(items, score))|;
    if count < |sorted| then sorted[..count] else sorted
  }

  /** `items` ranked by ascending score, ties in their original order, and cut
      to the first `count`. */
  function SelectBest<T>(items: seq<T>, score: T -> real, count: nat): (r: seq<T>)
    ensures |r| == |Selected(items, score, count)|
    ensures forall i :: 0 <= i < |r| ==> r[i] == Selected(items, score, count)[i].item
  {
    var sel := Selected(items, score, count);
    seq(|sel|, i requires 0 <= i < |sel| => sel[i].item)
  }

  /** The positions that selection keeps. */
  ghost function Positions<T>(sel: seq<Ranked<T>>): set<int> {
    set m | 0 <= m < |sel| :: sel[m].pos
  }

  /** Every element of the sorted list is the ranked entry at its own position. */
  lemma SortedEntries<T>(items: seq<T>, score: T -> real)
    ensures var ranked, sorted := Rank(items, score), SortRanked(Rank(items, score));
      |sorted| == |items| &&
      forall k :: 0 <= k < |sorted| ==> 0 <= sorted[k].pos < |items| && sorted[k] == ranked[sorted[k].pos]
  {
    var ranked := Rank(items, score);
    var sorted := SortRanked(ranked);
    assert |multiset(sorted)| == |multiset(ranked)|;
    forall k | 0 <= k < |sorted|
      ensures 0 <= sorted[k].pos < |items| && sorted[k] == ranked[sorted[k].pos]
    {
      assert sorted[k] in multiset(ranked);
      var m :| 0 <= m < |ranked| && ranked[m] == sorted[k];
    }
  }

  /** Where the entry of position `q` ended up after sorting. */
  lemma SortedIndexOf<T>(items: seq<T>, score: T -> real, q: int) returns (k: int)
    requires 0 <= q < |items|
    ensures 0 <= k < |SortRanked(Rank(items, score))|
    ensures SortRanked(Rank(items, score))[k] == Rank(items, score)[q]
  {
    var ranked := Rank(items, score);
    var sorted := SortRanked(ranked);
    assert ranked[q] in multiset(sorted);
    k :| 0 <= k < |sorted| && sorted[k] == ranked[q];
  }

  /** What selection guarantees: each kept entry is the item at its position
      with that item's score, the kept entries are in rank order, and each of
      them ranks before every entry that was not kept. */
  lemma SelectedSpec<T>(items: seq<T>, score: T -> real, count: nat)
    ensures var sel := Selected(items, score, count);
      && (forall i :: 0 <= i < |sel| ==>
            0 <= sel[i].pos < |items| && sel[i] == Ranked(items[sel[i].pos], score(items[sel[i].pos]), sel[i].pos))
      && SortedByRank(sel)
      && (forall i, q :: 0 <= i < |sel| && 0 <= q < |items| && q !in Positions(sel) ==>
            Precedes(sel[i], Ranked(items[q], score(items[q]), q)))
  {
    var ranked := Rank(items, score);
    var sorted := SortRanked(ranked);
    var sel := Selected(items, score, count);
    SortRankedSorted(ranked);
    SortedEntries(items, score);
    assert forall i :: 0 <= i < |sel| ==> sel[i] == sorted[i];
    forall i, q | 0 <= i < |sel| && 0 <= q < |items| && q !in Positions(sel)
      ensures Precedes(sel[i], Ranked(items[q], score(items[q]), q))
    {
      var k := SortedIndexOf(items, score, q);
      assert forall m :: 0 <= m < |sel| ==> sel[m].pos in Positions(sel);
      assert k >= |sel|;
      assert Precedes(sorted[i], sorted[k]);
    }
  }

  /** Kept entries sit at distinct positions. */
  lemma SelectedDistinct<T>(items: seq<T>, score: T -> real, count: nat)
    ensures var sel := Selected(items, score, count);
      forall i, j :: 0 <= i < j < |sel| ==> sel[i].pos != sel[j].pos
  {
    SelectedSpec(items, score, count);
  }

  /** Selecting from a list whose elements have distinct keys gives elements with
      distinct keys. */
  lemma SelectBestDistinct<T, K>(items: seq<T>, score: T -> real, count: nat, key: T -> K)
    requires DistinctBy(items, key)
    ensures DistinctBy(SelectBest(items, score, count), key)
  {
    SelectedSpec(items, score, count);
    SelectedDistinct(items, score, count);
  }

  /** Every selected element is an element of the list. */
  lemma SelectBestMembers<T>(items: seq<T>, score: T -> real, count: nat)
    ensures forall i :: 0 <= i < |SelectBest(items, score, count)| ==> SelectBest(items, score, count)[i] in items
  {
    SelectedSpec(items, score, count);
  }
}
