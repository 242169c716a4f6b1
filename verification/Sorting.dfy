/**
 Sorted sequences and order statistics: the j-th smallest element is at most v
 exactly when more than j elements are.
 */
module Sorting {

  ghost predicate IsSorted(s: seq<int>) {
    forall i, j :: 0 <= i < j < |s| ==> s[i] <= s[j]
  }

  function Insert(x: int, s: seq<int>): seq<int> {
    if s == [] || x <= s[0] then [x] + s else [s[0]] + Insert(x, s[1..])
  }

  lemma {:induction false} InsertKeepsOrder(x: int, s: seq<int>)
    requires IsSorted(s)
    ensures IsSorted(Insert(x, s))
    ensures Insert(x, s) != [] && (Insert(x, s)[0] == x || (s != [] && Insert(x, s)[0] == s[0]))
  {
    if s != [] && x > s[0] {
      InsertKeepsOrder(x, s[1..]);
    }
  }

  lemma {:induction false} InsertAddsOne(x: int, s: seq<int>)
    ensures multiset(Insert(x, s)) == multiset(s) + multiset{x}
  {
    if s != [] && x > s[0] {
      InsertAddsOne(x, s[1..]);
      assert s == [s[0]] + s[1..];
    }
  }

  function Sort(s: seq<int>): (r: seq<int>)
    ensures IsSorted(r) && multiset(r) == multiset(s) && |r| == |s|
  {
    if s == [] then []
    else
      var t := Sort(s[1..]);
      InsertKeepsOrder(s[0], t);
      InsertAddsOne(s[0], t);
      SplitFirst(s);
      SameSize(Insert(s[0], t), s);
      Insert(s[0], t)
  }

  lemma SplitFirst(s: seq<int>)
    requires s != []
    ensures multiset(s) == multiset(s[1..]) + multiset{s[0]}
  {
    assert s == [s[0]] + s[1..];
  }

  lemma SameSize(s: seq<int>, t: seq<int>)
    requires multiset(s) == multiset(t)
    ensures |s| == |t|
  {
    assert |s| == |multiset(s)| && |t| == |multiset(t)|;
  }

  /** std::sort: the elements of data, rearranged in place into ascending order. */
  method SortInPlace(data: array<int>)
    modifies data
    ensures IsSorted(data[..])
    ensures data[..] == Sort(old(data[..]))
    ensures multiset(data[..]) == multiset(old(data[..]))
  {
    var sorted := Sort(data[..]);
    forall i | 0 <= i < data.Length {
      data[i] := sorted[i];
    }
    assert data[..] == sorted;
  }

  function CountAtMost(s: seq<int>, v: int): nat {
    if s == [] then 0 else (if s[0] <= v then 1 else 0) + CountAtMost(s[1..], v)
  }

  lemma {:induction false} RankOfSorted(s: seq<int>, j: nat, v: int)
    requires IsSorted(s) && j < |s|
    ensures s[j] <= v <==> CountAtMost(s, v) > j
  {
    if j > 0 {
      RankOfSorted(s[1..], j - 1, v);
    } else if |s| > 1 {
      RankOfSorted(s[1..], 0, v);
    }
  }

  lemma {:induction false} CountOfDominated(xs: seq<int>, ys: seq<int>, d: int, v: int)
    requires Within(xs, ys, d)
    ensures CountAtMost(xs, v + d) >= CountAtMost(ys, v)
  {
    if xs != [] {
      CountOfDominated(xs[1..], ys[1..], d, v);
    }
  }

  /** No element of xs exceeds its partner in ys by more than d. */
  ghost predicate Within(xs: seq<int>, ys: seq<int>, d: int) {
    |xs| == |ys| && forall i :: 0 <= i < |xs| ==> xs[i] <= ys[i] + d
  }

  ghost predicate SameCounts(s: seq<int>, t: seq<int>) {
    |s| == |t| && forall v :: CountAtMost(s, v) == CountAtMost(t, v)
  }

  /** If every xs[i] exceeds its partner ys[i] by at most d, so does every order statistic. */
  lemma Dominance(xs: seq<int>, ys: seq<int>, sx: seq<int>, sy: seq<int>, d: int)
    requires IsSorted(sx) && IsSorted(sy) && SameCounts(sx, xs) && SameCounts(sy, ys)
    requires Within(xs, ys, d)
    ensures Within(sx, sy, d)
  {
    forall j | 0 <= j < |sx|
      ensures sx[j] <= sy[j] + d
    {
      RankOfSorted(sy, j, sy[j]);
      CountOfDominated(xs, ys, d, sy[j]);
      RankOfSorted(sx, j, sy[j] + d);
    }
  }

  lemma SortedDominance(xs: seq<int>, ys: seq<int>, d: int)
    requires Within(xs, ys, d)
    ensures Within(Sort(xs), Sort(ys), d)
  {
    SameCountsWhenSorted(xs);
    SameCountsWhenSorted(ys);
    Dominance(xs, ys, Sort(xs), Sort(ys), d);
  }

  lemma SameCountsWhenSorted(s: seq<int>)
    ensures SameCounts(Sort(s), s)
  {
    forall v ensures CountAtMost(Sort(s), v) == CountAtMost(s, v) {
      CountOfSorted(s, v);
    }
  }

  lemma {:induction false} CountOfSorted(s: seq<int>, v: int)
    ensures CountAtMost(Sort(s), v) == CountAtMost(s, v)
  {
    if s != [] {
      CountOfSorted(s[1..], v);
      CountOfInsert(s[0], Sort(s[1..]), v);
    }
  }

  lemma {:induction false} CountOfInsert(x: int, s: seq<int>, v: int)
    ensures CountAtMost(Insert(x, s), v) == CountAtMost(s, v) + if x <= v then 1 else 0
  {
    if s == [] || x <= s[0] {
      assert ([x] + s)[1..] == s;
    } else {
      CountOfInsert(x, s[1..], v);
      assert ([s[0]] + Insert(x, s[1..]))[1..] == Insert(x, s[1..]);
    }
  }

  /** Sorting has one answer: any ascending rearrangement is the sorted sequence. */
  lemma {:induction false} SortIsUnique(s: seq<int>, t: seq<int>)
    requires IsSorted(s) && IsSorted(t) && multiset(s) == multiset(t)
    ensures s == t
    decreases |s|
  {
    SameSize(s, t);
    if s != [] {
      assert s[0] in multiset(t) && t[0] in multiset(s);
      assert s[0] == t[0];
      SplitFirst(s);
      SplitFirst(t);
      assert multiset(s[1..]) == multiset(s) - multiset{s[0]};
      assert multiset(t[1..]) == multiset(t) - multiset{t[0]};
      SortIsUnique(s[1..], t[1..]);
    }
  }

  function Sum(s: seq<int>): int {
    if s == [] then 0 else s[0] + Sum(s[1..])
  }

  lemma {:induction false} SumAppend(s: seq<int>, x: int)
    ensures Sum(s + [x]) == Sum(s) + x
  {
    if s == [] {
      assert Sum([x]) == x + Sum([]);
    } else {
      SumAppend(s[1..], x);
      assert (s + [x])[1..] == s[1..] + [x];
    }
  }

  lemma {:induction false} SumOfSorted(s: seq<int>)
    ensures Sum(Sort(s)) == Sum(s)
  {
    if s != [] {
      SumOfSorted(s[1..]);
      SumOfInsert(s[0], Sort(s[1..]));
    }
  }

  lemma {:induction false} SumOfInsert(x: int, s: seq<int>)
    ensures Sum(Insert(x, s)) == Sum(s) + x
  {
    if s == [] || x <= s[0] {
      assert ([x] + s)[1..] == s;
    } else {
      SumOfInsert(x, s[1..]);
      assert ([s[0]] + Insert(x, s[1..]))[1..] == Insert(x, s[1..]);
    }
  }

  lemma {:induction false} SumOfDominated(xs: seq<int>, ys: seq<int>)
    requires Within(xs, ys, 0)
    ensures Sum(xs) <= Sum(ys)
  {
    if xs != [] {
      SumOfDominated(xs[1..], ys[1..]);
    }
  }
}
