/** `sorted(triggers, key=lambda t: trigger_counts.get(t['triggerid'], 0), reverse=True)`:
    the trigger details ordered by descending incident count, ids missing from
    the count map counting as 0. Python's sort is stable also with
    `reverse=True`, so records with equal counts keep their input order.

    `SortDesc` is the specification (insertion of each record, in input order,
    after every record whose count is at least its own); `SortByCount` computes
    it with loops; `IsStableSortDesc` is an independent characterisation of a
    stable descending sort, which `SortDesc` meets and which determines the
    output uniquely. */
module Sorting {
  import opened Remote

  /** `trigger_counts.get(triggerid, 0)`. */
  function CountOf(counts: map<string, int>, triggerid: string): int {
    if triggerid in counts then counts[triggerid] else 0
  }

  /** The sort key of a record. */
  function Count(counts: map<string, int>, t: TriggerDetail): int {
    CountOf(counts, t.triggerid)
  }

  ghost predicate SortedDesc(counts: map<string, int>, s: seq<TriggerDetail>) {
    forall i, j :: 0 <= i < j < |s| ==> Count(counts, s[i]) >= Count(counts, s[j])
  }

  /** The records of `s` whose count is `c`, in their order in `s`. */
  function WithCount(counts: map<string, int>, s: seq<TriggerDetail>, c: int): seq<TriggerDetail> {
    if s == [] then []
    else (if Count(counts, s[0]) == c then [s[0]] else []) + WithCount(counts, s[1..], c)
  }

  /** `output` is `input` sorted by descending count, and for every count the
      records having it appear in `output` in the same order as in `input`. */
  ghost predicate IsStableSortDesc(counts: map<string, int>, input: seq<TriggerDetail>, output: seq<TriggerDetail>) {
    && SortedDesc(counts, output)
    && forall c :: WithCount(counts, output, c) == WithCount(counts, input, c)
  }

  /** Inserts `t` after the leading records whose count is at least its own. */
  function InsertDesc(counts: map<string, int>, s: seq<TriggerDetail>, t: TriggerDetail): seq<TriggerDetail> {
    if s == [] then [t]
    else if Count(counts, s[0]) >= Count(counts, t) then [s[0]] + InsertDesc(counts, s[1..], t)
    else [t] + s
  }

  /** Stable insertion sort, records taken in input order. */
  function SortDesc(counts: map<string, int>, s: seq<TriggerDetail>): seq<TriggerDetail> {
    if s == [] then [] else InsertDesc(counts, SortDesc(counts, s[..|s| - 1]), s[|s| - 1])
  }

  lemma {:induction false} WithCountAppend(counts: map<string, int>, a: seq<TriggerDetail>, b: seq<TriggerDetail>, c: int)
    ensures WithCount(counts, a + b, c) == WithCount(counts, a, c) + WithCount(counts, b, c)
  {
    if a == [] {
      assert a + b == b;
    } else {
      var head := if Count(counts, a[0]) == c then [a[0]] else [];
      assert (a + b)[0] == a[0];
      assert (a + b)[1..] == a[1..] + b;
      WithCountAppend(counts, a[1..], b, c);
      calc {
        WithCount(counts, a + b, c);
        head + WithCount(counts, a[1..] + b, c);
        head + (WithCount(counts, a[1..], c) + WithCount(counts, b, c));
        (head + WithCount(counts, a[1..], c)) + WithCount(counts, b, c);
      }
    }
  }

  lemma {:induction false} WithCountMembers(counts: map<string, int>, s: seq<TriggerDetail>, c: int, x: TriggerDetail)
    ensures x in WithCount(counts, s, c) <==> x in s && Count(counts, x) == c
  {
    if s != [] {
      WithCountMembers(counts, s[1..], c, x);
      assert s == [s[0]] + s[1..];
    }
  }

  lemma {:induction false} WithCountAbsent(counts: map<string, int>, s: seq<TriggerDetail>, c: int)
    requires forall i :: 0 <= i < |s| ==> Count(counts, s[i]) != c
    ensures WithCount(counts, s, c) == []
  {
    if s != [] {
      WithCountAbsent(counts, s[1..], c);
    }
  }

  /** Every record of `s` has a count of at most `m`. */
  ghost predicate AtMost(counts: map<string, int>, s: seq<TriggerDetail>, m: int) {
    forall j :: 0 <= j < |s| ==> Count(counts, s[j]) <= m
  }

  lemma SortedCons(counts: map<string, int>, x: TriggerDetail, s: seq<TriggerDetail>)
    requires SortedDesc(counts, s) && AtMost(counts, s, Count(counts, x))
    ensures SortedDesc(counts, [x] + s)
  {
    var r := [x] + s;
    forall i, j | 0 <= i < j < |r|
      ensures Count(counts, r[i]) >= Count(counts, r[j])
    {
      assert r[j] == s[j - 1];
      if i > 0 {
        assert r[i] == s[i - 1];
      }
    }
  }

  lemma SortedTail(counts: map<string, int>, s: seq<TriggerDetail>)
    requires s != [] && SortedDesc(counts, s)
    ensures SortedDesc(counts, s[1..]) && AtMost(counts, s, Count(counts, s[0]))
  {
    forall j | 0 < j < |s|
      ensures Count(counts, s[j]) <= Count(counts, s[0])
    {
    }
  }

  lemma {:induction false} InsertDescAtMost(counts: map<string, int>, s: seq<TriggerDetail>, t: TriggerDetail, m: int)
    requires AtMost(counts, s, m) && Count(counts, t) <= m
    ensures AtMost(counts, InsertDesc(counts, s, t), m)
  {
    if s != [] && Count(counts, s[0]) >= Count(counts, t) {
      InsertDescAtMost(counts, s[1..], t, m);
    }
  }

  lemma {:induction false} InsertDescSorted(counts: map<string, int>, s: seq<TriggerDetail>, t: TriggerDetail)
    requires SortedDesc(counts, s)
    ensures SortedDesc(counts, InsertDesc(counts, s, t))
  {
    if s == [] {
    } else if Count(counts, s[0]) >= Count(counts, t) {
      SortedTail(counts, s);
      InsertDescSorted(counts, s[1..], t);
      InsertDescAtMost(counts, s[1..], t, Count(counts, s[0]));
      SortedCons(counts, s[0], InsertDesc(counts, s[1..], t));
    } else {
      SortedTail(counts, s);
      SortedCons(counts, t, s);
    }
  }

  lemma {:induction false} InsertDescMultiset(counts: map<string, int>, s: seq<TriggerDetail>, t: TriggerDetail)
    ensures multiset(InsertDesc(counts, s, t)) == multiset(s) + multiset{t}
  {
    if s != [] && Count(counts, s[0]) >= Count(counts, t) {
      var rest := InsertDesc(counts, s[1..], t);
      assert multiset(rest) == multiset(s[1..]) + multiset{t} by {
        InsertDescMultiset(counts, s[1..], t);
      }
      assert InsertDesc(counts, s, t) == [s[0]] + rest;
      assert multiset(s) == multiset{s[0]} + multiset(s[1..]) by {
        assert s == [s[0]] + s[1..];
      }
    } else if s != [] {
      assert InsertDesc(counts, s, t) == [t] + s;
    }
  }

  lemma {:induction false} InsertDescWithCount(counts: map<string, int>, s: seq<TriggerDetail>, t: TriggerDetail, c: int)
    requires SortedDesc(counts, s)
    ensures WithCount(counts, InsertDesc(counts, s, t), c) ==
            WithCount(counts, s, c) + (if Count(counts, t) == c then [t] else [])
  {
    if s == [] {
      assert WithCount(counts, [t], c) == (if Count(counts, t) == c then [t] else []) + WithCount(counts, [], c);
    } else if Count(counts, s[0]) >= Count(counts, t) {
      SortedTail(counts, s);
      InsertDescWithCount(counts, s[1..], t, c);
      InsertDescBehind(counts, s, t, c);
    } else {
      InsertDescAhead(counts, s, t, c);
    }
  }

  /** A record whose count does not exceed the head's goes into the tail. */
  lemma InsertDescBehind(counts: map<string, int>, s: seq<TriggerDetail>, t: TriggerDetail, c: int)
    requires s != [] && Count(counts, s[0]) >= Count(counts, t)
    requires WithCount(counts, InsertDesc(counts, s[1..], t), c) ==
             WithCount(counts, s[1..], c) + (if Count(counts, t) == c then [t] else [])
    ensures WithCount(counts, InsertDesc(counts, s, t), c) ==
            WithCount(counts, s, c) + (if Count(counts, t) == c then [t] else [])
  {
    var mine := if Count(counts, t) == c then [t] else [];
    var rest := InsertDesc(counts, s[1..], t);
    var head := if Count(counts, s[0]) == c then [s[0]] else [];
    assert InsertDesc(counts, s, t) == [s[0]] + rest;
    assert ([s[0]] + rest)[1..] == rest;
    calc {
      WithCount(counts, InsertDesc(counts, s, t), c);
      head + WithCount(counts, rest, c);
      head + (WithCount(counts, s[1..], c) + mine);
      (head + WithCount(counts, s[1..], c)) + mine;
      WithCount(counts, s, c) + mine;
    }
  }

  /** A record with a larger count than the head of a sorted list goes in front. */
  lemma InsertDescAhead(counts: map<string, int>, s: seq<TriggerDetail>, t: TriggerDetail, c: int)
    requires SortedDesc(counts, s) && s != [] && Count(counts, s[0]) < Count(counts, t)
    ensures WithCount(counts, InsertDesc(counts, s, t), c) ==
            WithCount(counts, s, c) + (if Count(counts, t) == c then [t] else [])
  {
    assert InsertDesc(counts, s, t) == [t] + s;
    WithCountAppend(counts, [t], s, c);
    assert WithCount(counts, [t], c) == (if Count(counts, t) == c then [t] else []) + WithCount(counts, [], c);
    if Count(counts, t) == c {
      SortedTail(counts, s);
      WithCountAbsent(counts, s, c);
    }
  }

  lemma {:induction false} SortDescSorted(counts: map<string, int>, s: seq<TriggerDetail>)
    ensures SortedDesc(counts, SortDesc(counts, s))
  {
    if s != [] {
      SortDescSorted(counts, s[..|s| - 1]);
      InsertDescSorted(counts, SortDesc(counts, s[..|s| - 1]), s[|s| - 1]);
    }
  }

  lemma {:induction false} SortDescPermutation(counts: map<string, int>, s: seq<TriggerDetail>)
    ensures multiset(SortDesc(counts, s)) == multiset(s)
  {
    if s != [] {
      var init, last := s[..|s| - 1], s[|s| - 1];
      SortDescPermutation(counts, init);
      InsertDescMultiset(counts, SortDesc(counts, init), last);
      assert s == init + [last];
      calc {
        multiset(SortDesc(counts, s));
        multiset(InsertDesc(counts, SortDesc(counts, init), last));
        multiset(SortDesc(counts, init)) + multiset{last};
        multiset(init) + multiset{last};
        multiset(init + [last]);
      }
    }
  }

  lemma {:induction false} SortDescStable(counts: map<string, int>, s: seq<TriggerDetail>, c: int)
    ensures WithCount(counts, SortDesc(counts, s), c) == WithCount(counts, s, c)
  {
    if s != [] {
      var init, last := s[..|s| - 1], s[|s| - 1];
      SortDescStable(counts, init, c);
      SortDescSorted(counts, init);
      InsertDescWithCount(counts, SortDesc(counts, init), last, c);
      WithCountAppend(counts, init, [last], c);
      assert WithCount(counts, [last], c) == (if Count(counts, last) == c then [last] else []) + WithCount(counts, [], c);
      assert s == init + [last];
    }
  }

  /** The specification sort is a permutation, sorted by descending count, and stable. */
  lemma SortDescIsStableSort(counts: map<string, int>, s: seq<TriggerDetail>)
    ensures IsStableSortDesc(counts, s, SortDesc(counts, s))
    ensures multiset(SortDesc(counts, s)) == multiset(s)
  {
    SortDescSorted(counts, s);
    SortDescPermutation(counts, s);
    forall c
      ensures WithCount(counts, SortDesc(counts, s), c) == WithCount(counts, s, c)
    {
      SortDescStable(counts, s, c);
    }
  }

  /** A list with no record of any count is empty. */
  lemma NoCountsEmpty(counts: map<string, int>, s: seq<TriggerDetail>)
    requires forall c :: WithCount(counts, s, c) == []
    ensures s == []
  {
    if s != [] {
      WithCountMembers(counts, s, Count(counts, s[0]), s[0]);
    }
  }

  /** Two sorted lists with the same per-count order start with the same
      record, and their tails again have the same per-count order. */
  lemma SameHead(counts: map<string, int>, a: seq<TriggerDetail>, b: seq<TriggerDetail>)
    requires a != [] && b != []
    requires SortedDesc(counts, a) && SortedDesc(counts, b)
    requires forall c :: WithCount(counts, a, c) == WithCount(counts, b, c)
    ensures a[0] == b[0]
    ensures forall c :: WithCount(counts, a[1..], c) == WithCount(counts, b[1..], c)
  {
    var ca, cb := Count(counts, a[0]), Count(counts, b[0]);
    // the largest count of each list occurs in the other one
    WithCountMembers(counts, a, ca, a[0]);
    WithCountMembers(counts, b, ca, a[0]);
    WithCountMembers(counts, b, cb, b[0]);
    WithCountMembers(counts, a, cb, b[0]);
    assert ca == cb;
    assert WithCount(counts, a, ca) == [a[0]] + WithCount(counts, a[1..], ca);
    assert WithCount(counts, b, ca) == [b[0]] + WithCount(counts, b[1..], ca);
    assert a[0] == WithCount(counts, a, ca)[0] == WithCount(counts, b, ca)[0] == b[0];
    forall c
      ensures WithCount(counts, a[1..], c) == WithCount(counts, b[1..], c)
    {
      var head := if ca == c then [a[0]] else [];
      assert WithCount(counts, a, c) == head + WithCount(counts, a[1..], c);
      assert WithCount(counts, b, c) == head + WithCount(counts, b[1..], c);
      assert WithCount(counts, a[1..], c) == WithCount(counts, a, c)[|head|..];
      assert WithCount(counts, b[1..], c) == WithCount(counts, b, c)[|head|..];
    }
  }

  /** Sortedness and per-count order pin the output down: there is only one
      stable descending sort of a list. */
  lemma {:induction false} StableSortUnique(counts: map<string, int>, a: seq<TriggerDetail>, b: seq<TriggerDetail>)
    requires SortedDesc(counts, a) && SortedDesc(counts, b)
    requires forall c :: WithCount(counts, a, c) == WithCount(counts, b, c)
    ensures a == b
    decreases |a|
  {
    if a == [] {
      NoCountsEmpty(counts, b);
    } else if b == [] {
      NoCountsEmpty(counts, a);
    } else {
      SameHead(counts, a, b);
      SortedTail(counts, a);
      SortedTail(counts, b);
      StableSortUnique(counts, a[1..], b[1..]);
      assert a == [a[0]] + a[1..] && b == [b[0]] + b[1..];
    }
  }

  /** Any stable descending sort of `s` is the specification sort, hence a permutation of `s`. */
  lemma StableSortIsSortDesc(counts: map<string, int>, s: seq<TriggerDetail>, output: seq<TriggerDetail>)
    requires IsStableSortDesc(counts, s, output)
    ensures output == SortDesc(counts, s)
    ensures multiset(output) == multiset(s)
  {
    SortDescIsStableSort(counts, s);
    StableSortUnique(counts, output, SortDesc(counts, s));
  }

  /** Inserting at the first position whose count is below the new record's. */
  lemma {:induction false} InsertDescAt(counts: map<string, int>, s: seq<TriggerDetail>, t: TriggerDetail, p: nat)
    requires p <= |s|
    requires forall j :: 0 <= j < p ==> Count(counts, s[j]) >= Count(counts, t)
    requires p < |s| ==> Count(counts, s[p]) < Count(counts, t)
    ensures InsertDesc(counts, s, t) == s[..p] + [t] + s[p..]
  {
    if p > 0 {
      InsertDescAt(counts, s[1..], t, p - 1);
      assert s[..p] == [s[0]] + s[1..][..p - 1];
      assert s[p..] == s[1..][p - 1..];
    }
  }

  /** A loop-based stable insertion sort: each record in turn is inserted into
      the sorted prefix after the scan that finds its place. By
      `StableSortUnique` it returns what any stable descending sort returns. */
  method SortByCount(counts: map<string, int>, triggers: seq<TriggerDetail>) returns (sorted: seq<TriggerDetail>)
    ensures sorted == SortDesc(counts, triggers)
    ensures IsStableSortDesc(counts, triggers, sorted)
    ensures multiset(sorted) == multiset(triggers)
  {
    sorted := [];
    for i := 0 to |triggers|
      invariant sorted == SortDesc(counts, triggers[..i])
    {
      var t := triggers[i];
      var c := CountOf(counts, t.triggerid);
      var p := 0;
      while p < |sorted| && CountOf(counts, sorted[p].triggerid) >= c
        invariant 0 <= p <= |sorted|
        invariant forall j :: 0 <= j < p ==> Count(counts, sorted[j]) >= c
      {
        p := p + 1;
      }
      InsertDescAt(counts, sorted, t, p);
      assert triggers[..i + 1][..i] == triggers[..i];
      sorted := sorted[..p] + [t] + sorted[p..];
    }
    assert triggers[..|triggers|] == triggers;
    SortDescIsStableSort(counts, triggers);
  }
}
