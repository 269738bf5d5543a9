/** Ranking in `main` (src/main.rs): the valid missions are sorted in place by
    descending duration with the standard library's stable `sort_by`, and the
    vector is truncated to the `top` longest. */
module Ranking {
  import opened Missions

  /** Durations never increase along `ms`. */
  predicate ByDuration(ms: seq<Mission>) {
    forall i, j :: 0 <= i < j < |ms| ==> ms[i].duration >= ms[j].duration
  }

  /** Line numbers strictly increase along `ms`. */
  predicate InLineOrder(ms: seq<Mission>) {
    forall i, j :: 0 <= i < j < |ms| ==> ms[i].line_number < ms[j].line_number
  }

  /** Missions of equal duration appear in increasing line order. */
  predicate TiesInLineOrder(ms: seq<Mission>) {
    forall i, j :: 0 <= i < j < |ms| && ms[i].duration == ms[j].duration ==>
      ms[i].line_number < ms[j].line_number
  }

  /** The missions of `ms` lasting `d` days, in their order in `ms`. */
  function WithDuration(ms: seq<Mission>, d: nat): seq<Mission> {
    if ms == [] then []
    else WithDuration(ms[..|ms| - 1], d) + (if ms[|ms| - 1].duration == d then [ms[|ms| - 1]] else [])
  }

  /** `x` placed into `s` after every mission lasting at least as long as `x`:
      the comparator `b.duration.cmp(&a.duration)` moves `x` only past
      missions that are strictly shorter. */
  function Insert(s: seq<Mission>, x: Mission): (r: seq<Mission>)
    ensures |r| == |s| + 1
  {
    if s == [] || s[|s| - 1].duration >= x.duration then s + [x]
    else Insert(s[..|s| - 1], x) + [s[|s| - 1]]
  }

  /** `missions.sort_by(|a, b| b.duration.cmp(&a.duration))`: a stable sort
      by descending duration, defined as insertion of each mission in turn. */
  function SortedByDuration(s: seq<Mission>): (r: seq<Mission>)
    ensures |r| == |s|
  {
    if s == [] then [] else Insert(SortedByDuration(s[..|s| - 1]), s[|s| - 1])
  }

  function Min(a: nat, b: nat): nat {
    if a < b then a else b
  }

  /** The ranked missions `main` keeps: the sorted vector truncated to
      `top.min(len)`. */
  function Ranked(missions: seq<Mission>, top: nat): (r: seq<Mission>)
    ensures |r| == Min(top, |missions|)
  {
    SortedByDuration(missions)[..Min(top, |missions|)]
  }

  lemma {:induction false} InsertPermutes(s: seq<Mission>, x: Mission)
    ensures multiset(Insert(s, x)) == multiset(s) + multiset{x}
  {
    if s != [] && s[|s| - 1].duration < x.duration {
      var p := s[..|s| - 1];
      InsertPermutes(p, x);
      assert s == p + [s[|s| - 1]];
    }
  }

  /** Sorting only reorders the missions. */
  lemma {:induction false} SortPermutes(s: seq<Mission>)
    ensures multiset(SortedByDuration(s)) == multiset(s)
  {
    if s != [] {
      var p := s[..|s| - 1];
      SortPermutes(p);
      InsertPermutes(SortedByDuration(p), s[|s| - 1]);
      assert s == p + [s[|s| - 1]];
    }
  }

  /** Each position of `Insert(p, x)` holds `x` or a mission of `p`. */
  lemma InsertSource(p: seq<Mission>, x: Mission, i: nat) returns (k: int)
    requires i < |Insert(p, x)|
    ensures -1 <= k < |p|
    ensures k == -1 ==> Insert(p, x)[i] == x
    ensures k >= 0 ==> Insert(p, x)[i] == p[k]
  {
    InsertPermutes(p, x);
    var q := Insert(p, x);
    assert q[i] in multiset(p) + multiset{x};
    if q[i] == x {
      k := -1;
    } else {
      k :| 0 <= k < |p| && p[k] == q[i];
    }
  }

  lemma AppendKeepsOrder(q: seq<Mission>, last: Mission)
    requires ByDuration(q) && forall i :: 0 <= i < |q| ==> q[i].duration >= last.duration
    ensures ByDuration(q + [last])
  {
  }

  lemma {:induction false} InsertKeepsOrder(s: seq<Mission>, x: Mission)
    requires ByDuration(s)
    ensures ByDuration(Insert(s, x))
  {
    if s != [] && s[|s| - 1].duration < x.duration {
      var p := s[..|s| - 1];
      var last := s[|s| - 1];
      InsertKeepsOrder(p, x);
      var q := Insert(p, x);
      forall i | 0 <= i < |q| ensures q[i].duration >= last.duration {
        var k := InsertSource(p, x, i);
        if k >= 0 {
          assert s[k] == p[k];
        }
      }
      AppendKeepsOrder(q, last);
    }
  }

  /** The sorted missions have non-increasing durations. */
  lemma {:induction false} SortOrders(s: seq<Mission>)
    ensures ByDuration(SortedByDuration(s))
  {
    if s != [] {
      SortOrders(s[..|s| - 1]);
      InsertKeepsOrder(SortedByDuration(s[..|s| - 1]), s[|s| - 1]);
    }
  }

  lemma {:induction false} InsertIsStable(s: seq<Mission>, x: Mission, d: nat)
    ensures WithDuration(Insert(s, x), d) == WithDuration(s, d) + (if x.duration == d then [x] else [])
  {
    var r := Insert(s, x);
    if s == [] || s[|s| - 1].duration >= x.duration {
      assert r[..|r| - 1] == s;
    } else {
      var p := s[..|s| - 1];
      InsertIsStable(p, x, d);
      assert r[..|r| - 1] == Insert(p, x);
    }
  }

  /** Stability: for every duration, the missions of that duration come out
      of the sort in the order they went in. */
  lemma {:induction false} SortIsStable(s: seq<Mission>, d: nat)
    ensures WithDuration(SortedByDuration(s), d) == WithDuration(s, d)
  {
    if s != [] {
      var p := s[..|s| - 1];
      SortIsStable(p, d);
      InsertIsStable(SortedByDuration(p), s[|s| - 1], d);
    }
  }

  lemma AppendKeepsTies(q: seq<Mission>, last: Mission)
    requires TiesInLineOrder(q)
    requires forall i :: 0 <= i < |q| ==> q[i].duration != last.duration || q[i].line_number < last.line_number
    ensures TiesInLineOrder(q + [last])
  {
  }

  lemma {:induction false} InsertKeepsTies(s: seq<Mission>, x: Mission)
    requires ByDuration(s) && TiesInLineOrder(s)
    requires forall k :: 0 <= k < |s| ==> s[k].line_number < x.line_number
    ensures TiesInLineOrder(Insert(s, x))
  {
    if s != [] && s[|s| - 1].duration < x.duration {
      var p := s[..|s| - 1];
      var last := s[|s| - 1];
      InsertKeepsTies(p, x);
      var q := Insert(p, x);
      forall i | 0 <= i < |q| ensures q[i].duration != last.duration || q[i].line_number < last.line_number {
        var k := InsertSource(p, x, i);
        if k >= 0 {
          assert s[k] == p[k];
        }
      }
      AppendKeepsTies(q, last);
    }
  }

  /** Missions of equal duration taken in line order stay in line order. */
  lemma {:induction false} SortKeepsTiesInLineOrder(s: seq<Mission>)
    requires InLineOrder(s)
    ensures TiesInLineOrder(SortedByDuration(s))
  {
    if s != [] {
      var p := s[..|s| - 1];
      var x := s[|s| - 1];
      SortKeepsTiesInLineOrder(p);
      SortOrders(p);
      SortPermutes(p);
      var sp := SortedByDuration(p);
      forall k | 0 <= k < |sp| ensures sp[k].line_number < x.line_number {
        assert sp[k] in multiset(p);
        var m :| 0 <= m < |p| && p[m] == sp[k];
        assert s[m] == p[m];
      }
      InsertKeepsTies(sp, x);
    }
  }

  /** The source's own sorting case: durations 100, 500 and 300 come out
      as 500, 300 and 100. */
  lemma SortingExample(a: Mission, b: Mission, c: Mission)
    requires a.duration == 100 && b.duration == 500 && c.duration == 300
    ensures SortedByDuration([a, b, c]) == [b, c, a]
  {
    assert [a, b, c][..2] == [a, b] && [a, b][..1] == [a] && [a][..0] == [];
    assert SortedByDuration([a]) == [a];
    assert Insert([a], b) == Insert([], b) + [a] == [b, a];
    assert SortedByDuration([a, b]) == [b, a];
    assert [b, a][..1] == [b];
    assert Insert([b, a], c) == Insert([b], c) + [a] == [b, c, a];
  }

  /** The ranked missions come in non-increasing duration, and missions of
      equal duration keep their line order. */
  lemma RankedOrder(missions: seq<Mission>, top: nat)
    ensures ByDuration(Ranked(missions, top))
    ensures InLineOrder(missions) ==> TiesInLineOrder(Ranked(missions, top))
  {
    SortOrders(missions);
    if InLineOrder(missions) {
      SortKeepsTiesInLineOrder(missions);
    }
  }

  /** The ranked missions are a prefix of a reordering of the valid missions,
      so each of them is a valid mission. */
  lemma RankedPermutation(missions: seq<Mission>, top: nat)
    ensures Ranked(missions, top) <= SortedByDuration(missions)
    ensures multiset(SortedByDuration(missions)) == multiset(missions)
    ensures multiset(Ranked(missions, top)) <= multiset(missions)
  {
    var sorted := SortedByDuration(missions);
    var n := Min(top, |missions|);
    SortPermutes(missions);
    assert sorted == sorted[..n] + sorted[n..];
  }

  /** The ranking keeps the longest missions: no mission left out lasts
      longer than one kept. */
  lemma RankedAreLongest(missions: seq<Mission>, top: nat, m: Mission)
    requires m in multiset(missions) && m !in multiset(Ranked(missions, top))
    ensures forall k :: 0 <= k < |Ranked(missions, top)| ==> Ranked(missions, top)[k].duration >= m.duration
  {
    var sorted := SortedByDuration(missions);
    var n := Min(top, |missions|);
    SortOrders(missions);
    SortPermutes(missions);
    assert m in multiset(sorted);
    var j :| 0 <= j < |sorted| && sorted[j] == m;
    forall k | 0 <= k < n ensures sorted[k] != m {
      assert sorted[..n][k] == sorted[k];
    }
  }

  /** `Insert` places `x` right after the last mission lasting at least as
      long as `x`: when every mission from index `j` on is strictly shorter and
      the one before `j` is not, `x` lands at index `j`. */
  lemma {:induction false} InsertPlaces(s: seq<Mission>, j: nat, x: Mission)
    requires j <= |s| && (j == 0 || s[j - 1].duration >= x.duration)
    requires forall k :: j <= k < |s| ==> s[k].duration < x.duration
    ensures Insert(s, x) == s[..j] + [x] + s[j..]
  {
    if j < |s| {
      var p := s[..|s| - 1];
      assert p[..j] == s[..j];
      InsertPlaces(p, j, x);
      assert s[j..] == p[j..] + [s[|s| - 1]];
    }
  }

  /** The positions of `s` with `x` placed at index `j`. */
  lemma PlacedAt(s: seq<Mission>, j: nat, x: Mission)
    requires j <= |s|
    ensures var t := s[..j] + [x] + s[j..];
            && |t| == |s| + 1 && t[j] == x
            && (forall k :: 0 <= k < j ==> t[k] == s[k])
            && (forall k :: j < k <= |s| ==> t[k] == s[k - 1])
  {
    var t := s[..j] + [x] + s[j..];
    forall k | j < k <= |s| ensures t[k] == s[k - 1] {
      assert t[k] == s[j..][k - j - 1];
    }
  }

  /** Shift the missions of the sorted prefix `a[..i]` that are strictly
      shorter than `a[i]` one place right, and return the index left free. */
  method MakeRoom(a: array<Mission>, i: nat) returns (j: nat)
    requires i < a.Length
    modifies a
    ensures j <= i && (j == 0 || old(a[j - 1]).duration >= old(a[i]).duration)
    ensures forall k :: j <= k < i ==> old(a[k]).duration < old(a[i]).duration
    ensures forall k :: 0 <= k < j ==> a[k] == old(a[k])
    ensures forall k :: j < k <= i ==> a[k] == old(a[k - 1])
    ensures forall k :: i < k < a.Length ==> a[k] == old(a[k])
  {
    var x := a[i];
    j := i;
    while j > 0 && a[j - 1].duration < x.duration
      invariant 0 <= j <= i
      invariant forall k :: 0 <= k < j ==> a[k] == old(a[k])
      invariant forall k :: j < k <= i ==> a[k] == old(a[k - 1])
      invariant forall k :: j <= k < i ==> old(a[k]).duration < x.duration
      invariant forall k :: i < k < a.Length ==> a[k] == old(a[k])
      decreases j
    {
      a[j] := a[j - 1];
      j := j - 1;
    }
  }

  /** One step of the sort: `a[i]` moves left past the strictly shorter
      missions of the sorted prefix `a[..i]`, which shift one place right. */
  method InsertAt(a: array<Mission>, i: nat)
    requires i < a.Length
    modifies a
    ensures a[..i + 1] == Insert(old(a[..i]), old(a[i]))
    ensures a[i + 1..] == old(a[i + 1..])
  {
    ghost var sorted := a[..i];
    var x := a[i];
    var j := MakeRoom(a, i);
    a[j] := x;
    InsertPlaces(sorted, j, x);
    PlacedAt(sorted, j, x);
    assert a[..i + 1] == sorted[..j] + [x] + sorted[j..];
  }

  /** `sort_by` in place on the vector: an insertion sort. */
  method SortByDuration(a: array<Mission>)
    modifies a
    ensures a[..] == SortedByDuration(old(a[..]))
  {
    ghost var input := a[..];
    for i := 0 to a.Length
      invariant a[..i] == SortedByDuration(input[..i])
      invariant a[i..] == input[i..]
    {
      assert input[..i + 1][..i] == input[..i];
      InsertAt(a, i);
    }
    assert input[..a.Length] == input;
  }

  /** Sort a copy of the valid missions in place and truncate it to
      `top.min(len)`; `top == 0` keeps nothing. */
  method RankMissions(missions: seq<Mission>, top: nat) returns (ranked: seq<Mission>)
    ensures ranked == Ranked(missions, top)
    ensures |ranked| == Min(top, |missions|) && ByDuration(ranked)
    ensures multiset(ranked) <= multiset(missions)
  {
    var a := new Mission[|missions|](i requires 0 <= i < |missions| => missions[i]);
    assert a[..] == missions;
    SortByDuration(a);
    var n := if top < a.Length then top else a.Length;
    ranked := a[..n];
    RankedOrder(missions, top);
    RankedPermutation(missions, top);
  }
}
