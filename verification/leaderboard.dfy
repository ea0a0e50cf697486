/** What a ranked leaderboard of a list of medals is, independently of how
    it is computed, and the facts that follow for every such leaderboard:
    conservation of medals, non-empty rows, uniqueness up to the order of
    ties, and the prefix taken for the top of the table. */
module Leaderboard {
  import opened Medals
  import opened MedalCounts
  import opened Ranking

  /** Every row carries its country's reference tally. */
  predicate CorrectCounts(ms: seq<Medal>, t: seq<Row>)
  {
    forall r :: r in t ==> r.count == TallyOf(ms, r.country)
  }

  /** Appending a correct row keeps every row correct. */
  lemma AppendCorrect(ms: seq<Medal>, t: seq<Row>, x: Row)
    requires CorrectCounts(ms, t)
    requires x.count == TallyOf(ms, x.country)
    ensures CorrectCounts(ms, t + [x])
  {
    forall r | r in t + [x]
      ensures r.count == TallyOf(ms, r.country)
    {
      if r != x {
        assert r in t;
      }
    }
  }

  /** No row's (gold, silver, bronze) is lexicographically below its
      successor's. */
  predicate Descending(t: seq<Row>)
  {
    forall i :: 0 <= i < |t| - 1 ==> AtMost(t[i + 1].count, t[i].count)
  }

  /** `t` is a ranked medal table of `ms`: one row per medal-winning
      country, correct counts, best first. The order among rows with equal
      triples is left open. */
  predicate IsLeaderboard(ms: seq<Medal>, t: seq<Row>)
  {
    && CorrectCounts(ms, t)
    && DistinctCountries(t)
    && CountriesOf(t) == Countries(ms)
    && Descending(t)
  }

  /** The rows a tally loop has built so far: one correct row for each
      country visited. */
  predicate PartialTally(ms: seq<Medal>, rows: seq<Row>, visited: set<string>)
  {
    && CorrectCounts(ms, rows)
    && DistinctCountries(rows)
    && CountriesOf(rows) == visited
  }

  /** Emitting a correct row for one more country extends the tally. */
  lemma PartialTallyStep(ms: seq<Medal>, rows: seq<Row>, visited: set<string>, row: Row)
    requires PartialTally(ms, rows, visited)
    requires row.country !in visited
    requires row.count == TallyOf(ms, row.country)
    ensures PartialTally(ms, rows + [row], visited + {row.country})
  {
    AppendDistinct(rows, row);
    CountriesOfSnoc(rows, row);
    AppendCorrect(ms, rows, row);
  }

  /** One iteration of a tally loop over the countries `keys`: emitting the
      correct row of a still pending country moves it to the visited ones. */
  lemma VisitStep(ms: seq<Medal>, rows: seq<Row>, keys: set<string>, pending: set<string>, row: Row)
    requires pending <= keys
    requires row.country in pending
    requires PartialTally(ms, rows, keys - pending)
    requires row.count == TallyOf(ms, row.country)
    ensures PartialTally(ms, rows + [row], keys - (pending - {row.country}))
  {
    PartialTallyStep(ms, rows, keys - pending, row);
    assert (keys - pending) + {row.country} == keys - (pending - {row.country});
  }

  /** Sorting by the reversed key comparator is exactly being descending. */
  lemma DescendingIsSortedReversed(t: seq<Row>)
    ensures Descending(t) <==> Sorted(ByKeyReversed, t)
  {
  }

  /** The number of medals the rows account for. */
  function Total(t: seq<Row>): nat
  {
    if t == [] then 0 else t[0].count.Total() + Total(t[1..])
  }

  /** The number of input medals credited to the countries of `t`. */
  function GroupSizes(t: seq<Row>, ms: seq<Medal>): nat
  {
    if t == [] then 0 else |OfCountry(ms, t[0].country)| + GroupSizes(t[1..], ms)
  }

  /** A row's medal total is the size of its country's group. */
  lemma {:induction false} TotalIsGroupSizes(ms: seq<Medal>, t: seq<Row>)
    requires CorrectCounts(ms, t)
    ensures Total(t) == GroupSizes(t, ms)
  {
    if t != [] {
      assert t[0] in t;
      TallySize(ms, t[0].country);
      assert CorrectCounts(ms, t[1..]) by {
        forall r | r in t[1..] ensures r.count == TallyOf(ms, r.country) {
          assert r in t;
        }
      }
      TotalIsGroupSizes(ms, t[1..]);
    }
  }

  /** With no medals, every group is empty. */
  lemma {:induction false} GroupSizesEmpty(t: seq<Row>)
    ensures GroupSizes(t, []) == 0
  {
    if t != [] {
      GroupSizesEmpty(t[1..]);
    }
  }

  /** One more medal adds one to the group sizes if its country has a row
      (and the countries are distinct, so it is counted once). */
  lemma {:induction false} GroupSizesSnoc(t: seq<Row>, ms: seq<Medal>, m: Medal)
    requires DistinctCountries(t)
    ensures GroupSizes(t, ms + [m]) == GroupSizes(t, ms) + (if m.country in CountriesOf(t) then 1 else 0)
  {
    if t != [] {
      var rest := t[1..];
      assert DistinctCountries(rest) by {
        forall i, j | 0 <= i < j < |rest| ensures rest[i].country != rest[j].country {
          assert rest[i] == t[i + 1] && rest[j] == t[j + 1];
        }
      }
      GroupSizesSnoc(rest, ms, m);
      assert (ms + [m])[..|ms|] == ms;
      assert CountriesOf(t) == {t[0].country} + CountriesOf(rest) by {
        assert t == [t[0]] + rest;
      }
      if m.country == t[0].country {
        forall w | w in rest
          ensures w.country != m.country
        {
          var k :| 0 <= k < |rest| && rest[k] == w;
          assert t[k + 1] == w;
        }
      }
    }
  }

  /** Rows for distinct countries that cover every medal's country account
      for every medal exactly once. */
  lemma {:induction false} GroupSizesCover(t: seq<Row>, ms: seq<Medal>)
    requires DistinctCountries(t)
    requires Countries(ms) <= CountriesOf(t)
    ensures GroupSizes(t, ms) == |ms|
  {
    if ms == [] {
      GroupSizesEmpty(t);
    } else {
      var init, last := ms[..|ms| - 1], ms[|ms| - 1];
      assert ms == init + [last];
      CountriesSnoc(init, last);
      GroupSizesCover(t, init);
      GroupSizesSnoc(t, init, last);
    }
  }

  /** Conservation: the rows of a leaderboard account for every input
      medal, no more and no fewer. */
  lemma Conservation(ms: seq<Medal>, t: seq<Row>)
    requires IsLeaderboard(ms, t)
    ensures Total(t) == |ms|
  {
    TotalIsGroupSizes(ms, t);
    GroupSizesCover(t, ms);
  }

  /** A row exists only for a country that won something. */
  lemma RowsNonEmpty(ms: seq<Medal>, t: seq<Row>)
    requires IsLeaderboard(ms, t)
    ensures forall r :: r in t ==> r.count.Total() >= 1
  {
    forall r | r in t
      ensures r.count.Total() >= 1
    {
      assert r.country in CountriesOf(t);
      TallyZero(ms, r.country);
    }
  }

  /** No medals, no rows. */
  lemma EmptyInput(t: seq<Row>)
    requires IsLeaderboard([], t)
    ensures t == []
  {
    assert Countries([]) == {};
    assert |t| > 0 ==> t[0].country in CountriesOf(t);
  }

  /** The rows of a leaderboard are exactly the medal-winning countries
      with their tallies. */
  lemma LeaderboardRows(ms: seq<Medal>, t: seq<Row>)
    requires IsLeaderboard(ms, t)
    ensures forall r :: r in t <==> r.country in Countries(ms) && r.count == TallyOf(ms, r.country)
  {
    forall r: Row | r.country in Countries(ms) && r.count == TallyOf(ms, r.country)
      ensures r in t
    {
      assert r.country in CountriesOf(t);
      var w :| w in t && w.country == r.country;
    }
  }

  /** In a sequence of distinct countries every row occurs once. */
  lemma {:induction false} DistinctOccursOnce(t: seq<Row>)
    requires DistinctCountries(t)
    ensures forall r :: multiset(t)[r] == if r in t then 1 else 0
  {
    if t != [] {
      var rest := t[1..];
      assert t == [t[0]] + rest;
      assert DistinctCountries(rest) by {
        forall i, j | 0 <= i < j < |rest| ensures rest[i].country != rest[j].country {
          assert rest[i] == t[i + 1] && rest[j] == t[j + 1];
        }
      }
      DistinctOccursOnce(rest);
      forall w | w in rest
        ensures w.country != t[0].country
      {
        var k :| 0 <= k < |rest| && rest[k] == w;
        assert t[k + 1] == w;
      }
    }
  }

  /** Two leaderboards of the same medals hold the same rows: they can
      differ only in the order of rows with equal triples. */
  lemma LeaderboardsArePermutations(ms: seq<Medal>, t1: seq<Row>, t2: seq<Row>)
    requires IsLeaderboard(ms, t1)
    requires IsLeaderboard(ms, t2)
    ensures multiset(t1) == multiset(t2)
  {
    LeaderboardRows(ms, t1);
    LeaderboardRows(ms, t2);
    DistinctOccursOnce(t1);
    DistinctOccursOnce(t2);
    assert forall r :: multiset(t1)[r] == multiset(t2)[r];
  }

  /** A country with a strictly better triple is ranked strictly higher. */
  lemma BetterRanksHigher(ms: seq<Medal>, t: seq<Row>, i: int, j: int)
    requires IsLeaderboard(ms, t)
    requires 0 <= i < |t| && 0 <= j < |t|
    requires !AtMost(t[i].count, t[j].count)
    ensures i < j
  {
    if j <= i {
      SortedDescendingPairwise(t, j, i);
    }
  }

  /** `take(n)`: the first `min(n, |s|)` elements. */
  function Take<T>(s: seq<T>, n: nat): (r: seq<T>)
    ensures |r| == if n < |s| then n else |s|
    ensures forall i :: 0 <= i < |r| ==> r[i] == s[i]
  {
    if n < |s| then s[..n] else s
  }

  /** The top of a leaderboard is itself ranked: its rows keep their
      counts, stay distinct and stay in descending order. */
  lemma TakeRanked(ms: seq<Medal>, t: seq<Row>, n: nat)
    requires IsLeaderboard(ms, t)
    ensures CorrectCounts(ms, Take(t, n))
    ensures DistinctCountries(Take(t, n))
    ensures Descending(Take(t, n))
    ensures CountriesOf(Take(t, n)) <= Countries(ms)
  {
    var top := Take(t, n);
    forall r | r in top
      ensures r in t
    {
      var k :| 0 <= k < |top| && top[k] == r;
      assert t[k] == r;
    }
  }
}
