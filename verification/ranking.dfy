/** Rows of the leaderboard and the two sorts of src/main.rs: the stable
    `sort_by_key` on the (gold, silver, bronze) key followed by `rev()` in
    `create_table`, and the stable `sort_by(|a, b| b.1.cmp(&a.1))` of the
    test module. Both are modelled as a stable insertion sort driven by a
    Rust-style comparator. */
module Ranking {
  import opened MedalCounts

  /** One leaderboard row. `create_table`'s `(country, gold, silver, bronze)`
      and the test module's `(country, MedalCount)` are both this pair. */
  datatype Row = Row(country: string, count: MedalCount)

  /** The comparator of `sort_by_key(|e| (e.1, e.2, e.3))`: ascending key. */
  function ByKey(a: Row, b: Row): Ordering
  {
    Cmp(a.count, b.count)
  }

  /** The comparator `|a, b| b.1.cmp(&a.1)`: descending key. */
  function ByKeyReversed(a: Row, b: Row): Ordering
  {
    Cmp(b.count, a.count)
  }

  /** The comparator never calls both `a > b` and `b > a`. */
  ghost predicate Consistent(compare: (Row, Row) -> Ordering)
  {
    forall a, b :: compare(a, b) == Greater ==> compare(b, a) != Greater
  }

  /** No row compares greater than its successor. */
  ghost predicate Sorted(compare: (Row, Row) -> Ordering, s: seq<Row>)
  {
    forall i :: 0 <= i < |s| - 1 ==> compare(s[i], s[i + 1]) != Greater
  }

  /** No country occupies two rows. */
  predicate DistinctCountries(s: seq<Row>)
  {
    forall i, j :: 0 <= i < j < |s| ==> s[i].country != s[j].country
  }

  /** The countries that occupy a row. */
  function CountriesOf(s: seq<Row>): set<string>
  {
    set r | r in s :: r.country
  }

  /** Appending a row adds exactly its country. */
  lemma CountriesOfSnoc(s: seq<Row>, x: Row)
    ensures CountriesOf(s + [x]) == CountriesOf(s) + {x.country}
  {
    var both := s + [x];
    forall c | c in CountriesOf(both)
      ensures c in CountriesOf(s) + {x.country}
    {
      var w :| w in both && w.country == c;
      if w != x {
        assert w in s;
      }
    }
    forall c | c in CountriesOf(s)
      ensures c in CountriesOf(both)
    {
      var w :| w in s && w.country == c;
      assert w in both;
    }
    assert x in both;
  }

  /** Appending a row of a new country keeps the countries distinct. */
  lemma AppendDistinct(s: seq<Row>, x: Row)
    requires DistinctCountries(s)
    requires x.country !in CountriesOf(s)
    ensures DistinctCountries(s + [x])
  {
    var both := s + [x];
    forall i, j | 0 <= i < j < |both|
      ensures both[i].country != both[j].country
    {
      assert both[i] == s[i];
      if j < |s| {
        assert both[j] == s[j];
      } else {
        assert s[i] in s;
      }
    }
  }

  /** Both comparators of src/main.rs are consistent. */
  lemma ComparatorsConsistent()
    ensures Consistent(ByKey)
    ensures Consistent(ByKeyReversed)
  {
  }

  /** Rows that are permutations of each other hold the same rows. */
  lemma SameMembers(a: seq<Row>, b: seq<Row>)
    requires multiset(a) == multiset(b)
    ensures forall y :: y in a <==> y in b
  {
    forall y
      ensures y in a <==> y in b
    {
      assert y in a <==> y in multiset(a);
      assert y in b <==> y in multiset(b);
    }
  }

  /** One step of a stable insertion sort: `x` goes in front of the first
      row that compares greater than it, hence after every row equal to it. */
  function Insert(compare: (Row, Row) -> Ordering, x: Row, s: seq<Row>): (r: seq<Row>)
    ensures multiset(r) == multiset(s) + multiset{x}
    ensures |r| == |s| + 1
    ensures r[0] == x || (|s| > 0 && r[0] == s[0])
  {
    if s == [] then [x]
    else if compare(s[0], x) == Greater then [x] + s
    else
      assert s == [s[0]] + s[1..];
      [s[0]] + Insert(compare, x, s[1..])
  }

  /** Inserting into a sorted sequence keeps it sorted. */
  lemma {:induction false} InsertSorted(compare: (Row, Row) -> Ordering, x: Row, s: seq<Row>)
    requires Consistent(compare)
    requires Sorted(compare, s)
    ensures Sorted(compare, Insert(compare, x, s))
  {
    if s != [] && compare(s[0], x) != Greater {
      InsertSorted(compare, x, s[1..]);
    }
  }

  /** Inserting a row of a new country keeps the countries distinct. */
  lemma {:induction false} InsertDistinct(compare: (Row, Row) -> Ordering, x: Row, s: seq<Row>)
    requires DistinctCountries(s)
    requires forall i :: 0 <= i < |s| ==> s[i].country != x.country
    ensures DistinctCountries(Insert(compare, x, s))
  {
    if s != [] && compare(s[0], x) != Greater {
      var rest := Insert(compare, x, s[1..]);
      InsertDistinct(compare, x, s[1..]);
      SameMembers(rest, s[1..] + [x]);
      var r := [s[0]] + rest;
      forall i, j | 0 <= i < j < |r|
        ensures r[i].country != r[j].country
      {
        if i == 0 {
          assert r[j] in rest;
          assert r[j] == x || r[j] in s[1..];
        }
      }
    }
  }

  /** A stable sort by `compare`: the rows of `s`, rearranged. */
  function SortBy(compare: (Row, Row) -> Ordering, s: seq<Row>): (r: seq<Row>)
    ensures multiset(r) == multiset(s)
  {
    if s == [] then []
    else
      assert s == s[..|s| - 1] + [s[|s| - 1]];
      Insert(compare, s[|s| - 1], SortBy(compare, s[..|s| - 1]))
  }

  /** The sort leaves no row greater than its successor. */
  lemma {:induction false} SortBySorted(compare: (Row, Row) -> Ordering, s: seq<Row>)
    requires Consistent(compare)
    ensures Sorted(compare, SortBy(compare, s))
  {
    if s != [] {
      SortBySorted(compare, s[..|s| - 1]);
      InsertSorted(compare, s[|s| - 1], SortBy(compare, s[..|s| - 1]));
    }
  }

  /** The sort keeps the countries distinct. */
  lemma {:induction false} SortByDistinct(compare: (Row, Row) -> Ordering, s: seq<Row>)
    requires DistinctCountries(s)
    ensures DistinctCountries(SortBy(compare, s))
  {
    if s != [] {
      var init, last := s[..|s| - 1], s[|s| - 1];
      SortByDistinct(compare, init);
      var sorted := SortBy(compare, init);
      SameMembers(sorted, init);
      forall i | 0 <= i < |sorted|
        ensures sorted[i].country != last.country
      {
        assert sorted[i] in init;
      }
      InsertDistinct(compare, last, sorted);
    }
  }

  /** `into_iter().rev()`: the rows in the opposite order. */
  function Reverse(s: seq<Row>): (r: seq<Row>)
    ensures |r| == |s|
    ensures forall i :: 0 <= i < |s| ==> r[i] == s[|s| - 1 - i]
  {
    if s == [] then []
    else [s[|s| - 1]] + Reverse(s[..|s| - 1])
  }

  /** Reversal keeps the rows and their number of occurrences. */
  lemma {:induction false} ReversePermutes(s: seq<Row>)
    ensures multiset(Reverse(s)) == multiset(s)
  {
    if s != [] {
      var init, last := s[..|s| - 1], s[|s| - 1];
      ReversePermutes(init);
      assert s == init + [last];
    }
  }

  /** Reversing an ascending ranking gives a descending one, and keeps the
      countries distinct. */
  lemma ReverseAscending(s: seq<Row>)
    requires Sorted(ByKey, s)
    ensures Sorted(ByKeyReversed, Reverse(s))
    ensures DistinctCountries(s) ==> DistinctCountries(Reverse(s))
  {
    var r := Reverse(s);
    forall i | 0 <= i < |r| - 1
      ensures ByKeyReversed(r[i], r[i + 1]) != Greater
    {
      var k := |s| - 2 - i;
      assert r[i] == s[k + 1] && r[i + 1] == s[k];
    }
    if DistinctCountries(s) {
      forall i, j | 0 <= i < j < |r|
        ensures r[i].country != r[j].country
      {
        assert r[i] == s[|s| - 1 - i] && r[j] == s[|s| - 1 - j];
      }
    }
  }

  /** In a sorted sequence every earlier row, not just the adjacent one,
      is no greater than every later row (for the key comparators, whose
      underlying order is transitive). */
  lemma {:induction false} SortedDescendingPairwise(s: seq<Row>, i: int, j: int)
    requires Sorted(ByKeyReversed, s)
    requires 0 <= i <= j < |s|
    ensures AtMost(s[j].count, s[i].count)
    decreases j - i
  {
    if i < j {
      SortedDescendingPairwise(s, i + 1, j);
      AtMostTotalOrder(s[j].count, s[i + 1].count, s[i].count);
    } else {
      AtMostTotalOrder(s[i].count, s[i].count, s[i].count);
    }
  }
}
