/** The alternative pipeline of the test module of src/main.rs
    (`AthleticsDb::get_medals_per_country`): fold the (class, country)
    pairs into a map of `MedalCount`s through `IndexMut`, then sort the
    entries with `sort_by(|a, b| b.1.cmp(&a.1))`. */
module PerCountry {
  import opened Medals
  import opened MedalCounts
  import opened Ranking
  import opened Leaderboard

  /** `acc` holds exactly the reference tallies of the medals `ms`. */
  predicate TallyMap(ms: seq<Medal>, acc: map<string, MedalCount>)
  {
    && acc.Keys == Countries(ms)
    && forall c :: c in acc ==> acc[c] == TallyOf(ms, c)
  }

  /** The `group_by_country` closure: `acc.entry(country).or_insert(default)[class] += 1`. */
  function GroupStep(acc: map<string, MedalCount>, m: Medal): map<string, MedalCount>
  {
    acc[m.country := Bump(if m.country in acc then acc[m.country] else Zero, m.kind)]
  }

  /** The closure adds the last medal's country to the keys, if it was new. */
  lemma GroupStepKeys(ms: seq<Medal>, acc: map<string, MedalCount>)
    requires ms != []
    requires acc.Keys == Countries(ms[..|ms| - 1])
    ensures GroupStep(acc, ms[|ms| - 1]).Keys == Countries(ms)
  {
    CountriesLast(ms);
  }

  /** The closure turns each country's tally over all but the last medal
      into its tally over all of them. */
  lemma GroupStepValue(ms: seq<Medal>, acc: map<string, MedalCount>, c: string)
    requires ms != []
    requires TallyMap(ms[..|ms| - 1], acc)
    requires c in GroupStep(acc, ms[|ms| - 1])
    ensures GroupStep(acc, ms[|ms| - 1])[c] == TallyOf(ms, c)
  {
    var m := ms[|ms| - 1];
    TallyLast(ms, c);
    if c == m.country {
      TallyZero(ms[..|ms| - 1], c);
    }
  }

  /** The closure extends the tallies of all but the last medal to the
      tallies of all of them. */
  lemma GroupStepTallies(ms: seq<Medal>, acc: map<string, MedalCount>)
    requires ms != []
    requires TallyMap(ms[..|ms| - 1], acc)
    ensures TallyMap(ms, GroupStep(acc, ms[|ms| - 1]))
  {
    GroupStepKeys(ms, acc);
    forall c | c in GroupStep(acc, ms[|ms| - 1])
      ensures GroupStep(acc, ms[|ms| - 1])[c] == TallyOf(ms, c)
    {
      GroupStepValue(ms, acc, c);
    }
  }

  /** The `fold(HashMap::new(), group_by_country)` over the (class, country)
      pairs. Its keys are the medal-winning countries and each value is
      that country's reference tally. */
  function GroupByCountry(ms: seq<Medal>): (acc: map<string, MedalCount>)
    ensures acc.Keys == Countries(ms)
    ensures forall c :: c in acc ==> acc[c] == TallyOf(ms, c)
  {
    if ms == [] then map[]
    else
      var init, m := ms[..|ms| - 1], ms[|ms| - 1];
      var acc := GroupByCountry(init);
      GroupStepTallies(ms, acc);
      GroupStep(acc, m)
  }

  /** Sorting a correct tally with the descending comparator gives a
      leaderboard holding the same rows. */
  lemma RankTallyDescending(ms: seq<Medal>, rows: seq<Row>)
    requires PartialTally(ms, rows, Countries(ms))
    ensures IsLeaderboard(ms, SortBy(ByKeyReversed, rows))
    ensures multiset(SortBy(ByKeyReversed, rows)) == multiset(rows)
  {
    ComparatorsConsistent();
    var sorted := SortBy(ByKeyReversed, rows);
    SortBySorted(ByKeyReversed, rows);
    SortByDistinct(ByKeyReversed, rows);
    SameMembers(sorted, rows);
    assert CountriesOf(sorted) == CountriesOf(rows);
    DescendingIsSortedReversed(sorted);
  }

  /** `get_medals_per_country`: the fold, the map's entries in its
      (undetermined) iteration order, then the descending sort. The result
      is a leaderboard of the medals whatever that order is. */
  method MedalsPerCountry(medals: seq<Medal>) returns (projection: seq<Row>)
    ensures IsLeaderboard(medals, projection)
  {
    var acc := GroupByCountry(medals);
    var entries: seq<Row> := [];
    var pending := acc.Keys;
    while pending != {}
      invariant pending <= acc.Keys
      invariant PartialTally(medals, entries, acc.Keys - pending)
      decreases pending
    {
      var country :| country in pending;
      var row := Row(country, acc[country]);
      VisitStep(medals, entries, acc.Keys, pending, row);
      entries := entries + [row];
      pending := pending - {country};
    }
    projection := SortBy(ByKeyReversed, entries);
    RankTallyDescending(medals, entries);
  }
}
