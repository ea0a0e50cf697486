/** `create_table` of src/main.rs: group the medals by country in a
    HashMap, count each country's gold, silver and bronze, sort the rows by
    the key (gold, silver, bronze) and reverse them. */
module Table {
  import opened Medals
  import opened MedalCounts
  import opened Ranking
  import opened Leaderboard

  /** The `by_country` map: every medal is pushed onto its country's
      vector, which is created empty the first time the country is seen.
      Its keys are the medal-winning countries and each vector holds
      exactly that country's medals, in input order. */
  function GroupByCountry(ms: seq<Medal>): (groups: map<string, seq<Medal>>)
    ensures groups.Keys == Countries(ms)
    ensures forall c :: c in groups ==> groups[c] == OfCountry(ms, c)
  {
    if ms == [] then map[]
    else
      var init, m := ms[..|ms| - 1], ms[|ms| - 1];
      assert ms == init + [m];
      CountriesSnoc(init, m);
      OfCountryNonEmpty(init, m.country);
      var groups := GroupByCountry(init);
      var group := if m.country in groups then groups[m.country] else [];
      groups[m.country := group + [m]]
  }

  /** The row `(country, #gold, #silver, #bronze)` built from one group:
      the three class counts split the group between them. */
  function RowOf(country: string, group: seq<Medal>): (r: Row)
    ensures r.country == country
    ensures r.count.Total() == |group|
  {
    KindsPartition(group);
    Row(country, MedalCount(CountKind(group, Gold), CountKind(group, Silver), CountKind(group, Bronze)))
  }

  /** The row built from a country's group carries its reference tally. */
  lemma RowOfGroup(ms: seq<Medal>, country: string)
    ensures RowOf(country, OfCountry(ms, country)).count == TallyOf(ms, country)
  {
    OfCountryCounts(ms, country, Gold);
    OfCountryCounts(ms, country, Silver);
    OfCountryCounts(ms, country, Bronze);
  }

  /** Sorting ascending by key and reversing, as `create_table` does,
      rearranges the rows without adding or dropping any. */
  lemma RankPermutes(rows: seq<Row>)
    ensures multiset(Reverse(SortBy(ByKey, rows))) == multiset(rows)
  {
    ReversePermutes(SortBy(ByKey, rows));
  }

  /** Sorting a correct tally ascending by key and reversing it gives a
      leaderboard. */
  lemma RankTally(ms: seq<Medal>, rows: seq<Row>)
    requires PartialTally(ms, rows, Countries(ms))
    ensures IsLeaderboard(ms, Reverse(SortBy(ByKey, rows)))
  {
    ComparatorsConsistent();
    var ascending := SortBy(ByKey, rows);
    SortBySorted(ByKey, rows);
    SortByDistinct(ByKey, rows);
    var table := Reverse(ascending);
    ReverseAscending(ascending);
    RankPermutes(rows);
    SameMembers(table, rows);
    assert CountriesOf(table) == CountriesOf(rows);
    DescendingIsSortedReversed(table);
  }

  /** `create_table`. The HashMap's iteration order is not determined, so
      the loop visits the countries in an arbitrary order; the result is a
      leaderboard of the medals whatever that order is, and it accounts
      for every medal. */
  method CreateTable(medals: seq<Medal>) returns (table: seq<Row>)
    ensures IsLeaderboard(medals, table)
    ensures Total(table) == |medals|
    ensures forall r :: r in table ==> r.count.Total() >= 1
  {
    var byCountry := GroupByCountry(medals);
    var countries: seq<Row> := [];
    var pending := byCountry.Keys;
    while pending != {}
      invariant pending <= byCountry.Keys
      invariant PartialTally(medals, countries, byCountry.Keys - pending)
      decreases pending
    {
      var country :| country in pending;
      var row := RowOf(country, byCountry[country]);
      RowOfGroup(medals, country);
      VisitStep(medals, countries, byCountry.Keys, pending, row);
      countries := countries + [row];
      pending := pending - {country};
    }

    table := Reverse(SortBy(ByKey, countries));
    RankTally(medals, countries);
    Conservation(medals, table);
    RowsNonEmpty(medals, table);
  }
}
