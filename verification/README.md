# Athletics medal leaderboard — Dafny model

The program polls a results feed for award records. Each record is a medal class (gold, silver or bronze) and a country. The program tallies the records per country into a table ranked by medal count, and prints the names of the five leading countries whenever that list changes. This project models the pure part of that pipeline:

- `create_table` groups the medals by country in a HashMap and counts each country's gold, silver and bronze. It then sorts the rows by the key `(gold, silver, bronze)` ascending and reverses them.
- One iteration of the `main` loop takes the top-five snapshot, compares it with the previous one (initially `None`), prints it if it differs, and always stores it.
- The test module has a second pipeline: `MedalCount` with `Index`/`IndexMut` by medal class and a derived lexicographic `Ord`, the `group_by_country` fold, the descending `sort_by`, and `Projection::take`.

Modules:

- `Medals` (medals.dfy): the `Type`/`Class` enum and the `Medal` record. Also reference counts (`Count`, `Countries`, `OfCountry`, `CountKind`).
- `MedalCounts` (medal_count.dfy): `MedalCount`, its `Index` (`Get`), `IndexMut` followed by `+= 1` (`Bump`), the derived `cmp` (`Cmp`), the lexicographic order (`AtMost`), and the reference tally `TallyOf`.
- `Ranking` (ranking.dfy): the row `Row(country, count)` and the two comparators of the source. Also a stable insertion sort driven by a comparator that returns an `Ordering`, as `sort_by_key` and `sort_by` are, plus `rev()`.
- `Leaderboard` (leaderboard.dfy): `IsLeaderboard(medals, table)`, the property both pipelines establish. The table has one row per medal-winning country, pairwise distinct countries, each row's counts equal to the reference counts, and rows in descending lexicographic order. The module also holds the facts that follow from it, and `take`.
- `Table` (table.dfy): `create_table`.
- `PerCountry` (per_country.dfy): the test module's pipeline.
- `Poller` (poller.dfy): the snapshot, the change-detecting step, a finite run of the loop, and worked examples.

Encoding choices:

- `usize` is `nat`.
- `create_table`'s row `(country, gold, silver, bronze)` and the test module's `(country, MedalCount)` are both `Row(country, MedalCount(g, s, b))`. The sort key `(elem.1, elem.2, elem.3)` compares tuples lexicographically, and the derived `Ord` compares the fields in the same order, so both are `Cmp`.
- The two enums `Type` and `Class` have the same three values and are one datatype, `MedalType`.
- The HashMap's iteration order is not determined, and it can differ between iterations of the loop. `CreateTable` and `MedalsPerCountry` therefore visit the map's keys by arbitrary choice (`:|`). Their contracts hold for every visiting order.
- The order among rows with equal triples depends on that visiting order, so no contract fixes it. `LeaderboardsArePermutations` shows that two leaderboards of the same medals can differ only in that order. `TiesMayReorder` shows that such a difference exists, and that it makes the loop print again.

## Model

| member | source | states |
|---|---|---|
| Medals.OfCountryMembers | src/main.rs:54-60 | the vector under a country's HashMap entry holds exactly the input medals credited to that country |
| Medals.OfCountryNonEmpty | src/main.rs:56-59 | a country has a (non-empty) group exactly when it is credited with some input medal |
| Medals.OfCountryCounts | src/main.rs:65-79 | filtering a country's group by one class and counting gives the number of input medals of that class credited to that country |
| Medals.KindsPartition | src/main.rs:67-78 | the gold, silver and bronze filters split a group: their counts add up to the group's size |
| Medals.CountriesSnoc | src/main.rs:55-59 | pushing one more medal adds exactly its country to the grouped countries |
| Medals.CountriesLast | src/main.rs:55-59 | the countries of a non-empty medal list are those of all but its last medal plus the last medal's country |
| MedalCounts.Bump | src/main.rs:143-151 | `count[class] += 1` through `IndexMut` raises exactly the selected field by one, leaves the other two unchanged, and raises the total by one |
| MedalCounts.Cmp | src/main.rs:124-129 | the derived `cmp` is `Equal` exactly on equal triples, and not `Greater` exactly when the first triple is lexicographically at most the second |
| MedalCounts.AtMostTotalOrder | src/main.rs:83 | the lexicographic order on (gold, silver, bronze) is reflexive, total, antisymmetric and transitive |
| MedalCounts.TallySnoc | src/main.rs:190 | one more award raises its own country's tally in its own class and leaves every other country's tally unchanged |
| MedalCounts.TallyLast | src/main.rs:190 | a country's tally over a non-empty list is its tally over all but the last medal, bumped in the last medal's class exactly when the last medal is that country's |
| MedalCounts.TallySize | src/main.rs:56-79 | a country's gold + silver + bronze adds up to the size of its group |
| MedalCounts.TallyZero | src/main.rs:56-59 | a country's tally is all zeros exactly when the country won nothing |
| Ranking.Insert | src/main.rs:83 | one insertion step of the stable sort adds the row to the sequence's multiset and puts either it or the old first row at the front |
| Ranking.InsertSorted | src/main.rs:83 | inserting into a sequence sorted by a consistent comparator keeps it sorted |
| Ranking.InsertDistinct | src/main.rs:83 | inserting a row of a new country keeps the countries pairwise distinct |
| Ranking.SortBy | src/main.rs:83 | the sort returns a permutation of its input |
| Ranking.SortBySorted | src/main.rs:83 | after the sort no row compares greater than its successor, for any consistent comparator |
| Ranking.SortByDistinct | src/main.rs:83 | the sort keeps the countries pairwise distinct |
| Ranking.ComparatorsConsistent | src/main.rs:205 | both the ascending key comparator and the reversed comparator `b.1.cmp(&a.1)` never call a pair greater both ways |
| Ranking.Reverse | src/main.rs:84 | `rev()` gives a sequence of the same length whose element i is element `len - 1 - i` of the input |
| Ranking.ReversePermutes | src/main.rs:84 | reversing keeps the same multiset of rows |
| Ranking.ReverseAscending | src/main.rs:83-84 | reversing a sequence sorted ascending by key makes it sorted descending, and keeps the countries distinct |
| Ranking.SortedDescendingPairwise | src/main.rs:82-84 | in a table sorted descending, every earlier row's triple is at least every later row's, not only its neighbour's |
| Ranking.AppendDistinct | src/main.rs:64-65 | pushing the row of a country not yet in the vector keeps the countries distinct |
| Ranking.CountriesOfSnoc | src/main.rs:64-65 | pushing a row adds exactly its country to the countries of the vector |
| Leaderboard.AppendCorrect | src/main.rs:64-79 | pushing a row with correct counts keeps every row's counts correct |
| Leaderboard.PartialTallyStep | src/main.rs:64-80 | emitting a correct row for a country not yet visited keeps the rows correct and distinct, and adds exactly that country |
| Leaderboard.VisitStep | src/main.rs:64-80 | one iteration over the map's entries turns a pending country into a visited one with its correct row, keeping the emitted rows correct and distinct |
| Leaderboard.DescendingIsSortedReversed | src/main.rs:205 | sorted by `b.1.cmp(&a.1)` is the same as descending lexicographic order |
| Leaderboard.TotalIsGroupSizes | src/main.rs:65-79 | the medal total of correct rows equals the sizes of their countries' groups |
| Leaderboard.GroupSizesSnoc | src/main.rs:55-59 | one more medal adds one to the group sizes of distinct-country rows if its country has a row, and nothing otherwise |
| Leaderboard.GroupSizesCover | src/main.rs:55-59 | rows for distinct countries that cover every medal's country account for every medal exactly once |
| Leaderboard.Conservation | src/main.rs:55-79 | the sum of gold + silver + bronze over a leaderboard's rows equals the number of input medals |
| Leaderboard.RowsNonEmpty | src/main.rs:56-79 | every row of a leaderboard has gold + silver + bronze of at least 1 |
| Leaderboard.EmptyInput | src/main.rs:54-64 | the only leaderboard of no medals is the empty table |
| Leaderboard.LeaderboardRows | src/main.rs:64-79 | a row is in a leaderboard exactly when its country won a medal and its counts are that country's tally |
| Leaderboard.DistinctOccursOnce | src/main.rs:64 | a table of distinct countries holds each of its rows exactly once |
| Leaderboard.LeaderboardsArePermutations | src/main.rs:83-84 | two leaderboards of the same medals are permutations of each other, so they can differ only in the order of tied rows |
| Leaderboard.BetterRanksHigher | src/main.rs:82-84 | a country whose triple is strictly greater than another's is ranked strictly ahead of it |
| Leaderboard.Take | src/main.rs:219-221 | `take(n)` yields the first `min(n, len)` elements, unchanged and in order |
| Leaderboard.TakeRanked | src/main.rs:219-221 | the top n of a leaderboard keeps correct counts, distinct countries and descending order, and holds only medal-winning countries |
| Table.GroupByCountry | src/main.rs:53-60 | the `by_country` map has exactly the medal-winning countries as keys, and under each the country's medals in input order |
| Table.RowOf | src/main.rs:65-79 | a row built from a group names the group's country, and its three counts add up to the group's size |
| Table.RowOfGroup | src/main.rs:65-79 | the row built from a country's group carries that country's reference tally |
| Table.RankPermutes | src/main.rs:83-84 | `sort_by_key` followed by `rev()` is a permutation of the rows |
| Table.RankTally | src/main.rs:82-84 | sorting a complete, correct tally ascending by key and reversing it gives a leaderboard |
| Table.CreateTable | src/main.rs:52-85 | for every HashMap iteration order the result is a leaderboard of the input: correct counts, distinct countries that are exactly the input's, descending order. Its rows account for every medal and none is empty |
| PerCountry.GroupByCountry | src/main.rs:188-203 | the fold's map has exactly the medal-winning countries as keys, each with its reference tally |
| PerCountry.GroupStepKeys | src/main.rs:188-192 | one step of the fold (`acc.entry(country).or_insert(..)`) adds the medal's country to the map's keys, so the keys stay the countries folded so far |
| PerCountry.GroupStepValue | src/main.rs:188-192 | one step of the fold (`or_insert(default)[class] += 1`) turns each country's tally over the medals folded before into its tally including the new medal: a new country starts from zeros, and only the medal's own country and class change |
| PerCountry.GroupStepTallies | src/main.rs:188-192 | one step of the fold keeps the map equal to the reference tallies of the medals folded so far, keys and values |
| PerCountry.RankTallyDescending | src/main.rs:205 | sorting a complete, correct tally with `b.1.cmp(&a.1)` gives a leaderboard that is a permutation of the tally |
| PerCountry.MedalsPerCountry | src/main.rs:184-208 | for every map iteration order the test pipeline's result is a leaderboard of the input, the same kind of table `create_table` returns |
| Poller.Snapshot | src/main.rs:93 | the snapshot lists the countries of the first `min(5, len)` rows, in table order |
| Poller.Step | src/main.rs:93-97 | an iteration prints exactly when the new snapshot differs from the stored one as a sequence, always prints on the first iteration (stored `None`), prints the new snapshot, and stores it whether or not it printed |
| Poller.Poll | src/main.rs:91-97 | a whole iteration computes a leaderboard of the fetched medals, stores its snapshot, and prints exactly when that differs from the stored one |
| Poller.StepSettles | src/main.rs:94-97 | an iteration right after one with the same table prints nothing |
| Poller.RunReportsChanges | src/main.rs:88-99 | over any finite run from `None`: the first poll prints, the stored value is always the latest poll's snapshot and equals the last thing printed, and no two consecutive prints are equal |
| Poller.DistinctCountriesCount | src/main.rs:64 | a table of distinct countries has as many countries as rows |
| Poller.ExampleCountries | src/main.rs:54-60 | gold A, gold B, silver A, gold A are grouped under exactly the countries A and B |
| Poller.ExampleTallies | src/main.rs:62-79 | gold A, gold B, silver A, gold A tally to A = (2, 1, 0) and B = (1, 0, 0) |
| Poller.WorkedExample | src/main.rs:82-93 | every leaderboard of that example is A then B, so its snapshot is ["A", "B"] |
| Poller.TieTallies | src/main.rs:54-79 | one gold each for A and B groups into A and B, each with the tally (1, 0, 0) |
| Poller.TieBoards | src/main.rs:82-84 | with that tie, A then B and B then A are both leaderboards of the same medals |
| Poller.TiesMayReorder | src/main.rs:83-84 | with tied triples both orders are leaderboards of the same medals, and moving from one to the other prints again |

## Left out

- `fetch_medals` (src/main.rs:17-48) is left out: an HTTP request and JSON traversal. The same goes for `AthleticsDb::from_url` and `get_class_country_tuple` in the tests. The medal list is a parameter of `Poll`, `CreateTable` and `MedalsPerCountry`. Their `unwrap()` and `panic!()` paths on a failed request or an unknown medal type belong to the libraries used.
- A failed fetch aborts the process (`fetch_medals().unwrap()`). The model follows the code: there is no error path that keeps the previous snapshot and retries, and no such retry is claimed.
- The `loop` and the two-second `thread::sleep` are not modelled as such. A finite run of iterations is modelled by `Run`, and one iteration by `Step`/`Poll`.
- The `println!` formatting is left out. Only the decision to print and the printed snapshot are modelled.
- The concrete HashMap iteration order is left out: it is random. It is modelled as an arbitrary choice, and no contract fixes the order of tied rows.
- The `new_test` loop (src/main.rs:233-252) is left out. It compares whole projections, names and counts, and stores only when it prints. Only its parts (`MedalsPerCountry`, `Take`) are modelled.
- `test_dummy`, `Projection::empty` and `Projection::get` are trivial and left out.
- MedalCounts.Get (`Index<Class>`) has no contract of its own. `Bump`'s contract states what it selects.
- `usize` overflow is not modelled: counts are `nat`, and a tally cannot exceed the number of medals in memory.
