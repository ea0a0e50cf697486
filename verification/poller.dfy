/** One iteration of the `main` loop of src/main.rs: build the table, keep
    the names of its first five rows, print them if they differ from the
    previous iteration's names, and remember them. The fetch, the printing
    and the sleep are outside the model; a run of the loop over finitely
    many polls is modelled as a fold of the step. */
module Poller {
  import opened Medals
  import opened MedalCounts
  import opened Ranking
  import opened Leaderboard
  import Table

  /** The number of leading countries a snapshot holds (`take(5)`). */
  const TopN: nat := 5

  /** Rust's `Option`; `last_top5` starts as `None`. */
  datatype Option<T> = None | Some(value: T)

  /** `table.iter().take(5).map(|e| e.0.clone()).collect()`: the countries
      of the first `min(5, |table|)` rows, in table order. */
  function Snapshot(table: seq<Row>): (names: seq<string>)
    ensures |names| == if TopN < |table| then TopN else |table|
    ensures forall i :: 0 <= i < |names| ==> names[i] == table[i].country
  {
    var top := Take(table, TopN);
    seq(|top|, i requires 0 <= i < |top| => top[i].country)
  }

  /** What one iteration prints (if anything) and the `last_top5` it
      leaves behind. */
  datatype StepResult = StepResult(emitted: Option<seq<string>>, last: Option<seq<string>>)

  /** One iteration after the fetch: it prints the new snapshot exactly
      when it differs from the previous one as a sequence, and it stores the
      new snapshot whether or not it printed. */
  function Step(last: Option<seq<string>>, table: seq<Row>): (r: StepResult)
    ensures r.last == Some(Snapshot(table))
    ensures r.emitted.Some? <==> last != Some(Snapshot(table))
    ensures r.emitted.Some? ==> r.emitted.value == Snapshot(table)
    ensures last.None? ==> r.emitted.Some?
  {
    var top := Some(Snapshot(table));
    StepResult(if top != last then top else None, top)
  }

  /** A whole iteration: `create_table` on the fetched medals, then the
      step. The table is a leaderboard of the medals, and what is printed
      and stored depends on it only through its first five countries. */
  method Poll(last: Option<seq<string>>, medals: seq<Medal>) returns (table: seq<Row>, r: StepResult)
    ensures IsLeaderboard(medals, table)
    ensures r.last == Some(Snapshot(table))
    ensures r.emitted.Some? <==> last != r.last
    ensures r.emitted.Some? ==> r.emitted == r.last
  {
    table := Table.CreateTable(medals);
    r := Step(last, table);
  }

  /** Polling a table whose snapshot was just stored prints nothing. */
  lemma StepSettles(last: Option<seq<string>>, table: seq<Row>)
    ensures Step(Step(last, table).last, table).emitted.None?
  {
  }

  /** Everything printed over a run of iterations, and the final
      `last_top5`. */
  datatype RunResult = RunResult(emitted: seq<seq<string>>, last: Option<seq<string>>)

  /** The loop over finitely many polls, one table per poll. */
  function Run(last: Option<seq<string>>, tables: seq<seq<Row>>): RunResult
  {
    if tables == [] then RunResult([], last)
    else
      var before := Run(last, tables[..|tables| - 1]);
      var step := Step(before.last, tables[|tables| - 1]);
      var printed := if step.emitted.Some? then [step.emitted.value] else [];
      RunResult(before.emitted + printed, step.last)
  }

  /** Over any run from the initial `None`: the first poll prints, the
      stored snapshot is always that of the latest poll and equals the last
      thing printed, and no two consecutive prints are equal. */
  lemma {:induction false} RunReportsChanges(tables: seq<seq<Row>>)
    requires |tables| > 0
    ensures var r := Run(None, tables);
            && |r.emitted| > 0
            && r.emitted[0] == Snapshot(tables[0])
            && r.last == Some(Snapshot(tables[|tables| - 1]))
            && r.last == Some(r.emitted[|r.emitted| - 1])
            && forall i :: 0 <= i < |r.emitted| - 1 ==> r.emitted[i] != r.emitted[i + 1]
  {
    if |tables| > 1 {
      var init := tables[..|tables| - 1];
      RunReportsChanges(init);
      assert init[0] == tables[0];
    }
  }

  /** In a sequence of distinct countries, every row has its own country. */
  lemma {:induction false} DistinctCountriesCount(t: seq<Row>)
    requires DistinctCountries(t)
    ensures |CountriesOf(t)| == |t|
  {
    if t != [] {
      var init, last := t[..|t| - 1], t[|t| - 1];
      assert t == init + [last];
      assert DistinctCountries(init) by {
        forall i, j | 0 <= i < j < |init| ensures init[i].country != init[j].country {
          assert init[i] == t[i] && init[j] == t[j];
        }
      }
      DistinctCountriesCount(init);
      CountriesOfSnoc(init, last);
      forall w | w in init
        ensures w.country != last.country
      {
        var k :| 0 <= k < |init| && init[k] == w;
        assert t[k] == w;
      }
    }
  }

  /** The worked example: gold to A, gold to B, silver to A, gold to A. */
  const Example: seq<Medal> := [Medal(Gold, "A"), Medal(Gold, "B"), Medal(Silver, "A"), Medal(Gold, "A")]

  /** The example's medal winners are A and B. */
  lemma ExampleCountries()
    ensures Countries(Example) == {"A", "B"}
  {
    assert Example[0] in Example && Example[1] in Example;
  }

  /** The example's prefixes, each one medal longer than the previous. */
  lemma ExamplePrefixes()
    ensures Example[..3] == [Medal(Gold, "A"), Medal(Gold, "B"), Medal(Silver, "A")]
    ensures Example[..3][..2] == [Medal(Gold, "A"), Medal(Gold, "B")]
    ensures Example[..3][..2][..1] == [Medal(Gold, "A")]
    ensures Example[..3][..2][..1][..0] == []
  {
  }

  /** The example's tallies are A = (2, 1, 0) and B = (1, 0, 0). */
  lemma ExampleTallies()
    ensures TallyOf(Example, "A") == MedalCount(2, 1, 0)
    ensures TallyOf(Example, "B") == MedalCount(1, 0, 0)
  {
    ExamplePrefixes();
    assert "A" != "B" by {
      assert "A"[0] != "B"[0];
    }
    var p3 := Example[..3];
    var p2 := p3[..2];
    var p1 := p2[..1];
    assert Count(p1, "A", Gold) == 1 && Count(p1, "A", Silver) == 0 && Count(p1, "A", Bronze) == 0;
    assert Count(p1, "B", Gold) == 0 && Count(p1, "B", Silver) == 0 && Count(p1, "B", Bronze) == 0;
    assert Count(p2, "A", Gold) == 1 && Count(p2, "A", Silver) == 0 && Count(p2, "A", Bronze) == 0;
    assert Count(p2, "B", Gold) == 1 && Count(p2, "B", Silver) == 0 && Count(p2, "B", Bronze) == 0;
    assert Count(p3, "A", Gold) == 1 && Count(p3, "A", Silver) == 1 && Count(p3, "A", Bronze) == 0;
    assert Count(p3, "B", Gold) == 1 && Count(p3, "B", Silver) == 0 && Count(p3, "B", Bronze) == 0;
    assert Count(Example, "A", Gold) == 2 && Count(Example, "A", Silver) == 1 && Count(Example, "A", Bronze) == 0;
    assert Count(Example, "B", Gold) == 1 && Count(Example, "B", Silver) == 0 && Count(Example, "B", Bronze) == 0;
  }

  /** Every leaderboard of the example is A then B, so its snapshot is
      ["A", "B"]. */
  lemma WorkedExample(t: seq<Row>)
    requires IsLeaderboard(Example, t)
    ensures t == [Row("A", MedalCount(2, 1, 0)), Row("B", MedalCount(1, 0, 0))]
    ensures Snapshot(t) == ["A", "B"]
  {
    ExampleCountries();
    ExampleTallies();
    DistinctCountriesCount(t);
    assert |t| == 2;
    assert t[0] in t && t[1] in t;
  }

  /** One gold each for A and B. */
  const Tie: seq<Medal> := [Medal(Gold, "A"), Medal(Gold, "B")]

  /** In the tie, A and B both have the tally (1, 0, 0). */
  lemma TieTallies()
    ensures Countries(Tie) == {"A", "B"}
    ensures TallyOf(Tie, "A") == MedalCount(1, 0, 0)
    ensures TallyOf(Tie, "B") == MedalCount(1, 0, 0)
  {
    assert "A" != "B" by {
      assert "A"[0] != "B"[0];
    }
    var p1 := Tie[..1];
    assert p1 == [Medal(Gold, "A")] && p1[..0] == [];
    assert Count(p1, "A", Gold) == 1 && Count(p1, "A", Silver) == 0 && Count(p1, "A", Bronze) == 0;
    assert Count(p1, "B", Gold) == 0 && Count(p1, "B", Silver) == 0 && Count(p1, "B", Bronze) == 0;
    assert Count(Tie, "A", Gold) == 1 && Count(Tie, "A", Silver) == 0 && Count(Tie, "A", Bronze) == 0;
    assert Count(Tie, "B", Gold) == 1 && Count(Tie, "B", Silver) == 0 && Count(Tie, "B", Bronze) == 0;
    assert Tie[0] in Tie && Tie[1] in Tie;
  }

  /** Both orders of the tie's two rows are leaderboards of it. */
  lemma TieBoards(first: string, second: string)
    requires {first, second} == {"A", "B"} && first != second
    ensures IsLeaderboard(Tie, [Row(first, MedalCount(1, 0, 0)), Row(second, MedalCount(1, 0, 0))])
  {
    TieTallies();
    var t := [Row(first, MedalCount(1, 0, 0)), Row(second, MedalCount(1, 0, 0))];
    assert t[0] in t && t[1] in t;
    assert CountriesOf(t) == {first, second};
  }

  /** Tie order is not fixed: with one gold each for A and B, both orders
      are leaderboards, so two polls of the same medals can store different
      snapshots, and the second of them prints. */
  lemma TiesMayReorder()
    ensures var ab := [Row("A", MedalCount(1, 0, 0)), Row("B", MedalCount(1, 0, 0))];
            var ba := [Row("B", MedalCount(1, 0, 0)), Row("A", MedalCount(1, 0, 0))];
            && IsLeaderboard(Tie, ab)
            && IsLeaderboard(Tie, ba)
            && Step(Some(Snapshot(ab)), ba).emitted.Some?
  {
    assert "A" != "B" by {
      assert "A"[0] != "B"[0];
    }
    TieBoards("A", "B");
    TieBoards("B", "A");
    var ab := [Row("A", MedalCount(1, 0, 0)), Row("B", MedalCount(1, 0, 0))];
    var ba := [Row("B", MedalCount(1, 0, 0)), Row("A", MedalCount(1, 0, 0))];
    assert Snapshot(ab)[0] != Snapshot(ba)[0];
  }
}
