/** The award records the results feed delivers (`Type` and `Medal` in
    src/main.rs) and the counting functions the other modules state their
    contracts with. */
module Medals {

  /** The three medal classes. The test module's `Class` enum has the same
      three values and is modelled by this type too. */
  datatype MedalType = Gold | Silver | Bronze

  /** One award: a medal of some class credited to a country. */
  datatype Medal = Medal(kind: MedalType, country: string)

  /** Number of medals of class `kind` credited to `country`: the reference
      count every tally is measured against. */
  function Count(ms: seq<Medal>, country: string, kind: MedalType): nat
  {
    if ms == [] then 0
    else Count(ms[..|ms| - 1], country, kind) + (if ms[|ms| - 1] == Medal(kind, country) then 1 else 0)
  }

  /** The countries credited with at least one medal. */
  function Countries(ms: seq<Medal>): set<string>
  {
    set m | m in ms :: m.country
  }

  /** The medals credited to `country`, in input order: the vector that
      `create_table` keeps under that country's HashMap entry. */
  function OfCountry(ms: seq<Medal>, country: string): seq<Medal>
  {
    if ms == [] then []
    else OfCountry(ms[..|ms| - 1], country) + (if ms[|ms| - 1].country == country then [ms[|ms| - 1]] else [])
  }

  /** The number of medals of class `kind` in a group, as computed by
      `iter().filter(|x| x.type == kind).count()`. */
  function CountKind(group: seq<Medal>, kind: MedalType): nat
  {
    if group == [] then 0
    else CountKind(group[..|group| - 1], kind) + (if group[|group| - 1].kind == kind then 1 else 0)
  }

  /** Appending a medal adds exactly its country. */
  lemma CountriesSnoc(ms: seq<Medal>, m: Medal)
    ensures Countries(ms + [m]) == Countries(ms) + {m.country}
  {
    var both := ms + [m];
    forall c | c in Countries(both)
      ensures c in Countries(ms) + {m.country}
    {
      var w :| w in both && w.country == c;
      if w != m {
        assert w in ms;
      }
    }
    forall c | c in Countries(ms)
      ensures c in Countries(both)
    {
      var w :| w in ms && w.country == c;
      assert w in both;
    }
    assert m in both;
  }

  /** The countries of a non-empty list: those of all but its last medal,
      plus the last medal's. */
  lemma CountriesLast(ms: seq<Medal>)
    requires ms != []
    ensures Countries(ms) == Countries(ms[..|ms| - 1]) + {ms[|ms| - 1].country}
  {
    CountriesSnoc(ms[..|ms| - 1], ms[|ms| - 1]);
    assert ms == ms[..|ms| - 1] + [ms[|ms| - 1]];
  }

  /** A country's group holds exactly the input medals credited to it. */
  lemma {:induction false} OfCountryMembers(ms: seq<Medal>, country: string)
    ensures forall m :: m in OfCountry(ms, country) <==> m in ms && m.country == country
  {
    if ms != [] {
      var init, last := ms[..|ms| - 1], ms[|ms| - 1];
      OfCountryMembers(init, country);
      assert ms == init + [last];
    }
  }

  /** A group exists (is non-empty) exactly for the countries of the input. */
  lemma OfCountryNonEmpty(ms: seq<Medal>, country: string)
    ensures |OfCountry(ms, country)| > 0 <==> country in Countries(ms)
  {
    OfCountryMembers(ms, country);
    if country in Countries(ms) {
      var w :| w in ms && w.country == country;
      assert w in OfCountry(ms, country);
    }
    if |OfCountry(ms, country)| > 0 {
      assert OfCountry(ms, country)[0] in OfCountry(ms, country);
    }
  }

  /** Counting a class over a group extended by one medal. */
  lemma CountKindSnoc(group: seq<Medal>, m: Medal, kind: MedalType)
    ensures CountKind(group + [m], kind) == CountKind(group, kind) + (if m.kind == kind then 1 else 0)
  {
    assert (group + [m])[..|group|] == group;
  }

  /** Filtering a country's group by class gives the reference count. */
  lemma {:induction false} OfCountryCounts(ms: seq<Medal>, country: string, kind: MedalType)
    ensures CountKind(OfCountry(ms, country), kind) == Count(ms, country, kind)
  {
    if ms != [] {
      var init, last := ms[..|ms| - 1], ms[|ms| - 1];
      OfCountryCounts(init, country, kind);
      var g := OfCountry(init, country);
      if last.country == country {
        assert OfCountry(ms, country) == g + [last];
        CountKindSnoc(g, last, kind);
      } else {
        assert OfCountry(ms, country) == g + [];
        assert g + [] == g;
      }
    }
  }

  /** Every medal has exactly one class, so the three class counts of a
      group add up to its size. */
  lemma {:induction false} KindsPartition(group: seq<Medal>)
    ensures CountKind(group, Gold) + CountKind(group, Silver) + CountKind(group, Bronze) == |group|
  {
    if group != [] {
      KindsPartition(group[..|group| - 1]);
    }
  }
}
