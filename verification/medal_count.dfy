/** Per-country medal triples: the test module's `MedalCount` with its
    `Index`/`IndexMut` by class and its derived lexicographic `Ord`. The
    (gold, silver, bronze) part of a `create_table` row and its sort key are
    the same triple in the same order. */
module MedalCounts {
  import opened Medals

  /** `MedalCount { g, s, b }`. */
  datatype MedalCount = MedalCount(g: nat, s: nat, b: nat)
  {
    /** All medals of the triple. */
    function Total(): nat
    {
      g + s + b
    }
  }

  /** `MedalCount::default()`. */
  const Zero: MedalCount := MedalCount(0, 0, 0)

  /** `Index<Class>`: the field a class selects. */
  function Get(c: MedalCount, kind: MedalType): nat
  {
    match kind
    case Gold => c.g
    case Silver => c.s
    case Bronze => c.b
  }

  /** `count[kind] += 1` through `IndexMut<Class>`: exactly the selected
      field grows by one. */
  function Bump(c: MedalCount, kind: MedalType): (r: MedalCount)
    ensures Get(r, kind) == Get(c, kind) + 1
    ensures forall other :: other != kind ==> Get(r, other) == Get(c, other)
    ensures r.Total() == c.Total() + 1
  {
    match kind
    case Gold => c.(g := c.g + 1)
    case Silver => c.(s := c.s + 1)
    case Bronze => c.(b := c.b + 1)
  }

  /** Rust's `std::cmp::Ordering`. */
  datatype Ordering = Less | Equal | Greater

  /** The lexicographic order on (gold, silver, bronze): a country with
      more gold is ahead; silver breaks a gold tie; bronze a silver tie. */
  predicate AtMost(a: MedalCount, b: MedalCount)
  {
    a.g < b.g || (a.g == b.g && (a.s < b.s || (a.s == b.s && a.b <= b.b)))
  }

  /** The derived `Ord::cmp`, comparing the fields in declaration order.
      It is also `cmp` on the key tuple `(g, s, b)` of `create_table`. */
  function Cmp(a: MedalCount, b: MedalCount): (o: Ordering)
    ensures o == Equal <==> a == b
    ensures o != Greater <==> AtMost(a, b)
    ensures o != Less <==> AtMost(b, a)
  {
    if a.g != b.g then (if a.g < b.g then Less else Greater)
    else if a.s != b.s then (if a.s < b.s then Less else Greater)
    else if a.b != b.b then (if a.b < b.b then Less else Greater)
    else Equal
  }

  /** `AtMost` is a total order on triples. */
  lemma AtMostTotalOrder(a: MedalCount, b: MedalCount, c: MedalCount)
    ensures AtMost(a, a)
    ensures AtMost(a, b) || AtMost(b, a)
    ensures AtMost(a, b) && AtMost(b, a) ==> a == b
    ensures AtMost(a, b) && AtMost(b, c) ==> AtMost(a, c)
  {
  }

  /** The tally a country should have: one reference count per class. */
  function TallyOf(ms: seq<Medal>, country: string): MedalCount
  {
    MedalCount(Count(ms, country, Gold), Count(ms, country, Silver), Count(ms, country, Bronze))
  }

  /** Appending a medal bumps its own country's tally in its class and
      leaves every other country's tally alone. */
  lemma TallySnoc(ms: seq<Medal>, m: Medal, country: string)
    ensures TallyOf(ms + [m], country)
         == if m.country == country then Bump(TallyOf(ms, country), m.kind) else TallyOf(ms, country)
  {
    assert (ms + [m])[..|ms|] == ms;
  }

  /** The tally over a non-empty list: the tally over all but its last
      medal, bumped in the last medal's class for the last medal's country. */
  lemma TallyLast(ms: seq<Medal>, country: string)
    requires ms != []
    ensures var m := ms[|ms| - 1];
            TallyOf(ms, country)
            == if m.country == country then Bump(TallyOf(ms[..|ms| - 1], country), m.kind)
               else TallyOf(ms[..|ms| - 1], country)
  {
  }

  /** A country's tally adds up to the size of its group. */
  lemma TallySize(ms: seq<Medal>, country: string)
    ensures TallyOf(ms, country).Total() == |OfCountry(ms, country)|
  {
    OfCountryCounts(ms, country, Gold);
    OfCountryCounts(ms, country, Silver);
    OfCountryCounts(ms, country, Bronze);
    KindsPartition(OfCountry(ms, country));
  }

  /** A country's tally is zero exactly when the country won nothing. */
  lemma TallyZero(ms: seq<Medal>, country: string)
    ensures TallyOf(ms, country) == Zero <==> country !in Countries(ms)
  {
    TallySize(ms, country);
    OfCountryNonEmpty(ms, country);
  }
}
