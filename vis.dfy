/** The filter and aggregation rules behind the dashboard's seven charts.
    The widget selections are parameters; building and showing the figures
    is not modelled. Each chart keeps the rows a boolean mask selects and
    then groups and counts them. */
module Vis {
  import opened Frame
  import opened Preprocess

  /** The country choice that turns the country filter off. */
  const AllCountries: string := "All Countries"

  /** The text that converting a missing country to a string gives. */
  const MissingText: string := "nan"

  /** A boolean row mask, built from comparisons on one column each. */
  datatype Mask =
    | SeasonIn(seasons: set<string>)    // df['Season'].isin(selection)
    | TypeIn(types: set<string>)        // df['Type'].isin(selection)
    | SeasonIs(season: Option<string>)  // df['Season'] == choice; no choice matches nothing
    | YearFrom(lo: int)                 // df['Year'] >= lo
    | YearUpTo(hi: int)                 // df['Year'] <= hi
    | YearIs(year: int)                 // df['Year'] == year
    | SexIs(sex: string)                // df['Sex'] == sex
    | CountryTextIs(text: string)       // df['Country'].astype(str) == text
    | MedalIsNot(medal: string)         // df['Medal'] != medal; a missing medal passes
    | And(left: Mask, right: Mask)      // mask & mask

  /** The country as `astype(str)` renders it: a present name is itself,
      and the rendered text is "nan" exactly when the country is missing or
      is itself the name "nan". */
  function CountryText(c: Option<string>): (s: string)
    ensures c.Some? ==> s == c.value
    ensures s == MissingText <==> c == None || c == Some(MissingText)
  {
    match c
    case Some(s) => s
    case None => MissingText
  }

  /** Whether a row passes a mask, with pandas' comparison rules: `isin` of
      an empty selection matches nothing, no season choice matches nothing,
      a missing medal passes `!=`, and a missing country compares as "nan". */
  predicate Holds(m: Mask, x: Row)
    ensures m.SeasonIn? && m.seasons == {} ==> !Holds(m, x)
    ensures m.TypeIn? && m.types == {} ==> !Holds(m, x)
    ensures m.SeasonIs? && m.season.None? ==> !Holds(m, x)
    ensures m.MedalIsNot? && x.athlete.medal.None? ==> Holds(m, x)
    ensures m.CountryTextIs? && x.country.None? ==> (Holds(m, x) <==> m.text == MissingText)
  {
    match m
    case SeasonIn(seasons) => x.athlete.season in seasons
    case TypeIn(types) => x.athlete.eventType in types
    case SeasonIs(season) => season == Some(x.athlete.season)
    case YearFrom(lo) => x.athlete.year >= lo
    case YearUpTo(hi) => x.athlete.year <= hi
    case YearIs(year) => x.athlete.year == year
    case SexIs(sex) => x.athlete.sex == sex
    case CountryTextIs(text) => CountryText(x.country) == text
    case MedalIsNot(medal) => x.athlete.medal != Some(medal)
    case And(a, b) => Holds(a, x) && Holds(b, x)
  }

  /** `df[mask]`: the rows that pass, in their order; rows are only removed. */
  function Where(t: seq<Row>, m: Mask): (r: seq<Row>)
    ensures |r| <= |t|
  {
    if t == [] then []
    else
      var last := t[|t| - 1];
      Where(t[..|t| - 1], m) + (if Holds(m, last) then [last] else [])
  }

  /** The selection holds exactly the rows of the table that pass. */
  lemma {:induction false} WhereMembers(t: seq<Row>, m: Mask)
    ensures forall x :: x in Where(t, m) <==> x in t && Holds(m, x)
  {
    if t != [] {
      var init, last := t[..|t| - 1], t[|t| - 1];
      assert t == init + [last];
      WhereMembers(init, m);
    }
  }

  /** A mask that every row passes keeps the whole table. */
  lemma {:induction false} WhereAll(t: seq<Row>, m: Mask)
    requires forall x :: x in t ==> Holds(m, x)
    ensures Where(t, m) == t
  {
    if t != [] {
      var init := t[..|t| - 1];
      assert t == init + [t[|t| - 1]];
      WhereAll(init, m);
    }
  }

  /** A mask that no row passes keeps nothing. */
  lemma {:induction false} WhereNone(t: seq<Row>, m: Mask)
    requires forall x :: x in t ==> !Holds(m, x)
    ensures Where(t, m) == []
  {
    if t != [] {
      var init := t[..|t| - 1];
      assert t == init + [t[|t| - 1]];
      WhereNone(init, m);
    }
  }

  /** Selecting from a table with one more row appends that row if it passes. */
  lemma WhereSnoc(t: seq<Row>, x: Row, m: Mask)
    ensures Where(t + [x], m) == Where(t, m) + (if Holds(m, x) then [x] else [])
  {
    var s := t + [x];
    assert s[..|s| - 1] == t;
  }

  /** Selection keeps the order of the rows: selecting from a concatenation
      concatenates the selections. */
  lemma {:induction false} WhereConcat(a: seq<Row>, b: seq<Row>, m: Mask)
    ensures Where(a + b, m) == Where(a, m) + Where(b, m)
    decreases |b|
  {
    if b == [] {
      assert a + b == a;
    } else {
      var init, last := b[..|b| - 1], b[|b| - 1];
      assert b == init + [last];
      assert a + b == (a + init) + [last];
      WhereSnoc(a + init, last, m);
      WhereSnoc(init, last, m);
      WhereConcat(a, init, m);
    }
  }

  /** A passing row is kept as often as it occurs, a failing one never. */
  lemma {:induction false} WhereMultiplicity(t: seq<Row>, m: Mask, x: Row)
    ensures multiset(Where(t, m))[x] == if Holds(m, x) then multiset(t)[x] else 0
  {
    if t != [] {
      var init, last := t[..|t| - 1], t[|t| - 1];
      assert t == init + [last];
      WhereMultiplicity(init, m, x);
    }
  }

  /** Filtering twice is filtering once by both masks. */
  lemma {:induction false} WhereAnd(t: seq<Row>, a: Mask, b: Mask)
    ensures Where(Where(t, a), b) == Where(t, And(a, b))
  {
    if t != [] {
      var init, last := t[..|t| - 1], t[|t| - 1];
      WhereAnd(init, a, b);
      assert t == init + [last];
      WhereSnoc(init, last, a);
      WhereSnoc(init, last, And(a, b));
      if Holds(a, last) {
        WhereSnoc(Where(init, a), last, b);
      } else {
        assert Where(init, a) + [] == Where(init, a);
        assert Where(init, And(a, b)) + [] == Where(init, And(a, b));
        calc {
          Where(Where(t, a), b);
          Where(Where(init, a), b);
          Where(init, And(a, b));
          Where(t, And(a, b));
        }
      }
    }
  }

  /** The season and type multiselect filter shared by every chart. */
  function Selection(seasons: set<string>, types: set<string>): (m: Mask)
    ensures forall x :: Holds(m, x) <==> x.athlete.season in seasons && x.athlete.eventType in types
  {
    And(SeasonIn(seasons), TypeIn(types))
  }

  /** The rows the season and type multiselects keep: exactly those whose
      season and type were both selected. */
  function Selected(df: seq<Row>, seasons: set<string>, types: set<string>): (r: seq<Row>)
    ensures forall x :: x in r <==> x in df && x.athlete.season in seasons && x.athlete.eventType in types
  {
    WhereMembers(df, Selection(seasons, types));
    Where(df, Selection(seasons, types))
  }

  /** An empty season or type selection keeps no row. */
  lemma {:induction false} EmptySelection(df: seq<Row>, seasons: set<string>, types: set<string>)
    requires seasons == {} || types == {}
    ensures Selected(df, seasons, types) == []
  {
    if df != [] {
      EmptySelection(df[..|df| - 1], seasons, types);
    }
  }

  /** The years of a table (`df['Year'].unique()`). */
  function YearsOf(t: seq<Row>): set<int>
  {
    set x | x in t :: x.athlete.year
  }

  /** The single-year filter of the two stacked bar charts: it applies only when
      the years offered for the chosen season(s) are not empty. */
  function YearStep(t: seq<Row>, offered: set<int>, year: int): (r: seq<Row>)
    ensures forall x :: x in r <==> x in t && (offered != {} ==> x.athlete.year == year)
  {
    WhereMembers(t, YearIs(year));
    if offered != {} then Where(t, YearIs(year)) else t
  }

  // ---------------------------------------------------------------------
  // Group keys and counted columns

  function CountryOf(x: Row): Option<string>
  {
    x.country
  }

  function YearOf(x: Row): Option<int>
  {
    Some(x.athlete.year)
  }

  /** The pair (Year, Medal), absent when the medal is missing. */
  function YearMedalOf(x: Row): Option<(int, string)>
  {
    match x.athlete.medal
    case Some(m) => Some((x.athlete.year, m))
    case None => None
  }

  /** The pair (Country, Medal), absent when either is missing. */
  function CountryMedalOf(x: Row): Option<(string, string)>
  {
    match (x.country, x.athlete.medal)
    case (Some(c), Some(m)) => Some((c, m))
    case _ => None
  }

  /** The sunburst path (Sex, Medal, Sport). It is absent when the medal is
      missing, a case the filled table the charts receive never has; plotly
      itself would reject such a row rather than drop it. */
  function PathOf(x: Row): Option<(string, string, string)>
  {
    match x.athlete.medal
    case Some(m) => Some((x.athlete.sex, m, x.athlete.sport))
    case None => None
  }

  predicate HasMedal(x: Row)
  {
    x.athlete.medal.Some?
  }

  predicate HasId(x: Row)
  {
    x.athlete.id.Some?
  }

  // ---------------------------------------------------------------------
  // Total medals by country (the map)

  /** The year range slider's filter, both ends included. */
  function YearRange(lo: int, hi: int): (m: Mask)
    ensures forall x :: Holds(m, x) <==> lo <= x.athlete.year <= hi
  {
    And(YearFrom(lo), YearUpTo(hi))
  }

  /** The rows the map counts: selected season and type, year in the
      slider's range with both ends included. */
  function MapRows(df: seq<Row>, seasons: set<string>, types: set<string>, lo: int, hi: int): (r: seq<Row>)
    ensures forall x :: x in r <==>
      x in df && x.athlete.season in seasons && x.athlete.eventType in types && lo <= x.athlete.year <= hi
  {
    WhereMembers(df, And(Selection(seasons, types), YearRange(lo, hi)));
    Where(df, And(Selection(seasons, types), YearRange(lo, hi)))
  }

  /** `groupby("Country")["Medal"].count()`: one entry per country of a kept
      row, valued by the kept rows of that country whose medal is present;
      the values add up to the kept rows with both a country and a medal. */
  function MedalMap(df: seq<Row>, seasons: set<string>, types: set<string>, lo: int, hi: int): (g: Groups<string>)
    ensures DistinctKeys(g)
    ensures forall c :: c in KeySet(g) <==> exists x :: x in MapRows(df, seasons, types, lo, hi) && x.country == Some(c)
    ensures forall c :: Lookup(g, c) == CountKeyWhere(MapRows(df, seasons, types, lo, hi), CountryOf, c, HasMedal)
    ensures Sum(g) == CountPresentWhere(MapRows(df, seasons, types, lo, hi), CountryOf, HasMedal)
  {
    Aggregate(MapRows(df, seasons, types, lo, hi), CountryOf, HasMedal)
  }

  /** On a table whose medals are all present, as the prepared table's are,
      the map's counts add up to the kept rows that have a country, and each
      country's count is its number of kept rows. */
  lemma MedalMapTotal(df: seq<Row>, seasons: set<string>, types: set<string>, lo: int, hi: int)
    requires forall x :: x in df ==> x.athlete.medal.Some?
    ensures Sum(MedalMap(df, seasons, types, lo, hi)) == CountPresentWhere(MapRows(df, seasons, types, lo, hi), CountryOf, Always)
    ensures forall c :: Lookup(MedalMap(df, seasons, types, lo, hi), c) == CountKeyWhere(MapRows(df, seasons, types, lo, hi), CountryOf, c, Always)
  {
    var rows := MapRows(df, seasons, types, lo, hi);
    CountPresentAll(rows, CountryOf, HasMedal);
    forall c ensures CountKeyWhere(rows, CountryOf, c, HasMedal) == CountKeyWhere(rows, CountryOf, c, Always) {
      CountKeyAll(rows, CountryOf, c, HasMedal);
    }
  }

  // ---------------------------------------------------------------------
  // Participating countries per year

  /** `groupby("Year")["Country"].nunique()`: one entry per year of a selected
      row, valued by the number of distinct present countries among that
      year's selected rows, which never exceeds that year's row count. */
  function CountriesPerYear(df: seq<Row>, seasons: set<string>, types: set<string>): (g: Groups<int>)
    ensures DistinctKeys(g)
    ensures forall y :: y in KeySet(g) <==> exists x :: x in Selected(df, seasons, types) && x.athlete.year == y
    ensures forall y :: y in KeySet(g) ==> Lookup(g, y) == |Values(Selected(df, seasons, types), YearOf, y, CountryOf)|
    ensures forall y :: Lookup(g, y) <= CountKeyWhere(Selected(df, seasons, types), YearOf, y, Always)
  {
    var rows := Selected(df, seasons, types);
    var g := NUnique(rows, YearOf, CountryOf);
    assert forall y :: y in KeySet(g) <==> exists x :: x in rows && YearOf(x) == Some(y);
    g
  }

  // ---------------------------------------------------------------------
  // Participants per year, male and female

  /** The two series of the participants chart. */
  datatype Participants = Participants(male: Groups<int>, female: Groups<int>)

  /** The selected rows of one sex; the sex test comes first in the mask. */
  function SexRows(df: seq<Row>, sex: string, seasons: set<string>, types: set<string>): (r: seq<Row>)
    ensures forall x :: x in r <==> x in Selected(df, seasons, types) && x.athlete.sex == sex
  {
    WhereMembers(df, And(SexIs(sex), Selection(seasons, types)));
    assert forall x :: Holds(SexIs(sex), x) <==> x.athlete.sex == sex;
    Where(df, And(SexIs(sex), Selection(seasons, types)))
  }

  /** `groupby('Year')['ID'].count()` over the selected rows of each sex: it
      counts rows with an ID, not distinct IDs. For every year, males plus
      females never exceed that year's selected rows. */
  function ParticipantsPerYear(df: seq<Row>, seasons: set<string>, types: set<string>): (p: Participants)
    ensures DistinctKeys(p.male) && DistinctKeys(p.female)
    ensures forall y :: y in KeySet(p.male) <==>
      exists x :: x in Selected(df, seasons, types) && x.athlete.sex == "M" && x.athlete.year == y
    ensures forall y :: y in KeySet(p.female) <==>
      exists x :: x in Selected(df, seasons, types) && x.athlete.sex == "F" && x.athlete.year == y
    ensures forall y :: Lookup(p.male, y) == CountKeyWhere(SexRows(df, "M", seasons, types), YearOf, y, HasId)
    ensures forall y :: Lookup(p.female, y) == CountKeyWhere(SexRows(df, "F", seasons, types), YearOf, y, HasId)
    ensures forall y :: Lookup(p.male, y) + Lookup(p.female, y) <= CountKeyWhere(Selected(df, seasons, types), YearOf, y, Always)
  {
    var male := Aggregate(SexRows(df, "M", seasons, types), YearOf, HasId);
    var female := Aggregate(SexRows(df, "F", seasons, types), YearOf, HasId);
    forall y ensures Lookup(male, y) + Lookup(female, y) <= CountKeyWhere(Selected(df, seasons, types), YearOf, y, Always) {
      SexesWithinYear(df, Selection(seasons, types), y);
    }
    Participants(male, female)
  }

  /** Whether a row passes the mask, has year y and is counted: its
      contribution to a year's count. */
  function Contribution(m: Mask, x: Row, y: int, counted: Row -> bool): nat
  {
    if Holds(m, x) && x.athlete.year == y && counted(x) then 1 else 0
  }

  /** Counting a selection of a non-empty table: the selection of all rows
      but the last, plus the last row's contribution. */
  lemma SelectionCount(t: seq<Row>, m: Mask, y: int, counted: Row -> bool)
    requires t != []
    ensures CountKeyWhere(Where(t, m), YearOf, y, counted)
      == CountKeyWhere(Where(t[..|t| - 1], m), YearOf, y, counted) + Contribution(m, t[|t| - 1], y, counted)
  {
    var init, last := t[..|t| - 1], t[|t| - 1];
    if Holds(m, last) {
      CountKeySnoc(Where(init, m), last, YearOf, y, counted);
    } else {
      assert Where(init, m) + [] == Where(init, m);
    }
  }

  /** Counting a year's rows in a selection is counting the year's rows of
      the whole table that pass the mask and are counted. */
  lemma {:induction false} CountSelection(t: seq<Row>, m: Mask, y: int, counted: Row -> bool)
    ensures CountKeyWhere(Where(t, m), YearOf, y, counted)
      == CountKeyWhere(t, YearOf, y, x => Holds(m, x) && counted(x))
  {
    if t != [] {
      CountSelection(t[..|t| - 1], m, y, counted);
      SelectionCount(t, m, y, counted);
    }
  }

  /** A row is of one sex at most, and counting it under a narrower mask and
      only with an ID never counts it more. */
  lemma SexesOfRow(m: Mask, x: Row, y: int)
    ensures Contribution(And(SexIs("M"), m), x, y, HasId) + Contribution(And(SexIs("F"), m), x, y, HasId)
      <= Contribution(m, x, y, Always)
  {
    assert Holds(And(SexIs("M"), m), x) <==> x.athlete.sex == "M" && Holds(m, x);
    assert Holds(And(SexIs("F"), m), x) <==> x.athlete.sex == "F" && Holds(m, x);
  }

  /** The rows of one year of either sex are at most that year's rows. */
  lemma {:induction false} SexesWithinYear(t: seq<Row>, m: Mask, y: int)
    ensures CountKeyWhere(Where(t, And(SexIs("M"), m)), YearOf, y, HasId)
      + CountKeyWhere(Where(t, And(SexIs("F"), m)), YearOf, y, HasId)
      <= CountKeyWhere(Where(t, m), YearOf, y, Always)
  {
    if t != [] {
      SexesWithinYear(t[..|t| - 1], m, y);
      SelectionCount(t, And(SexIs("M"), m), y, HasId);
      SelectionCount(t, And(SexIs("F"), m), y, HasId);
      SelectionCount(t, m, y, Always);
      SexesOfRow(m, t[|t| - 1], y);
    }
  }

  // ---------------------------------------------------------------------
  // Sunburst of sex, medal and sport

  /** What the sunburst receives: the year shown in its title and the rows
      it draws, with the row count of each (Sex, Medal, Sport) leaf. */
  datatype Sunburst = Sunburst(year: Option<int>, rows: seq<Row>, leaves: Groups<(string, string, string)>)

  /** The sunburst's rows: the selected rows, narrowed to one country (compared
      as text) unless the choice is "All Countries"; the year plays no part. */
  function SunburstRows(df: seq<Row>, seasons: set<string>, types: set<string>, country: string): (r: seq<Row>)
    ensures forall x :: x in r <==>
      x in Selected(df, seasons, types) && (country != AllCountries ==> CountryText(x.country) == country)
  {
    var rows := Selected(df, seasons, types);
    WhereMembers(rows, CountryTextIs(country));
    if country != AllCountries then Where(rows, CountryTextIs(country)) else rows
  }

  /** The sunburst chart: the chosen year only labels it, the rows do not
      depend on it, and the leaves count the rows of each path. */
  function SunburstChart(df: seq<Row>, seasons: set<string>, types: set<string>, year: Option<int>, country: string): (c: Sunburst)
    ensures c.year == year
    ensures c.rows == SunburstRows(df, seasons, types, country)
    ensures DistinctKeys(c.leaves)
    ensures forall k :: k in KeySet(c.leaves) <==> exists x :: x in c.rows && PathOf(x) == Some(k)
    ensures forall i :: 0 <= i < |c.leaves| ==> c.leaves[i].1 > 0
    ensures forall k :: Lookup(c.leaves, k) == CountKeyWhere(c.rows, PathOf, k, Always)
    ensures Sum(c.leaves) == CountPresentWhere(c.rows, PathOf, Always)
  {
    var rows := SunburstRows(df, seasons, types, country);
    Sunburst(year, rows, Tally(rows, PathOf))
  }

  // ---------------------------------------------------------------------
  // Medals over the years (scatter plot)

  /** The rows the scatter plot counts: selected, and not "No Medal". */
  function MedalRows(df: seq<Row>, seasons: set<string>, types: set<string>): (r: seq<Row>)
    ensures forall x :: x in r <==> x in Selected(df, seasons, types) && x.athlete.medal != Some(NoMedal)
  {
    WhereMembers(df, And(Selection(seasons, types), MedalIsNot(NoMedal)));
    assert forall x :: Holds(MedalIsNot(NoMedal), x) <==> x.athlete.medal != Some(NoMedal);
    Where(df, And(Selection(seasons, types), MedalIsNot(NoMedal)))
  }

  /** `groupby(['Year', 'Medal']).size()` after dropping "No Medal": no key
      has the sentinel, every key is the year and medal of a kept row, and
      the counts add up to the kept rows with a medal. */
  function MedalsOverYears(df: seq<Row>, seasons: set<string>, types: set<string>): (g: Groups<(int, string)>)
    ensures DistinctKeys(g)
    ensures forall i :: 0 <= i < |g| ==> g[i].0.1 != NoMedal
    ensures forall k :: k in KeySet(g) <==>
      exists x :: x in MedalRows(df, seasons, types) && x.athlete.year == k.0 && x.athlete.medal == Some(k.1)
    ensures forall k :: Lookup(g, k) == CountKeyWhere(MedalRows(df, seasons, types), YearMedalOf, k, Always)
    ensures Sum(g) == CountPresentWhere(MedalRows(df, seasons, types), YearMedalOf, Always)
  {
    var rows := MedalRows(df, seasons, types);
    var g := Tally(rows, YearMedalOf);
    forall i | 0 <= i < |g| ensures g[i].0.1 != NoMedal {
      assert g[i].0 in KeySet(g);
    }
    g
  }

  /** On a table whose medals are all present the scatter counts add up to
      the number of kept rows. */
  lemma MedalsOverYearsTotal(df: seq<Row>, seasons: set<string>, types: set<string>)
    requires forall x :: x in df ==> x.athlete.medal.Some?
    ensures Sum(MedalsOverYears(df, seasons, types)) == |MedalRows(df, seasons, types)|
  {
    CountPresentEverywhere(MedalRows(df, seasons, types), YearMedalOf);
  }

  /** `range(lo, hi + 1, 8)`: every eighth year from lo, none past hi, and
      the last one within eight years of hi. */
  function EveryEighth(lo: int, hi: int): (r: seq<int>)
    ensures forall i :: 0 <= i < |r| ==> r[i] == lo + 8 * i && r[i] <= hi
    ensures lo <= hi <==> r != []
    ensures r != [] ==> hi < r[|r| - 1] + 8
    decreases hi - lo
  {
    if lo > hi then [] else [lo] + EveryEighth(lo + 8, hi)
  }

  /** The earliest year of a non-empty scatter table (Python's `min`). */
  function FirstYear(g: Groups<(int, string)>): (y: int)
    requires g != []
    ensures forall i :: 0 <= i < |g| ==> y <= g[i].0.0
    ensures exists i :: 0 <= i < |g| && y == g[i].0.0
  {
    if |g| == 1 then g[0].0.0
    else
      var rest := FirstYear(g[1..]);
      assert forall i :: 1 <= i < |g| ==> g[i] == g[1..][i - 1];
      if g[0].0.0 <= rest then g[0].0.0 else rest
  }

  /** The latest year of a non-empty scatter table (Python's `max`). */
  function LastYear(g: Groups<(int, string)>): (y: int)
    requires g != []
    ensures forall i :: 0 <= i < |g| ==> g[i].0.0 <= y
    ensures exists i :: 0 <= i < |g| && y == g[i].0.0
  {
    if |g| == 1 then g[0].0.0
    else
      var rest := LastYear(g[1..]);
      assert forall i :: 1 <= i < |g| ==> g[i] == g[1..][i - 1];
      if g[0].0.0 >= rest then g[0].0.0 else rest
  }

  /** The scatter plot's tick years as written: Python's `min` and `max` of
      the empty `Year` column raise, which is `None` here, so the ticks fail
      exactly when the table is empty. */
  function TicksAsWritten(g: Groups<(int, string)>): (r: Option<seq<int>>)
    ensures r.None? <==> g == []
    ensures r.Some? ==> r.value != [] && r.value[0] == FirstYear(g)
  {
    if g == [] then None else Some(EveryEighth(FirstYear(g), LastYear(g)))
  }

  /** An empty season selection, the widgets' initial state, leaves the
      scatter table empty, so the tick computation as written raises. */
  lemma EmptySelectionBreaksTicks(df: seq<Row>, types: set<string>)
    ensures TicksAsWritten(MedalsOverYears(df, {}, types)) == None
  {
    var m := And(Selection({}, types), MedalIsNot(NoMedal));
    assert forall x :: !Holds(m, x);
    WhereNone(df, m);
    assert Tally(MedalRows(df, {}, types), YearMedalOf) == [];
  }

  /** The tick years with an empty table getting no ticks: every plotted
      year lies within the span of the ticks, and the ticks run every eight
      years from the earliest plotted year without passing the latest. */
  function Ticks(g: Groups<(int, string)>): (r: seq<int>)
    ensures g == [] <==> r == []
    ensures g != [] ==> TicksAsWritten(g) == Some(r)
    ensures r != [] ==> forall i :: 0 <= i < |g| ==> r[0] <= g[i].0.0 < r[|r| - 1] + 8
    ensures forall i :: 0 <= i < |r| ==> r[i] == r[0] + 8 * i
    ensures forall i :: 0 <= i < |r| ==> exists j :: 0 <= j < |g| && r[i] <= g[j].0.0
  {
    if g == [] then [] else
      var lo, hi := FirstYear(g), LastYear(g);
      var r := EveryEighth(lo, hi);
      assert r[0] == lo;
      r
  }

  /** An empty season selection renders an empty scatter plot with no ticks
      rather than failing. */
  lemma EmptySelectionTicks(df: seq<Row>, types: set<string>)
    ensures MedalsOverYears(df, {}, types) == []
    ensures Ticks(MedalsOverYears(df, {}, types)) == []
  {
    EmptySelectionBreaksTicks(df, types);
  }

  // ---------------------------------------------------------------------
  // Medal counts by country and medal (stacked bars)

  /** The years offered for the chosen season among the selected rows. */
  function SeasonYears(df: seq<Row>, seasons: set<string>, types: set<string>, season: Option<string>): (ys: set<int>)
    ensures forall y :: y in ys <==>
      exists x :: x in Selected(df, seasons, types) && Some(x.athlete.season) == season && x.athlete.year == y
  {
    WhereMembers(Selected(df, seasons, types), SeasonIs(season));
    YearsOf(Where(Selected(df, seasons, types), SeasonIs(season)))
  }

  /** The rows the stacked bars count: selected, and of the slider's year
      when the chosen season offers any year. */
  function CountryMedalRows(df: seq<Row>, seasons: set<string>, types: set<string>, season: Option<string>, year: int): (r: seq<Row>)
    ensures forall x :: x in r <==>
      (x in Selected(df, seasons, types) && (SeasonYears(df, seasons, types, season) != {} ==> x.athlete.year == year))
  {
    YearStep(Selected(df, seasons, types), SeasonYears(df, seasons, types, season), year)
  }

  /** `groupby(['Country', 'Medal']).size()`: every key is the country and
      medal of a kept row, and the counts add up to the kept rows with both. */
  function MedalsByCountry(df: seq<Row>, seasons: set<string>, types: set<string>, season: Option<string>, year: int): (g: Groups<(string, string)>)
    ensures DistinctKeys(g)
    ensures forall k :: k in KeySet(g) <==>
      exists x :: x in CountryMedalRows(df, seasons, types, season, year) && x.country == Some(k.0) && x.athlete.medal == Some(k.1)
    ensures forall k :: Lookup(g, k) == CountKeyWhere(CountryMedalRows(df, seasons, types, season, year), CountryMedalOf, k, Always)
    ensures Sum(g) == CountPresentWhere(CountryMedalRows(df, seasons, types, season, year), CountryMedalOf, Always)
  {
    var rows := CountryMedalRows(df, seasons, types, season, year);
    var g := Tally(rows, CountryMedalOf);
    forall k ensures k in KeySet(g) <==> exists x :: x in rows && x.country == Some(k.0) && x.athlete.medal == Some(k.1) {
      assert k in KeySet(g) <==> exists x :: x in rows && CountryMedalOf(x) == Some(k);
    }
    g
  }

  // ---------------------------------------------------------------------
  // Total medals by country, sorted (top countries)

  /** The years offered for the chosen seasons among the selected rows. */
  function SeasonsYears(df: seq<Row>, seasons: set<string>, types: set<string>, chosen: set<string>): (ys: set<int>)
    ensures forall y :: y in ys <==>
      exists x :: x in Selected(df, seasons, types) && x.athlete.season in chosen && x.athlete.year == y
  {
    WhereMembers(Selected(df, seasons, types), SeasonIn(chosen));
    YearsOf(Where(Selected(df, seasons, types), SeasonIn(chosen)))
  }

  /** The rows the top-countries chart counts: selected, of the slider's year
      when the chosen seasons offer any year, and not "No Medal". */
  function TopRows(df: seq<Row>, seasons: set<string>, types: set<string>, chosen: set<string>, year: int): (r: seq<Row>)
    ensures forall x :: x in r <==>
      (x in Selected(df, seasons, types)
       && (SeasonsYears(df, seasons, types, chosen) != {} ==> x.athlete.year == year)
       && x.athlete.medal != Some(NoMedal))
  {
    var rows := YearStep(Selected(df, seasons, types), SeasonsYears(df, seasons, types, chosen), year);
    WhereMembers(rows, MedalIsNot(NoMedal));
    Where(rows, MedalIsNot(NoMedal))
  }

  /** `groupby('Country').size()` then `sort_values(by='Count', ascending=False)`:
      the counts never increase down the list, the list is a permutation of
      the grouped counts, each country appears once, and each entry is the
      number of kept rows of its country. */
  function TopCountries(df: seq<Row>, seasons: set<string>, types: set<string>, chosen: set<string>, year: int): (g: Groups<string>)
    ensures NonIncreasing(g)
    ensures multiset(g) == multiset(Tally(TopRows(df, seasons, types, chosen, year), CountryOf))
    ensures DistinctKeys(g)
    ensures forall i :: 0 <= i < |g| ==> g[i].1 == CountKeyWhere(TopRows(df, seasons, types, chosen, year), CountryOf, g[i].0, Always)
    ensures forall c :: c in KeySet(g) <==> exists x :: x in TopRows(df, seasons, types, chosen, year) && x.country == Some(c)
  {
    var groups := Tally(TopRows(df, seasons, types, chosen, year), CountryOf);
    var g := SortByValue(groups);
    PermutationKeys(groups, g);
    g
  }
}
