/** Preparation of the athletes table: the missing medal is filled with a
    sentinel, each row is joined to the reference table of regions on its
    committee code, the region name becomes the Country column, the join key
    is dropped, and three medal indicator columns are derived. The two input
    tables are parameters; reading them from files is not modelled. */
module Preprocess {
  import opened Frame
  import PyStr

  /** The sentinel that stands for "no medal won". */
  const NoMedal: string := "No Medal"

  /** A row of the primary athletes table, with the columns the dashboard
      uses (Age, Height and Weight are not modelled). */
  datatype Athlete = Athlete(
    id: Option<int>,
    name: string,
    sex: string,
    noc: string,
    year: int,
    season: string,
    eventType: string,
    sport: string,
    event: string,
    medal: Option<string>)

  /** A row of the reference table, restricted to its `noc_region` and `reg` columns. */
  datatype Region = Region(nocRegion: string, reg: Option<string>)

  /** A row of the left join: the primary columns plus the two reference
      columns, both absent when no reference row matched. */
  datatype Merged = Merged(athlete: Athlete, nocRegion: Option<string>, reg: Option<string>)

  /** A row after `reg` is renamed to Country and `noc_region` is dropped. */
  datatype Located = Located(athlete: Athlete, country: Option<string>)

  /** A row of the prepared table. */
  datatype Row = Row(athlete: Athlete, country: Option<string>, gold: nat, silver: nat, bronze: nat)

  // ---------------------------------------------------------------------
  // Filling the missing medal

  /** One row with its missing medal replaced by the sentinel. */
  function FillRow(a: Athlete): Athlete
  {
    if a.medal.None? then a.(medal := Some(NoMedal)) else a
  }

  /** The table after `fillna("No Medal")` on the Medal column: no medal is
      absent any more, a medal that was present is unchanged, and nothing
      else in any row changes. */
  function Filled(t: seq<Athlete>): (r: seq<Athlete>)
    ensures |r| == |t|
    ensures forall i :: 0 <= i < |r| ==> r[i].medal.Some?
    ensures forall i :: 0 <= i < |r| && t[i].medal.Some? ==> r[i] == t[i]
    ensures forall i :: 0 <= i < |r| && t[i].medal.None? ==> r[i] == t[i].(medal := Some(NoMedal))
  {
    seq(|t|, i requires 0 <= i < |t| => FillRow(t[i]))
  }

  /** The fill is done in place on the loaded table. */
  method FillMedalInPlace(df: array<Athlete>)
    modifies df
    ensures df[..] == Filled(old(df[..]))
  {
    for i := 0 to df.Length
      invariant forall j :: 0 <= j < i ==> df[j] == FillRow(old(df[j]))
      invariant forall j :: i <= j < df.Length ==> df[j] == old(df[j])
    {
      if df[i].medal.None? {
        df[i] := df[i].(medal := Some(NoMedal));
      }
    }
  }

  // ---------------------------------------------------------------------
  // The left join on NOC == noc_region

  /** The reference rows whose key is `noc`, in reference-table order. */
  function Matches(regions: seq<Region>, noc: string): (ms: seq<Region>)
    ensures |ms| <= |regions|
    ensures forall m :: m in ms <==> m in regions && m.nocRegion == noc
  {
    if regions == [] then []
    else
      var init := regions[..|regions| - 1];
      var last := regions[|regions| - 1];
      assert regions == init + [last];
      Matches(init, noc) + (if last.nocRegion == noc then [last] else [])
  }

  /** Each matching reference row is matched as often as it occurs in the
      reference table, and no other row is matched. */
  lemma {:induction false} MatchesMultiplicity(regions: seq<Region>, noc: string)
    ensures forall m :: multiset(Matches(regions, noc))[m] == if m.nocRegion == noc then multiset(regions)[m] else 0
  {
    if regions != [] {
      var init := regions[..|regions| - 1];
      var last := regions[|regions| - 1];
      assert regions == init + [last];
      assert multiset(regions) == multiset(init) + multiset{last};
      MatchesMultiplicity(init, noc);
      var tail := if last.nocRegion == noc then [last] else [];
      assert Matches(regions, noc) == Matches(init, noc) + tail;
      assert multiset(Matches(regions, noc)) == multiset(Matches(init, noc)) + multiset(tail);
    }
  }

  /** Matching keeps the reference order: the matches in two tables put
      together are the matches in the first, then those in the second. */
  lemma {:induction false} MatchesConcat(a: seq<Region>, b: seq<Region>, noc: string)
    ensures Matches(a + b, noc) == Matches(a, noc) + Matches(b, noc)
    decreases |b|
  {
    if b == [] {
      assert a + b == a;
      assert Matches(a, noc) + Matches(b, noc) == Matches(a, noc);
    } else {
      var init, last := b[..|b| - 1], b[|b| - 1];
      assert init + [last] == b;
      assert a + b == (a + init) + [last];
      assert (a + b)[..|a + b| - 1] == a + init;
      MatchesConcat(a, init, noc);
      var tail := if last.nocRegion == noc then [last] else [];
      assert Matches(a + b, noc) == Matches(a + init, noc) + tail;
      assert Matches(b, noc) == Matches(init, noc) + tail;
      Frame.ConcatAssoc(Matches(a, noc), Matches(init, noc), tail);
    }
  }

  /** The joined rows produced by one primary row: one per matching
      reference row, or a single row with both reference columns absent. */
  function JoinRow(a: Athlete, regions: seq<Region>): (r: seq<Merged>)
    ensures |r| >= 1
    ensures forall m :: m in r ==> m.athlete == a
  {
    var ms := Matches(regions, a.noc);
    if ms == [] then [Merged(a, None, None)]
    else seq(|ms|, i requires 0 <= i < |ms| => Merged(a, Some(ms[i].nocRegion), ms[i].reg))
  }

  /** An unmatched primary row yields exactly one row with both reference
      columns absent; a matched one yields one row per matching reference
      row, in reference order, carrying the code and that row's name. */
  lemma JoinRowMatches(a: Athlete, regions: seq<Region>)
    ensures Matches(regions, a.noc) == [] ==> JoinRow(a, regions) == [Merged(a, None, None)]
    ensures Matches(regions, a.noc) != [] ==> |JoinRow(a, regions)| == |Matches(regions, a.noc)|
    ensures Matches(regions, a.noc) != [] ==> forall i :: 0 <= i < |JoinRow(a, regions)| ==>
      JoinRow(a, regions)[i] == Merged(a, Some(a.noc), Matches(regions, a.noc)[i].reg)
  {
    var ms := Matches(regions, a.noc);
    forall i | 0 <= i < |ms| ensures ms[i].nocRegion == a.noc {
      assert ms[i] in ms;
    }
  }

  /** `merge(..., how='left')`: the joined rows of each primary row, in
      primary order. */
  function Merge(left: seq<Athlete>, regions: seq<Region>): (r: seq<Merged>)
    ensures |r| >= |left|
  {
    if left == [] then []
    else Merge(left[..|left| - 1], regions) + JoinRow(left[|left| - 1], regions)
  }

  /** Every primary row yields at least one joined row and every joined row
      comes from a primary row; a joined row whose code has no reference row
      has both reference columns absent, and otherwise carries the key and
      the name of a reference row for its code. */
  lemma {:induction false} MergeRows(left: seq<Athlete>, regions: seq<Region>)
    ensures |Merge(left, regions)| >= |left|
    ensures forall m :: m in Merge(left, regions) ==> m.athlete in left
    ensures forall m :: m in Merge(left, regions) && Matches(regions, m.athlete.noc) == [] ==>
      m.nocRegion.None? && m.reg.None?
    ensures forall m :: m in Merge(left, regions) && Matches(regions, m.athlete.noc) != [] ==>
      m.nocRegion == Some(m.athlete.noc) && Region(m.athlete.noc, m.reg) in regions
  {
    if left != [] {
      var init := left[..|left| - 1];
      var last := left[|left| - 1];
      assert left == init + [last];
      MergeRows(init, regions);
      var ms := Matches(regions, last.noc);
      var j := JoinRow(last, regions);
      forall m | m in j && ms != []
        ensures m.nocRegion == Some(last.noc) && Region(last.noc, m.reg) in regions
      {
        var i :| 0 <= i < |j| && j[i] == m;
        assert ms[i] in ms;
      }
    }
  }

  /** Every primary row has a joined row. */
  lemma {:induction false} MergeCovers(left: seq<Athlete>, regions: seq<Region>)
    ensures forall i :: 0 <= i < |left| ==>
      exists j :: 0 <= j < |Merge(left, regions)| && Merge(left, regions)[j].athlete == left[i]
  {
    if left != [] {
      var init, last := left[..|left| - 1], left[|left| - 1];
      assert left == init + [last];
      MergeCovers(init, regions);
      var mi, jr := Merge(init, regions), JoinRow(last, regions);
      assert Merge(left, regions) == mi + jr;
      forall i | 0 <= i < |left|
        ensures exists j :: 0 <= j < |Merge(left, regions)| && Merge(left, regions)[j].athlete == left[i]
      {
        if i < |init| {
          var j :| 0 <= j < |mi| && mi[j].athlete == init[i];
          assert Merge(left, regions)[j] == mi[j];
        } else {
          assert jr[0] in jr;
          assert Merge(left, regions)[|mi|] == jr[0];
        }
      }
    }
  }

  /** Joining one more primary row appends its joined rows. */
  lemma MergeSnoc(left: seq<Athlete>, a: Athlete, regions: seq<Region>)
    ensures Merge(left + [a], regions) == Merge(left, regions) + JoinRow(a, regions)
  {
    var l := left + [a];
    assert l[..|l| - 1] == left;
  }

  /** The join keeps the primary order: joining a concatenation joins each part. */
  lemma {:induction false} MergeConcat(a: seq<Athlete>, b: seq<Athlete>, regions: seq<Region>)
    ensures Merge(a + b, regions) == Merge(a, regions) + Merge(b, regions)
    decreases |b|
  {
    if b == [] {
      assert a + b == a;
      assert Merge(a, regions) + Merge(b, regions) == Merge(a, regions);
    } else {
      var init, last := b[..|b| - 1], b[|b| - 1];
      assert init + [last] == b;
      assert a + b == (a + init) + [last];
      MergeConcat(a, init, regions);
      MergeSnoc(a + init, last, regions);
      MergeSnoc(init, last, regions);
      Frame.ConcatAssoc(Merge(a, regions), Merge(init, regions), JoinRow(last, regions));
    }
  }

  /** Every reference key occurs at most once. */
  predicate UniqueKeys(regions: seq<Region>)
  {
    forall i, j :: 0 <= i < j < |regions| ==> regions[i].nocRegion != regions[j].nocRegion
  }

  /** A code that no reference row has matches nothing. */
  lemma {:induction false} MatchesNone(regions: seq<Region>, noc: string)
    requires forall m :: m in regions ==> m.nocRegion != noc
    ensures Matches(regions, noc) == []
  {
    if regions != [] {
      var init := regions[..|regions| - 1];
      assert forall m :: m in init ==> m in regions;
      MatchesNone(init, noc);
    }
  }

  /** With unique keys a code matches at most one reference row. */
  lemma {:induction false} MatchesAtMostOne(regions: seq<Region>, noc: string)
    requires UniqueKeys(regions)
    ensures |Matches(regions, noc)| <= 1
  {
    if regions != [] {
      var init := regions[..|regions| - 1];
      var last := regions[|regions| - 1];
      assert UniqueKeys(init);
      MatchesAtMostOne(init, noc);
      if last.nocRegion == noc {
        assert forall m :: m in init ==> m.nocRegion != noc;
        MatchesNone(init, noc);
      }
    }
  }

  /** The region name the reference table gives `noc`: absent when no
      reference row has that key. */
  function RegionOf(regions: seq<Region>, noc: string): (c: Option<string>)
    ensures Matches(regions, noc) == [] ==> c.None?
    ensures Matches(regions, noc) != [] ==> Region(noc, c) in regions
  {
    var ms := Matches(regions, noc);
    if ms == [] then None
    else
      assert ms[0] in ms;
      ms[0].reg
  }

  /** With unique keys, the region name of a code is the `reg` of the
      reference row that has that code. */
  lemma RegionOfMatch(regions: seq<Region>, r: Region)
    requires UniqueKeys(regions) && r in regions
    ensures RegionOf(regions, r.nocRegion) == r.reg
  {
    var ms := Matches(regions, r.nocRegion);
    MatchesAtMostOne(regions, r.nocRegion);
    assert r in ms;
    assert ms[0] in ms;
  }

  /** With unique reference keys the join has exactly one row per primary
      row, in the same order, carrying the region name of its code. */
  lemma {:induction false} MergeUnique(left: seq<Athlete>, regions: seq<Region>)
    requires UniqueKeys(regions)
    ensures |Merge(left, regions)| == |left|
    ensures forall i :: 0 <= i < |left| ==>
      Merge(left, regions)[i].athlete == left[i] && Merge(left, regions)[i].reg == RegionOf(regions, left[i].noc)
  {
    if left != [] {
      var init, last := left[..|left| - 1], left[|left| - 1];
      assert left == init + [last];
      MergeSnoc(init, last, regions);
      MergeUnique(init, regions);
      JoinRowUnique(last, regions);
      var mi, m := Merge(init, regions), Merge(left, regions);
      assert m == mi + JoinRow(last, regions);
      assert |mi| == |init|;
      forall i | 0 <= i < |left|
        ensures m[i].athlete == left[i] && m[i].reg == RegionOf(regions, left[i].noc)
      {
        if i < |init| {
          assert m[i] == mi[i] && left[i] == init[i];
        }
      }
    }
  }

  /** With unique reference keys one primary row yields exactly one joined row. */
  lemma JoinRowUnique(a: Athlete, regions: seq<Region>)
    requires UniqueKeys(regions)
    ensures |JoinRow(a, regions)| == 1
    ensures JoinRow(a, regions)[0].athlete == a && JoinRow(a, regions)[0].reg == RegionOf(regions, a.noc)
  {
    MatchesAtMostOne(regions, a.noc);
  }

  // ---------------------------------------------------------------------
  // Renaming reg to Country and dropping noc_region

  /** `rename(columns={'reg': 'Country'})` then `drop(columns=['noc_region'])`:
      one row per joined row, the primary columns unchanged, Country holding
      what `reg` held, and the join key gone. */
  function RenameAndDrop(t: seq<Merged>): (r: seq<Located>)
    ensures |r| == |t|
    ensures forall i :: 0 <= i < |r| ==> r[i].athlete == t[i].athlete && r[i].country == t[i].reg
  {
    seq(|t|, i requires 0 <= i < |t| => Located(t[i].athlete, t[i].reg))
  }

  // ---------------------------------------------------------------------
  // The Gold, Silver and Bronze columns

  /** One row with its three indicator columns; the medal must be a string,
      which the fill guarantees. The other columns are kept, and each
      indicator is positive exactly when the medal contains its word. */
  function IndicatorRow(l: Located): (r: Row)
    requires l.athlete.medal.Some?
    ensures r.athlete == l.athlete && r.country == l.country
    ensures r.gold > 0 <==> PyStr.Contains(l.athlete.medal.value, "Gold")
    ensures r.silver > 0 <==> PyStr.Contains(l.athlete.medal.value, "Silver")
    ensures r.bronze > 0 <==> PyStr.Contains(l.athlete.medal.value, "Bronze")
  {
    var m := l.athlete.medal.value;
    PyStr.CountPositiveIffContains(m, "Gold");
    PyStr.CountPositiveIffContains(m, "Silver");
    PyStr.CountPositiveIffContains(m, "Bronze");
    Row(l.athlete, l.country, PyStr.Count(m, "Gold"), PyStr.Count(m, "Silver"), PyStr.Count(m, "Bronze"))
  }

  /** A row whose medal is present and whose three indicators are the
      counts of their words in it. */
  predicate Counted(r: Row)
  {
    r.athlete.medal.Some?
    && r.gold == PyStr.Count(r.athlete.medal.value, "Gold")
    && r.silver == PyStr.Count(r.athlete.medal.value, "Silver")
    && r.bronze == PyStr.Count(r.athlete.medal.value, "Bronze")
  }

  /** `df['Gold'] = df['Medal'].apply(lambda x: x.count('Gold'))` and likewise
      for Silver and Bronze: each indicator is the number of occurrences of
      its word in the medal, and the other columns are unchanged. */
  function WithIndicators(t: seq<Located>): (r: seq<Row>)
    requires forall i :: 0 <= i < |t| ==> t[i].athlete.medal.Some?
    ensures |r| == |t|
    ensures forall i :: 0 <= i < |r| ==> r[i].athlete == t[i].athlete && r[i].country == t[i].country
    ensures forall i :: 0 <= i < |r| ==> Counted(r[i])
    ensures forall i :: 0 <= i < |r| ==> (r[i].gold > 0 <==> PyStr.Contains(t[i].athlete.medal.value, "Gold"))
    ensures forall i :: 0 <= i < |r| ==> (r[i].silver > 0 <==> PyStr.Contains(t[i].athlete.medal.value, "Silver"))
    ensures forall i :: 0 <= i < |r| ==> (r[i].bronze > 0 <==> PyStr.Contains(t[i].athlete.medal.value, "Bronze"))
  {
    seq(|t|, i requires 0 <= i < |t| => IndicatorRow(t[i]))
  }

  /** The medal categories of the dataset, the sentinel included. */
  predicate IsCategory(m: string)
  {
    m == "Gold" || m == "Silver" || m == "Bronze" || m == NoMedal
  }

  /** For each category the indicators are 0 or 1, at most one of them is 1,
      the one that is 1 names the category, and the sentinel gives 0/0/0. */
  lemma CategoryIndicators(m: string)
    requires IsCategory(m)
    ensures PyStr.Count(m, "Gold") == (if m == "Gold" then 1 else 0)
    ensures PyStr.Count(m, "Silver") == (if m == "Silver" then 1 else 0)
    ensures PyStr.Count(m, "Bronze") == (if m == "Bronze" then 1 else 0)
  {
    WordCount(m, "Gold");
    WordCount(m, "Silver");
    WordCount(m, "Bronze");
  }

  /** A category counts a medal word once if it is that word, otherwise never. */
  lemma WordCount(m: string, w: string)
    requires IsCategory(m) && w in ["Gold", "Silver", "Bronze"]
    ensures PyStr.Count(m, w) == (if m == w then 1 else 0)
  {
    if m == w {
      PyStr.CountSelf(w);
    } else {
      NoOccurrence(m, w);
      PyStr.CountAbsent(m, w);
    }
  }

  /** No category contains the word of another category: the word's first
      letter does not occur in it. */
  lemma NoOccurrence(m: string, w: string)
    requires IsCategory(m) && w in ["Gold", "Silver", "Bronze"] && m != w
    ensures !PyStr.Contains(m, w)
  {
    assert w[0] !in m;
    PyStr.FirstCharMissing(m, w);
  }

  // ---------------------------------------------------------------------
  // The whole preparation

  /** The filled, joined and renamed table, before the indicator columns. */
  function Joined(primary: seq<Athlete>, regions: seq<Region>): (l: seq<Located>)
    ensures |l| >= |primary|
    ensures forall i :: 0 <= i < |l| ==> l[i].athlete in Filled(primary)
  {
    var merged := Merge(Filled(primary), regions);
    MergeRows(Filled(primary), regions);
    var located := RenameAndDrop(merged);
    forall i | 0 <= i < |located| ensures located[i].athlete in Filled(primary) {
      assert merged[i] in merged;
    }
    located
  }

  /** The prepared table, as a function of the two input tables. */
  function Prepare(primary: seq<Athlete>, regions: seq<Region>): (df: seq<Row>)
    ensures |df| >= |primary|
    ensures forall i :: 0 <= i < |df| ==> df[i].athlete in Filled(primary)
    ensures forall i :: 0 <= i < |df| ==> Counted(df[i])
  {
    var located := Joined(primary, regions);
    assert forall i :: 0 <= i < |located| ==> located[i].athlete.medal.Some?;
    WithIndicators(located)
  }

  /** Every primary row, filled, has a prepared row. */
  lemma PrepareCovers(primary: seq<Athlete>, regions: seq<Region>)
    ensures forall i :: 0 <= i < |primary| ==>
      exists j :: 0 <= j < |Prepare(primary, regions)| && Prepare(primary, regions)[j].athlete == Filled(primary)[i]
  {
    var merged := Merge(Filled(primary), regions);
    MergeCovers(Filled(primary), regions);
    var df := Prepare(primary, regions);
    assert forall j :: 0 <= j < |df| ==> df[j].athlete == merged[j].athlete;
  }

  /** A prepared row's Country is absent when its code has no reference
      row, and otherwise is the name that a reference row with that code
      gives. */
  lemma PrepareCountry(primary: seq<Athlete>, regions: seq<Region>)
    ensures forall i :: 0 <= i < |Prepare(primary, regions)| ==>
      var r := Prepare(primary, regions)[i];
      (Matches(regions, r.athlete.noc) == [] ==> r.country.None?)
      && (Matches(regions, r.athlete.noc) != [] ==> Region(r.athlete.noc, r.country) in regions)
  {
    var merged := Merge(Filled(primary), regions);
    MergeRows(Filled(primary), regions);
    var df := Prepare(primary, regions);
    forall i | 0 <= i < |df|
      ensures Matches(regions, df[i].athlete.noc) == [] ==> df[i].country.None?
      ensures Matches(regions, df[i].athlete.noc) != [] ==> Region(df[i].athlete.noc, df[i].country) in regions
    {
      assert df[i].athlete == merged[i].athlete && df[i].country == merged[i].reg;
      assert merged[i] in merged;
    }
  }

  /** Filling works row by row: the fill of two tables put together is the
      two fills put together. */
  lemma FilledConcat(a: seq<Athlete>, b: seq<Athlete>)
    ensures Filled(a + b) == Filled(a) + Filled(b)
  {
    assert forall i :: 0 <= i < |a + b| ==> Filled(a + b)[i] == (Filled(a) + Filled(b))[i];
  }

  /** Preparation keeps the primary order: preparing two tables put together
      gives the two prepared tables put together. */
  lemma PrepareConcat(a: seq<Athlete>, b: seq<Athlete>, regions: seq<Region>)
    ensures Prepare(a + b, regions) == Prepare(a, regions) + Prepare(b, regions)
  {
    JoinedConcat(a, b, regions);
    var la, lb := Joined(a, regions), Joined(b, regions);
    assert forall i :: 0 <= i < |la| ==> la[i].athlete.medal.Some?;
    assert forall i :: 0 <= i < |lb| ==> lb[i].athlete.medal.Some?;
    IndicatorsConcat(la, lb);
  }

  /** The join and the rename keep the primary order. */
  lemma JoinedConcat(a: seq<Athlete>, b: seq<Athlete>, regions: seq<Region>)
    ensures Joined(a + b, regions) == Joined(a, regions) + Joined(b, regions)
  {
    FilledConcat(a, b);
    MergeConcat(Filled(a), Filled(b), regions);
    RenameAndDropConcat(Merge(Filled(a), regions), Merge(Filled(b), regions));
  }

  /** The rename and the drop work row by row. */
  lemma RenameAndDropConcat(x: seq<Merged>, y: seq<Merged>)
    ensures RenameAndDrop(x + y) == RenameAndDrop(x) + RenameAndDrop(y)
  {
    var r, rx, ry := RenameAndDrop(x + y), RenameAndDrop(x), RenameAndDrop(y);
    forall i | 0 <= i < |r| ensures r[i] == (rx + ry)[i] {
      if i < |x| {
        assert (x + y)[i] == x[i];
      } else {
        assert (x + y)[i] == y[i - |x|];
      }
    }
  }

  /** The indicator columns are derived row by row. */
  lemma IndicatorsConcat(x: seq<Located>, y: seq<Located>)
    requires forall i :: 0 <= i < |x| ==> x[i].athlete.medal.Some?
    requires forall i :: 0 <= i < |y| ==> y[i].athlete.medal.Some?
    ensures WithIndicators(x + y) == WithIndicators(x) + WithIndicators(y)
  {
    var r, rx, ry := WithIndicators(x + y), WithIndicators(x), WithIndicators(y);
    forall i | 0 <= i < |r| ensures r[i] == (rx + ry)[i] {
      if i < |x| {
        assert (x + y)[i] == x[i];
      } else {
        assert (x + y)[i] == y[i - |x|];
      }
    }
  }

  /** With unique reference keys the prepared table has one row per primary
      row, in order: its primary columns are the filled ones and its Country
      is the region name of its code. */
  lemma PrepareUnique(primary: seq<Athlete>, regions: seq<Region>)
    requires UniqueKeys(regions)
    ensures |Prepare(primary, regions)| == |primary|
    ensures forall i :: 0 <= i < |primary| ==>
      Prepare(primary, regions)[i].athlete == Filled(primary)[i]
      && Prepare(primary, regions)[i].country == RegionOf(regions, primary[i].noc)
  {
    MergeUnique(Filled(primary), regions);
  }

  /** On the dataset's categories every prepared row has indicators in {0, 1},
      at most one of which is 1, and "No Medal" rows have 0/0/0. */
  lemma PreparedIndicators(primary: seq<Athlete>, regions: seq<Region>)
    requires forall a :: a in primary && a.medal.Some? ==> IsCategory(a.medal.value)
    ensures forall i :: 0 <= i < |Prepare(primary, regions)| ==> Exclusive(Prepare(primary, regions)[i])
  {
    var df := Prepare(primary, regions);
    forall i | 0 <= i < |df| ensures Exclusive(df[i]) {
      var j :| 0 <= j < |primary| && Filled(primary)[j] == df[i].athlete;
      CategoryIndicators(df[i].athlete.medal.value);
    }
  }

  /** Each indicator is 0 or 1, at most one is 1, and "No Medal" gives 0/0/0. */
  predicate Exclusive(r: Row)
  {
    r.gold <= 1 && r.silver <= 1 && r.bronze <= 1 && r.gold + r.silver + r.bronze <= 1
    && (r.athlete.medal == Some(NoMedal) ==> r.gold == r.silver == r.bronze == 0)
  }

  /** `load_data` without the file reads: fill in place, join, rename, drop
      and derive the indicator columns. */
  method LoadData(primary: seq<Athlete>, regions: seq<Region>) returns (df: seq<Row>)
    ensures df == Prepare(primary, regions)
  {
    var table := new Athlete[|primary|](i requires 0 <= i < |primary| => primary[i]);
    assert table[..] == primary;
    FillMedalInPlace(table);
    var merged := Merge(table[..], regions);
    MergeRows(table[..], regions);
    var located := RenameAndDrop(merged);
    df := WithIndicators(located);
  }
}
