/** Proved results of the preparation and of two of the charts on small
    concrete tables. */
module Scenarios {
  import opened Frame
  import opened Preprocess
  import opened Vis

  /** An athlete of the USA with no medal recorded, joined to a reference
      table that names the code: the medal becomes "No Medal", the country
      is the reference name and the three indicators are 0. */
  lemma UnrecordedMedal(a: Athlete)
    requires a.noc == "USA" && a.medal.None?
    ensures Prepare([a], [Region("USA", Some("United States"))])
      == [Row(a.(medal := Some(NoMedal)), Some("United States"), 0, 0, 0)]
  {
    var regions := [Region("USA", Some("United States"))];
    PrepareUnique([a], regions);
    RegionOfMatch(regions, regions[0]);
    CategoryIndicators(NoMedal);
    var df := Prepare([a], regions);
    assert df[0].athlete == a.(medal := Some(NoMedal));
    assert df[0] in df;
  }

  /** A prepared row of the Summer season and type "T1", whose indicators
      are those the preparation gives a medal category. */
  function Entry(country: string, year: int, medal: string): Row
  {
    Row(Athlete(None, "", "M", "", year, "Summer", "T1", "", "", Some(medal)), Some(country),
      if medal == "Gold" then 1 else 0, if medal == "Silver" then 1 else 0, if medal == "Bronze" then 1 else 0)
  }

  /** Three gold rows of the USA and one silver row of France in 2000. */
  function TopTable(): seq<Row>
  {
    [Entry("USA", 2000, "Gold"), Entry("USA", 2000, "Gold"), Entry("USA", 2000, "Gold"), Entry("France", 2000, "Silver")]
  }

  /** The top-countries chart of that table for Summer, "T1" and 2000 lists
      the USA with 3 medals, then France with 1. */
  lemma TopCountriesOfTable()
    ensures TopCountries(TopTable(), {"Summer"}, {"T1"}, {"Summer"}, 2000) == [("USA", 3), ("France", 1)]
  {
    TopRowsOfTable();
    TopTallyOfTable();
    SortedTally();
  }

  /** USA with 3 before France with 1 is already sorted. */
  lemma SortedTally()
    ensures SortByValue([("USA", 3), ("France", 1)]) == [("USA", 3), ("France", 1)]
  {
    var g := [("USA", 3), ("France", 1)];
    assert g[1..] == [("France", 1)];
    assert SortByValue(g[1..]) == [("France", 1)];
  }

  /** Every row of that table survives the top-countries filters. */
  lemma TopRowsOfTable()
    ensures TopRows(TopTable(), {"Summer"}, {"T1"}, {"Summer"}, 2000) == TopTable()
  {
    var t := TopTable();
    WhereAll(t, Selection({"Summer"}, {"T1"}));
    assert t[0] in Selected(t, {"Summer"}, {"T1"});
    assert 2000 in SeasonsYears(t, {"Summer"}, {"T1"}, {"Summer"});
    WhereAll(t, YearIs(2000));
    WhereAll(t, MedalIsNot(NoMedal));
  }

  /** Grouping that table by country gives the USA 3 rows and France 1. */
  lemma TopTallyOfTable()
    ensures Tally(TopTable(), CountryOf) == [("USA", 3), ("France", 1)]
  {
    var t := TopTable();
    assert t[..1] == [t[0]];
    assert t[..2][..1] == t[..1];
    assert t[..3][..2] == t[..2];
    assert Aggregate(t[..1], CountryOf, Always) == [("USA", 1)];
    assert Aggregate(t[..2], CountryOf, Always) == [("USA", 2)];
    assert Aggregate(t[..3], CountryOf, Always) == [("USA", 3)];
    assert "USA" != "France";
    assert Add([("USA", 3)], "France", 1) == [("USA", 3), ("France", 1)];
  }

  /** Two "No Medal" rows and three gold rows, all in 2004. */
  function ScatterTable(): seq<Row>
  {
    [Entry("A", 2004, NoMedal), Entry("A", 2004, "Gold"), Entry("A", 2004, NoMedal), Entry("A", 2004, "Gold"), Entry("A", 2004, "Gold")]
  }

  /** The medals-over-years chart of that table has only the gold group of
      2004, with count 3. */
  lemma MedalsOverYearsOfTable()
    ensures MedalsOverYears(ScatterTable(), {"Summer"}, {"T1"}) == [((2004, "Gold"), 3)]
  {
    ScatterRowsOfTable();
    ScatterTally();
  }

  /** Three gold rows of 2004 group to one (2004, Gold) entry of 3. */
  lemma ScatterTally()
    ensures Tally([Entry("A", 2004, "Gold"), Entry("A", 2004, "Gold"), Entry("A", 2004, "Gold")], YearMedalOf)
      == [((2004, "Gold"), 3)]
  {
    var gold := Entry("A", 2004, "Gold");
    var r := [gold, gold, gold];
    assert r[..2][..1] == r[..1];
    assert r[..2] == [gold, gold];
    assert Aggregate(r[..1], YearMedalOf, Always) == [((2004, "Gold"), 1)];
    assert Aggregate(r[..2], YearMedalOf, Always) == [((2004, "Gold"), 2)];
  }

  /** The scatter plot keeps the three gold rows of that table. */
  lemma ScatterRowsOfTable()
    ensures MedalRows(ScatterTable(), {"Summer"}, {"T1"}) == [Entry("A", 2004, "Gold"), Entry("A", 2004, "Gold"), Entry("A", 2004, "Gold")]
  {
    var t := ScatterTable();
    var gold := Entry("A", 2004, "Gold");
    var m := And(Selection({"Summer"}, {"T1"}), MedalIsNot(NoMedal));
    assert NoMedal != "Gold";
    assert t[..4][..3] == t[..3];
    assert t[..3][..2] == t[..2];
    assert t[..2][..1] == t[..1];
    assert Where(t[..1], m) == [];
    assert Where(t[..2], m) == [gold];
    assert Where(t[..3], m) == [gold];
    assert Where(t[..4], m) == [gold, gold];
  }
}
