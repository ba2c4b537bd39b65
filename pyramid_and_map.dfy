/** The population pyramid and the map of states (apps/common/components/PyramidAndMap.tsx).
    `AggregateData` totals the male and female counts of a list of age groups and writes each
    group's signed share, in percent with two decimals, into the group. Clicking a state on the
    map makes it the one active polygon, aggregates that state's groups and writes them into the
    male and female series index by index. Numbers are exact: counts are naturals and shares
    are reals. */
module PyramidAndMap {

  datatype Option<T> = None | Some(value: T)

  /** A percent field of an age group: absent until aggregated; NaN when the column total is 0
      (the page then divides 0 by 0); otherwise a number. */
  datatype Percent = Absent | NaN | Value(v: real)

  /** One age group: its label, its two counts and the two derived percent fields. */
  datatype GenderRow = GenderRow(age: string, male: nat, female: nat, malePercent: Percent, femalePercent: Percent)

  /** Math.round: the nearest integer, a half rounded toward +infinity. */
  function Round(r: real): (k: int)
    ensures r - 0.5 < k as real <= r + 0.5
  {
    (r + 0.5).Floor
  }

  /** The sum of the male counts; it is 0 exactly when every male count is 0. */
  function SumMale(rows: seq<GenderRow>): (total: nat)
    ensures total == 0 <==> forall i :: 0 <= i < |rows| ==> rows[i].male == 0
  {
    if rows == [] then 0 else SumMale(rows[..|rows| - 1]) + rows[|rows| - 1].male
  }

  /** The sum of the female counts; it is 0 exactly when every female count is 0. */
  function SumFemale(rows: seq<GenderRow>): (total: nat)
    ensures total == 0 <==> forall i :: 0 <= i < |rows| ==> rows[i].female == 0
  {
    if rows == [] then 0 else SumFemale(rows[..|rows| - 1]) + rows[|rows| - 1].female
  }

  /** No count of a list exceeds its column's total. */
  lemma {:induction false} RowWithinTotals(rows: seq<GenderRow>, i: nat)
    requires i < |rows|
    ensures rows[i].male <= SumMale(rows) && rows[i].female <= SumFemale(rows)
    decreases |rows|
  {
    if i < |rows| - 1 {
      RowWithinTotals(rows[..|rows| - 1], i);
    }
  }

  /** The share of `count` in `total` in hundredths of a percent, rounded as Math.round does. */
  function Hundredths(count: nat, total: nat): (k: int)
    requires total > 0
    ensures -0.5 < k as real - count as real / total as real * 10000.0 <= 0.5
  {
    Round(count as real / total as real * 10000.0)
  }

  /** A whole number of hundredths has at most two decimals. */
  lemma Cents(k: int)
    ensures (k as real / 100.0 * 100.0).Floor as real == k as real / 100.0 * 100.0
  {
    assert k as real / 100.0 * 100.0 == k as real;
  }

  /** malePercent: minus the rounded share, divided by 100; always written, with at most two
      decimals. */
  function MaleShare(count: nat, total: nat): (p: Percent)
    requires count <= total
    ensures p != Absent
    ensures p.Value? ==> (p.v * 100.0).Floor as real == p.v * 100.0
  {
    if total == 0 then NaN
    else
      var k := -1 * Hundredths(count, total);
      Cents(k);
      Value(k as real / 100.0)
  }

  /** femalePercent: the rounded share, divided by 100; always written, with at most two
      decimals. */
  function FemaleShare(count: nat, total: nat): (p: Percent)
    requires count <= total
    ensures p != Absent
    ensures p.Value? ==> (p.v * 100.0).Floor as real == p.v * 100.0
  {
    if total == 0 then NaN
    else
      var k := Hundredths(count, total);
      Cents(k);
      Value(k as real / 100.0)
  }

  /** A share of at most the whole lies between 0 and 10000 hundredths. */
  lemma HundredthsInRange(count: nat, total: nat)
    requires 0 < total && count <= total
    ensures 0 <= Hundredths(count, total) <= 10000
  {
  }

  /** With a positive total every male share is a number in [-100, 0] and every female share a
      number in [0, 100]; with a zero total it is NaN. */
  lemma ShareBounds(count: nat, total: nat)
    requires count <= total
    ensures MaleShare(count, total).NaN? <==> total == 0
    ensures FemaleShare(count, total).NaN? <==> total == 0
    ensures total > 0 ==> MaleShare(count, total).Value? && -100.0 <= MaleShare(count, total).v <= 0.0
    ensures total > 0 ==> FemaleShare(count, total).Value? && 0.0 <= FemaleShare(count, total).v <= 100.0
  {
    if total > 0 {
      HundredthsInRange(count, total);
    }
  }

  /** Each rounded share is within half a hundredth of a percent of the exact share. */
  lemma ShareIsNearest(count: nat, total: nat)
    requires 0 < total && count <= total
    ensures var exact := 100.0 * (count as real / total as real);
      && -exact - 0.005 <= MaleShare(count, total).v < -exact + 0.005
      && exact - 0.005 < FemaleShare(count, total).v <= exact + 0.005
  {
  }

  /** An age group with both percent fields written from the given totals; its label and counts
      are kept. */
  function WithShares(row: GenderRow, maleTotal: nat, femaleTotal: nat): (r: GenderRow)
    requires row.male <= maleTotal && row.female <= femaleTotal
    ensures r.age == row.age && r.male == row.male && r.female == row.female
    ensures r.malePercent != Absent && r.femalePercent != Absent
  {
    row.(malePercent := MaleShare(row.male, maleTotal), femalePercent := FemaleShare(row.female, femaleTotal))
  }

  /** What aggregateData leaves in a list: the same groups in the same order, each with its two
      percent fields written from the list's totals and nothing else changed. */
  function Aggregated(rows: seq<GenderRow>): (r: seq<GenderRow>)
    ensures |r| == |rows|
    ensures forall i :: 0 <= i < |r| ==>
      r[i].age == rows[i].age && r[i].male == rows[i].male && r[i].female == rows[i].female
  {
    seq(|rows|, i requires 0 <= i < |rows| =>
      RowWithinTotals(rows, i);
      WithShares(rows[i], SumMale(rows), SumFemale(rows)))
  }

  /** Every share aggregateData writes is in range: a male share in [-100, 0], a female share in
      [0, 100], and NaN exactly when the column sums to 0. */
  lemma AggregatedInRange(rows: seq<GenderRow>)
    ensures forall i :: 0 <= i < |rows| ==>
      var r := Aggregated(rows)[i];
      && (r.malePercent.NaN? <==> SumMale(rows) == 0)
      && (r.femalePercent.NaN? <==> SumFemale(rows) == 0)
      && (r.malePercent.Value? ==> -100.0 <= r.malePercent.v <= 0.0)
      && (r.femalePercent.Value? ==> 0.0 <= r.femalePercent.v <= 100.0)
  {
    forall i | 0 <= i < |rows|
      ensures var r := Aggregated(rows)[i];
        && (r.malePercent.NaN? <==> SumMale(rows) == 0)
        && (r.femalePercent.NaN? <==> SumFemale(rows) == 0)
        && (r.malePercent.Value? ==> -100.0 <= r.malePercent.v <= 0.0)
        && (r.femalePercent.Value? ==> 0.0 <= r.femalePercent.v <= 100.0)
    {
      RowWithinTotals(rows, i);
      ShareBounds(rows[i].male, SumMale(rows));
      ShareBounds(rows[i].female, SumFemale(rows));
    }
  }

  /** Two groups, 10/20 and 30/20: the shares are -25 and 50, then -75 and 50. */
  lemma AggregatedExample()
    ensures var rows := [GenderRow("A", 10, 20, Absent, Absent), GenderRow("B", 30, 20, Absent, Absent)];
      var r := Aggregated(rows);
      && r[0].malePercent == Value(-25.0) && r[0].femalePercent == Value(50.0)
      && r[1].malePercent == Value(-75.0) && r[1].femalePercent == Value(50.0)
  {
    var rows := [GenderRow("A", 10, 20, Absent, Absent), GenderRow("B", 30, 20, Absent, Absent)];
    assert rows[..1] == [rows[0]] && rows[..1][..0] == [];
    assert SumMale(rows) == 40 && SumFemale(rows) == 40;
    assert Round(2500.0) == 2500 && Round(5000.0) == 5000 && Round(7500.0) == 7500;
  }

  /** aggregateData: totals both columns, then writes both percent fields into every group of the
      list in place, and returns the same list. */
  method AggregateData(list: array<GenderRow>) returns (r: array<GenderRow>)
    modifies list
    ensures r == list
    ensures list[..] == Aggregated(old(list[..]))
  {
    var maleTotal, femaleTotal := 0, 0;
    for i := 0 to list.Length
      invariant maleTotal == SumMale(list[..i]) && femaleTotal == SumFemale(list[..i])
    {
      assert list[..i + 1][..i] == list[..i];
      maleTotal := maleTotal + list[i].male;
      femaleTotal := femaleTotal + list[i].female;
    }
    assert list[..list.Length] == list[..];
    ghost var rows := list[..];
    for i := 0 to list.Length
      invariant forall j :: 0 <= j < list.Length ==> list[j] == if j < i then Aggregated(rows)[j] else rows[j]
    {
      RowWithinTotals(rows, i);
      list[i] := WithShares(list[i], maleTotal, femaleTotal);
    }
    assert list[..] == Aggregated(rows);
    r := list;
  }

  /** The region key of a polygon id: its last '-'-separated segment ("US-CA" gives "CA"). */
  function RegionKey(id: string): (key: string)
    ensures '-' !in key
    ensures |key| <= |id| && key == id[|id| - |key|..]
    ensures |key| < |id| ==> id[|id| - |key| - 1] == '-'
  {
    if id == [] then []
    else if id[|id| - 1] == '-' then []
    else RegionKey(id[..|id| - 1]) + [id[|id| - 1]]
  }

  /** The examples of the click handler's key extraction. */
  lemma RegionKeyExample()
    ensures RegionKey("US-CA") == "CA" && RegionKey("CA") == "CA" && RegionKey("US-") == ""
  {
  }

  /** The pyramid chart and the map: the polygons' active flags, the two column series, the
      title label and the per-state data. */
  class PyramidMap {
    /** Each map polygon's id and name. */
    const ids: seq<string>
    const names: seq<string>
    /** The age groups of each state, by state key. */
    const stateData: map<string, array<GenderRow>>
    /** Each polygon's 'active' setting. */
    const active: array<bool>
    /** The polygon clicked last, if any. */
    var activePolygon: Option<nat>
    /** The data of the male and of the female column series. */
    const maleSeries: array<GenderRow>
    const femaleSeries: array<GenderRow>
    /** The text of the title label. */
    var title: string

    ghost predicate Valid()
      reads this, active
    {
      && active.Length == |ids| == |names|
      && maleSeries != femaleSeries && maleSeries.Length == femaleSeries.Length
      && (forall k :: k in stateData ==> stateData[k] != maleSeries && stateData[k] != femaleSeries)
      && (activePolygon.Some? ==> activePolygon.value < active.Length)
      && (forall j :: 0 <= j < active.Length ==> (active[j] <==> activePolygon == Some(j)))
    }

    /** The first render: usData is aggregated in place and loaded into both series; no polygon
        is active and the title reads 'United States'. */
    constructor (usData: array<GenderRow>, stateData: map<string, array<GenderRow>>, ids: seq<string>, names: seq<string>)
      requires |ids| == |names|
      modifies usData
      ensures Valid()
      ensures this.ids == ids && this.names == names && this.stateData == stateData
      ensures usData[..] == Aggregated(old(usData[..]))
      ensures maleSeries[..] == usData[..] && femaleSeries[..] == usData[..]
      ensures activePolygon == None && title == "United States"
      ensures fresh(active) && fresh(maleSeries) && fresh(femaleSeries)
    {
      var data := AggregateData(usData);
      this.ids, this.names, this.stateData := ids, names, stateData;
      active := new bool[|ids|](_ => false);
      maleSeries := new GenderRow[data.Length](i reads data requires 0 <= i < data.Length => data[i]);
      femaleSeries := new GenderRow[data.Length](i reads data requires 0 <= i < data.Length => data[i]);
      activePolygon := None;
      title := "United States";
    }

    /** The click handler of polygon p. It deactivates the previous polygon and activates p;
        then, when p's region key has data, aggregates that data in place, writes group i into
        index i of both series and sets the title to p's name. An unknown key makes the page
        fault after the flags are updated: `ok` is false and nothing else changes. The series
        indices written must exist. */
    method Click(p: nat) returns (ok: bool)
      requires Valid() && p < |ids|
      requires RegionKey(ids[p]) in stateData ==> stateData[RegionKey(ids[p])].Length <= maleSeries.Length
      modifies this, active, maleSeries, femaleSeries
      modifies if RegionKey(ids[p]) in stateData then {stateData[RegionKey(ids[p])]} else {}
      ensures Valid()
      ensures activePolygon == Some(p) && active[p]
      ensures forall j :: 0 <= j < active.Length && j != p ==> !active[j]
      ensures old(activePolygon).Some? && old(activePolygon).value != p ==> !active[old(activePolygon).value]
      ensures forall j :: 0 <= j < active.Length && j != p && old(activePolygon) != Some(j) ==> active[j] == old(active[j])
      ensures ok == (RegionKey(ids[p]) in stateData)
      ensures ok ==>
        var data := stateData[RegionKey(ids[p])];
        && data[..] == Aggregated(old(data[..]))
        && maleSeries[..] == data[..] + old(maleSeries[data.Length..])
        && femaleSeries[..] == data[..] + old(femaleSeries[data.Length..])
        && title == names[p]
      ensures !ok ==> maleSeries[..] == old(maleSeries[..]) && femaleSeries[..] == old(femaleSeries[..]) && title == old(title)
    {
      Activate(p);
      var key := RegionKey(ids[p]);
      if key !in stateData {
        return false;
      }
      var data := AggregateData(stateData[key]);
      LoadSeries(data);
      title := names[p];
      ok := true;
    }

    /** The flag part of the click handler: the previous polygon, if any, is set inactive and
        polygon p active. */
    method Activate(p: nat)
      requires Valid() && p < active.Length
      modifies this`activePolygon, active
      ensures Valid()
      ensures activePolygon == Some(p) && active[p]
      ensures forall j :: 0 <= j < active.Length && j != p ==> !active[j]
      ensures old(activePolygon).Some? && old(activePolygon).value != p ==> !active[old(activePolygon).value]
      ensures forall j :: 0 <= j < active.Length && j != p && old(activePolygon) != Some(j) ==> active[j] == old(active[j])
    {
      if activePolygon.Some? {
        active[activePolygon.value] := false;
      }
      activePolygon := Some(p);
      active[p] := true;
    }

    /** The setIndex loop: group i of `data` goes to index i of both series, for every i below
        data's length; the entries from there on are kept. */
    method LoadSeries(data: array<GenderRow>)
      requires Valid() && data.Length <= maleSeries.Length
      requires data != maleSeries && data != femaleSeries
      modifies maleSeries, femaleSeries
      ensures maleSeries[..] == data[..] + old(maleSeries[data.Length..])
      ensures femaleSeries[..] == data[..] + old(femaleSeries[data.Length..])
    {
      for i := 0 to data.Length
        invariant forall j :: 0 <= j < maleSeries.Length ==>
          maleSeries[j] == if j < i then data[j] else old(maleSeries[j])
        invariant forall j :: 0 <= j < femaleSeries.Length ==>
          femaleSeries[j] == if j < i then data[j] else old(femaleSeries[j])
      {
        maleSeries[i] := data[i];
        femaleSeries[i] := data[i];
      }
      assert maleSeries[..] == data[..] + old(maleSeries[data.Length..]);
      assert femaleSeries[..] == data[..] + old(femaleSeries[data.Length..]);
    }
  }
}
