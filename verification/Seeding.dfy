/**
 * The two data migrations that seed the location table with the three labs.
 * The earlier one inserts them unconditionally and, reversed, deletes every
 * row with one of their names; the later one gets-or-creates each lab by name,
 * applying its coordinates and radius only to rows it creates.
 */
module Seeding {
  import opened Base
  import opened Models

  /** The three lab names both migrations use. */
  const LabNames: set<string> := {"ICT Lab", "Hardware Lab", "Software Lab"}

  /** How many rows of the table carry `name`. */
  function NameCount(locations: seq<Location>, name: string): nat {
    Count(locations, (l: Location) => l.name == name)
  }

  /** `Location.objects.create(...)`: the table with one new row under the next free primary key. */
  function Append(locations: seq<Location>, name: string, latitude: Micro, longitude: Micro, radius: Option<int>): (r: seq<Location>)
    ensures |r| == |locations| + 1 && r[..|locations|] == locations
    ensures r[|locations|] == NewLocation(NextId(locations), name, latitude, longitude, radius)
  {
    locations + [NewLocation(NextId(locations), name, latitude, longitude, radius)]
  }

  lemma AppendKeepsUnique(locations: seq<Location>, name: string, latitude: Micro, longitude: Micro, radius: Option<int>)
    requires UniqueIds(locations)
    ensures UniqueIds(Append(locations, name, latitude, longitude, radius))
  {
    var r := Append(locations, name, latitude, longitude, radius);
    forall i, j | 0 <= i < j < |r| ensures r[i].id != r[j].id {
      if j == |locations| {
        assert r[i] == locations[i] && r[i] in locations;
      } else {
        assert r[i] == locations[i] && r[j] == locations[j];
      }
    }
  }

  lemma NameCountAppend(locations: seq<Location>, l: Location, name: string)
    ensures NameCount(locations + [l], name) == NameCount(locations, name) + (if l.name == name then 1 else 0)
  {
    CountAppend(locations, [l], (x: Location) => x.name == name);
    assert [l][1..] == [];
  }

  // ----------------------------------------------- initial locations

  /** The first migration's forward step: three rows created whatever is already there, with the model's default radius. */
  function AddInitialLocations(locations: seq<Location>): (r: seq<Location>)
    ensures |r| == |locations| + 3 && r[..|locations|] == locations
    ensures r[|locations|].name == "ICT Lab" && r[|locations|].latitude == 7_377_500 && r[|locations|].longitude == 3_947_000
    ensures r[|locations| + 1].name == "Hardware Lab" && r[|locations| + 1].latitude == 7_378_000 && r[|locations| + 1].longitude == 3_950_000
    ensures r[|locations| + 2].name == "Software Lab" && r[|locations| + 2].latitude == 7_380_000 && r[|locations| + 2].longitude == 3_952_000
    ensures forall j :: |locations| <= j < |r| ==> r[j].allowedRadius == DefaultRadius && r[j].name in LabNames
  {
    var a := Append(locations, "ICT Lab", 7_377_500, 3_947_000, None);
    var b := Append(a, "Hardware Lab", 7_378_000, 3_950_000, None);
    var c := Append(b, "Software Lab", 7_380_000, 3_952_000, None);
    assert c[..|locations|] == locations by {
      assert c[..|locations|] == b[..|a|][..|locations|];
    }
    c
  }

  /** The first migration's reverse step: every row named like a lab goes, duplicates and older rows included. */
  function RemoveInitialLocations(locations: seq<Location>): (r: seq<Location>)
    ensures forall l :: l in r <==> l in locations && l.name !in LabNames
    ensures forall l :: multiset(r)[l] == if l.name in LabNames then 0 else multiset(locations)[l]
  {
    FilterMultiplicity(locations, NotLab);
    Filter(locations, NotLab)
  }

  predicate NotLab(l: Location) {
    l.name !in LabNames
  }

  lemma AddInitialKeepsUnique(locations: seq<Location>)
    requires UniqueIds(locations)
    ensures UniqueIds(AddInitialLocations(locations))
  {
    var a := Append(locations, "ICT Lab", 7_377_500, 3_947_000, None);
    var b := Append(a, "Hardware Lab", 7_378_000, 3_950_000, None);
    AppendKeepsUnique(locations, "ICT Lab", 7_377_500, 3_947_000, None);
    AppendKeepsUnique(a, "Hardware Lab", 7_378_000, 3_950_000, None);
    AppendKeepsUnique(b, "Software Lab", 7_380_000, 3_952_000, None);
  }

  /** On a table without any lab-named row, reversing the first migration undoes it. */
  lemma RemoveUndoesAdd(locations: seq<Location>)
    requires forall l :: l in locations ==> l.name !in LabNames
    ensures RemoveInitialLocations(AddInitialLocations(locations)) == locations
  {
    var added := AddInitialSplit(locations);
    FilterAppend(locations, added, NotLab);
    assert forall i :: 0 <= i < |locations| ==> NotLab(locations[i]) by {
      forall i | 0 <= i < |locations| ensures NotLab(locations[i]) {
        assert locations[i] in locations;
      }
    }
    FilterKeepsAll(locations, NotLab);
    FilterKeepsNone(added, NotLab);
  }

  /** The first migration's result is the old table followed by three lab rows. */
  lemma AddInitialSplit(locations: seq<Location>) returns (added: seq<Location>)
    ensures AddInitialLocations(locations) == locations + added
    ensures forall i :: 0 <= i < |added| ==> !NotLab(added[i])
  {
    var r := AddInitialLocations(locations);
    var n := |locations|;
    added := r[n..];
    assert r == r[..n] + r[n..];
    forall i | 0 <= i < |added| ensures !NotLab(added[i]) {
      assert added[i] == r[n + i];
    }
  }

  // ----------------------------------------------- default locations

  /** One row of the second migration's list: the name looked up, and the values used only on create. */
  datatype SeedRow = SeedRow(name: string, latitude: Micro, longitude: Micro, radius: int)

  /** The second migration's list. */
  const DefaultSeeds: seq<SeedRow> := [
    SeedRow("ICT Lab", 6_524_400, 3_379_200, 50),
    SeedRow("Hardware Lab", 6_524_500, 3_379_300, 50),
    SeedRow("Software Lab", 6_524_600, 3_379_400, 50)
  ]

  predicate DistinctNames(seeds: seq<SeedRow>) {
    forall i, j :: 0 <= i < j < |seeds| ==> seeds[i].name != seeds[j].name
  }

  /** `get(name=...)` found more than one row. */
  datatype SeedError = MultipleObjectsReturned

  /** A row the get-or-create made from this seed. */
  predicate CreatedFrom(l: Location, s: SeedRow) {
    l.name == s.name && l.latitude == s.latitude && l.longitude == s.longitude && l.allowedRadius == s.radius
  }

  /** `get_or_create(name=..., defaults=...)`: keep the one matching row, create one if none, raise if several. */
  function GetOrCreate(locations: seq<Location>, s: SeedRow): (r: Result<seq<Location>, SeedError>)
    ensures r.Err? <==> NameCount(locations, s.name) > 1
    ensures r.Ok? ==> locations <= r.value && NameCount(r.value, s.name) == 1
    ensures r.Ok? && NameCount(locations, s.name) == 1 ==> r.value == locations
    ensures r.Ok? && NameCount(locations, s.name) == 0 ==>
              |r.value| == |locations| + 1 && CreatedFrom(r.value[|locations|], s) && r.value[|locations|].id == NextId(locations)
  {
    var n := NameCount(locations, s.name);
    if n == 0 then
      var r := Append(locations, s.name, s.latitude, s.longitude, Some(s.radius));
      NameCountAppend(locations, r[|locations|], s.name);
      assert r == locations + [r[|locations|]];
      Ok(r)
    else if n == 1 then Ok(locations)
    else Err(MultipleObjectsReturned)
  }

  /** Runs get-or-create for each seed in turn; the first failure aborts the migration. */
  function SeedAll(locations: seq<Location>, seeds: seq<SeedRow>): Result<seq<Location>, SeedError>
    decreases |seeds|
  {
    if |seeds| == 0 then Ok(locations)
    else
      match GetOrCreate(locations, seeds[0])
      case Err(e) => Err(e)
      case Ok(next) => SeedAll(next, seeds[1..])
  }

  /** The second migration's forward step. */
  function AddDefaultLocations(locations: seq<Location>): Result<seq<Location>, SeedError> {
    SeedAll(locations, DefaultSeeds)
  }

  /** A get-or-create for one name does not change how many rows carry another. */
  lemma GetOrCreateKeepsOtherCounts(locations: seq<Location>, s: SeedRow, name: string)
    requires GetOrCreate(locations, s).Ok? && name != s.name
    ensures NameCount(GetOrCreate(locations, s).value, name) == NameCount(locations, name)
  {
    if NameCount(locations, s.name) == 0 {
      var r := GetOrCreate(locations, s).value;
      assert r == locations + [r[|locations|]];
      NameCountAppend(locations, r[|locations|], name);
    }
  }

  /** Seeding fails exactly when some seed name is already carried by two or more rows. */
  lemma {:induction false} SeedAllFailsIff(locations: seq<Location>, seeds: seq<SeedRow>)
    requires DistinctNames(seeds)
    ensures SeedAll(locations, seeds).Err? <==> exists i :: 0 <= i < |seeds| && NameCount(locations, seeds[i].name) > 1
    decreases |seeds|
  {
    if |seeds| > 0 {
      var tail := seeds[1..];
      assert DistinctNames(tail) by {
        forall i, j | 0 <= i < j < |tail| ensures tail[i].name != tail[j].name {
          assert tail[i] == seeds[i + 1] && tail[j] == seeds[j + 1];
        }
      }
      var step := GetOrCreate(locations, seeds[0]);
      if step.Ok? {
        var next := step.value;
        forall i | 0 <= i < |tail| ensures NameCount(next, tail[i].name) == NameCount(locations, tail[i].name) {
          assert tail[i] == seeds[i + 1];
          GetOrCreateKeepsOtherCounts(locations, seeds[0], tail[i].name);
        }
        SeedAllFailsIff(next, tail);
        assert (exists i :: 0 <= i < |tail| && NameCount(locations, tail[i].name) > 1)
           <==> (exists i :: 0 <= i < |seeds| && NameCount(locations, seeds[i].name) > 1) by {
          forall i | 0 <= i < |tail| ensures tail[i] == seeds[i + 1] { }
          if exists i :: 0 <= i < |seeds| && NameCount(locations, seeds[i].name) > 1 {
            var i :| 0 <= i < |seeds| && NameCount(locations, seeds[i].name) > 1;
            assert i > 0;
            assert NameCount(locations, tail[i - 1].name) > 1;
          }
        }
      }
    }
  }

  /** Dropping the first seed keeps the rest distinct, and none of them shares its name. */
  lemma DistinctTail(seeds: seq<SeedRow>)
    requires DistinctNames(seeds) && |seeds| > 0
    ensures DistinctNames(seeds[1..])
    ensures forall i :: 0 <= i < |seeds| - 1 ==> seeds[1..][i] == seeds[i + 1] && seeds[1..][i].name != seeds[0].name
  {
    var tail := seeds[1..];
    forall i, j | 0 <= i < j < |tail| ensures tail[i].name != tail[j].name {
      assert tail[i] == seeds[i + 1] && tail[j] == seeds[j + 1];
    }
  }

  /** The first step of a seeding leaves the counts of the later seed names as they were. */
  lemma FirstStepKeepsLaterCounts(locations: seq<Location>, seeds: seq<SeedRow>)
    requires DistinctNames(seeds) && |seeds| > 0 && GetOrCreate(locations, seeds[0]).Ok?
    ensures forall i :: 0 <= i < |seeds| - 1 ==>
              NameCount(GetOrCreate(locations, seeds[0]).value, seeds[1..][i].name) == NameCount(locations, seeds[1..][i].name)
  {
    DistinctTail(seeds);
    forall i | 0 <= i < |seeds| - 1
      ensures NameCount(GetOrCreate(locations, seeds[0]).value, seeds[1..][i].name) == NameCount(locations, seeds[1..][i].name)
    {
      GetOrCreateKeepsOtherCounts(locations, seeds[0], seeds[1..][i].name);
    }
  }

  /** A successful seeding only appends: the old rows stay, untouched and in order, as a prefix. */
  lemma {:induction false} SeedAllAppends(locations: seq<Location>, seeds: seq<SeedRow>)
    requires SeedAll(locations, seeds).Ok?
    ensures locations <= SeedAll(locations, seeds).value
    decreases |seeds|
  {
    if |seeds| > 0 {
      SeedAllAppends(GetOrCreate(locations, seeds[0]).value, seeds[1..]);
    }
  }

  /** After a successful seeding every seed name is on exactly one row. */
  lemma {:induction false} SeedAllNamesOnce(locations: seq<Location>, seeds: seq<SeedRow>)
    requires DistinctNames(seeds) && SeedAll(locations, seeds).Ok?
    ensures forall i :: 0 <= i < |seeds| ==> NameCount(SeedAll(locations, seeds).value, seeds[i].name) == 1
    decreases |seeds|
  {
    if |seeds| > 0 {
      var tail := seeds[1..];
      var next := GetOrCreate(locations, seeds[0]).value;
      DistinctTail(seeds);
      SeedAllNamesOnce(next, tail);
      forall i | 0 <= i < |tail| ensures tail[i].name != seeds[0].name { }
      SeedAllKeepsCount(next, tail, seeds[0].name);
      forall i | 0 <= i < |seeds| ensures NameCount(SeedAll(locations, seeds).value, seeds[i].name) == 1 {
        if i > 0 {
          assert seeds[i] == tail[i - 1];
        }
      }
    }
  }

  /** A successful seeding adds one row per seed whose name no row carried. */
  lemma {:induction false} SeedAllGrowth(locations: seq<Location>, seeds: seq<SeedRow>)
    requires DistinctNames(seeds) && SeedAll(locations, seeds).Ok?
    ensures |SeedAll(locations, seeds).value| == |locations| + Count(seeds, (s: SeedRow) => NameCount(locations, s.name) == 0)
    decreases |seeds|
  {
    if |seeds| > 0 {
      var tail := seeds[1..];
      var next := GetOrCreate(locations, seeds[0]).value;
      DistinctTail(seeds);
      FirstStepKeepsLaterCounts(locations, seeds);
      SeedAllGrowth(next, tail);
      var absentNow := (s: SeedRow) => NameCount(locations, s.name) == 0;
      var absentNext := (s: SeedRow) => NameCount(next, s.name) == 0;
      forall s | s in tail ensures absentNext(s) == absentNow(s) {
        var i :| 0 <= i < |tail| && tail[i] == s;
      }
      CountCongruent(tail, absentNext, absentNow);
    }
  }

  /** `l` is a row created from some seed whose name no row of `locations` carried. */
  predicate FromAbsentSeed(l: Location, locations: seq<Location>, seeds: seq<SeedRow>) {
    exists i :: 0 <= i < |seeds| && CreatedFrom(l, seeds[i]) && NameCount(locations, seeds[i].name) == 0
  }

  /** The rows a successful seeding adds each come from a seed whose name was absent, with its coordinates and radius. */
  lemma {:induction false} SeedAllNewRows(locations: seq<Location>, seeds: seq<SeedRow>)
    requires DistinctNames(seeds) && SeedAll(locations, seeds).Ok?
    ensures var r := SeedAll(locations, seeds).value;
            forall j :: |locations| <= j < |r| ==> FromAbsentSeed(r[j], locations, seeds)
    decreases |seeds|
  {
    if |seeds| > 0 {
      var tail := seeds[1..];
      var next := GetOrCreate(locations, seeds[0]).value;
      var r := SeedAll(locations, seeds).value;
      assert r == SeedAll(next, tail).value;
      DistinctTail(seeds);
      SeedAllNewRows(next, tail);
      SeedAllAppends(next, tail);
      forall j | |locations| <= j < |r| ensures FromAbsentSeed(r[j], locations, seeds) {
        if j < |next| {
          FirstRowOfStep(locations, seeds[0], j);
          assert r[j] == next[j];
        } else {
          assert FromAbsentSeed(r[j], next, tail);
          var i :| 0 <= i < |tail| && CreatedFrom(r[j], tail[i]) && NameCount(next, tail[i].name) == 0;
          GetOrCreateKeepsOtherCounts(locations, seeds[0], tail[i].name);
          assert tail[i] == seeds[i + 1];
        }
      }
    }
  }

  /** A row past the old end of the table after one get-or-create is the one it created. */
  lemma FirstRowOfStep(locations: seq<Location>, s: SeedRow, j: int)
    requires GetOrCreate(locations, s).Ok?
    requires |locations| <= j < |GetOrCreate(locations, s).value|
    ensures CreatedFrom(GetOrCreate(locations, s).value[j], s) && NameCount(locations, s.name) == 0
  {
  }

  /** Seeding other names leaves the number of rows carrying `name` alone. */
  lemma {:induction false} SeedAllKeepsCount(locations: seq<Location>, seeds: seq<SeedRow>, name: string)
    requires SeedAll(locations, seeds).Ok?
    requires forall i :: 0 <= i < |seeds| ==> seeds[i].name != name
    ensures NameCount(SeedAll(locations, seeds).value, name) == NameCount(locations, name)
    decreases |seeds|
  {
    if |seeds| > 0 {
      var tail := seeds[1..];
      GetOrCreateKeepsOtherCounts(locations, seeds[0], name);
      forall i | 0 <= i < |tail| ensures tail[i].name != name {
        assert tail[i] == seeds[i + 1];
      }
      SeedAllKeepsCount(GetOrCreate(locations, seeds[0]).value, tail, name);
    }
  }

  /** With every seed name already on exactly one row, seeding changes nothing. */
  lemma {:induction false} SeedAllSettled(locations: seq<Location>, seeds: seq<SeedRow>)
    requires forall i :: 0 <= i < |seeds| ==> NameCount(locations, seeds[i].name) == 1
    ensures SeedAll(locations, seeds) == Ok(locations)
    decreases |seeds|
  {
    if |seeds| > 0 {
      var tail := seeds[1..];
      forall i | 0 <= i < |tail| ensures NameCount(locations, tail[i].name) == 1 {
        assert tail[i] == seeds[i + 1];
      }
      SeedAllSettled(locations, tail);
    }
  }

  /** Seeding twice gives the same table as seeding once. */
  lemma SeedAllIdempotent(locations: seq<Location>, seeds: seq<SeedRow>)
    requires DistinctNames(seeds) && SeedAll(locations, seeds).Ok?
    ensures SeedAll(SeedAll(locations, seeds).value, seeds) == SeedAll(locations, seeds)
  {
    SeedAllNamesOnce(locations, seeds);
    SeedAllSettled(SeedAll(locations, seeds).value, seeds);
  }

  /** The second migration on any table: failure exactly on a duplicated lab name; otherwise all three labs exist once, and running it again changes nothing. */
  lemma AddDefaultLocationsFacts(locations: seq<Location>)
    ensures AddDefaultLocations(locations).Err? <==>
              exists i :: 0 <= i < |DefaultSeeds| && NameCount(locations, DefaultSeeds[i].name) > 1
    ensures AddDefaultLocations(locations).Ok? ==>
              var r := AddDefaultLocations(locations).value;
              && locations <= r
              && NameCount(r, "ICT Lab") == 1 && NameCount(r, "Hardware Lab") == 1 && NameCount(r, "Software Lab") == 1
              && AddDefaultLocations(r) == Ok(r)
  {
    assert DistinctNames(DefaultSeeds);
    SeedAllFailsIff(locations, DefaultSeeds);
    if AddDefaultLocations(locations).Ok? {
      SeedAllAppends(locations, DefaultSeeds);
      SeedAllNamesOnce(locations, DefaultSeeds);
      SeedAllIdempotent(locations, DefaultSeeds);
      assert DefaultSeeds[0].name == "ICT Lab" && DefaultSeeds[1].name == "Hardware Lab" && DefaultSeeds[2].name == "Software Lab";
    }
  }

  /**
   * Run on an empty table after the first migration, the second finds all three
   * labs by name and keeps the first migration's coordinates.
   */
  lemma DefaultsKeepInitialCoordinates()
    ensures AddDefaultLocations(AddInitialLocations([])) == Ok(AddInitialLocations([]))
  {
    var r := AddInitialLocations([]);
    assert r == [r[0], r[1], r[2]];
    forall i | 0 <= i < |DefaultSeeds| ensures NameCount(r, DefaultSeeds[i].name) == 1 {
      var name := DefaultSeeds[i].name;
      NameCountAppend([r[0], r[1]], r[2], name);
      NameCountAppend([r[0]], r[1], name);
      NameCountAppend([], r[0], name);
      assert [r[0], r[1]] + [r[2]] == r;
      assert [r[0]] + [r[1]] == [r[0], r[1]];
      assert [] + [r[0]] == [r[0]];
    }
    SeedAllSettled(r, DefaultSeeds);
  }
}
