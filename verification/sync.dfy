/** `sync_areas_to_db`: one-time seeding of the `areas` table from the area
    taxonomy.  An `Err` result is an exception escaping before the commit,
    so the store on disk keeps its previous contents. */
module Sync {
  import opened Results
  import opened Payload
  import opened Store

  /** The label used when an office's parent center is unknown. */
  const OtherCenter: string := "その他"

  /** `centers.get(parent, {}).get("name", "その他")`. */
  function CenterNameFor(centers: Object<CenterInfo>, parent: string): (r: string)
    ensures (forall i :: 0 <= i < |centers| ==> centers[i].0 != parent) ==> r == OtherCenter
    ensures forall i :: 0 <= i < |centers| && centers[i].0 == parent ==>
              r == centers[i].1.name.GetOr(OtherCenter)
  {
    match Lookup(centers, parent)
    case None => OtherCenter
    case Some(info) => info.name.GetOr(OtherCenter)
  }

  /** The office entry has the two keys the insert loop subscripts. */
  predicate Complete(info: OfficeInfo) {
    info.name.Some? && info.parent.Some?
  }

  ghost predicate AllComplete(offices: seq<(string, OfficeInfo)>) {
    forall i :: 0 <= i < |offices| ==> Complete(offices[i].1)
  }

  ghost predicate Fresh(areas: map<string, Area>, offices: seq<(string, OfficeInfo)>) {
    forall i :: 0 <= i < |offices| ==> offices[i].0 !in areas
  }

  /** The office codes of a list of entries. */
  function CodesOf(offices: seq<(string, OfficeInfo)>): (r: set<string>)
    ensures forall c :: c in r <==> exists i :: 0 <= i < |offices| && offices[i].0 == c
  {
    if |offices| == 0 then {}
    else
      var rest := CodesOf(offices[1..]);
      assert forall i :: 1 <= i < |offices| ==> offices[i] == offices[1..][i - 1];
      {offices[0].0} + rest
  }

  /** The area row the loop derives from a complete office entry. */
  function AreaFor(centers: Object<CenterInfo>, info: OfficeInfo): Area
    requires Complete(info)
  {
    Area(info.name.value, CenterNameFor(centers, info.parent.value), 0)
  }

  /** Every complete office of the list has its derived row in `areas`. */
  ghost predicate Seeded(areas: map<string, Area>, centers: Object<CenterInfo>, offices: seq<(string, OfficeInfo)>) {
    forall i :: 0 <= i < |offices| && Complete(offices[i].1) ==>
      offices[i].0 in areas && areas[offices[i].0] == AreaFor(centers, offices[i].1)
  }

  /** The insert loop over `offices.items()`, one INSERT per office. */
  function InsertOffices(areas: map<string, Area>, centers: Object<CenterInfo>, offices: seq<(string, OfficeInfo)>): (r: Result<map<string, Area>>)
    ensures r.Ok? <==> AllComplete(offices) && Fresh(areas, offices) && DistinctKeys(offices)
    ensures r.Ok? ==> r.value.Keys == areas.Keys + CodesOf(offices)
    ensures r.Ok? ==> forall c :: c in areas ==> r.value[c] == areas[c]
    ensures r.Ok? ==> Seeded(r.value, centers, offices)
    decreases |offices|
  {
    if |offices| == 0 then Ok(areas)
    else
      var (code, info) := offices[0];
      if info.parent.None? then Err(MissingKey("parent"))
      else if info.name.None? then Err(MissingKey("name"))
      else
        match InsertArea(areas, code, info.name.value, CenterNameFor(centers, info.parent.value))
        case Err(f) => Err(f)
        case Ok(next) =>
          var r := InsertOffices(next, centers, offices[1..]);
          TailFacts(areas, next, offices);
          r
  }

  lemma TailFacts(areas: map<string, Area>, next: map<string, Area>, offices: seq<(string, OfficeInfo)>)
    requires |offices| > 0 && next.Keys == areas.Keys + {offices[0].0} && offices[0].0 !in areas
    ensures AllComplete(offices) <==> Complete(offices[0].1) && AllComplete(offices[1..])
    ensures Fresh(areas, offices) && DistinctKeys(offices) <==> Fresh(next, offices[1..]) && DistinctKeys(offices[1..])
  {
    var t := offices[1..];
    assert forall i :: 1 <= i < |offices| ==> offices[i] == t[i - 1];
    if Fresh(next, t) && DistinctKeys(t) {
      forall i, j | 0 <= i < j < |offices| ensures offices[i].0 != offices[j].0 {
        if i > 0 {
          assert offices[i].0 == t[i - 1].0 && offices[j].0 == t[j - 1].0;
        } else {
          assert offices[j].0 == t[j - 1].0;
        }
      }
    }
  }

  /** The whole procedure: a non-empty table is left alone without fetching;
      an empty one is seeded from the fetched taxonomy. */
  function SyncAreas(s: Store, response: Option<Taxonomy>): (r: Result<Store>)
    ensures |s.areas| != 0 ==> r == Ok(s)
    ensures |s.areas| == 0 ==>
              (r.Ok? <==> response.Some? && AllComplete(response.value.offices))
    ensures |s.areas| == 0 && r.Ok? ==>
              && r.value.forecasts == s.forecasts
              && r.value.areas.Keys == CodesOf(response.value.offices)
              && forall i :: 0 <= i < |response.value.offices| ==>
                   r.value.areas[response.value.offices[i].0] == AreaFor(response.value.centers, response.value.offices[i].1)
  {
    if |s.areas| != 0 then Ok(s)
    else
      match response
      case None => Err(FetchFailed)
      case Some(t) =>
        match InsertOffices(s.areas, t.centers, t.offices)
        case Err(f) => Err(f)
        case Ok(areas) => Ok(s.(areas := areas))
  }

  /** Seeding only writes favourite flags of 0. */
  lemma SyncPreservesBinary(s: Store, response: Option<Taxonomy>)
    requires FavoritesBinary(s)
    ensures SyncAreas(s, response).Ok? ==> FavoritesBinary(SyncAreas(s, response).value)
  {
    if SyncAreas(s, response).Ok? && |s.areas| == 0 {
      var r := SyncAreas(s, response).value;
      var offices := response.value.offices;
      forall c | c in r.areas ensures r.areas[c].favorite in {0, 1} {
        var i :| 0 <= i < |offices| && offices[i].0 == c;
        assert r.areas[c] == AreaFor(response.value.centers, offices[i].1);
      }
    }
  }

  /** Once seeded with at least one office, a second sync changes nothing,
      whatever the taxonomy says then. */
  lemma SyncRunsOnce(s: Store, first: Option<Taxonomy>, later: Option<Taxonomy>)
    requires SyncAreas(s, first).Ok?
    requires |s.areas| != 0 || |first.value.offices| > 0
    ensures SyncAreas(SyncAreas(s, first).value, later) == SyncAreas(s, first)
  {
    var r := SyncAreas(s, first).value;
    if |s.areas| == 0 {
      assert first.value.offices[0].0 in r.areas;
    }
  }

  /** A taxonomy with center C1 "Region1" and office O1 "CityA" under it
      seeds the single row O1 = (CityA, Region1, not favourite); an office
      whose parent is not a center gets the fallback label. */
  lemma SyncScenario()
    ensures var t := Taxonomy([("C1", CenterInfo(Some("Region1")))],
                              [("O1", OfficeInfo(Some("CityA"), Some("C1"))),
                               ("O2", OfficeInfo(Some("TownB"), Some("C9")))]);
            var r := SyncAreas(EmptyStore, Some(t));
            && r.Ok?
            && r.value.areas.Keys == {"O1", "O2"}
            && r.value.areas["O1"] == Area("CityA", "Region1", 0)
            && r.value.areas["O2"] == Area("TownB", OtherCenter, 0)
            && r.value.forecasts == map[]
  {
    var offices: Object<OfficeInfo> := [("O1", OfficeInfo(Some("CityA"), Some("C1"))),
                                        ("O2", OfficeInfo(Some("TownB"), Some("C9")))];
    var t := Taxonomy([("C1", CenterInfo(Some("Region1")))], offices);
    assert CenterNameFor(t.centers, "C1") == "Region1";
    assert CenterNameFor(t.centers, "C9") == OtherCenter;
    assert AllComplete(offices);
    assert offices[1..][1..] == [];
    assert CodesOf(offices[1..][1..]) == {};
    assert CodesOf(offices[1..]) == {"O2"};
    assert CodesOf(offices) == {"O1", "O2"};
    var a := SyncAreas(EmptyStore, Some(t)).value.areas;
    assert a[offices[0].0] == AreaFor(t.centers, offices[0].1);
    assert a[offices[1].0] == AreaFor(t.centers, offices[1].1);
  }
}
