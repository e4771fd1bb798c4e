/** The sidebar of the first, storeless version: one expandable tile per
    center of the area taxonomy, holding the offices whose parent it is. */
module TaxonomySidebar {
  import opened Results
  import opened Payload

  datatype OfficeEntry = OfficeEntry(code: string, name: string)

  datatype SidebarItem =
    | CenterTile(name: string, children: seq<OfficeEntry>)
    | FetchFailedNotice  // the text shown when the area information fails

  /** `o_info["parent"] == c_code` is evaluated for every office, so each
      needs a parent; only a child's `o_info["name"]` is read. */
  ghost predicate ChildrenReadable(centerCode: string, offices: seq<(string, OfficeInfo)>) {
    forall i :: 0 <= i < |offices| ==>
      offices[i].1.parent.Some? && (offices[i].1.parent.value == centerCode ==> offices[i].1.name.Some?)
  }

  /** The office at position `i` is a child of `centerCode` listed as `e`. */
  ghost predicate ListedAt(offices: seq<(string, OfficeInfo)>, i: int, centerCode: string, e: OfficeEntry) {
    0 <= i < |offices| && offices[i] == (e.code, OfficeInfo(Some(e.name), Some(centerCode)))
  }

  /** Some office is a child of `centerCode` listed as `e`. */
  ghost predicate Listed(offices: seq<(string, OfficeInfo)>, centerCode: string, e: OfficeEntry) {
    exists i :: ListedAt(offices, i, centerCode, e)
  }

  /** The inner loop over `offices.items()` for one center. */
  function ChildrenOf(centerCode: string, offices: Object<OfficeInfo>): (r: Result<seq<OfficeEntry>>)
    ensures r.Ok? <==> ChildrenReadable(centerCode, offices)
    ensures r.Ok? ==> forall e :: e in r.value <==> Listed(offices, centerCode, e)
    ensures r.Ok? ==> forall a :: 0 <= a < |r.value| ==> HasKey(offices, r.value[a].code)
    ensures r.Ok? ==> forall a, b :: 0 <= a < b < |r.value| ==>
              IndexOfKey(offices, r.value[a].code) < IndexOfKey(offices, r.value[b].code)
    decreases |offices|
  {
    if |offices| == 0 then Ok([])
    else
      var (code, info) := offices[0];
      var tail: Object<OfficeInfo> := offices[1..];
      ShiftFacts(offices);
      if info.parent.None? then Err(MissingKey("parent"))
      else
        match ChildrenOf(centerCode, tail)
        case Err(f) => Err(f)
        case Ok(rest) =>
          if info.parent.value != centerCode then
            assert forall e :: !ListedAt(offices, 0, centerCode, e);
            Ok(rest)
          else if info.name.None? then Err(MissingKey("name"))
          else
            var e := OfficeEntry(code, info.name.value);
            assert ListedAt(offices, 0, centerCode, e);
            assert IndexOfKey(offices, code) == 0;
            Ok([e] + rest)
  }

  /** How positions in `offices[1..]` relate to positions in `offices`. */
  lemma ShiftFacts(offices: Object<OfficeInfo>)
    requires |offices| > 0
    ensures DistinctKeys(offices[1..])
    ensures forall i :: 1 <= i < |offices| ==> offices[i] == offices[1..][i - 1]
    ensures forall c :: HasKey(offices[1..], c) ==>
              HasKey(offices, c) && c != offices[0].0 && IndexOfKey(offices, c) == IndexOfKey(offices[1..], c) + 1
    ensures forall c, e :: Listed(offices, c, e) <==> ListedAt(offices, 0, c, e) || Listed(offices[1..], c, e)
  {
    var t := offices[1..];
    forall c | HasKey(t, c)
      ensures HasKey(offices, c) && c != offices[0].0 && IndexOfKey(offices, c) == IndexOfKey(t, c) + 1
    {
      var k := IndexOfKey(t, c);
      assert offices[k + 1].0 == c;
    }
    forall c, e ensures Listed(offices, c, e) <==> ListedAt(offices, 0, c, e) || Listed(t, c, e) {
      if Listed(offices, c, e) {
        var i :| ListedAt(offices, i, c, e);
        if i > 0 { assert ListedAt(t, i - 1, c, e); }
      }
      if Listed(t, c, e) {
        var i :| ListedAt(t, i, c, e);
        assert ListedAt(offices, i + 1, c, e);
      }
    }
  }

  /** Center `k`'s tile can be built: its offices are readable and the
      center has a name. */
  ghost predicate TileReadable(centers: seq<(string, CenterInfo)>, offices: Object<OfficeInfo>, k: int)
    requires 0 <= k < |centers|
  {
    ChildrenReadable(centers[k].0, offices) && centers[k].1.name.Some?
  }

  ghost predicate AllReadable(centers: seq<(string, CenterInfo)>, offices: Object<OfficeInfo>) {
    forall k :: 0 <= k < |centers| ==> TileReadable(centers, offices, k)
  }

  lemma ReadableSplit(centers: seq<(string, CenterInfo)>, offices: Object<OfficeInfo>)
    requires |centers| > 0
    ensures AllReadable(centers, offices) <==> TileReadable(centers, offices, 0) && AllReadable(centers[1..], offices)
  {
    assert forall k :: 1 <= k < |centers| ==> centers[k] == centers[1..][k - 1];
    if TileReadable(centers, offices, 0) && AllReadable(centers[1..], offices) {
      forall k | 0 <= k < |centers| ensures TileReadable(centers, offices, k) {
        if k > 0 { assert TileReadable(centers[1..], offices, k - 1); }
      }
    }
    if AllReadable(centers, offices) {
      forall k | 0 <= k < |centers| - 1 ensures TileReadable(centers[1..], offices, k) {
        assert TileReadable(centers, offices, k + 1);
      }
    }
  }

  /** The outer loop over `centers.items()`.  A `KeyError` ends it: the
      tiles built so far stay and the failure notice follows them. */
  function Tiles(centers: seq<(string, CenterInfo)>, offices: Object<OfficeInfo>): (r: seq<SidebarItem>)
    ensures FetchFailedNotice in r <==> !AllReadable(centers, offices)
    ensures FetchFailedNotice !in r ==> |r| == |centers|
    ensures FetchFailedNotice in r ==> 0 < |r| <= |centers| && r[|r| - 1] == FetchFailedNotice
    ensures FetchFailedNotice in r ==> !TileReadable(centers, offices, |r| - 1)
    ensures forall k :: 0 <= k < |r| - 1 ==> r[k].CenterTile?
    ensures forall k :: 0 <= k < |r| && r[k].CenterTile? ==>
              && k < |centers|
              && centers[k].1.name == Some(r[k].name)
              && ChildrenOf(centers[k].0, offices) == Ok(r[k].children)
    decreases |centers|
  {
    if |centers| == 0 then []
    else
      var (code, info) := centers[0];
      var rest := Tiles(centers[1..], offices);
      assert forall k :: 1 <= k < |centers| ==> centers[k] == centers[1..][k - 1];
      ReadableSplit(centers, offices);
      match ChildrenOf(code, offices)
      case Err(_) => [FetchFailedNotice]
      case Ok(children) =>
        if info.name.None? then
          assert !TileReadable(centers, offices, 0);
          [FetchFailedNotice]
        else
          var r := [CenterTile(info.name.value, children)] + rest;
          assert FetchFailedNotice in rest ==> centers[|r| - 1] == centers[1..][|rest| - 1];
          r
  }

  /** The whole sidebar; a failed fetch shows only the notice. */
  function SidebarFor(response: Option<Taxonomy>): (r: seq<SidebarItem>)
    ensures response.None? ==> r == [FetchFailedNotice]
  {
    match response
    case None => [FetchFailedNotice]
    case Some(t) => Tiles(t.centers, t.offices)
  }

  /** A fully readable taxonomy gives one tile per center, in order, each
      titled with the center's name. */
  lemma ReadableGivesTilePerCenter(t: Taxonomy)
    requires AllReadable(t.centers, t.offices)
    ensures |SidebarFor(Some(t))| == |t.centers|
    ensures forall k :: 0 <= k < |t.centers| ==>
              SidebarFor(Some(t))[k] == CenterTile(t.centers[k].1.name.value, ChildrenOf(t.centers[k].0, t.offices).value)
  {
    var r := Tiles(t.centers, t.offices);
    assert FetchFailedNotice !in r;
    forall k | 0 <= k < |t.centers|
      ensures r[k] == CenterTile(t.centers[k].1.name.value, ChildrenOf(t.centers[k].0, t.offices).value)
    {
      assert r[k] in r;
      assert r[k].CenterTile?;
    }
  }

  /** Every office is listed in at most one tile, and at most once there. */
  lemma EachOfficeListedOnce(t: Taxonomy, k1: nat, k2: nat, a: nat, b: nat)
    requires var r := SidebarFor(Some(t));
             && k1 < |r| && k2 < |r| && r[k1].CenterTile? && r[k2].CenterTile?
             && a < |r[k1].children| && b < |r[k2].children|
             && r[k1].children[a].code == r[k2].children[b].code
    ensures k1 == k2 && a == b
  {
    var r := SidebarFor(Some(t));
    var e1, e2 := r[k1].children[a], r[k2].children[b];
    var c1, c2 := t.centers[k1].0, t.centers[k2].0;
    assert e1 in r[k1].children && e2 in r[k2].children;
    assert Listed(t.offices, c1, e1);
    assert Listed(t.offices, c2, e2);
    var i :| ListedAt(t.offices, i, c1, e1);
    var j :| ListedAt(t.offices, j, c2, e2);
    assert i == j;
    assert c1 == c2;
    assert k1 == k2;
  }

  /** An office whose parent is not a center is listed in no tile. */
  lemma OrphanListedNowhere(t: Taxonomy, i: nat)
    requires i < |t.offices| && t.offices[i].1.parent.Some?
    requires forall k :: 0 <= k < |t.centers| ==> t.centers[k].0 != t.offices[i].1.parent.value
    ensures forall k, e ::
              (0 <= k < |SidebarFor(Some(t))| && SidebarFor(Some(t))[k].CenterTile? &&
               e in SidebarFor(Some(t))[k].children) ==> e.code != t.offices[i].0
  {
    var r := SidebarFor(Some(t));
    forall k, e | 0 <= k < |r| && r[k].CenterTile? && e in r[k].children
      ensures e.code != t.offices[i].0
    {
      assert Listed(t.offices, t.centers[k].0, e);
      var j :| ListedAt(t.offices, j, t.centers[k].0, e);
      assert t.offices[j].1.parent.value == t.centers[k].0;
    }
  }
}
