/** `build_sidebar` of the store-backed app: the two `SELECT ... ORDER BY`
    queries over `areas` and the grouping of the search result into one
    expandable tile per run of equal `center_name`. */
module Sidebar {
  import opened Results
  import opened Text
  import opened Ordering
  import opened Store

  /** A row of `SELECT * FROM areas`. */
  datatype Row = Row(code: string, area: Area)

  /** The rows of `areas` a `WHERE` clause keeps. */
  function Selected(s: Store, keep: Row -> bool): set<Row> {
    SelectedAmong(s, keep, s.areas.Keys)
  }

  /** The same, looking only at the codes in `codes`. */
  function SelectedAmong(s: Store, keep: Row -> bool, codes: set<string>): set<Row> {
    set c | c in codes && c in s.areas && keep(Row(c, s.areas[c])) :: Row(c, s.areas[c])
  }

  lemma SelectedGrows(s: Store, keep: Row -> bool, done: set<string>, c: string)
    requires c in s.areas && c !in done
    ensures var row := Row(c, s.areas[c]);
            var before := SelectedAmong(s, keep, done);
            var after := SelectedAmong(s, keep, done + {c});
            && row !in before
            && (keep(row) ==> multiset(after) == multiset(before) + multiset{row})
            && (!keep(row) ==> after == before)
  {
    var row := Row(c, s.areas[c]);
    var before := SelectedAmong(s, keep, done);
    var after := SelectedAmong(s, keep, done + {c});
    if keep(row) {
      assert after == before + {row};
    } else {
      assert after == before;
    }
  }

  /** A query: the rows `keep` admits, in an order sorted by `le`; rows `le`
      ties may come out in either order, as the engine leaves them. */
  method Select(s: Store, keep: Row -> bool, le: (Row, Row) -> bool) returns (rows: seq<Row>)
    requires TotalPreorder(le)
    ensures SortedBy(rows, le)
    ensures multiset(rows) == multiset(Selected(s, keep))
  {
    rows := [];
    var todo := s.areas.Keys;
    ghost var done: set<string> := {};
    while todo != {}
      invariant todo + done == s.areas.Keys && todo !! done
      invariant SortedBy(rows, le)
      invariant multiset(rows) == multiset(SelectedAmong(s, keep, done))
      decreases todo
    {
      var c :| c in todo;
      SelectedGrows(s, keep, done, c);
      var row := Row(c, s.areas[c]);
      if keep(row) {
        rows := InsertBy(row, rows, le);
      }
      todo := todo - {c};
      done := done + {c};
    }
  }

  /** `ORDER BY is_favorite DESC, center_name ASC`. */
  predicate SearchLe(a: Row, b: Row) {
    a.area.favorite > b.area.favorite ||
    (a.area.favorite == b.area.favorite && LexLe(a.area.center, b.area.center))
  }

  /** `ORDER BY area_name ASC`. */
  predicate NameLe(a: Row, b: Row) {
    LexLe(a.area.name, b.area.name)
  }

  lemma SearchOrderIsPreorder()
    ensures TotalPreorder(SearchLe)
  {
    forall a, b ensures SearchLe(a, b) || SearchLe(b, a) {
      LexLeTotal(a.area.center, b.area.center);
    }
    forall a, b, c | SearchLe(a, b) && SearchLe(b, c) ensures SearchLe(a, c) {
      if a.area.favorite == b.area.favorite == c.area.favorite {
        LexLeTransitive(a.area.center, b.area.center, c.area.center);
      }
    }
  }

  lemma NameOrderIsPreorder()
    ensures TotalPreorder(NameLe)
  {
    forall a, b ensures NameLe(a, b) || NameLe(b, a) {
      LexLeTotal(a.area.name, b.area.name);
    }
    forall a, b, c | NameLe(a, b) && NameLe(b, c) ensures NameLe(a, c) {
      LexLeTransitive(a.area.name, b.area.name, c.area.name);
    }
  }

  /** A row as it stands in the store. */
  ghost predicate Stored(s: Store, r: Row) {
    r.code in s.areas && s.areas[r.code] == r.area
  }

  ghost predicate DistinctCodes(rows: seq<Row>) {
    forall i, j :: 0 <= i < j < |rows| ==> rows[i].code != rows[j].code
  }

  /** A permutation of the stored rows `keep` admits, with no row twice. */
  lemma SelectionFacts(s: Store, keep: Row -> bool, rows: seq<Row>)
    requires multiset(rows) == multiset(Selected(s, keep))
    ensures forall r :: r in rows <==> Stored(s, r) && keep(r)
    ensures DistinctCodes(rows)
  {
    forall r ensures r in rows <==> Stored(s, r) && keep(r) {
      assert r in rows <==> r in multiset(rows);
    }
    forall i, j | 0 <= i < j < |rows| ensures rows[i].code != rows[j].code {
      RepeatCountsTwice(rows, i, j);
      assert multiset(Selected(s, keep))[rows[i]] <= 1;
      assert rows[i] != rows[j];
      assert rows[i] in rows && rows[j] in rows;
    }
  }

  lemma RepeatCountsTwice<T>(s: seq<T>, i: nat, j: nat)
    requires i < j < |s|
    ensures s[i] == s[j] ==> multiset(s)[s[i]] >= 2
  {
    assert s == s[..i] + [s[i]] + s[i + 1..j] + [s[j]] + s[j + 1..];
  }

  /** The search view's rows: `WHERE area_name LIKE '%query%'`, with the
      pattern read as plain substring containment. */
  method SearchRows(s: Store, query: string) returns (rows: seq<Row>)
    ensures SortedBy(rows, SearchLe)
    ensures forall r :: r in rows <==> Stored(s, r) && Contains(r.area.name, query)
    ensures DistinctCodes(rows)
  {
    SearchOrderIsPreorder();
    rows := Select(s, (r: Row) => Contains(r.area.name, query), SearchLe);
    SelectionFacts(s, (r: Row) => Contains(r.area.name, query), rows);
  }

  /** The favourites view's rows: `WHERE is_favorite = 1`. */
  method FavoriteRows(s: Store) returns (rows: seq<Row>)
    ensures SortedBy(rows, NameLe)
    ensures forall r :: r in rows <==> Stored(s, r) && r.area.favorite == 1
    ensures DistinctCodes(rows)
  {
    NameOrderIsPreorder();
    rows := Select(s, (r: Row) => r.area.favorite == 1, NameLe);
    SelectionFacts(s, (r: Row) => r.area.favorite == 1, rows);
  }

  /** An expandable tile titled with a center name, holding its rows. */
  datatype Tile = Tile(center: string, rows: seq<Row>)

  /** The rows of the tiles, tile after tile. */
  function Flatten(tiles: seq<Tile>): seq<Row>
    decreases |tiles|
  {
    if |tiles| == 0 then [] else Flatten(tiles[..|tiles| - 1]) + tiles[|tiles| - 1].rows
  }

  lemma FlattenSnoc(tiles: seq<Tile>, t: Tile)
    ensures Flatten(tiles + [t]) == Flatten(tiles) + t.rows
  {
    assert (tiles + [t])[..|tiles|] == tiles;
  }

  lemma FlattenExtendLast(tiles: seq<Tile>, row: Row)
    requires |tiles| > 0
    ensures var last := tiles[|tiles| - 1];
            Flatten(tiles[..|tiles| - 1] + [Tile(last.center, last.rows + [row])]) == Flatten(tiles) + [row]
  {
    var last := tiles[|tiles| - 1];
    FlattenSnoc(tiles[..|tiles| - 1], Tile(last.center, last.rows + [row]));
    assert tiles == tiles[..|tiles| - 1] + [last];
    FlattenSnoc(tiles[..|tiles| - 1], last);
  }

  /** Every tile is non-empty and holds only rows of its own center. */
  ghost predicate TilesHomogeneous(tiles: seq<Tile>) {
    forall t :: t in tiles ==> |t.rows| > 0 && forall r :: r in t.rows ==> r.area.center == t.center
  }

  /** Neighbouring tiles have different centers, so each tile is a maximal run. */
  ghost predicate NeighboursDiffer(tiles: seq<Tile>) {
    forall i :: 0 < i < |tiles| ==> tiles[i - 1].center != tiles[i].center
  }

  /** The grouping loop: `current_center` starts as "" and a new tile opens
      exactly when a row's center differs from it.  A first row whose
      center is "" finds no tile open, and the append fails. */
  method GroupByCenter(rows: seq<Row>) returns (r: Result<seq<Tile>>)
    ensures r.Err? <==> |rows| > 0 && rows[0].area.center == ""
    ensures r.Ok? ==> Flatten(r.value) == rows
    ensures r.Ok? ==> TilesHomogeneous(r.value)
    ensures r.Ok? ==> NeighboursDiffer(r.value)
  {
    var current := "";
    var tiles: seq<Tile> := [];
    var i := 0;
    while i < |rows|
      invariant 0 <= i <= |rows|
      invariant Flatten(tiles) == rows[..i]
      invariant i == 0 ==> tiles == [] && current == ""
      invariant i > 0 ==> |tiles| > 0 && current == tiles[|tiles| - 1].center && rows[0].area.center != ""
      invariant TilesHomogeneous(tiles)
      invariant NeighboursDiffer(tiles)
    {
      var row := rows[i];
      assert rows[..i + 1] == rows[..i] + [row];
      if row.area.center != current {
        current := row.area.center;
        FlattenSnoc(tiles, Tile(current, [row]));
        tiles := tiles + [Tile(current, [row])];
      } else {
        if |tiles| == 0 {
          return Err(NoOpenTile);
        }
        var last := tiles[|tiles| - 1];
        FlattenExtendLast(tiles, row);
        tiles := tiles[..|tiles| - 1] + [Tile(last.center, last.rows + [row])];
      }
      i := i + 1;
    }
    assert rows[..i] == rows;
    return Ok(tiles);
  }

  /** The title of a row's entry: a star before favourites' names. */
  function EntryTitle(r: Row): (title: string)
    ensures |title| >= |r.area.name| && title[|title| - |r.area.name|..] == r.area.name
    ensures |title| > |r.area.name| <==> r.area.favorite != 0
  {
    (if r.area.favorite != 0 then "⭐ " else "") + r.area.name
  }

  /** What the sidebar shows. */
  datatype View =
    | Browse(tiles: seq<Tile>)   // navigation index 0: grouped search result
    | Favorites(rows: seq<Row>)  // any other index: the favourites
    | NoFavorites                // the placeholder when there are none

  /** `x` is a search hit for `query` and no hit has a higher favourite
      flag, so `x` may come first in the search order. */
  ghost predicate LeadsSearch(s: Store, query: string, x: Row) {
    && Stored(s, x) && Contains(x.area.name, query)
    && forall y :: Stored(s, y) && Contains(y.area.name, query) ==> y.area.favorite <= x.area.favorite
  }

  /** The first search row has an empty center exactly when some leading hit
      has one: leading hits come first, and "" sorts before every center. */
  lemma FirstRowBlank(s: Store, query: string, rows: seq<Row>)
    requires SortedBy(rows, SearchLe)
    requires forall x :: x in rows <==> Stored(s, x) && Contains(x.area.name, query)
    ensures (|rows| > 0 && rows[0].area.center == "") <==>
            exists x :: LeadsSearch(s, query, x) && x.area.center == ""
  {
    if |rows| > 0 && rows[0].area.center == "" {
      forall y | Stored(s, y) && Contains(y.area.name, query) ensures y.area.favorite <= rows[0].area.favorite {
        assert y in rows;
        var j :| 0 <= j < |rows| && rows[j] == y;
        if j > 0 { assert SearchLe(rows[0], rows[j]); }
      }
      assert LeadsSearch(s, query, rows[0]);
    }
    if x :| LeadsSearch(s, query, x) && x.area.center == "" {
      assert x in rows;
      var j :| 0 <= j < |rows| && rows[j] == x;
      assert rows[0] in rows;
      if j > 0 {
        assert SearchLe(rows[0], rows[j]);
        assert rows[0].area.favorite <= x.area.favorite;
        assert LexLe(rows[0].area.center, "");
      }
    }
  }

  /** `build_sidebar` for the selected navigation index and search text. */
  method BuildSidebar(s: Store, navIndex: int, query: string) returns (r: Result<View>)
    ensures navIndex == 0 ==> r.Err? || r.value.Browse?
    ensures navIndex == 0 ==> (r.Err? <==> exists x :: LeadsSearch(s, query, x) && x.area.center == "")
    ensures navIndex != 0 ==> r.Ok? && !r.value.Browse?
    ensures r.Ok? && r.value.Browse? ==>
              && TilesHomogeneous(r.value.tiles) && NeighboursDiffer(r.value.tiles)
              && SortedBy(Flatten(r.value.tiles), SearchLe)
              && DistinctCodes(Flatten(r.value.tiles))
              && forall x :: x in Flatten(r.value.tiles) <==> Stored(s, x) && Contains(x.area.name, query)
    ensures r.Ok? && r.value.Favorites? ==>
              && |r.value.rows| > 0 && SortedBy(r.value.rows, NameLe) && DistinctCodes(r.value.rows)
              && forall x :: x in r.value.rows <==> Stored(s, x) && x.area.favorite == 1
    ensures r.Ok? && r.value.NoFavorites? ==> forall c :: c in s.areas ==> s.areas[c].favorite != 1
  {
    if navIndex == 0 {
      var rows := SearchRows(s, query);
      var grouped := GroupByCenter(rows);
      FirstRowBlank(s, query, rows);
      if grouped.Err? {
        return Err(grouped.failure);
      }
      return Ok(Browse(grouped.value));
    }
    var favs := FavoriteRows(s);
    if |favs| == 0 {
      forall c | c in s.areas ensures s.areas[c].favorite != 1 {
        assert Row(c, s.areas[c]) !in favs;
      }
      return Ok(NoFavorites);
    }
    return Ok(Favorites(favs));
  }

  lemma {:induction false} TileRowsInFlatten(tiles: seq<Tile>, i: nat, x: Row)
    requires i < |tiles| && x in tiles[i].rows
    ensures x in Flatten(tiles)
    decreases |tiles|
  {
    if i < |tiles| - 1 {
      assert tiles[..|tiles| - 1][i] == tiles[i];
      TileRowsInFlatten(tiles[..|tiles| - 1], i, x);
    }
  }

  /** When every row shares one favourite flag, the search order sorts the
      tiles by center name. */
  lemma {:induction false} TileCentersSorted(tiles: seq<Tile>, fav: int)
    requires TilesHomogeneous(tiles)
    requires SortedBy(Flatten(tiles), SearchLe)
    requires forall x :: x in Flatten(tiles) ==> x.area.favorite == fav
    ensures forall i, j :: 0 <= i < j < |tiles| ==> LexLe(tiles[i].center, tiles[j].center)
    decreases |tiles|
  {
    if |tiles| > 0 {
      var init := tiles[..|tiles| - 1];
      var last := tiles[|tiles| - 1];
      var flat := Flatten(tiles);
      assert flat == Flatten(init) + last.rows;
      assert forall k :: 0 <= k < |Flatten(init)| ==> flat[k] == Flatten(init)[k];
      assert forall t :: t in init ==> t in tiles;
      TileCentersSorted(init, fav);
      forall i | 0 <= i < |tiles| - 1 ensures LexLe(tiles[i].center, last.center) {
        var x := tiles[i].rows[0];
        assert init[i] == tiles[i];
        TileRowsInFlatten(init, i, x);
        var a :| 0 <= a < |Flatten(init)| && Flatten(init)[a] == x;
        assert flat[|Flatten(init)|] == last.rows[0];
        assert SearchLe(flat[a], flat[|Flatten(init)|]);
        assert last in tiles && tiles[i] in tiles;
      }
      forall i, j | 0 <= i < j < |tiles| ensures LexLe(tiles[i].center, tiles[j].center) {
        if j < |tiles| - 1 {
          assert init[i] == tiles[i] && init[j] == tiles[j];
        }
      }
    }
  }

  /** Without favourites in the result (or with all of them), the grouped
      view has exactly one tile per center name. */
  lemma OneTilePerCenter(tiles: seq<Tile>, fav: int)
    requires TilesHomogeneous(tiles) && NeighboursDiffer(tiles)
    requires SortedBy(Flatten(tiles), SearchLe)
    requires forall x :: x in Flatten(tiles) ==> x.area.favorite == fav
    ensures forall i, j :: 0 <= i < j < |tiles| ==> tiles[i].center != tiles[j].center
  {
    TileCentersSorted(tiles, fav);
    forall i, j | 0 <= i < j < |tiles| ensures tiles[i].center != tiles[j].center {
      if j > i + 1 && tiles[i].center == tiles[j].center {
        LexLeAntisymmetric(tiles[i].center, tiles[i + 1].center);
      }
    }
  }
}
