/** The local SQLite store as two maps keyed on their natural keys: the
    `areas` table (primary key `area_code`) and the `forecasts` table
    (unique pair `area_code`, `forecast_date`). */
module Store {
  import opened Results

  /** A row of `areas`; `favorite` is the INTEGER column `is_favorite`. */
  datatype Area = Area(name: string, center: string, favorite: int)

  /** The payload of a row of `forecasts`. */
  datatype Weather = Weather(text: string, code: string)

  type ForecastKey = (string, string)

  datatype Store = Store(areas: map<string, Area>, forecasts: map<ForecastKey, Weather>)

  const EmptyStore := Store(map[], map[])

  /** Every `is_favorite` holds 0 or 1. */
  ghost predicate FavoritesBinary(s: Store) {
    forall code :: code in s.areas ==> s.areas[code].favorite in {0, 1}
  }

  /** `INSERT INTO areas (area_code, area_name, center_name)`: the column
      default gives `is_favorite = 0`; an existing code violates the key. */
  function InsertArea(areas: map<string, Area>, code: string, name: string, center: string): (r: Result<map<string, Area>>)
    ensures r.Err? <==> code in areas
    ensures r.Ok? ==> r.value.Keys == areas.Keys + {code}
    ensures r.Ok? ==> r.value[code] == Area(name, center, 0)
    ensures r.Ok? ==> forall c :: c in areas ==> r.value[c] == areas[c]
  {
    if code in areas then Err(DuplicateKey)
    else Ok(areas[code := Area(name, center, 0)])
  }

  /** `INSERT OR REPLACE INTO forecasts`: the unique pair decides the row. */
  function Upsert(forecasts: map<ForecastKey, Weather>, code: string, date: string, w: Weather): map<ForecastKey, Weather> {
    forecasts[(code, date) := w]
  }

  /** Upsert keeps one row per key, holding the latest write, and leaves
      every other row as it was. */
  lemma UpsertLastWriteWins(forecasts: map<ForecastKey, Weather>, code: string, date: string, w: Weather)
    ensures Upsert(forecasts, code, date, w).Keys == forecasts.Keys + {(code, date)}
    ensures Upsert(forecasts, code, date, w)[(code, date)] == w
    ensures forall k: ForecastKey :: k in forecasts && k != (code, date) ==> Upsert(forecasts, code, date, w)[k] == forecasts[k]
  {
  }

  /** Writing the same key twice leaves only the second write. */
  lemma UpsertTwice(forecasts: map<ForecastKey, Weather>, code: string, date: string, w1: Weather, w2: Weather)
    ensures Upsert(Upsert(forecasts, code, date, w1), code, date, w2) == Upsert(forecasts, code, date, w2)
  {
  }

  /** One day of a fetched forecast: the calendar date, text and code. */
  datatype ForecastItem = ForecastItem(date: string, text: string, code: string)

  /** The upserts of a batch for one area, applied in list order. */
  function UpsertAll(forecasts: map<ForecastKey, Weather>, code: string, items: seq<ForecastItem>): map<ForecastKey, Weather>
    decreases |items|
  {
    if |items| == 0 then forecasts
    else
      var last := items[|items| - 1];
      Upsert(UpsertAll(forecasts, code, items[..|items| - 1]), code, last.date, Weather(last.text, last.code))
  }

  /** The latest item of the batch dated `date`, if any. */
  function LatestFor(items: seq<ForecastItem>, date: string): (r: Option<Weather>)
    ensures r.None? <==> forall i :: 0 <= i < |items| ==> items[i].date != date
    ensures r.Some? ==>
              exists i :: (0 <= i < |items| && items[i].date == date &&
                           r.value == Weather(items[i].text, items[i].code) &&
                           forall j :: i < j < |items| ==> items[j].date != date)
  {
    if |items| == 0 then None
    else if items[|items| - 1].date == date then
      Some(Weather(items[|items| - 1].text, items[|items| - 1].code))
    else
      LatestFor(items[..|items| - 1], date)
  }

  /** After a batch, the row of (code, d) holds the batch's latest item for
      d when there is one; every other row is untouched and no row is
      removed. */
  lemma {:induction false} UpsertAllLastWriteWins(forecasts: map<ForecastKey, Weather>, code: string, items: seq<ForecastItem>)
    ensures forall k: ForecastKey :: k in UpsertAll(forecasts, code, items) <==>
      k in forecasts || (k.0 == code && LatestFor(items, k.1).Some?)
    ensures forall k: ForecastKey :: k.0 == code && LatestFor(items, k.1).Some? ==>
      UpsertAll(forecasts, code, items)[k] == LatestFor(items, k.1).value
    ensures forall k: ForecastKey :: k in forecasts && (k.0 != code || LatestFor(items, k.1).None?) ==>
      UpsertAll(forecasts, code, items)[k] == forecasts[k]
    decreases |items|
  {
    if |items| > 0 {
      UpsertAllLastWriteWins(forecasts, code, items[..|items| - 1]);
    }
  }

  /** `on_fav_click`: the new status is 1 when the status shown was 0 and 0
      otherwise; `UPDATE ... WHERE area_code = ?` touches at most that row. */
  function ToggleFavorite(s: Store, code: string, shown: int): (r: (Store, int))
    ensures r.1 in {0, 1} && (r.1 == 1 <==> shown == 0)
    ensures r.0.forecasts == s.forecasts
    ensures r.0.areas.Keys == s.areas.Keys
    ensures forall c :: c in s.areas && c != code ==> r.0.areas[c] == s.areas[c]
    ensures code in s.areas ==> r.0.areas[code] == s.areas[code].(favorite := r.1)
    ensures code !in s.areas ==> r.0 == s
  {
    var status := if shown == 0 then 1 else 0;
    if code in s.areas then
      (s.(areas := s.areas[code := s.areas[code].(favorite := status)]), status)
    else
      (s, status)
  }

  /** Toggling twice from the status the store holds restores the store. */
  lemma ToggleTwiceRestores(s: Store, code: string)
    requires FavoritesBinary(s)
    requires code in s.areas
    ensures var (s1, st) := ToggleFavorite(s, code, s.areas[code].favorite);
            ToggleFavorite(s1, code, st).0 == s
  {
    var (s1, st) := ToggleFavorite(s, code, s.areas[code].favorite);
    assert s1.areas[code] == s.areas[code].(favorite := st);
    assert ToggleFavorite(s1, code, st).0.areas == s.areas;
  }

  /** A toggle keeps every favourite flag binary. */
  lemma TogglePreservesBinary(s: Store, code: string, shown: int)
    requires FavoritesBinary(s)
    ensures FavoritesBinary(ToggleFavorite(s, code, shown).0)
  {
  }
}
