/** `get_weather`, `show_forecast_ui` and `on_fav_click` of the store-backed
    app: fetch a forecast, cache each day in `forecasts`, read the area's
    favourite flag, and derive the cards shown for it. */
module Retrieval {
  import opened Results
  import opened Text
  import opened Payload
  import opened Store
  import opened Icons

  /** The three aligned lists read from the first area of the first series. */
  datatype Columns = Columns(dates: seq<string>, weathers: seq<string>, codes: seq<string>)

  /** `res[0]["timeSeries"][0]` and its `["areas"][0]`. */
  function ColumnsOf(res: seq<Report>): (r: Result<Columns>)
    ensures r.Ok? <==> FirstSeries(res).Ok? && |FirstSeries(res).value.areas| > 0
    ensures r.Ok? ==> r.value.dates == FirstSeries(res).value.timeDefines
    ensures r.Ok? ==> r.value.weathers == FirstSeries(res).value.areas[0].weathers
    ensures r.Ok? ==> r.value.codes == FirstSeries(res).value.areas[0].weatherCodes
  {
    match FirstSeries(res)
    case Err(f) => Err(f)
    case Ok(ts) =>
      if |ts.areas| == 0 then Err(IndexOutOfRange)
      else Ok(Columns(ts.timeDefines, ts.areas[0].weathers, ts.areas[0].weatherCodes))
  }

  /** The loop runs over `range(len(weathers))` and subscripts `dates[i]` and
      `codes[i]`, so it completes only when both are at least as long. */
  predicate Aligned(c: Columns) {
    |c.dates| >= |c.weathers| && |c.codes| >= |c.weathers|
  }

  /** Day `i` of the forecast: the date cut to its first 10 characters (the
      `full-date` part of an RFC 3339 `date-time`), the text and the code. */
  ghost function DayOf(c: Columns, i: nat): ForecastItem
    requires Aligned(c) && i < |c.weathers|
  {
    ForecastItem(Prefix(c.dates[i], 10), c.weathers[i], c.codes[i])
  }

  ghost function DaysOf(c: Columns): (items: seq<ForecastItem>)
    requires Aligned(c)
  {
    seq(|c.weathers|, i requires 0 <= i < |c.weathers| => DayOf(c, i))
  }

  /** What the forecast panel is given: the days and the favourite flag. */
  datatype ForecastView = ForecastView(items: seq<ForecastItem>, favorite: int)

  /** Fetch, cache and read back.  An `Err` with an unchanged store is an
      exception before the commit (the open transaction is discarded); an
      `Err` with new forecast rows is the favourite read failing after the
      commit because the area has no row. */
  method GetWeather(s: Store, areaCode: string, response: Option<seq<Report>>)
    returns (next: Store, r: Result<ForecastView>)
    ensures next.areas == s.areas
    ensures response.None? ==> next == s && r == Err(FetchFailed)
    ensures response.Some? && ColumnsOf(response.value).Err? ==> next == s && r.Err?
    ensures response.Some? && ColumnsOf(response.value).Ok? ==>
              var c := ColumnsOf(response.value).value;
              && (!Aligned(c) ==> next == s && r == Err(IndexOutOfRange))
              && (Aligned(c) ==> next.forecasts == UpsertAll(s.forecasts, areaCode, DaysOf(c)))
              && (Aligned(c) ==> (r.Ok? <==> areaCode in s.areas))
              && (r.Ok? ==> r.value == ForecastView(DaysOf(c), s.areas[areaCode].favorite))
  {
    if response.None? {
      return s, Err(FetchFailed);
    }
    var parsed := ColumnsOf(response.value);
    if parsed.Err? {
      return s, Err(parsed.failure);
    }
    var c := parsed.value;
    var forecasts := s.forecasts;
    var items: seq<ForecastItem> := [];
    var i := 0;
    while i < |c.weathers|
      invariant 0 <= i <= |c.weathers|
      invariant i <= |c.dates| && i <= |c.codes|
      invariant |items| == i
      invariant forall j :: 0 <= j < i ==> items[j] == ForecastItem(Prefix(c.dates[j], 10), c.weathers[j], c.codes[j])
      invariant forecasts == UpsertAll(s.forecasts, areaCode, items)
    {
      if i >= |c.dates| || i >= |c.codes| {
        return s, Err(IndexOutOfRange);
      }
      var date := Prefix(c.dates[i], 10);
      forecasts := Upsert(forecasts, areaCode, date, Weather(c.weathers[i], c.codes[i]));
      items := items + [ForecastItem(date, c.weathers[i], c.codes[i])];
      assert items[..|items| - 1] == items[..i];
      i := i + 1;
    }
    assert items == DaysOf(c);
    next := s.(forecasts := forecasts);
    if areaCode !in s.areas {
      return next, Err(NoSuchRow);
    }
    return next, Ok(ForecastView(items, s.areas[areaCode].favorite));
  }

  /** A forecast for an area the store has never seen still writes its
      rows: the expectation that every forecast row refers to an area row
      is not enforced. */
  lemma OrphanForecastRows(forecasts: map<ForecastKey, Weather>, areas: map<string, Area>, areaCode: string, items: seq<ForecastItem>)
    requires areaCode !in areas && |items| > 0
    ensures (areaCode, items[0].date) in UpsertAll(forecasts, areaCode, items)
    ensures exists k :: k in UpsertAll(forecasts, areaCode, items) && k.0 !in areas
  {
    UpsertAllLastWriteWins(forecasts, areaCode, items);
    assert LatestFor(items, items[0].date).Some?;
  }

  /** Two days fetched for O1 leave exactly the rows
      (O1, 2024-01-01) = Sunny/100 and (O1, 2024-01-02) = Rainy/300. */
  lemma TwoDayScenario()
    ensures var c := Columns(["2024-01-01T00:00:00+09:00", "2024-01-02T00:00:00+09:00"],
                             ["Sunny", "Rainy"], ["100", "300"]);
            && Aligned(c)
            && DaysOf(c) == [ForecastItem("2024-01-01", "Sunny", "100"), ForecastItem("2024-01-02", "Rainy", "300")]
            && UpsertAll(map[], "O1", DaysOf(c)) ==
                 map[("O1", "2024-01-01") := Weather("Sunny", "100"), ("O1", "2024-01-02") := Weather("Rainy", "300")]
  {
    var c := Columns(["2024-01-01T00:00:00+09:00", "2024-01-02T00:00:00+09:00"],
                     ["Sunny", "Rainy"], ["100", "300"]);
    assert Prefix(c.dates[0], 10) == "2024-01-01";
    assert Prefix(c.dates[1], 10) == "2024-01-02";
    var items := DaysOf(c);
    assert items[..1][..0] == [];
    assert items[..1] == [items[0]];
    assert items[..2] == items;
    assert items[0] == ForecastItem("2024-01-01", "Sunny", "100");
    assert items[1] == ForecastItem("2024-01-02", "Rainy", "300");
    assert UpsertAll(map[], "O1", items[..1][..0]) == map[];
    var m1 := UpsertAll(map[], "O1", items[..1]);
    assert m1 == map[("O1", "2024-01-01") := Weather("Sunny", "100")];
    assert UpsertAll(map[], "O1", items) == m1[("O1", "2024-01-02") := Weather("Rainy", "300")];
  }

  /** One forecast card: the date, the two icon addresses and the text. */
  datatype Card = Card(date: string, icons: IconUrls, text: string)

  /** The card loop of `show_forecast_ui`; an empty code makes
      `str_code[0]` raise. */
  function CardsFor(items: seq<ForecastItem>): (r: Result<seq<Card>>)
    ensures r.Ok? <==> forall i :: 0 <= i < |items| ==> |items[i].code| > 0
    ensures r.Ok? ==> |r.value| == |items|
    ensures r.Ok? ==> forall i :: 0 <= i < |items| ==>
              r.value[i] == Card(items[i].date, IconUrlsFor(items[i].code).value, items[i].text)
  {
    if |items| == 0 then Ok([])
    else
      match IconUrlsFor(items[0].code)
      case Err(f) => Err(f)
      case Ok(icons) =>
        assert forall i :: 1 <= i < |items| ==> items[i] == items[1..][i - 1];
        match CardsFor(items[1..])
        case Err(f) => Err(f)
        case Ok(rest) => Ok([Card(items[0].date, icons, items[0].text)] + rest)
  }

  /** The forecast panel: the area's name, whether its star is lit, the cards. */
  datatype Panel = Panel(name: string, favorite: int, cards: seq<Card>)

  /** Selecting an area: `get_weather` followed by `show_forecast_ui`, whose
      failures land in the same error branch after the commit. */
  method SelectArea(s: Store, areaCode: string, areaName: string, response: Option<seq<Report>>)
    returns (next: Store, r: Result<Panel>)
    ensures next.areas == s.areas
    ensures response.None? || ColumnsOf(response.value).Err? ==> next == s && r.Err?
    ensures response.Some? && ColumnsOf(response.value).Ok? ==>
              var c := ColumnsOf(response.value).value;
              && (!Aligned(c) ==> next == s && r.Err?)
              && (Aligned(c) ==> next.forecasts == UpsertAll(s.forecasts, areaCode, DaysOf(c)))
              && (Aligned(c) ==> (r.Ok? <==> areaCode in s.areas && CardsFor(DaysOf(c)).Ok?))
    ensures r.Ok? ==> areaCode in s.areas && r.value.favorite == s.areas[areaCode].favorite
    ensures r.Ok? ==> r.value.name == areaName
    ensures r.Ok? ==> response.Some? && ColumnsOf(response.value).Ok? && Aligned(ColumnsOf(response.value).value)
    ensures r.Ok? ==> CardsFor(DaysOf(ColumnsOf(response.value).value)) == Ok(r.value.cards)
    ensures r.Ok? ==> |r.value.cards| == |ColumnsOf(response.value).value.weathers|
  {
    var view;
    next, view := GetWeather(s, areaCode, response);
    if view.Err? {
      return next, Err(view.failure);
    }
    var cards := CardsFor(view.value.items);
    if cards.Err? {
      return next, Err(cards.failure);
    }
    return next, Ok(Panel(areaName, view.value.favorite, cards.value));
  }

  /** `on_fav_click`: write the flipped flag and redraw the panel with it. */
  function FavoriteClicked(s: Store, areaCode: string, panel: Panel): (r: (Store, Panel))
    ensures r.1.name == panel.name && r.1.cards == panel.cards
    ensures r.1.favorite in {0, 1} && (r.1.favorite == 1 <==> panel.favorite == 0)
    ensures r.0.areas.Keys == s.areas.Keys
    ensures areaCode in s.areas ==> r.0.areas[areaCode] == s.areas[areaCode].(favorite := r.1.favorite)
    ensures forall c :: c in s.areas && c != areaCode ==> r.0.areas[c] == s.areas[c]
    ensures areaCode !in s.areas ==> r.0 == s
    ensures r.0.forecasts == s.forecasts
  {
    var toggled := ToggleFavorite(s, areaCode, panel.favorite);
    (toggled.0, panel.(favorite := toggled.1))
  }

  /** Starting from a panel that agrees with the store, two clicks restore
      both the store and the panel. */
  lemma TwoClicksRestore(s: Store, areaCode: string, panel: Panel)
    requires FavoritesBinary(s)
    requires areaCode in s.areas && panel.favorite == s.areas[areaCode].favorite
    ensures var (s1, p1) := FavoriteClicked(s, areaCode, panel);
            FavoriteClicked(s1, areaCode, p1) == (s, panel)
  {
    ToggleTwiceRestores(s, areaCode);
  }
}
