/** `get_weather` of the first, storeless version: one card per sub-area of
    the first time series, with that sub-area's first-day text and icon. */
module AreaCards {
  import opened Results
  import opened Payload
  import opened Icons

  datatype Widget =
    | Headline(title: string)
    | WeatherCard(subArea: string, text: string, icons: IconUrls)
    | ErrorLine  // the red error text

  /** `weathers[0]`, `weatherCodes[0]` and the icon code's first character
      all exist. */
  predicate CardReadable(a: AreaForecast) {
    |a.weathers| > 0 && |a.weatherCodes| > 0 && |a.weatherCodes[0]| > 0
  }

  /** The card of one sub-area, when it is readable. */
  function CardOf(a: AreaForecast): (w: Widget)
    requires CardReadable(a)
    ensures w.WeatherCard? && w.subArea == a.areaName && w.text == a.weathers[0]
    ensures IconUrlsFor(a.weatherCodes[0]) == Ok(w.icons)
  {
    WeatherCard(a.areaName, a.weathers[0], IconUrlsFor(a.weatherCodes[0]).value)
  }

  /** The loop over `time_series["areas"]`. */
  function CardsFor(areas: seq<AreaForecast>): (r: Result<seq<Widget>>)
    ensures r.Ok? <==> forall i :: 0 <= i < |areas| ==> CardReadable(areas[i])
    ensures r.Ok? ==> |r.value| == |areas|
    ensures r.Ok? ==> forall i :: 0 <= i < |areas| ==> r.value[i] == CardOf(areas[i])
  {
    if |areas| == 0 then Ok([])
    else
      assert forall i :: 1 <= i < |areas| ==> areas[i] == areas[1..][i - 1];
      if !CardReadable(areas[0]) then Err(IndexOutOfRange)
      else
        match CardsFor(areas[1..])
        case Err(f) => Err(f)
        case Ok(rest) => Ok([CardOf(areas[0])] + rest)
  }

  /** The forecast panel after selecting `areaName`: the headline and the
      cards, or, after any failure, nothing but the error text. */
  function Display(areaName: string, response: Option<seq<Report>>): (r: seq<Widget>)
    ensures r == [ErrorLine] || (|r| > 0 && r[0] == Headline(areaName + "の予報"))
    ensures r != [ErrorLine] <==>
              && response.Some? && FirstSeries(response.value).Ok?
              && forall i :: 0 <= i < |FirstSeries(response.value).value.areas| ==>
                   CardReadable(FirstSeries(response.value).value.areas[i])
    ensures r != [ErrorLine] ==>
              var areas := FirstSeries(response.value).value.areas;
              && |r| == |areas| + 1
              && forall i :: 0 <= i < |areas| ==> r[i + 1] == CardOf(areas[i])
  {
    match response
    case None => [ErrorLine]
    case Some(res) =>
      match FirstSeries(res)
      case Err(_) => [ErrorLine]
      case Ok(ts) =>
        match CardsFor(ts.areas)
        case Err(_) => [ErrorLine]
        case Ok(cards) =>
          var r := [Headline(areaName + "の予報")] + cards;
          assert r[0] != ErrorLine;
          r
  }

  /** A sub-area whose first code is "314" gets the 314 icon with the 300
      icon as its fallback. */
  lemma CardIconScenario(name: string, text: string)
    ensures CardOf(AreaForecast(name, [text], ["314"])).icons ==
              IconUrls(IconUrlBase + "314.png", IconUrlBase + "300.png")
  {
    IconForThreeOneFour();
  }
}
