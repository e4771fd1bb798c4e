/** The parsed JSON documents the app receives from the weather service.
    A JSON object becomes a list of (key, value) entries with distinct keys,
    which keeps the insertion order Python's `dict.items()` iterates in. */
module Payload {
  import opened Results

  ghost predicate DistinctKeys<V>(entries: seq<(string, V)>) {
    forall i, j :: 0 <= i < j < |entries| ==> entries[i].0 != entries[j].0
  }

  type Object<V> = entries: seq<(string, V)> | DistinctKeys(entries) witness []

  ghost predicate HasKey<V>(obj: Object<V>, key: string) {
    exists i :: 0 <= i < |obj| && obj[i].0 == key
  }

  /** `obj.get(key)`: the value stored under `key`, if any. */
  function Lookup<V>(obj: seq<(string, V)>, key: string): (r: Option<V>)
    ensures r.None? <==> forall i :: 0 <= i < |obj| ==> obj[i].0 != key
    ensures r.Some? ==> exists i :: 0 <= i < |obj| && obj[i] == (key, r.value)
  {
    if |obj| == 0 then None
    else if obj[0].0 == key then Some(obj[0].1)
    else
      var r := Lookup(obj[1..], key);
      assert forall i :: 1 <= i < |obj| ==> obj[i] == obj[1..][i - 1];
      r
  }

  /** Position of `key` in an object that holds it. */
  function IndexOfKey<V>(obj: Object<V>, key: string): (k: nat)
    requires HasKey(obj, key)
    ensures k < |obj| && obj[k].0 == key
  {
    var i :| 0 <= i < |obj| && obj[i].0 == key;
    assert forall j :: 0 <= j < |obj| && obj[j].0 == key ==> j == i;
    i
  }

  // Area taxonomy (`area.json`): `centers` and `offices`.  A missing
  // top-level key reads as an empty object, as `res.get(..., {})` does.

  /** A center's entry; `name` may be absent. */
  datatype CenterInfo = CenterInfo(name: Option<string>)

  /** An office's entry; `name` and `parent` may be absent. */
  datatype OfficeInfo = OfficeInfo(name: Option<string>, parent: Option<string>)

  datatype Taxonomy = Taxonomy(centers: Object<CenterInfo>, offices: Object<OfficeInfo>)

  // Forecast document (`forecast/{code}.json`): a list of reports, each with
  // a list of time series; the keys below are assumed present.

  datatype AreaForecast = AreaForecast(areaName: string, weathers: seq<string>, weatherCodes: seq<string>)

  datatype TimeSeries = TimeSeries(timeDefines: seq<string>, areas: seq<AreaForecast>)

  datatype Report = Report(timeSeries: seq<TimeSeries>)

  /** `res[0]["timeSeries"][0]`, failing with an index error on an empty list. */
  function FirstSeries(res: seq<Report>): (r: Result<TimeSeries>)
    ensures r.Ok? <==> |res| > 0 && |res[0].timeSeries| > 0
    ensures r.Ok? ==> r.value == res[0].timeSeries[0]
  {
    if |res| == 0 || |res[0].timeSeries| == 0 then Err(IndexOutOfRange)
    else Ok(res[0].timeSeries[0])
  }
}
