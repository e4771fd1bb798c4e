/** Weather icon addresses derived from a weather code. */
module Icons {
  import opened Results
  import opened Text

  const IconUrlBase: string := "https://www.jma.go.jp/bosai/forecast/img/"

  /** `ICON_URL_BASE.format(code)`. */
  function IconUrl(code: string): string {
    IconUrlBase + code + ".png"
  }

  /** The specific icon code and the category fallback tried when the
      specific image is unavailable. */
  datatype IconCodes = IconCodes(main: string, backup: string)

  /** `str(code)[:3]` and `str_code[0] + "00"`; `str_code[0]` raises on an
      empty code. */
  function IconCodesFor(code: string): (r: Result<IconCodes>)
    ensures r.Err? <==> |code| == 0
    ensures r.Ok? ==> r.value.main <= code
    ensures r.Ok? ==> |r.value.main| == if |code| < 3 then |code| else 3
    ensures r.Ok? ==> |r.value.backup| == 3 && r.value.backup[0] == code[0]
    ensures r.Ok? ==> r.value.backup[1..] == "00"
  {
    var main := Prefix(code, 3);
    if |main| == 0 then Err(IndexOutOfRange)
    else Ok(IconCodes(main, [main[0]] + "00"))
  }

  /** The main and backup addresses of a code. */
  datatype IconUrls = IconUrls(main: string, backup: string)

  function IconUrlsFor(code: string): (r: Result<IconUrls>)
    ensures r.Err? <==> |code| == 0
    ensures r.Ok? ==> r.value.main == IconUrlBase + Prefix(code, 3) + ".png"
    ensures r.Ok? ==> r.value.backup == IconUrlBase + [code[0]] + "00.png"
  {
    match IconCodesFor(code)
    case Err(f) => Err(f)
    case Ok(c) => Ok(IconUrls(IconUrl(c.main), IconUrl(c.backup)))
  }

  /** Code "314" is looked up as 314.png and falls back to 300.png; a longer
      code keeps only its first three characters. */
  lemma IconForThreeOneFour()
    ensures IconUrlsFor("314") == Ok(IconUrls(IconUrlBase + "314.png", IconUrlBase + "300.png"))
    ensures IconUrlsFor("31415") == IconUrlsFor("314")
  {
    assert Prefix("314", 3) == "314";
    assert Prefix("31415", 3) == "314";
    assert ['3'] + "00" == "300";
    assert IconCodesFor("314") == Ok(IconCodes("314", "300"));
    assert IconCodesFor("31415") == Ok(IconCodes("314", "300"));
    assert IconUrl("314") == IconUrlBase + "314.png";
    assert IconUrl("300") == IconUrlBase + "300.png";
  }

  /** The fallback depends only on the first character of the code. */
  lemma BackupIsCategory(a: string, b: string)
    requires |a| > 0 && |b| > 0 && a[0] == b[0]
    ensures IconCodesFor(a).value.backup == IconCodesFor(b).value.backup
  {
  }
}
