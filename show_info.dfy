/** The show-metadata decisions of `get_show_info` once the show page has been parsed:
    the name (JSON-LD `name`, else the sentinel, and a sentinel replaced by the page
    heading) and the season count read from the JSON-LD payload. */
module ShowInfo {
  import opened Wrappers
  import opened Json

  /** The sentinel name used when nothing better is found. */
  const UnknownShow: string := "Unknown Show"

  /** `name` is the Python value stored under "name": usually a string, but whatever the
      JSON-LD holds there. `numberOfSeasons` is `json_ld.get("numberOfSeasons")`, JNull
      standing for None. */
  datatype ShowInfo = ShowInfo(name: Json, numberOfSeasons: Json)

  /** A truthy payload is an object; on anything else `json_ld.get` raises. */
  predicate ShowPayloadOk(j: Json)
  {
    Truthy(j) ==> j.JObj?
  }

  /** The `name` entry of the payload, when the payload is truthy and has one. */
  function PayloadName(j: Json): Option<Json>
  {
    if Truthy(j) && j.JObj? && "name" in j.fields then Some(j.fields["name"]) else None
  }

  /** `get_show_info` on a parsed page. `heroTitle` is the text of
      `h1[data-testid="hero__pageTitle"] span` and `firstHeading` that of the first `h1`,
      each None when the selector matches nothing. */
  function GetShowInfo(jsonLd: Json, heroTitle: Option<string>, firstHeading: Option<string>): (info: ShowInfo)
    requires ShowPayloadOk(jsonLd)
    // a JSON-LD name other than the sentinel is kept, whatever the headings say
    ensures PayloadName(jsonLd).Some? && PayloadName(jsonLd).value != JStr(UnknownShow) ==>
      info.name == PayloadName(jsonLd).value
    // otherwise the hero title wins over the first heading, and the sentinel is the last resort
    ensures PayloadName(jsonLd).None? || PayloadName(jsonLd).value == JStr(UnknownShow) ==>
      info.name == JStr(if heroTitle.Some? then heroTitle.value
                        else if firstHeading.Some? then firstHeading.value
                        else UnknownShow)
    // the sentinel survives only when no heading was found, or the heading reads as the sentinel
    ensures info.name == JStr(UnknownShow) ==>
      (heroTitle.None? && firstHeading.None?) || heroTitle == Some(UnknownShow) ||
      (heroTitle.None? && firstHeading == Some(UnknownShow))
    ensures info.numberOfSeasons ==
      if Truthy(jsonLd) && "numberOfSeasons" in jsonLd.fields then jsonLd.fields["numberOfSeasons"] else JNull
  {
    var name := if Truthy(jsonLd) then Get(jsonLd.fields, "name", JStr(UnknownShow)) else JStr(UnknownShow);
    var seasons := if Truthy(jsonLd) then Get(jsonLd.fields, "numberOfSeasons", JNull) else JNull;
    var heading := if heroTitle.Some? then heroTitle else firstHeading;
    ShowInfo(if name == JStr(UnknownShow) && heading.Some? then JStr(heading.value) else name, seasons)
  }
}
