/** Event naming (`nameEvent`, src/components/Debugger/Timeline.ts:54-94): a display name from
    the event code `e`, or `None` when the source throws while computing it. */
module Naming {
  import opened Wrappers
  import opened Text
  import opened Json
  import opened Iglu
  import opened Beacons

  /** `params.get(k)` read through `||`: both a missing key and the empty string are falsy. */
  function GetTruthy(params: Fields, k: string): Option<string> {
    if k in params && params[k] != "" then Some(params[k]) else None
  }

  /** `params.get("e") || "Unknown Event"` */
  function EventCode(params: Fields): string {
    GetTruthy(params, "e").GetOr("Unknown Event")
  }

  /** `params.get("ue_pr") || params.get("ue_px") || ""` */
  function UePayload(params: Fields): string {
    match GetTruthy(params, "ue_pr")
    case Some(p) => p
    case None => GetTruthy(params, "ue_px").GetOr("")
  }

  /** `eventTypes[code]` where a missing label reads as `undefined`. */
  function Label(host: Host, code: string): string {
    if code in host.eventLabels then host.eventLabels[code] else "undefined"
  }

  /** The codes whose name is their table label. */
  predicate IsLabelledCode(code: string) {
    code == "pp" || code == "pv" || code == "ti" || code == "tr"
  }

  /** `JSON.parse(tryb64(payload))`, falling back to `JSON.parse(payload)` when that throws;
      `None` when the fallback throws too. */
  function DecodeForName(payload: string, host: Host): Option<Json> {
    match host.parseJson(host.tryb64(payload))
    case Some(v) => Some(v)
    case None => host.parseJson(payload)
  }

  /** `sdeName.split("/")[1]`, `undefined` when there is no second segment. */
  function SecondSegment(s: string): string {
    var parts := Split(s, '/');
    if |parts| >= 2 then parts[1] else "undefined"
  }

  /** The `finally` block: the part of the name after `"SD Event: "`, or `None` when reading
      `sde.data.schema` or calling `startsWith` on it throws. */
  function SdeName(sde: Json): Option<string> {
    if !IsSelfDescribing(sde) then Some("Unstructured")
    else
      match Member(sde.members["data"], "schema")
      case Throws => None
      case Undefined => Some("Unstructured")
      case Value(v) =>
        if !Truthy(v) then Some("Unstructured")
        else if !v.JStr? then None
        else if StartsWith(v.s, Scheme) then Some(SecondSegment(v.s))
        else Some(v.s)
  }

  /** The label shown for a beacon, or `None` when naming a self-describing event throws. */
  function NameEvent(params: Fields, host: Host): (r: Option<string>)
    ensures r.None? ==> EventCode(params) == "ue"
    ensures EventCode(params) == "ue" && r.Some? ==> StartsWith(r.value, "SD Event: ")
  {
    var code := EventCode(params);
    if code == "se" then
      Some(Label(host, "se") + ": " + (if "se_ca" in params then params["se_ca"] else "undefined"))
    else if code == "ue" then
      match DecodeForName(UePayload(params), host)
      case None => None
      case Some(sde) =>
        match SdeName(sde)
        case None => None
        case Some(n) => Some("SD Event: " + n)
    else if IsLabelledCode(code) then Some(Label(host, code))
    else Some(code)
  }

  /** The names of every code but `ue`: structured events add their category, the four table
      codes are their label, anything else is the code itself, and no code is "Unknown Event". */
  lemma NameOfCodes(params: Fields, host: Host)
    ensures GetTruthy(params, "e").None? ==> NameEvent(params, host) == Some("Unknown Event")
    ensures EventCode(params) == "se" && "se_ca" in params ==>
      NameEvent(params, host) == Some(Label(host, "se") + ": " + params["se_ca"])
    ensures IsLabelledCode(EventCode(params)) ==> NameEvent(params, host) == Some(Label(host, EventCode(params)))
    ensures var code := EventCode(params); code != "se" && code != "ue" && !IsLabelledCode(code) ==>
      NameEvent(params, host) == Some(code)
  {
  }

  /** Naming fails only for a self-describing event whose payload cannot be decoded either
      way, or whose `data.schema` cannot be read as a string. */
  lemma NameFailsOnlyForUe(params: Fields, host: Host)
    ensures NameEvent(params, host).None? <==>
      && EventCode(params) == "ue"
      && (DecodeForName(UePayload(params), host).None? || SdeName(DecodeForName(UePayload(params), host).value).None?)
  {
  }

  /** A self-describing event whose inner schema starts with `iglu:` is named after the
      schema's second `/`-separated part, whether or not the rest is a valid Iglu URI, and
      "undefined" when there is no such part. */
  lemma NameOfIgluPrefixedEvent(params: Fields, host: Host, sde: Json, s: string)
    requires EventCode(params) == "ue"
    requires DecodeForName(UePayload(params), host) == Some(sde)
    requires IsSelfDescribing(sde)
    requires Member(sde.members["data"], "schema") == Value(JStr(s))
    requires StartsWith(s, Scheme)
    ensures NameEvent(params, host) == Some("SD Event: " + SecondSegment(s))
    ensures '/' !in s ==> NameEvent(params, host) == Some("SD Event: undefined")
  {
    assert s != "";
    if '/' !in s {
      SplitNoSeparator(s, '/');
      assert SecondSegment(s) == "undefined";
      assert "SD Event: " + "undefined" == "SD Event: undefined";
    }
  }

  /** A self-describing event whose inner schema is a well-formed Iglu URI is named after the
      schema's name segment. */
  lemma NameOfIgluEvent(params: Fields, host: Host, sde: Json, u: IgluUri)
    requires EventCode(params) == "ue"
    requires DecodeForName(UePayload(params), host) == Some(sde)
    requires IsSelfDescribing(sde)
    requires Member(sde.members["data"], "schema") == Value(JStr(Render(u)))
    requires WellFormed(u)
    ensures NameEvent(params, host) == Some("SD Event: " + u.name)
  {
    RenderSecondSegment(u);
    assert StartsWith(Render(u), Scheme);
    NameOfIgluPrefixedEvent(params, host, sde, Render(u));
  }

  /** Otherwise a self-describing event is named by its inner schema verbatim, or
      "Unstructured" when that is missing or falsy or the payload is not self-describing. */
  lemma NameOfOtherUeEvent(params: Fields, host: Host, sde: Json)
    requires EventCode(params) == "ue"
    requires DecodeForName(UePayload(params), host) == Some(sde)
    ensures !IsSelfDescribing(sde) ==> NameEvent(params, host) == Some("SD Event: Unstructured")
    ensures IsSelfDescribing(sde) && Member(sde.members["data"], "schema").Undefined? ==>
      NameEvent(params, host) == Some("SD Event: Unstructured")
    ensures IsSelfDescribing(sde) && Member(sde.members["data"], "schema").Value? ==>
      var v := Member(sde.members["data"], "schema").v;
      && (!Truthy(v) ==> NameEvent(params, host) == Some("SD Event: Unstructured"))
      && (v.JStr? && v.s != "" && !StartsWith(v.s, Scheme) ==> NameEvent(params, host) == Some("SD Event: " + v.s))
  {
    assert "SD Event: " + "Unstructured" == "SD Event: Unstructured";
  }
}
