/** Beacon extraction and enrichment (`extractRequests`, src/components/Debugger/Timeline.ts:220-297):
    one captured HTTP exchange becomes an ordered list of field maps, one per tracking event. */
module Beacons {
  import opened Wrappers
  import opened Text
  import opened Json

  /** Library code the source calls without showing it, passed in as functions. */
  datatype Host = Host(
    /** util `hash` */
    hash: string -> string,
    /** `new Date(t).toJSON()` */
    dateJson: string -> string,
    /** `new URL(u).hostname` */
    hostname: string -> string,
    /** `new URL(u).searchParams`, in order */
    searchParams: string -> seq<(string, string)>,
    /** `JSON.parse`; `None` when it throws */
    parseJson: string -> Option<Json>,
    /** util `tryb64` */
    tryb64: string -> string,
    /** util `b64d`; `None` when it throws */
    b64d: string -> Option<string>,
    /** `protocol.paramMap.e.values`: event code to display label */
    eventLabels: map<string, string>)

  /** A header or a cookie. */
  datatype Header = Header(name: string, value: string)

  /** The request half of a captured exchange; `postText` is `None` when there is no body text. */
  datatype Request = Request(httpMethod: string, url: string, headers: seq<Header>, cookies: seq<Header>, postText: Option<string>)

  datatype Entry = Entry(pageref: string, startedDateTime: string, request: Request)

  /** The parameters of one event. */
  type Fields = map<string, string>

  /** What every event of one exchange shares: the id prefix, the collector host and the method. */
  datatype Group = Group(id: string, collector: string, httpMethod: string)

  /** `hs.find(h => p(h.name))?.value`: the value of the first element whose name satisfies `p`. */
  function FirstMatch(hs: seq<Header>, p: string -> bool): (r: Option<string>)
    ensures r.Some? <==> exists i :: 0 <= i < |hs| && p(hs[i].name)
    ensures r.Some? ==> exists i :: 0 <= i < |hs| && p(hs[i].name) && r.value == hs[i].value
                                 && forall j :: 0 <= j < i ==> !p(hs[j].name)
  {
    if hs == [] then None
    else if p(hs[0].name) then Some(hs[0].value)
    else
      var r := FirstMatch(hs[1..], p);
      assert forall i :: 1 <= i < |hs| ==> hs[1..][i - 1] == hs[i];
      assert r.Some? ==> exists i :: 1 <= i < |hs| && p(hs[i].name) && r.value == hs[i].value
                                  && forall j :: 0 <= j < i ==> !p(hs[j].name);
      r
  }

  predicate IsNuidCookie(name: string) { name == "sp" }
  predicate IsUserAgent(name: string) { Lower(name) == "user-agent" }
  predicate IsAcceptLanguage(name: string) { Lower(name) == "accept-language" }
  predicate IsReferer(name: string) { Lower(name) == "referer" }

  /** The request-level values that enrichment may add. */
  datatype RequestMeta = RequestMeta(nuid: Option<string>, ua: Option<string>, lang: Option<string>, referer: Option<string>)

  function MetaOf(r: Request): RequestMeta {
    RequestMeta(
      FirstMatch(r.cookies, IsNuidCookie),
      FirstMatch(r.headers, IsUserAgent),
      FirstMatch(r.headers, IsAcceptLanguage),
      FirstMatch(r.headers, IsReferer))
  }

  /** The length of the longest prefix of `v` without `;` or `,`. */
  function LangPrefixLength(v: string): (n: nat)
    ensures n <= |v|
    ensures forall i :: 0 <= i < n ==> v[i] != ';' && v[i] != ','
    ensures n < |v| ==> v[n] == ';' || v[n] == ','
  {
    if v == [] || v[0] == ';' || v[0] == ',' then 0 else 1 + LangPrefixLength(v[1..])
  }

  /** `/^[^;,]+/.exec(v)`, or `v` itself when that finds nothing. */
  function PrimaryLanguage(v: string): string {
    var n := LangPrefixLength(v);
    if n == 0 then v else v[..n]
  }

  /** The beacon has a value for each piece of request metadata that is present. */
  predicate CarriesMeta(b: Fields, meta: RequestMeta) {
    && (meta.nuid.Some? ==> "nuid" in b)
    && (meta.ua.Some? ==> "ua" in b)
    && (meta.lang.Some? ==> "lang" in b)
    && (meta.referer.Some? ==> "url" in b)
  }

  /** The enrichment steps: each of `nuid`, `ua`, `lang` and `url` is set only when the map
      lacks it and the request carries the value. `lang` is trimmed on GET (`trimLang`). */
  function Enriched(b: Fields, meta: RequestMeta, trimLang: bool): (r: Fields)
    ensures CarriesMeta(r, meta)
    ensures forall k :: k in b ==> k in r && r[k] == b[k]
    ensures forall k :: k in r <==> (k in b || (k == "nuid" && meta.nuid.Some?) || (k == "ua" && meta.ua.Some?)
                                    || (k == "lang" && meta.lang.Some?) || (k == "url" && meta.referer.Some?))
    ensures "nuid" !in b && meta.nuid.Some? ==> r["nuid"] == meta.nuid.value
    ensures "ua" !in b && meta.ua.Some? ==> r["ua"] == meta.ua.value
    ensures "lang" !in b && meta.lang.Some? ==>
      r["lang"] == if trimLang then PrimaryLanguage(meta.lang.value) else meta.lang.value
    ensures "url" !in b && meta.referer.Some? ==> r["url"] == meta.referer.value
  {
    var lang := if trimLang && meta.lang.Some? then Some(PrimaryLanguage(meta.lang.value)) else meta.lang;
    SetIfAbsent(SetIfAbsent(SetIfAbsent(SetIfAbsent(b, "nuid", meta.nuid), "ua", meta.ua), "lang", lang), "url", meta.referer)
  }

  /** `if (v && !b.has(k)) b.set(k, v)` for a value the request may lack. */
  function SetIfAbsent(b: Fields, k: string, v: Option<string>): (r: Fields)
    ensures forall x :: x in b ==> x in r && r[x] == b[x]
    ensures forall x :: x in r <==> x in b || (x == k && v.Some?)
    ensures k !in b && v.Some? ==> r[k] == v.value
  {
    if v.Some? && k !in b then b[k := v.value] else b
  }

  /** The map that `searchParams.forEach((v, k) => m.set(k, v))` builds: a later pair
      overwrites an earlier one with the same key. */
  function FromPairs(ps: seq<(string, string)>): Fields {
    if ps == [] then map[] else FromPairs(ps[..|ps| - 1])[ps[|ps| - 1].0 := ps[|ps| - 1].1]
  }

  lemma {:induction false} FromPairsKeys(ps: seq<(string, string)>, k: string)
    ensures k in FromPairs(ps) <==> exists i :: 0 <= i < |ps| && ps[i].0 == k
  {
    if ps != [] {
      var init := ps[..|ps| - 1];
      FromPairsKeys(init, k);
      assert forall i :: 0 <= i < |init| ==> init[i] == ps[i];
    }
  }

  /** The value of a key is the one of its last pair. */
  lemma {:induction false} FromPairsLastWins(ps: seq<(string, string)>, i: nat)
    requires i < |ps|
    requires forall j :: i < j < |ps| ==> ps[j].0 != ps[i].0
    ensures ps[i].0 in FromPairs(ps) && FromPairs(ps)[ps[i].0] == ps[i].1
  {
    if i < |ps| - 1 {
      var init := ps[..|ps| - 1];
      FromPairsLastWins(init, i);
    }
  }

  /** The position of the first `null`, or the length when there is none: the elements
      before it are the ones a loop over them processes before `Object.entries(null)` or
      `null.schema` throws. */
  function FirstNull(items: seq<Json>): (n: nat)
    ensures n <= |items|
    ensures forall i :: 0 <= i < n ==> !items[i].JNull?
    ensures n < |items| ==> items[n].JNull?
  {
    if items == [] || items[0].JNull? then 0 else 1 + FirstNull(items[1..])
  }

  /** The elements of `JSON.parse(body).data` that the POST loop iterates over, or `None` when
      the body is missing or empty, does not parse, or has no iterable `data`. */
  function PostItems(r: Request, host: Host): (items: Option<seq<Json>>)
    ensures r.postText.None? || r.postText == Some("") ==> items.None?
    ensures items.Some? ==> host.parseJson(r.postText.value).Some? && host.parseJson(r.postText.value).value.JObj?
    ensures r.postText.Some? && r.postText.value != "" && host.parseJson(r.postText.value).Some? ==>
      var payload := host.parseJson(r.postText.value).value;
      payload.JObj? && "data" in payload.members && payload.members["data"].JArr? ==>
        items == Some(payload.members["data"].items)
    ensures r.postText.Some? && host.parseJson(r.postText.value).Some? ==>
      var payload := host.parseJson(r.postText.value).value;
      payload.JObj? && ("data" !in payload.members || !(payload.members["data"].JArr? || payload.members["data"].JStr?)) ==>
        items.None?
  {
    match r.postText
    case None => None
    case Some(text) =>
      if text == "" then None
      else match host.parseJson(text)
        case None => None
        case Some(payload) => DataItems(payload)
  }

  /** One enriched map per element, up to the first element `Object.entries` rejects; the
      maps pushed before it are kept. */
  function PostBeacons(items: seq<Json>, meta: RequestMeta): seq<Fields> {
    BeaconsUpTo(items, meta, FirstNull(items))
  }

  /** The maps of the first `n` elements, none of them `null`. */
  function BeaconsUpTo(items: seq<Json>, meta: RequestMeta, n: nat): seq<Fields>
    requires n <= |items| && forall j :: 0 <= j < n ==> !items[j].JNull?
  {
    seq(n, i requires 0 <= i < n => Enriched(Entries(items[i]).value, meta, false))
  }

  lemma BeaconsUpToSnoc(items: seq<Json>, meta: RequestMeta, n: nat)
    requires n < |items| && forall j :: 0 <= j <= n ==> !items[j].JNull?
    ensures BeaconsUpTo(items, meta, n + 1) == BeaconsUpTo(items, meta, n) + [Enriched(Entries(items[n]).value, meta, false)]
  {
  }

  /** The beacons of one request: a GET carries one, a POST one per processed element;
      every one of them carries the cookie and headers the request has. */
  function ExtractedBeacons(r: Request, host: Host): (beacons: seq<Fields>)
    ensures r.httpMethod != "POST" ==> |beacons| == 1
    ensures r.httpMethod == "POST" && PostItems(r, host).None? ==> beacons == []
    ensures forall i :: 0 <= i < |beacons| ==> CarriesMeta(beacons[i], MetaOf(r))
  {
    var meta := MetaOf(r);
    if r.httpMethod == "POST" then
      match PostItems(r, host)
      case None => []
      case Some(items) => PostBeacons(items, meta)
    else
      [Enriched(FromPairs(host.searchParams(r.url)), meta, true)]
  }

  function GroupOf(e: Entry, index: nat, host: Host): Group {
    Group(e.pageref + host.hash(host.dateJson(e.startedDateTime) + e.request.url + NatToString(index)),
          host.hostname(e.request.url),
          e.request.httpMethod)
  }

  /** `extractRequests(entry, index)`. */
  method ExtractRequests(entry: Entry, index: nat, host: Host) returns (group: Group, beacons: seq<Fields>)
    ensures group == GroupOf(entry, index, host)
    ensures beacons == ExtractedBeacons(entry.request, host)
  {
    var req := entry.request;
    group := GroupOf(entry, index, host);
    beacons := [];
    var meta := MetaOf(req);
    if req.httpMethod == "POST" {
      var items := PostItems(req, host);
      if items.None? {
        return;
      }
      beacons := CollectPost(items.value, meta);
    } else {
      var beacon := CollectQuery(host.searchParams(req.url));
      beacons := [Enriched(beacon, meta, true)];
    }
  }

  /** The POST loop: each element's entries, enriched, until `Object.entries` throws. */
  method CollectPost(data: seq<Json>, meta: RequestMeta) returns (beacons: seq<Fields>)
    ensures beacons == PostBeacons(data, meta)
  {
    beacons := [];
    var i := 0;
    while i < |data|
      invariant i <= |data|
      invariant forall j :: 0 <= j < i ==> !data[j].JNull?
      invariant beacons == BeaconsUpTo(data, meta, i)
    {
      var fields := Entries(data[i]);
      if fields.None? {
        break;
      }
      BeaconsUpToSnoc(data, meta, i);
      beacons := beacons + [Enriched(fields.value, meta, false)];
      i := i + 1;
    }
    assert i == FirstNull(data);
  }

  /** The GET loop: `searchParams.forEach((v, k) => m.set(k, v))`. */
  method CollectQuery(params: seq<(string, string)>) returns (beacon: Fields)
    ensures beacon == FromPairs(params)
  {
    beacon := map[];
    for i := 0 to |params|
      invariant beacon == FromPairs(params[..i])
    {
      assert params[..i + 1][..i] == params[..i];
      beacon := beacon[params[i].0 := params[i].1];
    }
    assert params[..|params|] == params;
  }

  /** A non-POST exchange yields exactly one map; it holds every query parameter (the last
      value of a repeated one) unless enrichment could not have added that key. */
  lemma GetYieldsOneBeacon(r: Request, host: Host)
    requires r.httpMethod != "POST"
    ensures var b := ExtractedBeacons(r, host); var ps := host.searchParams(r.url);
      && |b| == 1
      && (forall i :: 0 <= i < |ps| ==> ps[i].0 in b[0])
      && (forall i :: 0 <= i < |ps| && (forall j :: i < j < |ps| ==> ps[j].0 != ps[i].0) ==> b[0][ps[i].0] == ps[i].1)
  {
    var ps := host.searchParams(r.url);
    forall i | 0 <= i < |ps| ensures ps[i].0 in FromPairs(ps) {
      FromPairsKeys(ps, ps[i].0);
    }
    forall i | 0 <= i < |ps| && (forall j :: i < j < |ps| ==> ps[j].0 != ps[i].0)
      ensures ps[i].0 in FromPairs(ps) && FromPairs(ps)[ps[i].0] == ps[i].1
    {
      FromPairsLastWins(ps, i);
    }
  }

  /** A POST exchange yields one map per element of `data`, in order, up to the first element
      that makes the loop throw; nothing at all when the body cannot be read. */
  lemma PostYieldsProcessedElements(r: Request, host: Host)
    requires r.httpMethod == "POST"
    ensures PostItems(r, host).None? ==> ExtractedBeacons(r, host) == []
    ensures PostItems(r, host).Some? ==>
      var items := PostItems(r, host).value; var b := ExtractedBeacons(r, host);
      && |b| <= |items|
      && (forall i :: 0 <= i < |b| ==> Entries(items[i]).Some? && b[i] == Enriched(Entries(items[i]).value, MetaOf(r), false))
      && (|b| < |items| ==> Entries(items[|b|]).None?)
  {
  }

  /** A POST body whose `data` is missing or cannot be iterated (`null`, an object, a number
      or a boolean) yields no beacons: `for ... of` throws before the first push. */
  lemma NonIterableDataYieldsNothing(r: Request, host: Host, payload: Json)
    requires r.httpMethod == "POST" && r.postText.Some? && host.parseJson(r.postText.value) == Some(payload)
    requires payload.JObj? && ("data" !in payload.members || !(payload.members["data"].JArr? || payload.members["data"].JStr?))
    ensures ExtractedBeacons(r, host) == []
  {
  }

  /** The GET language is the maximal prefix free of `;` and `,` (the whole value when that
      prefix is empty). */
  lemma PrimaryLanguageIsMaximalPrefix(v: string)
    ensures var p := PrimaryLanguage(v);
      && StartsWith(v, p)
      && (p != v ==> |p| > 0 && ';' !in p && ',' !in p && (v[|p|] == ';' || v[|p|] == ','))
  {
  }
}
