/** The Iglu schema registry of src/validator.ts: a process-wide cache from schema URI to
    schema document, a status map from schema URI to the repository that resolved it
    (`null` while a resolution is pending, absent when none was attempted), and the set
    of repositories to ask. The module-level dictionaries become the fields of
    `SchemaRegistry`; each of its methods is proved against a function on
    `RegistryState`, and the lemmas about several calls are stated on those functions. */
module Validator {
  import opened Wrappers
  import opened Text
  import opened Json
  import opened Iglu

  const DefaultRepository := "http://iglucentral.com"

  const InvalidUriError := "Invalid Iglu URI identifying schema."

  const NotFoundErrors := [
    "Could not find or access schema definition in any configured repositories.",
    "Try adding your Iglu repository in the extension settings.",
    "Make sure you have whitelisted your IP and enabled CORS for the repository."
  ]

  /** The `location` of a validation result: `status[schema]` read as a JavaScript value,
      `Unset` standing for `undefined`. */
  datatype Location = Unset | Null | Url(url: string)

  /** What `validate` returns. */
  datatype ValidationResult = ValidationResult(valid: bool, errors: seq<string>, location: Location)

  /** What the external JSON-schema validator reports about a data value and a schema document. */
  datatype Report = Report(valid: bool, errors: seq<string>)

  /** `jsv.validate(data, schema)`; `None` stands for an `undefined` data value. */
  type Jsv = (Option<Json>, Json) -> Report

  /** URI to resolving repository; `None` is the `null` that marks a pending resolution. */
  type Status = map<string, Option<string>>

  datatype RegistryState = RegistryState(cache: map<string, Json>, status: Status, repositories: seq<string>)

  /** A call of `validate`: its result, the registry afterwards and the URLs it requests. */
  datatype ValidateOutcome = ValidateOutcome(result: ValidationResult, next: RegistryState, fetches: seq<string>)

  const InvalidUriResult := ValidationResult(false, [InvalidUriError], Null)

  const NotFoundResult := ValidationResult(false, NotFoundErrors, Null)

  function LocationOf(status: Status, key: string): Location {
    if key !in status then Unset
    else match status[key]
      case None => Null
      case Some(url) => Url(url)
  }

  function FetchUrls(repos: seq<string>, u: IgluUri): seq<string> {
    seq(|repos|, i requires 0 <= i < |repos| => FetchUrl(repos[i], u))
  }

  /** `validate(schema, data)`: reject a malformed URI; answer from the cache; otherwise
      mark an unseen URI pending and ask every repository for it. */
  function ValidateSpec(s: RegistryState, schema: string, data: Option<Json>, jsv: Jsv): (o: ValidateOutcome)
    ensures o.next.cache == s.cache && o.next.repositories == s.repositories
    ensures forall k :: k in s.status ==> k in o.next.status && o.next.status[k] == s.status[k]
    ensures forall k :: k in o.next.status && k !in s.status ==> k == schema && o.next.status[k].None?
    ensures o.fetches != [] ==> schema !in s.status && schema in o.next.status
    ensures ParseUri(schema).Some? && schema !in s.cache ==> o.result == NotFoundResult
  {
    match ParseUri(schema)
    case None => ValidateOutcome(InvalidUriResult, s, [])
    case Some(u) =>
      if schema in s.cache then
        var report := jsv(data, s.cache[schema]);
        ValidateOutcome(ValidationResult(report.valid, report.errors, LocationOf(s.status, schema)), s, [])
      else if schema !in s.status then
        ValidateOutcome(NotFoundResult, s.(status := s.status[schema := None]), FetchUrls(s.repositories, u))
      else
        ValidateOutcome(NotFoundResult, s, [])
  }

  /** `persistCache(key, value, url)` on the in-memory maps. */
  function PersistSpec(s: RegistryState, key: string, value: Json, url: string): (t: RegistryState)
    ensures t.cache.Keys == s.cache.Keys + {key} && t.status.Keys == s.status.Keys + {key}
    ensures t.cache[key] == value && t.status[key] == Some(url)
    ensures forall k :: k in s.cache && k != key ==> t.cache[k] == s.cache[k]
    ensures forall k :: k in s.status && k != key ==> t.status[k] == s.status[k]
    ensures t.repositories == s.repositories
  {
    s.(cache := s.cache[key := value], status := s.status[key := Some(url)])
  }

  /** The test of the fetch callback: the response has its own `self` whose vendor, name,
      format and version are exactly the strings requested. */
  predicate ResponseMatches(response: Json, u: IgluUri) {
    match Member(response, "self")
    case Value(self) =>
      && Member(self, "vendor") == Value(JStr(u.vendor))
      && Member(self, "name") == Value(JStr(u.name))
      && Member(self, "format") == Value(JStr(u.format))
      && Member(self, "version") == Value(JStr(u.version))
    case _ => false
  }

  /** A response for `schema` fetched from `url` arrives: a matching one is persisted under
      `schema` with `url` as its location, any other leaves the registry as it was. */
  function FetchResponseSpec(s: RegistryState, schema: string, url: string, response: Json): (t: RegistryState)
    requires ParseUri(schema).Some?
    ensures t.repositories == s.repositories
    ensures forall k :: k in s.cache && k != schema ==> k in t.cache && t.cache[k] == s.cache[k]
    ensures forall k :: k in s.status && k != schema ==> k in t.status && t.status[k] == s.status[k]
    ensures ResponseMatches(response, ParseUri(schema).value) ==>
      schema in t.cache && t.cache[schema] == response && schema in t.status && t.status[schema] == Some(url)
    ensures !ResponseMatches(response, ParseUri(schema).value) ==> t == s
  {
    if ResponseMatches(response, ParseUri(schema).value) then PersistSpec(s, schema, response, url) else s
  }

  function ClearedSpec(s: RegistryState): RegistryState {
    s.(cache := map[], status := map[])
  }

  /** An `Array.join` element: `undefined` and `null` become the empty string. */
  function JoinPart(a: Access): string
    requires !a.Throws?
  {
    match a
    case Undefined => ""
    case Value(JNull) => ""
    case _ => AccessString(a)
  }

  /** The elements of `[self.vendor, self.name, self.format, self.version]`, each as `join`
      renders it. */
  function SelfParts(self: Json): seq<string>
    requires !self.JNull?
  {
    [JoinPart(Member(self, "vendor")), JoinPart(Member(self, "name")),
     JoinPart(Member(self, "format")), JoinPart(Member(self, "version"))]
  }

  /** `'iglu:' + [self.vendor, self.name, self.format, self.version].join('/')` for a locally
      supplied schema, or `None` when reading `schema.self.vendor` throws (the entry is skipped). */
  function LocalSchemaKey(schema: Json): (r: Option<string>)
    ensures r.None? <==> !(schema.JObj? && "self" in schema.members && !schema.members["self"].JNull?)
    ensures r.Some? ==> StartsWith(r.value, Scheme)
  {
    match Member(schema, "self")
    case Value(self) =>
      if self.JNull? then None
      else Some(Scheme + Join(SelfParts(self), '/'))
    case _ => None
  }

  /** A local schema whose `self` lacks one of its four fields (or holds `null` or `""`
      there) gets a key that `SCHEMA_PATTERN` rejects, so validation never finds it. */
  lemma IncompleteSelfNeverValidated(schema: Json)
    requires LocalSchemaKey(schema).Some?
    requires "" in SelfParts(schema.members["self"])
    ensures ParseUri(LocalSchemaKey(schema).value).None?
  {
    var parts := SelfParts(schema.members["self"]);
    var k := LocalSchemaKey(schema).value;
    assert k[|Scheme|..] == Join(parts, '/');
    SplitJoinKeepsEmptyPart(parts, '/');
    forall u | WellFormed(u)
      ensures "" !in Split(Render(u)[|Scheme|..], '/')
    {
      assert Render(u)[|Scheme|..] == Join(Segments(u), '/');
      WellFormedSegmentsHaveNoSlash(u);
      SplitJoin(Segments(u), '/');
    }
  }

  /** Each element stored under its key, in order, on top of `m`; an element without a key is
      skipped and a later element overwrites an earlier one with the same key. */
  function StoreAll<T>(m: map<string, T>, xs: seq<T>, key: T -> Option<string>): (r: map<string, T>)
    ensures forall i :: 0 <= i < |xs| && key(xs[i]).Some? ==> key(xs[i]).value in r
    ensures forall k :: k in m ==> k in r
  {
    if xs == [] then m
    else
      var before := StoreAll(m, xs[..|xs| - 1], key);
      var last := xs[|xs| - 1];
      assert forall i :: 0 <= i < |xs| - 1 ==> xs[..|xs| - 1][i] == xs[i];
      match key(last)
      case None => before
      case Some(k) => before[k := last]
  }

  /** Nothing is added but the keys of the elements. */
  lemma {:induction false} StoreAllAddsOnlyKeys<T>(m: map<string, T>, xs: seq<T>, key: T -> Option<string>)
    ensures forall k :: k in StoreAll(m, xs, key) && k !in m ==> exists i :: 0 <= i < |xs| && key(xs[i]) == Some(k)
  {
    if xs != [] {
      var n := |xs| - 1;
      var prefix := xs[..n];
      StoreAllAddsOnlyKeys(m, prefix, key);
      forall k | k in StoreAll(m, xs, key) && k !in m
        ensures exists i :: 0 <= i < |xs| && key(xs[i]) == Some(k)
      {
        if key(xs[n]) == Some(k) {
          assert key(xs[n]) == Some(k);
        } else {
          assert k in StoreAll(m, prefix, key);
          var i :| 0 <= i < n && key(prefix[i]) == Some(k);
          assert prefix[i] == xs[i];
        }
      }
    }
  }

  /** Under the key of an element, the last element with that key. */
  lemma {:induction false} StoreAllKeepsLast<T>(m: map<string, T>, xs: seq<T>, key: T -> Option<string>, i: nat)
    requires i < |xs| && key(xs[i]).Some?
    requires forall j :: i < j < |xs| ==> key(xs[j]) != key(xs[i])
    ensures StoreAll(m, xs, key)[key(xs[i]).value] == xs[i]
  {
    var n := |xs| - 1;
    if i == n {
      StoreAllLast(m, xs, key);
    } else {
      var prefix := xs[..n];
      assert prefix[i] == xs[i];
      assert forall j :: i < j < n ==> prefix[j] == xs[j];
      StoreAllKeepsLast(m, prefix, key, i);
      var k := key(xs[i]).value;
      assert key(xs[n]) != Some(k);
      assert k in StoreAll(m, prefix, key) && StoreAll(m, prefix, key)[k] == xs[i];
      StoreAllStep(m, xs, key, k);
    }
  }

  lemma StoreAllLast<T>(m: map<string, T>, xs: seq<T>, key: T -> Option<string>)
    requires |xs| > 0 && key(xs[|xs| - 1]).Some?
    ensures StoreAll(m, xs, key)[key(xs[|xs| - 1]).value] == xs[|xs| - 1]
  {
  }

  lemma StoreAllStep<T>(m: map<string, T>, xs: seq<T>, key: T -> Option<string>, k: string)
    requires |xs| > 0 && key(xs[|xs| - 1]) != Some(k) && k in StoreAll(m, xs[..|xs| - 1], key)
    ensures StoreAll(m, xs, key)[k] == StoreAll(m, xs[..|xs| - 1], key)[k]
  {
  }

  /** Under a key no element has, what `m` held. */
  lemma {:induction false} StoreAllKeepsOthers<T>(m: map<string, T>, xs: seq<T>, key: T -> Option<string>, k: string)
    requires k in m
    requires forall i :: 0 <= i < |xs| ==> key(xs[i]) != Some(k)
    ensures StoreAll(m, xs, key)[k] == m[k]
  {
    if xs != [] {
      var n := |xs| - 1;
      var prefix := xs[..n];
      assert forall i :: 0 <= i < n ==> prefix[i] == xs[i];
      StoreAllKeepsOthers(m, prefix, key, k);
    }
  }

  /** The cache after the local schema list has been loaded into `cache`. */
  function SeedSpec(cache: map<string, Json>, schemas: seq<Json>): (r: map<string, Json>)
    ensures forall i :: 0 <= i < |schemas| && LocalSchemaKey(schemas[i]).Some? ==> LocalSchemaKey(schemas[i]).value in r
    ensures forall k :: k in r && k !in cache ==> exists i :: 0 <= i < |schemas| && LocalSchemaKey(schemas[i]) == Some(k)
    ensures forall k :: k in cache ==> k in r
  {
    StoreAllAddsOnlyKeys(cache, schemas, LocalSchemaKey);
    StoreAll(cache, schemas, LocalSchemaKey)
  }

  /** Seeding stores, under the key of a local schema, the last schema in the list with that key. */
  lemma SeedKeepsLastSchema(cache: map<string, Json>, schemas: seq<Json>, i: nat)
    requires i < |schemas| && LocalSchemaKey(schemas[i]).Some?
    requires forall j :: i < j < |schemas| ==> LocalSchemaKey(schemas[j]) != LocalSchemaKey(schemas[i])
    ensures SeedSpec(cache, schemas)[LocalSchemaKey(schemas[i]).value] == schemas[i]
  {
    StoreAllKeepsLast(cache, schemas, LocalSchemaKey, i);
  }

  /** Seeding leaves an entry alone unless some local schema has its key. */
  lemma SeedKeepsOtherEntries(cache: map<string, Json>, schemas: seq<Json>, k: string)
    requires k in cache
    requires forall i :: 0 <= i < |schemas| ==> LocalSchemaKey(schemas[i]) != Some(k)
    ensures SeedSpec(cache, schemas)[k] == cache[k]
  {
    StoreAllKeepsOthers(cache, schemas, LocalSchemaKey, k);
  }

  /** The statuses read back from storage: pending (`null`) entries are dropped. */
  function RestoredStatus(stored: Status): (r: Status)
    ensures forall k :: k in r <==> k in stored && stored[k].Some?
    ensures forall k :: k in r ==> r[k] == stored[k]
  {
    map k | k in stored && stored[k].Some? :: stored[k]
  }

  /** The entries of `m` whose keys are in `keys`. */
  function Restrict<V>(m: map<string, V>, keys: set<string>): map<string, V> {
    map k | k in keys && k in m :: m[k]
  }

  lemma RestrictGrow<V>(base: map<string, V>, m: map<string, V>, keys: set<string>, key: string)
    requires key in m
    ensures (base + Restrict(m, keys))[key := m[key]] == base + Restrict(m, keys + {key})
  {
  }

  lemma RestrictSkip<V>(m: map<string, V>, keys: set<string>, key: string)
    requires key !in m
    ensures Restrict(m, keys + {key}) == Restrict(m, keys)
  {
  }

  /** A malformed URI is rejected with one fixed error and changes nothing. */
  lemma MalformedUriRejected(s: RegistryState, schema: string, data: Option<Json>, jsv: Jsv)
    requires ParseUri(schema).None?
    ensures ValidateSpec(s, schema, data, jsv) == ValidateOutcome(InvalidUriResult, s, [])
  {
  }

  /** A cached URI is answered by the external validator, located at its recorded status,
      with no change and no request. */
  lemma CachedUriAnswered(s: RegistryState, schema: string, data: Option<Json>, jsv: Jsv)
    requires ParseUri(schema).Some? && schema in s.cache
    ensures var o := ValidateSpec(s, schema, data, jsv);
      && o.next == s && o.fetches == []
      && o.result.valid == jsv(data, s.cache[schema]).valid
      && o.result.errors == jsv(data, s.cache[schema]).errors
      && o.result.location == LocationOf(s.status, schema)
  {
  }

  /** A first miss marks the URI pending and requests it from every repository, in order. */
  lemma FirstMissRequestsEveryRepository(s: RegistryState, schema: string, data: Option<Json>, jsv: Jsv)
    requires ParseUri(schema).Some? && schema !in s.cache && schema !in s.status
    ensures var o := ValidateSpec(s, schema, data, jsv); var u := ParseUri(schema).value;
      && o.next.status == s.status[schema := None]
      && |o.fetches| == |s.repositories|
      && forall i :: 0 <= i < |s.repositories| ==>
           o.fetches[i] == s.repositories[i] + "/schemas/" + schema[|Scheme|..]
  {
    var u := ParseUri(schema).value;
    forall i | 0 <= i < |s.repositories| {
      FetchUrlShape(s.repositories[i], u);
    }
  }

  /** Pending is idempotent: validating a missed URI again, with any data, issues no request
      and changes nothing. */
  lemma PendingIsIdempotent(s: RegistryState, schema: string, d1: Option<Json>, d2: Option<Json>, jsv: Jsv)
    requires ParseUri(schema).Some? && schema !in s.cache
    ensures var o1 := ValidateSpec(s, schema, d1, jsv);
      ValidateSpec(o1.next, schema, d2, jsv) == ValidateOutcome(NotFoundResult, o1.next, [])
  {
  }

  /** After a matching response was persisted, validation answers from the cache and
      reports the URL the document came from. */
  lemma AcceptedResponseResolves(s: RegistryState, schema: string, url: string, response: Json, data: Option<Json>, jsv: Jsv)
    requires ParseUri(schema).Some? && ResponseMatches(response, ParseUri(schema).value)
    ensures var t := FetchResponseSpec(s, schema, url, response);
      ValidateSpec(t, schema, data, jsv) ==
        ValidateOutcome(ValidationResult(jsv(data, response).valid, jsv(data, response).errors, Url(url)), t, [])
  {
  }

  /** A response whose `self` does not match is discarded. */
  lemma MismatchedResponseIgnored(s: RegistryState, schema: string, url: string, response: Json)
    requires ParseUri(schema).Some? && !ResponseMatches(response, ParseUri(schema).value)
    ensures FetchResponseSpec(s, schema, url, response) == s
  {
  }

  /** An accepted response is stored under the very key that seeding it as a local schema
      would compute. */
  lemma AcceptedResponseKeyedLikeLocalSchema(schema: string, response: Json)
    requires ParseUri(schema).Some? && ResponseMatches(response, ParseUri(schema).value)
    ensures LocalSchemaKey(response) == Some(schema)
  {
    var u := ParseUri(schema).value;
    var self := Member(response, "self").v;
    assert JoinPart(Member(self, "vendor")) == u.vendor;
    assert JoinPart(Member(self, "name")) == u.name;
    assert JoinPart(Member(self, "format")) == u.format;
    assert JoinPart(Member(self, "version")) == u.version;
  }

  /** After the cache is cleared, a formerly cached or pending URI is a first miss again. */
  lemma ClearedValidateIsFirstMiss(s: RegistryState, schema: string, data: Option<Json>, jsv: Jsv)
    requires ParseUri(schema).Some?
    ensures var o := ValidateSpec(ClearedSpec(s), schema, data, jsv);
      && o.result == NotFoundResult
      && o.next.status == map[schema := None] && o.next.cache == map[]
      && o.fetches == FetchUrls(s.repositories, ParseUri(schema).value)
  {
  }

  /** A URI that was only pending when the registry was persisted is unseen after a restart,
      so its first validation requests it again. */
  lemma PendingNotResumedAfterRestart(stored: Status, storedCache: map<string, Json>, schema: string, data: Option<Json>, jsv: Jsv)
    requires schema in stored && stored[schema].None? && schema !in storedCache
    requires ParseUri(schema).Some?
    ensures var s := RegistryState(storedCache, RestoredStatus(stored), [DefaultRepository]);
      ValidateSpec(s, schema, data, jsv).fetches == [FetchUrl(DefaultRepository, ParseUri(schema).value)]
  {
  }

  /** The registry: the module-level `cache`, `status` and `repositories` of the source, and
      the two keys of browser storage it writes through to. */
  class SchemaRegistry {
    var cache: map<string, Json>
    var status: Status
    var repositories: seq<string>
    /** Storage key `schemacache`. */
    var storedCache: map<string, Json>
    /** Storage key `schemastatus`. */
    var storedStatus: Status

    /** The repository set always contains the default repository and, being a set, no
        repository twice. */
    ghost predicate Valid()
      reads this
    {
      DefaultRepository in repositories && NoDuplicates(repositories)
    }

    function State(): RegistryState
      reads this
    {
      RegistryState(cache, status, repositories)
    }

    /** Module start-up, given what storage holds from an earlier session: empty maps, and the
        synchronous part of `syncRepos()` (lines 14-15). */
    constructor (savedCache: map<string, Json>, savedStatus: Status)
      ensures Valid()
      ensures cache == map[] && status == map[] && repositories == [DefaultRepository]
      ensures storedCache == savedCache && storedStatus == savedStatus
    {
      cache := map[];
      status := map[];
      repositories := [DefaultRepository];
      storedCache := savedCache;
      storedStatus := savedStatus;
    }

    /** The synchronous part of `syncRepos`: the repository set becomes the default alone. */
    method SyncRepos()
      modifies this
      ensures Valid()
      ensures repositories == [DefaultRepository]
      ensures cache == old(cache) && status == old(status)
      ensures storedCache == old(storedCache) && storedStatus == old(storedStatus)
    {
      repositories := [];
      repositories := repositories + [DefaultRepository];
    }

    /** The `repolist` callback of `syncRepos`: every configured repository is added to the set. */
    method OnRepoListLoaded(repolist: seq<string>)
      requires Valid()
      modifies this
      ensures Valid()
      ensures repositories == AppendNew(old(repositories), repolist)
      ensures cache == old(cache) && status == old(status)
      ensures storedCache == old(storedCache) && storedStatus == old(storedStatus)
    {
      for i := 0 to |repolist|
        invariant Valid()
        invariant repositories == AppendNew(old(repositories), repolist[..i])
        invariant cache == old(cache) && status == old(status)
        invariant storedCache == old(storedCache) && storedStatus == old(storedStatus)
      {
        assert repolist[..i + 1][..i] == repolist[..i];
        if repolist[i] !in repositories {
          repositories := repositories + [repolist[i]];
        }
      }
      assert repolist[..|repolist|] == repolist;
    }

    /** The `schemalist` callback of `syncRepos`: each local schema with a readable `self`
        is cached under its key; the others are skipped. */
    method OnSchemaListLoaded(schemalist: seq<Json>)
      requires Valid()
      modifies this
      ensures Valid()
      ensures cache == SeedSpec(old(cache), schemalist)
      ensures status == old(status) && repositories == old(repositories)
      ensures storedCache == old(storedCache) && storedStatus == old(storedStatus)
    {
      for i := 0 to |schemalist|
        invariant cache == SeedSpec(old(cache), schemalist[..i])
        invariant status == old(status) && repositories == old(repositories)
        invariant storedCache == old(storedCache) && storedStatus == old(storedStatus)
      {
        assert schemalist[..i + 1][..i] == schemalist[..i];
        var key := LocalSchemaKey(schemalist[i]);
        if key.None? {
          continue;
        }
        cache := cache[key.value := schemalist[i]];
      }
      assert schemalist[..|schemalist|] == schemalist;
    }

    /** `persistCache`: store the document and its source, and write both maps through. */
    method PersistCache(key: string, value: Json, url: string)
      requires Valid()
      modifies this
      ensures Valid()
      ensures State() == PersistSpec(old(State()), key, value, url)
      ensures storedCache == cache && storedStatus == status
    {
      cache := cache[key := value];
      status := status[key := Some(url)];
      storedCache, storedStatus := cache, status;
    }

    /** `clearCache`: delete every entry of both maps, and write them through. */
    method ClearCache()
      requires Valid()
      modifies this
      ensures Valid()
      ensures State() == ClearedSpec(old(State()))
      ensures storedCache == map[] && storedStatus == map[]
    {
      while cache != map[]
        invariant repositories == old(repositories) && status == old(status)
        decreases |cache|
      {
        var p :| p in cache;
        cache := cache - {p};
      }
      while status != map[]
        invariant repositories == old(repositories) && cache == map[]
        decreases |status|
      {
        var p :| p in status;
        status := status - {p};
      }
      storedCache, storedStatus := cache, status;
    }

    /** The start-up read of storage (lines 59-70): every stored document is copied, and every
        stored status except the pending (`null`) ones. */
    method OnStorageLoaded()
      requires Valid()
      modifies this
      ensures Valid()
      ensures cache == old(cache) + storedCache
      ensures status == old(status) + RestoredStatus(storedStatus)
      ensures repositories == old(repositories)
      ensures storedCache == old(storedCache) && storedStatus == old(storedStatus)
    {
      LoadCache();
      LoadStatus();
    }

    /** The stored documents, copied key by key into `cache`. */
    method LoadCache()
      requires Valid()
      modifies this
      ensures Valid()
      ensures cache == old(cache) + storedCache
      ensures status == old(status) && repositories == old(repositories)
      ensures storedCache == old(storedCache) && storedStatus == old(storedStatus)
    {
      var keys := storedCache.Keys;
      while keys != {}
        invariant keys <= storedCache.Keys
        invariant cache == old(cache) + Restrict(storedCache, storedCache.Keys - keys)
        invariant status == old(status) && repositories == old(repositories)
        invariant storedCache == old(storedCache) && storedStatus == old(storedStatus)
        decreases keys
      {
        var key :| key in keys;
        RestrictGrow(old(cache), storedCache, storedCache.Keys - keys, key);
        cache := cache[key := storedCache[key]];
        assert storedCache.Keys - (keys - {key}) == (storedCache.Keys - keys) + {key};
        keys := keys - {key};
      }
      assert Restrict(storedCache, storedCache.Keys) == storedCache;
    }

    /** The stored statuses other than pending (`null`) ones, copied key by key into `status`. */
    method LoadStatus()
      requires Valid()
      modifies this
      ensures Valid()
      ensures status == old(status) + RestoredStatus(storedStatus)
      ensures cache == old(cache) && repositories == old(repositories)
      ensures storedCache == old(storedCache) && storedStatus == old(storedStatus)
    {
      var stored := RestoredStatus(storedStatus);
      var keys := storedStatus.Keys;
      while keys != {}
        invariant keys <= storedStatus.Keys
        invariant status == old(status) + Restrict(stored, storedStatus.Keys - keys)
        invariant cache == old(cache) && repositories == old(repositories)
        invariant storedCache == old(storedCache) && storedStatus == old(storedStatus)
        decreases keys
      {
        var key :| key in keys;
        if storedStatus[key] != None {
          RestrictGrow(old(status), stored, storedStatus.Keys - keys, key);
          status := status[key := storedStatus[key]];
        } else {
          RestrictSkip(stored, storedStatus.Keys - keys, key);
        }
        assert storedStatus.Keys - (keys - {key}) == (storedStatus.Keys - keys) + {key};
        keys := keys - {key};
      }
      assert Restrict(stored, storedStatus.Keys) == stored;
    }

    /** The storage change listener: a change of the repository list or of the local schemas
        clears the cache and re-runs `syncRepos`. */
    method OnStorageChanged(changed: set<string>)
      requires Valid()
      modifies this
      ensures Valid()
      ensures "repolist" in changed || "schemalist" in changed ==>
        && State() == RegistryState(map[], map[], [DefaultRepository])
        && storedCache == map[] && storedStatus == map[]
      ensures !("repolist" in changed || "schemalist" in changed) ==>
        && State() == old(State())
        && storedCache == old(storedCache) && storedStatus == old(storedStatus)
    {
      if "repolist" in changed || "schemalist" in changed {
        ClearCache();
        SyncRepos();
      }
    }

    /** `validate(schema, data)`, returning the URLs it requests instead of requesting them. */
    method Validate(schema: string, data: Option<Json>, jsv: Jsv) returns (r: ValidationResult, fetches: seq<string>)
      requires Valid()
      modifies this
      ensures Valid()
      ensures var o := ValidateSpec(old(State()), schema, data, jsv);
        r == o.result && State() == o.next && fetches == o.fetches
      ensures storedCache == old(storedCache) && storedStatus == old(storedStatus)
    {
      var m := ParseUri(schema);
      if m.None? {
        return InvalidUriResult, [];
      }
      if schema in cache {
        var report := jsv(data, cache[schema]);
        return ValidationResult(report.valid, report.errors, LocationOf(status, schema)), [];
      }
      var u := m.value;
      fetches := [];
      if schema !in status {
        status := status[schema := None];
        var repos := repositories;
        for i := 0 to |repos|
          invariant fetches == FetchUrls(repos[..i], u)
        {
          var url := FetchUrl(repos[i], u);
          fetches := fetches + [url];
        }
        assert repos[..|repos|] == repos;
      }
      r := NotFoundResult;
    }

    /** The callback of one repository's request for `schema` at `url` (lines 104-113). */
    method OnFetchResponse(schema: string, url: string, response: Json)
      requires Valid()
      requires ParseUri(schema).Some?
      modifies this
      ensures Valid()
      ensures State() == FetchResponseSpec(old(State()), schema, url, response)
      ensures ResponseMatches(response, ParseUri(schema).value) ==> storedCache == cache && storedStatus == status
      ensures !ResponseMatches(response, ParseUri(schema).value) ==>
        storedCache == old(storedCache) && storedStatus == old(storedStatus)
    {
      var u := ParseUri(schema).value;
      if ResponseMatches(response, u) {
        PersistCache(schema, response, url);
      }
    }
  }
}
