/**
 * The offline cache of the service worker (sw.js), over the Cache Storage of the W3C
 * Service Workers specification: an ordered table from cache name to a map from request
 * URL to stored response.
 *
 * - install opens the cache "wr-treino-v1" and adds the fixed seven-asset manifest with
 *   `cache.addAll`, which fetches every asset and stores all of them or none;
 * - activate deletes every cache whose name is not "wr-treino-v1";
 * - fetch answers from the caches when any holds the request, and otherwise forwards the
 *   request to the network and returns its result without storing it.
 *
 * The network is an oracle `Request -> Fetched` passed in by the caller.
 */
module OfflineCache {
  import opened Wrappers

  const CacheName: string := "wr-treino-v1"

  const AssetsToCache: seq<Request> := [
    "./",
    "./index.html",
    "./style.css",
    "./script.js",
    "./manifest.json",
    "./assets/logo-wr-consultoria_app.png",
    "./assets/pagina_de_login_academia_mb.png"
  ]

  /** A request, identified by its URL. */
  type Request = string

  datatype Response = Response(status: int, body: string)

  /** What the network gives for a request: a response, or a network error (a rejected `fetch`). */
  datatype Fetched = Delivered(response: Response) | NetworkError

  type Network = Request -> Fetched

  /** One cache: at most one stored response per request. */
  type Cache = map<Request, Response>

  /** `addAll` stores a response only when its status is ok (200 to 299) and not 206 (partial). */
  predicate Storable(f: Fetched)
    ensures Storable(f) ==> f.Delivered? && 200 <= f.response.status <= 299 && f.response.status != 206
  {
    f.Delivered? && 200 <= f.response.status <= 299 && f.response.status != 206
  }

  predicate Distinct<T(==)>(s: seq<T>) {
    forall i, j :: 0 <= i < j < |s| ==> s[i] != s[j]
  }

  /** `addAll` succeeds when the requests are distinct and every one fetches a storable response. */
  predicate AllStorable(requests: seq<Request>, network: Network)
    ensures AllStorable(requests, network) ==> forall q :: q in requests ==> network(q).Delivered?
  {
    Distinct(requests) && forall i :: 0 <= i < |requests| ==> Storable(network(requests[i]))
  }

  /** The entries `addAll` writes. */
  function Batch(requests: seq<Request>, network: Network): (batch: Cache)
    requires AllStorable(requests, network)
    ensures batch.Keys == set i | 0 <= i < |requests| :: requests[i]
    ensures forall q :: q in batch ==> batch[q] == network(q).response
  {
    map q | q in requests :: network(q).response
  }

  // ---------------------------------------------------------------------------
  // Cache Storage as values
  // ---------------------------------------------------------------------------

  /** `caches.match(request)`: the first cache, in creation order, that holds the request. */
  function MatchAll(names: seq<string>, tables: map<string, Cache>, request: Request): (r: Option<Response>)
    ensures r.None? <==> forall i :: 0 <= i < |names| ==> names[i] !in tables || request !in tables[names[i]]
    ensures r.Some? ==> exists i :: 0 <= i < |names| && names[i] in tables && request in tables[names[i]] &&
                                    tables[names[i]][request] == r.value &&
                                    forall k :: 0 <= k < i ==> names[k] !in tables || request !in tables[names[k]]
  {
    if names == [] then None
    else if names[0] in tables && request in tables[names[0]] then Some(tables[names[0]][request])
    else MatchAll(names[1..], tables, request)
  }

  /** The fetch handler's answer: the cached response if any, else what the network gave. */
  function Respond(cached: Option<Response>, fromNetwork: Fetched): (r: Fetched)
    ensures cached.Some? ==> r == Delivered(cached.value)
    ensures r.NetworkError? ==> cached.None? && fromNetwork.NetworkError?
  {
    if cached.Some? then Delivered(cached.value) else fromNetwork
  }

  /** A hit is answered from the cache, whatever the network would have said. */
  lemma RespondHit(cached: Response, n1: Fetched, n2: Fetched)
    ensures Respond(Some(cached), n1) == Respond(Some(cached), n2) == Delivered(cached)
  {
  }

  /** A miss is answered by the network's result, unchanged, including a network error. */
  lemma RespondMiss(fromNetwork: Fetched)
    ensures Respond(None, fromNetwork) == fromNetwork
  {
  }

  /** The cache names after `caches.delete(name)`. */
  function Without(names: seq<string>, name: string): (r: seq<string>)
    ensures name !in r
    ensures forall n :: n in r <==> n in names && n != name
  {
    if names == [] then []
    else if names[0] == name then Without(names[1..], name)
    else [names[0]] + Without(names[1..], name)
  }

  /** The cache names activate keeps: those equal to the current one. */
  function Kept(names: seq<string>): (r: seq<string>)
    ensures forall n :: n in r <==> n in names && n == CacheName
  {
    if names == [] then []
    else if names[0] == CacheName then [names[0]] + Kept(names[1..])
    else Kept(names[1..])
  }

  /** The caches activate keeps. */
  function Retained(tables: map<string, Cache>): (r: map<string, Cache>)
    ensures r.Keys <= {CacheName}
    ensures CacheName in tables ==> CacheName in r && r[CacheName] == tables[CacheName]
  {
    map n | n in tables && n == CacheName :: tables[n]
  }

  /** The cache names after `caches.open(name)`: a new name is appended. */
  function OpenedNames(names: seq<string>, name: string): (r: seq<string>)
    ensures name in r && |names| <= |r| && r[..|names|] == names
    ensures forall n :: n in r <==> n in names || n == name
  {
    if name in names then names else names + [name]
  }

  /** The caches after `caches.open(name)`: a new cache starts empty. */
  function OpenedTables(tables: map<string, Cache>, name: string): (r: map<string, Cache>)
    ensures r.Keys == tables.Keys + {name}
    ensures forall n :: n in tables ==> r[n] == tables[n]
  {
    if name in tables then tables else tables[name := map[]]
  }

  /** The caches after a successful install. */
  function InstalledTables(tables: map<string, Cache>, network: Network): (r: map<string, Cache>)
    requires AllStorable(AssetsToCache, network)
    ensures r.Keys == tables.Keys + {CacheName}
    ensures forall n :: n in tables && n != CacheName ==> r[n] == tables[n]
    ensures forall q :: q in AssetsToCache ==> q in r[CacheName] && r[CacheName][q] == network(q).response
  {
    var withCache := OpenedTables(tables, CacheName);
    withCache[CacheName := withCache[CacheName] + Batch(AssetsToCache, network)]
  }

  lemma ManifestDistinct()
    ensures |AssetsToCache| == 7 && Distinct(AssetsToCache)
  {
  }

  /** After a successful install the current cache holds all seven assets, as fetched. */
  lemma InstallCachesManifest(tables: map<string, Cache>, network: Network, i: nat)
    requires AllStorable(AssetsToCache, network) && i < |AssetsToCache|
    ensures CacheName in InstalledTables(tables, network)
    ensures AssetsToCache[i] in InstalledTables(tables, network)[CacheName]
    ensures InstalledTables(tables, network)[CacheName][AssetsToCache[i]] == network(AssetsToCache[i]).response
  {
  }

  /** Activating twice leaves the caches as activating once. */
  lemma ActivateIdempotent(names: seq<string>, tables: map<string, Cache>)
    ensures Kept(Kept(names)) == Kept(names)
    ensures Retained(Retained(tables)) == Retained(tables)
  {
    KeptIdempotent(names);
  }

  lemma {:induction false} KeptIdempotent(names: seq<string>)
    ensures Kept(Kept(names)) == Kept(names)
  {
    if names != [] {
      KeptIdempotent(names[1..]);
    }
  }

  /** With distinct names, activate leaves exactly the current cache, or no cache at all. */
  lemma {:induction false} KeptIsCurrent(names: seq<string>)
    requires Distinct(names)
    ensures Kept(names) == if CacheName in names then [CacheName] else []
  {
    if names != [] {
      assert Distinct(names[1..]) by {
        forall i, j | 0 <= i < j < |names[1..]| ensures names[1..][i] != names[1..][j] {
          assert names[1..][i] == names[i + 1] && names[1..][j] == names[j + 1];
        }
      }
      KeptIsCurrent(names[1..]);
      if names[0] == CacheName {
        assert CacheName !in names[1..] by {
          forall i | 0 <= i < |names[1..]| ensures names[1..][i] != CacheName {
            assert names[1..][i] == names[i + 1];
          }
        }
      } else {
        assert CacheName in names <==> CacheName in names[1..];
      }
    }
  }

  /**
   * Offline after a successful install and activate: every asset of the manifest is
   * served from the cache, as fetched at install, whatever the network does later.
   */
  lemma ServedOffline(names: seq<string>, tables: map<string, Cache>, network: Network, later: Network, i: nat)
    requires Distinct(names)
    requires AllStorable(AssetsToCache, network) && i < |AssetsToCache|
    ensures var installedNames := OpenedNames(names, CacheName);
            var activatedNames := Kept(installedNames);
            var activated := Retained(InstalledTables(tables, network));
            Respond(MatchAll(activatedNames, activated, AssetsToCache[i]), later(AssetsToCache[i]))
            == Delivered(network(AssetsToCache[i]).response)
  {
    var installedNames := OpenedNames(names, CacheName);
    assert Distinct(installedNames);
    KeptIsCurrent(installedNames);
    InstallCachesManifest(tables, network, i);
  }

  // ---------------------------------------------------------------------------
  // Cache Storage as the worker sees it
  // ---------------------------------------------------------------------------

  /** The origin's Cache Storage (`self.caches`). */
  class CacheStorage {
    var names: seq<string>
    var tables: map<string, Cache>

    /** Names are distinct, in creation order, and name exactly the existing caches. */
    ghost predicate Valid()
      reads this
    {
      Distinct(names) && forall n :: n in tables <==> n in names
    }

    constructor ()
      ensures Valid() && names == [] && tables == map[]
    {
      names, tables := [], map[];
    }

    /** `caches.keys()`. */
    method Keys() returns (keyList: seq<string>)
      ensures keyList == names
    {
      keyList := names;
    }

    /** `caches.open(name)`: the cache of that name, created empty if there is none. */
    method Open(name: string)
      requires Valid()
      modifies this
      ensures Valid()
      ensures names == OpenedNames(old(names), name)
      ensures tables == OpenedTables(old(tables), name)
    {
      if name !in tables {
        names, tables := names + [name], tables[name := map[]];
      }
    }

    /** `caches.delete(name)`: whether a cache of that name existed; it no longer does. */
    method Delete(name: string) returns (found: bool)
      requires Valid()
      modifies this
      ensures Valid()
      ensures found == (name in old(tables))
      ensures names == Without(old(names), name)
      ensures tables == old(tables) - {name}
    {
      found := name in tables;
      WithoutDistinct(names, name);
      names, tables := Without(names, name), tables - {name};
    }

    /** `caches.match(request)`. */
    method Match(request: Request) returns (r: Option<Response>)
      ensures r == MatchAll(names, tables, request)
    {
      r := MatchAll(names, tables, request);
    }

    /**
     * `cache.addAll(requests)` on the cache `name`: fetches every request; if they are
     * distinct and every response is storable, stores them all and succeeds, else stores
     * nothing and fails.
     */
    method AddAll(name: string, requests: seq<Request>, network: Network) returns (ok: bool)
      requires Valid() && name in tables
      modifies this
      ensures Valid() && names == old(names)
      ensures ok == AllStorable(requests, network)
      ensures ok ==> tables == old(tables)[name := old(tables)[name] + Batch(requests, network)]
      ensures !ok ==> tables == old(tables)
    {
      if !Distinct(requests) {
        return false;
      }
      var batch: Cache := map[];
      for k := 0 to |requests|
        invariant forall q :: q in batch <==> q in requests[..k]
        invariant forall q :: q in batch ==> network(q).Delivered? && batch[q] == network(q).response
        invariant forall i :: 0 <= i < k ==> Storable(network(requests[i]))
      {
        var fetched := network(requests[k]);
        if !Storable(fetched) {
          return false;
        }
        batch := batch[requests[k] := fetched.response];
      }
      assert requests[..|requests|] == requests;
      assert batch == Batch(requests, network);
      tables := tables[name := tables[name] + batch];
      ok := true;
    }

    /** The install handler: open the current cache and add the whole manifest to it. */
    method Install(network: Network) returns (ok: bool)
      requires Valid()
      modifies this
      ensures Valid()
      ensures names == OpenedNames(old(names), CacheName)
      ensures ok == AllStorable(AssetsToCache, network)
      ensures ok ==> tables == InstalledTables(old(tables), network)
      ensures !ok ==> tables == OpenedTables(old(tables), CacheName)
    {
      Open(CacheName);
      ok := AddAll(CacheName, AssetsToCache, network);
    }

    /** The activate handler: delete every cache whose name is not the current one. */
    method Activate()
      requires Valid()
      modifies this
      ensures Valid()
      ensures names == Kept(old(names))
      ensures tables == Retained(old(tables))
    {
      var keyList := Keys();
      ghost var t0 := tables;
      SurvivingStart(t0);
      for j := 0 to |keyList|
        invariant Valid()
        invariant names == Sweeping(keyList, j)
        invariant tables == Surviving(t0, keyList[..j])
      {
        SweepingStep(keyList, j);
        SurvivingStep(t0, keyList, j);
        if keyList[j] != CacheName {
          var _ := Delete(keyList[j]);
        }
      }
      SweepingDone(keyList);
      SurvivingDone(t0, keyList);
    }

    /** The fetch handler: the cached response if any cache holds the request, else the network's. */
    method HandleFetch(request: Request, network: Network) returns (r: Fetched)
      ensures r == Respond(MatchAll(names, tables, request), network(request))
      ensures MatchAll(names, tables, request).Some? ==> r == Delivered(MatchAll(names, tables, request).value)
      ensures MatchAll(names, tables, request).None? ==> r == network(request)
    {
      var response := Match(request);
      if response.Some? {
        return Delivered(response.value);
      }
      r := network(request);
    }
  }

  /** Deleting a name keeps the names distinct. */
  lemma {:induction false} WithoutDistinct(names: seq<string>, name: string)
    requires Distinct(names)
    ensures Distinct(Without(names, name))
  {
    if names != [] {
      assert Distinct(names[1..]) by {
        forall i, j | 0 <= i < j < |names[1..]| ensures names[1..][i] != names[1..][j] {
          assert names[1..][i] == names[i + 1] && names[1..][j] == names[j + 1];
        }
      }
      WithoutDistinct(names[1..], name);
      if names[0] != name {
        var rest := Without(names[1..], name);
        assert names[0] !in rest by {
          assert names[0] !in names[1..] by {
            forall i | 0 <= i < |names[1..]| ensures names[1..][i] != names[0] {
              assert names[1..][i] == names[i + 1];
            }
          }
        }
        var r := [names[0]] + rest;
        forall i, j | 0 <= i < j < |r| ensures r[i] != r[j] {
          assert r[j] == rest[j - 1];
          if i > 0 { assert r[i] == rest[i - 1]; }
        }
      }
    }
  }

  /** The cache names while activate is at position `j` of the name list it took. */
  ghost function Sweeping(keyList: seq<string>, j: nat): seq<string>
    requires j <= |keyList|
  {
    Kept(keyList[..j]) + keyList[j..]
  }

  lemma KeptConcat(a: seq<string>, b: seq<string>)
    ensures Kept(a + b) == Kept(a) + Kept(b)
  {
    if a != [] {
      assert (a + b)[1..] == a[1..] + b;
      KeptConcat(a[1..], b);
    } else {
      assert a + b == b;
    }
  }

  lemma {:induction false} WithoutAbsent(names: seq<string>, name: string)
    requires name !in names
    ensures Without(names, name) == names
  {
    if names != [] {
      WithoutAbsent(names[1..], name);
    }
  }

  lemma WithoutConcat(a: seq<string>, b: seq<string>, name: string)
    ensures Without(a + b, name) == Without(a, name) + Without(b, name)
  {
    if a != [] {
      assert (a + b)[1..] == a[1..] + b;
      WithoutConcat(a[1..], b, name);
    } else {
      assert a + b == b;
    }
  }

  /** One step of activate: deleting the name at position `j` unless it is the current one. */
  lemma SweepingStep(keyList: seq<string>, j: nat)
    requires Distinct(keyList) && j < |keyList|
    ensures var now := Sweeping(keyList, j);
      (if keyList[j] != CacheName then Without(now, keyList[j]) else now) == Sweeping(keyList, j + 1)
  {
    var name, done, rest := keyList[j], keyList[..j], keyList[j + 1..];
    assert Sweeping(keyList, j) == Kept(done) + ([name] + rest) by {
      assert keyList[j..] == [name] + rest;
    }
    assert Sweeping(keyList, j + 1) == Kept(done) + Kept([name]) + rest by {
      assert keyList[..j + 1] == done + [name];
      KeptConcat(done, [name]);
    }
    if name != CacheName {
      NotLater(keyList, j);
      DeleteVisited(Kept(done), name, rest);
      assert Kept([name]) == [];
      assert Kept(done) + Kept([name]) + rest == Kept(done) + rest;
    } else {
      assert Kept([name]) == [name];
      assert Kept(done) + Kept([name]) + rest == Kept(done) + ([name] + rest);
    }
  }

  /** Deleting a name that occurs once, between `kept` and `rest`, just drops it. */
  lemma DeleteVisited(kept: seq<string>, name: string, rest: seq<string>)
    requires name !in kept && name !in rest
    ensures Without(kept + ([name] + rest), name) == kept + rest
  {
    WithoutConcat(kept, [name] + rest, name);
    WithoutConcat([name], rest, name);
    WithoutAbsent(kept, name);
    WithoutAbsent(rest, name);
    assert Without([name], name) == [];
  }

  /** In a list of distinct names, the name at `j` does not occur after `j`. */
  lemma NotLater(keyList: seq<string>, j: nat)
    requires Distinct(keyList) && j < |keyList|
    ensures keyList[j] !in keyList[j + 1..]
  {
    var rest := keyList[j + 1..];
    forall i | 0 <= i < |rest| ensures rest[i] != keyList[j] {
      assert rest[i] == keyList[j + 1 + i];
    }
  }

  /** The caches while activate has visited the names `visited`. */
  ghost function Surviving(tables: map<string, Cache>, visited: seq<string>): map<string, Cache> {
    map n | n in tables && (n == CacheName || n !in visited) :: tables[n]
  }

  lemma SurvivingStart(tables: map<string, Cache>)
    ensures Surviving(tables, []) == tables
  {
  }

  lemma SurvivingStep(tables: map<string, Cache>, keyList: seq<string>, j: nat)
    requires j < |keyList|
    ensures var now := Surviving(tables, keyList[..j]);
      (if keyList[j] != CacheName then now - {keyList[j]} else now) == Surviving(tables, keyList[..j + 1])
  {
    assert keyList[..j + 1] == keyList[..j] + [keyList[j]];
  }

  lemma SurvivingDone(tables: map<string, Cache>, keyList: seq<string>)
    requires forall n :: n in tables <==> n in keyList
    ensures Surviving(tables, keyList[..|keyList|]) == Retained(tables)
  {
    assert keyList[..|keyList|] == keyList;
  }

  lemma SweepingDone(keyList: seq<string>)
    ensures Sweeping(keyList, |keyList|) == Kept(keyList)
  {
    assert keyList[..|keyList|] == keyList;
  }
}
