/**
 * The offline cache worker of the viewer (`service-worker.js`). The browser's cache storage is
 * an ordered collection of named stores, each mapping a request URL to a stored response. The
 * worker fills its store on install, deletes every other store on activate, answers fetches
 * cache-first (storing successful same-origin responses) and skips waiting on request.
 *
 * Each event handler is one atomic step; the network is an input to the step.
 */
module ServiceWorker {
  import opened Wrappers
  import Text

  type Url = string
  type CacheName = string

  /** The `type` of a fetched response. */
  datatype ResponseType = Basic | Cors | Default | Error | Opaque | OpaqueRedirect

  /** A response: its status, its type and its body. */
  datatype Response = Response(status: int, kind: ResponseType, body: string)

  /** One named store. */
  type Store = map<Url, Response>

  /** The cache storage: store names in the order they were created, and the stores. */
  datatype Storage = Storage(names: seq<CacheName>, stores: map<CacheName, Store>)

  /** The name of the worker's own store. */
  const CACHE_NAME: CacheName := "power-bi-viewer-cache-v1"

  // The two remote URLs, written in pieces short enough to inspect letter by letter.
  const FONTS_HEAD: string := "https://fonts.googleapis.com/"
  const FONTS_MIDDLE: string := "css2?family=Roboto:wght@300;"
  const FONTS_TAIL: string := "400;500;700&display=swap"
  const ICONS_HEAD: string := "https://cdnjs.cloudflare.com/ajax/"
  const ICONS_TAIL: string := "libs/font-awesome/6.4.0/css/all.min.css"

  /** The resources stored on install. */
  const INITIAL_CACHED_RESOURCES: seq<Url> := [
    "./",
    "./index.html",
    "./styles.css",
    "./script.js",
    FONTS_HEAD + FONTS_MIDDLE + FONTS_TAIL,
    ICONS_HEAD + ICONS_TAIL
  ]

  /** Requests to this host are never answered by the worker. */
  const EXCLUDED_HOST: string := "powerbi.com"

  predicate NoDuplicates(names: seq<CacheName>)
  {
    forall i, j :: 0 <= i < j < |names| ==> names[i] != names[j]
  }

  /** Every store is listed once, and only stores are listed. */
  predicate WellFormed(s: Storage)
  {
    && NoDuplicates(s.names)
    && (forall n :: n in s.names ==> n in s.stores)
    && (forall n :: n in s.stores ==> n in s.names)
  }

  // ---------------------------------------------------------------------------------------
  // Cache storage operations

  /** `caches.open(name)`: the store of that name, created empty at the end of the order when
      there is none. */
  function Open(s: Storage, name: CacheName): (r: Storage)
    requires WellFormed(s)
    ensures WellFormed(r)
    ensures name in r.stores && r.stores[name] == if name in s.stores then s.stores[name] else map[]
    ensures forall n :: n != name ==> (n in r.stores <==> n in s.stores)
    ensures forall n :: n != name && n in s.stores ==> r.stores[n] == s.stores[n]
    ensures name in s.stores ==> r == s
    ensures name !in s.stores ==> r.names == s.names + [name]
  {
    if name in s.stores then s else Storage(s.names + [name], s.stores[name := map[]])
  }

  /** `cache.put(url, response)` on an open store: the entry is added or replaced. */
  function Put(s: Storage, name: CacheName, url: Url, response: Response): (r: Storage)
    requires WellFormed(s) && name in s.stores
    ensures WellFormed(r) && r.names == s.names && r.stores.Keys == s.stores.Keys
    ensures r.stores[name] == s.stores[name][url := response]
    ensures forall n :: n in s.stores && n != name ==> r.stores[n] == s.stores[n]
  {
    Storage(s.names, s.stores[name := s.stores[name][url := response]])
  }

  /** A response `cache.addAll` accepts: an ok status (200 to 299) other than 206, a partial
      content response, which it rejects as well. */
  predicate Accepted(response: Response)
  {
    200 <= response.status <= 299 && response.status != 206
  }

  /** Every URL of the list is delivered by the network with a response `addAll` accepts. */
  predicate AllFetched(network: map<Url, Response>, urls: seq<Url>)
  {
    forall i :: 0 <= i < |urls| ==> urls[i] in network && Accepted(network[urls[i]])
  }

  /** The store after the responses for `urls` were put into it in order. */
  function PutAll(store: Store, urls: seq<Url>, network: map<Url, Response>): (r: Store)
    requires forall i :: 0 <= i < |urls| ==> urls[i] in network
    ensures forall u :: u in r <==> u in store || u in urls
    ensures forall u :: u in urls ==> r[u] == network[u]
    ensures forall u :: u in store && u !in urls ==> r[u] == store[u]
    decreases |urls|
  {
    if |urls| == 0 then store
    else PutAll(store[urls[0] := network[urls[0]]], urls[1..], network)
  }

  /** `cache.addAll(urls)` on an open store: all of them are stored, or nothing is when one of
      them is not delivered with a response it accepts. */
  function AddAll(s: Storage, name: CacheName, urls: seq<Url>, network: map<Url, Response>): (r: Option<Storage>)
    requires WellFormed(s) && name in s.stores
    ensures r.Some? <==> AllFetched(network, urls)
    ensures r.Some? ==>
      WellFormed(r.value) && r.value.names == s.names
      && r.value.stores == s.stores[name := PutAll(s.stores[name], urls, network)]
  {
    if AllFetched(network, urls) then Some(Storage(s.names, s.stores[name := PutAll(s.stores[name], urls, network)]))
    else None
  }

  /** `names` without `name`, order kept. */
  function Without(names: seq<CacheName>, name: CacheName): (r: seq<CacheName>)
    ensures forall n :: n in r <==> n in names && n != name
    ensures NoDuplicates(names) ==> NoDuplicates(r)
  {
    if |names| == 0 then []
    else if names[0] == name then Without(names[1..], name)
    else
      var rest := Without(names[1..], name);
      assert NoDuplicates(names) ==> names[0] !in names[1..];
      [names[0]] + rest
  }

  /** Removing a name that is not listed changes nothing. */
  lemma {:induction false} WithoutAbsent(names: seq<CacheName>, name: CacheName)
    requires name !in names
    ensures Without(names, name) == names
  {
    if |names| != 0 {
      WithoutAbsent(names[1..], name);
      assert names == [names[0]] + names[1..];
    }
  }

  /** Removing a name listed once takes out that one entry and keeps the others in order. */
  lemma {:induction false} WithoutListedOnce(names: seq<CacheName>, name: CacheName)
    requires NoDuplicates(names) && name in names
    ensures exists k :: 0 <= k < |names| && names[k] == name && Without(names, name) == names[..k] + names[k + 1..]
  {
    if names[0] == name {
      assert name !in names[1..] by {
        forall i | 0 <= i < |names| - 1 ensures names[1..][i] != name {
          assert names[1..][i] == names[i + 1];
        }
      }
      WithoutAbsent(names[1..], name);
      assert names[..0] + names[1..] == names[1..];
    } else {
      assert NoDuplicates(names[1..]);
      WithoutListedOnce(names[1..], name);
      var k :| 0 <= k < |names| - 1 && names[1..][k] == name && Without(names[1..], name) == names[1..][..k] + names[1..][k + 1..];
      ConsSplice(names, k);
      assert 0 <= k + 1 < |names| && names[k + 1] == name && Without(names, name) == names[..k + 1] + names[k + 2..];
    }
  }

  /** Cutting entry `k + 1` out of a list is keeping its head and cutting entry `k` out of its tail. */
  lemma ConsSplice(names: seq<CacheName>, k: nat)
    requires k + 1 < |names|
    ensures names[..k + 1] + names[k + 2..] == [names[0]] + (names[1..][..k] + names[1..][k + 1..])
    ensures names[1..][k] == names[k + 1]
  {
    assert names[..k + 1] == [names[0]] + names[1..][..k];
    assert names[k + 2..] == names[1..][k + 1..];
  }

  /** Both cases together. */
  lemma WithoutKeepsOrder(names: seq<CacheName>, name: CacheName)
    requires NoDuplicates(names)
    ensures name !in names ==> Without(names, name) == names
    ensures name in names ==> exists k :: 0 <= k < |names| && names[k] == name && Without(names, name) == names[..k] + names[k + 1..]
  {
    if name in names {
      WithoutListedOnce(names, name);
    } else {
      WithoutAbsent(names, name);
    }
  }

  /** `caches.delete(name)`. */
  function Delete(s: Storage, name: CacheName): (r: Storage)
    requires WellFormed(s)
    ensures WellFormed(r)
    ensures forall n :: n in r.stores <==> n in s.stores && n != name
    ensures forall n :: n in r.stores ==> r.stores[n] == s.stores[n]
    ensures name !in s.stores ==> r.names == s.names
    ensures name in s.stores ==> exists k :: 0 <= k < |s.names| && s.names[k] == name && r.names == s.names[..k] + s.names[k + 1..]
  {
    WithoutKeepsOrder(s.names, name);
    Storage(Without(s.names, name), s.stores - {name})
  }

  /** `caches.match(url)` over the stores listed in `names`, in that order: the first stored
      response for the URL. */
  function MatchIn(names: seq<CacheName>, stores: map<CacheName, Store>, url: Url): (r: Option<Response>)
    ensures r.Some? <==> exists i :: 0 <= i < |names| && names[i] in stores && url in stores[names[i]]
    ensures r.Some? ==> exists i :: 0 <= i < |names| && Holds(names, stores, url, i) && stores[names[i]][url] == r.value
                                     && forall j :: 0 <= j < i ==> !Holds(names, stores, url, j)
  {
    if |names| == 0 then None
    else if Holds(names, stores, url, 0) then Some(stores[names[0]][url])
    else
      var r := MatchIn(names[1..], stores, url);
      assert forall i :: 0 < i < |names| ==> Holds(names, stores, url, i) == Holds(names[1..], stores, url, i - 1);
      if r.Some? then
        var i :| 0 <= i < |names| - 1 && Holds(names[1..], stores, url, i) && stores[names[1..][i]][url] == r.value
                 && forall j :: 0 <= j < i ==> !Holds(names[1..], stores, url, j);
        assert Holds(names, stores, url, i + 1) && stores[names[i + 1]][url] == r.value;
        assert forall j :: 0 <= j < i + 1 ==> !Holds(names, stores, url, j);
        r
      else r
  }

  /** The store listed at position `i` exists and holds `url`. */
  predicate Holds(names: seq<CacheName>, stores: map<CacheName, Store>, url: Url, i: int)
  {
    0 <= i < |names| && names[i] in stores && url in stores[names[i]]
  }

  function Match(s: Storage, url: Url): Option<Response>
  {
    MatchIn(s.names, s.stores, url)
  }

  /** When exactly one listed store holds the URL, the match is that store's response. */
  lemma MatchOnlyHolder(s: Storage, url: Url, name: CacheName)
    requires WellFormed(s) && name in s.stores && url in s.stores[name]
    requires forall n :: n in s.stores && url in s.stores[n] ==> n == name
    ensures Match(s, url) == Some(s.stores[name][url])
  {
    var i :| 0 <= i < |s.names| && s.names[i] == name;
    assert s.names[i] in s.stores && url in s.stores[s.names[i]];
  }

  // ---------------------------------------------------------------------------------------
  // What each event does, as functions of the storage before it

  /** The storage after install: the own store opened, then filled when every resource arrived. */
  function Installed(s: Storage, network: map<Url, Response>): (r: Storage)
    requires WellFormed(s)
    ensures WellFormed(r) && CACHE_NAME in r.stores
  {
    var ready := Open(s, CACHE_NAME);
    match AddAll(ready, CACHE_NAME, INITIAL_CACHED_RESOURCES, network)
    case Some(filled) => filled
    case None => ready
  }

  /** The storage after the stores of `names` other than the worker's own were deleted. */
  function DeleteOld(s: Storage, names: seq<CacheName>): (r: Storage)
    requires WellFormed(s)
    ensures WellFormed(r)
    ensures forall n :: n in r.stores <==> n in s.stores && (n == CACHE_NAME || n !in names)
    ensures forall n :: n in r.stores ==> r.stores[n] == s.stores[n]
  {
    if |names| == 0 then s
    else
      var before := DeleteOld(s, names[..|names| - 1]);
      assert names == names[..|names| - 1] + [names[|names| - 1]];
      if names[|names| - 1] != CACHE_NAME then Delete(before, names[|names| - 1]) else before
  }

  /** One more name handled. */
  lemma DeleteOldStep(s: Storage, names: seq<CacheName>, i: nat)
    requires WellFormed(s) && i < |names|
    ensures DeleteOld(s, names[..i + 1])
         == if names[i] != CACHE_NAME then Delete(DeleteOld(s, names[..i]), names[i]) else DeleteOld(s, names[..i])
  {
    assert names[..i + 1][..i] == names[..i];
  }

  /** The answer to a fetch. */
  datatype FetchOutcome =
    | Bypassed                               // the worker does not respond; the browser fetches
    | FromCache(response: Response)          // a stored response, without going to the network
    | FromNetwork(reply: Option<Response>)   // what the network gave (None: no response)

  /** Whether a request is left to the browser. */
  predicate Excluded(url: Url)
  {
    Text.Contains(url, EXCLUDED_HOST)
  }

  /** A network response the worker stores: status 200 and type `basic`. */
  predicate Cacheable(reply: Option<Response>)
  {
    reply.Some? && reply.value.status == 200 && reply.value.kind == Basic
  }

  /** The answer to a fetch of `url`: left to the browser on the excluded host, else the stored
      response when there is one, else the network's reply. */
  function Respond(s: Storage, url: Url, reply: Option<Response>): (r: FetchOutcome)
    ensures r.Bypassed? <==> Excluded(url)
    ensures r.FromCache? ==> Match(s, url) == Some(r.response)
    ensures r.FromNetwork? ==> Match(s, url).None? && r.reply == reply
  {
    if Excluded(url) then Bypassed
    else match Match(s, url)
      case Some(cached) => FromCache(cached)
      case None => FromNetwork(reply)
  }

  /** The storage after a fetch of `url`: changed only on a miss with a cacheable reply. */
  function AfterFetch(s: Storage, url: Url, reply: Option<Response>): (r: Storage)
    requires WellFormed(s)
    ensures WellFormed(r)
    ensures r != s ==> !Excluded(url) && Match(s, url).None? && Cacheable(reply)
  {
    if Excluded(url) || Match(s, url).Some? || !Cacheable(reply) then s
    else Put(Open(s, CACHE_NAME), CACHE_NAME, url, reply.value)
  }

  /** `event.data.action === 'skipWaiting'`. */
  predicate AsksToSkipWaiting(action: Option<string>)
  {
    action == Some("skipWaiting")
  }

  // ---------------------------------------------------------------------------------------
  // The worker

  class Worker {
    var storage: Storage
    /** `self.skipWaiting()` was called. */
    var skippedWaiting: bool
    /** `self.clients.claim()` was called. */
    var claimedClients: bool

    ghost predicate Valid()
      reads this
    {
      WellFormed(storage)
    }

    /** A worker starting over the stores left by earlier versions. */
    constructor (existing: Storage)
      requires WellFormed(existing)
      ensures Valid() && storage == existing && !skippedWaiting && !claimedClients
    {
      storage := existing;
      skippedWaiting := false;
      claimedClients := false;
    }

    /** The `install` handler: open the own store, add every initial resource, and skip waiting
        only once they are all stored. `installed` is false when the installation fails. */
    method Install(network: map<Url, Response>) returns (installed: bool)
      requires Valid()
      modifies this
      ensures Valid()
      ensures installed == AllFetched(network, INITIAL_CACHED_RESOURCES)
      ensures storage == Installed(old(storage), network)
      ensures skippedWaiting == (old(skippedWaiting) || installed)
      ensures claimedClients == old(claimedClients)
    {
      storage := Open(storage, CACHE_NAME);
      var added := AddAll(storage, CACHE_NAME, INITIAL_CACHED_RESOURCES, network);
      installed := added.Some?;
      if installed {
        storage := added.value;
        skippedWaiting := true;
      }
    }

    /** The `activate` handler: delete every store whose name is not the worker's own, then
        claim the clients. */
    method Activate()
      requires Valid()
      modifies this
      ensures Valid()
      ensures storage == DeleteOld(old(storage), old(storage).names)
      ensures claimedClients && skippedWaiting == old(skippedWaiting)
    {
      var names := storage.names;
      ghost var before := storage;
      var i := 0;
      while i < |names|
        invariant 0 <= i <= |names| && WellFormed(storage)
        invariant storage == DeleteOld(before, names[..i])
        invariant skippedWaiting == old(skippedWaiting)
      {
        DeleteOldStep(before, names, i);
        if names[i] != CACHE_NAME {
          storage := Delete(storage, names[i]);
        }
        i := i + 1;
      }
      assert names[..i] == names;
      claimedClients := true;
    }

    /** The `fetch` handler, given what the network would answer for the request. */
    method HandleFetch(url: Url, reply: Option<Response>) returns (outcome: FetchOutcome)
      requires Valid()
      modifies this
      ensures Valid()
      ensures outcome == Respond(old(storage), url, reply)
      ensures storage == AfterFetch(old(storage), url, reply)
      ensures skippedWaiting == old(skippedWaiting) && claimedClients == old(claimedClients)
    {
      if Text.Contains(url, EXCLUDED_HOST) {
        return Bypassed;
      }
      var cached := Match(storage, url);
      if cached.Some? {
        return FromCache(cached.value);
      }
      if reply.None? || reply.value.status != 200 || reply.value.kind != Basic {
        return FromNetwork(reply);
      }
      storage := Open(storage, CACHE_NAME);
      storage := Put(storage, CACHE_NAME, url, reply.value);
      outcome := FromNetwork(reply);
    }

    /** The `message` handler. */
    method HandleMessage(action: Option<string>)
      modifies this
      ensures skippedWaiting == (old(skippedWaiting) || AsksToSkipWaiting(action))
      ensures storage == old(storage) && claimedClients == old(claimedClients)
    {
      if action == Some("skipWaiting") {
        skippedWaiting := true;
      }
    }
  }

  // ---------------------------------------------------------------------------------------
  // Properties

  /** Install succeeds exactly when every initial resource arrives with a response `addAll`
      accepts; then the own store holds each of them as delivered, and the other stores are
      untouched. */
  lemma InstallStoresResources(s: Storage, network: map<Url, Response>)
    requires WellFormed(s)
    ensures var r := Installed(s, network);
      WellFormed(r) && CACHE_NAME in r.stores
      && (forall n :: n in r.stores <==> n in s.stores || n == CACHE_NAME)
      && (forall n :: n in s.stores && n != CACHE_NAME ==> r.stores[n] == s.stores[n])
    ensures AllFetched(network, INITIAL_CACHED_RESOURCES) ==>
      forall u :: u in INITIAL_CACHED_RESOURCES ==> Installed(s, network).stores[CACHE_NAME][u] == network[u]
  {
    var ready := Open(s, CACHE_NAME);
    var added := AddAll(ready, CACHE_NAME, INITIAL_CACHED_RESOURCES, network);
    if added.Some? {
      assert Installed(s, network) == added.value;
    }
  }

  /** A failed install adds nothing but the (possibly new, empty) own store. */
  lemma FailedInstallStoresNothing(s: Storage, network: map<Url, Response>)
    requires WellFormed(s) && !AllFetched(network, INITIAL_CACHED_RESOURCES)
    ensures Installed(s, network).stores == s.stores[CACHE_NAME := if CACHE_NAME in s.stores then s.stores[CACHE_NAME] else map[]]
  {
  }

  /** After activate, the own store is the only one left, if it was there, with its contents. */
  lemma ActivateKeepsOnlyOwnStore(s: Storage)
    requires WellFormed(s)
    ensures var r := DeleteOld(s, s.names);
      (forall n :: n in r.names ==> n == CACHE_NAME)
      && (CACHE_NAME in r.stores <==> CACHE_NAME in s.stores)
      && (CACHE_NAME in s.stores ==> r.stores[CACHE_NAME] == s.stores[CACHE_NAME])
  {
  }

  /** Right after a successful install, every initial resource is answered from the cache; the
      answer may still come from an older store created earlier that holds the same URL. */
  lemma BootstrapServedAfterInstall(s: Storage, network: map<Url, Response>, url: Url, reply: Option<Response>)
    requires WellFormed(s) && AllFetched(network, INITIAL_CACHED_RESOURCES) && url in INITIAL_CACHED_RESOURCES
    ensures Respond(Installed(s, network), url, reply).FromCache?
  {
    InstallStoresResources(s, network);
    NoInitialResourceExcluded();
    HitServedFromCache(Installed(s, network), url, reply, CACHE_NAME);
  }

  /** After a successful install and then activate, every initial resource is answered from the
      cache with the response delivered at install. */
  lemma BootstrapServedOffline(s: Storage, network: map<Url, Response>, url: Url, reply: Option<Response>)
    requires WellFormed(s) && AllFetched(network, INITIAL_CACHED_RESOURCES) && url in INITIAL_CACHED_RESOURCES
    ensures Respond(DeleteOld(Installed(s, network), Installed(s, network).names), url, reply) == FromCache(network[url])
  {
    var installed := Installed(s, network);
    InstallStoresResources(s, network);
    var active := DeleteOld(installed, installed.names);
    assert CACHE_NAME in active.stores;
    MatchOnlyHolder(active, url, CACHE_NAME);
    NoInitialResourceExcluded();
  }

  /** None of the initial resources is on the excluded host: none holds the `rb` of `powerbi`. */
  lemma NoInitialResourceExcluded()
    ensures forall u :: u in INITIAL_CACHED_RESOURCES ==> !Excluded(u)
  {
    var host := EXCLUDED_HOST;
    assert host[4] == 'r' && host[5] == 'b';
    LocalResourcesPairFree();
    FontsPairFree();
    IconsPairFree();
    forall u | u in INITIAL_CACHED_RESOURCES ensures !Excluded(u) {
      Text.PairFreeNotContains(u, host, 4);
    }
  }

  lemma LocalResourcesPairFree()
    ensures forall i :: 0 <= i < 4 ==> Text.PairFree(INITIAL_CACHED_RESOURCES[i], 'r', 'b')
  {
    forall i | 0 <= i < 4 ensures Text.PairFree(INITIAL_CACHED_RESOURCES[i], 'r', 'b') {
      assert 'b' !in INITIAL_CACHED_RESOURCES[i];
      Text.PairFreeByAbsence(INITIAL_CACHED_RESOURCES[i], 'r', 'b');
    }
  }

  /** The font stylesheet URL has no `r` at all. */
  lemma FontsPairFree()
    ensures Text.PairFree(INITIAL_CACHED_RESOURCES[4], 'r', 'b')
  {
    FontsHeadWithoutR();
    FontsRestWithoutR();
    Text.PairFreeByAbsence(INITIAL_CACHED_RESOURCES[4], 'r', 'b');
  }

  lemma FontsHeadWithoutR()
    ensures 'r' !in FONTS_HEAD
  {
  }

  lemma FontsRestWithoutR()
    ensures 'r' !in FONTS_MIDDLE && 'r' !in FONTS_TAIL
  {
    assert 'r' !in FONTS_MIDDLE;
  }

  /** The icon stylesheet URL has its only `r` before its first `b`, with a `/` between. */
  lemma IconsPairFree()
    ensures Text.PairFree(INITIAL_CACHED_RESOURCES[5], 'r', 'b')
  {
    IconsHeadWithoutB();
    IconsTailWithoutR();
    Text.PairFreeByAbsence(ICONS_HEAD, 'r', 'b');
    Text.PairFreeByAbsence(ICONS_TAIL, 'r', 'b');
    Text.PairFreeJoin(ICONS_HEAD, ICONS_TAIL, 'r', 'b');
  }

  lemma IconsHeadWithoutB()
    ensures 'b' !in ICONS_HEAD && ICONS_HEAD[|ICONS_HEAD| - 1] == '/'
  {
  }

  lemma IconsTailWithoutR()
    ensures 'r' !in ICONS_TAIL
  {
  }

  /** A request to the excluded host is not answered, and the cache is neither read nor changed. */
  lemma ExcludedBypassed(s: Storage, url: Url, reply: Option<Response>)
    requires WellFormed(s) && exists k :: Text.OccursAt(url, EXCLUDED_HOST, k)
    ensures Respond(s, url, reply) == Bypassed && AfterFetch(s, url, reply) == s
  {
  }

  /** On a hit, the stored response is returned, the network is not used and nothing changes. */
  lemma HitServedFromCache(s: Storage, url: Url, reply: Option<Response>, name: CacheName)
    requires WellFormed(s) && !Excluded(url) && name in s.stores && url in s.stores[name]
    ensures Respond(s, url, reply).FromCache? && AfterFetch(s, url, reply) == s
    ensures (forall n :: n in s.stores && url in s.stores[n] ==> n == name)
            ==> Respond(s, url, reply) == FromCache(s.stores[name][url])
  {
    var i :| 0 <= i < |s.names| && s.names[i] == name;
    assert s.names[i] in s.stores && url in s.stores[s.names[i]];
    if forall n :: n in s.stores && url in s.stores[n] ==> n == name {
      MatchOnlyHolder(s, url, name);
    }
  }

  /** On a miss, a status-200 `basic` response is stored in the own store under the request and
      returned; every other stored entry is kept. */
  lemma MissStoresCacheable(s: Storage, url: Url, reply: Option<Response>)
    requires WellFormed(s) && !Excluded(url) && Match(s, url).None? && Cacheable(reply)
    ensures Respond(s, url, reply) == FromNetwork(reply)
    ensures var r := AfterFetch(s, url, reply);
      WellFormed(r) && CACHE_NAME in r.stores && r.stores[CACHE_NAME][url] == reply.value
      && (forall n :: n in r.stores <==> n in s.stores || n == CACHE_NAME)
      && (forall n, u :: n in s.stores && u in s.stores[n] && (n != CACHE_NAME || u != url) ==> u in r.stores[n] && r.stores[n][u] == s.stores[n][u])
  {
  }

  /** On a miss, any other reply (none, not status 200, or not `basic`) is returned and the
      cache is unchanged. */
  lemma MissPassesOtherReplies(s: Storage, url: Url, reply: Option<Response>)
    requires WellFormed(s) && !Excluded(url) && Match(s, url).None? && !Cacheable(reply)
    ensures Respond(s, url, reply) == FromNetwork(reply) && AfterFetch(s, url, reply) == s
  {
  }

  /** A response stored on a miss answers the next request for the same URL from the cache,
      whatever the network would say then. */
  lemma StoredResponseServedNext(s: Storage, url: Url, reply: Option<Response>, later: Option<Response>)
    requires WellFormed(s) && !Excluded(url) && Match(s, url).None? && Cacheable(reply)
    ensures Respond(AfterFetch(s, url, reply), url, later) == FromCache(reply.value)
  {
    var r := AfterFetch(s, url, reply);
    MissStoresCacheable(s, url, reply);
    forall n | n in r.stores && n != CACHE_NAME ensures url !in r.stores[n] {
      assert n in s.stores && r.stores[n] == s.stores[n] by {
        assert n in Open(s, CACHE_NAME).stores;
      }
      var i :| 0 <= i < |s.names| && s.names[i] == n;
    }
    MatchOnlyHolder(r, url, CACHE_NAME);
  }
}
