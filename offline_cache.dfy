/**
 The offline cache worker (sw.js).

 The browser's Cache Storage is modelled as the class CacheStorage: a map
 from cache name to a cache, where a cache maps a request path to a stored
 response, together with the cache names in the order the caches were
 created (the order in which caches.keys() lists them and caches.match
 searches them). The network is a function from request path to response,
 passed in as a parameter.

 install opens the cache named CACHE_NAME and adds every path of ASSETS;
 activate deletes every cache whose name is not CACHE_NAME; fetch answers
 from the first cache holding the request and falls back to the network,
 without writing anything back.
 */
module OfflineCache {

  datatype Option<T> = None | Some(value: T)

  /** The name of the current cache version. */
  const CACHE_NAME: string := "breathing-v3"

  /** The paths install puts into the cache. */
  const ASSETS: seq<string> := ["/", "/index.html", "/style.css", "/script.js", "/manifest.json"]

  /** One cache: request path to stored response. */
  type Cache<R> = map<string, R>

  /** No name occurs twice. */
  ghost predicate Distinct(s: seq<string>)
  {
    forall i, j :: 0 <= i < j < |s| ==> s[i] != s[j]
  }

  /** The listed names are exactly the names of stored caches. */
  ghost predicate KeysMatch<R>(names: seq<string>, caches: map<string, Cache<R>>)
  {
    forall n :: n in names <==> n in caches
  }

  /** s with every occurrence of x dropped, order kept: keys.filter(k => k !== x). */
  function Without(s: seq<string>, x: string): (r: seq<string>)
    ensures forall k :: k in r <==> k in s && k != x
    ensures Distinct(s) ==> Distinct(r)
    ensures x !in s ==> r == s
  {
    if s == [] then []
    else if s[0] == x then Without(s[1..], x)
    else
      var rest := Without(s[1..], x);
      assert Distinct(s) ==> s[0] !in s[1..] by {
        forall j | 0 <= j < |s[1..]| ensures Distinct(s) ==> s[1..][j] != s[0] {
          assert s[1..][j] == s[j + 1];
        }
      }
      [s[0]] + rest
  }

  /** Filtering drops every occurrence of x and keeps every other name as
      often as it occurs in s. */
  lemma {:induction false} WithoutMultiset(s: seq<string>, x: string)
    ensures multiset(Without(s, x)) == multiset(s)[x := 0]
  {
    if s != [] {
      assert s == [s[0]] + s[1..];
      WithoutMultiset(s[1..], x);
    }
  }

  /** Filtering a one-name list keeps the name exactly when it is not x. */
  lemma WithoutSingleton(y: string, x: string)
    ensures Without([y], x) == if y == x then [] else [y]
  {
  }

  /** Filtering distributes over concatenation, so together with
      WithoutSingleton it fixes the order of the result: the survivors appear
      in the order they had in s. */
  lemma {:induction false} WithoutConcat(a: seq<string>, b: seq<string>, x: string)
    ensures Without(a + b, x) == Without(a, x) + Without(b, x)
  {
    if a != [] {
      assert (a + b)[1..] == a[1..] + b;
      WithoutConcat(a[1..], b, x);
    } else {
      assert a + b == b;
    }
  }

  /** A sequence whose every element is c repeats c as soon as it has two
      elements; so a distinct one is empty or just [c]. */
  lemma AllEqualDistinct(s: seq<string>, c: string)
    requires forall k :: k in s ==> k == c
    ensures |s| >= 2 ==> !Distinct(s)
    ensures Distinct(s) ==> s == [] || s == [c]
  {
    if |s| >= 2 {
      assert s[0] in s && s[1] in s;
    } else if |s| == 1 {
      assert s[0] in s;
    }
  }

  /** cache.addAll(paths): every path gets the network's response for it;
      the entries for other paths are kept. */
  function AddAll<R>(cache: Cache<R>, paths: seq<string>, network: string -> R): (r: Cache<R>)
    ensures r.Keys == cache.Keys + set p | p in paths
    ensures forall p :: p in paths ==> r[p] == network(p)
    ensures forall p :: p in cache && p !in paths ==> r[p] == cache[p]
  {
    map p | p in cache.Keys + (set q | q in paths) :: if p in paths then network(p) else cache[p]
  }

  /** caches.match(request): search the caches in creation order and answer
      with the first stored response for the request. */
  function Match<R>(names: seq<string>, caches: map<string, Cache<R>>, request: string): (r: Option<R>)
    ensures r.None? <==> forall n :: n in names && n in caches ==> request !in caches[n]
    ensures r.Some? ==> exists i :: 0 <= i < |names| && FirstHolder(names, caches, request, i)
                                    && r.value == caches[names[i]][request]
  {
    if names == [] then None
    else if names[0] in caches && request in caches[names[0]] then
      assert FirstHolder(names, caches, request, 0);
      Some(caches[names[0]][request])
    else
      var r := Match(names[1..], caches, request);
      assert r.Some? ==> exists i :: 0 <= i < |names| && FirstHolder(names, caches, request, i)
                                     && r.value == caches[names[i]][request] by {
        if r.Some? {
          var i :| 0 <= i < |names[1..]| && FirstHolder(names[1..], caches, request, i)
                   && r.value == caches[names[1..][i]][request];
          assert FirstHolder(names, caches, request, i + 1);
        }
      }
      r
  }

  /** The cache names[i] holds the request and no earlier cache does. */
  ghost predicate FirstHolder<R>(names: seq<string>, caches: map<string, Cache<R>>, request: string, i: int)
    requires 0 <= i < |names|
  {
    && names[i] in caches && request in caches[names[i]]
    && forall j :: 0 <= j < i ==> !(names[j] in caches && request in caches[names[j]])
  }

  /** The caches after install: CACHE_NAME holds the network's response for
      every asset and keeps its other entries; every other cache is untouched. */
  function AfterInstall<R>(caches: map<string, Cache<R>>, network: string -> R): (r: map<string, Cache<R>>)
    ensures CACHE_NAME in r
    ensures forall p :: p in ASSETS ==> p in r[CACHE_NAME] && r[CACHE_NAME][p] == network(p)
    ensures CACHE_NAME in caches ==>
              forall p :: p in caches[CACHE_NAME] && p !in ASSETS ==>
                p in r[CACHE_NAME] && r[CACHE_NAME][p] == caches[CACHE_NAME][p]
    ensures r[CACHE_NAME].Keys == (if CACHE_NAME in caches then caches[CACHE_NAME].Keys else {}) + set p | p in ASSETS
    ensures forall n :: n != CACHE_NAME ==> (n in r <==> n in caches)
    ensures forall n :: n in caches && n != CACHE_NAME ==> r[n] == caches[n]
  {
    var current := if CACHE_NAME in caches then caches[CACHE_NAME] else map[];
    caches[CACHE_NAME := AddAll(current, ASSETS, network)]
  }

  /** The caches left after activate: every cache whose name is not
      CACHE_NAME is gone, and the current one, if present, is untouched. */
  function AfterActivate<R>(names: seq<string>, caches: map<string, Cache<R>>): (r: map<string, Cache<R>>)
    requires KeysMatch(names, caches)
    ensures forall n :: n in r ==> n == CACHE_NAME
    ensures CACHE_NAME in caches ==> CACHE_NAME in r && r[CACHE_NAME] == caches[CACHE_NAME]
    ensures forall n :: n in r ==> n in caches && r[n] == caches[n]
  {
    caches - (set n | n in Without(names, CACHE_NAME))
  }

  /** Activating twice leaves the same caches as activating once, whatever
      order the surviving names are listed in. */
  lemma ActivateIdempotent<R>(names: seq<string>, caches: map<string, Cache<R>>, names1: seq<string>)
    requires KeysMatch(names, caches)
    requires KeysMatch(names1, AfterActivate(names, caches))
    ensures AfterActivate(names1, AfterActivate(names, caches)) == AfterActivate(names, caches)
  {
  }

  /** After install and then activate, whatever older caches there were and in
      whatever order the storage lists the survivors, every asset is found in
      the cache with the response install stored for it. */
  lemma AssetsServedAfterUpgrade<R>(names: seq<string>, caches: map<string, Cache<R>>, network: string -> R,
                                     names1: seq<string>, request: string)
    requires KeysMatch(names, AfterInstall(caches, network))
    requires KeysMatch(names1, AfterActivate(names, AfterInstall(caches, network)))
    requires request in ASSETS
    ensures Match(names1, AfterActivate(names, AfterInstall(caches, network)), request) == Some(network(request))
  {
  }

  /** Deleting every filtered key leaves exactly AfterActivate, and a storage
      listing its names without repeats then lists just CACHE_NAME or nothing. */
  lemma ActivateOutcome<R>(names0: seq<string>, caches0: map<string, Cache<R>>,
                           names: seq<string>, caches: map<string, Cache<R>>)
    requires KeysMatch(names0, caches0)
    requires Distinct(names) && KeysMatch(names, caches)
    requires caches == caches0 - set n | n in Without(names0, CACHE_NAME)
    ensures caches == AfterActivate(names0, caches0)
    ensures names == if CACHE_NAME in caches0 then [CACHE_NAME] else []
  {
    AllEqualDistinct(names, CACHE_NAME);
  }

  /** The origin's Cache Storage. */
  class CacheStorage<R> {
    /** Cache names in creation order: what caches.keys() returns. */
    var names: seq<string>
    /** Every stored cache by name. */
    var caches: map<string, Cache<R>>

    ghost predicate Valid()
      reads this
    {
      Distinct(names) && KeysMatch(names, caches)
    }

    /** The storage as the worker finds it: whatever earlier versions left. */
    constructor (names0: seq<string>, caches0: map<string, Cache<R>>)
      requires Distinct(names0) && KeysMatch(names0, caches0)
      ensures Valid() && names == names0 && caches == caches0
    {
      names := names0;
      caches := caches0;
    }

    /** caches.open(name): the cache of that name, created empty (and listed
        last) when absent. */
    method Open(name: string) returns (cache: Cache<R>)
      requires Valid()
      modifies this
      ensures Valid()
      ensures name in caches && cache == caches[name]
      ensures name in old(caches) ==> names == old(names) && caches == old(caches)
      ensures name !in old(caches) ==> names == old(names) + [name] && caches == old(caches)[name := map[]]
    {
      if name !in caches {
        names := names + [name];
        caches := caches[name := map[]];
      }
      cache := caches[name];
    }

    /** caches.delete(name): drop the cache of that name; tells whether it existed. */
    method Delete(name: string) returns (existed: bool)
      requires Valid()
      modifies this
      ensures Valid()
      ensures existed == (name in old(caches))
      ensures caches == old(caches) - {name}
      ensures names == Without(old(names), name)
    {
      existed := name in caches;
      caches := caches - {name};
      names := Without(names, name);
    }

    /** The install handler: open CACHE_NAME and add every asset to it. */
    method Install(network: string -> R)
      requires Valid()
      modifies this
      ensures Valid()
      ensures names == if CACHE_NAME in old(caches) then old(names) else old(names) + [CACHE_NAME]
      ensures caches == AfterInstall(old(caches), network)
    {
      var cache := Open(CACHE_NAME);
      caches := caches[CACHE_NAME := AddAll(cache, ASSETS, network)];
    }

    /** The activate handler: delete every cache whose name is not CACHE_NAME. */
    method Activate()
      requires Valid()
      modifies this
      ensures Valid()
      ensures caches == AfterActivate(old(names), old(caches))
      ensures names == if CACHE_NAME in old(caches) then [CACHE_NAME] else []
    {
      var keys := names;
      var stale := Without(keys, CACHE_NAME);
      var i := 0;
      while i < |stale|
        invariant 0 <= i <= |stale|
        invariant Valid()
        invariant caches == old(caches) - set n | n in stale[..i]
      {
        assert stale[..i + 1] == stale[..i] + [stale[i]];
        var _ := Delete(stale[i]);
        i := i + 1;
      }
      assert stale[..i] == stale;
      ActivateOutcome(old(names), old(caches), names, caches);
    }

    /** The fetch handler: the first cached response for the request if any
        cache holds it, otherwise the network's response. Reads the storage
        and changes nothing. */
    function Fetch(request: string, network: string -> R): (r: R)
      reads this
      ensures (forall n :: n in names && n in caches ==> request !in caches[n]) ==> r == network(request)
      ensures (exists n :: n in names && n in caches && request in caches[n]) ==>
                exists i :: 0 <= i < |names| && FirstHolder(names, caches, request, i)
                            && r == caches[names[i]][request]
    {
      match Match(names, caches, request)
      case Some(cached) => cached
      case None => network(request)
    }
  }

  /** On a hit the network is not consulted: any two networks give the same answer. */
  lemma FetchHitIgnoresNetwork<R>(s: CacheStorage<R>, request: string, net1: string -> R, net2: string -> R)
    requires exists n :: n in s.names && n in s.caches && request in s.caches[n]
    ensures s.Fetch(request, net1) == s.Fetch(request, net2)
  {
  }

  /** Once only the current cache is left, a path it holds is served from it,
      whatever the network would answer. */
  lemma FetchServesCurrentCache<R>(s: CacheStorage<R>, request: string, network: string -> R)
    requires s.Valid()
    requires forall n :: n in s.caches ==> n == CACHE_NAME
    requires CACHE_NAME in s.caches && request in s.caches[CACHE_NAME]
    ensures s.Fetch(request, network) == s.caches[CACHE_NAME][request]
  {
  }
}
