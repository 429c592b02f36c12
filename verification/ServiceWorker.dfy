/** The offline cache of the web app (public/sw.js): its handlers, with background refreshes, network
    replies and cache writes in flight. */
module ServiceWorker {
  import opened Wrappers
  import opened JsText

  const CACHE_NAME: string := "attendance-pwa-v2"

  /** A URL without its fragment, split after the origin. */
  datatype Url = Url(origin: string, path: string)

  /** A network answer: the URL it answers and its status. */
  datatype Response = Response(url: Url, status: nat, body: string)

  datatype Cache = Cache(name: string, entries: map<Url, Response>)

  predicate Includes(s: string, part: string) {
    exists i | 0 <= i <= |s| :: OccursAt(s, part, i)
  }

  predicate IsApi(u: Url) { Includes(u.origin + u.path, "/api/") }

  function StaticAssets(self: string): set<Url> {
    {Url(self, "/"), Url(self, "/index.html"), Url(self, "/manifest.json")}
  }

  // ---------- Cache storage ----------

  /** caches.match: the first cache, in creation order, that holds the URL. */
  function Match(caches: seq<Cache>, u: Url): Option<Response> {
    if caches == [] then None
    else if u in caches[0].entries then Some(caches[0].entries[u])
    else Match(caches[1..], u)
  }

  /** caches.open and cache.put: the cache is created when missing. */
  function Put(caches: seq<Cache>, name: string, u: Url, r: Response): seq<Cache> {
    if caches == [] then [Cache(name, map[u := r])]
    else if caches[0].name == name then [Cache(name, caches[0].entries[u := r])] + caches[1..]
    else [caches[0]] + Put(caches[1..], name, u, r)
  }

  function Open(caches: seq<Cache>, name: string): seq<Cache> {
    if caches == [] then [Cache(name, map[])]
    else if caches[0].name == name then caches
    else [caches[0]] + Open(caches[1..], name)
  }

  function DeleteCache(caches: seq<Cache>, name: string): seq<Cache> {
    if caches == [] then []
    else if caches[0].name == name then DeleteCache(caches[1..], name)
    else [caches[0]] + DeleteCache(caches[1..], name)
  }

  function Names(caches: seq<Cache>): set<string> {
    set c | c in caches :: c.name
  }

  function PutAll(caches: seq<Cache>, name: string, responses: seq<Response>): seq<Cache>
    decreases |responses|
  {
    if responses == [] then caches
    else PutAll(Put(caches, name, responses[0].url, responses[0]), name, responses[1..])
  }

  // ---------- The worker ----------

  /** What a page was given for a URL: a cached response, a network answer, the offline page, or 503. */
  datatype Served = Hit(u: Url, r: Response) | Network(u: Url, r: Response) | OfflinePage(r: Response) | Unavailable

  /** caches, and what is in flight: refreshes after a hit, fetches after a miss, cache writes, deletions
      of the latest activation; served is what pages were given. */
  datatype State = State(
    caches: seq<Cache>, refreshing: multiset<Url>, fetching: multiset<Url>, writing: multiset<Response>,
    deleting: set<string>, served: seq<Served>)

  /** Caches of earlier versions and nothing in flight. */
  function Start(earlier: seq<Cache>): State {
    State(earlier, multiset{}, multiset{}, multiset{}, {}, [])
  }

  datatype Event =
    | Install(responses: seq<Response>)
    | Activate
    | Deletion(name: string)
    | Fetch(verb: string, u: Url)
    | RefreshReply(r: Response)
    | RefreshFails(u: Url)
    | FetchReply(r: Response)
    | FetchFails(u: Url, acceptsHtml: bool)
    | Write(r: Response)

  /** addAll stores all answers or, if one is not ok, none; the cache is opened either way. */
  function InstallStep(self: string, s: State, responses: seq<Response>): State {
    var withCurrent := Open(s.caches, CACHE_NAME);
    if (set r | r in responses :: r.url) == StaticAssets(self) && (forall r | r in responses :: 200 <= r.status < 300)
    then s.(caches := PutAll(withCurrent, CACHE_NAME, responses))
    else s.(caches := withCurrent)
  }

  /** The fetch handler up to its first answer. */
  function FetchStep(s: State, verb: string, u: Url): State {
    if verb != "GET" || IsApi(u) then s else
    match Match(s.caches, u)
    case Some(r) => s.(served := s.served + [Hit(u, r)], refreshing := s.refreshing + multiset{u})
    case None => s.(fetching := s.fetching + multiset{u})
  }

  function RefreshReplyStep(s: State, r: Response): State {
    var s' := s.(refreshing := s.refreshing - multiset{r.url});
    if r.status == 200 then s'.(writing := s'.writing + multiset{r}) else s'
  }

  function FetchReplyStep(self: string, s: State, r: Response): State {
    var s' := s.(fetching := s.fetching - multiset{r.url}, served := s.served + [Network(r.url, r)]);
    if r.status == 200 && r.url.origin == self then s'.(writing := s'.writing + multiset{r}) else s'
  }

  function FetchFailsStep(self: string, s: State, u: Url, acceptsHtml: bool): State {
    var s' := s.(fetching := s.fetching - multiset{u});
    if !acceptsHtml then s'.(served := s.served + [Unavailable]) else
    match Match(s.caches, Url(self, "/index.html"))
    case Some(r) => s'.(served := s.served + [OfflinePage(r)])
    case None => s'
  }

  /** An event for something not in flight does not happen. */
  function Step(self: string, s: State, e: Event): State {
    match e
    case Install(responses) => InstallStep(self, s, responses)
    case Activate => s.(deleting := Names(s.caches) - {CACHE_NAME})
    case Deletion(name) =>
      if name in s.deleting then s.(caches := DeleteCache(s.caches, name), deleting := s.deleting - {name}) else s
    case Fetch(verb, u) => FetchStep(s, verb, u)
    case RefreshReply(r) => if r.url in s.refreshing then RefreshReplyStep(s, r) else s
    case RefreshFails(u) => s.(refreshing := s.refreshing - multiset{u})
    case FetchReply(r) => if r.url in s.fetching then FetchReplyStep(self, s, r) else s
    case FetchFails(u, html) => if u in s.fetching then FetchFailsStep(self, s, u, html) else s
    case Write(r) =>
      if r in s.writing
      then s.(caches := Put(s.caches, CACHE_NAME, r.url, r), writing := s.writing - multiset{r}) else s
  }

  function Reach(self: string, s: State, events: seq<Event>): State
    decreases |events|
  {
    if events == [] then s else Reach(self, Step(self, s, events[0]), events[1..])
  }

  // ---------- The invariant ----------

  /** A key this worker may store, with a successful network answer for that very key. */
  predicate GoodEntry(self: string, u: Url, r: Response) {
    u.origin == self && !IsApi(u) && r.url == u && 200 <= r.status < 300
  }

  predicate GoodCaches(self: string, caches: seq<Cache>) {
    forall c | c in caches :: forall u | u in c.entries :: GoodEntry(self, u, c.entries[u])
  }

  predicate GoodServed(self: string, e: Served) {
    match e
    case Hit(u, r) => GoodEntry(self, u, r)
    case Network(u, r) => r.url == u && !IsApi(u)
    case OfflinePage(r) => GoodEntry(self, Url(self, "/index.html"), r)
    case Unavailable => true
  }

  predicate Invariant(self: string, s: State) {
    && GoodCaches(self, s.caches)
    && (forall u | u in s.refreshing :: u.origin == self && !IsApi(u))
    && (forall u | u in s.fetching :: !IsApi(u))
    && (forall r | r in s.writing :: GoodEntry(self, r.url, r))
    && (forall e | e in s.served :: GoodServed(self, e))
    && Names(s.caches) - {CACHE_NAME} >= s.deleting
  }

  lemma {:induction false} MatchIsGood(self: string, caches: seq<Cache>, u: Url)
    requires GoodCaches(self, caches) && Match(caches, u).Some?
    ensures GoodEntry(self, u, Match(caches, u).value)
    decreases |caches|
  {
    if u !in caches[0].entries {
      MatchIsGood(self, caches[1..], u);
    } else {
      assert caches[0] in caches;
    }
  }

  lemma {:induction false} PutIsGood(self: string, caches: seq<Cache>, u: Url, r: Response)
    requires GoodCaches(self, caches) && GoodEntry(self, u, r)
    ensures GoodCaches(self, Put(caches, CACHE_NAME, u, r))
    ensures Names(Put(caches, CACHE_NAME, u, r)) == Names(caches) + {CACHE_NAME}
    decreases |caches|
  {
    if caches != [] {
      assert caches == [caches[0]] + caches[1..];
      NamesCons(caches[0], caches[1..]);
      if caches[0].name == CACHE_NAME {
        NamesCons(Cache(CACHE_NAME, caches[0].entries[u := r]), caches[1..]);
      } else {
        PutIsGood(self, caches[1..], u, r);
        NamesCons(caches[0], Put(caches[1..], CACHE_NAME, u, r));
      }
    }
  }

  lemma NamesCons(c: Cache, caches: seq<Cache>)
    ensures Names([c] + caches) == {c.name} + Names(caches)
  {
    assert forall x | x in [c] + caches :: x == c || x in caches;
    assert forall x | x in caches :: x in [c] + caches;
    assert c in [c] + caches;
  }

  lemma {:induction false} OpenIsGood(self: string, caches: seq<Cache>)
    requires GoodCaches(self, caches)
    ensures GoodCaches(self, Open(caches, CACHE_NAME))
    ensures Names(Open(caches, CACHE_NAME)) == Names(caches) + {CACHE_NAME}
    decreases |caches|
  {
    if caches != [] {
      assert caches == [caches[0]] + caches[1..];
      NamesCons(caches[0], caches[1..]);
      if caches[0].name != CACHE_NAME {
        OpenIsGood(self, caches[1..]);
        NamesCons(caches[0], Open(caches[1..], CACHE_NAME));
      }
    }
  }

  lemma {:induction false} DeleteIsGood(self: string, caches: seq<Cache>, name: string)
    requires GoodCaches(self, caches)
    ensures GoodCaches(self, DeleteCache(caches, name)) && Names(DeleteCache(caches, name)) == Names(caches) - {name}
    decreases |caches|
  {
    if caches != [] {
      assert caches == [caches[0]] + caches[1..];
      NamesCons(caches[0], caches[1..]);
      DeleteIsGood(self, caches[1..], name);
      if caches[0].name != name {
        NamesCons(caches[0], DeleteCache(caches[1..], name));
      }
    }
  }

  lemma {:induction false} PutAllIsGood(self: string, caches: seq<Cache>, responses: seq<Response>)
    requires GoodCaches(self, caches) && forall r | r in responses :: GoodEntry(self, r.url, r)
    ensures GoodCaches(self, PutAll(caches, CACHE_NAME, responses))
    ensures Names(caches) <= Names(PutAll(caches, CACHE_NAME, responses)) <= Names(caches) + {CACHE_NAME}
    decreases |responses|
  {
    if responses != [] {
      var r := responses[0];
      PutIsGood(self, caches, r.url, r);
      PutAllIsGood(self, Put(caches, CACHE_NAME, r.url, r), responses[1..]);
    }
  }

  /** The worker's own origin keeps its static assets apart from the API. */
  predicate PlainOrigin(self: string) {
    forall u | u in StaticAssets(self) :: !IsApi(u)
  }

  lemma InstallKeeps(self: string, s: State, responses: seq<Response>)
    requires PlainOrigin(self) && Invariant(self, s)
    ensures Invariant(self, InstallStep(self, s, responses))
    ensures Names(InstallStep(self, s, responses).caches) <= Names(s.caches) + {CACHE_NAME}
  {
    OpenIsGood(self, s.caches);
    if (set r | r in responses :: r.url) == StaticAssets(self) && (forall r | r in responses :: 200 <= r.status < 300) {
      forall r | r in responses ensures GoodEntry(self, r.url, r) {
        assert r.url in StaticAssets(self);
      }
      PutAllIsGood(self, Open(s.caches, CACHE_NAME), responses);
    }
  }

  lemma FetchKeeps(self: string, s: State, verb: string, u: Url)
    requires Invariant(self, s)
    ensures Invariant(self, FetchStep(s, verb, u)) && FetchStep(s, verb, u).caches == s.caches
  {
    if Match(s.caches, u).Some? {
      MatchIsGood(self, s.caches, u);
    }
  }

  lemma RefreshReplyKeeps(self: string, s: State, r: Response)
    requires Invariant(self, s) && r.url in s.refreshing
    ensures Invariant(self, RefreshReplyStep(s, r))
  {
  }

  lemma FetchReplyKeeps(self: string, s: State, r: Response)
    requires Invariant(self, s) && r.url in s.fetching
    ensures Invariant(self, FetchReplyStep(self, s, r))
  {
    var s' := FetchReplyStep(self, s, r);
    assert forall e | e in s'.served :: e in s.served || e == Network(r.url, r);
    assert forall x | x in s'.writing :: x in s.writing || (x == r && r.status == 200 && r.url.origin == self);
  }

  lemma FailureKeeps(self: string, s: State, u: Url, acceptsHtml: bool)
    requires Invariant(self, s)
    ensures Invariant(self, FetchFailsStep(self, s, u, acceptsHtml)) && FetchFailsStep(self, s, u, acceptsHtml).caches == s.caches
  {
    if Match(s.caches, Url(self, "/index.html")).Some? {
      MatchIsGood(self, s.caches, Url(self, "/index.html"));
    }
  }

  /** Changing only the storage. */
  lemma StorageKeeps(self: string, s: State, caches: seq<Cache>, deleting: set<string>, writing: multiset<Response>)
    requires Invariant(self, s) && GoodCaches(self, caches) && writing <= s.writing
    requires deleting <= Names(caches) - {CACHE_NAME}
    ensures Invariant(self, s.(caches := caches, deleting := deleting, writing := writing))
  {
  }

  lemma DeletionKeeps(self: string, s: State, name: string)
    requires Invariant(self, s) && name in s.deleting
    ensures Invariant(self, Step(self, s, Deletion(name))) && Names(Step(self, s, Deletion(name)).caches) <= Names(s.caches)
  {
    DeleteIsGood(self, s.caches, name);
    StorageKeeps(self, s, DeleteCache(s.caches, name), s.deleting - {name}, s.writing);
  }

  lemma WriteKeeps(self: string, s: State, r: Response)
    requires Invariant(self, s) && r in s.writing
    ensures Invariant(self, Step(self, s, Write(r))) && Names(Step(self, s, Write(r)).caches) <= Names(s.caches) + {CACHE_NAME}
  {
    PutIsGood(self, s.caches, r.url, r);
    StorageKeeps(self, s, Put(s.caches, CACHE_NAME, r.url, r), s.deleting, s.writing - multiset{r});
  }

  lemma StepKeeps(self: string, s: State, e: Event)
    requires PlainOrigin(self) && Invariant(self, s)
    ensures Invariant(self, Step(self, s, e))
    ensures Names(Step(self, s, e).caches) <= Names(s.caches) + {CACHE_NAME}
  {
    match e
    case Install(responses) => InstallKeeps(self, s, responses);
    case Activate =>
    case Deletion(name) => if name in s.deleting { DeletionKeeps(self, s, name); }
    case Fetch(verb, u) => FetchKeeps(self, s, verb, u);
    case RefreshReply(r) => if r.url in s.refreshing { RefreshReplyKeeps(self, s, r); }
    case RefreshFails(u) =>
    case FetchReply(r) => if r.url in s.fetching { FetchReplyKeeps(self, s, r); }
    case FetchFails(u, html) => if u in s.fetching { FailureKeeps(self, s, u, html); }
    case Write(r) => if r in s.writing { WriteKeeps(self, s, r); }
  }

  lemma {:induction false} ReachKeeps(self: string, s: State, events: seq<Event>)
    requires PlainOrigin(self) && Invariant(self, s)
    ensures Invariant(self, Reach(self, s, events))
    ensures Names(Reach(self, s, events).caches) <= Names(s.caches) + {CACHE_NAME}
    decreases |events|
  {
    if events != [] {
      StepKeeps(self, s, events[0]);
      ReachKeeps(self, Step(self, s, events[0]), events[1..]);
    }
  }

  /** Starting from caches of earlier versions that obey the same rule, with nothing in flight: after any
      interleaving every stored entry and everything served from the cache is a successful network
      answer for its own same-origin, non-API key. */
  lemma CacheIsSound(self: string, earlier: seq<Cache>, events: seq<Event>)
    requires PlainOrigin(self) && GoodCaches(self, earlier)
    ensures var s := Reach(self, Start(earlier), events);
            && GoodCaches(self, s.caches)
            && (forall e | e in s.served :: GoodServed(self, e))
  {
    ReachKeeps(self, Start(earlier), events);
  }

  /** Caches a pending activation has not deleted yet, and the current one, are all there is. */
  predicate OnlyPending(s: State) {
    Names(s.caches) <= s.deleting + {CACHE_NAME}
  }

  lemma {:induction false} PendingShrinks(self: string, s: State, events: seq<Event>)
    requires PlainOrigin(self) && Invariant(self, s) && OnlyPending(s)
    ensures OnlyPending(Reach(self, s, events))
    decreases |events|
  {
    if events != [] {
      StepKeeps(self, s, events[0]);
      if events[0].Deletion? {
        DeleteIsGood(self, s.caches, events[0].name);
      }
      PendingShrinks(self, Step(self, s, events[0]), events[1..]);
    }
  }

  /** After an activation whose deletions are done, whatever else ran meanwhile, only the current cache
      can be left. */
  lemma ActivationLeavesCurrent(self: string, s: State, events: seq<Event>)
    requires PlainOrigin(self) && Invariant(self, s)
    requires Reach(self, Step(self, s, Activate), events).deleting == {}
    ensures Names(Reach(self, Step(self, s, Activate), events).caches) <= {CACHE_NAME}
  {
    StepKeeps(self, s, Activate);
    PendingShrinks(self, Step(self, s, Activate), events);
  }

  lemma {:induction false} ReachOne(self: string, s: State, events: seq<Event>, e: Event)
    ensures Reach(self, s, events + [e]) == Step(self, Reach(self, s, events), e)
    decreases |events|
  {
    if events == [] {
      assert [e][1..] == [];
    } else {
      assert (events + [e])[0] == events[0] && (events + [e])[1..] == events[1..] + [e];
      ReachOne(self, Step(self, s, events[0]), events[1..], e);
    }
  }

  // ---------- What is stored ----------

  /** The entry of the first cache of that name. */
  function Stored(caches: seq<Cache>, name: string, u: Url): Option<Response> {
    if caches == [] then None
    else if caches[0].name == name then (if u in caches[0].entries then Some(caches[0].entries[u]) else None)
    else Stored(caches[1..], name, u)
  }

  /** Putting an entry stores it under its key, and changes no other key and no other cache. */
  lemma {:induction false} PutStores(caches: seq<Cache>, name: string, u: Url, r: Response, other: string, v: Url)
    ensures Stored(Put(caches, name, u, r), name, u) == Some(r)
    ensures (other, v) != (name, u) ==> Stored(Put(caches, name, u, r), other, v) == Stored(caches, other, v)
    decreases |caches|
  {
    if caches != [] && caches[0].name != name {
      PutStores(caches[1..], name, u, r, other, v);
    }
  }

  /** Deleting a cache drops its entries, and no other. */
  lemma {:induction false} DeleteDrops(caches: seq<Cache>, name: string, other: string, v: Url)
    ensures Stored(DeleteCache(caches, name), name, v).None?
    ensures other != name ==> Stored(DeleteCache(caches, name), other, v) == Stored(caches, other, v)
    decreases |caches|
  {
    if caches != [] {
      DeleteDrops(caches[1..], name, other, v);
    }
  }

  lemma {:induction false} OpenStoresNothing(caches: seq<Cache>, name: string, other: string, v: Url)
    ensures Stored(Open(caches, name), other, v) == Stored(caches, other, v)
    decreases |caches|
  {
    if caches != [] && caches[0].name != name {
      OpenStoresNothing(caches[1..], name, other, v);
    }
  }

  lemma {:induction false} PutAllStores(caches: seq<Cache>, name: string, responses: seq<Response>, other: string, v: Url)
    ensures other != name || (forall r | r in responses :: r.url != v) ==>
              Stored(PutAll(caches, name, responses), other, v) == Stored(caches, other, v)
    ensures (exists r :: r in responses && r.url == v) ==>
              exists r :: r in responses && r.url == v && Stored(PutAll(caches, name, responses), name, v) == Some(r)
    decreases |responses|
  {
    if responses != [] {
      var first, rest := responses[0], responses[1..];
      var caches' := Put(caches, name, first.url, first);
      PutStores(caches, name, first.url, first, other, v);
      PutAllStores(caches', name, rest, other, v);
      PutAllStores(caches', name, rest, name, v);
      assert forall r | r in rest :: r in responses;
      if exists r :: r in responses && r.url == v {
        if r :| r in rest && r.url == v {
        } else {
          assert first in responses && first.url == v;
        }
      }
    }
  }

  lemma {:induction false} OpenNames(caches: seq<Cache>)
    ensures CACHE_NAME in Names(Open(caches, CACHE_NAME))
    decreases |caches|
  {
    if caches == [] {
      NamesCons(Cache(CACHE_NAME, map[]), []);
      assert [Cache(CACHE_NAME, map[])] + [] == Open(caches, CACHE_NAME);
    } else {
      assert caches == [caches[0]] + caches[1..];
      if caches[0].name == CACHE_NAME {
        NamesCons(caches[0], caches[1..]);
      } else {
        OpenNames(caches[1..]);
        NamesCons(caches[0], Open(caches[1..], CACHE_NAME));
      }
    }
  }

  lemma {:induction false} PutKeepsNames(caches: seq<Cache>, name: string, u: Url, r: Response)
    ensures Names(caches) <= Names(Put(caches, name, u, r))
    decreases |caches|
  {
    if caches != [] {
      assert caches == [caches[0]] + caches[1..];
      NamesCons(caches[0], caches[1..]);
      if caches[0].name == name {
        NamesCons(Cache(name, caches[0].entries[u := r]), caches[1..]);
      } else {
        PutKeepsNames(caches[1..], name, u, r);
        NamesCons(caches[0], Put(caches[1..], name, u, r));
      }
    }
  }

  lemma {:induction false} PutAllNames(caches: seq<Cache>, responses: seq<Response>)
    ensures Names(caches) <= Names(PutAll(caches, CACHE_NAME, responses))
    decreases |responses|
  {
    if responses != [] {
      PutKeepsNames(caches, CACHE_NAME, responses[0].url, responses[0]);
      PutAllNames(Put(caches, CACHE_NAME, responses[0].url, responses[0]), responses[1..]);
    }
  }

  /** A pending write stores its answer in the current cache under its own key, and nothing else changes. */
  lemma WriteStores(self: string, s: State, r: Response, name: string, v: Url)
    requires r in s.writing
    ensures var s' := Step(self, s, Write(r));
            s' == s.(caches := s'.caches, writing := s.writing - multiset{r})
    ensures Stored(Step(self, s, Write(r)).caches, CACHE_NAME, r.url) == Some(r)
    ensures (name, v) != (CACHE_NAME, r.url) ==> Stored(Step(self, s, Write(r)).caches, name, v) == Stored(s.caches, name, v)
  {
    PutStores(s.caches, CACHE_NAME, r.url, r, name, v);
  }

  /** A failed refresh ends, and changes nothing else. */
  lemma FailedRefreshEnds(self: string, s: State, u: Url)
    ensures Step(self, s, RefreshFails(u)) == s.(refreshing := s.refreshing - multiset{u})
  {
  }

  /** A due deletion removes that cache with all its entries, and nothing else. */
  lemma DeletionDrops(self: string, s: State, name: string, other: string, v: Url)
    requires name in s.deleting
    ensures var s' := Step(self, s, Deletion(name));
            && s' == s.(caches := s'.caches, deleting := s.deleting - {name})
            && Stored(s'.caches, name, v).None?
            && (other != name ==> Stored(s'.caches, other, v) == Stored(s.caches, other, v))
  {
    DeleteDrops(s.caches, name, other, v);
  }

  /** A URL is the API's when the path segment occurs anywhere in it. */
  lemma ApiUrls(u: Url)
    ensures IsApi(u) <==> exists before: string, after: string :: u.origin + u.path == before + "/api/" + after
  {
    var s := u.origin + u.path;
    if IsApi(u) {
      var i :| 0 <= i <= |s| && OccursAt(s, "/api/", i);
      assert s == s[..i] + "/api/" + s[i + 5..];
    }
    if before: string, after: string :| s == before + "/api/" + after {
      assert OccursAt(s, "/api/", |before|);
    }
  }

  /** Installing with good answers for the start page, its file and the manifest stores all three in the
      current cache; with a bad one, or without one of them, it stores nothing; the current cache is there
      either way. */
  lemma InstallStoresAssets(self: string, s: State, responses: seq<Response>, name: string, v: Url)
    ensures var s' := Step(self, s, Install(responses));
            if (set r | r in responses :: r.url) == {Url(self, "/"), Url(self, "/index.html"), Url(self, "/manifest.json")}
               && (forall r | r in responses :: 200 <= r.status < 300)
            then
              if name == CACHE_NAME && v in StaticAssets(self)
              then exists r :: r in responses && r.url == v && Stored(s'.caches, CACHE_NAME, v) == Some(r)
              else Stored(s'.caches, name, v) == Stored(s.caches, name, v)
            else Stored(s'.caches, name, v) == Stored(s.caches, name, v)
    ensures var s' := Step(self, s, Install(responses));
            s' == s.(caches := s'.caches) && CACHE_NAME in Names(s'.caches)
  {
    OpenNames(s.caches);
    PutAllNames(Open(s.caches, CACHE_NAME), responses);
    var urls := set r | r in responses :: r.url;
    OpenStoresNothing(s.caches, CACHE_NAME, name, v);
    PutAllStores(Open(s.caches, CACHE_NAME), CACHE_NAME, responses, name, v);
    assert forall r | r in responses :: r.url in urls;
    assert v in urls ==> exists r :: r in responses && r.url == v;
  }

  lemma NoApiInFlight(self: string, earlier: seq<Cache>, events: seq<Event>, u: Url)
    requires PlainOrigin(self) && GoodCaches(self, earlier) && u in Reach(self, Start(earlier), events).fetching
    ensures !IsApi(u)
  {
    ReachKeeps(self, Start(earlier), events);
  }

  // ---------- The handlers ----------

  /** The handlers, changing the storage and the work in flight. */
  class Worker {
    const origin: string
    const earlier: seq<Cache>
    var s: State
    ghost var run: seq<Event>

    /** The state is one some run of the worker reaches. */
    ghost predicate Valid()
      reads this
    {
      && PlainOrigin(origin) && GoodCaches(origin, earlier)
      && s == Reach(origin, Start(earlier), run)
    }

    constructor (origin: string, earlier: seq<Cache>)
      requires PlainOrigin(origin) && GoodCaches(origin, earlier)
      ensures this.origin == origin && this.earlier == earlier && Valid() && run == [] && s == Start(earlier)
    {
      this.origin, this.earlier := origin, earlier;
      s := State(earlier, multiset{}, multiset{}, multiset{}, {}, []);
      run := [];
    }

    ghost method Happened(e: Event)
      requires PlainOrigin(origin) && GoodCaches(origin, earlier)
      requires s == Step(origin, Reach(origin, Start(earlier), run), e)
      modifies this`run
      ensures Valid() && run == old(run) + [e]
    {
      ReachOne(origin, Start(earlier), run, e);
      run := run + [e];
    }

    /** Schedules the deletion of every cache but the current one, and touches nothing else. */
    method OnActivate()
      requires Valid()
      modifies this`s, this`run
      ensures Valid() && run == old(run) + [Activate]
      ensures s == old(s).(deleting := s.deleting) && s.deleting == Names(old(s.caches)) - {CACHE_NAME}
      ensures OnlyPending(s)
    {
      var keys: set<string> := {};
      for i := 0 to |s.caches|
        invariant s == old(s) && run == old(run) && keys == Names(s.caches[..i]) - {CACHE_NAME}
      {
        assert s.caches[..i + 1] == s.caches[..i] + [s.caches[i]];
        assert Names(s.caches[..i + 1]) == Names(s.caches[..i]) + {s.caches[i].name};
        if s.caches[i].name != CACHE_NAME {
          keys := keys + {s.caches[i].name};
        }
      }
      assert s.caches[..|s.caches|] == s.caches;
      s := s.(deleting := keys);
      Happened(Activate);
    }

    /** Answers from the storage with an entry that belongs to the request, or leaves the answer to the
        network; the storage itself is not changed. */
    method OnFetch(verb: string, u: Url)
      requires Valid()
      modifies this`s, this`run
      ensures Valid() && run == old(run) + [Fetch(verb, u)]
      ensures s.caches == old(s.caches) && s.writing == old(s.writing) && s.deleting == old(s.deleting)
      ensures verb != "GET" || IsApi(u) ==> s == old(s)
      ensures verb == "GET" && !IsApi(u) ==>
                if Match(old(s.caches), u).Some?
                then var r := Match(old(s.caches), u).value;
                     && s.served == old(s.served) + [Hit(u, r)] && GoodEntry(origin, u, r)
                     && s.refreshing == old(s.refreshing) + multiset{u} && s.fetching == old(s.fetching)
                else s.served == old(s.served) && s.fetching == old(s.fetching) + multiset{u} && s.refreshing == old(s.refreshing)
    {
      if verb != "GET" || IsApi(u) {
        Happened(Fetch(verb, u));
        return;
      }
      ReachKeeps(origin, Start(earlier), run);
      var cached := Match(s.caches, u);
      if cached.Some? {
        MatchIsGood(origin, s.caches, u);
        s := s.(refreshing := s.refreshing + multiset{u});
        s := s.(served := s.served + [Hit(u, cached.value)]);
      } else {
        s := s.(fetching := s.fetching + multiset{u});
      }
      Happened(Fetch(verb, u));
    }

    /** Passes the network's answer on, and prepares to store only one that is good for its key. */
    method OnFetchReply(r: Response)
      requires Valid() && r.url in s.fetching
      modifies this`s, this`run
      ensures Valid() && run == old(run) + [FetchReply(r)]
      ensures s.caches == old(s.caches) && s.refreshing == old(s.refreshing) && s.deleting == old(s.deleting)
      ensures s.served == old(s.served) + [Network(r.url, r)] && s.fetching == old(s.fetching) - multiset{r.url}
      ensures s.writing == old(s.writing) + if r.status == 200 && r.url.origin == origin then multiset{r} else multiset{}
      ensures s.writing != old(s.writing) ==> GoodEntry(origin, r.url, r)
    {
      NoApiInFlight(origin, earlier, run, r.url);
      s := s.(fetching := s.fetching - multiset{r.url});
      if r.status == 200 && r.url.origin == origin {
        s := s.(writing := s.writing + multiset{r});
      }
      s := s.(served := s.served + [Network(r.url, r)]);
      Happened(FetchReply(r));
    }

    /** A failed fetch of a page gets the cached start page, if there is one; anything else gets 503. */
    method OnFetchFails(u: Url, acceptsHtml: bool)
      requires Valid() && u in s.fetching
      modifies this`s, this`run
      ensures Valid() && run == old(run) + [FetchFails(u, acceptsHtml)]
      ensures var page := Match(old(s.caches), Url(origin, "/index.html"));
              var left := old(s).(fetching := old(s.fetching) - multiset{u});
              s == if !acceptsHtml then left.(served := left.served + [Unavailable])
                   else if page.Some? then left.(served := left.served + [OfflinePage(page.value)])
                   else left
    {
      hide PlainOrigin, GoodCaches, IsApi;
      s := s.(fetching := s.fetching - multiset{u});
      if acceptsHtml {
        var page := Match(s.caches, Url(origin, "/index.html"));
        if page.Some? {
          s := s.(served := s.served + [OfflinePage(page.value)]);
        }
      } else {
        s := s.(served := s.served + [Unavailable]);
      }
      Happened(FetchFails(u, acceptsHtml));
    }

    /** The background answer after a hit: a status 200 is prepared for storing, anything else dropped. */
    method OnRefreshReply(r: Response)
      requires Valid() && r.url in s.refreshing
      modifies this`s, this`run
      ensures Valid() && run == old(run) + [RefreshReply(r)]
      ensures s == old(s).(refreshing := old(s.refreshing) - multiset{r.url},
                           writing := old(s.writing) + if r.status == 200 then multiset{r} else multiset{})
    {
      s := s.(refreshing := s.refreshing - multiset{r.url});
      if r.status == 200 {
        s := s.(writing := s.writing + multiset{r});
      }
      Happened(RefreshReply(r));
    }
  }
}
