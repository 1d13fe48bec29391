/** The browser's Socket.IO wrapper: where the socket URL comes from, and the registry of event
    handlers that is re-applied to every new socket. */
module ClientSocket {
  import opened Wrappers
  import opened Text

  // ----- the socket URL -----

  /** `normalizeSocketUrl`: the trimmed input without its trailing slashes; an absent or blank
      input gives the empty string. Only the ends of the trimmed text are touched, so a URL like
      "a /" keeps the space left in front of the removed slash. */
  function NormalizeSocketUrl(input: Option<string>): (r: string)
    ensures input.None? ==> r == []
    ensures NoTrailingSlash(r)
  {
    var raw := Trim(OrElse(input, []));
    if raw == [] then [] else StripTrailingSlashes(raw)
  }

  predicate NoTrailingSlash(s: string)
  {
    s == [] || s[|s| - 1] != '/'
  }

  /** The normalised URL is the trimmed input up to its trailing run of slashes. */
  lemma NormalizeSocketUrlCutsSlashes(input: Option<string>)
    ensures var raw := Trim(OrElse(input, []));
            var r := NormalizeSocketUrl(input);
            && r <= raw
            && forall i :: |r| <= i < |raw| ==> raw[i] == '/'
  {
  }

  /** The URLs `normalizeSocketUrl` leaves as they are: no whitespace at either end and no
      trailing slash. */
  predicate IsNormalSocketUrl(s: string)
  {
    s == [] || (!IsSpace(s[0]) && !IsSpace(s[|s| - 1]) && s[|s| - 1] != '/')
  }

  lemma NormalSocketUrlFixedPoints(s: string)
    ensures NormalizeSocketUrl(Some(s)) == s <==> IsNormalSocketUrl(s)
  {
    if NormalizeSocketUrl(Some(s)) == s {
      FixedPointIsNormal(s);
    }
    if IsNormalSocketUrl(s) {
      NormalIsFixedPoint(s);
    }
  }

  lemma FixedPointIsNormal(s: string)
    requires NormalizeSocketUrl(Some(s)) == s
    ensures IsNormalSocketUrl(s)
  {
    var t := TrimStart(s);
    var raw := TrimEnd(t);
    assert |raw| <= |t| <= |s|;
    assert t == s && raw == s;
  }

  lemma NormalIsFixedPoint(s: string)
    requires IsNormalSocketUrl(s)
    ensures NormalizeSocketUrl(Some(s)) == s
  {
    TrimIdentity(s);
    if s != [] {
      assert StripTrailingSlashes(s) == s;
    }
  }

  /** What the page can read when it looks for a socket URL; `None` stands for a missing or
      falsy value. */
  datatype SocketUrlSources = SocketUrlSources(
    query: Option<string>,     // the `socketUrl` query parameter
    storage: Option<string>,   // the `securechat_socket_url` storage entry
    config: Option<string>,    // `window.SECURECHAT_CONFIG.SOCKET_URL`
    hostname: string,
    origin: string)

  /** The chosen URL, and what is written back to storage on the way (only a URL taken from the
      query is). */
  datatype ResolvedSocketUrl = ResolvedSocketUrl(url: string, stored: Option<string>)

  const NetlifySuffix := ".netlify.app"

  /** `resolveSocketUrl`: query, then storage, then the page's config, each normalised; a
      Netlify host has no socket server, any other host uses its own origin. */
  function ResolveSocketUrl(sources: SocketUrlSources): (r: ResolvedSocketUrl)
    ensures NoTrailingSlash(r.url)
    ensures r.stored.Some? <==> NormalizeSocketUrl(sources.query) != []
    ensures r.stored.Some? ==> r.stored.value == r.url
  {
    Precedence(NormalizeSocketUrl(sources.query), NormalizeSocketUrl(sources.storage), NormalizeSocketUrl(sources.config),
               IsNetlifyHost(sources.hostname), NormalizeSocketUrl(Some(sources.origin)))
  }

  predicate IsNetlifyHost(hostname: string)
  {
    EndsWith(hostname, NetlifySuffix)
  }

  /** The choice among the normalised sources, in the order the page tries them. */
  function Precedence(fromQuery: string, fromStorage: string, fromWindowConfig: string, netlifyHost: bool,
                      fromOrigin: string): (r: ResolvedSocketUrl)
    ensures r.stored.Some? <==> fromQuery != []
    ensures r.stored.Some? ==> r.stored.value == r.url
    ensures (NoTrailingSlash(fromQuery) && NoTrailingSlash(fromStorage) && NoTrailingSlash(fromWindowConfig)
             && NoTrailingSlash(fromOrigin)) ==> NoTrailingSlash(r.url)
  {
    if fromQuery != [] then ResolvedSocketUrl(fromQuery, Some(fromQuery))
    else if fromStorage != [] then ResolvedSocketUrl(fromStorage, None)
    else if fromWindowConfig != [] then ResolvedSocketUrl(fromWindowConfig, None)
    else if netlifyHost then ResolvedSocketUrl([], None)
    else ResolvedSocketUrl(fromOrigin, None)
  }

  /** The first non-empty string of `candidates`, or `fallback` when there is none. */
  function FirstNonEmpty(candidates: seq<string>, fallback: string): string
  {
    if candidates == [] then fallback
    else if candidates[0] != [] then candidates[0]
    else FirstNonEmpty(candidates[1..], fallback)
  }

  /** The precedence is "first source that gives a URL", with the host's default last. */
  lemma PrecedenceTakesFirst(fromQuery: string, fromStorage: string, fromWindowConfig: string, netlifyHost: bool,
                             fromOrigin: string)
    ensures Precedence(fromQuery, fromStorage, fromWindowConfig, netlifyHost, fromOrigin).url
            == FirstNonEmpty([fromQuery, fromStorage, fromWindowConfig], if netlifyHost then [] else fromOrigin)
  {
    var fallback := if netlifyHost then [] else fromOrigin;
    var c := [fromQuery, fromStorage, fromWindowConfig];
    assert c[1..] == [fromStorage, fromWindowConfig];
    assert c[1..][1..] == [fromWindowConfig];
    assert FirstNonEmpty([], fallback) == fallback;
    assert FirstNonEmpty([fromWindowConfig], fallback) == if fromWindowConfig != [] then fromWindowConfig else fallback;
    assert FirstNonEmpty(c[1..], fallback) == if fromStorage != [] then fromStorage else FirstNonEmpty([fromWindowConfig], fallback);
  }

  /** The URL chosen is the first configured source that gives one (query, storage, config),
      and the host's default only when none does. */
  lemma ResolveTakesFirstSource(sources: SocketUrlSources)
    ensures ResolveSocketUrl(sources).url
            == FirstNonEmpty([NormalizeSocketUrl(sources.query), NormalizeSocketUrl(sources.storage), NormalizeSocketUrl(sources.config)],
                             if IsNetlifyHost(sources.hostname) then [] else NormalizeSocketUrl(Some(sources.origin)))
  {
    PrecedenceTakesFirst(NormalizeSocketUrl(sources.query), NormalizeSocketUrl(sources.storage), NormalizeSocketUrl(sources.config),
                         IsNetlifyHost(sources.hostname), NormalizeSocketUrl(Some(sources.origin)));
  }

  // ----- the handler registry -----

  /** A call made on a live socket when the registry changes. */
  datatype Binding<H> = Bind(eventName: string, handler: H) | Unbind(eventName: string, handler: H)

  /** The handlers registered for an event; an event without a set has none. */
  function HandlersOf<H>(store: map<string, set<H>>, eventName: string): (r: set<H>)
    ensures eventName !in store ==> r == {}
  {
    if eventName in store then store[eventName] else {}
  }

  /** The registry never keeps an empty set. */
  predicate NoEmptySets<H>(store: map<string, set<H>>)
  {
    forall e :: e in store ==> store[e] != {}
  }

  /** The store after `addHandler`: the event's set (created if missing) holds the handler. */
  function Added<H>(store: map<string, set<H>>, eventName: string, handler: H): (r: map<string, set<H>>)
    ensures r.Keys == store.Keys + {eventName}
    ensures r[eventName] == HandlersOf(store, eventName) + {handler}
    ensures forall e :: e in store && e != eventName ==> r[e] == store[e]
  {
    store[eventName := HandlersOf(store, eventName) + {handler}]
  }

  /** The store after `removeHandler`: the handler leaves the event's set, and an emptied set
      takes its event key with it; a missing event is left alone. */
  function Removed<H>(store: map<string, set<H>>, eventName: string, handler: H): (r: map<string, set<H>>)
    ensures eventName !in store ==> r == store
    ensures eventName in store && store[eventName] - {handler} == {} ==> r.Keys == store.Keys - {eventName}
    ensures eventName in store && store[eventName] - {handler} != {} ==>
              r.Keys == store.Keys && r[eventName] == store[eventName] - {handler}
    ensures forall e :: e in r && e != eventName ==> e in store && r[e] == store[e]
    ensures forall e :: e in store && e != eventName ==> e in r
  {
    if eventName !in store then store
    else
      var rest := store[eventName] - {handler};
      if rest == {} then store - {eventName} else store[eventName := rest]
  }

  /** Registering a handler that is already registered changes nothing. */
  lemma AddIsIdempotent<H>(store: map<string, set<H>>, eventName: string, handler: H)
    requires handler in HandlersOf(store, eventName)
    ensures Added(store, eventName, handler) == store
  {
    assert HandlersOf(store, eventName) + {handler} == store[eventName];
  }

  /** Adding and removing keep the registry free of empty sets. */
  lemma UpdatesKeepNoEmptySets<H>(store: map<string, set<H>>, eventName: string, handler: H)
    requires NoEmptySets(store)
    ensures NoEmptySets(Added(store, eventName, handler))
    ensures NoEmptySets(Removed(store, eventName, handler))
  {
  }

  /** Removing a handler that was just registered for the first time restores the registry. */
  lemma RemoveUndoesAdd<H>(store: map<string, set<H>>, eventName: string, handler: H)
    requires NoEmptySets(store)
    requires handler !in HandlersOf(store, eventName)
    ensures Removed(Added(store, eventName, handler), eventName, handler) == store
  {
    var added := Added(store, eventName, handler);
    assert added[eventName] - {handler} == HandlersOf(store, eventName);
    if eventName in store {
      assert store[eventName] != {};
    }
  }

  /** The registries of `on`/`off` and `onManager`/`offManager`, with the live socket's state.
      `calls` records the binder and unbinder calls made on the live socket. */
  class HandlerStore<H(==)> {
    var handlers: map<string, set<H>>
    var connected: bool
    var calls: seq<Binding<H>>

    ghost predicate Valid()
      reads this
    {
      NoEmptySets(handlers)
    }

    constructor ()
      ensures Valid()
      ensures handlers == map[] && !connected && calls == []
    {
      handlers := map[];
      connected := false;
      calls := [];
    }

    /** `addHandler`: a handler is registered once per event; a new registration is bound to
        the live socket if there is one. */
    method AddHandler(eventName: string, handler: H)
      requires Valid()
      modifies this
      ensures Valid()
      ensures handlers == Added(old(handlers), eventName, handler)
      ensures connected == old(connected)
      ensures calls == old(calls) + (if connected && handler !in HandlersOf(old(handlers), eventName)
                                     then [Bind(eventName, handler)] else [])
    {
      UpdatesKeepNoEmptySets(handlers, eventName, handler);
      if handler in HandlersOf(handlers, eventName) {
        AddIsIdempotent(handlers, eventName, handler);
      } else {
        handlers := Added(handlers, eventName, handler);
        if connected {
          calls := calls + [Bind(eventName, handler)];
        }
      }
    }

    /** `removeHandler`: nothing happens for an event without handlers; otherwise the handler
        is removed, an emptied set is dropped, and the live socket is told to unbind it (even
        when it was not registered). */
    method RemoveHandler(eventName: string, handler: H)
      requires Valid()
      modifies this
      ensures Valid()
      ensures handlers == Removed(old(handlers), eventName, handler)
      ensures connected == old(connected)
      ensures calls == old(calls) + (if connected && eventName in old(handlers)
                                     then [Unbind(eventName, handler)] else [])
    {
      UpdatesKeepNoEmptySets(handlers, eventName, handler);
      if eventName in handlers {
        handlers := Removed(handlers, eventName, handler);
        if connected {
          calls := calls + [Unbind(eventName, handler)];
        }
      }
    }
  }
}
