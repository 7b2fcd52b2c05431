// The HTTP inbound provider's routing of app-channel requests, and the subscription routes it advertises: posting to
// an advertised path must reach the right pub/sub callback with the right rule path.
module PubsubRoutes {
  import opened Common
  import opened ActorRoutes

  const PUBSUB_ROUTE := "/__dapr_wasm_components/pubsub"
  const PUBSUB_BULK_ROUTE := "/__dapr_wasm_components/pubsub-bulk"

  // --- advertising -----------------------------------------------------------------

  datatype Rule = Rule(condition: string, path: string)

  datatype TopicRoutes = TopicRoutes(rules: seq<Rule>, default: Option<string>)

  datatype BulkConfig = BulkConfig(enabled: bool, maxMessages: Option<nat>, maxAwaitMs: Option<nat>)

  datatype Subscription = Subscription(
    pubsubName: string,
    topic: string,
    routes: Option<TopicRoutes>,
    bulk: Option<BulkConfig>,
    deadLetterTopic: Option<string>,
    metadata: seq<(string, string)>)

  /** The `route` or `routes` member of an advertised entry; every path is a URL path of the app channel. */
  datatype Advertised = Route(url: string) | Routes(rules: seq<Rule>, default: Option<string>)

  datatype Entry = Entry(
    pubsubName: string,
    topic: string,
    advertised: Advertised,
    bulk: Option<BulkConfig>,
    deadLetterTopic: Option<string>,
    metadata: seq<(string, string)>)

  function TrimSlashes(path: string): (t: string)
    ensures t == "" || t[0] != '/'
  {
    if path != "" && path[0] == '/' then TrimSlashes(path[1..]) else path
  }

  /** `routed_path`. */
  function RoutedPath(base: string, path: string): string {
    base + "/" + TrimSlashes(path)
  }

  predicate IsBulk(s: Subscription) {
    s.bulk.Some? && s.bulk.value.enabled
  }

  function BaseRoute(s: Subscription): string {
    if IsBulk(s) then PUBSUB_BULK_ROUTE else PUBSUB_ROUTE
  }

  function RoutedRules(base: string, rules: seq<Rule>): (r: seq<Rule>)
    ensures |r| == |rules|
    ensures forall i | 0 <= i < |r| :: r[i] == Rule(rules[i].condition, RoutedPath(base, rules[i].path))
  {
    if rules == [] then []
    else [Rule(rules[0].condition, RoutedPath(base, rules[0].path))] + RoutedRules(base, rules[1..])
  }

  /** `routes_json`. */
  function AdvertisedRoutes(base: string, routes: TopicRoutes): Advertised {
    Routes(RoutedRules(base, routes.rules),
           if routes.default.Some? then Some(RoutedPath(base, routes.default.value)) else None)
  }

  function AdvertisedEntry(s: Subscription): Entry {
    var base := BaseRoute(s);
    Entry(s.pubsubName, s.topic,
          if s.routes.None? then Route(base) else AdvertisedRoutes(base, s.routes.value),
          s.bulk, s.deadLetterTopic, s.metadata)
  }

  /** `subscribe_response`: one entry per subscription. */
  function SubscribeResponse(subscriptions: seq<Subscription>): (entries: seq<Entry>)
    ensures |entries| == |subscriptions|
    ensures forall i | 0 <= i < |entries| :: entries[i] == AdvertisedEntry(subscriptions[i])
  {
    if subscriptions == [] then [] else [AdvertisedEntry(subscriptions[0])] + SubscribeResponse(subscriptions[1..])
  }

  // --- routing --------------------------------------------------------------------------

  /** Which callback a request reaches; `Invocation` is the fallback. */
  datatype Target =
    | HealthCheck
    | ListSubscriptions
    | GetActorConfig
    | BindingCheck(name: string)
    | BulkTopicEvent(rulePath: Option<string>)
    | TopicEvent(rulePath: Option<string>)
    | JobEvent(name: string)
    | ConfigurationEvent(store: string)
    | Actor(callback: Callback)
    | BindingEvent(name: string)
    | Invocation

  /** The rule path of a delivery under `base`: `None` when the path is not under it. */
  function Under(base: string, path: string, decode: string -> string): Option<Option<string>> {
    match CutPrefix(path, base)
    case None => None
    case Some(rest) =>
      if rest == "" then Some(None)
      else if rest[0] == '/' then Some(Some(decode(rest)))
      else None
  }

  /** `route`: the first match wins. */
  function RouteRequest(verb: Verb, path: string, bindings: set<string>, decode: string -> string): Target {
    if verb == Get && path == "/healthz" then HealthCheck
    else if verb == Get && path == "/dapr/subscribe" then ListSubscriptions
    else if verb == Get && path == "/dapr/config" then GetActorConfig
    else if verb == Verb.Options && TrimSlashes(path) in bindings then BindingCheck(TrimSlashes(path))
    else if verb == Post && Under(PUBSUB_BULK_ROUTE, path, decode).Some? then
      BulkTopicEvent(Under(PUBSUB_BULK_ROUTE, path, decode).value)
    else if verb == Post && Under(PUBSUB_ROUTE, path, decode).Some? then
      TopicEvent(Under(PUBSUB_ROUTE, path, decode).value)
    else RouteOther(verb, path, bindings, decode)
  }

  function RouteOther(verb: Verb, path: string, bindings: set<string>, decode: string -> string): Target {
    if verb == Post && CutPrefix(path, "/job/").Some? then JobEvent(decode(CutPrefix(path, "/job/").value))
    else if verb == Post && CutPrefix(path, "/configuration/").Some?
      && FirstSegment(CutPrefix(path, "/configuration/").value) != "" then
      ConfigurationEvent(decode(FirstSegment(CutPrefix(path, "/configuration/").value)))
    else if CutPrefix(path, "/actors/").Some?
      && RustRoute(verb, CutPrefix(path, "/actors/").value, decode).Some? then
      Actor(RustRoute(verb, CutPrefix(path, "/actors/").value, decode).value)
    else if verb == Post && TrimSlashes(path) in bindings then BindingEvent(TrimSlashes(path))
    else Invocation
  }

  // --- advertised paths reach their callback ------------------------------------------------

  /** The delivery a subscription asks for: the bulk callback exactly when bulk is configured and enabled. */
  function Expected(s: Subscription, rulePath: Option<string>): Target {
    if s.bulk.Some? && s.bulk.value.enabled then BulkTopicEvent(rulePath) else TopicEvent(rulePath)
  }

  lemma UnderJoined(base: string, rest: string, decode: string -> string)
    requires rest == "" || rest[0] == '/'
    ensures Under(base, base + rest, decode) == Some(if rest == "" then None else Some(decode(rest)))
  {
    assert (base + rest)[|base|..] == rest;
  }

  /** The bulk route continues the single route with a dash, so nothing under one is under the other. */
  lemma BasesAreDisjoint(rest: string, decode: string -> string)
    requires rest == "" || rest[0] == '/'
    ensures Under(PUBSUB_BULK_ROUTE, PUBSUB_ROUTE + rest, decode).None?
    ensures Under(PUBSUB_ROUTE, PUBSUB_BULK_ROUTE + rest, decode).None?
  {
    var n := |PUBSUB_ROUTE|;
    var single, bulk := PUBSUB_ROUTE + rest, PUBSUB_BULK_ROUTE + rest;
    assert PUBSUB_BULK_ROUTE[n] == '-';
    assert rest != "" ==> single[n] == '/';
    assert bulk[n..][0] == '-';
  }

  lemma DeliveryReaches(s: Subscription, rest: string, bindings: set<string>, decode: string -> string)
    requires rest == "" || rest[0] == '/'
    ensures RouteRequest(Post, BaseRoute(s) + rest, bindings, decode) ==
      Expected(s, if rest == "" then None else Some(decode(rest)))
  {
    UnderJoined(BaseRoute(s), rest, decode);
    BasesAreDisjoint(rest, decode);
  }

  /** The rule path a declared path comes back as. */
  function Normalized(path: string): string {
    "/" + TrimSlashes(path)
  }

  /** The path of a URL: the text before its query or fragment. */
  function UrlPath(url: string): string {
    if url == "" || url[0] == '?' || url[0] == '#' then "" else [url[0]] + UrlPath(url[1..])
  }

  predicate PathOnly(path: string) {
    '?' !in path && '#' !in path
  }

  lemma {:induction false} UrlPathAppends(front: string, back: string)
    requires PathOnly(front)
    ensures UrlPath(front + back) == front + UrlPath(back)
  {
    if front == "" {
      assert front + back == back;
    } else {
      assert (front + back)[1..] == front[1..] + back;
      UrlPathAppends(front[1..], back);
    }
  }

  lemma UrlPathOfPath(path: string)
    requires PathOnly(path)
    ensures UrlPath(path) == path
  {
    UrlPathAppends(path, "");
    assert path + "" == path;
  }

  /** Where a POST to an advertised URL goes. */
  function PostTo(url: string, bindings: set<string>, decode: string -> string): Target {
    RouteRequest(Post, UrlPath(url), bindings, decode)
  }

  /** The rule path a declared rule path is delivered with: normalized, cut at a query or fragment, decoded. */
  function Delivered(path: string, decode: string -> string): string {
    decode(UrlPath(Normalized(path)))
  }

  /** Every subscription is advertised under its own names and settings, in order. */
  lemma EntriesNameTheirSubscription(subscriptions: seq<Subscription>, i: nat)
    requires i < |subscriptions|
    ensures |SubscribeResponse(subscriptions)| == |subscriptions|
    ensures var entry, s := SubscribeResponse(subscriptions)[i], subscriptions[i];
      && entry.pubsubName == s.pubsubName && entry.topic == s.topic
      && entry.bulk == s.bulk && entry.deadLetterTopic == s.deadLetterTopic && entry.metadata == s.metadata
      && (entry.advertised.Routes? <==> s.routes.Some?)
  {
  }

  /** A post to any URL the response advertises for a subscription reaches that subscription's kind of callback,
      with the declared rule path normalized to one leading slash (and cut at a query or fragment, if it holds one),
      or with none when there are no routes, whatever else the app declares. */
  lemma AdvertisedPathsReachTheirCallback(
    subscriptions: seq<Subscription>, i: nat, bindings: set<string>, decode: string -> string)
    requires i < |subscriptions|
    ensures var s := subscriptions[i];
      match SubscribeResponse(subscriptions)[i].advertised
      case Route(url) =>
        s.routes.None? && PostTo(url, bindings, decode) == Expected(s, None)
      case Routes(rules, default) =>
        && s.routes.Some? && |rules| == |s.routes.value.rules|
        && (forall k | 0 <= k < |rules| ::
              rules[k].condition == s.routes.value.rules[k].condition &&
              PostTo(rules[k].path, bindings, decode)
                == Expected(s, Some(Delivered(s.routes.value.rules[k].path, decode))))
        && (default.Some? <==> s.routes.value.default.Some?)
        && (default.Some? ==>
              PostTo(default.value, bindings, decode)
                == Expected(s, Some(Delivered(s.routes.value.default.value, decode))))
  {
    var s := subscriptions[i];
    if s.routes.None? {
      DeliveryReaches(s, "", bindings, decode);
      BaseIsAPath(s);
      UrlPathOfPath(BaseRoute(s));
      assert BaseRoute(s) + "" == BaseRoute(s);
    } else {
      var routes := s.routes.value;
      forall k | 0 <= k < |routes.rules|
        ensures PostTo(RoutedPath(BaseRoute(s), routes.rules[k].path), bindings, decode)
          == Expected(s, Some(Delivered(routes.rules[k].path, decode)))
      {
        PostedPathReaches(s, routes.rules[k].path, bindings, decode);
      }
      if routes.default.Some? {
        PostedPathReaches(s, routes.default.value, bindings, decode);
      }
    }
  }

  /** Trimming takes away all leading slashes and nothing else. */
  lemma {:induction false} TrimTakesTheSlashes(path: string)
    ensures var t := TrimSlashes(path); var n := |path| - |t|;
      && 0 <= n && path[n..] == t && (forall i | 0 <= i < n :: path[i] == '/')
      && (t == "" || t[0] != '/')
  {
    if path != "" && path[0] == '/' {
      TrimTakesTheSlashes(path[1..]);
      var t := TrimSlashes(path[1..]);
      assert path[1..][|path[1..]| - |t|..] == path[|path| - |t|..];
    }
  }

  lemma BaseIsAPath(s: Subscription)
    ensures PathOnly(BaseRoute(s))
  {
  }

  lemma RoutedPathReaches(s: Subscription, path: string, bindings: set<string>, decode: string -> string)
    ensures RouteRequest(Post, RoutedPath(BaseRoute(s), path), bindings, decode)
      == Expected(s, Some(decode(Normalized(path))))
  {
    assert RoutedPath(BaseRoute(s), path) == BaseRoute(s) + Normalized(path);
    DeliveryReaches(s, Normalized(path), bindings, decode);
  }

  lemma PostedPathReaches(s: Subscription, path: string, bindings: set<string>, decode: string -> string)
    ensures PostTo(RoutedPath(BaseRoute(s), path), bindings, decode) == Expected(s, Some(Delivered(path, decode)))
  {
    assert RoutedPath(BaseRoute(s), path) == BaseRoute(s) + Normalized(path);
    BaseIsAPath(s);
    UrlPathAppends(BaseRoute(s), Normalized(path));
    DeliveryReaches(s, UrlPath(Normalized(path)), bindings, decode);
  }

  /** The app sees the rule path it declared exactly when delivery leaves it alone, which for a path without query,
      fragment and percent-encoding means that it has exactly one leading slash. */
  lemma RulePathComesBackExactlyWhen(
    s: Subscription, path: string, bindings: set<string>, decode: string -> string)
    ensures PostTo(RoutedPath(BaseRoute(s), path), bindings, decode) == Expected(s, Some(path))
      <==> Delivered(path, decode) == path
    ensures PathOnly(path) && decode(Normalized(path)) == Normalized(path) ==>
      (Delivered(path, decode) == path <==> path != "" && path[0] == '/' && (|path| == 1 || path[1] != '/'))
  {
    PostedPathReaches(s, path, bindings, decode);
    NormalizedIsItself(path);
    if PathOnly(path) {
      NormalizedIsAPath(path);
      UrlPathOfPath(Normalized(path));
    }
  }

  lemma NormalizedIsItself(path: string)
    ensures Normalized(path) == path <==> path != "" && path[0] == '/' && (|path| == 1 || path[1] != '/')
  {
    var normalized := Normalized(path);
    assert normalized[0] == '/' && normalized[1..] == TrimSlashes(path);
    if path != "" && path[0] == '/' && (|path| == 1 || path[1] != '/') {
      assert TrimSlashes(path) == TrimSlashes(path[1..]) == path[1..];
    }
  }

  lemma {:induction false} NormalizedIsAPath(path: string)
    requires PathOnly(path)
    ensures PathOnly(Normalized(path))
  {
    if path != "" && path[0] == '/' {
      NormalizedIsAPath(path[1..]);
    }
  }

  /** Only a post to one of the two routes, or below it, reaches a pub/sub callback. */
  lemma OnlyPubsubPathsReachPubsub(verb: Verb, path: string, bindings: set<string>, decode: string -> string)
    ensures var t := RouteRequest(verb, path, bindings, decode);
      (t.TopicEvent? <==> verb == Post && exists rest :: path == PUBSUB_ROUTE + rest && (rest == "" || rest[0] == '/'))
    ensures var t := RouteRequest(verb, path, bindings, decode);
      (t.BulkTopicEvent? <==>
        verb == Post && exists rest :: path == PUBSUB_BULK_ROUTE + rest && (rest == "" || rest[0] == '/'))
  {
    UnderExactlyWhen(PUBSUB_ROUTE, path, decode);
    UnderExactlyWhen(PUBSUB_BULK_ROUTE, path, decode);
    if rest :| path == PUBSUB_ROUTE + rest && (rest == "" || rest[0] == '/') {
      BasesAreDisjoint(rest, decode);
    }
  }

  /** Which requests reach the callbacks that come before pub/sub: discovery, health and the check of a binding. */
  lemma DiscoveryRoutes(verb: Verb, path: string, bindings: set<string>, decode: string -> string)
    ensures var t := RouteRequest(verb, path, bindings, decode);
      && (t == HealthCheck <==> verb == Get && path == "/healthz")
      && (t == ListSubscriptions <==> verb == Get && path == "/dapr/subscribe")
      && (t == GetActorConfig <==> verb == Get && path == "/dapr/config")
      && (t.BindingCheck? <==> verb == Verb.Options && TrimSlashes(path) in bindings)
      && (t.BindingCheck? ==> t.name == TrimSlashes(path))
  {
    DiscoveryPathsDiffer();
  }

  lemma DiscoveryPathsDiffer()
    ensures "/healthz" != "/dapr/subscribe" && "/healthz" != "/dapr/config" && "/dapr/subscribe" != "/dapr/config"
  {
    assert "/healthz"[1] == 'h' && "/dapr/subscribe"[1] == 'd' && "/dapr/config"[1] == 'd';
    assert "/dapr/subscribe"[6] == 's' && "/dapr/config"[6] == 'c';
  }

  /** No two of the fixed prefixes of a POST overlap. */
  lemma PrefixesDiffer(path: string)
    ensures "/job/" <= path ==> path[1] == 'j'
    ensures "/configuration/" <= path ==> path[1] == 'c'
    ensures "/actors/" <= path ==> path[1] == 'a'
    ensures PUBSUB_ROUTE <= path ==> path[1] == '_'
    ensures PUBSUB_BULK_ROUTE <= path ==> path[1] == '_'
  {
    assert "/job/"[1] == 'j' && "/configuration/"[1] == 'c' && "/actors/"[1] == 'a';
    assert PUBSUB_ROUTE[1] == '_' && PUBSUB_BULK_ROUTE[1] == '_';
  }

  /** A POST to /job/<name> fires that job, whatever else the app declares, and nothing else does. */
  lemma JobRoutes(verb: Verb, path: string, bindings: set<string>, decode: string -> string)
    ensures var t := RouteRequest(verb, path, bindings, decode);
      && (t.JobEvent? <==> verb == Post && "/job/" <= path)
      && (t.JobEvent? ==> t.name == decode(path[5..]))
  {
    PrefixesDiffer(path);
    if verb == Post && "/job/" <= path {
      UnderNeedsPrefix(PUBSUB_BULK_ROUTE, path, decode);
      UnderNeedsPrefix(PUBSUB_ROUTE, path, decode);
    }
  }

  /** A POST below /configuration/ whose first segment is not empty updates the configuration of that store. */
  lemma ConfigurationRoutes(store: string, rest: string, bindings: set<string>, decode: string -> string)
    requires '/' !in store && (rest == "" || rest[0] == '/')
    ensures var t := RouteRequest(Post, "/configuration/" + store + rest, bindings, decode);
      if store != "" then t == ConfigurationEvent(decode(store)) else !t.ConfigurationEvent?
  {
    var prefix := "/configuration/";
    var path := prefix + store + rest;
    assert path == prefix + (store + rest);
    assert CutPrefix(path, prefix) == Some(store + rest) by {
      assert path[|prefix|..] == store + rest;
    }
    ConfigurationPathsAreNothingElse(path, decode);
    FirstOfRest(store, rest);
  }

  lemma ConfigurationPathsAreNothingElse(path: string, decode: string -> string)
    requires "/configuration/" <= path
    ensures Under(PUBSUB_BULK_ROUTE, path, decode).None? && Under(PUBSUB_ROUTE, path, decode).None?
    ensures CutPrefix(path, "/job/").None?
  {
    PrefixesDiffer(path);
  }

  lemma FirstOfRest(store: string, rest: string)
    requires '/' !in store && (rest == "" || rest[0] == '/')
    ensures FirstSegment(store + rest) == store
  {
    if rest == "" {
      assert store + rest == store;
    } else {
      assert rest == "/" + rest[1..];
      assert store + rest == store + "/" + rest[1..];
      HeadOfJoined(store, rest[1..]);
    }
  }

  /** An actor path that the actor router accepts goes to its callback, unless it is a POST under an earlier route; no
      other path reaches an actor. */
  lemma ActorRoutesThere(verb: Verb, rest: string, bindings: set<string>, decode: string -> string)
    requires verb != Verb.Options
    ensures var t := RouteRequest(verb, "/actors/" + rest, bindings, decode);
      match RustRoute(verb, rest, decode)
      case Some(callback) => t == Actor(callback)
      case None => !t.Actor?
  {
    var prefix := "/actors/";
    var path := prefix + rest;
    assert CutPrefix(path, prefix) == Some(rest) by {
      assert path[|prefix|..] == rest;
    }
    ActorPathsAreNothingElse(path, decode);
  }

  lemma ActorPathsAreNothingElse(path: string, decode: string -> string)
    requires "/actors/" <= path
    ensures path != "/healthz" && path != "/dapr/subscribe" && path != "/dapr/config"
    ensures Under(PUBSUB_BULK_ROUTE, path, decode).None? && Under(PUBSUB_ROUTE, path, decode).None?
    ensures CutPrefix(path, "/job/").None? && CutPrefix(path, "/configuration/").None?
  {
    PrefixesDiffer(path);
    assert "/healthz"[1] == 'h' && "/dapr/subscribe"[1] == 'd' && "/dapr/config"[1] == 'd';
  }

  /** What no other route takes goes to a declared binding when it is a POST, and to service invocation otherwise. */
  lemma FallbackRoutes(verb: Verb, path: string, bindings: set<string>, decode: string -> string)
    ensures var t := RouteRequest(verb, path, bindings, decode);
      && (t.BindingEvent? ==> verb == Post && TrimSlashes(path) in bindings && t.name == TrimSlashes(path))
      && (t == Invocation && verb == Post ==> TrimSlashes(path) !in bindings)
      && (t == Invocation ==> !("/actors/" <= path && RustRoute(verb, path[8..], decode).Some?))
      && (t == Invocation ==> !(verb == Verb.Options && TrimSlashes(path) in bindings))
  {
  }

  lemma UnderNeedsPrefix(base: string, path: string, decode: string -> string)
    ensures Under(base, path, decode).Some? ==> base <= path
  {
  }

  lemma UnderExactlyWhen(base: string, path: string, decode: string -> string)
    ensures Under(base, path, decode).Some? <==> exists rest :: path == base + rest && (rest == "" || rest[0] == '/')
  {
    if base <= path {
      assert path == base + path[|base|..];
    }
    if rest :| path == base + rest && (rest == "" || rest[0] == '/') {
      UnderJoined(base, rest, decode);
    }
  }

  /** Two advertised paths are the same URL exactly when they have the same kind of delivery and the same normalized
      rule path. */
  lemma AdvertisedPathsIdentifyTheirRule(s: Subscription, p: string, t: Subscription, q: string)
    ensures RoutedPath(BaseRoute(s), p) == RoutedPath(BaseRoute(t), q)
      <==> IsBulk(s) == IsBulk(t) && Normalized(p) == Normalized(q)
  {
    var identity := (x: string) => x;
    RoutedPathReaches(s, p, {}, identity);
    RoutedPathReaches(t, q, {}, identity);
    assert RoutedPath(BaseRoute(s), p) == BaseRoute(s) + Normalized(p);
    assert RoutedPath(BaseRoute(t), q) == BaseRoute(t) + Normalized(q);
  }
}
