/** pkg/dispatcher/dispatcher.go: routing of HTTP requests to freshly made hooks. */
module Dispatcher {
  import opened Prelude

  /** The registered hooks, by kind `K`: the URI each kind answers to, the state `S` of a new hook, and
      what its two methods answer and leave behind. */
  datatype Hooks<!K, !S, !Q, !P> = Hooks(
    uri: K -> string,
    initial: K -> S,
    validate: (K, S, Q) -> (bool, S),
    authorized: (K, S, Q) -> (P, S))

  // ---------------------------------------------------------------- routing table

  /** The table built by visiting the factories in the given order: a later one overwrites. */
  function BuildTable<K>(uri: K -> string, order: seq<K>): map<string, K> {
    if order == [] then map[]
    else
      var n := |order| - 1;
      BuildTable(uri, order[..n])[uri(order[n]) := order[n]]
  }

  /** No two different hooks claim the same URI. */
  predicate UrisDistinct<K(==)>(uri: K -> string, hooks: seq<K>) {
    forall i, j :: 0 <= i < |hooks| && 0 <= j < |hooks| && uri(hooks[i]) == uri(hooks[j]) ==> hooks[i] == hooks[j]
  }

  lemma {:induction false} TableEntries<K>(uri: K -> string, order: seq<K>)
    ensures var table := BuildTable(uri, order);
            && (forall u :: u in table ==> table[u] in order && uri(table[u]) == u)
            && (forall k :: k in order ==> uri(k) in table)
  {
    if order != [] {
      var n := |order| - 1;
      TableEntries(uri, order[..n]);
      assert order == order[..n] + [order[n]];
    }
  }

  lemma SameMembers<K>(a: seq<K>, b: seq<K>)
    requires multiset(a) == multiset(b)
    ensures forall k :: k in a <==> k in b
  {
    forall k ensures k in a <==> k in b {
      assert k in a <==> k in multiset(a);
      assert k in b <==> k in multiset(b);
    }
  }

  lemma TablesAgree<K>(uri: K -> string, a: seq<K>, b: seq<K>)
    requires UrisDistinct(uri, a) && multiset(a) == multiset(b)
    ensures BuildTable(uri, a) == BuildTable(uri, b)
  {
    TableEntries(uri, a);
    TableEntries(uri, b);
    SameMembers(a, b);
    var s, t := BuildTable(uri, a), BuildTable(uri, b);
    assert s.Keys == t.Keys by {
      forall u ensures u in s <==> u in t {
        if u in s { assert s[u] in b; }
        if u in t { assert t[u] in a; }
      }
    }
    forall u | u in s ensures s[u] == t[u] {
      assert s[u] in a && t[u] in a;
    }
  }

  /** The same hooks with the one at `i` visited last. */
  lemma VisitLast<K>(uri: K -> string, order: seq<K>, i: nat) returns (moved: seq<K>)
    requires i < |order|
    ensures multiset(moved) == multiset(order)
    ensures var table := BuildTable(uri, moved); uri(order[i]) in table && table[uri(order[i])] == order[i]
  {
    moved := order[..i] + order[i + 1..] + [order[i]];
    assert order == order[..i] + [order[i]] + order[i + 1..];
    assert moved[..|moved| - 1] == order[..i] + order[i + 1..];
  }

  /** Every iteration order of the registry builds the same table exactly when the URIs are distinct. */
  lemma OrderIndependentExactly<K(!new)>(uri: K -> string, hooks: seq<K>)
    ensures (forall order :: multiset(order) == multiset(hooks) ==> BuildTable(uri, order) == BuildTable(uri, hooks))
            <==> UrisDistinct(uri, hooks)
  {
    if UrisDistinct(uri, hooks) {
      forall order | multiset(order) == multiset(hooks) ensures BuildTable(uri, order) == BuildTable(uri, hooks) {
        TablesAgree(uri, hooks, order);
      }
    } else {
      var i, j :| 0 <= i < |hooks| && 0 <= j < |hooks| && uri(hooks[i]) == uri(hooks[j]) && hooks[i] != hooks[j];
      var a := VisitLast(uri, hooks, i);
      var b := VisitLast(uri, hooks, j);
      assert BuildTable(uri, a) != BuildTable(uri, b);
    }
  }

  /** The hooks met when the names of a registry are visited in the given order. */
  function Visited<K>(registry: map<string, K>, names: seq<string>): seq<K>
    requires forall n :: n in names ==> n in registry
  {
    seq(|names|, i requires 0 <= i < |names| => registry[names[i]])
  }

  /** NewDispatcher: the registry is a map, so its hooks are visited in an arbitrary order. */
  method NewTable<K(==)>(uri: K -> string, registry: map<string, K>)
    returns (table: map<string, K>, ghost names: seq<string>)
    ensures Distinct(names) && Elements(names) == registry.Keys
    ensures (forall n :: n in names ==> n in registry) && table == BuildTable(uri, Visited(registry, names))
    ensures UrisDistinct(uri, Visited(registry, names)) ==>
              forall n :: n in registry ==> uri(registry[n]) in table && table[uri(registry[n])] == registry[n]
  {
    table, names := map[], [];
    var todo := registry.Keys;
    while todo != {}
      invariant todo <= registry.Keys && Distinct(names) && Elements(names) == registry.Keys - todo
      invariant forall n :: n in names ==> n in registry.Keys - todo
      invariant table == BuildTable(uri, Visited(registry, names))
    {
      var name :| name in todo;
      ghost var before := Visited(registry, names);
      table := table[uri(registry[name]) := registry[name]];
      todo := todo - {name};
      assert Elements(names + [name]) == Elements(names) + {name};
      names := names + [name];
      assert Visited(registry, names)[..|names| - 1] == before;
    }
    TableEntries(uri, Visited(registry, names));
    forall n | n in registry && UrisDistinct(uri, Visited(registry, names))
      ensures uri(registry[n]) in table && table[uri(registry[n])] == registry[n]
    {
      assert n in Elements(names);
      var i :| 0 <= i < |names| && names[i] == n;
      assert Visited(registry, names)[i] == registry[n];
    }
  }

  /** The URIs of the hooks that the add_*.go files of pkg/webhooks register. */
  const REGISTERED_URIS: seq<string> := [
    "/clusterlogging-validation", "/clusterroles-validation", "/clusterrolebindings-validation",
    "/customresourcedefinitions-validation", "/hcpnamespace-validation", "/hiveownership-validation",
    "/hostedcluster-validation", "/hostedcontrolplane-validation", "/imagecontentpolicies-validation",
    "/ingressconfig-validation", "/ingresscontroller-validation", "/manifestworks-validation",
    "/namespace-validation", "/network-operator-validation", "/networkpolicies-validation",
    "/node-validation-osd", "/pod-validation", "/podimagespec-mutation", "/prometheusrule-validation",
    "/regularuser-validation", "/scc-validation", "/sdnmigration-validation", "/service-mutation",
    "/serviceaccount-validation", "/techpreviewnoupgrade-validation"]

  /** They are pairwise distinct: their lengths or their second or third characters tell them apart. */
  lemma RegisteredUrisDistinct()
    ensures Distinct(REGISTERED_URIS)
  {
    var u := REGISTERED_URIS;
    assert forall i, j :: 0 <= i < j < |u| ==> |u[i]| != |u[j]| || u[i][1] != u[j][1] || u[i][2] != u[j][2];
  }

  /** So the table does not depend on the iteration order of the actual registry. */
  lemma RegistryIsOrderIndependent<K>(uri: K -> string, hooks: seq<K>, order: seq<K>)
    requires |hooks| == |REGISTERED_URIS| && forall i :: 0 <= i < |hooks| ==> uri(hooks[i]) == REGISTERED_URIS[i]
    requires multiset(order) == multiset(hooks)
    ensures BuildTable(uri, order) == BuildTable(uri, hooks)
  {
    RegisteredUrisDistinct();
    forall i, j | 0 <= i < |hooks| && 0 <= j < |hooks| && uri(hooks[i]) == uri(hooks[j])
      ensures hooks[i] == hooks[j]
    {
      assert REGISTERED_URIS[i] == REGISTERED_URIS[j];
    }
    TablesAgree(uri, hooks, order);
  }

  // ---------------------------------------------------------------- requests

  datatype HttpBody = NoBody | ReadFailure | Bytes(content: string)

  /** `path` is missing when the request URI does not parse. */
  datatype HttpRequest = HttpRequest(path: Option<string>, body: HttpBody, contentType: string)

  /** What the deserializer makes of a body: garbage, a review without a request, or a request. */
  datatype Review<+Q> = Undecodable | NoRequest | Review(request: Q)

  /** ParseHTTPRequest */
  function ParseHttp<Q>(decode: string -> Review<Q>, r: HttpRequest): Option<Q> {
    match r.body
    case NoBody => None
    case ReadFailure => None
    case Bytes(content) =>
      if content == "" then None
      else if r.contentType != "application/json" then None
      else
        match decode(content)
        case Undecodable => None
        case NoRequest => None
        case Review(q) => Some(q)
  }

  datatype Body<+P> = Errored(code: nat) | FromHook(response: P)

  datatype Reply<+P> = Reply(status: nat, body: Body<P>)

  /** The reply a request deserves from new hooks. */
  function ReplyTo<K, S, Q, P>(hooks: Hooks<K, S, Q, P>, decode: string -> Review<Q>,
                               table: map<string, K>, r: HttpRequest): Reply<P>
  {
    if r.path.None? then Reply(400, Errored(400))
    else if r.path.value in table then
      var k := table[r.path.value];
      var q := ParseHttp(decode, r);
      if q.None? then Reply(400, Errored(400))
      else if !hooks.validate(k, hooks.initial(k), q.value).0 then Reply(200, Errored(400))
      else Reply(200, FromHook(hooks.authorized(k, hooks.initial(k), q.value).0))
    else Reply(404, Errored(400))
  }

  /** A body that holds a request: JSON by its content type, not empty, and a review with a request. */
  predicate HoldsRequest<Q>(decode: string -> Review<Q>, r: HttpRequest) {
    r.body.Bytes? && r.body.content != "" && r.contentType == "application/json" && decode(r.body.content).Review?
  }

  /** The status says how far the request got, whatever the order in which the table was built: 200 once it
      holds a request for the URI of a registered hook, 404 for a well-formed URI that no registered
      hook has, 400 otherwise. */
  lemma StatusMeaning<K, S, Q, P>(hooks: Hooks<K, S, Q, P>, decode: string -> Review<Q>, order: seq<K>, r: HttpRequest)
    ensures var status := ReplyTo(hooks, decode, BuildTable(hooks.uri, order), r).status;
            var known := r.path.Some? && exists k :: k in order && hooks.uri(k) == r.path.value;
            && (status == 200 <==> known && HoldsRequest(decode, r))
            && (status == 404 <==> r.path.Some? && !known)
            && (status == 400 <==> r.path.None? || (known && !HoldsRequest(decode, r)))
  {
    TableEntries(hooks.uri, order);
    assert ParseHttp(decode, r).Some? <==> HoldsRequest(decode, r);
    if r.path.Some? && r.path.value in BuildTable(hooks.uri, order) {
      assert BuildTable(hooks.uri, order)[r.path.value] in order;
    }
  }

  /** With a table built from the registry, a hook answers exactly for requests to its own URI that
      parse and that it finds valid. */
  lemma OnlyTheOwnHookAnswers<K, S, Q, P>(hooks: Hooks<K, S, Q, P>, decode: string -> Review<Q>,
                                          order: seq<K>, r: HttpRequest, k: K)
    requires UrisDistinct(hooks.uri, order) && k in order
    ensures var reply := ReplyTo(hooks, decode, BuildTable(hooks.uri, order), r);
            r.path == Some(hooks.uri(k)) ==>
              (reply.body.FromHook? <==>
                 ParseHttp(decode, r).Some? && hooks.validate(k, hooks.initial(k), ParseHttp(decode, r).value).0)
              && (reply.body.FromHook? ==>
                 reply.body.response == hooks.authorized(k, hooks.initial(k), ParseHttp(decode, r).value).0)
    ensures ReplyTo(hooks, decode, BuildTable(hooks.uri, order), r).body.FromHook? ==>
              r.path.Some? && exists h :: h in order && hooks.uri(h) == r.path.value
    ensures var reply := ReplyTo(hooks, decode, BuildTable(hooks.uri, order), r);
            !reply.body.FromHook? ==> reply.body == Errored(400)
  {
    TableEntries(hooks.uri, order);
    var table := BuildTable(hooks.uri, order);
    if r.path == Some(hooks.uri(k)) {
      assert table[hooks.uri(k)] in order;
      assert table[hooks.uri(k)] == k;
    }
  }

  // ---------------------------------------------------------------- handling

  /** A hook object; its methods may change its state. */
  class Hook<K, S, Q, P> {
    const kind: K
    const hooks: Hooks<K, S, Q, P>
    var state: S

    /** The factory: every call makes a new hook. */
    constructor (hooks: Hooks<K, S, Q, P>, kind: K)
      ensures this.hooks == hooks && this.kind == kind && state == hooks.initial(kind)
    {
      this.hooks, this.kind, this.state := hooks, kind, hooks.initial(kind);
    }

    method Validate(q: Q) returns (valid: bool)
      modifies this
      ensures (valid, state) == hooks.validate(kind, old(state), q)
    {
      var (v, s) := hooks.validate(kind, state, q);
      valid, state := v, s;
    }

    method Authorized(q: Q) returns (response: P)
      modifies this
      ensures (response, state) == hooks.authorized(kind, old(state), q)
    {
      var (p, s) := hooks.authorized(kind, state, q);
      response, state := p, s;
    }
  }

  /** An HTTP response under construction: an explicit status, if any, and the bodies sent. */
  class ResponseWriter<P> {
    var header: Option<nat>
    var sent: seq<Body<P>>

    constructor ()
      ensures header == None && sent == []
    {
      header, sent := None, [];
    }

    /** Without an explicit status the first body sends 200. */
    ghost function Status(): nat
      reads this
    {
      if header.Some? then header.value else 200
    }

    method WriteHeader(code: nat)
      modifies this
      ensures header == Some(code) && sent == old(sent)
    {
      header := Some(code);
    }

    method Send(body: Body<P>)
      modifies this
      ensures header == old(header) && sent == old(sent) + [body]
    {
      sent := sent + [body];
    }
  }

  class Server<K(==), S, Q, P> {
    const hooks: Hooks<K, S, Q, P>
    const decode: string -> Review<Q>
    var table: map<string, K>

    constructor (hooks: Hooks<K, S, Q, P>, decode: string -> Review<Q>, registry: map<string, K>)
      ensures this.hooks == hooks && this.decode == decode
      ensures exists names :: Distinct(names) && Elements(names) == registry.Keys
                && (forall n :: n in names ==> n in registry) && table == BuildTable(hooks.uri, Visited(registry, names))
    {
      var t, names := NewTable(hooks.uri, registry);
      this.hooks, this.decode, this.table := hooks, decode, t;
    }

    /** HandleRequest: exactly one body is sent, and it is the one new hooks give. */
    method HandleRequest(w: ResponseWriter<P>, r: HttpRequest)
      requires w.header == None && w.sent == []
      modifies w
      ensures var reply := ReplyTo(hooks, decode, table, r);
              w.sent == [reply.body] && w.Status() == reply.status
    {
      if r.path.None? {
        w.WriteHeader(400);
        w.Send(Errored(400));
        return;
      }
      if r.path.value in table {
        var kind := table[r.path.value];
        var request := ParseHttp(decode, r);
        if request.None? {
          w.WriteHeader(400);
          w.Send(Errored(400));
          return;
        }
        var validator := new Hook(hooks, kind);
        var valid := validator.Validate(request.value);
        if !valid {
          w.Send(Errored(400));
          return;
        }
        var hook := new Hook(hooks, kind);
        var response := hook.Authorized(request.value);
        w.Send(FromHook(response));
        return;
      }
      w.WriteHeader(404);
      w.Send(Errored(400));
    }

    /** A whole run, one request after the other under the dispatcher's lock: every request gets the
        reply it would get alone, whatever was handled before it. */
    method Serve(requests: seq<HttpRequest>) returns (replies: seq<Reply<P>>)
      ensures |replies| == |requests|
      ensures forall i :: 0 <= i < |requests| ==> replies[i] == ReplyTo(hooks, decode, table, requests[i])
    {
      replies := [];
      for n := 0 to |requests|
        invariant |replies| == n
        invariant forall i :: 0 <= i < n ==> replies[i] == ReplyTo(hooks, decode, table, requests[i])
      {
        var w := new ResponseWriter<P>();
        HandleRequest(w, requests[n]);
        replies := replies + [Reply(if w.header.Some? then w.header.value else 200, w.sent[0])];
      }
    }
  }
}
