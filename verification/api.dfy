/**
  The client's HTTP layer: a token store holding the access and refresh
  tokens, and the two interceptors of the shared API client.  The request
  interceptor attaches the stored access token as a bearer header; the
  response interceptor answers a first 401 by posting the refresh token to
  the refresh endpoint with a bare client (no interceptors) and, if that
  works, stores the new access token and sends the request once more.

  The server is a pure oracle from the request on the wire to its reply, so
  the same request always gets the same reply.  Browser storage is the
  `Store` value threaded through every call, and a change of page is an
  emitted navigation value.
*/
module Api {
  import opened Base

  const UNAUTHORIZED := 401
  const BEARER := "Bearer "
  const REFRESH_PATH := "/auth/refresh/"
  const LOGIN_PAGE := "/login"
  const DASHBOARD_PAGE := "/dashboard"

  /** The two keys the client keeps in browser storage. */
  datatype Store = Store(access: Option<string>, refresh: Option<string>)

  const EmptyStore := Store(None, None)

  /** Reading a key gives no value when it is missing, and the code tests
      the value's truthiness, so an empty text counts as missing too. */
  predicate Present(v: Option<string>) {
    v.Some? && v.value != ""
  }

  datatype Verb = Get | Post

  /** A request as it goes on the wire. */
  datatype Request = Request(verb: Verb, path: string, payload: map<string, string>, authorization: Option<string>)

  /**
    The server's answer; `status` is `None` when no response arrived.  The
    body is split into its text fields (`data`) and its lists of messages
    (`errors`, as a validation error reports them per field).
  */
  datatype Reply = Reply(status: Option<int>, data: map<string, string>, errors: map<string, seq<string>>)

  /** The client resolves 2xx replies and rejects everything else. */
  predicate Succeeded(r: Reply) {
    r.status.Some? && 200 <= r.status.value < 300
  }

  type Network = Request -> Reply

  /**
    A field taken from a reply body by destructuring.  A missing field is
    `undefined`, and storing `undefined` in browser storage stores the text
    "undefined".
  */
  function Field(data: map<string, string>, key: string): (v: string)
    ensures key in data ==> v == data[key]
    ensures key !in data ==> v == "undefined"
  {
    if key in data then data[key] else "undefined"
  }

  /** A call that reached the network: a request through the shared client,
      or the bare refresh post. */
  datatype Call = Dispatched(request: Request) | RefreshPosted(token: string)

  /** How the promise of a request settles. */
  datatype Settled = Resolved(reply: Reply) | Rejected(reply: Reply)

  datatype Sent = Sent(store: Store, settled: Settled, calls: seq<Call>, navigation: seq<string>)

  /** The request interceptor. */
  function Authorize(store: Store, req: Request): (r: Request)
    ensures r.verb == req.verb && r.path == req.path && r.payload == req.payload
    ensures Present(store.access) ==> r.authorization == Some(BEARER + store.access.value)
    ensures !Present(store.access) ==> r.authorization == req.authorization
  {
    if Present(store.access) then req.(authorization := Some(BEARER + store.access.value)) else req
  }

  /** The bare refresh post: no interceptor runs, so no bearer header. */
  function RefreshRequest(token: string): Request {
    Request(Post, REFRESH_PATH, map["refresh" := token], None)
  }

  /**
    One request through the shared client, `retry` being the request's
    `_retry` mark.  The trace shows that a request is refreshed and resent
    at most once, and never when it is already marked: it is one dispatch,
    or a dispatch and a refresh post, or a dispatch, a refresh post and one
    more dispatch.  The store only ever keeps its refresh token, or loses
    both tokens when the promise rejects.
  */
  function Send(store: Store, net: Network, req: Request, retry: bool): (r: Sent)
    ensures 1 <= |r.calls| <= 3
    ensures r.calls[0] == Dispatched(Authorize(store, req))
    ensures |r.calls| == 1 ==> r.store == store && r.navigation == []
    ensures |r.calls| >= 2 ==>
      && !retry
      && Present(store.refresh)
      && r.calls[1] == RefreshPosted(store.refresh.value)
    ensures |r.calls| == 3 ==> r.calls[2].Dispatched? && r.navigation == []
    ensures r.store == store
      || (r.store.refresh == store.refresh && r.store.access.Some?)
      || (r.store == EmptyStore && r.settled.Rejected? && r.navigation == [LOGIN_PAGE])
    ensures r.settled.Resolved? ==> Succeeded(r.settled.reply) && r.store.refresh == store.refresh
    ensures r.navigation == [] || r.navigation == [LOGIN_PAGE]
    decreases if retry then 0 else 1
  {
    var sent := Authorize(store, req);
    var reply := net(sent);
    if Succeeded(reply) then
      Sent(store, Resolved(reply), [Dispatched(sent)], [])
    else if reply.status == Some(UNAUTHORIZED) && !retry && Present(store.refresh) then
      var token := store.refresh.value;
      var answer := net(RefreshRequest(token));
      if Succeeded(answer) then
        var access := Field(answer.data, "access");
        var renewed := store.(access := Some(access));
        var again := Send(renewed, net, req.(authorization := Some(BEARER + access)), true);
        Sent(again.store, again.settled, [Dispatched(sent), RefreshPosted(token)] + again.calls, again.navigation)
      else
        Sent(EmptyStore, Rejected(answer), [Dispatched(sent), RefreshPosted(token)], [LOGIN_PAGE])
    else
      Sent(store, Rejected(reply), [Dispatched(sent)], [])
  }

  /** How many refresh posts a trace holds. */
  function Refreshes(calls: seq<Call>): (n: nat)
    ensures n <= |calls|
  {
    if calls == [] then 0
    else (if calls[0].RefreshPosted? then 1 else 0) + Refreshes(calls[1..])
  }

  /** How many dispatches through the shared client a trace holds. */
  function Dispatches(calls: seq<Call>): (n: nat)
    ensures n <= |calls|
  {
    if calls == [] then 0
    else (if calls[0].Dispatched? then 1 else 0) + Dispatches(calls[1..])
  }

  /** At most one refresh and one resend per request; none once it is
      marked as retried. */
  lemma {:induction false} SendRefreshesAtMostOnce(store: Store, net: Network, req: Request, retry: bool)
    ensures var r := Send(store, net, req, retry);
      && Refreshes(r.calls) <= (if retry then 0 else 1)
      && Dispatches(r.calls) <= (if retry then 1 else 2)
      && Refreshes(r.calls) + Dispatches(r.calls) == |r.calls|
  {
    var c := Send(store, net, req, retry).calls;
    CallsPartition(c);
    if |c| == 1 {
      assert c[1..] == [];
    } else if |c| == 2 {
      assert c[1..][0] == c[1];
      assert c[1..][1..] == [];
    } else {
      assert c[1..][0] == c[1];
      assert c[1..][1..][0] == c[2];
      assert c[1..][1..][1..] == [];
      assert Refreshes(c[1..][1..]) == 0;
      assert Refreshes(c[1..]) == 1;
    }
  }

  /** Every call in a trace is a refresh post or a dispatch. */
  lemma {:induction false} CallsPartition(calls: seq<Call>)
    ensures Refreshes(calls) + Dispatches(calls) == |calls|
  {
    if calls != [] {
      CallsPartition(calls[1..]);
    }
  }

  /** A request is sent with `Bearer <token>` exactly when a non-empty
      access token is stored, and the token goes out unchanged. */
  lemma SendAttachesBearer(store: Store, net: Network, req: Request, retry: bool)
    requires req.authorization.None?
    ensures var first := Send(store, net, req, retry).calls[0].request;
      && (first.authorization.Some? <==> Present(store.access))
      && (first.authorization.Some? ==> first.authorization.value == BEARER + store.access.value)
  {
  }

  /** Successes and errors other than 401 come back as they are and leave
      the store alone. */
  lemma SendPassesThrough(store: Store, net: Network, req: Request, retry: bool)
    requires net(Authorize(store, req)).status != Some(UNAUTHORIZED)
    ensures var reply := net(Authorize(store, req));
      var r := Send(store, net, req, retry);
      && r.store == store && r.calls == [Dispatched(Authorize(store, req))] && r.navigation == []
      && r.settled == (if Succeeded(reply) then Resolved(reply) else Rejected(reply))
  {
  }

  /** A 401 on a request already retried, or with no refresh token stored,
      is rejected as it is, without a refresh and without touching the store. */
  lemma SendUnauthorizedWithoutRefresh(store: Store, net: Network, req: Request, retry: bool)
    requires net(Authorize(store, req)).status == Some(UNAUTHORIZED)
    requires retry || !Present(store.refresh)
    ensures var r := Send(store, net, req, retry);
      && r.store == store && r.calls == [Dispatched(Authorize(store, req))] && r.navigation == []
      && r.settled == Rejected(net(Authorize(store, req)))
  {
  }

  /**
    A first 401 with a refresh token stored and a refresh that works: the new
    access token replaces the old one, the refresh token stays, and the
    request is sent exactly once more, carrying the new token; its reply,
    whatever it is, settles the promise.
  */
  lemma SendRefreshSucceeds(store: Store, net: Network, req: Request)
    requires net(Authorize(store, req)).status == Some(UNAUTHORIZED)
    requires Present(store.refresh)
    requires Succeeded(net(RefreshRequest(store.refresh.value)))
    ensures var access := Field(net(RefreshRequest(store.refresh.value)).data, "access");
      var r := Send(store, net, req, false);
      && r.store == Store(Some(access), store.refresh)
      && |r.calls| == 3
      && r.calls[2].request.authorization == Some(BEARER + access)
      && r.calls[2].request.path == req.path && r.calls[2].request.payload == req.payload
      && r.navigation == []
      && var reply := net(r.calls[2].request);
         r.settled == (if Succeeded(reply) then Resolved(reply) else Rejected(reply))
  {
  }

  /**
    A first 401 whose refresh fails, even with a 401 of its own: both tokens
    are removed, the page goes to the login screen, and the promise rejects
    with the refresh's error rather than the original one.
  */
  lemma SendRefreshFails(store: Store, net: Network, req: Request)
    requires net(Authorize(store, req)).status == Some(UNAUTHORIZED)
    requires Present(store.refresh)
    requires !Succeeded(net(RefreshRequest(store.refresh.value)))
    ensures var r := Send(store, net, req, false);
      && r.store == EmptyStore
      && r.settled == Rejected(net(RefreshRequest(store.refresh.value)))
      && r.navigation == [LOGIN_PAGE]
      && |r.calls| == 2
  {
  }
}
