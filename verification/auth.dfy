/**
  The client's session controller: the signed-in user, the loading flag and
  the five session operations (log in, register, log out, renew the access
  token, load the user at start-up).  Every network call goes through the
  shared client of `Api`, so its interceptors apply to these calls too.
  The periodic renewal is the environment calling `RefreshToken`; the timer
  itself is not modelled.
*/
module Auth {
  import opened Base
  import opened Api

  const LOGIN_PATH := "/auth/login/"
  const ME_PATH := "/auth/me/"
  const REGISTER_PATH := "/auth/register/"

  /** The user record as the identity endpoint returns it. */
  type User = map<string, string>

  datatype Session = Session(store: Store, user: Option<User>, loading: bool)

  /** The state on mount: no user yet and still loading; the store is
      whatever browser storage kept. */
  function Startup(store: Store): Session {
    Session(store, None, true)
  }

  /** The effect of one session operation; `rejection` is the error its
      promise rejects with, or `None` when it resolves. */
  datatype Step = Step(session: Session, rejection: Option<Reply>, calls: seq<Call>, navigation: seq<string>)

  function LoginRequest(email: string, password: string): Request {
    Request(Post, LOGIN_PATH, map["email" := email, "password" := password], None)
  }

  const MeRequest := Request(Get, ME_PATH, map[], None)

  function RegisterRequest(email: string, username: string, password: string, confirm: string): Request {
    Request(Post, REGISTER_PATH,
      map["email" := email, "username" := username, "password" := password, "password_confirm" := confirm], None)
  }

  /**
    `login`: post the credentials, store both tokens from the reply, fetch
    the user, then go to the dashboard.  A failure at any step rejects and
    ends the operation there.
  */
  function Login(s: Session, net: Network, email: string, password: string): (r: Step)
    ensures r.session.loading == s.loading
    ensures r.rejection.None? ==> r.session.user.Some? && r.navigation != [] && r.navigation[|r.navigation| - 1] == DASHBOARD_PAGE
    ensures r.rejection.Some? ==> r.session.user == s.user && DASHBOARD_PAGE !in r.navigation
    ensures r.calls != [] && r.calls[0] == Dispatched(Authorize(s.store, LoginRequest(email, password)))
    ensures var posted := Send(s.store, net, LoginRequest(email, password), false);
      var tokens := Store(Some(Field(posted.settled.reply.data, "access")), Some(Field(posted.settled.reply.data, "refresh")));
      var me := Send(tokens, net, MeRequest, false);
      posted.settled.Resolved? && me.settled.Resolved? ==>
        r.session.user == Some(me.settled.reply.data) && r.session.store == me.store
  {
    var posted := Send(s.store, net, LoginRequest(email, password), false);
    match posted.settled
    case Rejected(_) =>
      Step(s.(store := posted.store), Some(posted.settled.reply), posted.calls, posted.navigation)
    case Resolved(reply) =>
      var tokens := Store(Some(Field(reply.data, "access")), Some(Field(reply.data, "refresh")));
      var me := Send(tokens, net, MeRequest, false);
      match me.settled
      case Rejected(_) =>
        Step(s.(store := me.store), Some(me.settled.reply), posted.calls + me.calls, posted.navigation + me.navigation)
      case Resolved(who) =>
        Step(s.(store := me.store, user := Some(who.data)), None,
             posted.calls + me.calls, posted.navigation + me.navigation + [DASHBOARD_PAGE])
  }

  /**
    A rejected login post leaves the user and, unless the interceptor had a
    stale refresh token to try, the stored tokens as they were.
  */
  lemma LoginFailureKeepsSession(s: Session, net: Network, email: string, password: string)
    requires Send(s.store, net, LoginRequest(email, password), false).settled.Rejected?
    requires net(Authorize(s.store, LoginRequest(email, password))).status != Some(UNAUTHORIZED)
      || !Present(s.store.refresh)
    ensures var r := Login(s, net, email, password);
      && r.session == s && r.rejection.Some? && r.navigation == []
      && r.calls == [Dispatched(Authorize(s.store, LoginRequest(email, password)))]
  {
  }

  /**
    A successful login stores the refresh token the server issued, sets the
    user to the identity reply, fetches that identity only after the
    credentials were accepted, and ends on the dashboard.
  */
  lemma LoginSuccess(s: Session, net: Network, email: string, password: string)
    requires Login(s, net, email, password).rejection.None?
    ensures var posted := Send(s.store, net, LoginRequest(email, password), false);
      var r := Login(s, net, email, password);
      && posted.settled.Resolved?
      && var issued := Field(posted.settled.reply.data, "refresh");
      && r.session.store.refresh == Some(issued)
      && var me := Send(Store(Some(Field(posted.settled.reply.data, "access")), Some(issued)), net, MeRequest, false);
      && r.session.user == Some(me.settled.reply.data)
      && r.calls[|posted.calls|] == Dispatched(Authorize(Store(Some(Field(posted.settled.reply.data, "access")), Some(issued)), MeRequest))
      && r.navigation[|r.navigation| - 1] == DASHBOARD_PAGE
  {
  }

  /**
    When the credentials are accepted but the identity fetch fails with an
    error other than 401, the promise rejects with both tokens stored and no
    user: tokens and user are not always present together.
  */
  lemma LoginKeepsTokensWithoutUser(s: Session, net: Network, email: string, password: string)
    requires s.user.None?
    requires Send(s.store, net, LoginRequest(email, password), false).settled.Resolved?
    requires var reply := Send(s.store, net, LoginRequest(email, password), false).settled.reply;
      var tokens := Store(Some(Field(reply.data, "access")), Some(Field(reply.data, "refresh")));
      var answer := net(Authorize(tokens, MeRequest));
      !Succeeded(answer) && answer.status != Some(UNAUTHORIZED)
    ensures var reply := Send(s.store, net, LoginRequest(email, password), false).settled.reply;
      var r := Login(s, net, email, password);
      && r.rejection.Some?
      && r.session.store == Store(Some(Field(reply.data, "access")), Some(Field(reply.data, "refresh")))
      && r.session.user.None?
  {
  }

  /**
    `register`: post the four fields; only when that succeeds, log in with
    the same email and password.
  */
  function Register(s: Session, net: Network, email: string, username: string, password: string, confirm: string): (r: Step)
    ensures r.calls != [] && r.calls[0] == Dispatched(Authorize(s.store, RegisterRequest(email, username, password, confirm)))
    ensures r.rejection.None? ==> r.session.user.Some?
    ensures r.session.loading == s.loading
  {
    var posted := Send(s.store, net, RegisterRequest(email, username, password, confirm), false);
    match posted.settled
    case Rejected(_) =>
      Step(s.(store := posted.store), Some(posted.settled.reply), posted.calls, posted.navigation)
    case Resolved(_) =>
      var login := Login(s.(store := posted.store), net, email, password);
      Step(login.session, login.rejection, posted.calls + login.calls, posted.navigation + login.navigation)
  }

  /** A failed registration never reaches the login endpoint; a successful
      one is followed by exactly the login with the same credentials. */
  lemma RegisterLogsInOnlyAfterSuccess(s: Session, net: Network, email: string, username: string, password: string, confirm: string)
    ensures var posted := Send(s.store, net, RegisterRequest(email, username, password, confirm), false);
      var r := Register(s, net, email, username, password, confirm);
      && (posted.settled.Rejected? ==>
            && r.rejection.Some? && r.session.user == s.user && r.calls == posted.calls
            && forall i :: 0 <= i < |r.calls| ==> r.calls[i].Dispatched? ==> r.calls[i].request.path != LOGIN_PATH)
      && (posted.settled.Resolved? ==>
            var login := Login(s.(store := posted.store), net, email, password);
            && r.calls == posted.calls + login.calls
            && r.calls[|posted.calls|] == Dispatched(Authorize(posted.store, LoginRequest(email, password)))
            && r.session == login.session && r.rejection == login.rejection)
  {
    var posted := Send(s.store, net, RegisterRequest(email, username, password, confirm), false);
    if posted.settled.Rejected? {
      var r := Register(s, net, email, username, password, confirm);
      forall i | 0 <= i < |r.calls| && r.calls[i].Dispatched? ensures r.calls[i].request.path != LOGIN_PATH {
        assert r.calls[i].request.path == REGISTER_PATH;
      }
    }
  }

  /** `logout`: drop both tokens and the user and go to the login page,
      without any network call. */
  function Logout(s: Session): (r: Step)
    ensures r.session.store == EmptyStore && r.session.user.None? && r.session.loading == s.loading
    ensures r.calls == [] && r.navigation == [LOGIN_PAGE] && r.rejection.None?
  {
    Step(Session(EmptyStore, None, s.loading), None, [], [LOGIN_PAGE])
  }

  lemma LogoutIdempotent(s: Session)
    ensures Logout(Logout(s).session) == Logout(s)
  {
  }

  /**
    `refreshToken`: with no refresh token stored nothing happens.  Otherwise
    the refresh post goes through the shared client, the new access token is
    stored and the user fetched again; any failure logs out.  It never
    rejects.  The periodic renewal calls this operation.
  */
  function RefreshToken(s: Session, net: Network): (r: Step)
    ensures r.rejection.None? && r.session.loading == s.loading
    ensures !Present(s.store.refresh) ==> r == Step(s, None, [], [])
    ensures Present(s.store.refresh) ==>
      || (&& r.session.user.Some? && r.session.store.refresh == s.store.refresh
          && r.session.store.access.Some?)
      || (&& r.session.store == EmptyStore && r.session.user.None?
          && r.navigation != [] && r.navigation[|r.navigation| - 1] == LOGIN_PAGE)
    ensures Present(s.store.refresh) ==>
      var posted := Send(s.store, net, RefreshRequest(s.store.refresh.value), false);
      posted.settled.Rejected? ==>
        && r.session.store == EmptyStore && r.session.user.None?
        && r.navigation != [] && r.navigation[|r.navigation| - 1] == LOGIN_PAGE
    ensures Present(s.store.refresh) ==>
      var posted := Send(s.store, net, RefreshRequest(s.store.refresh.value), false);
      var renewed := posted.store.(access := Some(Field(posted.settled.reply.data, "access")));
      var me := Send(renewed, net, MeRequest, false);
      posted.settled.Resolved? ==>
        && (me.settled.Rejected? ==>
              && r.session.store == EmptyStore && r.session.user.None?
              && r.navigation != [] && r.navigation[|r.navigation| - 1] == LOGIN_PAGE)
        && (me.settled.Resolved? ==>
              r.session.store == me.store && r.session.user == Some(me.settled.reply.data))
  {
    if !Present(s.store.refresh) then Step(s, None, [], [])
    else
      var posted := Send(s.store, net, RefreshRequest(s.store.refresh.value), false);
      match posted.settled
      case Rejected(_) =>
        var out := Logout(s.(store := posted.store));
        Step(out.session, None, posted.calls, posted.navigation + out.navigation)
      case Resolved(reply) =>
        var renewed := posted.store.(access := Some(Field(reply.data, "access")));
        var me := Send(renewed, net, MeRequest, false);
        match me.settled
        case Rejected(_) =>
          var out := Logout(s.(store := me.store));
          Step(out.session, None, posted.calls + me.calls, posted.navigation + me.navigation + out.navigation)
        case Resolved(who) =>
          Step(s.(store := me.store, user := Some(who.data)), None, posted.calls + me.calls,
               posted.navigation + me.navigation)
  }

  /**
    A renewal ends signed in exactly when both the refresh post and the
    user fetch that follows it resolve; on any failure the session is
    logged out and the page goes to the login page.
  */
  lemma RefreshTokenFailureLogsOut(s: Session, net: Network)
    requires Present(s.store.refresh)
    ensures var posted := Send(s.store, net, RefreshRequest(s.store.refresh.value), false);
      var renewed := posted.store.(access := Some(Field(posted.settled.reply.data, "access")));
      var me := Send(renewed, net, MeRequest, false);
      var r := RefreshToken(s, net);
      && (r.session.user.Some? <==> posted.settled.Resolved? && me.settled.Resolved?)
      && (r.session.user.None? ==>
            && r.session.store == EmptyStore
            && r.navigation != [] && r.navigation[|r.navigation| - 1] == LOGIN_PAGE)
  {
  }

  /** On success only the access token changes, to the one the refresh reply
      carried when no further renewal happened on the way. */
  lemma RefreshTokenStoresNewAccess(s: Session, net: Network)
    requires Present(s.store.refresh)
    requires var posted := Send(s.store, net, RefreshRequest(s.store.refresh.value), false);
      && |posted.calls| == 1 && posted.settled.Resolved?
    requires var posted := Send(s.store, net, RefreshRequest(s.store.refresh.value), false);
      var renewed := s.store.(access := Some(Field(posted.settled.reply.data, "access")));
      Succeeded(net(Authorize(renewed, MeRequest)))
    ensures var posted := Send(s.store, net, RefreshRequest(s.store.refresh.value), false);
      var r := RefreshToken(s, net);
      && r.session.store == Store(Some(Field(posted.settled.reply.data, "access")), s.store.refresh)
      && r.session.user.Some?
      && r.navigation == []
  {
  }

  /**
    `loadUser` at start-up: with no access token the user stays as it was;
    otherwise the user is fetched, and a failed fetch falls back to
    `refreshToken`.  Loading is over on every path.
  */
  function LoadUser(s: Session, net: Network): (r: Step)
    ensures !r.session.loading && r.rejection.None?
    ensures !Present(s.store.access) ==> r.session == s.(loading := false) && r.calls == [] && r.navigation == []
    ensures Present(s.store.access) ==> r.calls != [] && r.calls[0] == Dispatched(Authorize(s.store, MeRequest))
    ensures Present(s.store.access) && Send(s.store, net, MeRequest, false).settled.Resolved? ==>
      && r.session.user == Some(Send(s.store, net, MeRequest, false).settled.reply.data)
      && r.session.store == Send(s.store, net, MeRequest, false).store
  {
    if !Present(s.store.access) then Step(s.(loading := false), None, [], [])
    else
      var me := Send(s.store, net, MeRequest, false);
      match me.settled
      case Resolved(who) =>
        Step(s.(store := me.store, user := Some(who.data), loading := false), None, me.calls, me.navigation)
      case Rejected(_) =>
        var renewal := RefreshToken(s.(store := me.store), net);
        Step(renewal.session.(loading := false), None, me.calls + renewal.calls, me.navigation + renewal.navigation)
  }

  /** A fresh page with no access token ends loading with no user. */
  lemma StartupWithoutToken(store: Store, net: Network)
    requires !Present(store.access)
    ensures var r := LoadUser(Startup(store), net);
      r.session.user.None? && !r.session.loading && r.calls == []
  {
  }

  /** A failed identity fetch at start-up is followed by exactly the
      renewal `refreshToken` performs from the store the fetch left. */
  lemma LoadUserFallsBackToRefresh(s: Session, net: Network)
    requires Present(s.store.access)
    requires Send(s.store, net, MeRequest, false).settled.Rejected?
    ensures var me := Send(s.store, net, MeRequest, false);
      var renewal := RefreshToken(s.(store := me.store), net);
      var r := LoadUser(s, net);
      && r.calls == me.calls + renewal.calls
      && r.session == renewal.session.(loading := false)
  {
  }
}
