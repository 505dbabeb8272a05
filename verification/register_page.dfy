/**
  The sign-up form's submit handler: it refuses mismatched passwords on the
  page itself, before any call; otherwise it runs the session's `register`
  and reports the outcome in a notice.
*/
module RegisterPage {
  import opened Base
  import opened Api
  import Auth

  const MISMATCH_TEXT := "Las contrase\U{F1}as no coinciden"
  const CREATED_TEXT := "Tu cuenta ha sido creada exitosamente"
  const GENERIC_ERROR := "Ocurri\U{F3} un error"

  datatype Form = Form(email: string, username: string, password: string, confirm: string)

  /** The notice the page shows; `destructive` marks an error. */
  datatype Notice = Notice(description: string, destructive: bool)

  datatype Submitted = Submitted(loading: bool, notice: Notice, session: Auth.Session, calls: seq<Call>, navigation: seq<string>)

  /** The first message the server gave for a field, when a reply arrived
      and that message is non-empty text. */
  function FirstError(reply: Reply, field: string): (m: Option<string>)
    ensures m.Some? ==>
      m.value != "" && field in reply.errors && reply.errors[field] != [] && m.value == reply.errors[field][0]
  {
    if reply.status.Some? && field in reply.errors && reply.errors[field] != [] && reply.errors[field][0] != ""
    then Some(reply.errors[field][0])
    else None
  }

  /** The error notice's text: the first e-mail error, else the first user
      name error, else a generic message. */
  function ErrorText(reply: Reply): (t: string)
    ensures t != ""
    ensures FirstError(reply, "email").Some? ==> t == reply.errors["email"][0]
    ensures FirstError(reply, "email").None? && FirstError(reply, "username").Some? ==> t == reply.errors["username"][0]
    ensures FirstError(reply, "email").None? && FirstError(reply, "username").None? ==> t == GENERIC_ERROR
  {
    match FirstError(reply, "email")
    case Some(m) => m
    case None =>
      match FirstError(reply, "username")
      case Some(m) => m
      case None => GENERIC_ERROR
  }

  /**
    `handleSubmit`, from the page's loading flag, the form, and the session
    the auth context holds.
  */
  function HandleSubmit(loading: bool, form: Form, s: Auth.Session, net: Network): (r: Submitted)
    ensures form.password != form.confirm ==>
      && r.loading == loading && r.session == s && r.calls == [] && r.navigation == []
      && r.notice == Notice(MISMATCH_TEXT, true)
    ensures form.password == form.confirm ==>
      && !r.loading
      && r.calls != []
      && r.calls[0] == Dispatched(Authorize(s.store, Auth.RegisterRequest(form.email, form.username, form.password, form.confirm)))
      && (r.notice.destructive <==> Auth.Register(s, net, form.email, form.username, form.password, form.confirm).rejection.Some?)
  {
    if form.password != form.confirm then
      Submitted(loading, Notice(MISMATCH_TEXT, true), s, [], [])
    else
      var step := Auth.Register(s, net, form.email, form.username, form.password, form.confirm);
      var notice := match step.rejection
        case None => Notice(CREATED_TEXT, false)
        case Some(reply) => Notice(ErrorText(reply), true);
      Submitted(false, notice, step.session, step.calls, step.navigation)
  }

  /**
    With matching passwords the form's four values go out in the register
    post under the four field names, in the order the session's `register`
    takes them, and a failure shows the server's first e-mail or user name
    message, or the generic one.
  */
  lemma SubmitPostsTheForm(loading: bool, form: Form, s: Auth.Session, net: Network)
    requires form.password == form.confirm
    ensures var r := HandleSubmit(loading, form, s, net);
      var payload := r.calls[0].request.payload;
      && r.calls[0].request.path == Auth.REGISTER_PATH
      && payload.Keys == {"email", "username", "password", "password_confirm"}
      && payload["email"] == form.email && payload["username"] == form.username
      && payload["password"] == form.password && payload["password_confirm"] == form.confirm
    ensures var step := Auth.Register(s, net, form.email, form.username, form.password, form.confirm);
      var r := HandleSubmit(loading, form, s, net);
      step.rejection.Some? ==>
        r.notice.description == ErrorText(step.rejection.value)
        && (r.notice.description == GENERIC_ERROR
            || ("email" in step.rejection.value.errors && r.notice.description in step.rejection.value.errors["email"])
            || ("username" in step.rejection.value.errors && r.notice.description in step.rejection.value.errors["username"]))
  {
    var step := Auth.Register(s, net, form.email, form.username, form.password, form.confirm);
    assert HandleSubmit(loading, form, s, net).calls == step.calls;
  }
}
