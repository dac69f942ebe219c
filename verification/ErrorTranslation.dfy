/** Application errors on their way through gRPC: two server-side translations into a status, and the
    client interceptor that turns the status back into an application error. */
module ErrorTranslation {
  import opened Text

  datatype AppError = AppError(kind: string, code: string, message: string, internalMessage: string)

  datatype Code =
    | InvalidArgument | NotFound | Internal | PermissionDenied | Unauthenticated | Unknown | OtherCode(name: string)

  datatype Detail = ErrorResponse(errorCode: string, message: string) | OtherDetail(payload: string)

  datatype Status = Status(code: Code, message: string, details: seq<Detail>)

  /** A Go error: a leaf, or a `%w` wrap around another error. */
  datatype Error =
    | App(app: AppError)
    | StatusError(status: Status)
    | Canceled
    | Plain(text: string)
    | Wrap(prefix: string, inner: Error)

  function Innermost(e: Error): Error {
    if e.Wrap? then Innermost(e.inner) else e
  }

  function CodeName(c: Code): string {
    match c
    case InvalidArgument => "InvalidArgument"
    case NotFound => "NotFound"
    case Internal => "Internal"
    case PermissionDenied => "PermissionDenied"
    case Unauthenticated => "Unauthenticated"
    case Unknown => "Unknown"
    case OtherCode(name) => name
  }

  function ErrorText(e: Error): string {
    match e
    case App(a) => "type: " + a.kind + ", code: " + a.code + ", message: " + a.message
                   + ", internal message: " + a.internalMessage
    case StatusError(s) => "rpc error: code = " + CodeName(s.code) + " desc = " + s.message
    case Canceled => "context canceled"
    case Plain(text) => text
    case Wrap(prefix, inner) => prefix + ErrorText(inner)
  }

  /** `errors.As(err, **errors.Error)`. */
  function FindApp(e: Error): Option<AppError> {
    match e
    case App(a) => Some(a)
    case Wrap(_, inner) => FindApp(inner)
    case _ => None
  }

  /** `errors.Is(err, context.Canceled)`. */
  predicate IsCanceled(e: Error) {
    e.Canceled? || (e.Wrap? && IsCanceled(e.inner))
  }

  function WrappedStatus(e: Error): Option<Status> {
    match e
    case StatusError(s) => Some(s)
    case Wrap(_, inner) => WrappedStatus(inner)
    case _ => None
  }

  /** `status.FromError`: a wrapped status keeps its code and details but takes the whole error text. */
  function FromError(e: Error): Option<Status> {
    match e
    case StatusError(s) => Some(s)
    case Wrap(_, inner) =>
      if WrappedStatus(inner).Some? then Some(WrappedStatus(inner).value.(message := ErrorText(e))) else None
    case _ => None
  }

  /** `isGRPCStatus`: walk to the innermost error and ask only that one. */
  method IsGRPCStatus(e: Error) returns (r: Option<Status>)
    ensures r == FromError(Innermost(e))
  {
    var candidate := e;
    while candidate.Wrap?
      invariant Innermost(candidate) == Innermost(e)
      decreases candidate
    {
      candidate := candidate.inner;
    }
    r := FromError(candidate);
  }

  // ---- the two server translations ---------------------------------------

  /** The type-to-code table of the error handler. */
  function HandlerCode(kind: string): Code {
    if kind == "invalid" then InvalidArgument
    else if kind == "not-found" then NotFound
    else if kind == "unprocessable-content" then Internal
    else if kind == "unauthorzied" then PermissionDenied
    else if kind == "unauthenticated" then Unauthenticated
    else if kind == "internal-error" then Internal
    else Unknown
  }

  /** The table of the interceptor, which also lists panics. */
  function InterceptorCode(kind: string): Code {
    if kind == "invalid" then InvalidArgument
    else if kind == "not-found" then NotFound
    else if kind == "unprocessable-content" then Internal
    else if kind == "unauthorzied" then PermissionDenied
    else if kind == "unauthenticated" then Unauthenticated
    else if kind == "internal-error" then Internal
    else if kind == "panic" then Internal
    else Unknown
  }

  function AppStatus(code: Code, a: AppError): Status {
    Status(code, a.kind, [ErrorResponse(a.code, a.message)])
  }

  /** `ErrorToGRPCStatus`; None is ErrNotApplicationError. */
  function ErrorToGRPCStatus(e: Error): Option<Status> {
    if FromError(e).Some? then FromError(e)
    else if FindApp(e).None? then None
    else Some(AppStatus(HandlerCode(FindApp(e).value.kind), FindApp(e).value))
  }

  /** The error as `HandleError` gets to see it, wrapped with the method name. */
  function Target(methodName: string, e: Error): Error {
    Wrap("\"" + methodName + "\": ", e)
  }

  /** `HandleError`: the status, where None is a nil error, and what is reported.  The conversion of an
      application error cannot fail, because `ErrorToGRPCStatus` fails only on other errors. */
  function HandleError(methodName: string, e: Error): (Option<Status>, seq<Error>) {
    var target := Target(methodName, e);
    if IsCanceled(target) then (None, [])
    else if FindApp(target).Some? then (Some(ErrorToGRPCStatus(target).value), [])
    else if FromError(Innermost(target)).Some? then (FromError(Innermost(target)), [])
    else (Some(Status(Internal, ErrorText(target), [])), [target])
  }

  /** The handler inside `errorHandlerUnaryServerInterceptor`, with what it reports. */
  function Intercept(e: Error): (Option<Status>, seq<Error>) {
    if IsCanceled(e) then (None, [])
    else if FromError(Innermost(e)).Some? then (FromError(Innermost(e)), [])
    else match FindApp(e)
      case Some(a) =>
        (Some(AppStatus(InterceptorCode(a.kind), a)),
         if a.kind == "panic" || a.kind == "internal-error" then [App(a)] else [])
      case None => (Some(Status(Internal, ErrorText(e), [])), [e])
  }

  // ---- the client --------------------------------------------------------

  /** `UnmarshalErrorUnaryClientInterceptor` on the error of the call. */
  function ClientError(e: Option<Error>): Option<Error> {
    match e
    case None => None
    case Some(err) =>
      match FromError(err)
      case None => Some(err)
      case Some(s) =>
        if |s.details| == 1 && s.details[0].ErrorResponse?
        then Some(App(AppError(s.message, s.details[0].errorCode, s.details[0].message, "")))
        else Some(err)
  }

  /** The status as it reaches the client. */
  function Received(s: Option<Status>): Option<Error> {
    if s.None? then None else Some(StatusError(s.value))
  }

  /** A wrap chain shows what its innermost error is, at any depth. */
  lemma {:induction false} ChainShowsLeaf(e: Error)
    ensures FindApp(e) == (if Innermost(e).App? then Some(Innermost(e).app) else None)
    ensures IsCanceled(e) <==> Innermost(e).Canceled?
    ensures WrappedStatus(e) == (if Innermost(e).StatusError? then Some(Innermost(e).status) else None)
  {
    if e.Wrap? {
      ChainShowsLeaf(e.inner);
    }
  }

  /** Whatever wraps an application error, either server followed by the client gives back its type,
      code and message; the internal message stays on the server. */
  lemma ErrorRoundTrip(methodName: string, e: Error)
    requires Innermost(e).App?
    ensures var a := Innermost(e).app;
            var back := Some(App(a.(internalMessage := "")));
            && ClientError(Received(HandleError(methodName, e).0)) == back
            && ClientError(Received(Intercept(e).0)) == back
  {
    ChainShowsLeaf(e);
    ChainShowsLeaf(Target(methodName, e));
  }

  /** The two translations of an application error are the same status exactly if it is not a panic. */
  lemma TranslationsAgreeExactly(methodName: string, e: Error)
    requires Innermost(e).App?
    ensures HandleError(methodName, e).0 == Intercept(e).0 <==> Innermost(e).app.kind != "panic"
  {
    ChainShowsLeaf(e);
    ChainShowsLeaf(Target(methodName, e));
  }

  /** Other errors: cancellation vanishes on both servers, a status from deeper down is forwarded
      unchanged by both, and anything else becomes an internal status with the whole error text, which
      the client passes on as it is. */
  lemma OtherErrors(methodName: string, e: Error)
    requires !Innermost(e).App?
    ensures Innermost(e).Canceled? ==> HandleError(methodName, e).0.None? && Intercept(e).0.None?
    ensures Innermost(e).StatusError? ==>
              HandleError(methodName, e).0 == Intercept(e).0 == Some(Innermost(e).status)
    ensures Innermost(e).Plain? ==>
              && HandleError(methodName, e).0 == Some(Status(Internal, ErrorText(Target(methodName, e)), []))
              && Intercept(e).0 == Some(Status(Internal, ErrorText(e), []))
              && ClientError(Received(HandleError(methodName, e).0)) == Received(HandleError(methodName, e).0)
              && ClientError(Received(Intercept(e).0)) == Received(Intercept(e).0)
  {
    ChainShowsLeaf(e);
    ChainShowsLeaf(Target(methodName, e));
  }

  /** Both servers report errors that are neither cancellation, nor a status, nor an application error,
      with everything wrapped around them; the interceptor also reports panics and internal errors,
      without their wrapping.  Nothing else is reported, and nothing twice. */
  lemma ReportedExactly(methodName: string, e: Error)
    ensures HandleError(methodName, e).1 == if Innermost(e).Plain? then [Target(methodName, e)] else []
    ensures Intercept(e).1 ==
      if Innermost(e).Plain? then [e]
      else if Innermost(e).App? && Innermost(e).app.kind in {"panic", "internal-error"} then [Innermost(e)]
      else []
  {
    ChainShowsLeaf(e);
    ChainShowsLeaf(Target(methodName, e));
  }

  /** Which status an application error becomes, through any chain of wraps: the type as message, code
      and message in one detail, and a status code that names the type.  The two servers differ on panics
      alone, which the handler does not list. */
  lemma CodesExactly(methodName: string, e: Error)
    requires Innermost(e).App?
    ensures var a := Innermost(e).app;
            var h, x := HandleError(methodName, e).0, Intercept(e).0;
            && h.Some? && x.Some?
            && h.value.message == x.value.message == a.kind
            && h.value.details == x.value.details == [ErrorResponse(a.code, a.message)]
            && (h.value.code == InvalidArgument <==> a.kind == "invalid")
            && (x.value.code == InvalidArgument <==> a.kind == "invalid")
            && (h.value.code == NotFound <==> a.kind == "not-found")
            && (x.value.code == NotFound <==> a.kind == "not-found")
            && (h.value.code == PermissionDenied <==> a.kind == "unauthorzied")
            && (x.value.code == PermissionDenied <==> a.kind == "unauthorzied")
            && (h.value.code == Unauthenticated <==> a.kind == "unauthenticated")
            && (x.value.code == Unauthenticated <==> a.kind == "unauthenticated")
            && (h.value.code == Internal <==> a.kind in {"unprocessable-content", "internal-error"})
            && (x.value.code == Internal <==> a.kind in {"unprocessable-content", "internal-error", "panic"})
            && (h.value.code == Unknown <==> a.kind !in {"invalid", "not-found", "unprocessable-content",
                                                         "unauthorzied", "unauthenticated", "internal-error"})
            && (x.value.code == Unknown <==> a.kind !in {"invalid", "not-found", "unprocessable-content",
                                                         "unauthorzied", "unauthenticated", "internal-error", "panic"})
  {
    ChainShowsLeaf(e);
    ChainShowsLeaf(Target(methodName, e));
  }

  /** The client turns an error into an application error exactly if it is a status with one detail that is
      an error response, and then takes type, code and message from there; every other error it passes on. */
  lemma ClientExactly(e: Error)
    ensures ClientError(None) == None
    ensures var s := FromError(e);
            var named := s.Some? && |s.value.details| == 1 && s.value.details[0].ErrorResponse?;
            && (!named ==> ClientError(Some(e)) == Some(e))
            && (named ==> exists a :: && ClientError(Some(e)) == Some(App(a))
                                      && a.kind == s.value.message && a.internalMessage == ""
                                      && ErrorResponse(a.code, a.message) == s.value.details[0])
  {
    var s := FromError(e);
    if s.Some? && |s.value.details| == 1 && s.value.details[0].ErrorResponse? {
      assert ClientError(Some(e)).value.App?;
    }
  }

  /** An error wrapped several times, outermost prefix first. */
  function Wrapped(prefixes: seq<string>, leaf: Error): Error {
    if prefixes == [] then leaf else Wrap(prefixes[0], Wrapped(prefixes[1..], leaf))
  }

  function Joined(parts: seq<string>): string {
    if parts == [] then "" else parts[0] + Joined(parts[1..])
  }

  lemma {:induction false} WrappedText(prefixes: seq<string>, leaf: Error)
    requires !leaf.Wrap?
    ensures ErrorText(Wrapped(prefixes, leaf)) == Joined(prefixes) + ErrorText(leaf)
    ensures Innermost(Wrapped(prefixes, leaf)) == leaf
  {
    if prefixes != [] {
      WrappedText(prefixes[1..], leaf);
    }
  }

  /** The message of a plain error's status: the method name in quotes (from the handler only), then every
      prefix in order, then the text. */
  lemma PlainMessage(methodName: string, prefixes: seq<string>, text: string)
    ensures var e := Wrapped(prefixes, Plain(text));
            && Intercept(e).0.Some? && HandleError(methodName, e).0.Some?
            && Intercept(e).0.value.message == Joined(prefixes) + text
            && HandleError(methodName, e).0.value.message
               == "\"" + methodName + "\": " + (Joined(prefixes) + text)
  {
    WrappedText(prefixes, Plain(text));
    OtherErrors(methodName, Wrapped(prefixes, Plain(text)));
  }
}
