/**
 * The HTTP handlers of the user API. Each handler decodes the body, checks
 * the caller's identity and the request, normalises it, makes at most one
 * service call and maps the outcome to a reply. The body decoder, the
 * request validator and `strings.ToLower` are parameters: the decoder's
 * outcome, the validator's messages for the request, and a lower-casing
 * function.
 */
module UserController {
  import opened Wrappers
  import opened Go
  import opened Errors
  import opened Dto
  import opened Json

  const InvalidBody: string := "Invalid request body"
  const ValidationFailed: string := "Validation failed: "
  const Deleted: string := "User deleted successfully"

  const DefaultPage: Int64 := 1
  const DefaultLimit: Int64 := 20

  /** What `json.NewDecoder(r).Decode(&req)` produced. */
  datatype Decoded<+T> = Malformed | Decoded(value: T)

  /** The `data` of a successful reply. */
  datatype Payload =
    | MePayload(me: GetMeResponse)
    | ListPayload(list: ListResponse)
    | RegisterPayload(registered: RegisterResponse)
    | LoginPayload(login: LoginResponse)
    | UpdatePayload(updated: UpdateResponse)
    | TextPayload(text: string)

  /** `ResponseWithSuccess` (status 200) or `ResponseWithError`. */
  datatype Reply = Success(payload: Payload) | ErrorReply(message: string, status: int)

  datatype ServiceCall =
    | GetUserByIDCall(id: string)
    | GetUserListCall(list: ListRequest)
    | RegisterUserCall(register: RegisterRequest)
    | LoginUserCall(login: LoginRequest)
    | UpdateUserCall(id: string, update: UpdateRequest)
    | DeleteUserCall(id: string)

  /** A handler's reply and the service call it made, if any. */
  datatype Handled = Handled(reply: Reply, call: Option<ServiceCall>)

  /** The user service as the handlers see it: what each operation answers. */
  datatype Service = Service(
    getUserByID: string -> Result<GetMeResponse>,
    getUserList: ListRequest -> Result<ListResponse>,
    registerUser: RegisterRequest -> Result<RegisterResponse>,
    loginUser: LoginRequest -> Result<LoginResponse>,
    updateUser: (string, UpdateRequest) -> Result<UpdateResponse>,
    deleteUser: string -> Result<()>)

  /** The context carried a user id that is a non-empty string. */
  predicate Authenticated(ctxUserId: Option<string>) {
    ctxUserId.Some? && ctxUserId.value != ""
  }

  const UnauthorizedReply: Reply := ErrorReply(Unauthorized, StatusUnauthorized)
  const InvalidBodyReply: Reply := ErrorReply(InvalidBody, StatusBadRequest)

  /** The reply for a service outcome: its error's text with 400, or its value as the payload. */
  function ServiceReply<T>(r: Result<T>, payload: T -> Payload): (reply: Reply)
    ensures r.Fail? <==> reply.ErrorReply?
    ensures r.Fail? ==> reply.message == Text(r.err) && reply.status == StatusBadRequest
    ensures r.Ok? ==> reply.payload == payload(r.value)
  {
    match r
    case Fail(e) => ErrorReply(Text(e), StatusBadRequest)
    case Ok(v) => Success(payload(v))
  }

  /** The list defaulting: a page or limit below 1 resets both. */
  function NormalizeList(req: ListRequest): (r: ListRequest)
    ensures r.page >= 1 && r.limit >= 1
    ensures req.page >= 1 && req.limit >= 1 ==> r == req
    ensures req.page < 1 || req.limit < 1 ==> r == ListRequest(DefaultPage, DefaultLimit)
  {
    if req.page < 1 || req.limit < 1 then req.(page := DefaultPage, limit := DefaultLimit) else req
  }

  /** Defaulting twice is defaulting once. */
  lemma NormalizeListIdempotent(req: ListRequest)
    ensures NormalizeList(NormalizeList(req)) == NormalizeList(req)
  {
  }

  /** `GetMe`: the caller's own record. */
  function GetMe(service: Service, ctxUserId: Option<string>): (h: Handled)
    ensures !Authenticated(ctxUserId) ==> h == Handled(UnauthorizedReply, None)
    ensures Authenticated(ctxUserId) ==>
      h.call == Some(GetUserByIDCall(ctxUserId.value)) &&
      h.reply == ServiceReply(service.getUserByID(ctxUserId.value), (m: GetMeResponse) => MePayload(m))
  {
    if !Authenticated(ctxUserId) then Handled(UnauthorizedReply, None)
    else
      var id := ctxUserId.value;
      Handled(ServiceReply(service.getUserByID(id), (m: GetMeResponse) => MePayload(m)), Some(GetUserByIDCall(id)))
  }

  /** `UserListGet`: decode, default page and limit, list. */
  function UserListGet(service: Service, body: Decoded<ListRequest>): (h: Handled)
    ensures body.Malformed? ==> h == Handled(InvalidBodyReply, None)
    ensures body.Decoded? ==>
      h.call.Some? && h.call.value.GetUserListCall? &&
      h.call.value.list.page >= 1 && h.call.value.list.limit >= 1
    ensures body.Decoded? && body.value.page >= 1 && body.value.limit >= 1 ==>
      h.call == Some(GetUserListCall(body.value))
    ensures body.Decoded? && (body.value.page < 1 || body.value.limit < 1) ==>
      h.call == Some(GetUserListCall(ListRequest(DefaultPage, DefaultLimit)))
    ensures h.call.Some? && h.call.value.GetUserListCall? ==>
      h.reply == ServiceReply(service.getUserList(h.call.value.list), (l: ListResponse) => ListPayload(l))
  {
    match body
    case Malformed => Handled(InvalidBodyReply, None)
    case Decoded(req) =>
      var req := NormalizeList(req);
      Handled(ServiceReply(service.getUserList(req), (l: ListResponse) => ListPayload(l)), Some(GetUserListCall(req)))
  }

  /** The reply for a request the validator refused: its messages joined after "Validation failed: ". */
  method ValidationReply(violations: seq<string>) returns (reply: Reply)
    ensures reply == ErrorReply(ValidationFailed + JoinedErrors(violations), StatusBadRequest)
  {
    var joined := JoinErrors(violations);
    reply := ErrorReply(ValidationFailed + joined, StatusBadRequest);
  }

  /**
   * `UserRegister`. `violations` are the validator's messages for the decoded
   * request, in order (none when it is valid).
   */
  method UserRegister(service: Service, lower: string -> string, body: Decoded<RegisterRequest>,
                      violations: seq<string>) returns (h: Handled)
    ensures body.Malformed? ==> h == Handled(InvalidBodyReply, None)
    ensures body.Decoded? && violations != [] ==>
      h == Handled(ErrorReply(ValidationFailed + JoinedErrors(violations), StatusBadRequest), None)
    ensures body.Decoded? && violations == [] ==>
      var req := body.value;
      && h.call == Some(RegisterUserCall(RegisterRequest(req.name, lower(req.email), req.password)))
      && h.reply == ServiceReply(service.registerUser(h.call.value.register),
                                 (r: RegisterResponse) => RegisterPayload(r))
    ensures h.reply.ErrorReply? ==> h.reply.status == StatusBadRequest
  {
    if body.Malformed? {
      return Handled(InvalidBodyReply, None);
    }
    var req := body.value;
    if violations != [] {
      var reply := ValidationReply(violations);
      return Handled(reply, None);
    }
    req := req.(email := lower(req.email));
    var reply := ServiceReply(service.registerUser(req), (r: RegisterResponse) => RegisterPayload(r));
    h := Handled(reply, Some(RegisterUserCall(req)));
  }

  /** `UserLogin`. */
  method UserLogin(service: Service, lower: string -> string, body: Decoded<LoginRequest>,
                   violations: seq<string>) returns (h: Handled)
    ensures body.Malformed? ==> h == Handled(InvalidBodyReply, None)
    ensures body.Decoded? && violations != [] ==>
      h == Handled(ErrorReply(ValidationFailed + JoinedErrors(violations), StatusBadRequest), None)
    ensures body.Decoded? && violations == [] ==>
      var req := body.value;
      && h.call == Some(LoginUserCall(LoginRequest(lower(req.email), req.password)))
      && h.reply == ServiceReply(service.loginUser(h.call.value.login), (r: LoginResponse) => LoginPayload(r))
    ensures h.reply.ErrorReply? ==> h.reply.status == StatusBadRequest
  {
    if body.Malformed? {
      return Handled(InvalidBodyReply, None);
    }
    var req := body.value;
    if violations != [] {
      var reply := ValidationReply(violations);
      return Handled(reply, None);
    }
    req := req.(email := lower(req.email));
    var reply := ServiceReply(service.loginUser(req), (r: LoginResponse) => LoginPayload(r));
    h := Handled(reply, Some(LoginUserCall(req)));
  }

  /** `UserUpdate`: the body is decoded before the caller's id is checked. */
  method UserUpdate(service: Service, lower: string -> string, ctxUserId: Option<string>,
                    body: Decoded<UpdateRequest>, violations: seq<string>) returns (h: Handled)
    ensures body.Malformed? ==> h == Handled(InvalidBodyReply, None)
    ensures body.Decoded? && !Authenticated(ctxUserId) ==> h == Handled(UnauthorizedReply, None)
    ensures body.Decoded? && Authenticated(ctxUserId) && violations != [] ==>
      h == Handled(ErrorReply(ValidationFailed + JoinedErrors(violations), StatusBadRequest), None)
    ensures body.Decoded? && Authenticated(ctxUserId) && violations == [] ==>
      var req := body.value;
      && h.call == Some(UpdateUserCall(ctxUserId.value, UpdateRequest(req.name, lower(req.email))))
      && h.reply == ServiceReply(service.updateUser(ctxUserId.value, h.call.value.update),
                                 (r: UpdateResponse) => UpdatePayload(r))
    ensures h.reply.ErrorReply? ==>
      h.reply.status == StatusBadRequest || (h.reply == UnauthorizedReply && h.call.None?)
  {
    if body.Malformed? {
      return Handled(InvalidBodyReply, None);
    }
    var req := body.value;
    if !Authenticated(ctxUserId) {
      return Handled(UnauthorizedReply, None);
    }
    var userId := ctxUserId.value;
    if violations != [] {
      var reply := ValidationReply(violations);
      return Handled(reply, None);
    }
    req := req.(email := lower(req.email));
    var reply := ServiceReply(service.updateUser(userId, req), (r: UpdateResponse) => UpdatePayload(r));
    h := Handled(reply, Some(UpdateUserCall(userId, req)));
  }

  /** `UserDelete`: delete the caller's own record. */
  function UserDelete(service: Service, ctxUserId: Option<string>): (h: Handled)
    ensures !Authenticated(ctxUserId) ==> h == Handled(UnauthorizedReply, None)
    ensures Authenticated(ctxUserId) ==> h.call == Some(DeleteUserCall(ctxUserId.value))
    ensures Authenticated(ctxUserId) && service.deleteUser(ctxUserId.value).Fail? ==>
      h.reply == ErrorReply(Text(service.deleteUser(ctxUserId.value).err), StatusBadRequest)
    ensures Authenticated(ctxUserId) && service.deleteUser(ctxUserId.value).Ok? ==>
      h.reply == Success(TextPayload(Deleted))
  {
    if !Authenticated(ctxUserId) then Handled(UnauthorizedReply, None)
    else
      var id := ctxUserId.value;
      Handled(ServiceReply(service.deleteUser(id), (_: ()) => TextPayload(Deleted)), Some(DeleteUserCall(id)))
  }

  /**
   * Every error reply of the three function handlers is either 401
   * "Unauthorized", made before any service call, or a 400; the three method
   * handlers state the same in their own contracts.
   */
  lemma ErrorRepliesAre400Or401(service: Service, ctxUserId: Option<string>, listBody: Decoded<ListRequest>)
    ensures forall h :: h in {GetMe(service, ctxUserId), UserDelete(service, ctxUserId), UserListGet(service, listBody)} ==>
      (h.reply.ErrorReply? ==>
        (h.reply.status == StatusBadRequest) ||
        (h.reply == UnauthorizedReply && h.call.None?))
  {
  }

}
