/** The credential endpoints. In this version of the handlers, wrapError is
    given the HTTP status itself rather than an error code, so a refusal
    carries a status, a message and the cause. */
module CredentialHandlers {
  import opened Common
  import Handlers
  import Approvals
  import CoreCredentials

  /** The error this file's wrapError builds: status, message and cause. */
  datatype StatusError = StatusError(code: int, msg: string, err: Option<string>)

  /** A handler's reply: a refusal, or a status with a JSON body (None for a
      reply with no content). */
  datatype CredReply<T> = Refused(e: StatusError) | Answered(status: int, body: Option<T>)

  const StatusOK: int := 200
  const StatusCreated: int := 201
  const StatusBadRequest: int := 400
  const StatusNotFound: int := 404
  const StatusInternalServerError: int := 500

  const EmptyIdMessage: string := "credential ID cannot be empty"

  datatype CredentialReq = CredentialReq(name: string, privateKey: string, password: string)

  /** The credential handed to the core for a request. */
  function ToCredential(req: CredentialReq): (c: CoreCredentials.Credential)
    ensures c.name == req.name && c.privateKey == req.privateKey && c.password == req.password && c.id == ""
  {
    CoreCredentials.Credential("", req.name, req.privateKey, req.password)
  }

  /** HandleCreateCredential: binding and validation failures and a request
      with both a password and a private key are refused with 400 before the
      core is called; a core failure is a 500; success answers 201 with the
      created credential. */
  function HandleCreateCredential(bound: Result<CredentialReq>, validation: Option<Handlers.ValidateError>,
                                  create: CoreCredentials.Credential -> Result<CoreCredentials.Credential>)
    : (r: CredReply<CoreCredentials.Credential>)
    ensures bound.Err? ==> r.Refused? && r.e.code == StatusBadRequest
    ensures bound.Ok? && validation.Some? ==> r.Refused? && r.e.code == StatusBadRequest
    ensures bound.Ok? && validation.None? && bound.value.password != "" && bound.value.privateKey != "" ==>
      r == Refused(StatusError(StatusBadRequest, "cannot set both password and private key", None))
    ensures r.Answered? <==>
      && bound.Ok? && validation.None?
      && !(bound.value.password != "" && bound.value.privateKey != "")
      && create(ToCredential(bound.value)).Ok?
    ensures r.Answered? ==> r.status == StatusCreated && r.body == Some(create(ToCredential(bound.value)).value)
  {
    if bound.Err? then
      Refused(StatusError(StatusBadRequest, "could not decode request", Some(bound.error)))
    else if validation.Some? then
      var text := Approvals.ValidationText(validation.value);
      Refused(StatusError(StatusBadRequest, "request validation failed: " + text, Some(text)))
    else if bound.value.password != "" && bound.value.privateKey != "" then
      Refused(StatusError(StatusBadRequest, "cannot set both password and private key", None))
    else
      match create(ToCredential(bound.value))
      case Err(e) => Refused(StatusError(StatusInternalServerError, "could not create credential", Some(e)))
      case Ok(created) => Answered(StatusCreated, Some(created))
  }

  /** The handler and the core agree: a request carrying both secrets is
      refused by the handler, and the core would refuse it as well. */
  lemma BothSecretsRefusedTwice(req: CredentialReq, validation: Option<Handlers.ValidateError>,
                                create: CoreCredentials.Credential -> Result<CoreCredentials.Credential>)
    requires req.password != "" && req.privateKey != ""
    ensures HandleCreateCredential(Ok(req), validation, create).Refused?
    ensures CoreCredentials.ValidateCredential(ToCredential(req)).Some?
  {
  }

  /** HandleGetCredential: an empty id is refused with 400 before the core is
      called; a core failure is reported as 404. */
  function HandleGetCredential(credId: string, get: string -> Result<CoreCredentials.Credential>)
    : (r: CredReply<CoreCredentials.Credential>)
    ensures credId == "" ==> r == Refused(StatusError(StatusBadRequest, EmptyIdMessage, None))
    ensures credId != "" ==>
      (r.Answered? <==> get(credId).Ok?)
      && (r.Answered? ==> r.status == StatusOK && r.body == Some(get(credId).value))
      && (r.Refused? ==> r.e.code == StatusNotFound)
  {
    if credId == "" then Refused(StatusError(StatusBadRequest, EmptyIdMessage, None))
    else match get(credId)
      case Err(e) => Refused(StatusError(StatusNotFound, "credential not found", Some(e)))
      case Ok(cred) => Answered(StatusOK, Some(cred))
  }

  /** HandleUpdateCredential: an empty id is refused with 400 before the body
      is bound; then binding and validation; a core failure is a 500. */
  function HandleUpdateCredential(credId: string, bound: Result<CredentialReq>,
                                  validation: Option<Handlers.ValidateError>,
                                  update: (string, CoreCredentials.Credential) -> Result<CoreCredentials.Credential>)
    : (r: CredReply<CoreCredentials.Credential>)
    ensures credId == "" ==> r == Refused(StatusError(StatusBadRequest, EmptyIdMessage, None))
    ensures credId != "" && (bound.Err? || validation.Some?) ==> r.Refused? && r.e.code == StatusBadRequest
    ensures r.Answered? <==>
      credId != "" && bound.Ok? && validation.None? && update(credId, ToCredential(bound.value)).Ok?
    ensures r.Answered? ==> r.status == StatusOK && r.body == Some(update(credId, ToCredential(bound.value)).value)
  {
    if credId == "" then Refused(StatusError(StatusBadRequest, EmptyIdMessage, None))
    else if bound.Err? then Refused(StatusError(StatusBadRequest, "could not decode request", Some(bound.error)))
    else if validation.Some? then
      var text := Approvals.ValidationText(validation.value);
      Refused(StatusError(StatusBadRequest, "request validation failed: " + text, Some(text)))
    else match update(credId, ToCredential(bound.value))
      case Err(e) => Refused(StatusError(StatusInternalServerError, "could not update credential", Some(e)))
      case Ok(updated) => Answered(StatusOK, Some(updated))
  }

  /** HandleDeleteCredential: an empty id is refused with 400; a successful
      delete answers 200 with no content. */
  function HandleDeleteCredential(credId: string, delete: string -> Option<string>): (r: CredReply<()>)
    ensures credId == "" ==> r == Refused(StatusError(StatusBadRequest, EmptyIdMessage, None))
    ensures r.Answered? <==> credId != "" && delete(credId).None?
    ensures r.Answered? ==> r.status == StatusOK && r.body.None?
    ensures credId != "" && delete(credId).Some? ==> r.Refused? && r.e.code == StatusInternalServerError
  {
    if credId == "" then Refused(StatusError(StatusBadRequest, EmptyIdMessage, None))
    else match delete(credId)
      case Some(e) => Refused(StatusError(StatusInternalServerError, "could not delete credential", Some(e)))
      case None => Answered(StatusOK, None)
  }

  /** The offset handed to the core: the start of the requested page, where
      pages 0 and 1 are both the first page. */
  function Offset(page: int, count: int): (o: int)
    requires page >= 0 && count > 0
    ensures page == 0 ==> o == 0
    ensures page >= 1 ==> o == count * (page - 1)
    ensures o >= 0
  {
    count * (if page > 0 then page - 1 else page)
  }

  datatype PaginateRequest = PaginateRequest(page: int, count: int)

  datatype CredentialsPage = CredentialsPage(credentials: seq<CoreCredentials.Credential>, pageCount: int, totalCount: int)

  /** HandleListCredentials: a negative page or count is refused with 400
      before the core is called; otherwise the core is asked for `count`
      credentials (the default for 0) from the start of the page. `coreCall`
      is the limit and offset it was called with, if it was called. */
  method HandleListCredentials(bound: Result<PaginateRequest>, countPerPage: int,
                               list: (int, int) -> Result<CredentialsPage>)
    returns (r: CredReply<CredentialsPage>, coreCall: Option<(int, int)>)
    requires countPerPage > 0
    ensures coreCall.Some? <==> bound.Ok? && bound.value.page >= 0 && bound.value.count >= 0
    ensures bound.Err? ==> r.Refused? && r.e.code == StatusBadRequest
    ensures bound.Ok? && (bound.value.page < 0 || bound.value.count < 0) ==>
      r == Refused(StatusError(StatusBadRequest, "invalid pagination parameters", None))
    ensures coreCall.Some? ==>
      var count := Approvals.EffectiveCount(bound.value.count, countPerPage);
      && coreCall.value == (count, Offset(bound.value.page, count))
      && (r.Answered? <==> list(coreCall.value.0, coreCall.value.1).Ok?)
      && (r.Answered? ==> r.status == StatusOK && r.body == Some(list(coreCall.value.0, coreCall.value.1).value))
      && (r.Refused? ==> r.e.code == StatusInternalServerError)
  {
    coreCall := None;
    if bound.Err? {
      return Refused(StatusError(StatusBadRequest, "could not decode request", Some(bound.error))), None;
    }
    var req := bound.value;
    if req.page < 0 || req.count < 0 {
      return Refused(StatusError(StatusBadRequest, "invalid pagination parameters", None)), None;
    }
    if req.page > 0 {
      req := req.(page := req.page - 1);
    }
    if req.count == 0 {
      req := req.(count := countPerPage);
    }
    coreCall := Some((req.count, req.count * req.page));
    var res := list(req.count, req.count * req.page);
    if res.Err? {
      return Refused(StatusError(StatusInternalServerError, "could not list credentials", Some(res.error))), coreCall;
    }
    r := Answered(StatusOK, Some(res.value));
  }

  /** Consecutive pages ask for adjacent, non-overlapping windows. */
  lemma PagesAreAdjacent(page: int, count: int)
    requires page >= 1 && count > 0
    ensures Offset(page + 1, count) == Offset(page, count) + count
  {
  }
}
