/** The approval endpoints: deciding an approval request, and listing the
    approvals of a namespace page by page. Request binding, validation, the
    signed-in user and the core calls are inputs; a handler's reply is
    either a wrapped error or a status with a body. */
module Approvals {
  import opened Common
  import opened Errors
  import Handlers

  datatype ApprovalType = ApprovalApproved | ApprovalRejected | ApprovalPending

  const ApprovedMessage: string := "The request has been approved successfully."
  const RejectedMessage: string := "The request has been rejected."

  /** The request's validation error, as the handlers quote it. */
  function ValidationText(v: Handlers.ValidateError): string
  {
    Handlers.FormatSpec(Some(v))
  }

  datatype ApprovalActionReq = ApprovalActionReq(approvalId: string, action: string)
  datatype ApprovalActionResp = ApprovalActionResp(id: string, status: ApprovalType, message: string)

  /** The decision an action string asks for: "approve" approves, anything
      else rejects; the message names the decision. */
  function Decide(action: string): (d: (ApprovalType, string))
    ensures d.0 == ApprovalApproved <==> action == "approve"
    ensures d.0 == ApprovalRejected <==> action != "approve"
    ensures d.1 == (if d.0 == ApprovalApproved then ApprovedMessage else RejectedMessage)
  {
    if action == "approve" then (ApprovalApproved, ApprovedMessage)
    else (ApprovalRejected, RejectedMessage)
  }

  /** What HandleApprovalAction sees: the namespace set by the middleware (if
      it is a string), the bound body, the validator's verdict, the signed-in
      user's id, and the core's ApproveOrRejectAction, which answers with an
      error's text or None. */
  datatype ActionEnv = ActionEnv(
    namespace: Option<string>,
    bound: Result<ApprovalActionReq>,
    validation: Option<Handlers.ValidateError>,
    user: Result<string>,
    approve: (string, string, ApprovalType, string) -> Option<string>)

  /** HandleApprovalAction: the namespace is checked before the body is
      bound, then binding, validation, the user and the core call, each
      failing with its own error code; on success 200 with the approval id,
      the decided status and its message. */
  function HandleApprovalAction(env: ActionEnv): (r: Reply<ApprovalActionResp>)
    ensures env.namespace.None? ==>
      r == Failed(WrapError(ErrRequiredFieldMissing, "could not get namespace", None, None))
    ensures env.namespace.Some? && env.bound.Err? ==> r.Failed? && r.he.errorCode == ErrInvalidInput
    ensures env.namespace.Some? && env.bound.Ok? && env.validation.Some? ==>
      r.Failed? && r.he.errorCode == ErrValidationFailed
      && r.he.msg == "request validation failed: " + ValidationText(env.validation.value)
    ensures r.Sent? <==>
      && env.namespace.Some? && env.bound.Ok? && env.validation.None? && env.user.Ok?
      && env.approve(env.bound.value.approvalId, env.user.value,
                     Decide(env.bound.value.action).0, env.namespace.value).None?
    ensures r.Sent? ==>
      && r.status == StatusOK
      && r.body.id == env.bound.value.approvalId
      && r.body.status == Decide(env.bound.value.action).0
      && r.body.message == Decide(env.bound.value.action).1
    ensures r.Failed? ==> r.he.code == StatusOf(r.he.errorCode)
  {
    if env.namespace.None? then
      Failed(WrapError(ErrRequiredFieldMissing, "could not get namespace", None, None))
    else if env.bound.Err? then
      Failed(WrapError(ErrInvalidInput, "invalid request", Some(env.bound.error), None))
    else if env.validation.Some? then
      var text := ValidationText(env.validation.value);
      Failed(WrapError(ErrValidationFailed, "request validation failed: " + text, Some(text), None))
    else if env.user.Err? then
      Failed(WrapError(ErrAuthenticationFailed, "could not get user details", Some(env.user.error), None))
    else
      var req := env.bound.value;
      var (status, message) := Decide(req.action);
      match env.approve(req.approvalId, env.user.value, status, env.namespace.value)
      case Some(e) => Failed(WrapError(ErrOperationFailed, "could not process approval action", Some(e), None))
      case None => Sent(StatusOK, ApprovalActionResp(req.approvalId, status, message))
  }

  datatype ApprovalPaginateRequest = ApprovalPaginateRequest(status: string, filter: string, page: int, count: int)

  /** An approval as the core lists it. */
  datatype Approval = Approval(
    uuid: string, actionId: string, flowName: string, status: ApprovalType,
    execId: string, requestedBy: string, createdAt: string, updatedAt: string)

  datatype ApprovalResp = ApprovalResp(
    id: string, actionId: string, flowName: string, status: ApprovalType,
    execId: string, requestedBy: string, createdAt: string, updatedAt: string)

  datatype ApprovalsPage = ApprovalsPage(approvals: seq<ApprovalResp>, pageCount: int, totalCount: int)

  /** The response entry for one approval: every field copied. */
  function ToResp(a: Approval): (r: ApprovalResp)
    ensures r.id == a.uuid && r.actionId == a.actionId && r.flowName == a.flowName
    ensures r.status == a.status && r.execId == a.execId && r.requestedBy == a.requestedBy
    ensures r.createdAt == a.createdAt && r.updatedAt == a.updatedAt
  {
    ApprovalResp(a.uuid, a.actionId, a.flowName, a.status, a.execId, a.requestedBy, a.createdAt, a.updatedAt)
  }

  /** The page handed to the core: pages are 1-based there, and a request
      for page 0 or page 1 both ask for the first page. */
  function CorePage(page: int): (p: int)
    requires page >= 0
    ensures p >= 1
    ensures page <= 1 ==> p == 1
    ensures page >= 1 ==> p == page
  {
    (if page > 0 then page - 1 else page) + 1
  }

  /** The page size handed to the core: a count of 0 means the default. */
  function EffectiveCount(count: int, countPerPage: int): (c: int)
    requires count >= 0 && countPerPage > 0
    ensures c > 0
    ensures count == 0 ==> c == countPerPage
    ensures count > 0 ==> c == count
  {
    if count == 0 then countPerPage else count
  }

  /** What HandleListApprovals sees; `list` is the core's
      GetApprovalsPaginated(namespace, status, filter, page, count). */
  datatype ListEnv = ListEnv(
    namespace: Option<string>,
    bound: Result<ApprovalPaginateRequest>,
    validation: Option<Handlers.ValidateError>,
    list: (string, string, string, int, int) -> Result<(seq<Approval>, int, int)>)

  /** The request passed every check before the core call. */
  predicate ReachesCore(env: ListEnv)
  {
    && env.namespace.Some? && env.bound.Ok? && env.validation.None?
    && env.bound.value.page >= 0 && env.bound.value.count >= 0
  }

  /** HandleListApprovals: a negative page or count is refused before the
      core is called; otherwise the core is asked for page max(page, 1) with
      the default count for 0, and each approval it lists becomes one
      response entry, in order. `coreCall` is the page and count the core
      was called with, if it was called. */
  method HandleListApprovals(env: ListEnv, countPerPage: int)
    returns (r: Reply<ApprovalsPage>, coreCall: Option<(int, int)>)
    requires countPerPage > 0
    ensures coreCall.Some? <==> ReachesCore(env)
    ensures (env.namespace.Some? && env.bound.Ok? && env.validation.None?
             && (env.bound.value.page < 0 || env.bound.value.count < 0)) ==>
      r == Failed(WrapError(ErrInvalidPagination, "invalid pagination parameters", None, None))
    ensures coreCall.Some? ==>
      coreCall.value == (CorePage(env.bound.value.page), EffectiveCount(env.bound.value.count, countPerPage))
    ensures r.Sent? ==> coreCall.Some? && r.status == StatusOK
    ensures coreCall.Some? ==>
      var req := env.bound.value;
      var res := env.list(env.namespace.value, req.status, req.filter, coreCall.value.0, coreCall.value.1);
      && (r.Sent? <==> res.Ok?)
      && (res.Err? ==> r == Failed(WrapError(ErrOperationFailed, "could not get approvals", Some(res.error), None)))
      && (res.Ok? ==>
           && |r.body.approvals| == |res.value.0|
           && (forall i :: 0 <= i < |res.value.0| ==> r.body.approvals[i] == ToResp(res.value.0[i]))
           && r.body.pageCount == res.value.1 && r.body.totalCount == res.value.2)
  {
    coreCall := None;
    if env.namespace.None? {
      return Failed(WrapError(ErrRequiredFieldMissing, "could not get namespace", None, None)), None;
    }
    if env.bound.Err? {
      return Failed(WrapError(ErrInvalidInput, "could not decode request", Some(env.bound.error), None)), None;
    }
    if env.validation.Some? {
      var text := ValidationText(env.validation.value);
      return Failed(WrapError(ErrValidationFailed, "request validation failed", Some(text), None)), None;
    }
    var req := env.bound.value;
    if req.page < 0 || req.count < 0 {
      return Failed(WrapError(ErrInvalidPagination, "invalid pagination parameters", None, None)), None;
    }
    if req.page > 0 {
      req := req.(page := req.page - 1);
    }
    if req.count == 0 {
      req := req.(count := countPerPage);
    }
    coreCall := Some((req.page + 1, req.count));
    var res := env.list(env.namespace.value, req.status, req.filter, req.page + 1, req.count);
    if res.Err? {
      return Failed(WrapError(ErrOperationFailed, "could not get approvals", Some(res.error), None)), coreCall;
    }
    var (approvals, pageCount, totalCount) := res.value;
    var responses := new ApprovalResp[|approvals|];
    var i := 0;
    while i < |approvals|
      invariant 0 <= i <= |approvals|
      invariant forall j :: 0 <= j < i ==> responses[j] == ToResp(approvals[j])
    {
      responses[i] := ToResp(approvals[i]);
      i := i + 1;
    }
    r := Sent(StatusOK, ApprovalsPage(responses[..], pageCount, totalCount));
  }
}
