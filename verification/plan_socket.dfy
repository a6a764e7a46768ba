/** The admission checks of the `/ws/plan/:planId` WebSocket route, as a
    decision on the abstract database. Verifying the token is an oracle
    (`verify` gives the token's user id, or nothing when it is invalid);
    `lookupOk` says whether the membership query ran, and `setupOk` whether
    handing the socket to the document relay did. */
module PlanSocket {
  import opened Common
  import opened Store
  import UserService

  /** Close codes of section 7.4.1 of RFC 6455. */
  const PolicyViolation: int := 1008
  const InternalError: int := 1011

  /** What becomes of a connection: an HTTP 400 answer, a close with a
      code, or attachment to the collaborative document `docName`. */
  datatype Admission = BadRequest | Close(code: int) | Attach(docName: string)

  function Admit(d: Db, isSocket: bool, planId: Option<string>, token: Option<string>,
                 verify: string -> Option<string>, lookupOk: bool, setupOk: bool): (a: Admission)
    ensures !isSocket <==> a == BadRequest
    ensures isSocket && !Truthy(planId) ==> a == Close(PolicyViolation)
    ensures isSocket && Truthy(planId) && !Truthy(token) ==> a == Close(PolicyViolation)
    ensures isSocket && Truthy(planId) && Truthy(token) && verify(token.value).None? ==> a == Close(PolicyViolation)
    ensures a.Attach? <==>
              && isSocket && Truthy(planId) && Truthy(token) && verify(token.value).Some?
              && lookupOk && (verify(token.value).value, planId.value) in d.members && setupOk
    ensures a.Attach? ==> a.docName == planId.value
    ensures a == Close(InternalError) <==>
              && isSocket && Truthy(planId) && Truthy(token) && verify(token.value).Some?
              && (!lookupOk || ((verify(token.value).value, planId.value) in d.members && !setupOk))
  {
    if !isSocket then BadRequest
    else if !Truthy(planId) then Close(PolicyViolation)
    else if !Truthy(token) then Close(PolicyViolation)
    else if verify(token.value).None? then Close(PolicyViolation)
    else
      var userId := verify(token.value).value;
      if !lookupOk then Close(InternalError)
      else if (userId, planId.value) !in d.members then Close(PolicyViolation)
      else if !setupOk then Close(InternalError)
      else Attach(planId.value)
  }

  /** A signed-in user who is not a member is turned away with 1008 (when
      the lookup runs), whatever happens afterwards. */
  lemma NonMemberRefused(d: Db, planId: string, token: string, verify: string -> Option<string>, setupOk: bool)
    requires planId != "" && token != "" && verify(token).Some?
    requires (verify(token).value, planId) !in d.members
    ensures Admit(d, true, Some(planId), Some(token), verify, true, setupOk) == Close(PolicyViolation)
  {
  }

  /** The creator of a plan made with `createPlan` is admitted to it. */
  lemma CreatorAdmitted(d: Db, userId: string, title: string, description: string, newId: string,
                        token: string, verify: string -> Option<string>)
    requires newId !in d.plans && userId in d.users && newId != ""
    requires token != "" && verify(token) == Some(userId)
    ensures var d1 := UserService.CreatePlan(d, userId, title, description, newId).db;
            Admit(d1, true, Some(newId), Some(token), verify, true, true) == Attach(newId)
  {
  }

  /** As the service is written, whoever imports a plan is refused by the
      socket on their own copy, and may not invite anyone to it: no
      membership row names them. */
  lemma ImportAsWrittenLocksOutImporter(d: Db, sourceId: string, userId: string, newId: string,
                                        token: string, verify: string -> Option<string>, invitationId: nat,
                                        email: string)
    requires Consistent(d) && newId !in d.plans && newId != "" && invitationId !in d.invitations
    requires UserService.ImportPlanAsWritten(d, sourceId, userId, newId, true).out.Ok?
    requires token != "" && verify(token) == Some(userId)
    ensures var d1 := UserService.ImportPlanAsWritten(d, sourceId, userId, newId, true).db;
            && d1.plans[newId].creatorId == userId
            && Admit(d1, true, Some(newId), Some(token), verify, true, true) == Close(PolicyViolation)
            && UserService.SendInvitation(d1, userId, newId, email, invitationId).out == Err(ForbiddenNotOwner)
  {
    assert (userId, newId) !in d.members;
  }

  /** With the OWNER row written, the importer is admitted to the copy and
      may invite others, as the creator of a new plan is. */
  lemma ImportAdmitsImporter(d: Db, sourceId: string, userId: string, newId: string,
                             token: string, verify: string -> Option<string>, invitationId: nat, email: string)
    requires newId !in d.plans && newId != "" && invitationId !in d.invitations
    requires UserService.ImportPlan(d, sourceId, userId, newId, true).out.Ok?
    requires token != "" && verify(token) == Some(userId)
    ensures var d1 := UserService.ImportPlan(d, sourceId, userId, newId, true).db;
            && d1.plans[newId].creatorId == userId
            && Admit(d1, true, Some(newId), Some(token), verify, true, true) == Attach(newId)
            && UserService.SendInvitation(d1, userId, newId, email, invitationId).out != Err(ForbiddenNotOwner)
  {
  }
}
