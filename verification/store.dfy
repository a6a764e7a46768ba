/** The server's database as plain values: users, plans, memberships,
    invitations, likes and notifications. Composite unique keys of the
    schema (`userId_planId`) become map keys or set elements; generated ids
    are chosen by the caller and must be fresh. */
module Store {
  import opened Common

  datatype Role = Owner | Editor | Viewer

  datatype InvitationStatus = Pending | Accepted | Declined

  datatype NotificationKind = InvitationNotice | LikeNotice

  datatype User = User(email: string, username: string)

  datatype Plan = Plan(title: string, description: Option<string>, isPublic: bool, creatorId: string)

  datatype Invitation = Invitation(inviterId: string, planId: string, inviteeEmail: string,
                                   inviteeId: Option<string>, status: InvitationStatus)

  datatype Notification = Notification(kind: NotificationKind, userId: string, triggerUserId: string,
                                       planId: string, invitationId: Option<nat>, isRead: bool)

  /** `members` is keyed by `(userId, planId)`, `likes` holds
      `(userId, planId)` pairs, `emails` is the unique index from e-mail to
      user id. */
  datatype Db = Db(
    users: map<string, User>,
    emails: map<string, string>,
    plans: map<string, Plan>,
    members: map<(string, string), Role>,
    invitations: map<nat, Invitation>,
    likes: set<(string, string)>,
    notifications: seq<Notification>)

  /** The error tags the services throw. `ForeignKey` stands for the
      database refusing a row that points at a user who does not exist. */
  datatype Error =
    | PlanNotFound | PlanIsPrivate | ForbiddenNotOwner | UserNotFound
    | AlreadyMember | AlreadyInvited | InvitationNotFound | ForbiddenNotInvitee
    | ForeignKey | DuplicationFailed

  datatype Result<T> = Ok(value: T) | Err(error: Error)

  /** A service call: the database afterwards and what the call returned. */
  datatype Step<T> = Step(db: Db, out: Result<T>)

  /** The foreign keys of the schema, and the e-mail index naming exactly
      the users' e-mails. */
  ghost predicate Consistent(d: Db)
  {
    && (forall e :: e in d.emails ==> d.emails[e] in d.users && d.users[d.emails[e]].email == e)
    && (forall u :: u in d.users ==> d.users[u].email in d.emails && d.emails[d.users[u].email] == u)
    && (forall p :: p in d.plans ==> d.plans[p].creatorId in d.users)
    && (forall k :: k in d.members ==> k.0 in d.users && k.1 in d.plans)
    && (forall i :: i in d.invitations ==> InvitationLinked(d, d.invitations[i]))
    && (forall l :: l in d.likes ==> l.0 in d.users && l.1 in d.plans)
    && (forall j :: 0 <= j < |d.notifications| ==> NotificationLinked(d, d.notifications[j]))
  }

  ghost predicate InvitationLinked(d: Db, v: Invitation)
  {
    v.inviterId in d.users && v.planId in d.plans && (v.inviteeId.Some? ==> v.inviteeId.value in d.users)
  }

  ghost predicate NotificationLinked(d: Db, n: Notification)
  {
    n.userId in d.users && n.triggerUserId in d.users && n.planId in d.plans
  }

  /** Whether a pending invitation of `userId` to `planId` exists. */
  predicate PendingInvite(d: Db, planId: string, userId: string)
  {
    exists i :: i in d.invitations && d.invitations[i].planId == planId
                && d.invitations[i].inviteeId == Some(userId) && d.invitations[i].status == Pending
  }

  /** The likes of one plan. */
  function LikesOf(d: Db, planId: string): (r: set<(string, string)>)
    ensures forall l :: l in r <==> l in d.likes && l.1 == planId
  {
    set l | l in d.likes && l.1 == planId
  }
}
