/** `planService`: the creator-only edits of a plan and the read models
    built from likes, memberships and invitations. */
module PlanService {
  import opened Common
  import opened Store
  import UserService

  /** Shown for an invitee who has no account. */
  const UnregisteredName: string := "未登録ユーザー"

  /** The notifications that do not point at `planId`, which deleting the
      plan keeps: each as often as before, in the same order. */
  function NotesWithout(ns: seq<Notification>, planId: string): (r: seq<Notification>)
    ensures forall n :: n in r <==> n in ns && n.planId != planId
    ensures forall n :: multiset(r)[n] == if n.planId != planId then multiset(ns)[n] else 0
    ensures Subseq(r, ns)
  {
    if ns == [] then []
    else
      var tail := NotesWithout(ns[1..], planId);
      assert ns == [ns[0]] + ns[1..];
      assert multiset(ns) == multiset{ns[0]} + multiset(ns[1..]);
      if ns[0].planId != planId then
        assert ([ns[0]] + tail)[1..] == tail;
        [ns[0]] + tail
      else tail
  }

  /** `deletePlan`: only the creator may delete; the plan goes together
      with every row that refers to it. */
  function DeletePlan(d: Db, userId: string, planId: string): (r: Step<bool>)
    ensures planId !in d.plans ==> r == Step(d, Err(PlanNotFound))
    ensures planId in d.plans && d.plans[planId].creatorId != userId ==> r == Step(d, Err(ForbiddenNotOwner))
    ensures r.out.Ok? <==> planId in d.plans && d.plans[planId].creatorId == userId
    ensures r.out.Ok? ==>
              && r.out.value
              && r.db.plans == d.plans - {planId}
              && r.db.users == d.users && r.db.emails == d.emails
              && (forall k :: k in r.db.members <==> k in d.members && k.1 != planId)
              && (forall k :: k in r.db.members ==> r.db.members[k] == d.members[k])
              && (forall i :: i in r.db.invitations <==> i in d.invitations && d.invitations[i].planId != planId)
              && (forall i :: i in r.db.invitations ==> r.db.invitations[i] == d.invitations[i])
              && (forall l :: l in r.db.likes <==> l in d.likes && l.1 != planId)
              && (forall n :: n in r.db.notifications <==> n in d.notifications && n.planId != planId)
              && (forall n :: multiset(r.db.notifications)[n]
                               == if n.planId != planId then multiset(d.notifications)[n] else 0)
              && Subseq(r.db.notifications, d.notifications)
  {
    if planId !in d.plans then Step(d, Err(PlanNotFound))
    else if d.plans[planId].creatorId != userId then Step(d, Err(ForbiddenNotOwner))
    else
      var members := map k | k in d.members && k.1 != planId :: d.members[k];
      var invitations := map i | i in d.invitations && d.invitations[i].planId != planId :: d.invitations[i];
      var likes := set l | l in d.likes && l.1 != planId;
      Step(Db(d.users, d.emails, d.plans - {planId}, members, invitations, likes,
              NotesWithout(d.notifications, planId)),
           Ok(true))
  }

  /** Deleting a plan keeps the foreign keys of what remains. */
  lemma DeletePlanConsistent(d: Db, userId: string, planId: string)
    requires Consistent(d)
    ensures Consistent(DeletePlan(d, userId, planId).db)
  {
    var r := DeletePlan(d, userId, planId);
    if r.out.Ok? {
      RemainderConsistent(d, r.db, planId);
    }
  }

  /** A store that keeps the users and drops `planId` together with every
      row that names it keeps the foreign keys. */
  lemma RemainderConsistent(d: Db, r: Db, planId: string)
    requires Consistent(d)
    requires r.users == d.users && r.emails == d.emails && r.plans == d.plans - {planId}
    requires forall k :: k in r.members ==> k in d.members && k.1 != planId
    requires forall i :: i in r.invitations ==>
               i in d.invitations && r.invitations[i] == d.invitations[i] && d.invitations[i].planId != planId
    requires forall l :: l in r.likes ==> l in d.likes && l.1 != planId
    requires forall n :: n in r.notifications ==> n in d.notifications && n.planId != planId
    ensures Consistent(r)
  {
    forall i | i in r.invitations ensures InvitationLinked(r, r.invitations[i]) {
      assert InvitationLinked(d, d.invitations[i]);
    }
    forall j | 0 <= j < |r.notifications| ensures NotificationLinked(r, r.notifications[j]) {
      var n := r.notifications[j];
      assert n in r.notifications;
      var j' :| 0 <= j' < |d.notifications| && d.notifications[j'] == n;
      assert NotificationLinked(d, d.notifications[j']);
    }
  }

  /** The fields `updatePlan` may change; an absent field is kept. */
  datatype PlanPatch = PlanPatch(title: Upd<string>, description: Upd<string>, isPublic: Upd<bool>)

  function Patched(p: Plan, u: PlanPatch): (q: Plan)
    ensures q.creatorId == p.creatorId
  {
    Plan(Apply(u.title, p.title),
         if u.description.Set? then Some(u.description.value) else p.description,
         Apply(u.isPublic, p.isPublic),
         p.creatorId)
  }

  /** `updatePlan`: the same guards as `deletePlan`; on success only the
      supplied fields of that one plan change. */
  function UpdatePlan(d: Db, userId: string, planId: string, u: PlanPatch): (r: Step<Plan>)
    ensures planId !in d.plans ==> r == Step(d, Err(PlanNotFound))
    ensures planId in d.plans && d.plans[planId].creatorId != userId ==> r == Step(d, Err(ForbiddenNotOwner))
    ensures r.out.Ok? <==> planId in d.plans && d.plans[planId].creatorId == userId
    ensures r.out.Ok? ==>
              var before := d.plans[planId];
              && r.db == d.(plans := d.plans[planId := r.out.value])
              && r.out.value.title == (if u.title.Set? then u.title.value else before.title)
              && r.out.value.description == (if u.description.Set? then Some(u.description.value) else before.description)
              && r.out.value.isPublic == (if u.isPublic.Set? then u.isPublic.value else before.isPublic)
              && r.out.value.creatorId == before.creatorId
  {
    if planId !in d.plans then Step(d, Err(PlanNotFound))
    else if d.plans[planId].creatorId != userId then Step(d, Err(ForbiddenNotOwner))
    else
      var q := Patched(d.plans[planId], u);
      Step(d.(plans := d.plans[planId := q]), Ok(q))
  }

  /** An empty update by the creator returns the plan and changes nothing;
      repeating an update changes nothing more. */
  lemma UpdatePlanIdempotent(d: Db, userId: string, planId: string, u: PlanPatch)
    requires planId in d.plans && d.plans[planId].creatorId == userId
    ensures UpdatePlan(d, userId, planId, PlanPatch(Keep, Keep, Keep)) == Step(d, Ok(d.plans[planId]))
    ensures var d1 := UpdatePlan(d, userId, planId, u).db;
            UpdatePlan(d1, userId, planId, u).db == d1
  {
    assert d.plans[planId := d.plans[planId]] == d.plans;
  }

  /** `getLikeCount`: the number of likes the plan has. */
  function GetLikeCount(d: Db, planId: string): (r: Result<nat>)
    ensures r.Err? <==> planId !in d.plans
    ensures r.Err? ==> r.error == PlanNotFound
    ensures r.Ok? ==> r.value == |LikesOf(d, planId)|
  {
    if planId !in d.plans then Err(PlanNotFound) else Ok(|LikesOf(d, planId)|)
  }

  /** A new like adds one to the count and removing it takes one away. */
  lemma LikeCountFollowsLikes(d: Db, userId: string, planId: string)
    requires planId in d.plans && userId in d.users && (userId, planId) !in d.likes
    ensures var d1 := UserService.AddLike(d, userId, planId).db;
            && GetLikeCount(d1, planId) == Ok(|LikesOf(d, planId)| + 1)
            && GetLikeCount(UserService.RemoveLike(d1, userId, planId).db, planId) == GetLikeCount(d, planId)
  {
    var d1 := UserService.AddLike(d, userId, planId).db;
    assert LikesOf(d1, planId) == LikesOf(d, planId) + {(userId, planId)};
    var d2 := UserService.RemoveLike(d1, userId, planId).db;
    assert LikesOf(d2, planId) == LikesOf(d, planId);
  }

  /** `hasUserLiked`: the plan is checked before the user. */
  function HasUserLiked(d: Db, userId: string, planId: string): (r: Result<bool>)
    ensures planId !in d.plans ==> r == Err(PlanNotFound)
    ensures planId in d.plans && userId !in d.users ==> r == Err(UserNotFound)
    ensures r.Ok? <==> planId in d.plans && userId in d.users
    ensures r.Ok? ==> (r.value <==> (userId, planId) in d.likes)
  {
    if planId !in d.plans then Err(PlanNotFound)
    else if userId !in d.users then Err(UserNotFound)
    else Ok((userId, planId) in d.likes)
  }

  /** After `addLike` the user has liked the plan; after `removeLike` not. */
  lemma LikedFollowsLikes(d: Db, userId: string, planId: string)
    requires planId in d.plans && userId in d.users
    ensures HasUserLiked(UserService.AddLike(d, userId, planId).db, userId, planId) == Ok(true)
    ensures HasUserLiked(UserService.RemoveLike(d, userId, planId).db, userId, planId) == Ok(false)
  {
  }

  datatype ActiveMember = ActiveMember(id: string, username: string, role: Role)

  /** An invited user; `id` is absent for an invitee with no account. */
  datatype InvitedMember = InvitedMember(id: Option<string>, username: string, invitationId: nat)

  datatype Members = Members(active: set<ActiveMember>, invited: set<InvitedMember>)

  function ActiveOf(d: Db, k: (string, string)): ActiveMember
    requires k in d.members && k.0 in d.users
  {
    ActiveMember(k.0, d.users[k.0].username, d.members[k])
  }

  function InvitedOf(d: Db, i: nat): InvitedMember
    requires i in d.invitations
  {
    var v := d.invitations[i];
    if v.inviteeId.Some? && v.inviteeId.value in d.users
    then InvitedMember(v.inviteeId, d.users[v.inviteeId.value].username, i)
    else InvitedMember(None, UnregisteredName, i)
  }

  /** `getPlanMembers`: the plan's memberships, and its invitations that
      are still PENDING. */
  function GetPlanMembers(d: Db, planId: string): (r: Result<Members>)
    ensures r.Err? <==> planId !in d.plans
    ensures r.Err? ==> r.error == PlanNotFound
    ensures r.Ok? ==>
              && (forall a :: a in r.value.active ==>
                    (a.id, planId) in d.members && a.role == d.members[(a.id, planId)] && a.id in d.users
                    && a.username == d.users[a.id].username)
              && (forall v :: v in r.value.invited ==>
                    v.invitationId in d.invitations && d.invitations[v.invitationId].planId == planId
                    && d.invitations[v.invitationId].status == Pending
                    && (v.id.None? <==> v.username == UnregisteredName && v == InvitedMember(None, UnregisteredName, v.invitationId))
                    && (v.id.Some? ==> v.id == d.invitations[v.invitationId].inviteeId))
  {
    if planId !in d.plans then Err(PlanNotFound)
    else
      Ok(Members(
        set k | k in d.members && k.1 == planId && k.0 in d.users :: ActiveOf(d, k),
        set i | i in d.invitations && d.invitations[i].planId == planId && d.invitations[i].status == Pending
              :: InvitedOf(d, i)))
  }

  /** Under the foreign keys, every membership of the plan is listed, and
      every pending invitation of it is listed once with its invitee. */
  lemma MembersComplete(d: Db, planId: string)
    requires Consistent(d) && planId in d.plans
    ensures var r := GetPlanMembers(d, planId).value;
            && (forall u :: (u, planId) in d.members ==> ActiveMember(u, d.users[u].username, d.members[(u, planId)]) in r.active)
            && (forall i :: i in d.invitations && d.invitations[i].planId == planId && d.invitations[i].status == Pending
                  ==> exists v :: v in r.invited && v.invitationId == i && v.id == d.invitations[i].inviteeId)
  {
    var r := GetPlanMembers(d, planId).value;
    forall u | (u, planId) in d.members
      ensures ActiveMember(u, d.users[u].username, d.members[(u, planId)]) in r.active
    {
      assert ActiveOf(d, (u, planId)) in r.active;
    }
    forall i | i in d.invitations && d.invitations[i].planId == planId && d.invitations[i].status == Pending
      ensures exists v :: v in r.invited && v.invitationId == i && v.id == d.invitations[i].inviteeId
    {
      assert InvitationLinked(d, d.invitations[i]);
      assert InvitedOf(d, i) in r.invited;
    }
  }

  /** An invitation just sent shows among the invited, with the invitee's
      account. */
  lemma InvitationListed(d: Db, currentUserId: string, planId: string, targetEmail: string, newId: nat)
    requires newId !in d.invitations && Consistent(d)
    requires UserService.SendInvitation(d, currentUserId, planId, targetEmail, newId).out.Ok?
    ensures var d1 := UserService.SendInvitation(d, currentUserId, planId, targetEmail, newId).db;
            && GetPlanMembers(d1, planId).Ok?
            && InvitedMember(Some(d.emails[targetEmail]), d.users[d.emails[targetEmail]].username, newId)
               in GetPlanMembers(d1, planId).value.invited
  {
    UserService.SendInvitationSpec(d, currentUserId, planId, targetEmail, newId);
    var d1 := UserService.SendInvitation(d, currentUserId, planId, targetEmail, newId).db;
    assert (currentUserId, planId) in d.members;
    assert InvitedOf(d1, newId) in GetPlanMembers(d1, planId).value.invited;
  }
}
