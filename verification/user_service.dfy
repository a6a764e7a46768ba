/** The plan, invitation and like services of `userService`, each call one
    transition of the database. A call that throws leaves the database as
    it was: the multi-row ones run in one transaction, and `importPlan`
    removes its half-made copy itself. */
module UserService {
  import opened Common
  import opened Store
  import NodeTypes

  /** What is appended to a copied plan's title. */
  const CopySuffix: string := " のコピー"

  /** The user id the search filters likes with when nobody is signed in. */
  const GuestId: string := "dummy-id-for-guest"

  /** `createPlan`: the plan and its creator's OWNER membership, together.
      `newId` is the id the database generates. */
  function CreatePlan(d: Db, userId: string, title: string, description: string, newId: string)
    : (r: Step<string>)
    requires newId !in d.plans
    ensures r.out.Err? <==> userId !in d.users
    ensures r.out.Err? ==> r.db == d && r.out.error == ForeignKey
    ensures r.out.Ok? ==>
              && r.out.value == newId
              && r.db.plans == d.plans[newId := Plan(title, Some(description), false, userId)]
              && r.db.members == d.members[(userId, newId) := Owner]
              && r.db == d.(plans := r.db.plans, members := r.db.members)
  {
    if userId !in d.users then Step(d, Err(ForeignKey))
    else
      Step(d.(plans := d.plans[newId := Plan(title, Some(description), false, userId)],
              members := d.members[(userId, newId) := Owner]),
           Ok(newId))
  }

  /** The private copy `importPlan` makes of a public plan. */
  function CopyOf(source: Plan, userId: string): (c: Plan)
    ensures c.title == source.title + CopySuffix && c.description == source.description
    ensures !c.isPublic && c.creatorId == userId
  {
    Plan(source.title + CopySuffix, source.description, false, userId)
  }

  /** `importPlan` as the service writes it. `duplicated` is whether
      copying the collaborative document succeeded. No membership row is
      written for the importer. */
  function ImportPlanAsWritten(d: Db, sourceId: string, userId: string, newId: string, duplicated: bool)
    : (r: Step<string>)
    requires newId !in d.plans
    ensures r.out.Err? ==> r.db == d
    ensures r.out.Ok? ==>
              && sourceId in d.plans && d.plans[sourceId].isPublic && r.out.value == newId
              && r.db == d.(plans := d.plans[newId := CopyOf(d.plans[sourceId], userId)])
  {
    if sourceId !in d.plans then Step(d, Err(PlanNotFound))
    else if !d.plans[sourceId].isPublic then Step(d, Err(PlanIsPrivate))
    else if userId !in d.users then Step(d, Err(ForeignKey))
    // The copy was created and is deleted again.
    else if !duplicated then Step(d, Err(DuplicationFailed))
    else Step(d.(plans := d.plans[newId := CopyOf(d.plans[sourceId], userId)]), Ok(newId))
  }

  /** `importPlan` with the importer registered as OWNER of the copy, as
      `createPlan` does for a new plan. */
  function ImportPlan(d: Db, sourceId: string, userId: string, newId: string, duplicated: bool)
    : (r: Step<string>)
    requires newId !in d.plans
    ensures r.out.Err? ==> r.db == d
    ensures r.out.Ok? ==>
              && sourceId in d.plans && d.plans[sourceId].isPublic && r.out.value == newId
              && r.db == d.(plans := d.plans[newId := CopyOf(d.plans[sourceId], userId)],
                            members := d.members[(userId, newId) := Owner])
  {
    if sourceId !in d.plans then Step(d, Err(PlanNotFound))
    else if !d.plans[sourceId].isPublic then Step(d, Err(PlanIsPrivate))
    else if userId !in d.users then Step(d, Err(ForeignKey))
    else if !duplicated then Step(d, Err(DuplicationFailed))
    else
      Step(d.(plans := d.plans[newId := CopyOf(d.plans[sourceId], userId)],
              members := d.members[(userId, newId) := Owner]),
           Ok(newId))
  }

  /** The two versions fail alike, in the order the service checks: a
      missing plan, a private plan, then a failed copy (after the importer's
      own row is found). */
  lemma ImportPlanErrors(d: Db, sourceId: string, userId: string, newId: string, duplicated: bool)
    requires newId !in d.plans
    ensures var a := ImportPlanAsWritten(d, sourceId, userId, newId, duplicated);
            var b := ImportPlan(d, sourceId, userId, newId, duplicated);
            && a.out.Err? == b.out.Err?
            && (a.out.Err? ==> a.out.error == b.out.error)
            && (sourceId !in d.plans ==> b.out == Err(PlanNotFound))
            && (sourceId in d.plans && !d.plans[sourceId].isPublic ==> b.out == Err(PlanIsPrivate))
            && (sourceId in d.plans && d.plans[sourceId].isPublic && userId in d.users && !duplicated
                ==> b.out == Err(DuplicationFailed))
            && (sourceId in d.plans && d.plans[sourceId].isPublic && userId in d.users && duplicated
                ==> b.out == Ok(newId))
  {
  }

  /** `sendInvitation`: only the plan's OWNER may invite; the invitee must
      be registered, not a member yet and not already invited. Success
      writes one PENDING invitation (id `newId`) and one INVITATION
      notification to the invitee. */
  function SendInvitation(d: Db, currentUserId: string, planId: string, targetEmail: string, newId: nat)
    : (r: Step<nat>)
    requires newId !in d.invitations
  {
    if (currentUserId, planId) !in d.members || d.members[(currentUserId, planId)] != Owner then
      Step(d, Err(ForbiddenNotOwner))
    else if targetEmail !in d.emails then Step(d, Err(UserNotFound))
    else
      var target := d.emails[targetEmail];
      if (target, planId) in d.members then Step(d, Err(AlreadyMember))
      else if PendingInvite(d, planId, target) then Step(d, Err(AlreadyInvited))
      else
        Step(d.(invitations := d.invitations[newId := Invitation(currentUserId, planId, targetEmail, Some(target), Pending)],
                notifications := d.notifications
                                 + [Notification(InvitationNotice, target, currentUserId, planId, Some(newId), false)]),
             Ok(newId))
  }

  /** The guards of `sendInvitation` in the order they are checked, and the
      two rows a successful call adds. */
  lemma SendInvitationSpec(d: Db, currentUserId: string, planId: string, targetEmail: string, newId: nat)
    requires newId !in d.invitations
    ensures var r := SendInvitation(d, currentUserId, planId, targetEmail, newId);
            var owner := (currentUserId, planId) in d.members && d.members[(currentUserId, planId)] == Owner;
            && (r.out.Err? ==> r.db == d)
            && (!owner ==> r.out == Err(ForbiddenNotOwner))
            && (owner && targetEmail !in d.emails ==> r.out == Err(UserNotFound))
            && (owner && targetEmail in d.emails && (d.emails[targetEmail], planId) in d.members
                ==> r.out == Err(AlreadyMember))
            && ((owner && targetEmail in d.emails && (d.emails[targetEmail], planId) !in d.members
                 && PendingInvite(d, planId, d.emails[targetEmail])) ==> r.out == Err(AlreadyInvited))
            && (r.out.Ok? <==> owner && targetEmail in d.emails && (d.emails[targetEmail], planId) !in d.members
                               && !PendingInvite(d, planId, d.emails[targetEmail]))
            && (r.out.Ok? ==>
                  var target := d.emails[targetEmail];
                  && r.out.value == newId
                  && r.db.invitations.Keys == d.invitations.Keys + {newId}
                  && r.db.invitations[newId] == Invitation(currentUserId, planId, targetEmail, Some(target), Pending)
                  && |r.db.notifications| == |d.notifications| + 1
                  && r.db.notifications[..|d.notifications|] == d.notifications
                  && r.db.notifications[|d.notifications|].userId == target
                  && r.db.notifications[|d.notifications|].kind == InvitationNotice
                  && r.db == d.(invitations := r.db.invitations, notifications := r.db.notifications)
                  && PendingInvite(r.db, planId, target))
  {
    var r := SendInvitation(d, currentUserId, planId, targetEmail, newId);
    if r.out.Ok? {
      var target := d.emails[targetEmail];
      assert r.db.invitations[newId].planId == planId;
      assert r.db.notifications[..|d.notifications|] == d.notifications;
    }
  }

  /** A second identical invitation is refused. */
  lemma SendInvitationTwice(d: Db, currentUserId: string, planId: string, targetEmail: string, f1: nat, f2: nat)
    requires f1 !in d.invitations && f2 !in d.invitations && f1 != f2
    requires SendInvitation(d, currentUserId, planId, targetEmail, f1).out.Ok?
    ensures var d1 := SendInvitation(d, currentUserId, planId, targetEmail, f1).db;
            SendInvitation(d1, currentUserId, planId, targetEmail, f2).out == Err(AlreadyInvited)
  {
    SendInvitationSpec(d, currentUserId, planId, targetEmail, f1);
  }

  /** The invitee lookup by e-mail finds every registered user: an owner's
      invitation to a user's e-mail is never USER_NOT_FOUND, and a successful
      one names that user as invitee. */
  lemma SendInvitationFindsUser(d: Db, currentUserId: string, planId: string, u: string, newId: nat)
    requires Consistent(d) && newId !in d.invitations && u in d.users
    requires (currentUserId, planId) in d.members && d.members[(currentUserId, planId)] == Owner
    ensures var r := SendInvitation(d, currentUserId, planId, d.users[u].email, newId);
            && r.out != Err(UserNotFound)
            && (r.out.Ok? ==> r.db.invitations[newId].inviteeId == Some(u))
            && (r.out == Err(AlreadyMember) <==> (u, planId) in d.members)
  {
  }

  /** What `respondToInvitation` reports. */
  datatype Response = Response(accepted: bool, planId: string)

  /** `respondToInvitation`: only the invitee may answer. Accepting makes
      them an EDITOR unless they are a member already; either answer deletes
      the invitation. */
  function RespondToInvitation(d: Db, userId: string, invitationId: nat, accept: bool): (r: Step<Response>)
    ensures r.out.Err? ==> r.db == d
    ensures invitationId !in d.invitations ==> r.out == Err(InvitationNotFound)
    ensures invitationId in d.invitations && d.invitations[invitationId].inviteeId != Some(userId)
            ==> r.out == Err(ForbiddenNotInvitee)
    ensures r.out.Ok? <==> invitationId in d.invitations && d.invitations[invitationId].inviteeId == Some(userId)
    ensures r.out.Ok? ==>
              var key := (userId, d.invitations[invitationId].planId);
              && r.out.value == Response(accept, key.1)
              && r.db.invitations == d.invitations - {invitationId}
              && r.db.members == (if accept && key !in d.members then d.members[key := Editor] else d.members)
              && r.db == d.(invitations := r.db.invitations, members := r.db.members)
  {
    if invitationId !in d.invitations then Step(d, Err(InvitationNotFound))
    else
      var v := d.invitations[invitationId];
      if v.inviteeId != Some(userId) then Step(d, Err(ForbiddenNotInvitee))
      else
        var members := if accept && (userId, v.planId) !in d.members
                       then d.members[(userId, v.planId) := Editor] else d.members;
        Step(d.(invitations := d.invitations - {invitationId}, members := members),
             Ok(Response(accept, v.planId)))
  }

  /** After accepting, the invitee is a member of the plan, keeping an
      earlier role if they had one; declining changes no membership. */
  lemma AcceptMakesMember(d: Db, userId: string, invitationId: nat, accept: bool)
    requires invitationId in d.invitations && d.invitations[invitationId].inviteeId == Some(userId)
    ensures var r := RespondToInvitation(d, userId, invitationId, accept);
            var key := (userId, d.invitations[invitationId].planId);
            && (accept ==> key in r.db.members
                           && r.db.members[key] == (if key in d.members then d.members[key] else Editor))
            && (!accept ==> r.db.members == d.members)
            && invitationId !in r.db.invitations
  {
  }

  /** `addLike`: a missing plan is an error; an existing like is returned
      with nothing changed; otherwise the like is stored, and its plan's
      creator is notified unless they liked their own plan. */
  function AddLike(d: Db, userId: string, planId: string): (r: Step<(string, string)>)
    ensures r.out.Err? ==> r.db == d
    ensures planId !in d.plans ==> r.out == Err(PlanNotFound)
    ensures planId in d.plans && (userId, planId) in d.likes ==> r == Step(d, Ok((userId, planId)))
    ensures r.out.Ok? ==> r.out.value == (userId, planId) && r.db.likes == d.likes + {(userId, planId)}
    ensures r.out.Ok? && (userId, planId) !in d.likes ==>
              var creator := d.plans[planId].creatorId;
              && r.db.notifications
                 == d.notifications + (if creator != userId then [Notification(LikeNotice, creator, userId, planId, None, false)] else [])
              && r.db == d.(likes := r.db.likes, notifications := r.db.notifications)
  {
    if planId !in d.plans then Step(d, Err(PlanNotFound))
    else if (userId, planId) in d.likes then Step(d, Ok((userId, planId)))
    else if userId !in d.users then Step(d, Err(ForeignKey))
    else
      var creator := d.plans[planId].creatorId;
      var notes := if creator != userId
                   then d.notifications + [Notification(LikeNotice, creator, userId, planId, None, false)]
                   else d.notifications;
      Step(d.(likes := d.likes + {(userId, planId)}, notifications := notes), Ok((userId, planId)))
  }

  /** Liking twice is liking once: the second call changes nothing. */
  lemma AddLikeIdempotent(d: Db, userId: string, planId: string)
    ensures var d1 := AddLike(d, userId, planId).db;
            AddLike(d1, userId, planId) == Step(d1, AddLike(d, userId, planId).out)
  {
  }

  /** `removeLike`: always reports success; only that like goes. */
  function RemoveLike(d: Db, userId: string, planId: string): (r: Step<bool>)
    ensures r.out == Ok(true)
    ensures r.db.likes == d.likes - {(userId, planId)}
    ensures (userId, planId) !in d.likes ==> r.db == d
    ensures r.db == d.(likes := r.db.likes)
  {
    Step(d.(likes := d.likes - {(userId, planId)}), Ok(true))
  }

  /** Removing a like just added gives back the likes as they were. */
  lemma LikeThenUnlike(d: Db, userId: string, planId: string)
    requires (userId, planId) !in d.likes
    ensures RemoveLike(AddLike(d, userId, planId).db, userId, planId).db.likes == d.likes
  {
  }

  // ---- Search ----

  /** Rows skipped before page `page` of `limit` rows. */
  function Skip(page: int, limit: nat): (skip: int)
    ensures page >= 1 ==> skip >= 0
  {
    if page >= 1 then MulMono(0, page - 1, limit); (page - 1) * limit
    else (page - 1) * limit
  }

  /** `Math.ceil(total / limit)` */
  function TotalPages(total: nat, limit: nat): (n: nat)
    requires limit >= 1
    ensures n * limit >= total
    ensures n == 0 || (n - 1) * limit < total
  {
    (total + limit - 1) / limit
  }

  lemma MulMono(a: int, b: int, c: nat)
    requires a <= b
    ensures a * c <= b * c
  {
  }

  lemma MulStep(a: int, c: int)
    ensures (a + 1) * c == a * c + c
  {
  }

  /** The row that follows `k` full pages lies on page `k + 1`. */
  lemma DivOfRange(k: int, limit: int, i: nat)
    requires limit >= 1 && k * limit <= i < k * limit + limit
    ensures i / limit == k
  {
    var t := i / limit;
    MulStep(k, limit);
    MulStep(t, limit);
    if t > k {
      MulMono(k + 1, t, limit);
    } else if t < k {
      MulMono(t + 1, k, limit);
    }
  }

  /** Every row lies on exactly one page, and that page is one of the
      `TotalPages` pages. */
  lemma PageOfRow(total: nat, limit: nat, i: nat)
    requires limit >= 1 && i < total
    ensures var p := i / limit + 1;
            && 1 <= p <= TotalPages(total, limit)
            && Skip(p, limit) <= i < Skip(p, limit) + limit
    ensures forall q :: Skip(q, limit) <= i < Skip(q, limit) + limit ==> q == i / limit + 1
  {
    var t := i / limit;
    var n := TotalPages(total, limit);
    assert Skip(t + 1, limit) == t * limit;
    MulStep(t, limit);
    if n < t + 1 {
      MulMono(n, t, limit);
    }
    forall q | Skip(q, limit) <= i < Skip(q, limit) + limit ensures q == t + 1 {
      DivOfRange(q - 1, limit, i);
    }
  }

  /** Whether `q` occurs in `s`. */
  predicate Contains(s: string, q: string)
  {
    exists i :: 0 <= i <= |s| && q <= s[i..]
  }

  /** Whether the search shows plan `p`: public, and its title containing
      the query when there is one. */
  predicate Listed(d: Db, query: Option<string>, p: string)
  {
    p in d.plans && d.plans[p].isPublic && (Truthy(query) ==> Contains(d.plans[p].title, query.value))
  }

  /** The plans the search matches, in the database's order for the chosen
      sort. */
  function Matches(d: Db, order: seq<string>, query: Option<string>): (r: seq<string>)
    ensures forall p :: p in r <==> p in order && Listed(d, query, p)
    ensures Subseq(r, order)
  {
    if order == [] then []
    else
      var tail := Matches(d, order[1..], query);
      assert forall x :: x in order <==> x == order[0] || x in order[1..];
      if Listed(d, query, order[0]) then
        assert ([order[0]] + tail)[1..] == tail;
        [order[0]] + tail
      else tail
  }

  /** Filtering keeps a list free of repeats. */
  lemma {:induction false} MatchesNoDup(d: Db, order: seq<string>, query: Option<string>)
    requires NoDup(order)
    ensures NoDup(Matches(d, order, query))
  {
    var r := Matches(d, order, query);
    SubseqFollowsOrder(r, order);
    forall i, j | 0 <= i < j < |r| ensures r[i] != r[j] {
    }
  }

  /** Over a list of plans without repeats, the matches keep the list's
      order. */
  lemma MatchesKeepOrder(d: Db, order: seq<string>, query: Option<string>)
    requires NoDup(order)
    ensures var r := Matches(d, order, query);
            forall i, j :: 0 <= i < j < |r| ==> FindIndex(order, r[i]) < FindIndex(order, r[j])
  {
    SubseqFollowsOrder(Matches(d, order, query), order);
  }

  /** The plans the count query counts. */
  function ListedSet(d: Db, query: Option<string>): set<string>
  {
    set p | p in d.plans && Listed(d, query, p)
  }

  /** Over an enumeration of all plans, the matches list every listed plan
      once, so the total is the number of listed plans. */
  lemma MatchesCount(d: Db, order: seq<string>, query: Option<string>)
    requires NodeTypes.Enumerates(order, d.plans.Keys)
    ensures NodeTypes.Enumerates(Matches(d, order, query), ListedSet(d, query))
    ensures |Matches(d, order, query)| == |ListedSet(d, query)|
  {
    MatchesNoDup(d, order, query);
    NodeTypes.EnumeratesCard(Matches(d, order, query), ListedSet(d, query));
  }

  /** The role a search result shows for the signed-in user. */
  datatype ViewerRole = RoleOwner | RoleMember | RoleViewer

  function SearchRole(d: Db, planId: string, currentUserId: Option<string>): (r: Option<ViewerRole>)
    requires planId in d.plans
    ensures r.None? <==> !Truthy(currentUserId)
    ensures r == Some(RoleOwner) <==> Truthy(currentUserId) && d.plans[planId].creatorId == currentUserId.value
    ensures r == Some(RoleMember) <==> (Truthy(currentUserId) && d.plans[planId].creatorId != currentUserId.value
                                        && (currentUserId.value, planId) in d.members)
  {
    if !Truthy(currentUserId) then None
    else if d.plans[planId].creatorId == currentUserId.value then Some(RoleOwner)
    else if (currentUserId.value, planId) in d.members then Some(RoleMember)
    else Some(RoleViewer)
  }

  datatype PlanView = PlanView(planId: string, hasLiked: bool, role: Option<ViewerRole>)

  datatype SearchPage = SearchPage(plans: seq<PlanView>, total: nat, page: int, limit: int, totalPages: nat)

  /** One search result: whether the viewer (or, for a guest, the
      placeholder id) liked it, and the viewer's role. */
  function View(d: Db, p: string, currentUserId: Option<string>): PlanView
    requires p in d.plans
  {
    var liker := if currentUserId.Some? then currentUserId.value else GuestId;
    PlanView(p, (liker, p) in d.likes, SearchRole(d, p, currentUserId))
  }

  function Views(d: Db, ps: seq<string>, currentUserId: Option<string>): (r: seq<PlanView>)
    requires forall p :: p in ps ==> p in d.plans
    ensures |r| == |ps|
    ensures forall k :: 0 <= k < |ps| ==> r[k] == View(d, ps[k], currentUserId)
  {
    if ps == [] then [] else [View(d, ps[0], currentUserId)] + Views(d, ps[1..], currentUserId)
  }

  /** The rows `skip .. skip + limit` of `m` that exist. */
  function Window(m: seq<string>, skip: nat, limit: nat): (w: seq<string>)
    ensures |w| == (if skip >= |m| then 0 else if skip + limit <= |m| then limit else |m| - skip)
    ensures forall k :: 0 <= k < |w| ==> skip + k < |m| && w[k] == m[skip + k]
    ensures forall p :: p in w ==> p in m
  {
    var lo := if skip < |m| then skip else |m|;
    var hi := if lo + limit < |m| then lo + limit else |m|;
    m[lo..hi]
  }

  /** `searchPlans` for page `page` of `limit` results. `order` lists every
      plan id in the order the chosen sort puts them. */
  function SearchPlans(d: Db, order: seq<string>, query: Option<string>, page: int, limit: int,
                       currentUserId: Option<string>): (r: SearchPage)
    requires page >= 1 && limit >= 1
    requires NodeTypes.Enumerates(order, d.plans.Keys)
    ensures r.page == page && r.limit == limit
    ensures r.total == |ListedSet(d, query)|
    ensures r.totalPages == TotalPages(r.total, limit)
    ensures var m := Matches(d, order, query);
            && |r.plans| == (if Skip(page, limit) >= |m| then 0
                             else if Skip(page, limit) + limit <= |m| then limit
                             else |m| - Skip(page, limit))
            && forall k :: 0 <= k < |r.plans| ==> r.plans[k] == View(d, m[Skip(page, limit) + k], currentUserId)
  {
    MatchesCount(d, order, query);
    var m := Matches(d, order, query);
    SearchPage(Views(d, Window(m, Skip(page, limit), limit), currentUserId),
               |m|, page, limit, TotalPages(|m|, limit))
  }

  /** A search page lists its plans in the order the chosen sort puts
      them. */
  lemma SearchPageInOrder(d: Db, order: seq<string>, query: Option<string>, page: int, limit: int,
                          currentUserId: Option<string>)
    requires page >= 1 && limit >= 1
    requires NodeTypes.Enumerates(order, d.plans.Keys)
    ensures var shown := SearchPlans(d, order, query, page, limit, currentUserId).plans;
            forall k, l :: 0 <= k < l < |shown| ==>
              FindIndex(order, shown[k].planId) < FindIndex(order, shown[l].planId)
  {
    var m := Matches(d, order, query);
    var shown := SearchPlans(d, order, query, page, limit, currentUserId).plans;
    var off := Skip(page, limit);
    forall k | 0 <= k < |shown| ensures off + k < |m| && shown[k].planId == m[off + k] {
      assert shown[k] == View(d, m[off + k], currentUserId);
    }
    WindowKeepsOrder(order, m, off, shown);
  }

  /** Consecutive rows of a list that keeps the order of `order` are in
      that order too. */
  lemma WindowKeepsOrder(order: seq<string>, m: seq<string>, off: nat, shown: seq<PlanView>)
    requires NoDup(order) && Subseq(m, order)
    requires forall k :: 0 <= k < |shown| ==> off + k < |m| && shown[k].planId == m[off + k]
    ensures forall k, l :: 0 <= k < l < |shown| ==>
              FindIndex(order, shown[k].planId) < FindIndex(order, shown[l].planId)
  {
    SubseqFollowsOrder(m, order);
    forall k, l | 0 <= k < l < |shown|
      ensures FindIndex(order, shown[k].planId) < FindIndex(order, shown[l].planId)
    {
      assert shown[k].planId == m[off + k] && shown[l].planId == m[off + l];
    }
  }

  /** Every plan a search page shows is public and matches the query. */
  lemma SearchShowsOnlyMatches(d: Db, order: seq<string>, query: Option<string>, page: int, limit: int,
                               currentUserId: Option<string>)
    requires page >= 1 && limit >= 1
    requires NodeTypes.Enumerates(order, d.plans.Keys)
    ensures forall v :: v in SearchPlans(d, order, query, page, limit, currentUserId).plans
                        ==> Listed(d, query, v.planId)
  {
    var m := Matches(d, order, query);
    var here := SearchPlans(d, order, query, page, limit, currentUserId).plans;
    forall v | v in here ensures Listed(d, query, v.planId) {
      var k :| 0 <= k < |here| && here[k] == v;
      assert m[Skip(page, limit) + k] in m;
    }
  }

  /** The page that row `i` of the sorted matches falls on. */
  function PageOf(i: nat, limit: int): (q: int)
    requires limit >= 1
    ensures q >= 1
  {
    i / limit + 1
  }

  /** The plan in position `i` of the sort shows on page `i / limit + 1`,
      which is within the page count every search page reports. */
  lemma SearchFindsEveryMatch(d: Db, order: seq<string>, query: Option<string>, limit: int,
                              currentUserId: Option<string>, i: nat)
    requires limit >= 1
    requires NodeTypes.Enumerates(order, d.plans.Keys)
    requires i < |Matches(d, order, query)|
    ensures var q := PageOf(i, limit);
            var shown := SearchPlans(d, order, query, q, limit, currentUserId).plans;
            && q <= TotalPages(|ListedSet(d, query)|, limit)
            && Skip(q, limit) <= i < Skip(q, limit) + |shown|
            && shown[i - Skip(q, limit)] == View(d, Matches(d, order, query)[i], currentUserId)
  {
    var m := Matches(d, order, query);
    MatchesCount(d, order, query);
    PageOfRow(|m|, limit, i);
  }

  // ---- Foreign keys ----

  /** Each transition keeps the foreign keys intact. */
  lemma CreatePlanConsistent(d: Db, userId: string, title: string, description: string, newId: string)
    requires newId !in d.plans && Consistent(d)
    ensures Consistent(CreatePlan(d, userId, title, description, newId).db)
  {
    var r := CreatePlan(d, userId, title, description, newId).db;
    forall j | 0 <= j < |r.notifications| ensures NotificationLinked(r, r.notifications[j]) {
      assert NotificationLinked(d, d.notifications[j]);
    }
    forall i | i in r.invitations ensures InvitationLinked(r, r.invitations[i]) {
      assert InvitationLinked(d, d.invitations[i]);
    }
  }

  lemma ImportPlanConsistent(d: Db, sourceId: string, userId: string, newId: string, duplicated: bool)
    requires newId !in d.plans && Consistent(d)
    ensures Consistent(ImportPlan(d, sourceId, userId, newId, duplicated).db)
  {
    var r := ImportPlan(d, sourceId, userId, newId, duplicated).db;
    forall j | 0 <= j < |r.notifications| ensures NotificationLinked(r, r.notifications[j]) {
      assert NotificationLinked(d, d.notifications[j]);
    }
    forall i | i in r.invitations ensures InvitationLinked(r, r.invitations[i]) {
      assert InvitationLinked(d, d.invitations[i]);
    }
  }

  lemma SendInvitationConsistent(d: Db, currentUserId: string, planId: string, targetEmail: string, newId: nat)
    requires newId !in d.invitations && Consistent(d)
    ensures Consistent(SendInvitation(d, currentUserId, planId, targetEmail, newId).db)
  {
    var r := SendInvitation(d, currentUserId, planId, targetEmail, newId).db;
    forall j | 0 <= j < |r.notifications| ensures NotificationLinked(r, r.notifications[j]) {
      if j < |d.notifications| {
        assert NotificationLinked(d, d.notifications[j]);
      }
    }
  }

  lemma RespondConsistent(d: Db, userId: string, invitationId: nat, accept: bool)
    requires Consistent(d)
    ensures Consistent(RespondToInvitation(d, userId, invitationId, accept).db)
  {
    if invitationId in d.invitations {
      assert InvitationLinked(d, d.invitations[invitationId]);
    }
  }

  lemma AddLikeConsistent(d: Db, userId: string, planId: string)
    requires Consistent(d)
    ensures Consistent(AddLike(d, userId, planId).db)
  {
    var r := AddLike(d, userId, planId).db;
    forall j | 0 <= j < |r.notifications| ensures NotificationLinked(r, r.notifications[j]) {
      if j < |d.notifications| {
        assert NotificationLinked(d, d.notifications[j]);
      }
    }
  }
}
