/** The gym router: looking a gym up, and the join-request workflow in which
    a member or trainer asks to join a gym and the gym approves or rejects
    the request. Each route is first a function from the store's state to the
    new state and the reply (the specification), and then a method of the
    class `Store`, which updates the store in place and is proved to do what
    the function says. */
module GymRoutes {
  import opened Common
  import opened Query

  datatype Gym = Gym(name: string)

  /** A join request; `role` is the requester's role and selects the account
      collection, `status` is "pending" until the gym decides. */
  datatype JoinRequest = JoinRequest(id: Id, user: Id, gym: Id, role: string, status: string, createdAt: nat)

  /** An audit entry `{ action, userId, userModel, details: { gymId } }`. */
  datatype AnalyticsEntry = AnalyticsEntry(action: string, userId: Id, userModel: string, gymId: Id)

  /** The collections the routes read and write. */
  datatype StoreState = StoreState(
    gyms: map<Id, Gym>,
    members: map<Id, Account>,
    trainers: map<Id, Account>,
    requests: seq<JoinRequest>,
    analytics: seq<AnalyticsEntry>)

  const Pending := "pending"

  /** A decided request carries the action string itself as its status. */
  predicate IsStatus(s: string)
  {
    s == Pending || s == "approve" || s == "reject"
  }

  /** What the store keeps true: request ids are unique, no two requests
      link the same account to the same gym, every request was made by a
      member or trainer, and every status is one the routes write. It is a
      property the routes preserve (`RunKeepsConsistent`); the workflow
      lemmas below do not need it, since a lookup by id takes the first
      match. */
  ghost predicate Consistent(st: StoreState)
  {
    && (forall i, j :: 0 <= i < j < |st.requests| ==> st.requests[i].id != st.requests[j].id)
    && (forall i, j :: 0 <= i < j < |st.requests| ==>
          st.requests[i].user != st.requests[j].user || st.requests[i].gym != st.requests[j].gym)
    && (forall i :: 0 <= i < |st.requests| ==> IsPerson(st.requests[i].role) && IsStatus(st.requests[i].status))
  }

  /** `JoinRequest.findOne({ user, gym })` finds something. */
  predicate HasRequest(rs: seq<JoinRequest>, user: Id, gym: Id)
  {
    exists i :: 0 <= i < |rs| && rs[i].user == user && rs[i].gym == gym
  }

  /** `JoinRequest.findById(id)`: the position of the first request with that id. */
  function FindRequest(rs: seq<JoinRequest>, id: Id): (r: Option<nat>)
    ensures r.Some? ==> r.value < |rs| && rs[r.value].id == id
    ensures r.Some? ==> forall k :: 0 <= k < r.value ==> rs[k].id != id
    ensures r.None? <==> forall k :: 0 <= k < |rs| ==> rs[k].id != id
  {
    if rs == [] then None
    else if rs[0].id == id then Some(0)
    else
      match FindRequest(rs[1..], id)
      case None => None
      case Some(k) => Some(k + 1)
  }

  /** `role.charAt(0).toUpperCase() + role.slice(1)` for ASCII text. */
  function UpperFirst(s: string): string
  {
    if s == [] then []
    else [if 'a' <= s[0] <= 'z' then (s[0] as int - 32) as char else s[0]] + s[1..]
  }

  /** `Gym.findById` with the route's own id check. */
  function GetGym(gyms: map<Id, Gym>, isValidId: Id -> bool, id: Id): (r: Response<Gym>)
    ensures !isValidId(id) ==> r == Err(400, "Invalid gym ID")
    ensures isValidId(id) && id !in gyms ==> r == Err(404, "Gym not found")
    ensures r.Ok? <==> isValidId(id) && id in gyms
    ensures r.Ok? ==> r.status == 200 && r.value == gyms[id]
  {
    if !isValidId(id) then Err(400, "Invalid gym ID")
    else if id !in gyms then Err(404, "Gym not found")
    else Ok(200, gyms[id])
  }

  // ---------------------------------------------------------------------
  // Submitting a join request
  // ---------------------------------------------------------------------

  /** The caller is a member or trainer and declares its own role in the body. */
  predicate RoleChecked(caller: Caller, bodyRole: Option<string>)
  {
    IsPerson(caller.role) && bodyRole == Some(caller.role)
  }

  /** Every check of the submit route passes. */
  predicate CanSubmit(st: StoreState, isValidId: Id -> bool, caller: Caller, bodyRole: Option<string>, gymId: Id)
  {
    && RoleChecked(caller, bodyRole)
    && isValidId(gymId)
    && gymId in st.gyms
    && FindAccount(st.members, st.trainers, caller.role, caller.id).Some?
    && FindAccount(st.members, st.trainers, caller.role, caller.id).value.gym.None?
    && !HasRequest(st.requests, caller.id, gymId)
  }

  /** POST /request/:gymId. A failed submit changes nothing; a submit
      succeeds exactly when every check passes, and then appends one pending
      request and one audit entry and leaves gyms and accounts alone. */
  function SubmitStep(st: StoreState, isValidId: Id -> bool, caller: Caller, bodyRole: Option<string>,
                      gymId: Id, newId: Id, now: nat): (r: (StoreState, Response<string>))
    ensures r.1.Err? ==> r.0 == st
    ensures r.1.Ok? <==> CanSubmit(st, isValidId, caller, bodyRole, gymId)
    ensures r.1.Ok? ==> r.1 == Ok(201, "Join request sent")
    ensures r.1.Ok? ==>
              && r.0.gyms == st.gyms && r.0.members == st.members && r.0.trainers == st.trainers
              && r.0.requests == st.requests + [JoinRequest(newId, caller.id, gymId, caller.role, Pending, now)]
              && r.0.analytics == st.analytics
                   + [AnalyticsEntry("JoinRequest", caller.id,
                                     if caller.role == "member" then "Member" else "Trainer", gymId)]
  {
    if !IsPerson(caller.role) then (st, Err(403, "Access denied"))
    else if bodyRole != Some(caller.role) then (st, Err(400, "Role mismatch"))
    else
      var role := caller.role;
      if !isValidId(gymId) then (st, Err(400, "Invalid gym ID"))
      else if gymId !in st.gyms then (st, Err(404, "Gym not found"))
      else
        var user := FindAccount(st.members, st.trainers, role, caller.id);
        if user.None? then (st, Err(404, "User not found"))
        else if user.value.gym.Some? then (st, Err(400, "User is already part of a gym"))
        else if HasRequest(st.requests, caller.id, gymId) then (st, Err(400, "Join request already exists"))
        else
          var request := JoinRequest(newId, caller.id, gymId, role, Pending, now);
          assert UpperFirst("member") == "Member" && UpperFirst("trainer") == "Trainer";
          var entry := AnalyticsEntry("JoinRequest", caller.id, UpperFirst(role), gymId);
          (st.(requests := st.requests + [request], analytics := st.analytics + [entry]),
           Ok(201, "Join request sent"))
  }

  // ---------------------------------------------------------------------
  // Listing a gym's requests
  // ---------------------------------------------------------------------

  /** GET /requests/:gymId: only the gym itself may list its requests; it
      gets every request addressed to it, newest first. */
  function ListRequests(st: StoreState, isValidId: Id -> bool, caller: Caller, gymId: Id): (r: Response<seq<JoinRequest>>)
    ensures caller.role != "gym" ==> r == Err(403, "Access denied")
    ensures caller.role == "gym" && !isValidId(gymId) ==> r == Err(400, "Invalid gym ID")
    ensures caller.role == "gym" && isValidId(gymId) && gymId !in st.gyms ==> r == Err(404, "Gym not found")
    ensures caller.role == "gym" && isValidId(gymId) && gymId in st.gyms && gymId != caller.id ==>
              r == Err(403, "You are not authorized to view requests for this gym")
    ensures r.Ok? <==> caller.role == "gym" && caller.id == gymId && isValidId(gymId) && gymId in st.gyms
    ensures r.Ok? ==> r.status == 200
    ensures r.Ok? ==> forall q :: multiset(r.value)[q] == if q.gym == gymId then multiset(st.requests)[q] else 0
    ensures r.Ok? ==> forall i, j :: 0 <= i < j < |r.value| ==> r.value[i].createdAt >= r.value[j].createdAt
  {
    if caller.role != "gym" then Err(403, "Access denied")
    else if !isValidId(gymId) then Err(400, "Invalid gym ID")
    else if gymId !in st.gyms then Err(404, "Gym not found")
    else if gymId != caller.id then Err(403, "You are not authorized to view requests for this gym")
    else
      var newestFirst := SortBy(Filter(st.requests, (q: JoinRequest) => q.gym == gymId),
                                (q: JoinRequest) => -(q.createdAt as int));
      Ok(200, newestFirst)
  }

  // ---------------------------------------------------------------------
  // Deciding a request
  // ---------------------------------------------------------------------

  /** `user.gym = gym` on the requester's account, when that account exists. */
  function AssignGym(st: StoreState, role: string, user: Id, gym: Id): StoreState
  {
    if role == "member" then
      if user in st.members then st.(members := st.members[user := st.members[user].(gym := Some(gym))]) else st
    else
      if user in st.trainers then st.(trainers := st.trainers[user := st.trainers[user].(gym := Some(gym))]) else st
  }

  predicate IsAction(action: Option<string>)
  {
    action == Some("approve") || action == Some("reject")
  }

  /** The checks of the decide route after the role and action checks: the
      request exists, belongs to the caller's gym and is still pending. */
  predicate CanDecide(st: StoreState, isValidId: Id -> bool, caller: Caller, action: Option<string>, requestId: Id)
  {
    && caller.role == "gym"
    && IsAction(action)
    && isValidId(requestId)
    && FindRequest(st.requests, requestId).Some?
    && var req := st.requests[FindRequest(st.requests, requestId).value];
       req.gym in st.gyms && req.gym == caller.id && req.status == Pending
  }

  /** PUT /request/:requestId. A failed decide changes nothing. A successful
      one moves exactly that request out of "pending" (to the action string)
      and, on approve, writes the requester's `gym`. */
  function DecideStep(st: StoreState, isValidId: Id -> bool, caller: Caller, action: Option<string>,
                      requestId: Id): (r: (StoreState, Response<string>))
    ensures r.1.Err? ==> r.0 == st
    ensures r.1.Ok? <==> CanDecide(st, isValidId, caller, action, requestId)
    ensures r.1.Ok? ==> r.1 == Ok(200, "Request " + action.value + "ed successfully")
    ensures r.1.Ok? ==>
              var i := FindRequest(st.requests, requestId).value;
              var req := st.requests[i];
              && r.0.gyms == st.gyms && r.0.analytics == st.analytics
              && r.0.requests == st.requests[i := req.(status := action.value)]
              && (action.value == "reject" ==> r.0.members == st.members && r.0.trainers == st.trainers)
              && (action.value == "approve" ==> r.0 == AssignGym(st, req.role, req.user, req.gym).(requests := r.0.requests))
  {
    if caller.role != "gym" then (st, Err(403, "Access denied"))
    else if !IsAction(action) then (st, Err(400, "Invalid action. Must be \"approve\" or \"reject\""))
    else if !isValidId(requestId) then (st, Err(400, "Invalid request ID"))
    else
      match FindRequest(st.requests, requestId)
      case None => (st, Err(404, "Join request not found"))
      case Some(i) =>
        var req := st.requests[i];
        if req.gym !in st.gyms || req.gym != caller.id then
          (st, Err(403, "You are not authorized to manage this request"))
        else if req.status != Pending then (st, Err(400, "Request has already been processed"))
        else
          var act := action.value;
          var decided := st.(requests := st.requests[i := req.(status := act)]);
          var after := if act == "approve" then AssignGym(decided, req.role, req.user, req.gym) else decided;
          (after, Ok(200, "Request " + act + "ed successfully"))
  }

  // ---------------------------------------------------------------------
  // The order of the checks
  // ---------------------------------------------------------------------

  /** The submit route's checks in their order; the first that fails decides
      the reply. */
  lemma SubmitRefusals(st: StoreState, isValidId: Id -> bool, caller: Caller, bodyRole: Option<string>,
                       gymId: Id, newId: Id, now: nat)
    ensures var reply := SubmitStep(st, isValidId, caller, bodyRole, gymId, newId, now).1;
            var user := FindAccount(st.members, st.trainers, caller.role, caller.id);
            && (!IsPerson(caller.role) ==> reply == Err(403, "Access denied"))
            && (IsPerson(caller.role) && bodyRole != Some(caller.role) ==> reply == Err(400, "Role mismatch"))
            && (RoleChecked(caller, bodyRole) ==>
                  && (!isValidId(gymId) ==> reply == Err(400, "Invalid gym ID"))
                  && (isValidId(gymId) && gymId !in st.gyms ==> reply == Err(404, "Gym not found"))
                  && (isValidId(gymId) && gymId in st.gyms ==>
                        && (user.None? ==> reply == Err(404, "User not found"))
                        && (user.Some? && user.value.gym.Some? ==> reply == Err(400, "User is already part of a gym"))
                        && (user.Some? && user.value.gym.None? && HasRequest(st.requests, caller.id, gymId) ==>
                              reply == Err(400, "Join request already exists"))))
  {
  }

  /** The decide route's checks in their order: the action is checked before
      any lookup, and a request that is no longer pending is refused. */
  lemma DecideRefusals(st: StoreState, isValidId: Id -> bool, caller: Caller, action: Option<string>, requestId: Id)
    ensures var reply := DecideStep(st, isValidId, caller, action, requestId).1;
            var found := FindRequest(st.requests, requestId);
            && (caller.role != "gym" ==> reply == Err(403, "Access denied"))
            && (caller.role == "gym" && !IsAction(action) ==>
                  reply == Err(400, "Invalid action. Must be \"approve\" or \"reject\""))
            && (caller.role == "gym" && IsAction(action) ==>
                  && (!isValidId(requestId) ==> reply == Err(400, "Invalid request ID"))
                  && (isValidId(requestId) && found.None? ==> reply == Err(404, "Join request not found"))
                  && (isValidId(requestId) && found.Some? ==>
                        var req := st.requests[found.value];
                        && (req.gym !in st.gyms || req.gym != caller.id ==>
                              reply == Err(403, "You are not authorized to manage this request"))
                        && (req.gym in st.gyms && req.gym == caller.id && req.status != Pending ==>
                              reply == Err(400, "Request has already been processed"))))
  {
  }

  // ---------------------------------------------------------------------
  // Sequences of calls
  // ---------------------------------------------------------------------

  /** A call to one of the two routes that write. The read routes are
      functions of the state and cannot change it. */
  datatype Call =
    | SubmitCall(caller: Caller, bodyRole: Option<string>, gymId: Id, newId: Id, now: nat)
    | DecideCall(caller: Caller, action: Option<string>, requestId: Id)

  function Apply(st: StoreState, isValidId: Id -> bool, call: Call): (StoreState, Response<string>)
  {
    match call
    case SubmitCall(caller, bodyRole, gymId, newId, now) => SubmitStep(st, isValidId, caller, bodyRole, gymId, newId, now)
    case DecideCall(caller, action, requestId) => DecideStep(st, isValidId, caller, action, requestId)
  }

  /** The state after handling `calls` one after the other. */
  function Run(st: StoreState, isValidId: Id -> bool, calls: seq<Call>): StoreState
    decreases |calls|
  {
    if calls == [] then st else Run(Apply(st, isValidId, calls[0]).0, isValidId, calls[1..])
  }

  /** The request that `findById(id)` returns has left "pending". */
  ghost predicate Processed(st: StoreState, id: Id)
  {
    FindRequest(st.requests, id).Some? && st.requests[FindRequest(st.requests, id).value].status != Pending
  }

  // ---------------------------------------------------------------------
  // Properties of the workflow
  // ---------------------------------------------------------------------

  /** Lookup by id only depends on the ids, and appending never hides a
      request that was already found. */
  lemma FindRequestStable(rs: seq<JoinRequest>, rs': seq<JoinRequest>, id: Id)
    requires |rs| <= |rs'|
    requires forall k :: 0 <= k < |rs| ==> rs'[k].id == rs[k].id
    requires FindRequest(rs, id).Some? || |rs| == |rs'|
    ensures FindRequest(rs', id) == FindRequest(rs, id)
  {
  }

  /** Submit keeps the store consistent when the generated id is new. */
  lemma SubmitKeepsConsistent(st: StoreState, isValidId: Id -> bool, caller: Caller, bodyRole: Option<string>,
                              gymId: Id, newId: Id, now: nat)
    requires Consistent(st)
    requires forall k :: 0 <= k < |st.requests| ==> st.requests[k].id != newId
    ensures Consistent(SubmitStep(st, isValidId, caller, bodyRole, gymId, newId, now).0)
  {
  }

  /** Decide keeps the store consistent. */
  lemma DecideKeepsConsistent(st: StoreState, isValidId: Id -> bool, caller: Caller, action: Option<string>, requestId: Id)
    requires Consistent(st)
    ensures Consistent(DecideStep(st, isValidId, caller, action, requestId).0)
  {
  }

  /** Every call keeps a consistent store consistent, given fresh ids for the
      requests that submit creates. */
  lemma {:induction false} RunKeepsConsistent(st: StoreState, isValidId: Id -> bool, calls: seq<Call>)
    requires Consistent(st)
    requires forall c, k :: c in calls && c.SubmitCall? && 0 <= k < |st.requests| ==> st.requests[k].id != c.newId
    requires forall i, j :: 0 <= i < j < |calls| && calls[i].SubmitCall? && calls[j].SubmitCall? ==>
               calls[i].newId != calls[j].newId
    ensures Consistent(Run(st, isValidId, calls))
    decreases |calls|
  {
    if calls != [] {
      var next := Apply(st, isValidId, calls[0]).0;
      match calls[0] {
        case SubmitCall(caller, bodyRole, gymId, newId, now) =>
          SubmitKeepsConsistent(st, isValidId, caller, bodyRole, gymId, newId, now);
        case DecideCall(caller, action, requestId) =>
          DecideKeepsConsistent(st, isValidId, caller, action, requestId);
      }
      assert |next.requests| <= |st.requests| + 1;
      forall c, k | c in calls[1..] && c.SubmitCall? && 0 <= k < |next.requests|
        ensures next.requests[k].id != c.newId
      {
        var m :| 1 <= m < |calls| && calls[m] == c;
        if k < |st.requests| {
          StepKeepsRequests(st, isValidId, calls[0]);
        } else {
          assert calls[0].SubmitCall? && next.requests[k].id == calls[0].newId;
        }
      }
      RunKeepsConsistent(next, isValidId, calls[1..]);
    }
  }

  /** Requests are never removed, and of a request only its status changes.
      A call adds a request exactly when it is a submit that succeeds. */
  lemma StepKeepsRequests(st: StoreState, isValidId: Id -> bool, call: Call)
    ensures var after := Apply(st, isValidId, call);
            |after.0.requests| == |st.requests| + (if call.SubmitCall? && after.1.Ok? then 1 else 0)
    ensures var after := Apply(st, isValidId, call).0;
            forall k :: 0 <= k < |st.requests| ==>
              after.requests[k].(status := st.requests[k].status) == st.requests[k]
  {
  }

  /** The status of a processed request never changes again. */
  lemma StepKeepsProcessed(st: StoreState, isValidId: Id -> bool, call: Call, id: Id)
    requires Processed(st, id)
    ensures Processed(Apply(st, isValidId, call).0, id)
    ensures var i := FindRequest(st.requests, id).value;
            FindRequest(Apply(st, isValidId, call).0.requests, id) == Some(i)
            && Apply(st, isValidId, call).0.requests[i].status == st.requests[i].status
  {
    var after := Apply(st, isValidId, call);
    var i := FindRequest(st.requests, id).value;
    StepKeepsRequests(st, isValidId, call);
    FindRequestStable(st.requests, after.0.requests, id);
    if call.DecideCall? && after.1.Ok? {
      var j := FindRequest(st.requests, call.requestId).value;
      assert j != i;
    }
  }

  lemma {:induction false} RunKeepsProcessed(st: StoreState, isValidId: Id -> bool, calls: seq<Call>, id: Id)
    requires Processed(st, id)
    ensures Processed(Run(st, isValidId, calls), id)
    decreases |calls|
  {
    if calls != [] {
      StepKeepsProcessed(st, isValidId, calls[0], id);
      RunKeepsProcessed(Apply(st, isValidId, calls[0]).0, isValidId, calls[1..], id);
    }
  }

  /** A request is decided at most once: after a decide on it succeeds, no
      later decide on the same id succeeds, whoever calls it, with whatever
      action and whatever happens in between. */
  lemma DecidedAtMostOnce(st: StoreState, isValidId: Id -> bool, caller: Caller, action: Option<string>, requestId: Id,
                          later: seq<Call>, caller': Caller, action': Option<string>)
    requires DecideStep(st, isValidId, caller, action, requestId).1.Ok?
    ensures var decided := DecideStep(st, isValidId, caller, action, requestId).0;
            DecideStep(Run(decided, isValidId, later), isValidId, caller', action', requestId).1.Err?
  {
    var decided := DecideStep(st, isValidId, caller, action, requestId).0;
    StepKeepsRequests(st, isValidId, DecideCall(caller, action, requestId));
    FindRequestStable(st.requests, decided.requests, requestId);
    assert Processed(decided, requestId);
    RunKeepsProcessed(decided, isValidId, later, requestId);
  }

  /** Once a request links an account to a gym, some request always does. */
  lemma {:induction false} RunKeepsPair(st: StoreState, isValidId: Id -> bool, calls: seq<Call>, user: Id, gym: Id)
    requires HasRequest(st.requests, user, gym)
    ensures HasRequest(Run(st, isValidId, calls).requests, user, gym)
    decreases |calls|
  {
    if calls != [] {
      var next := Apply(st, isValidId, calls[0]).0;
      StepKeepsRequests(st, isValidId, calls[0]);
      var k :| 0 <= k < |st.requests| && st.requests[k].user == user && st.requests[k].gym == gym;
      assert next.requests[k].(status := st.requests[k].status) == st.requests[k];
      RunKeepsPair(next, isValidId, calls[1..], user, gym);
    }
  }

  /** One submit per (account, gym) pair: after a submit succeeds, no later
      submit by that account to that gym succeeds, even once the request has
      been rejected, because the duplicate check ignores the status. */
  lemma SubmitOncePerPair(st: StoreState, isValidId: Id -> bool, caller: Caller, bodyRole: Option<string>,
                          gymId: Id, newId: Id, now: nat,
                          later: seq<Call>, bodyRole': Option<string>, newId': Id, now': nat)
    requires SubmitStep(st, isValidId, caller, bodyRole, gymId, newId, now).1.Ok?
    ensures var submitted := SubmitStep(st, isValidId, caller, bodyRole, gymId, newId, now).0;
            SubmitStep(Run(submitted, isValidId, later), isValidId, caller, bodyRole', gymId, newId', now').1.Err?
  {
    var submitted := SubmitStep(st, isValidId, caller, bodyRole, gymId, newId, now).0;
    assert submitted.requests[|st.requests|].user == caller.id;
    RunKeepsPair(submitted, isValidId, later, caller.id, gymId);
  }

  /** Right after a successful submit, the same submit is refused as a duplicate. */
  lemma SecondSubmitIsDuplicate(st: StoreState, isValidId: Id -> bool, caller: Caller, bodyRole: Option<string>,
                                gymId: Id, newId: Id, now: nat, newId': Id, now': nat)
    requires SubmitStep(st, isValidId, caller, bodyRole, gymId, newId, now).1.Ok?
    ensures var submitted := SubmitStep(st, isValidId, caller, bodyRole, gymId, newId, now).0;
            SubmitStep(submitted, isValidId, caller, bodyRole, gymId, newId', now').1
              == Err(400, "Join request already exists")
  {
    var submitted := SubmitStep(st, isValidId, caller, bodyRole, gymId, newId, now).0;
    assert submitted.requests[|st.requests|].user == caller.id;
  }

  /** Only a successful approve writes an account, and it writes only the
      requester's `gym`, to the request's gym. Accounts are never added or
      removed. */
  lemma OnlyApproveWritesAccounts(st: StoreState, isValidId: Id -> bool, call: Call, user: Id)
    ensures var after := Apply(st, isValidId, call).0;
            after.members.Keys == st.members.Keys && after.trainers.Keys == st.trainers.Keys
    ensures var after := Apply(st, isValidId, call).0;
            (user in st.members && after.members[user] != st.members[user]) ||
            (user in st.trainers && after.trainers[user] != st.trainers[user]) ==>
              && call.DecideCall? && call.action == Some("approve")
              && CanDecide(st, isValidId, call.caller, call.action, call.requestId)
              && var req := st.requests[FindRequest(st.requests, call.requestId).value];
                 && req.user == user
                 && (req.role == "member" ==> after.members[user] == st.members[user].(gym := Some(req.gym)))
                 && (req.role != "member" ==> after.trainers[user] == st.trainers[user].(gym := Some(req.gym)))
  {
  }

  /** Approve does not look at the requester's current `gym`: an account with
      pending requests to two gyms that are both approved ends up in the gym
      that approved last. */
  lemma ApproveOverwritesMembership(st: StoreState, isValidId: Id -> bool, caller: Caller, requestId: Id)
    requires CanDecide(st, isValidId, caller, Some("approve"), requestId)
    requires var req := st.requests[FindRequest(st.requests, requestId).value];
             req.role == "member" && req.user in st.members && st.members[req.user].gym.Some?
    ensures var req := st.requests[FindRequest(st.requests, requestId).value];
            var r := DecideStep(st, isValidId, caller, Some("approve"), requestId);
            r.1.Ok? && r.0.members[req.user].gym == Some(req.gym)
  {
  }

  // ---------------------------------------------------------------------
  // The store, updated in place
  // ---------------------------------------------------------------------

  /** The collections behind the routes. `Submit` and `Decide` are the two
      writing routes; the read routes are `GetGym` and `ListRequests` applied
      to `State()`. */
  class Store {
    var gyms: map<Id, Gym>
    var members: map<Id, Account>
    var trainers: map<Id, Account>
    var requests: seq<JoinRequest>
    var analytics: seq<AnalyticsEntry>

    function State(): StoreState
      reads this
    {
      StoreState(gyms, members, trainers, requests, analytics)
    }

    ghost predicate Valid()
      reads this
    {
      Consistent(State())
    }

    constructor (gyms: map<Id, Gym>, members: map<Id, Account>, trainers: map<Id, Account>)
      ensures Valid()
      ensures State() == StoreState(gyms, members, trainers, [], [])
    {
      this.gyms := gyms;
      this.members := members;
      this.trainers := trainers;
      this.requests := [];
      this.analytics := [];
    }

    /** POST /request/:gymId; `newId` is the id the store generates for the
        new document and `now` its creation time. */
    method Submit(isValidId: Id -> bool, caller: Caller, bodyRole: Option<string>, gymId: Id, newId: Id, now: nat)
      returns (reply: Response<string>)
      requires Valid()
      requires forall k :: 0 <= k < |requests| ==> requests[k].id != newId
      modifies this
      ensures Valid()
      ensures (State(), reply) == SubmitStep(old(State()), isValidId, caller, bodyRole, gymId, newId, now)
    {
      SubmitKeepsConsistent(State(), isValidId, caller, bodyRole, gymId, newId, now);
      if caller.role != "member" && caller.role != "trainer" {
        return Err(403, "Access denied");
      }
      if bodyRole != Some(caller.role) {
        return Err(400, "Role mismatch");
      }
      var role := caller.role;
      if !isValidId(gymId) {
        return Err(400, "Invalid gym ID");
      }
      if gymId !in gyms {
        return Err(404, "Gym not found");
      }
      var user := FindAccount(members, trainers, role, caller.id);
      if user.None? {
        return Err(404, "User not found");
      }
      if user.value.gym.Some? {
        return Err(400, "User is already part of a gym");
      }
      if HasRequest(requests, caller.id, gymId) {
        return Err(400, "Join request already exists");
      }
      requests := requests + [JoinRequest(newId, caller.id, gymId, role, Pending, now)];
      analytics := analytics + [AnalyticsEntry("JoinRequest", caller.id, UpperFirst(role), gymId)];
      reply := Ok(201, "Join request sent");
    }

    /** PUT /request/:requestId. */
    method Decide(isValidId: Id -> bool, caller: Caller, action: Option<string>, requestId: Id)
      returns (reply: Response<string>)
      requires Valid()
      modifies this
      ensures Valid()
      ensures (State(), reply) == DecideStep(old(State()), isValidId, caller, action, requestId)
    {
      DecideKeepsConsistent(State(), isValidId, caller, action, requestId);
      if caller.role != "gym" {
        return Err(403, "Access denied");
      }
      if action != Some("approve") && action != Some("reject") {
        return Err(400, "Invalid action. Must be \"approve\" or \"reject\"");
      }
      if !isValidId(requestId) {
        return Err(400, "Invalid request ID");
      }
      var found := FindRequest(requests, requestId);
      if found.None? {
        return Err(404, "Join request not found");
      }
      var i := found.value;
      var req := requests[i];
      if req.gym !in gyms || req.gym != caller.id {
        return Err(403, "You are not authorized to manage this request");
      }
      if req.status != Pending {
        return Err(400, "Request has already been processed");
      }
      var act := action.value;
      requests := requests[i := req.(status := act)];
      if act == "approve" {
        if req.role == "member" {
          if req.user in members {
            members := members[req.user := members[req.user].(gym := Some(req.gym))];
          }
        } else if req.user in trainers {
          trainers := trainers[req.user := trainers[req.user].(gym := Some(req.gym))];
        }
      }
      reply := Ok(200, "Request " + act + "ed successfully");
    }
  }
}
