/** The join workflow and the chat guard together. */
module Scenarios {
  import opened Common
  import opened GymRoutes
  import opened ChatRoutes

  /** After a member's submit succeeds, the gym sees the new pending request
      when it lists its requests. */
  lemma SubmittedIsListed(st: StoreState, isValidId: Id -> bool, member: Id, gymId: Id, newId: Id, now: nat)
    requires SubmitStep(st, isValidId, Caller(member, "member"), Some("member"), gymId, newId, now).1.Ok?
    ensures var submitted := SubmitStep(st, isValidId, Caller(member, "member"), Some("member"), gymId, newId, now).0;
            var listed := ListRequests(submitted, isValidId, Caller(gymId, "gym"), gymId);
            listed.Ok? && JoinRequest(newId, member, gymId, "member", Pending, now) in listed.value
  {
  }

  /** A member without a gym asks to join; the gym approves the request, and
      from then on the member may read the gym's chat. */
  lemma ApprovedMemberMayChat(st: StoreState, isValidId: Id -> bool, member: Id, gymId: Id, newId: Id, now: nat,
                              log: seq<ChatMessage>)
    requires forall k :: 0 <= k < |st.requests| ==> st.requests[k].id != newId
    requires isValidId(newId)
    requires SubmitStep(st, isValidId, Caller(member, "member"), Some("member"), gymId, newId, now).1.Ok?
    ensures var submitted := SubmitStep(st, isValidId, Caller(member, "member"), Some("member"), gymId, newId, now).0;
            var decided := DecideStep(submitted, isValidId, Caller(gymId, "gym"), Some("approve"), newId);
            && decided.1 == Ok(200, "Request approveed successfully")
            && History(decided.0.members, decided.0.trainers, log, Caller(member, "member"), gymId).Ok?
  {
    var submitted := SubmitStep(st, isValidId, Caller(member, "member"), Some("member"), gymId, newId, now).0;
    var n := |st.requests|;
    assert submitted.requests[n] == JoinRequest(newId, member, gymId, "member", Pending, now);
    var found := FindRequest(submitted.requests, newId);
    assert found == Some(n);
    assert CanDecide(submitted, isValidId, Caller(gymId, "gym"), Some("approve"), newId);
    var decided := DecideStep(submitted, isValidId, Caller(gymId, "gym"), Some("approve"), newId).0;
    assert member in submitted.members;
    assert decided.members[member].gym == Some(gymId);
    assert "Request " + "approve" + "ed successfully" == "Request approveed successfully";
    assert BelongsTo(decided.members, decided.trainers, Caller(member, "member"), gymId);
  }
}
