/** The chat router: reading a gym's chat history. */
module ChatRoutes {
  import opened Common
  import opened Query

  /** The collection the sender id refers to. */
  datatype SenderModel = MemberModel | TrainerModel | GymModel

  /** A stored chat message; `createdAt` is the creation time. */
  datatype ChatMessage = ChatMessage(gym: Id, sender: Id, senderModel: SenderModel, message: string, createdAt: nat)

  /** The caller's own account exists and its `gym` is the requested gym. */
  predicate BelongsTo(members: map<Id, Account>, trainers: map<Id, Account>, caller: Caller, gymId: Id)
  {
    var user := FindAccount(members, trainers, caller.role, caller.id);
    user.Some? && user.value.gym == Some(gymId)
  }

  /** GET /:gymId. Only a member or trainer of the gym may read its chat
      (a gym account is refused); it gets every message of that gym, oldest
      first. Nothing is written. */
  function History(members: map<Id, Account>, trainers: map<Id, Account>, log: seq<ChatMessage>,
                   caller: Caller, gymId: Id): (r: Response<seq<ChatMessage>>)
    ensures !IsPerson(caller.role) ==> r == Err(403, "Access denied")
    ensures IsPerson(caller.role) && !BelongsTo(members, trainers, caller, gymId) ==>
              r == Err(400, "User must be part of the gym to view chats")
    ensures r.Ok? <==> IsPerson(caller.role) && BelongsTo(members, trainers, caller, gymId)
    ensures r.Ok? ==> r.status == 200
    ensures r.Ok? ==> forall m :: multiset(r.value)[m] == if m.gym == gymId then multiset(log)[m] else 0
    ensures r.Ok? ==> forall i, j :: 0 <= i < j < |r.value| ==> r.value[i].createdAt <= r.value[j].createdAt
  {
    if caller.role != "member" && caller.role != "trainer" then Err(403, "Access denied")
    else
      var user := FindAccount(members, trainers, caller.role, caller.id);
      if user.None? || user.value.gym.None? || user.value.gym.value != gymId then
        Err(400, "User must be part of the gym to view chats")
      else
        var oldestFirst := SortBy(Filter(log, (m: ChatMessage) => m.gym == gymId),
                                  (m: ChatMessage) => m.createdAt as int);
        Ok(200, oldestFirst)
  }

  /** A message is in the history exactly when it is in the log and belongs
      to the requested gym. */
  lemma HistoryMembership(members: map<Id, Account>, trainers: map<Id, Account>, log: seq<ChatMessage>,
                          caller: Caller, gymId: Id, m: ChatMessage)
    requires History(members, trainers, log, caller, gymId).Ok?
    ensures m in History(members, trainers, log, caller, gymId).value <==> m in log && m.gym == gymId
  {
  }
}
