# BeFit join requests and chat history, modelled in Dafny

BeFit is a gym-management web application with three kinds of account: gyms,
trainers and members. This project models two parts of its backend.

- **The join-request workflow** (`backend/routes/gym.js`). A member or trainer
  asks to join a gym (`POST /request/:gymId`). The gym lists the requests
  addressed to it (`GET /requests/:gymId`) and approves or rejects each one
  (`PUT /request/:requestId`). Approving a request writes the requester's
  `gym`. The router also has a gym lookup (`GET /:id`).
- **The chat-history read** (`backend/routes/chat.js`). A member or trainer of
  a gym reads that gym's stored chat messages, oldest first.

Files:

- `common.dfy` (module `Common`): identifiers, `Option`, the route reply
  `Response` (a status code with a payload, or a status code with an error
  message), the caller identity `Caller` that authentication attaches, member
  and trainer `Account`s, and the account lookup by role.
- `query.dfy` (module `Query`): the two document-store query steps the routes
  use. `Filter` models `find({ gym })`. `SortBy` (an insertion sort) models
  `sort({ createdAt: ±1 })`.
- `gym_routes.dfy` (module `GymRoutes`): the store's collections as a value
  (`StoreState`). Each route is a function from the state to the new state
  and the reply: `GetGym`, `SubmitStep`, `ListRequests` and `DecideStep`. The
  file also holds the invariant `Consistent` and lemmas about single calls
  and about whole sequences of calls (`Run`). The class `Store` keeps the
  same collections in fields. Its methods `Submit` and `Decide` update them in
  place and are proved to agree with `SubmitStep` and `DecideStep`.
- `chat_routes.dfy` (module `ChatRoutes`): chat messages and the `History`
  route.
- `scenarios.dfy` (module `Scenarios`): the two routers together. A member
  submits, the gym sees the request, approves it, and the member may then
  read the chat.

How the model treats the source's environment:

- `mongoose.Types.ObjectId.isValid` is the parameter `isValidId`.
- The clock is the parameter `now`.
- The id of a new request is the parameter `newId`.
- Roles and body fields are strings, as in the source. A body field that may
  be absent is an `Option<string>`.
- `createdAt` is a natural number.

Behaviour of the source that a reader might not expect, which the model
keeps:

- A decided request's status is the action string itself, `"approve"` or
  `"reject"` (`backend/routes/gym.js:161`). It is not `"approved"` or
  `"rejected"`.
- The success message is built as `` `Request ${action}ed` ``, so an approval
  replies "Request approveed successfully".
- The chat history refuses the gym role with 403
  (`backend/routes/chat.js:10-12`), so a gym cannot read its own chat.
- Listing requests also answers 400 for an invalid id and 404 for an unknown
  gym before the ownership check (`backend/routes/gym.js:107-118`).
- The duplicate check ignores the status, so a rejected request still blocks
  a new one for the same account and gym (`backend/routes/gym.js:70`).
- Approve does not re-check the requester's current `gym`. An account can
  have pending requests to two gyms, since its `gym` was unset when it sent
  both. If both are approved, the account ends up in the gym that approved
  last. `ApproveOverwritesMembership` states this.

## Model

| member | source | states |
|---|---|---|
| `Query.Filter` | backend/routes/gym.js:120 | the selection holds each document the predicate accepts exactly as often as the input does, and no other document |
| `Query.SortBy` | backend/routes/chat.js:23 | the output is a permutation of the input (equal multisets) and its keys never decrease |
| `GymRoutes.FindRequest` | backend/routes/gym.js:147-150 | lookup by id: the position found holds that id and no earlier request has it; nothing is found exactly when no request has the id |
| `GymRoutes.GetGym` | backend/routes/gym.js:22-36 | 400 for an invalid id, 404 for an unknown gym, otherwise 200 with that gym's document; success exactly when the id is valid and known |
| `GymRoutes.SubmitStep` | backend/routes/gym.js:39-97 | a refused submit leaves the store unchanged; a submit succeeds exactly when every check passes, and then replies 201, appends one pending request for (caller, gym), appends one `JoinRequest` analytics entry whose `userModel` is "Member" or "Trainer", and leaves gyms and accounts unchanged |
| `GymRoutes.SubmitRefusals` | backend/routes/gym.js:40-73 | the checks in the route's order, the first failing one deciding the reply: 403 unless member or trainer, 400 role mismatch, 400 invalid gym id, 404 gym not found, 404 user not found, 400 already part of a gym, 400 request already exists |
| `GymRoutes.ListRequests` | backend/routes/gym.js:100-128 | 403 for a non-gym caller, 400 invalid id, 404 unknown gym, 403 when the gym is not the caller; success exactly for the gym itself; then exactly the requests addressed to that gym (as a multiset) in non-increasing `createdAt` order |
| `GymRoutes.DecideStep` | backend/routes/gym.js:131-177 | a refused decide leaves the store unchanged; a decide succeeds exactly when the caller is the request's existing gym, the action is approve or reject and the request is pending; then only that request's status changes, to the action string, reject touches no account, and approve sets the requester's `gym` (if the account exists) and nothing else |
| `GymRoutes.DecideRefusals` | backend/routes/gym.js:132-159 | the checks in the route's order: 403 for a non-gym caller, 400 for an action other than approve/reject before any lookup, 400 invalid id, 404 unknown request, 403 when the request's gym is missing or not the caller, 400 "already processed" when not pending |
| `GymRoutes.SubmitKeepsConsistent` | backend/routes/gym.js:70-82 | a submit with a fresh document id keeps ids unique, keeps at most one request per (account, gym) pair, and keeps roles and statuses within the values the routes write |
| `GymRoutes.DecideKeepsConsistent` | backend/routes/gym.js:157-162 | a decide keeps the store consistent |
| `GymRoutes.RunKeepsConsistent` | backend/routes/gym.js:39-177 | any sequence of submits and decides with fresh document ids keeps the store consistent |
| `GymRoutes.StepKeepsRequests` | backend/routes/gym.js:75-82 | only a successful submit adds a request, exactly one; no call removes a request or changes anything of it but its status |
| `GymRoutes.StepKeepsProcessed` | backend/routes/gym.js:157-161 | once the request found by an id has left "pending", every call leaves the lookup and that status unchanged |
| `GymRoutes.RunKeepsProcessed` | backend/routes/gym.js:157-161 | a processed request stays processed through any sequence of calls |
| `GymRoutes.DecidedAtMostOnce` | backend/routes/gym.js:157-161 | after a decide on a request succeeds, no later decide on that id succeeds, whatever the caller, the action and the calls in between |
| `GymRoutes.RunKeepsPair` | backend/routes/gym.js:70-73 | once a request links an account to a gym, a request for that pair exists after any sequence of calls |
| `GymRoutes.SubmitOncePerPair` | backend/routes/gym.js:70-73 | after a submit succeeds, no later submit by the same account to the same gym succeeds, even after the request is rejected |
| `GymRoutes.SecondSubmitIsDuplicate` | backend/routes/gym.js:70-73 | repeating a successful submit at once is refused with 400 "Join request already exists" |
| `GymRoutes.OnlyApproveWritesAccounts` | backend/routes/gym.js:164-171 | no call adds or removes accounts; an account changes only through a successful approve of a request made by that account, and then only its `gym` changes, to the request's gym |
| `GymRoutes.ApproveOverwritesMembership` | backend/routes/gym.js:164-170 | approve succeeds and writes the request's gym even when the requester already belongs to a gym |
| `GymRoutes.Store.Submit` | backend/routes/gym.js:39-97 | updates the fields in place so that the new state and the reply are those `SubmitStep` gives for the old state; keeps the store consistent |
| `GymRoutes.Store.Decide` | backend/routes/gym.js:131-177 | updates the fields in place so that the new state and the reply are those `DecideStep` gives for the old state; keeps the store consistent |
| `ChatRoutes.History` | backend/routes/chat.js:9-28 | 403 for any role but member or trainer (gym included); 400 when the caller's account is missing, has no gym or another gym; success exactly otherwise; then exactly the gym's messages (as a multiset), in non-decreasing `createdAt` order |
| `ChatRoutes.HistoryMembership` | backend/routes/chat.js:21 | a message is in the history exactly when it is in the log and belongs to the requested gym |
| `Scenarios.SubmittedIsListed` | backend/routes/gym.js:120-124 | after a member's submit succeeds, the gym's own listing succeeds and contains the new pending request |
| `Scenarios.ApprovedMemberMayChat` | backend/routes/gym.js:161-170 | when the gym approves a member's fresh request, the reply is 200 and the member's chat-history read then succeeds |

## Left out

- `GET /` (`backend/routes/gym.js:12-19`): it returns the whole gym collection and has no logic of its own.
- Authentication: the caller is given as an id and a role. Token checks are not modelled.
- `populate`: requester names and emails in the listing, and sender names in the chat history, are not modelled. `JoinRequest.js` is not part of this model. If its `user` reference fails to populate, `joinRequest.user._id` at line 166 would throw after the status was saved. The model follows line 167 instead: a missing account is skipped.
- `backend/models/Trainer.js` declares no `gym` path. Under Mongoose's strict mode a trainer's `gym` is neither saved nor read back: the write at `backend/routes/gym.js:168` would be dropped, the check at `backend/routes/gym.js:66` would never refuse a trainer, and `backend/routes/chat.js:17` would refuse every trainer with 400. The model reads and writes a trainer's `gym` as stored, as the routes intend; `GymRoutes.SubmitStep`, `GymRoutes.SubmitRefusals`, `GymRoutes.DecideStep` and `ChatRoutes.History` therefore treat trainers like members here, which strict mode would not.
- Id spelling: ids are assumed to be in one canonical form. The store's lookups (`backend/routes/gym.js:28, 55, 70, 112, 120, 147, 152`) convert a path id to an ObjectId first, so another spelling of the same id (upper-case hex, say) finds the document in the source; the model compares ids as exact strings, so `GymRoutes.GetGym`, `GymRoutes.SubmitStep`, `GymRoutes.ListRequests` and `GymRoutes.DecideStep` answer 404 or refuse for such a spelling.
- The schema of `JoinRequest` is not part of this model. If it restricts `status` to other values than the action strings, the save at line 162 would fail. The model saves the action string.
- Persistence failures (`next(error)`): every write is assumed to succeed. The analytics entry's server timestamp is not modelled.
- Document ids and the clock are parameters. `GymRoutes.Store.Submit` requires that the new id is not yet used, which the id generator guarantees.
- Ties in `createdAt`: the model's sort keeps log order among equal keys. The database leaves that order open, so the contracts state only the key order and the permutation.
- Concurrency: each route runs as one atomic step. The race between two decides on one request, and between the two writes of an approve, is not modelled.
- The real-time chat (joining a room, sending and broadcasting) is not part of this model. Its server handler is not among the modelled files.
- The frontend pages, `backend/routes/gymRoutes.js` and `backend/models/WorkoutPlan.js` hold no logic of the two routers.
