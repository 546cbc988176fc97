/** Shared vocabulary of the routes: identifiers, optional values, the replies
    a route sends, the identity the authentication middleware attaches, and the
    member and trainer accounts. */
module Common {

  /** Document identifiers and path parameters, in one canonical spelling.
      Some checks compare them as strings (`gym._id.toString() !== req.user.id`);
      the store's lookups convert a path parameter to an identifier first,
      which the model takes to be the identity on canonical ids. */
  type Id = string

  datatype Option<T> = None | Some(value: T)

  /** What a route sends back: a status code with a payload, or a status code
      with the `{ message }` of an error. */
  datatype Response<T> = Ok(status: nat, value: T) | Err(status: nat, message: string)

  /** `req.user` as the authentication middleware leaves it: the account id
      and the role carried by the token. */
  datatype Caller = Caller(id: Id, role: string)

  /** A member or trainer account; only `gym` is read or written by the routes. */
  datatype Account = Account(name: string, email: string, gym: Option<Id>)

  /** The two roles that may join a gym and read its chat. */
  predicate IsPerson(role: string)
  {
    role == "member" || role == "trainer"
  }

  /** `(role === 'member' ? Member : Trainer).findById(id)`: any role other
      than "member" selects the trainer collection. */
  function FindAccount(members: map<Id, Account>, trainers: map<Id, Account>, role: string, id: Id): Option<Account>
  {
    var accounts := if role == "member" then members else trainers;
    if id in accounts then Some(accounts[id]) else None
  }
}
