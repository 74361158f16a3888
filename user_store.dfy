/** The in-memory user store (users/repository.py): a dictionary from user id
    to user, with no update and no removal. */
module UserStore {
  import opened Common
  import opened Seqs
  import opened UserModel

  class UserRepository {
    /** The dictionary `_users`. */
    var users: map<string, ValidUser>
    /** Its keys in insertion order, the order a Python dictionary iterates in. */
    var order: seq<string>

    ghost predicate Valid()
      reads this
    {
      && NoDups(order)
      && (forall id :: id in order <==> id in users)
      && (forall id :: id in users ==> users[id].userId == id)
    }

    constructor ()
      ensures Valid() && users == map[] && order == []
    {
      users := map[];
      order := [];
    }

    /** `create`: stores the user under its id, silently overwriting an
        existing entry; the key set only grows. */
    method Create(u: ValidUser) returns (r: ValidUser)
      requires Valid()
      modifies this
      ensures Valid() && r == u
      ensures users == old(users)[u.userId := u]
      ensures order == if u.userId in old(users) then old(order) else old(order) + [u.userId]
      ensures old(users).Keys <= users.Keys
      ensures Get(u.userId) == Some(u) && Exists(u.userId)
      ensures forall id :: id != u.userId ==> Get(id) == old(Get(id))
    {
      if u.userId !in users {
        order := order + [u.userId];
      }
      users := users[u.userId := u];
      r := u;
    }

    /** `get`: the stored user, or `None` when the id is absent. */
    function Get(id: string): (r: Option<ValidUser>)
      reads this
      ensures r.None? <==> id !in users
      ensures r.Some? ==> r.value == users[id]
    {
      if id in users then Some(users[id]) else None
    }

    /** `exists`: whether the id is a key of the store. */
    function Exists(id: string): (b: bool)
      reads this
      ensures b <==> Get(id).Some?
    {
      id in users
    }

    /** `list_all`: the stored users in insertion order, exactly one per key. */
    function ListAll(): (r: seq<ValidUser>)
      requires Valid()
      reads this
      ensures |r| == |users| == |order|
      ensures forall i :: 0 <= i < |r| ==> r[i] == users[order[i]]
      ensures forall id :: id in users ==> users[id] in r
    {
      ValuesAtCoversMap(users, order);
      ValuesAt(users, order)
    }
  }
}
