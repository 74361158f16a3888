/** The user service (users/service.py): creation with duplicate-id rejection
    and the lookups built on the user store. */
module UserRules {
  import opened Common
  import opened UserModel
  import opened UserStore

  class UserService {
    const repo: UserRepository

    ghost predicate Valid()
      reads this, repo
    {
      repo.Valid()
    }

    constructor (repo: UserRepository)
      ensures this.repo == repo
    {
      this.repo := repo;
    }

    /** `create_user`: refuses an id that is already stored and leaves the
        store alone; otherwise stores the user unchanged and returns it. */
    method CreateUser(u: ValidUser) returns (r: Result<ValidUser>)
      requires Valid()
      modifies repo
      ensures Valid()
      ensures u.userId in old(repo.users) ==>
                r == Failure(AlreadyExists) && unchanged(repo)
      ensures u.userId !in old(repo.users) ==>
                && r == Success(u)
                && repo.users == old(repo.users)[u.userId := u]
                && repo.order == old(repo.order) + [u.userId]
      ensures r.Success? ==> UserExists(u.userId) && GetUser(u.userId) == Success(u)
    {
      if repo.Exists(u.userId) {
        return Failure(AlreadyExists);
      }
      var stored := repo.Create(u);
      r := Success(stored);
    }

    /** `get_user`: the stored user, or NotFound. */
    function GetUser(id: string): (r: Result<ValidUser>)
      reads this, repo
      ensures r.Failure? <==> id !in repo.users
      ensures r.Failure? ==> r.error == NotFound
      ensures r.Success? ==> r.value == repo.users[id]
    {
      match repo.Get(id)
      case None => Failure(NotFound)
      case Some(u) => Success(u)
    }

    /** `user_exists`: true exactly when `GetUser` finds the user. */
    function UserExists(id: string): (b: bool)
      reads this, repo
      ensures b <==> GetUser(id).Success?
    {
      repo.Exists(id)
    }
  }
}
