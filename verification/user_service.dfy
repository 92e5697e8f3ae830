/** The user service: reading a user by id, with a missing user reported
    as `ResourceNotFoundError`. */
module UserService {
  import opened Errors
  import UserRepo

  const UserNotFoundPrefix := "Couldn't find user with ID "

  /** `getUserById`: the stored row, or an error whose message names the id.
      Reading never changes the table, which is why only a result comes back. */
  function GetUserById(t: UserRepo.Table, userId: string): (r: Result<UserRepo.User>)
    ensures r.Ok? <==> exists u :: u in t && u.id == userId
    ensures r.Ok? ==> r.value in t && r.value.id == userId
    ensures UserRepo.Unique(t) ==> forall u :: u in t && u.id == userId ==> r == Ok(u)
    ensures r.Err? ==> r.error.ResourceNotFoundError?
    ensures r.Err? ==>
      var m := r.error.message;
      |UserNotFoundPrefix| + |userId| <= |m| && m[|UserNotFoundPrefix|..|UserNotFoundPrefix| + |userId|] == userId
  {
    match UserRepo.GetUserById(t, userId)
    case Some(u) =>
      forall v | UserRepo.Unique(t) && v in t && v.id == userId ensures Ok(u) == Ok(v) {
        UserRepo.FindUniqueFindsTheRow(t, UserRepo.ById(userId), v);
      }
      Ok(u)
    case None =>
      var m := UserNotFoundPrefix + userId + ".";
      assert m[|UserNotFoundPrefix|..|UserNotFoundPrefix| + |userId|] == userId;
      Err(ResourceNotFoundError(m))
  }
}
