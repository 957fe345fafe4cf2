/**
 * The package-level `users` slice of main.go and its five handlers, as a
 * class whose field the handlers reassign. Each handler is proved to answer
 * and to leave the table as the matching function of UserTable says.
 */
module Handlers {
  import opened UserTable

  class UserStore {
    /** The table, in insertion order. */
    var users: seq<User>

    /** The process starts with the two seed rows. */
    constructor ()
      ensures users == Seed
    {
      users := Seed;
    }

    /** `getUsers` (main.go:66-68): the table as it is, in order. */
    method List() returns (r: seq<User>)
      ensures r == users
    {
      r := users;
    }

    /** `getUser` (main.go:100-110): scan for the first row with `id`. */
    method Get(id: int) returns (r: Response)
      ensures r == UserTable.Get(users, id)
    {
      var i := 0;
      while i < |users|
        invariant 0 <= i <= |users|
        invariant forall j :: 0 <= j < i ==> users[j].id != id
      {
        if users[i].id == id {
          r := Ok(users[i]);
          return;
        }
        i := i + 1;
      }
      r := NotFound;
    }

    /** `createUser` (main.go:79-88): append the decoded row under the next id. */
    method Create(body: Body) returns (r: Response)
      modifies this
      ensures Step(r, users) == UserTable.Create(old(users), body)
      ensures IdsIncreasing(old(users)) ==> IdsIncreasing(users)
    {
      match body
      case Malformed(msg) =>
        r := BadRequest(msg);
      case Decoded(p) =>
        if |users| == 0 {
          r := Fault;
          return;
        }
        var newUser := Apply(Blank, p);
        newUser := newUser.(id := users[|users| - 1].id + 1);
        users := users + [newUser];
        r := Created(newUser);
    }

    /** `updateUser` (main.go:123-136): decode the body over the first match. */
    method Update(id: int, body: Body) returns (r: Response)
      modifies this
      ensures Step(r, users) == UserTable.Update(old(users), id, body)
    {
      var i := 0;
      while i < |users|
        invariant 0 <= i <= |users|
        invariant users == old(users)
        invariant forall j :: 0 <= j < i ==> users[j].id != id
      {
        if users[i].id == id {
          match body {
            case Malformed(msg) =>
              r := BadRequest(msg);
            case Decoded(p) =>
              users := users[i := Apply(users[i], p)];
              r := Ok(users[i]);
          }
          return;
        }
        i := i + 1;
      }
      r := NotFound;
    }

    /** `deleteUser` (main.go:148-158): splice out the first match. */
    method Delete(id: int) returns (r: Response)
      modifies this
      ensures Step(r, users) == UserTable.Delete(old(users), id)
      ensures IdsIncreasing(old(users)) ==> IdsIncreasing(users)
    {
      var i := 0;
      while i < |users|
        invariant 0 <= i <= |users|
        invariant users == old(users)
        invariant forall j :: 0 <= j < i ==> users[j].id != id
      {
        if users[i].id == id {
          users := users[..i] + users[i + 1..];
          r := NoContent;
          return;
        }
        i := i + 1;
      }
      r := NotFound;
    }
  }
}
