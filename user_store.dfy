/** An in-memory list of users, searched by e-mail address. */
module UserStore {
  import opened Wrappers
  import opened Records
  import Sequences

  /** The key `read`, `update` and `delete` compare. */
  function EmailOf(u: User): string { u.email }

  class UserStore {
    /** The users in creation order; duplicates are allowed. */
    var users: seq<User>

    constructor ()
      ensures users == []
    {
      users := [];
    }

    /** Appends without checking for an existing e-mail. */
    method Create(user: User)
      modifies this
      ensures users == old(users) + [user]
    {
      users := users + [user];
    }

    /** The first user with this e-mail, or `None`. */
    method Read(email: string) returns (r: Option<User>)
      ensures r == Sequences.Lookup(users, EmailOf, email)
    {
      for i := 0 to |users|
        invariant forall k :: 0 <= k < i ==> users[k].email != email
      {
        if users[i].email == email {
          Sequences.FindKeyIs(users, EmailOf, email, i);
          return Some(users[i]);
        }
      }
      return None;
    }

    /** Replaces the first user with this e-mail, in place; `false` if there is none. */
    method Update(email: string, newUser: User) returns (ok: bool)
      modifies this
      ensures ok == Sequences.FindKey(old(users), EmailOf, email).Some?
      ensures ok ==> users == old(users)[Sequences.FindKey(old(users), EmailOf, email).value := newUser]
      ensures !ok ==> users == old(users)
    {
      for i := 0 to |users|
        invariant forall k :: 0 <= k < i ==> users[k].email != email
      {
        if users[i].email == email {
          Sequences.FindKeyIs(users, EmailOf, email, i);
          users := users[i := newUser];
          return true;
        }
      }
      return false;
    }

    /** Removes the first user with this e-mail; `false` and no change if there is none. */
    method Delete(email: string) returns (ok: bool)
      modifies this
      ensures ok == Sequences.FindKey(old(users), EmailOf, email).Some?
      ensures ok ==> users == Sequences.RemoveAt(old(users), Sequences.FindKey(old(users), EmailOf, email).value)
      ensures !ok ==> users == old(users)
      ensures |users| == if ok then |old(users)| - 1 else |old(users)|
    {
      for i := 0 to |users|
        invariant forall k :: 0 <= k < i ==> users[k].email != email
      {
        if users[i].email == email {
          Sequences.FindKeyIs(users, EmailOf, email, i);
          users := Sequences.RemoveAt(users, i);
          return true;
        }
      }
      return false;
    }

    /** A copy of the list: a value, so later changes to either side do not reach the other. */
    method ListAll() returns (r: seq<User>)
      ensures r == users
    {
      r := users;
    }
  }

  /** Create, read, update, read, delete, read: the life of one user record. */
  method UserLifecycle()
  {
    var store := new UserStore();
    var u := User("test@example.com", "hashedpassword123", Some("Researcher in AI"));
    store.Create(u);
    var found := store.Read("test@example.com");
    assert found == Some(u);
    var all := store.ListAll();
    assert |all| == 1 && all[0].email == "test@example.com";

    var updated := User("test@example.com", "newhash456", Some("Updated profile"));
    var ok := store.Update("test@example.com", updated);
    assert ok;
    found := store.Read("test@example.com");
    assert found == Some(updated);

    ok := store.Delete("test@example.com");
    assert ok;
    found := store.Read("test@example.com");
    assert found == None;
  }
}
