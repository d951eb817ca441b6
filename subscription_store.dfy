/** An in-memory list of subscriptions, searched by (user e-mail, newsletter title). */
module SubscriptionStore {
  import opened Wrappers
  import opened Records
  import Sequences

  /** The pair `read`, `update` and `delete` compare, both parts at once. */
  function KeyOf(s: Subscription): (string, string) { (s.user.email, s.newsletter.title) }

  class SubscriptionStore {
    /** The subscriptions in creation order; duplicates are allowed. */
    var subscriptions: seq<Subscription>

    constructor ()
      ensures subscriptions == []
    {
      subscriptions := [];
    }

    /** Appends at the end: one more element, the earlier ones unchanged. */
    method Create(subscription: Subscription)
      modifies this
      ensures subscriptions == old(subscriptions) + [subscription]
    {
      subscriptions := subscriptions + [subscription];
    }

    /** The first subscription of this user to this newsletter, or `None`. */
    method Read(userEmail: string, newsletterTitle: string) returns (r: Option<Subscription>)
      ensures r == Sequences.Lookup(subscriptions, KeyOf, (userEmail, newsletterTitle))
    {
      for i := 0 to |subscriptions|
        invariant forall k :: 0 <= k < i ==> KeyOf(subscriptions[k]) != (userEmail, newsletterTitle)
      {
        var s := subscriptions[i];
        if s.user.email == userEmail && s.newsletter.title == newsletterTitle {
          Sequences.FindKeyIs(subscriptions, KeyOf, (userEmail, newsletterTitle), i);
          return Some(s);
        }
      }
      return None;
    }

    /** Replaces the first match, in place; `false` and no change if there is none. */
    method Update(userEmail: string, newsletterTitle: string, newSubscription: Subscription)
      returns (ok: bool)
      modifies this
      ensures ok == Sequences.FindKey(old(subscriptions), KeyOf, (userEmail, newsletterTitle)).Some?
      ensures ok ==> subscriptions == old(subscriptions)[
        Sequences.FindKey(old(subscriptions), KeyOf, (userEmail, newsletterTitle)).value := newSubscription]
      ensures !ok ==> subscriptions == old(subscriptions)
    {
      for i := 0 to |subscriptions|
        invariant forall k :: 0 <= k < i ==> KeyOf(subscriptions[k]) != (userEmail, newsletterTitle)
      {
        var s := subscriptions[i];
        if s.user.email == userEmail && s.newsletter.title == newsletterTitle {
          Sequences.FindKeyIs(subscriptions, KeyOf, (userEmail, newsletterTitle), i);
          subscriptions := subscriptions[i := newSubscription];
          return true;
        }
      }
      return false;
    }

    /** Removes the first match, keeping the order of the rest; `false` and no change if none. */
    method Delete(userEmail: string, newsletterTitle: string) returns (ok: bool)
      modifies this
      ensures ok == Sequences.FindKey(old(subscriptions), KeyOf, (userEmail, newsletterTitle)).Some?
      ensures ok ==> subscriptions == Sequences.RemoveAt(old(subscriptions),
        Sequences.FindKey(old(subscriptions), KeyOf, (userEmail, newsletterTitle)).value)
      ensures !ok ==> subscriptions == old(subscriptions)
    {
      for i := 0 to |subscriptions|
        invariant forall k :: 0 <= k < i ==> KeyOf(subscriptions[k]) != (userEmail, newsletterTitle)
      {
        var s := subscriptions[i];
        if s.user.email == userEmail && s.newsletter.title == newsletterTitle {
          Sequences.FindKeyIs(subscriptions, KeyOf, (userEmail, newsletterTitle), i);
          subscriptions := Sequences.RemoveAt(subscriptions, i);
          return true;
        }
      }
      return false;
    }

    /** A copy of the list, equal to the contents. */
    method ListAll() returns (r: seq<Subscription>)
      ensures r == subscriptions
    {
      r := subscriptions;
    }
  }

  /**
   * `create` does not reject duplicates, and `delete` removes only the
   * first: a second copy of the same subscription stays readable.
   */
  method DuplicateSurvivesDelete(user: User, newsletter: Newsletter, first: DateTime, second: DateTime)
  {
    var store := new SubscriptionStore();
    var a := Subscription(user, newsletter, first);
    var b := Subscription(user, newsletter, second);
    store.Create(a);
    store.Create(b);
    var ok := store.Delete(user.email, newsletter.title);
    assert ok;
    assert store.subscriptions == [b];
    var found := store.Read(user.email, newsletter.title);
    assert found == Some(b);
    ok := store.Delete(user.email, newsletter.title);
    found := store.Read(user.email, newsletter.title);
    assert found == None;
  }
}
