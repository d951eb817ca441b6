/** An in-memory list of newsletters, searched by title. */
module NewsletterStore {
  import opened Wrappers
  import opened Records
  import Sequences

  /** The key `read`, `update` and `delete` compare. */
  function TitleOf(n: Newsletter): string { n.title }

  class NewsletterStore {
    /** The newsletters in creation order; duplicates are allowed. */
    var newsletters: seq<Newsletter>

    constructor ()
      ensures newsletters == []
    {
      newsletters := [];
    }

    /** Appends at the end. */
    method Create(newsletter: Newsletter)
      modifies this
      ensures newsletters == old(newsletters) + [newsletter]
    {
      newsletters := newsletters + [newsletter];
    }

    /** The first newsletter with this title, or `None`. */
    method Read(title: string) returns (r: Option<Newsletter>)
      ensures r == Sequences.Lookup(newsletters, TitleOf, title)
    {
      for i := 0 to |newsletters|
        invariant forall k :: 0 <= k < i ==> newsletters[k].title != title
      {
        if newsletters[i].title == title {
          Sequences.FindKeyIs(newsletters, TitleOf, title, i);
          return Some(newsletters[i]);
        }
      }
      return None;
    }

    /**
     * Replaces the first newsletter with this title, in place; the
     * replacement's own title is not checked. `false` if there is none.
     */
    method Update(title: string, newNewsletter: Newsletter) returns (ok: bool)
      modifies this
      ensures ok == Sequences.FindKey(old(newsletters), TitleOf, title).Some?
      ensures ok ==>
        newsletters == old(newsletters)[Sequences.FindKey(old(newsletters), TitleOf, title).value := newNewsletter]
      ensures !ok ==> newsletters == old(newsletters)
    {
      for i := 0 to |newsletters|
        invariant forall k :: 0 <= k < i ==> newsletters[k].title != title
      {
        if newsletters[i].title == title {
          Sequences.FindKeyIs(newsletters, TitleOf, title, i);
          newsletters := newsletters[i := newNewsletter];
          return true;
        }
      }
      return false;
    }

    /** Removes the first newsletter with this title; `false` and no change if there is none. */
    method Delete(title: string) returns (ok: bool)
      modifies this
      ensures ok == Sequences.FindKey(old(newsletters), TitleOf, title).Some?
      ensures ok ==>
        newsletters == Sequences.RemoveAt(old(newsletters), Sequences.FindKey(old(newsletters), TitleOf, title).value)
      ensures !ok ==> newsletters == old(newsletters)
    {
      for i := 0 to |newsletters|
        invariant forall k :: 0 <= k < i ==> newsletters[k].title != title
      {
        if newsletters[i].title == title {
          Sequences.FindKeyIs(newsletters, TitleOf, title, i);
          newsletters := Sequences.RemoveAt(newsletters, i);
          return true;
        }
      }
      return false;
    }

    /** A copy of the list, same elements in the same order. */
    method ListAll() returns (r: seq<Newsletter>)
      ensures r == newsletters
    {
      r := newsletters;
    }
  }

  /**
   * Updating under one title with a record of another title moves the
   * record: the old title is no longer found, the new one is.
   */
  method RetitlingUpdate(date: DateTime)
  {
    var store := new NewsletterStore();
    var weekly := Newsletter("Weekly Update", "This is the newsletter content.", date, None);
    store.Create(weekly);
    var renamed := Newsletter("Monthly Digest", "Updated content.", date, None);
    var ok := store.Update("Weekly Update", renamed);
    assert ok;
    var found := store.Read("Weekly Update");
    assert found == None;
    found := store.Read("Monthly Digest");
    assert found == Some(renamed);
  }
}
