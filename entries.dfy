/**
 * The stored subscriptions and the side-effect-free queries the controller
 * runs over them: the duplicate check (`Any`), the lookup (`FirstOrDefault`)
 * and `List<T>.Remove`, together with the store's one invariant — no two
 * entries have emails that are equal ignoring case.
 */
module Entries {
  import opened CaseFold

  datatype Option<T> = None | Some(value: T)

  /** A `SubscriberEntry`: the address as submitted and the time it was recorded. */
  datatype Entry = Entry(email: string, subscribedAt: int)

  /** The lambda of HomeController.cs lines 25 and 50: the entry's email equals `email` ignoring case. */
  predicate Matches(e: Entry, email: string)
  {
    EqualsIgnoreCase(e.email, email)
  }

  /** The duplicate check: some entry's email equals `email` ignoring case. */
  function AnyMatch(s: seq<Entry>, email: string): (b: bool)
    ensures b <==> exists i :: 0 <= i < |s| && Matches(s[i], email)
  {
    if s == [] then false
    else if Matches(s[0], email) then true
    else
      var rest := AnyMatch(s[1..], email);
      assert forall i :: 1 <= i < |s| ==> s[i] == s[1..][i - 1];
      rest
  }

  /** The position of the first entry whose email matches, if there is one. */
  function FindFirst(s: seq<Entry>, email: string): (r: Option<nat>)
    ensures r.None? <==> !AnyMatch(s, email)
    ensures r.Some? ==> r.value < |s| && Matches(s[r.value], email)
    ensures r.Some? ==> forall j :: 0 <= j < r.value ==> !Matches(s[j], email)
  {
    if s == [] then None
    else if Matches(s[0], email) then Some(0)
    else
      match FindFirst(s[1..], email)
      case None => None
      case Some(k) =>
        assert forall j :: 1 <= j <= k ==> s[j] == s[1..][j - 1];
        Some(k + 1)
  }

  /** `List<T>.IndexOf(x)`: the first position holding an element equal to `x`, if any. */
  function IndexOf(s: seq<Entry>, x: Entry): (r: Option<nat>)
    ensures r.None? <==> x !in s
    ensures r.Some? ==> r.value < |s| && s[r.value] == x
    ensures r.Some? ==> forall k :: 0 <= k < r.value ==> s[k] != x
  {
    if s == [] then None
    else if s[0] == x then Some(0)
    else
      match IndexOf(s[1..], x)
      case None => None
      case Some(k) =>
        assert forall j :: 1 <= j <= k ==> s[j] == s[1..][j - 1];
        Some(k + 1)
  }

  /**
   * `List<T>.Remove(x)`: looks up the first element equal to `x` and, when
   * there is one, deletes that position; otherwise the list is unchanged.
   */
  function RemoveFirst(s: seq<Entry>, x: Entry): (r: seq<Entry>)
    ensures x !in s ==> r == s
    ensures x in s ==> |r| == |s| - 1
  {
    match IndexOf(s, x)
    case None => s
    case Some(i) => s[..i] + s[i + 1..]
  }

  /** Removal takes exactly one copy of `x` out of the entries, when there is one. */
  lemma RemoveFirstTakesOneCopy(s: seq<Entry>, x: Entry)
    ensures multiset(RemoveFirst(s, x)) == multiset(s) - multiset{x}
  {
    if IndexOf(s, x).Some? {
      var i := IndexOf(s, x).value;
      assert s == s[..i] + [x] + s[i + 1..];
    }
  }

  /** Removing the first occurrence of an element deletes exactly that position. */
  lemma RemoveFirstOccurrence(s: seq<Entry>, i: nat)
    requires i < |s|
    requires forall k :: 0 <= k < i ==> s[k] != s[i]
    ensures RemoveFirst(s, s[i]) == s[..i] + s[i + 1..]
  {
    assert IndexOf(s, s[i]).Some?;
  }

  /** The invariant: no two entries have emails that are equal ignoring case. */
  predicate NoDuplicateEmails(s: seq<Entry>)
  {
    forall i, j :: 0 <= i < j < |s| ==> !EqualsIgnoreCase(s[i].email, s[j].email)
  }

  /** Whether an address is present depends only on its upper-cased form. */
  lemma AnyMatchIgnoresCase(s: seq<Entry>, a: string, b: string)
    requires EqualsIgnoreCase(a, b)
    ensures AnyMatch(s, a) == AnyMatch(s, b)
  {
  }

  /** Appending an address that the duplicate check let through keeps the invariant. */
  lemma AppendKeepsNoDuplicates(s: seq<Entry>, email: string, now: int)
    requires NoDuplicateEmails(s)
    requires !AnyMatch(s, email)
    ensures NoDuplicateEmails(s + [Entry(email, now)])
  {
    var t := s + [Entry(email, now)];
    forall i, j | 0 <= i < j < |t| ensures !EqualsIgnoreCase(t[i].email, t[j].email) {
      if j == |s| {
        assert t[i] == s[i];
        assert !Matches(s[i], email);
      }
    }
  }

  /** After an append, every spelling of the appended address is found by the duplicate check. */
  lemma AppendedIsFound(s: seq<Entry>, email: string, now: int, other: string)
    requires EqualsIgnoreCase(email, other)
    ensures AnyMatch(s + [Entry(email, now)], other)
  {
    var t := s + [Entry(email, now)];
    assert Matches(t[|s|], other);
  }

  /** Removing the entry that `FindFirst` located, by value equality, deletes exactly its position. */
  lemma RemoveFoundEntry(s: seq<Entry>, email: string, i: nat)
    requires FindFirst(s, email) == Some(i)
    ensures RemoveFirst(s, s[i]) == s[..i] + s[i + 1..]
  {
    assert forall k :: 0 <= k < i ==> !Matches(s[k], email);
    RemoveFirstOccurrence(s, i);
  }

  /** Deleting one position keeps the invariant: a sub-sequence of a duplicate-free list is duplicate-free. */
  lemma RemoveAtKeepsNoDuplicates(s: seq<Entry>, i: nat)
    requires i < |s|
    requires NoDuplicateEmails(s)
    ensures NoDuplicateEmails(s[..i] + s[i + 1..])
  {
    var t := s[..i] + s[i + 1..];
    forall p, q | 0 <= p < q < |t| ensures !EqualsIgnoreCase(t[p].email, t[q].email) {
      var p' := if p < i then p else p + 1;
      var q' := if q < i then q else q + 1;
      assert t[p] == s[p'] && t[q] == s[q'];
    }
  }

  /** With the invariant, once the first match is deleted no entry matching the address remains. */
  lemma RemoveFirstMatchLeavesNone(s: seq<Entry>, email: string, i: nat)
    requires NoDuplicateEmails(s)
    requires FindFirst(s, email) == Some(i)
    ensures !AnyMatch(s[..i] + s[i + 1..], email)
  {
    var t := s[..i] + s[i + 1..];
    forall p | 0 <= p < |t| ensures !Matches(t[p], email) {
      var p' := if p < i then p else p + 1;
      assert t[p] == s[p'];
      if p' < i {
        assert !EqualsIgnoreCase(s[p'].email, s[i].email);
      } else {
        assert !EqualsIgnoreCase(s[i].email, s[p'].email);
      }
    }
  }

  /** Removing the entry the lookup found keeps the invariant, and no match for the address is left. */
  lemma RemoveFoundEntryKeepsNoDuplicates(s: seq<Entry>, email: string, i: nat)
    requires NoDuplicateEmails(s)
    requires FindFirst(s, email) == Some(i)
    ensures NoDuplicateEmails(RemoveFirst(s, s[i]))
    ensures !AnyMatch(RemoveFirst(s, s[i]), email)
  {
    RemoveFoundEntry(s, email, i);
    RemoveAtKeepsNoDuplicates(s, i);
    RemoveFirstMatchLeavesNone(s, email, i);
  }
}
