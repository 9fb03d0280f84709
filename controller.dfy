/**
 * The controller's subscriber store: the process-wide list of entries and the
 * two request handlers that change it, plus the read-only Subscribers page.
 * Form validation (`ModelState.IsValid`) and the clock (`DateTime.UtcNow`)
 * are inputs of the handlers; the page results are reduced to outcomes.
 */
module Controller {
  import opened CaseFold
  import opened Entries
  import opened Listing

  /** What the Subscribe handler reports: the form is re-rendered, a conflict, or a success. */
  datatype SubscribeOutcome = Invalid | AlreadySubscribed | Subscribed

  class HomeController {
    /** The shared, in-memory list of subscriptions, in insertion order. */
    var subscribers: seq<Entry>

    /** The store as the process starts: empty, and so free of duplicates. */
    constructor ()
      ensures subscribers == []
      ensures NoDuplicateEmails(subscribers)
    {
      subscribers := [];
    }

    /**
     * POST /Subscribe: an invalid form changes nothing; an address already
     * present in any letter case changes nothing; otherwise the address is
     * appended with the current time. Each outcome keeps the invariant that no
     * two stored emails are equal ignoring case.
     */
    method Subscribe(email: string, isValid: bool, now: int) returns (outcome: SubscribeOutcome)
      modifies this
      ensures !isValid ==> outcome == Invalid && subscribers == old(subscribers)
      ensures isValid && AnyMatch(old(subscribers), email) ==>
                outcome == AlreadySubscribed && subscribers == old(subscribers)
      ensures isValid && !AnyMatch(old(subscribers), email) ==>
                outcome == Subscribed && subscribers == old(subscribers) + [Entry(email, now)]
      ensures outcome != Invalid ==>
                forall other :: EqualsIgnoreCase(email, other) ==> AnyMatch(subscribers, other)
      ensures NoDuplicateEmails(old(subscribers)) ==> NoDuplicateEmails(subscribers)
    {
      if !isValid {
        return Invalid;
      }
      if AnyMatch(subscribers, email) {
        forall other | EqualsIgnoreCase(email, other) ensures AnyMatch(subscribers, other) {
          AnyMatchIgnoresCase(subscribers, email, other);
        }
        return AlreadySubscribed;
      }
      if NoDuplicateEmails(subscribers) {
        AppendKeepsNoDuplicates(subscribers, email, now);
      }
      forall other | EqualsIgnoreCase(email, other)
        ensures AnyMatch(subscribers + [Entry(email, now)], other)
      {
        AppendedIsFound(subscribers, email, now, other);
      }
      subscribers := subscribers + [Entry(email, now)];
      outcome := Subscribed;
    }

    /**
     * POST /DeleteSubscriber: looks up the first entry matching the address
     * ignoring case and, if there is one, removes that entry; otherwise nothing
     * changes. `removed` tells whether the confirmation message is shown.
     */
    method DeleteSubscriber(email: string) returns (removed: bool)
      modifies this
      ensures removed <==> AnyMatch(old(subscribers), email)
      ensures match FindFirst(old(subscribers), email)
              case None => subscribers == old(subscribers)
              case Some(i) => subscribers == old(subscribers)[..i] + old(subscribers)[i + 1..]
      ensures NoDuplicateEmails(old(subscribers)) ==>
                NoDuplicateEmails(subscribers) && !AnyMatch(subscribers, email)
    {
      var found := FindFirst(subscribers, email);
      removed := found.Some?;
      if found.Some? {
        var i := found.value;
        var subscriber := subscribers[i];
        RemoveFoundEntry(subscribers, email, i);
        if NoDuplicateEmails(subscribers) {
          RemoveFoundEntryKeepsNoDuplicates(subscribers, email, i);
        }
        subscribers := RemoveFirst(subscribers, subscriber);
      }
    }

    /**
     * GET /Subscribers: the entries newest first, a permutation of the store
     * in which entries recorded at the same time keep their insertion order.
     * Reading the listing changes nothing.
     */
    function Subscribers(): (r: seq<Entry>)
      reads this
      ensures NewestFirst(r)
      ensures multiset(r) == multiset(subscribers)
      ensures forall t :: RecordedAt(r, t) == RecordedAt(subscribers, t)
    {
      SortNewestFirst(subscribers)
    }
  }

  /**
   * Subscribing an address and then the same address again, in any letter
   * case, rejects the second request and leaves the store as the first left it.
   */
  method ResubscribeIsRejected(c: HomeController, email: string, again: string, t1: int, t2: int)
      returns (first: SubscribeOutcome, second: SubscribeOutcome)
    requires EqualsIgnoreCase(email, again)
    modifies c
    ensures first == Subscribed <==> !AnyMatch(old(c.subscribers), email)
    ensures second == AlreadySubscribed
    ensures c.subscribers == if first == Subscribed then old(c.subscribers) + [Entry(email, t1)]
                             else old(c.subscribers)
  {
    first := c.Subscribe(email, true, t1);
    second := c.Subscribe(again, true, t2);
  }
}
