/**
 * The Subscribers page's view of the store:
 * `OrderByDescending(s => s.SubscribedAt).ToList()`. LINQ's ordering is a
 * stable sort, so entries recorded at the same time keep their insertion
 * order. The model is an insertion sort, proved to be a permutation, newest
 * first and stable, and shown to be the only ordering with those properties.
 */
module Listing {
  import opened Entries

  /** Times never increase along the sequence: newest first. */
  predicate NewestFirst(s: seq<Entry>)
  {
    forall i, j :: 0 <= i < j < |s| ==> s[i].subscribedAt >= s[j].subscribedAt
  }

  /** The entries recorded at time `t`, in the order they occur. */
  function RecordedAt(s: seq<Entry>, t: int): seq<Entry>
  {
    if s == [] then []
    else (if s[0].subscribedAt == t then [s[0]] else []) + RecordedAt(s[1..], t)
  }

  /** Putting an entry no older than the head in front of a newest-first list keeps it newest first. */
  lemma ConsKeepsNewestFirst(h: Entry, s: seq<Entry>)
    requires NewestFirst(s)
    requires s != [] ==> s[0].subscribedAt <= h.subscribedAt
    ensures NewestFirst([h] + s)
  {
    var o := [h] + s;
    forall i, j | 0 <= i < j < |o| ensures o[i].subscribedAt >= o[j].subscribedAt {
      assert o[j] == s[j - 1];
      if i == 0 {
        assert s[0].subscribedAt >= s[j - 1].subscribedAt;
      } else {
        assert o[i] == s[i - 1];
      }
    }
  }

  /** Places `x` in front of the first entry that is not newer than it. */
  function Insert(x: Entry, r: seq<Entry>): (o: seq<Entry>)
    requires NewestFirst(r)
    ensures |o| == |r| + 1
    ensures o[0] == x || (r != [] && o[0] == r[0])
    ensures NewestFirst(o)
    ensures multiset(o) == multiset(r) + multiset{x}
  {
    if r == [] || x.subscribedAt >= r[0].subscribedAt then
      ConsKeepsNewestFirst(x, r);
      [x] + r
    else
      var o' := Insert(x, r[1..]);
      ConsKeepsNewestFirst(r[0], o');
      assert r == [r[0]] + r[1..];
      [r[0]] + o'
  }

  /** One step of `RecordedAt`: the head, if recorded at `t`, followed by the rest's entries of time `t`. */
  lemma RecordedAtCons(x: Entry, r: seq<Entry>, t: int)
    ensures RecordedAt([x] + r, t) == (if x.subscribedAt == t then [x] else []) + RecordedAt(r, t)
  {
    assert ([x] + r)[1..] == r;
  }

  /** Insertion leaves the entries of every time in the order of `[x] + r`: `x` before its equals. */
  lemma {:induction false} InsertKeepsSameTimeOrder(x: Entry, r: seq<Entry>, t: int)
    requires NewestFirst(r)
    ensures RecordedAt(Insert(x, r), t) == RecordedAt([x] + r, t)
  {
    if r != [] && x.subscribedAt < r[0].subscribedAt {
      var o' := Insert(x, r[1..]);
      assert Insert(x, r) == [r[0]] + o';
      InsertKeepsSameTimeOrder(x, r[1..], t);
      RecordedAtCons(r[0], o', t);
      RecordedAtCons(x, r[1..], t);
      RecordedAtCons(x, r, t);
      assert r == [r[0]] + r[1..];
      RecordedAtCons(r[0], r[1..], t);
      if t == r[0].subscribedAt {
        assert RecordedAt([x] + r[1..], t) == RecordedAt(r[1..], t);
        assert RecordedAt([x] + r, t) == RecordedAt(r, t);
      } else {
        assert RecordedAt([r[0]] + o', t) == RecordedAt(o', t);
        assert RecordedAt(r, t) == RecordedAt(r[1..], t);
      }
    }
  }

  /** One step of the sort keeps the entries of time `t` in store order. */
  lemma InsertHeadKeepsSameTimeOrder(s: seq<Entry>, rest: seq<Entry>, t: int)
    requires s != [] && NewestFirst(rest)
    requires RecordedAt(rest, t) == RecordedAt(s[1..], t)
    ensures RecordedAt(Insert(s[0], rest), t) == RecordedAt(s, t)
  {
    InsertKeepsSameTimeOrder(s[0], rest, t);
    RecordedAtCons(s[0], rest, t);
    assert s == [s[0]] + s[1..];
    RecordedAtCons(s[0], s[1..], t);
  }

  /** The listing: a stable sort of the store by subscription time, newest first. */
  function SortNewestFirst(s: seq<Entry>): (r: seq<Entry>)
    ensures NewestFirst(r)
    ensures multiset(r) == multiset(s)
    ensures forall t :: RecordedAt(r, t) == RecordedAt(s, t)
  {
    if s == [] then []
    else
      var rest := SortNewestFirst(s[1..]);
      assert s == [s[0]] + s[1..];
      assert forall t :: RecordedAt(Insert(s[0], rest), t) == RecordedAt(s, t) by {
        forall t ensures RecordedAt(Insert(s[0], rest), t) == RecordedAt(s, t) {
          InsertHeadKeepsSameTimeOrder(s, rest, t);
        }
      }
      Insert(s[0], rest)
  }

  /** In a newest-first list no entry is recorded later than the head. */
  lemma {:induction false} HeadIsNewest(s: seq<Entry>, t: int)
    requires NewestFirst(s)
    requires RecordedAt(s, t) != []
    ensures s != [] && t <= s[0].subscribedAt
  {
    if s[0].subscribedAt != t {
      HeadIsNewest(s[1..], t);
    }
  }

  /**
   * A newest-first ordering that keeps, for every time, the entries recorded at
   * that time in a given order is unique: the listing is fully determined by the
   * store.
   */
  lemma {:induction false} StableOrderIsUnique(a: seq<Entry>, b: seq<Entry>)
    requires NewestFirst(a) && NewestFirst(b)
    requires forall t :: RecordedAt(a, t) == RecordedAt(b, t)
    ensures a == b
  {
    if a != [] {
      var ta := a[0].subscribedAt;
      assert RecordedAt(a, ta)[0] == a[0];
      HeadIsNewest(b, ta);
      var tb := b[0].subscribedAt;
      assert RecordedAt(b, tb)[0] == b[0];
      HeadIsNewest(a, tb);
      assert ta == tb;
      assert a[0] == b[0];
      forall t ensures RecordedAt(a[1..], t) == RecordedAt(b[1..], t) {
        var ra, rb := RecordedAt(a, t), RecordedAt(b, t);
        assert ra == rb;
        if ta == t {
          assert ra == [a[0]] + RecordedAt(a[1..], t);
          assert rb == [b[0]] + RecordedAt(b[1..], t);
          assert ra[1..] == RecordedAt(a[1..], t);
          assert rb[1..] == RecordedAt(b[1..], t);
        } else {
          assert ra == RecordedAt(a[1..], t);
          assert rb == RecordedAt(b[1..], t);
        }
      }
      StableOrderIsUnique(a[1..], b[1..]);
      assert a == [a[0]] + a[1..];
      assert b == [b[0]] + b[1..];
    }
  }

  /** Any stable newest-first arrangement of the store is exactly the listing. */
  lemma ListingIsTheStableOrder(s: seq<Entry>, r: seq<Entry>)
    requires NewestFirst(r)
    requires forall t :: RecordedAt(r, t) == RecordedAt(s, t)
    ensures r == SortNewestFirst(s)
  {
    StableOrderIsUnique(r, SortNewestFirst(s));
  }

  /** An entry recorded strictly later than every stored one is listed first. */
  lemma NewestEntryListedFirst(s: seq<Entry>, x: Entry)
    requires forall i :: 0 <= i < |s| ==> s[i].subscribedAt < x.subscribedAt
    ensures SortNewestFirst(s + [x])[0] == x
  {
    var r := SortNewestFirst(s + [x]);
    assert x in multiset(s + [x]);
    assert x in r;
    var k :| 0 <= k < |r| && r[k] == x;
    assert r[0].subscribedAt >= x.subscribedAt;
    assert r[0] !in s;
    assert r[0] in multiset(s + [x]);
    assert r[0] in s + [x];
  }

  /** The entries of time `t` in a concatenation are those of each part, in order. */
  lemma {:induction false} RecordedAtAppend(a: seq<Entry>, b: seq<Entry>, t: int)
    ensures RecordedAt(a + b, t) == RecordedAt(a, t) + RecordedAt(b, t)
  {
    if a == [] {
      assert a + b == b;
    } else {
      assert a + b == [a[0]] + (a[1..] + b);
      RecordedAtCons(a[0], a[1..] + b, t);
      RecordedAtAppend(a[1..], b, t);
      assert a == [a[0]] + a[1..];
      RecordedAtCons(a[0], a[1..], t);
    }
  }

  /**
   * Two entries recorded at the same time and added one after the other are
   * listed in the order they were added, after every stored entry of that
   * time: with a clock that does not advance between two subscriptions the
   * newer one is not listed first.
   */
  lemma TieKeepsInsertionOrder(s: seq<Entry>, x: Entry, y: Entry)
    requires x.subscribedAt == y.subscribedAt
    ensures RecordedAt(SortNewestFirst(s + [x, y]), x.subscribedAt) == RecordedAt(s, x.subscribedAt) + [x, y]
  {
    var t := x.subscribedAt;
    RecordedAtAppend(s, [x, y], t);
    assert RecordedAt([x, y], t) == [x, y] by {
      assert [x, y] == [x] + [y] && [y] == [y] + [];
      RecordedAtCons(x, [y], t);
      RecordedAtCons(y, [], t);
    }
  }
}
