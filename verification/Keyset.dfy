/**
 * Keyset pagination, newest first, over a table that other writers may change between pages.
 *
 * A row is identified by its sort key: `(createdAt, id)` for the list endpoints and
 * `(ledger, eventIndex)` for the activity feed. A page is the first `limit` rows strictly below the
 * cursor in descending key order.
 */
module Keyset {
  import opened Options

  datatype Key = Key(hi: int, lo: int)

  /** `hi < b.hi OR (hi = b.hi AND lo < b.lo)`, the clause both endpoints send to the database. */
  predicate Below(a: Key, b: Key) {
    a.hi < b.hi || (a.hi == b.hi && a.lo < b.lo)
  }

  predicate Descending(s: seq<Key>) {
    forall i, j :: 0 <= i < j < |s| ==> Below(s[j], s[i])
  }

  ghost predicate Lists(s: seq<Key>, t: set<Key>) {
    Descending(s) && forall k :: k in s <==> k in t
  }

  /** Descending is newest first: by the high part, and by the low part among equals. */
  lemma NewestFirst(s: seq<Key>, i: nat, j: nat)
    requires Descending(s) && i < j < |s|
    ensures s[j].hi < s[i].hi || (s[j].hi == s[i].hi && s[j].lo < s[i].lo)
  {
    assert Below(s[j], s[i]);
  }

  lemma MaxExists(t: set<Key>) returns (m: Key)
    requires t != {}
    ensures m in t && forall k :: k in t && k != m ==> Below(k, m)
  {
    var x :| x in t;
    if t == {x} {
      m := x;
    } else {
      var rest := t - {x};
      assert rest != {};
      assert forall k :: k in t ==> k == x || k in rest;
      var y := MaxExists(rest);
      m := if Below(y, x) then x else y;
    }
  }

  ghost function Top(t: set<Key>): (m: Key)
    requires t != {}
    ensures m in t && forall k :: k in t && k != m ==> Below(k, m)
  {
    assert exists m :: m in t && forall k :: k in t && k != m ==> Below(k, m) by {
      var m := MaxExists(t);
    }
    var m :| m in t && forall k :: k in t && k != m ==> Below(k, m);
    m
  }

  /** All rows of a table in descending key order. */
  ghost function Sorted(t: set<Key>): (s: seq<Key>)
    ensures Lists(s, t) && |s| == |t|
  {
    if t == {} then [] else
    var m := Top(t);
    [m] + Sorted(t - {m})
  }

  lemma {:induction false} ListUnique(a: seq<Key>, b: seq<Key>)
    requires Descending(a) && Descending(b) && forall k :: k in a <==> k in b
    ensures a == b
  {
    hide Below;
    SameEmptiness(a, b);
    if a != [] {
      SameFirst(a, b);
      forall k ensures k in a[1..] <==> k in b[1..] {
        TailMembers(a, k);
        TailMembers(b, k);
      }
      ListUnique(a[1..], b[1..]);
      assert a == [a[0]] + a[1..] && b == [b[0]] + b[1..];
    }
  }

  lemma SameEmptiness(a: seq<Key>, b: seq<Key>)
    requires forall k :: k in a <==> k in b
    ensures a == [] <==> b == []
  {
    if a != [] { assert a[0] in b; }
    if b != [] { assert b[0] in a; }
  }

  lemma FirstIsTop(a: seq<Key>, k: Key)
    requires Descending(a) && k in a
    ensures k == a[0] || Below(k, a[0])
  {
    var i :| 0 <= i < |a| && a[i] == k;
    assert i > 0 ==> Below(a[i], a[0]);
  }

  lemma SameFirst(a: seq<Key>, b: seq<Key>)
    requires Descending(a) && Descending(b) && a != [] && b != [] && forall k :: k in a <==> k in b
    ensures a[0] == b[0]
  {
    assert a[0] in b && b[0] in a;
    FirstIsTop(a, b[0]);
    FirstIsTop(b, a[0]);
  }

  lemma TailMembers(a: seq<Key>, k: Key)
    requires Descending(a) && a != []
    ensures k in a[1..] <==> k in a && k != a[0]
  {
    if k in a[1..] {
      var i :| 0 <= i < |a[1..]| && a[1..][i] == k;
      assert Below(a[i + 1], a[0]);
    }
  }

  // ---------------------------------------------------------------------------------------------
  // One page
  // ---------------------------------------------------------------------------------------------

  /** The rows the keyset clause selects; no cursor selects every row. */
  ghost function Remaining(t: set<Key>, cursor: Option<Key>): set<Key> {
    match cursor
    case None => t
    case Some(c) => set k | k in t && Below(k, c)
  }

  /** `ORDER BY hi DESC, lo DESC` with `TAKE limit`. */
  ghost function Page(t: set<Key>, cursor: Option<Key>, limit: nat): (p: seq<Key>)
    ensures Descending(p) && |p| <= limit
    ensures forall k :: k in p ==> k in Remaining(t, cursor)
    ensures |p| < limit ==> Lists(p, Remaining(t, cursor))
  {
    var s := Sorted(Remaining(t, cursor));
    if |s| <= limit then s else s[..limit]
  }

  /** Everything the page left out sorts below its last row. */
  lemma PageIsTop(t: set<Key>, cursor: Option<Key>, limit: nat, k: Key)
    requires limit > 0 && k in Remaining(t, cursor)
    ensures var p := Page(t, cursor, limit);
            k in p || (p != [] && Below(k, p[|p| - 1]))
  {
    var s := Sorted(Remaining(t, cursor));
    var i :| 0 <= i < |s| && s[i] == k;
    if limit <= i { assert Below(s[i], s[limit - 1]); }
  }

  /** A page holds `limit` rows, or all that are left if fewer. */
  lemma PageSize(t: set<Key>, cursor: Option<Key>, limit: nat)
    ensures |Page(t, cursor, limit)| == if |Remaining(t, cursor)| <= limit then |Remaining(t, cursor)| else limit
  {
  }

  /** Below the last row of a full page exactly the rest is left. */
  lemma LeftAfterPage(t: set<Key>, cursor: Option<Key>, limit: nat)
    requires 0 < limit <= |Remaining(t, cursor)|
    ensures |Page(t, cursor, limit)| == limit
    ensures |Remaining(t, Some(Page(t, cursor, limit)[limit - 1]))| == |Remaining(t, cursor)| - limit
  {
    hide Remaining, Below, Descending;
    PageSize(t, cursor, limit);
    var rest := Remaining(t, cursor);
    var s := Sorted(rest);
    var last := s[limit - 1];
    assert last in s;
    assert Page(t, cursor, limit)[limit - 1] == last;
    hide Sorted, Page;
    forall k ensures k in Remaining(t, Some(last)) <==> k in rest && Below(k, last) {
      RemainingBelow(t, cursor, last, k);
    }
    TailIsBelow(s, limit - 1, rest, Remaining(t, Some(last)));
  }

  lemma RemainingBelow(t: set<Key>, cursor: Option<Key>, last: Key, k: Key)
    requires last in Remaining(t, cursor)
    ensures k in Remaining(t, Some(last)) <==> k in Remaining(t, cursor) && Below(k, last)
  {
  }

  lemma TailIsBelow(s: seq<Key>, n: nat, all: set<Key>, below: set<Key>)
    requires Lists(s, all) && |s| == |all| && n < |s|
    requires forall k :: k in below <==> k in all && Below(k, s[n])
    ensures |below| == |s| - n - 1
  {
    var tail := s[n + 1..];
    forall k ensures k in tail <==> k in below {
      if k in tail {
        var i :| 0 <= i < |tail| && tail[i] == k;
        assert s[n + 1 + i] == k;
      }
      if k in below {
        var i :| 0 <= i < |s| && s[i] == k;
        assert i < n ==> Below(s[n], s[i]);
      }
    }
    ListUnique(tail, Sorted(below));
  }

  /**
   * A rule for the next cursor is sound when it points at the page's last row, and gives no cursor
   * only if nothing is left below the page.
   */
  ghost predicate SoundNext(t: set<Key>, cursor: Option<Key>, page: seq<Key>, next: Option<Key>) {
    match next
    case Some(c) => page != [] && c == page[|page| - 1]
    case None => forall k :: k in Remaining(t, cursor) ==> k in page
  }

  // ---------------------------------------------------------------------------------------------
  // A walk: page after page, following the cursor
  // ---------------------------------------------------------------------------------------------

  /** One request of a walk: the table as it is then, the limit asked for, and the answer. */
  datatype Visit = Visit(table: set<Key>, limit: nat, page: seq<Key>, next: Option<Key>)

  /** Each request starts from the cursor the one before it returned; only the last may return none. */
  ghost predicate Walk(w: seq<Visit>, cursor: Option<Key>)
    decreases |w|
  {
    w != [] ==>
      && w[0].limit > 0
      && w[0].page == Page(w[0].table, cursor, w[0].limit)
      && SoundNext(w[0].table, cursor, w[0].page, w[0].next)
      && (w[1..] != [] ==> w[0].next.Some? && Walk(w[1..], w[0].next))
  }

  ghost predicate Complete(w: seq<Visit>) { w != [] && w[|w| - 1].next.None? }

  function Delivered(w: seq<Visit>): seq<Key> {
    if w == [] then [] else w[0].page + Delivered(w[1..])
  }

  ghost predicate AllBelow(s: seq<Key>, cursor: Option<Key>) {
    cursor.Some? ==> forall k :: k in s ==> Below(k, cursor.value)
  }

  /** However the table changes, what a walk delivers is strictly descending: no row comes twice. */
  lemma {:induction false} NothingTwice(w: seq<Visit>, cursor: Option<Key>)
    requires Walk(w, cursor)
    ensures Descending(Delivered(w)) && AllBelow(Delivered(w), cursor)
    decreases |w|
  {
    hide Descending, AllBelow, Page, SoundNext;
    if w == [] {
      NothingDelivered(cursor);
    } else {
      FirstPage(w, cursor);
      assert w[1..] == [] ==> w[0].page + Delivered(w[1..]) == w[0].page;
      if w[1..] != [] {
        NothingTwice(w[1..], w[0].next);
        Joined(w[0].page, Delivered(w[1..]), cursor);
      }
    }
  }

  lemma NothingDelivered(cursor: Option<Key>)
    ensures Descending([]) && AllBelow([], cursor)
  {
  }

  lemma FirstPage(w: seq<Visit>, cursor: Option<Key>)
    requires Walk(w, cursor) && w != []
    ensures Descending(w[0].page) && AllBelow(w[0].page, cursor)
    ensures w[0].next.Some? ==> w[0].page != [] && w[0].next.value == w[0].page[|w[0].page| - 1]
  {
  }

  lemma Joined(a: seq<Key>, b: seq<Key>, cursor: Option<Key>)
    requires Descending(a) && Descending(b) && AllBelow(a, cursor)
    requires a != [] && AllBelow(b, Some(a[|a| - 1]))
    ensures Descending(a + b) && AllBelow(a + b, cursor)
  {
    var s := a + b;
    forall i, j | 0 <= i < j < |s| ensures Below(s[j], s[i]) {
      if i < |a| <= j { assert b[j - |a|] in b; }
    }
    forall k | cursor.Some? && k in s ensures Below(k, cursor.value) {
      if k in b { assert a[|a| - 1] in a; }
    }
  }

  /** A row in the table at every request of a completed walk, below its start, is delivered. */
  lemma {:induction false} NothingMissed(w: seq<Visit>, cursor: Option<Key>, k: Key)
    requires Walk(w, cursor) && Complete(w)
    requires forall i :: 0 <= i < |w| ==> k in w[i].table
    requires cursor.Some? ==> Below(k, cursor.value)
    ensures k in Delivered(w)
    decreases |w|
  {
    hide Below, Page;
    if k !in w[0].page {
      LeftForLater(w, cursor, k);
      hide Walk;
      NothingMissed(w[1..], w[0].next, k);
    }
  }

  lemma LeftForLater(w: seq<Visit>, cursor: Option<Key>, k: Key)
    requires Walk(w, cursor) && Complete(w) && k in w[0].table && k !in w[0].page
    requires cursor.Some? ==> Below(k, cursor.value)
    ensures |w| > 1 && w[0].next.Some? && Below(k, w[0].next.value)
    ensures Walk(w[1..], w[0].next) && Complete(w[1..])
  {
    hide Below, Page;
    assert k in Remaining(w[0].table, cursor);
    PageIsTop(w[0].table, cursor, w[0].limit, k);
  }

  /**
   * Keyset walk under change: whatever is inserted or deleted between requests, no row is delivered
   * twice, and a row present at every request of a completed walk is delivered exactly once.
   */
  lemma WalkUnderChange(w: seq<Visit>, k: Key)
    requires Walk(w, None) && Complete(w)
    ensures forall i, j :: 0 <= i < j < |Delivered(w)| ==> Delivered(w)[i] != Delivered(w)[j]
    ensures (forall i :: 0 <= i < |w| ==> k in w[i].table) ==>
              exists i :: && 0 <= i < |Delivered(w)| && Delivered(w)[i] == k
                          && forall j :: 0 <= j < |Delivered(w)| && Delivered(w)[j] == k ==> j == i
  {
    hide Walk, Complete, Descending, Delivered;
    NothingTwice(w, None);
    NoRepeats(Delivered(w));
    if forall i :: 0 <= i < |w| ==> k in w[i].table {
      NothingMissed(w, None, k);
      FoundOnce(Delivered(w), k);
    }
  }

  lemma NoRepeats(s: seq<Key>)
    requires Descending(s)
    ensures forall i, j :: 0 <= i < j < |s| ==> s[i] != s[j]
  {
    forall i, j | 0 <= i < j < |s| ensures s[i] != s[j] {
      assert Below(s[j], s[i]);
    }
  }

  lemma FoundOnce(s: seq<Key>, k: Key)
    requires (forall i, j :: 0 <= i < j < |s| ==> s[i] != s[j]) && k in s
    ensures exists i :: && 0 <= i < |s| && s[i] == k
                        && forall j :: 0 <= j < |s| && s[j] == k ==> j == i
  {
    var i :| 0 <= i < |s| && s[i] == k;
    assert forall j :: 0 <= j < |s| && s[j] == k ==> j == i;
  }

  lemma {:induction false} OnlyFromTable(w: seq<Visit>, cursor: Option<Key>, t: set<Key>)
    requires Walk(w, cursor) && forall i :: 0 <= i < |w| ==> w[i].table == t
    ensures forall k :: k in Delivered(w) ==> k in t
    decreases |w|
  {
    if w != [] && w[1..] != [] {
      OnlyFromTable(w[1..], w[0].next, t);
    }
  }

  lemma {:induction false} EveryPageDelivers(w: seq<Visit>, cursor: Option<Key>)
    requires Walk(w, cursor)
    ensures |w| <= |Delivered(w)| + 1
    decreases |w|
  {
    if w != [] && w[1..] != [] {
      EveryPageDelivers(w[1..], w[0].next);
    }
  }

  lemma {:induction false} DescendingSize(s: seq<Key>, t: set<Key>)
    requires Descending(s) && forall k :: k in s ==> k in t
    ensures |s| <= |t|
  {
    if s != [] {
      var n := |s| - 1;
      assert s[n] in t;
      forall k | k in s[..n] ensures k in t - {s[n]} {
        var i :| 0 <= i < n && s[i] == k;
        assert Below(s[n], s[i]);
      }
      DescendingSize(s[..n], t - {s[n]});
    }
  }

  /** Over a fixed table a walk takes at most one request more than there are rows. */
  lemma FixedTableTerminates(w: seq<Visit>, t: set<Key>)
    requires Walk(w, None) && forall i :: 0 <= i < |w| ==> w[i].table == t
    ensures |w| <= |t| + 1
  {
    NothingTwice(w, None);
    OnlyFromTable(w, None, t);
    EveryPageDelivers(w, None);
    DescendingSize(Delivered(w), t);
  }

  /** Over a fixed table the pages of a completed walk concatenate to the whole table in order. */
  lemma FixedTableInOrder(w: seq<Visit>, t: set<Key>)
    requires Walk(w, None) && Complete(w) && forall i :: 0 <= i < |w| ==> w[i].table == t
    ensures Delivered(w) == Sorted(t)
  {
    NothingTwice(w, None);
    OnlyFromTable(w, None, t);
    forall k | k in t ensures k in Delivered(w) {
      NothingMissed(w, None, k);
    }
    ListUnique(Delivered(w), Sorted(t));
  }
}
