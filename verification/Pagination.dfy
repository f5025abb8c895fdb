/**
 * The list endpoints: limit clamping, the cursor text in and out, and the next-cursor rule, tied to
 * the keyset walk.
 */
module Pagination {
  import opened Options
  import opened Keyset
  import opened Cursors

  const DEFAULT_LIMIT: int := 20
  const MAX_LIMIT: int := 100

  function ClampLimit(requested: Option<int>): (limit: nat)
    ensures requested.None? ==> limit == 20
    ensures requested.Some? && 1 <= requested.value <= 100 ==> limit == requested.value
    ensures requested.Some? && requested.value < 1 ==> limit == 1
    ensures requested.Some? && 100 < requested.value ==> limit == 100
  {
    var r := if requested.Some? then requested.value else DEFAULT_LIMIT;
    var low := if r < 1 then 1 else r;
    if MAX_LIMIT < low then MAX_LIMIT else low
  }

  /** The position a request starts below; an absent or empty cursor is the first page. */
  function KeysetWhere(cfg: Config, after: string): Result<Option<Key>> {
    if after == "" then Ok(None) else
    match DecodeCursor(cfg, after)
    case Err(e) => Err(e)
    case Ok(p) =>
      (match cfg.parseDate(p.createdAt)
       case Some(t) => Ok(Some(Key(t, p.id)))
       case None => Err("invalid date"))
  }

  /** No cursor after an empty or short page, nor when the whole table fits one page. */
  function NextKey(items: seq<Key>, limit: nat, total: nat): Option<Key> {
    if items == [] || |items| < limit || total <= limit then None else Some(items[|items| - 1])
  }

  /** Rows carry non-negative ids and times the cursor can express. */
  ghost predicate Addressable(cfg: Config, t: set<Key>) {
    forall k :: k in t ==> k.lo >= 0 && ValidTime(cfg, k.hi)
  }

  function BuildNextCursor(cfg: Config, items: seq<Key>, limit: nat, total: nat): Option<string>
    requires forall i :: 0 <= i < |items| ==> items[i].lo >= 0 && ValidTime(cfg, items[i].hi)
  {
    match NextKey(items, limit, total)
    case None => None
    case Some(k) =>
      assert k == items[|items| - 1] && ValidTime(cfg, k.hi);
      Some(EncodeCursor(cfg, k.hi, k.lo))
  }

  datatype PageResult = PageResult(data: seq<Key>, nextCursor: Option<string>, total: nat)

  /** One request; the page and the total come from one snapshot of the table. */
  ghost function ListPage(cfg: Config, table: set<Key>, after: string, requested: Option<int>): Result<PageResult>
    requires Addressable(cfg, table)
  {
    var limit := ClampLimit(requested);
    match KeysetWhere(cfg, after)
    case Err(e) => Err(e)
    case Ok(start) =>
      var items := Page(table, start, limit);
      PageIsAddressable(cfg, table, start, limit);
      Ok(PageResult(items, BuildNextCursor(cfg, items, limit, |table|), |table|))
  }

  lemma PageIsAddressable(cfg: Config, table: set<Key>, start: Option<Key>, limit: nat)
    requires Addressable(cfg, table)
    ensures forall i :: 0 <= i < |Page(table, start, limit)| ==>
              Page(table, start, limit)[i].lo >= 0 && ValidTime(cfg, Page(table, start, limit)[i].hi)
  {
    var p := Page(table, start, limit);
    forall i | 0 <= i < |p| ensures p[i].lo >= 0 && ValidTime(cfg, p[i].hi) {
      assert p[i] in p;
      assert p[i] in table;
    }
  }

  lemma {:induction false} SameSize(s: seq<Key>, t: set<Key>)
    requires Descending(s) && forall k :: k in s ==> k in t
    requires |t| <= |s|
    ensures forall k :: k in t ==> k in s
  {
    if s != [] {
      var n := |s| - 1;
      assert s[n] in t;
      forall k | k in s[..n] ensures k in t - {s[n]} {
        var i :| 0 <= i < n && s[i] == k;
        assert Below(s[n], s[i]);
      }
      SameSize(s[..n], t - {s[n]});
      forall k | k in t ensures k in s {
        if k != s[n] { assert k in t - {s[n]}; }
      }
    }
  }

  /** The null-cursor rule is sound: it ends the walk only when no row is left below the page. */
  lemma NextKeyIsSound(t: set<Key>, start: Option<Key>, limit: nat)
    requires limit > 0
    ensures var p := Page(t, start, limit); SoundNext(t, start, p, NextKey(p, limit, |t|))
  {
    var p := Page(t, start, limit);
    if |p| == limit && |t| <= limit {
      SameSize(p, t);
    }
  }

  /** A returned cursor text brings the next request to exactly the key it was built from. */
  lemma CursorReturnsToKey(cfg: Config, k: Key)
    requires k.lo >= 0 && ValidTime(cfg, k.hi)
    ensures EncodeCursor(cfg, k.hi, k.lo) != ""
    ensures KeysetWhere(cfg, EncodeCursor(cfg, k.hi, k.lo)) == Ok(Some(k))
  {
    CursorRoundTrip(cfg, k.hi, k.lo);
  }

  /** A request is refused exactly for a cursor that cannot be decoded; no cursor is page one. */
  lemma AnsweredIff(cfg: Config, table: set<Key>, after: string, requested: Option<int>)
    requires Addressable(cfg, table)
    ensures ListPage(cfg, table, after, requested).Ok? <==> after == "" || DecodeCursor(cfg, after).Ok?
  {
    hide Addressable, Page;
    if after != "" && DecodeCursor(cfg, after).Ok? {
      DecodedTimeParses(cfg, after);
    }
  }

  lemma DecodedTimeParses(cfg: Config, after: string)
    requires DecodeCursor(cfg, after).Ok?
    ensures cfg.parseDate(DecodeCursor(cfg, after).value.createdAt).Some?
  {
    hide ReadLayout, Sign;
  }

  // ---------------------------------------------------------------------------------------------
  // A client following `next_cursor`
  // ---------------------------------------------------------------------------------------------

  datatype Request = Request(table: set<Key>, requested: Option<int>)

  /** The answers a client collects: the table and the limit may differ at every request. */
  ghost predicate Session(cfg: Config, reqs: seq<Request>, answers: seq<PageResult>, after: string)
    decreases |reqs|
  {
    && |answers| == |reqs|
    && (reqs != [] ==>
          && Addressable(cfg, reqs[0].table)
          && ListPage(cfg, reqs[0].table, after, reqs[0].requested) == Ok(answers[0])
          && (reqs[1..] != [] ==>
                answers[0].nextCursor.Some? && Session(cfg, reqs[1..], answers[1..], answers[0].nextCursor.value)))
  }

  ghost function Visits(reqs: seq<Request>, answers: seq<PageResult>): (w: seq<Visit>)
    requires |reqs| == |answers|
    ensures |w| == |reqs|
    ensures forall i :: 0 <= i < |w| ==> w[i].table == reqs[i].table && w[i].page == answers[i].data
  {
    if reqs == [] then [] else
    var limit := ClampLimit(reqs[0].requested);
    [Visit(reqs[0].table, limit, answers[0].data, NextKey(answers[0].data, limit, |reqs[0].table|))]
    + Visits(reqs[1..], answers[1..])
  }

  /** A client session is a keyset walk, and it ends exactly when the client is given no cursor. */
  lemma {:induction false} SessionIsWalk(cfg: Config, reqs: seq<Request>, answers: seq<PageResult>, after: string,
                                         start: Option<Key>)
    requires Session(cfg, reqs, answers, after) && KeysetWhere(cfg, after) == Ok(start)
    ensures Walk(Visits(reqs, answers), start)
    ensures Complete(Visits(reqs, answers)) <==> answers != [] && answers[|answers| - 1].nextCursor.None?
    decreases |reqs|
  {
    hide ListPage, Page, SoundNext, KeysetWhere, ClampLimit, NextKey, Addressable;
    if reqs != [] {
      PageStep(cfg, reqs[0].table, after, reqs[0].requested, start, answers[0]);
      var next := NextKey(answers[0].data, ClampLimit(reqs[0].requested), |reqs[0].table|);
      var w := Visits(reqs, answers);
      assert w[1..] == Visits(reqs[1..], answers[1..]);
      if reqs[1..] != [] {
        SessionIsWalk(cfg, reqs[1..], answers[1..], answers[0].nextCursor.value, next);
      }
    }
  }

  /** One request is one visit of a walk, and its cursor text leads to the visit's next key. */
  lemma PageStep(cfg: Config, table: set<Key>, after: string, requested: Option<int>, start: Option<Key>,
                 answer: PageResult)
    requires Addressable(cfg, table) && KeysetWhere(cfg, after) == Ok(start)
               && ListPage(cfg, table, after, requested) == Ok(answer)
    ensures var limit := ClampLimit(requested);
            var next := NextKey(answer.data, limit, |table|);
            && answer.data == Page(table, start, limit)
            && SoundNext(table, start, answer.data, next)
            && (answer.nextCursor.Some? <==> next.Some?)
            && (next.Some? ==> KeysetWhere(cfg, answer.nextCursor.value) == Ok(next))
  {
    hide Page, SoundNext, KeysetWhere, ClampLimit, Addressable, EncodeCursor, ValidTime;
    var limit := ClampLimit(requested);
    NextKeyIsSound(table, start, limit);
    PageIsAddressable(cfg, table, start, limit);
    var next := NextKey(answer.data, limit, |table|);
    if next.Some? {
      CursorReturnsToKey(cfg, next.value);
    }
  }

  /**
   * The promise to clients: following `next_cursor` from the first page to the null cursor never
   * shows a row twice and shows every row that was there throughout, whatever else was inserted or
   * deleted meanwhile.
   */
  lemma SessionUnderChange(cfg: Config, reqs: seq<Request>, answers: seq<PageResult>, k: Key)
    requires Session(cfg, reqs, answers, "")
    requires answers != [] && answers[|answers| - 1].nextCursor.None?
    ensures var seen := Delivered(Visits(reqs, answers));
            && (forall i, j :: 0 <= i < j < |seen| ==> seen[i] != seen[j])
            && (forall i, j :: 0 <= i < j < |seen| ==>
                  seen[j].hi < seen[i].hi || (seen[j].hi == seen[i].hi && seen[j].lo < seen[i].lo))
            && ((forall i :: 0 <= i < |reqs| ==> k in reqs[i].table) ==> k in seen)
  {
    SessionIsWalk(cfg, reqs, answers, "", None);
    hide Session, Walk, Delivered, Descending, Keyset.Below;
    var w := Visits(reqs, answers);
    WalkUnderChange(w, k);
    NothingTwice(w, None);
    var seen := Delivered(w);
    forall i, j | 0 <= i < j < |seen|
      ensures seen[j].hi < seen[i].hi || (seen[j].hi == seen[i].hi && seen[j].lo < seen[i].lo)
    {
      NewestFirst(seen, i, j);
    }
  }

  /** Over a fixed table a session is short, and a finished one shows the table in order. */
  lemma SessionOverFixedTable(cfg: Config, reqs: seq<Request>, answers: seq<PageResult>, t: set<Key>)
    requires Session(cfg, reqs, answers, "") && forall i :: 0 <= i < |reqs| ==> reqs[i].table == t
    ensures |reqs| <= |t| + 1
    ensures answers != [] && answers[|answers| - 1].nextCursor.None? ==>
              Delivered(Visits(reqs, answers)) == Keyset.Sorted(t)
  {
    SessionIsWalk(cfg, reqs, answers, "", None);
    FixedTableTerminates(Visits(reqs, answers), t);
    if answers != [] && answers[|answers| - 1].nextCursor.None? {
      FixedTableInOrder(Visits(reqs, answers), t);
    }
  }

  /** How many requests a finished session takes from a position on, when the table does not fit one page. */
  lemma {:induction false} RequestsFrom(cfg: Config, t: set<Key>, requested: Option<int>, reqs: seq<Request>,
                                        answers: seq<PageResult>, after: string, start: Option<Key>)
    requires Session(cfg, reqs, answers, after) && KeysetWhere(cfg, after) == Ok(start)
    requires ClampLimit(requested) < |t| && forall i :: 0 <= i < |reqs| ==> reqs[i] == Request(t, requested)
    requires answers != [] && answers[|answers| - 1].nextCursor.None?
    ensures var n, limit, left := |reqs|, ClampLimit(requested), |Remaining(t, start)|;
            (n - 1) * limit <= left < n * limit
    decreases |reqs|
  {
    hide KeysetWhere, ListPage, Remaining, Page, SoundNext, Addressable, ClampLimit;
    var limit := ClampLimit(requested);
    PageStep(cfg, t, after, requested, start, answers[0]);
    PageSize(t, start, limit);
    if reqs[1..] != [] {
      LeftAfterPage(t, start, limit);
      RequestsFrom(cfg, t, requested, reqs[1..], answers[1..], answers[0].nextCursor.value,
                   NextKey(answers[0].data, limit, |t|));
      assert (|reqs| - 1) * limit == (|reqs| - 2) * limit + limit;
    }
  }

  /**
   * A client that follows `next_cursor` with one limit over a fixed table: a table of one page takes one
   * request, a larger one a request per full page and one more, empty if the pages come out even.
   */
  lemma RequestsExactly(cfg: Config, t: set<Key>, requested: Option<int>, reqs: seq<Request>, answers: seq<PageResult>)
    requires Session(cfg, reqs, answers, "") && forall i :: 0 <= i < |reqs| ==> reqs[i] == Request(t, requested)
    requires answers != [] && answers[|answers| - 1].nextCursor.None?
    ensures var limit := ClampLimit(requested);
            if |t| <= limit then |reqs| == 1 else (|reqs| - 1) * limit <= |t| < |reqs| * limit
  {
    hide ListPage, ClampLimit, Addressable;
    if |t| <= ClampLimit(requested) {
      PageStep(cfg, t, "", requested, None, answers[0]);
    } else {
      RequestsFrom(cfg, t, requested, reqs, answers, "", None);
    }
  }

  // ---------------------------------------------------------------------------------------------
  // The posts endpoint
  // ---------------------------------------------------------------------------------------------

  /**
   * The rows one posts request selects. The keyset clause and the scheduling clause are both spread
   * into one object under the member name `OR`, so whenever scheduled posts are hidden the
   * scheduling clause replaces the keyset clause.
   */
  ghost function PostsSelected(t: set<Key>, visible: set<Key>, includeScheduled: bool, start: Option<Key>): set<Key> {
    if includeScheduled then Remaining(t, start) else t * visible
  }

  /** What the endpoint intends: the keyset clause and the scheduling clause together. */
  ghost function PostsIntended(t: set<Key>, visible: set<Key>, includeScheduled: bool, start: Option<Key>): set<Key> {
    if includeScheduled then Remaining(t, start) else Remaining(t * visible, start)
  }

  /**
   * A posts request honours its cursor if and only if scheduled posts are included, or no visible
   * row is at or above the cursor; otherwise it selects the first page again.
   */
  lemma PostsHonourCursorIff(t: set<Key>, visible: set<Key>, includeScheduled: bool, c: Key)
    ensures PostsSelected(t, visible, includeScheduled, Some(c)) == PostsIntended(t, visible, includeScheduled, Some(c))
            <==> includeScheduled || forall k :: k in t && k in visible ==> Below(k, c)
    ensures !includeScheduled ==>
              PostsSelected(t, visible, false, Some(c)) == PostsSelected(t, visible, false, None)
  {
    var a := PostsSelected(t, visible, includeScheduled, Some(c));
    var b := PostsIntended(t, visible, includeScheduled, Some(c));
    if !includeScheduled {
      if forall k :: k in t && k in visible ==> Below(k, c) {
        assert a == b;
      } else {
        var k :| k in t && k in visible && !Below(k, c);
        assert k in a && k !in b;
      }
    }
  }

  /** A client of the default posts endpoint never leaves page one while a second page exists. */
  lemma PostsWalkRepeats(t: set<Key>, visible: set<Key>, limit: nat)
    requires limit > 0 && limit < |t * visible|
    ensures var p := Page(PostsSelected(t, visible, false, None), None, limit);
            && NextKey(p, limit, |t * visible|).Some?
            && Page(PostsSelected(t, visible, false, NextKey(p, limit, |t * visible|)), None, limit) == p
  {
  }

  /** One posts request: the selected rows, and a cursor from the total without the keyset clause. */
  ghost function ListPosts(cfg: Config, t: set<Key>, visible: set<Key>, includeScheduled: bool, after: string,
                           requested: Option<int>)
      : Result<PageResult>
    requires Addressable(cfg, t)
  {
    var limit, total := ClampLimit(requested), |if includeScheduled then t else t * visible|;
    match KeysetWhere(cfg, after)
    case Err(e) => Err(e)
    case Ok(start) =>
      var selected := PostsSelected(t, visible, includeScheduled, start);
      var items := Page(selected, None, limit);
      PageIsAddressable(cfg, selected, None, limit);
      Ok(PageResult(items, BuildNextCursor(cfg, items, limit, total), total))
  }

  /** With scheduled posts included a posts request is the plain keyset page. */
  lemma AllPostsArePaged(cfg: Config, t: set<Key>, visible: set<Key>, after: string, requested: Option<int>)
    requires Addressable(cfg, t)
    ensures ListPosts(cfg, t, visible, true, after, requested) == ListPage(cfg, t, after, requested)
  {
    hide KeysetWhere, ClampLimit, BuildNextCursor, Addressable;
    if KeysetWhere(cfg, after).Ok? {
      var start := KeysetWhere(cfg, after).value;
      assert Remaining(Remaining(t, start), None) == Remaining(t, start);
    }
  }

  /** A client of the posts endpoint following its cursor over a fixed table. */
  ghost predicate PostsSession(cfg: Config, t: set<Key>, visible: set<Key>, includeScheduled: bool,
                               requested: Option<int>,
                               answers: seq<PageResult>, after: string)
    requires Addressable(cfg, t)
    decreases |answers|
  {
    answers != [] ==>
      && ListPosts(cfg, t, visible, includeScheduled, after, requested) == Ok(answers[0])
      && (answers[1..] != [] ==>
            && answers[0].nextCursor.Some?
            && PostsSession(cfg, t, visible, includeScheduled, requested, answers[1..], answers[0].nextCursor.value))
  }

  /** Some client can make `n` requests, each but the first with the cursor of the one before. */
  ghost predicate CanGoOn(cfg: Config, t: set<Key>, visible: set<Key>, includeScheduled: bool, requested: Option<int>,
                          n: nat)
    requires Addressable(cfg, t)
  {
    exists answers :: |answers| == n && PostsSession(cfg, t, visible, includeScheduled, requested, answers, "")
  }

  function Repeated(t: set<Key>, requested: Option<int>, n: nat): (r: seq<Request>)
    ensures |r| == n && forall i :: 0 <= i < n ==> r[i] == Request(t, requested)
  {
    seq(n, i => Request(t, requested))
  }

  lemma {:induction false} AllPostsSession(cfg: Config, t: set<Key>, visible: set<Key>, requested: Option<int>,
                                           answers: seq<PageResult>, after: string)
    requires Addressable(cfg, t) && PostsSession(cfg, t, visible, true, requested, answers, after)
    ensures Session(cfg, Repeated(t, requested, |answers|), answers, after)
    decreases |answers|
  {
    hide ListPosts, ListPage, Addressable;
    if answers != [] {
      AllPostsArePaged(cfg, t, visible, after, requested);
      var r := Repeated(t, requested, |answers|);
      assert r[1..] == Repeated(t, requested, |answers| - 1);
      if answers[1..] != [] {
        AllPostsSession(cfg, t, visible, requested, answers[1..], answers[0].nextCursor.value);
      }
    }
  }

  /** Without scheduled posts every request is answered with page one, whatever its cursor. */
  lemma SameAnswer(cfg: Config, t: set<Key>, visible: set<Key>, after: string, requested: Option<int>)
    requires Addressable(cfg, t) && KeysetWhere(cfg, after).Ok?
    ensures ListPosts(cfg, t, visible, false, after, requested) == ListPosts(cfg, t, visible, false, "", requested)
    ensures ListPosts(cfg, t, visible, false, "", requested).Ok?
  {
    hide ClampLimit, BuildNextCursor, Addressable, Page;
  }

  /** It carries a cursor exactly when the visible posts do not fit one page, and that cursor is accepted. */
  lemma FirstAnswer(cfg: Config, t: set<Key>, visible: set<Key>, requested: Option<int>)
    requires Addressable(cfg, t)
    ensures var a := ListPosts(cfg, t, visible, false, "", requested);
            && a.Ok?
            && (a.value.nextCursor.Some? <==> ClampLimit(requested) < |t * visible|)
            && (a.value.nextCursor.Some? ==> KeysetWhere(cfg, a.value.nextCursor.value).Ok?)
  {
    hide KeysetWhere, EncodeCursor, ValidTime;
    var v, limit := t * visible, ClampLimit(requested);
    FirstCall(cfg);
    var items := Page(v, None, limit);
    PageIsAddressable(cfg, v, None, limit);
    PageFills(v, limit);
    if NextKey(items, limit, |v|).Some? {
      CursorReturnsToKey(cfg, NextKey(items, limit, |v|).value);
    }
  }

  lemma FirstCall(cfg: Config)
    ensures KeysetWhere(cfg, "") == Ok(None)
  {
  }

  lemma PageFills(t: set<Key>, limit: nat)
    ensures |Page(t, None, limit)| == if |t| <= limit then |t| else limit
  {
  }

  lemma {:induction false} PageOneForEver(cfg: Config, t: set<Key>, visible: set<Key>, requested: Option<int>,
                                          after: string,
                                          answers: seq<PageResult>)
    requires Addressable(cfg, t) && KeysetWhere(cfg, after).Ok? && ClampLimit(requested) < |t * visible|
    requires forall i :: 0 <= i < |answers| ==> Ok(answers[i]) == ListPosts(cfg, t, visible, false, "", requested)
    ensures PostsSession(cfg, t, visible, false, requested, answers, after)
    decreases |answers|
  {
    hide ListPosts, KeysetWhere, ClampLimit, Addressable;
    if answers != [] {
      SameAnswer(cfg, t, visible, after, requested);
      FirstAnswer(cfg, t, visible, requested);
      PageOneForEver(cfg, t, visible, requested, answers[0].nextCursor.value, answers[1..]);
    }
  }

  /**
   * A client of the posts endpoint can go on for ever over a table that never changes if and only if
   * scheduled posts are hidden and the visible posts do not fit one page.
   */
  lemma PostsEndlessIff(cfg: Config, t: set<Key>, visible: set<Key>, includeScheduled: bool, requested: Option<int>)
    requires Addressable(cfg, t)
    ensures (forall n: nat :: CanGoOn(cfg, t, visible, includeScheduled, requested, n))
       <==> !includeScheduled && ClampLimit(requested) < |t * visible|
  {
    hide ListPosts, KeysetWhere, ClampLimit, Addressable, PostsSession, Session;
    if includeScheduled {
      AllPostsEnd(cfg, t, visible, requested);
    } else if ClampLimit(requested) < |t * visible| {
      FirstAnswer(cfg, t, visible, requested);
      FirstCall(cfg);
      forall n: nat ensures CanGoOn(cfg, t, visible, false, requested, n) {
        var a := ListPosts(cfg, t, visible, false, "", requested).value;
        var answers := seq(n, i => a);
        PageOneForEver(cfg, t, visible, requested, "", answers);
      }
    } else {
      OnePageEnds(cfg, t, visible, requested);
    }
  }

  lemma AllPostsEnd(cfg: Config, t: set<Key>, visible: set<Key>, requested: Option<int>)
    requires Addressable(cfg, t)
    ensures !CanGoOn(cfg, t, visible, true, requested, |t| + 2)
  {
    hide ListPosts, Addressable, PostsSession, Session;
    forall answers | |answers| == |t| + 2 ensures !PostsSession(cfg, t, visible, true, requested, answers, "") {
      if PostsSession(cfg, t, visible, true, requested, answers, "") {
        AllPostsSession(cfg, t, visible, requested, answers, "");
        SessionOverFixedTable(cfg, Repeated(t, requested, |answers|), answers, t);
        assert false;
      }
    }
  }

  lemma OnePageEnds(cfg: Config, t: set<Key>, visible: set<Key>, requested: Option<int>)
    requires Addressable(cfg, t) && |t * visible| <= ClampLimit(requested)
    ensures !CanGoOn(cfg, t, visible, false, requested, 2)
  {
    hide ListPosts, Addressable, ClampLimit;
    FirstAnswer(cfg, t, visible, requested);
    forall answers: seq<PageResult> | |answers| == 2
      ensures !PostsSession(cfg, t, visible, false, requested, answers, "")
    {
      assert answers[1..] != [];
    }
  }
}
