/**
 * Event polling: EventsForEndpoint (push_repo.go), the cursor computed by
 * ListNotificationEvents (notifications.go) and the client that feeds it back
 * (frontend/src/lib/api.ts). Every event is delivered once, in order.
 */
module Events {
  datatype Event = Event(id: int, subject: string, title: string)

  /** notificationEventsLimit */
  const LIMIT := 50

  /** push_events in id order; ids are distinct. */
  predicate Ordered(table: seq<Event>) {
    forall i, j :: 0 <= i < j < |table| ==> table[i].id < table[j].id
  }

  // ---------- one page ----------

  predicate Due(e: Event, subjects: set<string>, after: int) {
    e.subject in subjects && e.id > after
  }

  /** The events of the table with a subscribed subject and an id above `after`. */
  function Matching(table: seq<Event>, subjects: set<string>, after: int): seq<Event> {
    if table == [] then []
    else (if Due(table[0], subjects, after) then [table[0]] else []) + Matching(table[1..], subjects, after)
  }

  function Take<T>(s: seq<T>, n: nat): seq<T> {
    if |s| <= n then s else s[..n]
  }

  /** EventsForEndpoint for an endpoint subscribed to `subjects`: a limit that is not positive means 50. */
  function EventsForEndpoint(table: seq<Event>, subjects: set<string>, after: int, limit: int): seq<Event> {
    Take(Matching(table, subjects, after), if limit <= 0 then 50 else limit)
  }

  datatype Page = Page(items: seq<Event>, lastId: int)

  function LastId(after: int, events: seq<Event>): int {
    if events == [] then after
    else
      var rest := LastId(after, events[..|events| - 1]);
      if events[|events| - 1].id > rest then events[|events| - 1].id else rest
  }

  /** ListNotificationEvents: copies the events and keeps the largest id seen, starting from the cursor. */
  method ListNotificationEvents(table: seq<Event>, subjects: set<string>, after: int) returns (page: Page)
    ensures page == PageAfter(table, subjects, after)
  {
    var events := EventsForEndpoint(table, subjects, after, LIMIT);
    var lastId := after;
    var items: seq<Event> := [];
    for i := 0 to |events|
      invariant items == events[..i] && lastId == LastId(after, events[..i])
    {
      var ev := events[i];
      assert events[..i + 1][..i] == events[..i];
      items := items + [ev];
      if ev.id > lastId {
        lastId := ev.id;
      }
    }
    assert events[..|events|] == events;
    return Page(items, lastId);
  }

  function PageAfter(table: seq<Event>, subjects: set<string>, after: int): Page {
    var events := EventsForEndpoint(table, subjects, after, LIMIT);
    Page(events, LastId(after, events))
  }

  /** listNotificationEvents in the client: the reported id if positive, and else the largest it can see. */
  function ClientCursor(page: Page, after: int): int {
    if page.lastId > 0 then page.lastId else LastId(after, page.items)
  }

  // ---------- what a page holds ----------

  lemma {:induction false} MatchingExact(table: seq<Event>, subjects: set<string>, after: int)
    ensures var m := Matching(table, subjects, after);
      && (forall e :: e in m <==> e in table && e.subject in subjects && e.id > after)
      && (Ordered(table) ==> Ordered(m))
  {
    if table != [] {
      MatchingExact(table[1..], subjects, after);
      if Ordered(table) {
        assert Ordered(table[1..]);
        forall e | e in table[1..] ensures table[0].id < e.id {
        }
      }
    }
  }

  lemma {:induction false} MatchingAppend(a: seq<Event>, b: seq<Event>, subjects: set<string>, after: int)
    ensures Matching(a + b, subjects, after) == Matching(a, subjects, after) + Matching(b, subjects, after)
  {
    if a == [] {
      assert a + b == b;
    } else {
      assert (a + b)[1..] == a[1..] + b;
      MatchingAppend(a[1..], b, subjects, after);
    }
  }

  lemma {:induction false} LastIdOfOrdered(after: int, events: seq<Event>)
    requires Ordered(events) && forall e :: e in events ==> e.id > after
    ensures LastId(after, events) == if events == [] then after else events[|events| - 1].id
  {
    if events != [] {
      var front := events[..|events| - 1];
      assert forall e :: e in front ==> e in events;
      LastIdOfOrdered(after, front);
      if front != [] {
        assert front[|front| - 1] == events[|events| - 2];
      }
    }
  }

  lemma MatchingHead(table: seq<Event>, subjects: set<string>, after: int)
    requires table != []
    ensures Matching(table, subjects, after)
         == (if Due(table[0], subjects, after) then [table[0]] else []) + Matching(table[1..], subjects, after)
  {
  }

  lemma OrderedTail(table: seq<Event>)
    requires Ordered(table) && table != []
    ensures Ordered(table[1..]) && forall e :: e in table[1..] ==> e.id > table[0].id
  {
  }

  lemma SomeMatch(table: seq<Event>, subjects: set<string>, after: int)
    requires Matching(table, subjects, after) != []
    ensures table != []
  {
  }

  /** Moving the cursor to the last event of a prefix leaves exactly what comes after the prefix. */
  lemma {:induction false} MatchingFrom(table: seq<Event>, subjects: set<string>, after: int, n: nat)
    requires Ordered(table) && 0 < n <= |Matching(table, subjects, after)|
    ensures Matching(table, subjects, Matching(table, subjects, after)[n - 1].id) == Matching(table, subjects, after)[n..]
    decreases |table|
  {
    hide Matching, Ordered;
    MatchingExact(table, subjects, after);
    SomeMatch(table, subjects, after);
    var rest, m := table[1..], Matching(table, subjects, after);
    var later := Matching(rest, subjects, after);
    var cursor := m[n - 1].id;
    OrderedTail(table);
    MatchingExact(rest, subjects, after);
    MatchingHead(table, subjects, after);
    MatchingHead(table, subjects, cursor);
    assert m[n - 1] in m;
    if Due(table[0], subjects, after) {
      assert m == [table[0]] + later;
      if n == 1 {
        AllAbove(rest, subjects, after, cursor);
      } else {
        assert later[n - 2] == m[n - 1] && later[n - 2] in later;
        MatchingFrom(rest, subjects, after, n - 1);
        assert later[n - 1..] == m[n..];
      }
    } else {
      assert m == later;
      MatchingFrom(rest, subjects, after, n);
    }
    assert !Due(table[0], subjects, cursor);
    assert [] + Matching(rest, subjects, cursor) == Matching(rest, subjects, cursor);
  }

  /** Where every id is above both cursors, the cursor makes no difference. */
  lemma {:induction false} AllAbove(table: seq<Event>, subjects: set<string>, after: int, cursor: int)
    requires forall e :: e in table ==> e.id > cursor && e.id > after
    ensures Matching(table, subjects, after) == Matching(table, subjects, cursor)
  {
    if table != [] {
      AllAbove(table[1..], subjects, after, cursor);
    }
  }

  /** What one poll does: the page and what is left behind it make up what was due before it. */
  lemma PageSplits(table: seq<Event>, subjects: set<string>, after: int)
    requires Ordered(table)
    ensures var page, due := PageAfter(table, subjects, after), Matching(table, subjects, after);
      && |page.items| == (if |due| < LIMIT then |due| else LIMIT)
      && due == page.items + Matching(table, subjects, page.lastId)
      && (page.items == [] <==> due == []) && (page.items == [] ==> page.lastId == after)
      && (page.items != [] ==> page.lastId > after)
  {
    hide Ordered, Matching, LastId;
    PageOrdered(table, subjects, after);
    var due := Matching(table, subjects, after);
    var items := PageAfter(table, subjects, after).items;
    assert items == due[..|items|];
    LastIdOfOrdered(after, items);
    assert forall e :: e in items ==> e.id > after;
    if items != [] {
      MatchingFrom(table, subjects, after, |items|);
    } else {
      assert [] + due == due;
    }
  }

  /** The client's cursor is the server's, for every cursor a client can hold. */
  lemma ClientAgrees(table: seq<Event>, subjects: set<string>, after: int)
    ensures var page := PageAfter(table, subjects, after); ClientCursor(page, after) == page.lastId
  {
  }

  // ---------- polling a growing table ----------

  /** Events are only appended, with larger ids. */
  ghost predicate Grows(tables: seq<seq<Event>>) {
    forall k :: 0 <= k < |tables| ==> Ordered(tables[k]) && (k > 0 ==> tables[k - 1] <= tables[k])
  }

  /** The cursor after the polls against `tables`, and all that they delivered. */
  function Poll(tables: seq<seq<Event>>, subjects: set<string>, start: int): Page {
    if tables == [] then Page([], start)
    else
      var n := |tables| - 1;
      var sofar := Poll(tables[..n], subjects, start);
      var page := PageAfter(tables[n], subjects, sofar.lastId);
      Page(sofar.items + page.items, page.lastId)
  }

  /** The cursor is where it started, or at an event of the table last polled. */
  lemma {:induction false} CursorWithin(tables: seq<seq<Event>>, subjects: set<string>, start: int)
    requires Grows(tables) && tables != []
    ensures var lastId, table := Poll(tables, subjects, start).lastId, tables[|tables| - 1];
      lastId == start || (lastId > start && exists e :: e in table && e.id == lastId)
    decreases |tables|
  {
    hide Ordered, Matching, EventsForEndpoint, LastId;
    var n := |tables| - 1;
    var before, table := tables[..n], tables[n];
    var sofar := Poll(before, subjects, start);
    if n > 0 {
      assert Grows(before);
      CursorWithin(before, subjects, start);
      assert before[n - 1] == tables[n - 1] <= table;
      assert forall e :: e in before[n - 1] ==> e in table;
    }
    PageWithin(table, subjects, sofar.lastId);
  }

  lemma PageWithin(table: seq<Event>, subjects: set<string>, after: int)
    requires Ordered(table)
    ensures var lastId := PageAfter(table, subjects, after).lastId;
      lastId == after || (lastId > after && exists e :: e in table && e.id == lastId)
  {
    PageSplits(table, subjects, after);
    MatchingExact(table, subjects, after);
    hide Ordered, Matching, LastId;
    var page, due := PageAfter(table, subjects, after), Matching(table, subjects, after);
    if page.items != [] {
      assert page.items == due[..|page.items|];
      PageOrdered(table, subjects, after);
      LastIdOfOrdered(after, page.items);
      assert page.items[|page.items| - 1] in due;
    }
  }

  lemma PageOrdered(table: seq<Event>, subjects: set<string>, after: int)
    requires Ordered(table)
    ensures var items := PageAfter(table, subjects, after).items;
      Ordered(items) && forall e :: e in items ==> e.id > after
  {
    MatchingExact(table, subjects, after);
    hide Matching, LastId;
    var due := Matching(table, subjects, after);
    var items := PageAfter(table, subjects, after).items;
    assert items == due[..|items|];
    assert forall e :: e in items ==> e in due;
  }

  /** Rows appended behind the cursor's event are due from the start as much as from the cursor. */
  lemma NewAbove(table: seq<Event>, n: nat, subjects: set<string>, start: int, cursor: int)
    requires Ordered(table) && n <= |table|
    requires cursor == start || (cursor > start && exists e :: e in table[..n] && e.id == cursor)
    ensures Matching(table[n..], subjects, start) == Matching(table[n..], subjects, cursor)
  {
    if cursor != start {
      var e :| e in table[..n] && e.id == cursor;
      var i :| 0 <= i < n && table[i] == e;
      assert forall j :: n <= j < |table| ==> table[j].id > cursor;
      AllAbove(table[n..], subjects, start, cursor);
    }
  }

  /** After any number of polls, what was delivered and what is still due are together all that ever was due. */
  lemma {:induction false} PollsDeliver(tables: seq<seq<Event>>, subjects: set<string>, start: int)
    requires Grows(tables) && tables != []
    ensures var p, table := Poll(tables, subjects, start), tables[|tables| - 1];
      p.items + Matching(table, subjects, p.lastId) == Matching(table, subjects, start)
    ensures Poll(tables, subjects, start).lastId >= start
    decreases |tables|
  {
    hide Ordered, Matching, PageAfter;
    var n := |tables| - 1;
    var table, before := tables[n], tables[..n];
    var sofar := Poll(before, subjects, start);
    if n > 0 {
      assert Grows(before) && before[n - 1] == tables[n - 1];
      PollsDeliver(before, subjects, start);
      var seen, more := before[n - 1], table[|before[n - 1]|..];
      assert table == seen + more && table[..|seen|] == seen;
      MatchingAppend(seen, more, subjects, start);
      MatchingAppend(seen, more, subjects, sofar.lastId);
      CursorWithin(before, subjects, start);
      NewAbove(table, |seen|, subjects, start, sofar.lastId);
      assert sofar.items + (Matching(seen, subjects, sofar.lastId) + Matching(more, subjects, sofar.lastId))
          == sofar.items + Matching(seen, subjects, sofar.lastId) + Matching(more, subjects, sofar.lastId);
    } else {
      assert [] + Matching(table, subjects, start) == Matching(table, subjects, start);
    }
    assert sofar.items + Matching(table, subjects, sofar.lastId) == Matching(table, subjects, start);
    PageSplits(table, subjects, sofar.lastId);
    var page := PageAfter(table, subjects, sofar.lastId);
    assert sofar.items + (page.items + Matching(table, subjects, page.lastId))
        == sofar.items + page.items + Matching(table, subjects, page.lastId);
  }

  /**
   * Once a poll comes back empty, exactly the due events of the table it saw
   * have been delivered: each once, in id order, and none besides.
   */
  lemma DeliveredOnce(tables: seq<seq<Event>>, subjects: set<string>, start: int)
    requires Grows(tables) && tables != []
    ensures var n := |tables| - 1;
      var p, table := Poll(tables, subjects, start), tables[n];
      && (PageAfter(table, subjects, Poll(tables[..n], subjects, start).lastId).items == [] ==>
            p.items == Matching(table, subjects, start))
      && Ordered(p.items)
      && (forall e :: e in p.items ==> e in table && e.subject in subjects && e.id > start)
  {
    var n := |tables| - 1;
    var table := tables[n];
    var p, sofar := Poll(tables, subjects, start), Poll(tables[..n], subjects, start);
    PollsDeliver(tables, subjects, start);
    PageSplits(table, subjects, sofar.lastId);
    MatchingExact(table, subjects, start);
    var all := Matching(table, subjects, start);
    assert p.items == all[..|p.items|];
    assert forall e :: e in p.items ==> e in all;
    if PageAfter(table, subjects, sofar.lastId).items == [] {
      assert p.lastId == sofar.lastId;
      assert p.items + [] == p.items;
    }
  }

  // ---------- polling a fixed table ----------

  function Same(table: seq<Event>, polls: nat): (tables: seq<seq<Event>>)
    ensures |tables| == polls && forall k :: 0 <= k < polls ==> tables[k] == table
  {
    seq(polls, _ => table)
  }

  /** The k-th poll of a table that does not change is empty exactly when the k - 1 before it held everything. */
  lemma {:induction false} FixedTable(table: seq<Event>, subjects: set<string>, start: int, polls: nat)
    requires Ordered(table)
    ensures var due, p := |Matching(table, subjects, start)|, Poll(Same(table, polls), subjects, start);
      && |p.items| == (if polls * LIMIT < due then polls * LIMIT else due)
      && |Matching(table, subjects, p.lastId)| == due - |p.items|
  {
    var tables := Same(table, polls);
    if polls > 0 {
      FixedTable(table, subjects, start, polls - 1);
      assert tables[..polls - 1] == Same(table, polls - 1);
      PageSplits(table, subjects, Poll(Same(table, polls - 1), subjects, start).lastId);
    }
  }

  /** n matching events in a fixed table take exactly ceil(n / 50) non-empty pages. */
  lemma PagesNeeded(table: seq<Event>, subjects: set<string>, start: int, k: nat)
    requires Ordered(table)
    ensures var n := |Matching(table, subjects, start)|;
      PageAfter(table, subjects, Poll(Same(table, k), subjects, start).lastId).items != [] <==> k < (n + LIMIT - 1) / LIMIT
  {
    FixedTable(table, subjects, start, k);
    PageSplits(table, subjects, Poll(Same(table, k), subjects, start).lastId);
  }
}
