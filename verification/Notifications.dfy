/** The notification feed: keyset pages, newest first, with created_at as the cursor. */
module Notifications {
  import opened Wrappers
  import opened Sets

  const PAGE_SIZE := 50

  datatype Subject = User(id: string) | Wallet(address: string)

  datatype Note = Note(subject: Subject, createdAt: int, kind: string, title: string, body: string, readAt: Option<int>)

  type Table = map<string, Note>

  function PageLimit(limit: int): nat {
    if limit <= 0 || limit > PAGE_SIZE then PAGE_SIZE else limit
  }

  /** The rows a query with this cursor selects from. */
  ghost function Eligible(t: Table, subject: Subject, cursor: Option<int>): set<string> {
    set id | id in t && t[id].subject == subject && (cursor.Some? ==> t[id].createdAt < cursor.value)
  }

  ghost predicate NewestFirst(t: Table, ids: seq<string>) {
    && (forall i :: 0 <= i < |ids| ==> ids[i] in t)
    && (forall i, j :: 0 <= i < j < |ids| ==> t[ids[i]].createdAt >= t[ids[j]].createdAt)
  }

  ghost predicate NoRepeats(ids: seq<string>) {
    forall i, j :: 0 <= i < j < |ids| ==> ids[i] != ids[j]
  }

  /** A result of ORDER BY created_at DESC LIMIT limit: newest rows first, none left out that is
      newer than a row returned. Rows with equal times come in any order. */
  ghost predicate IsPage(t: Table, subject: Subject, cursor: Option<int>, limit: nat, page: seq<string>) {
    var rows := Eligible(t, subject, cursor);
    && NewestFirst(t, page) && NoRepeats(page)
    && (forall id :: id in page ==> id in rows)
    && |page| == (if |rows| < limit then |rows| else limit)
    && (forall id, i :: id in rows && id !in page && 0 <= i < |page| ==> t[id].createdAt <= t[page[i]].createdAt)
  }

  ghost function NextCursor(t: Table, page: seq<string>, limit: nat): Option<int>
    requires NewestFirst(t, page)
  {
    if |page| == limit && page != [] then Some(t[page[|page| - 1]].createdAt) else None
  }

  /** Two notifications of one subject never share a timestamp. */
  ghost predicate DistinctTimes(t: Table, subject: Subject) {
    forall a, b :: a in t && b in t && t[a].subject == subject == t[b].subject && a != b ==>
      t[a].createdAt != t[b].createdAt
  }

  // ---- Small facts about sets and sequences ----------------------------------------------------

  ghost function Members(ids: seq<string>): set<string> {
    set id | id in ids
  }

  lemma {:induction false} MembersSize(ids: seq<string>)
    requires NoRepeats(ids)
    ensures |Members(ids)| == |ids|
  {
    if ids != [] {
      var before := ids[..|ids| - 1];
      MembersSize(before);
      assert Members(ids) == Members(before) + {ids[|ids| - 1]};
    }
  }

  // ---- One page ------------------------------------------------------------------------------------

  /** A page that is not full is everything there was. */
  lemma ShortPageIsAll(t: Table, subject: Subject, cursor: Option<int>, limit: nat, page: seq<string>)
    requires IsPage(t, subject, cursor, limit, page) && |page| < limit
    ensures Members(page) == Eligible(t, subject, cursor)
  {
    MembersSize(page);
    FullSubset(Members(page), Eligible(t, subject, cursor));
  }

  /** After a full page, the next cursor selects exactly the rows not yet seen. */
  lemma FullPageRest(t: Table, subject: Subject, cursor: Option<int>, limit: nat, page: seq<string>)
    requires DistinctTimes(t, subject) && IsPage(t, subject, cursor, limit, page) && |page| == limit && limit > 0
    ensures Eligible(t, subject, NextCursor(t, page, limit)) == Eligible(t, subject, cursor) - Members(page)
  {
    var rows, last := Eligible(t, subject, cursor), page[|page| - 1];
    var rest := Eligible(t, subject, NextCursor(t, page, limit));
    assert last in page && last in rows;
    forall id | id in rows && id !in page ensures id in rest {
      assert t[id].createdAt <= t[page[|page| - 1]].createdAt;
    }
    forall id | id in rest ensures id in rows && id !in page {
    }
  }

  // ---- Walking the feed -----------------------------------------------------------------------------

  /** Between pages rows may be read or marked, and newer rows may arrive. */
  ghost predicate Evolved(t0: Table, t: Table, subject: Subject) {
    && (forall id :: id in t0 ==> id in t && t[id].subject == t0[id].subject && t[id].createdAt == t0[id].createdAt)
    && (forall id, earlier ::
          id in t && id !in t0 && t[id].subject == subject && earlier in t0 && t0[earlier].subject == subject ==>
            t0[earlier].createdAt < t[id].createdAt)
  }

  /** One page as a client sees it: the table at that moment, the page size, and the ids. */
  datatype Visit = Visit(t: Table, limit: nat, page: seq<string>)

  /** The client starts at `cursor` and follows each next_cursor; only the last page may lack one. */
  ghost predicate Walk(t0: Table, subject: Subject, cursor: Option<int>, visits: seq<Visit>)
    decreases |visits|
  {
    && visits != []
    && var v := visits[0];
       && v.limit > 0
       && (if cursor.None? then v.t == t0 else Evolved(t0, v.t, subject))
       && IsPage(v.t, subject, cursor, v.limit, v.page)
       && (|visits| > 1 ==>
             NextCursor(v.t, v.page, v.limit).Some? && Walk(t0, subject, NextCursor(v.t, v.page, v.limit), visits[1..]))
  }

  /** The last page came back without a next_cursor. */
  predicate Ends(visits: seq<Visit>)
    requires visits != []
  {
    |visits[|visits| - 1].page| != visits[|visits| - 1].limit
  }

  function Collected(visits: seq<Visit>): seq<string> {
    if visits == [] then [] else visits[0].page + Collected(visits[1..])
  }

  /** A cursor taken from a row that was there at the start hides everything newer. */
  lemma NewerInvisible(t0: Table, t: Table, subject: Subject, c: int, id: string)
    requires Evolved(t0, t, subject) && id in t0 && t0[id].subject == subject && c <= t0[id].createdAt
    ensures Eligible(t, subject, Some(c)) == Eligible(t0, subject, Some(c))
  {
  }

  /** A page over an evolved table is a page over the starting table. */
  lemma PageOfStart(t0: Table, t: Table, subject: Subject, cursor: Option<int>, limit: nat, page: seq<string>,
                    seen: string)
    requires IsPage(t, subject, cursor, limit, page)
    requires if cursor.None? then t == t0
             else Evolved(t0, t, subject) && seen in t0 && t0[seen].subject == subject
                  && cursor.value <= t0[seen].createdAt
    ensures IsPage(t0, subject, cursor, limit, page)
    ensures NextCursor(t, page, limit) == NextCursor(t0, page, limit)
  {
    if cursor.Some? {
      NewerInvisible(t0, t, subject, cursor.value, seen);
      assert forall id :: id in page ==> id in Eligible(t0, subject, cursor);
      assert forall i :: 0 <= i < |page| ==> page[i] in page;
    }
  }

  /** Strictly newest first among the rows of the starting table. */
  ghost predicate StrictlyNewestFirst(t0: Table, ids: seq<string>) {
    && (forall i :: 0 <= i < |ids| ==> ids[i] in t0)
    && (forall i, j :: 0 <= i < j < |ids| ==> t0[ids[i]].createdAt > t0[ids[j]].createdAt)
  }

  lemma PageStrict(t0: Table, subject: Subject, cursor: Option<int>, limit: nat, page: seq<string>)
    requires DistinctTimes(t0, subject) && IsPage(t0, subject, cursor, limit, page)
    ensures StrictlyNewestFirst(t0, page)
  {
    forall i, j | 0 <= i < j < |page| ensures t0[page[i]].createdAt > t0[page[j]].createdAt {
      assert page[i] in page && page[j] in page;
    }
  }

  lemma Joined(t0: Table, page: seq<string>, more: seq<string>, rest: set<string>, c: int)
    requires StrictlyNewestFirst(t0, page) && StrictlyNewestFirst(t0, more)
    requires page != [] && t0[page[|page| - 1]].createdAt == c
    requires Members(more) <= rest && forall id :: id in rest ==> id in t0 && t0[id].createdAt < c
    ensures StrictlyNewestFirst(t0, page + more)
    ensures Members(page + more) == Members(page) + Members(more)
  {
    var all := page + more;
    forall i, j | 0 <= i < j < |all| ensures t0[all[i]].createdAt > t0[all[j]].createdAt {
      if i < |page| <= j {
        assert more[j - |page|] in Members(more);
        assert t0[page[i]].createdAt >= c;
      }
    }
  }

  /** The visits yield rows selected by `cursor`, strictly newest first, all of them if they end. */
  ghost predicate Delivers(t0: Table, subject: Subject, cursor: Option<int>, visits: seq<Visit>)
    requires visits != []
  {
    && |visits| <= |Eligible(t0, subject, cursor)| + 1
    && StrictlyNewestFirst(t0, Collected(visits))
    && Members(Collected(visits)) <= Eligible(t0, subject, cursor)
    && (Ends(visits) ==> Members(Collected(visits)) == Eligible(t0, subject, cursor))
  }

  lemma LastVisit(t0: Table, subject: Subject, cursor: Option<int>, v: Visit)
    requires DistinctTimes(t0, subject) && IsPage(t0, subject, cursor, v.limit, v.page)
    ensures Delivers(t0, subject, cursor, [v])
  {
    PageStrict(t0, subject, cursor, v.limit, v.page);
    assert Collected([v]) == v.page + Collected([]) == v.page;
    if |v.page| < v.limit {
      ShortPageIsAll(t0, subject, cursor, v.limit, v.page);
    }
  }

  lemma EarlierCount(t0: Table, subject: Subject, cursor: Option<int>, limit: nat, page: seq<string>)
    requires DistinctTimes(t0, subject) && IsPage(t0, subject, cursor, limit, page) && |page| == limit && limit > 0
    ensures |Eligible(t0, subject, NextCursor(t0, page, limit))| == |Eligible(t0, subject, cursor)| - limit
    ensures Members(page) <= Eligible(t0, subject, cursor)
  {
    var rows := Eligible(t0, subject, cursor);
    FullPageRest(t0, subject, cursor, limit, page);
    MembersSize(page);
    assert Members(page) <= rows;
    assert |rows - Members(page)| == |rows| - |Members(page)|;
  }

  lemma EarlierVisit(t0: Table, subject: Subject, cursor: Option<int>, v: Visit, rest: seq<Visit>)
    requires DistinctTimes(t0, subject) && IsPage(t0, subject, cursor, v.limit, v.page)
    requires v.limit > 0 && |v.page| == v.limit && rest != []
    requires Delivers(t0, subject, NextCursor(t0, v.page, v.limit), rest)
    ensures Delivers(t0, subject, cursor, [v] + rest)
  {
    EarlierCount(t0, subject, cursor, v.limit, v.page);
    EarlierRows(t0, subject, cursor, v.limit, v.page, Collected(rest));
    OneVisitMore(v, rest);
  }

  /** A full page and then rows selected by its next cursor are rows selected by its own, in order,
      and all of them if the later ones were. */
  lemma EarlierRows(t0: Table, subject: Subject, cursor: Option<int>, limit: nat, page: seq<string>, more: seq<string>)
    requires DistinctTimes(t0, subject) && IsPage(t0, subject, cursor, limit, page) && |page| == limit && limit > 0
    requires StrictlyNewestFirst(t0, more) && Members(more) <= Eligible(t0, subject, NextCursor(t0, page, limit))
    ensures StrictlyNewestFirst(t0, page + more) && Members(page + more) <= Eligible(t0, subject, cursor)
    ensures Members(more) == Eligible(t0, subject, NextCursor(t0, page, limit)) ==>
              Members(page + more) == Eligible(t0, subject, cursor)
  {
    var next := NextCursor(t0, page, limit);
    PageStrict(t0, subject, cursor, limit, page);
    FullPageRest(t0, subject, cursor, limit, page);
    EarlierCount(t0, subject, cursor, limit, page);
    Joined(t0, page, more, Eligible(t0, subject, next), next.value);
  }

  lemma OneVisitMore(v: Visit, rest: seq<Visit>)
    requires rest != []
    ensures Collected([v] + rest) == v.page + Collected(rest)
    ensures Ends([v] + rest) <==> Ends(rest)
  {
    assert ([v] + rest)[1..] == rest;
  }

  /** A cursor taken from a row of the starting table. */
  predicate Anchored(t0: Table, subject: Subject, cursor: Option<int>, seen: string) {
    cursor.Some? ==> seen in t0 && t0[seen].subject == subject && cursor.value <= t0[seen].createdAt
  }

  /** The first visit of a walk is a page of the starting table; if it is full, its last row anchors
      the cursor the walk goes on with. */
  lemma FirstVisit(t0: Table, subject: Subject, cursor: Option<int>, visits: seq<Visit>, seen: string)
    requires Walk(t0, subject, cursor, visits) && Anchored(t0, subject, cursor, seen)
    ensures var v := visits[0];
            && IsPage(t0, subject, cursor, v.limit, v.page) && v.limit > 0
            && (|visits| > 1 ==>
                  && |v.page| == v.limit
                  && Anchored(t0, subject, NextCursor(t0, v.page, v.limit), v.page[|v.page| - 1])
                  && Walk(t0, subject, NextCursor(t0, v.page, v.limit), visits[1..]))
  {
    var v := visits[0];
    PageOfStart(t0, v.t, subject, cursor, v.limit, v.page, seen);
    if |visits| > 1 {
      assert v.page[|v.page| - 1] in v.page;
    }
  }

  lemma {:induction false} WalkDelivers(t0: Table, subject: Subject, cursor: Option<int>, visits: seq<Visit>,
                                        seen: string)
    requires DistinctTimes(t0, subject) && Walk(t0, subject, cursor, visits)
    requires Anchored(t0, subject, cursor, seen)
    ensures Delivers(t0, subject, cursor, visits)
    decreases |visits|
  {
    var v, rest := visits[0], visits[1..];
    FirstVisit(t0, subject, cursor, visits, seen);
    assert visits == [v] + rest;
    if rest == [] {
      assert visits == [v];
      LastVisit(t0, subject, cursor, v);
    } else {
      WalkDelivers(t0, subject, NextCursor(t0, v.page, v.limit), rest, v.page[|v.page| - 1]);
      EarlierVisit(t0, subject, cursor, v, rest);
    }
  }

  /** Following next_cursor from empty to empty yields every notification present at the start exactly
      once, newest first, for any page sizes and whatever newer rows arrive meanwhile, and it ends. */
  lemma WalkEnumeratesFeed(t0: Table, subject: Subject, visits: seq<Visit>)
    requires DistinctTimes(t0, subject) && Walk(t0, subject, None, visits)
    ensures |visits| <= |Eligible(t0, subject, None)| + 1
    ensures StrictlyNewestFirst(t0, Collected(visits)) && NoRepeats(Collected(visits))
    ensures Ends(visits) ==> Members(Collected(visits)) == set id | id in t0 && t0[id].subject == subject
  {
    WalkDelivers(t0, subject, None, visits, "");
    assert Eligible(t0, subject, None) == set id | id in t0 && t0[id].subject == subject;
  }

  // ---- Equal timestamps ------------------------------------------------------------------------------

  method Newest(t: Table, rows: set<string>) returns (newest: string)
    requires rows != {} && rows <= t.Keys
    ensures newest in rows && forall id :: id in rows ==> t[id].createdAt <= t[newest].createdAt
  {
    newest :| newest in rows;
    var todo := rows;
    while todo != {}
      invariant todo <= rows && newest in rows
      invariant forall id :: id in rows && id !in todo ==> t[id].createdAt <= t[newest].createdAt
      decreases todo
    {
      var id :| id in todo;
      if t[id].createdAt > t[newest].createdAt {
        newest := id;
      }
      todo := todo - {id};
    }
  }

  ghost function NewestOf(t: Table, rows: set<string>): (id: string)
    requires rows != {} && rows <= t.Keys
    ensures id in rows && forall other :: other in rows ==> t[other].createdAt <= t[id].createdAt
  {
    var x :| x in rows;
    if rows == {x} then x
    else
      var y := NewestOf(t, rows - {x});
      if t[x].createdAt > t[y].createdAt then x else y
  }

  /** A client that asks for one row at a time, over a table nobody touches. */
  ghost function Singles(t: Table, subject: Subject, cursor: Option<int>): (visits: seq<Visit>)
    ensures visits != []
    decreases |Eligible(t, subject, cursor)|
  {
    var rows := Eligible(t, subject, cursor);
    if rows == {} then [Visit(t, 1, [])]
    else
      var id := NewestOf(t, rows);
      var rest := Eligible(t, subject, Some(t[id].createdAt));
      assert rest <= rows - {id};
      SubsetSize(rest, rows - {id});
      [Visit(t, 1, [id])] + Singles(t, subject, Some(t[id].createdAt))
  }

  lemma SinglePage(t: Table, subject: Subject, cursor: Option<int>)
    requires Eligible(t, subject, cursor) != {}
    ensures var rows := Eligible(t, subject, cursor);
            var id := NewestOf(t, rows);
            var rest := Eligible(t, subject, Some(t[id].createdAt));
            IsPage(t, subject, cursor, 1, [id]) && rest <= rows - {id} && |rest| < |rows|
  {
    var rows := Eligible(t, subject, cursor);
    var id := NewestOf(t, rows);
    var rest := Eligible(t, subject, Some(t[id].createdAt));
    SubsetSize({id}, rows);
    assert rest <= rows - {id};
    SubsetSize(rest, rows - {id});
  }

  lemma WalkOn(t: Table, subject: Subject, cursor: Option<int>, v: Visit, rest: seq<Visit>)
    requires v.t == t && v.limit > 0 && IsPage(t, subject, cursor, v.limit, v.page) && |v.page| == v.limit
    requires Walk(t, subject, NextCursor(t, v.page, v.limit), rest)
    ensures Walk(t, subject, cursor, [v] + rest)
    ensures Ends([v] + rest) <==> Ends(rest)
    ensures Collected([v] + rest) == v.page + Collected(rest)
  {
    assert ([v] + rest)[1..] == rest;
  }

  lemma {:induction false} SinglesWalk(t: Table, subject: Subject, cursor: Option<int>)
    ensures Walk(t, subject, cursor, Singles(t, subject, cursor)) && Ends(Singles(t, subject, cursor))
    decreases |Eligible(t, subject, cursor)|
  {
    var rows := Eligible(t, subject, cursor);
    if rows != {} {
      var id := NewestOf(t, rows);
      var next := Some(t[id].createdAt);
      SinglePage(t, subject, cursor);
      SinglesWalk(t, subject, next);
      WalkOn(t, subject, cursor, Visit(t, 1, [id]), Singles(t, subject, next));
    }
  }

  lemma {:induction false} SinglesOrder(t: Table, subject: Subject, cursor: Option<int>)
    ensures StrictlyNewestFirst(t, Collected(Singles(t, subject, cursor)))
    ensures Members(Collected(Singles(t, subject, cursor))) <= Eligible(t, subject, cursor)
    decreases |Eligible(t, subject, cursor)|
  {
    var rows := Eligible(t, subject, cursor);
    if rows == {} {
      assert Collected([Visit(t, 1, [])]) == [] + Collected([]) == [];
    } else {
      var id := NewestOf(t, rows);
      var next := Some(t[id].createdAt);
      var rest := Singles(t, subject, next);
      SinglePage(t, subject, cursor);
      SinglesOrder(t, subject, next);
      assert ([Visit(t, 1, [id])] + rest)[1..] == rest;
      Joined(t, [id], Collected(rest), Eligible(t, subject, next), t[id].createdAt);
    }
  }

  /** Every complete walk yields the whole feed if and only if no two of the subject's notifications
      share a timestamp: with a tie, asking for one row at a time loses one of the two. */
  lemma FeedCompleteIffTimesDistinct(t0: Table, subject: Subject)
    ensures (forall visits :: Walk(t0, subject, None, visits) && Ends(visits) ==>
               Members(Collected(visits)) == Eligible(t0, subject, None))
            <==> DistinctTimes(t0, subject)
  {
    if DistinctTimes(t0, subject) {
      forall visits | Walk(t0, subject, None, visits) && Ends(visits)
        ensures Members(Collected(visits)) == Eligible(t0, subject, None)
      {
        WalkDelivers(t0, subject, None, visits, "");
      }
    } else {
      var visits := Singles(t0, subject, None);
      SinglesWalk(t0, subject, None);
      SinglesOrder(t0, subject, None);
      var a, b :| a in t0 && b in t0 && t0[a].subject == subject == t0[b].subject && a != b
          && t0[a].createdAt == t0[b].createdAt;
      var ids := Collected(visits);
      if a in ids && b in ids {
        assert false;
      }
      assert a in Eligible(t0, subject, None) && b in Eligible(t0, subject, None);
      assert Members(ids) != Eligible(t0, subject, None);
    }
  }

  // ---- The service ---------------------------------------------------------------------------------------

  /** The page taken so far out of all the eligible rows, and the rows still to choose from. */
  ghost predicate Taken(t: Table, all: set<string>, rows: set<string>, page: seq<string>) {
    && rows == all - Members(page) && Members(page) <= all <= t.Keys
    && NewestFirst(t, page) && NoRepeats(page)
    && (forall id, i :: id in rows && 0 <= i < |page| ==> t[id].createdAt <= t[page[i]].createdAt)
    && |page| + |rows| == |all|
  }

  lemma NewestAtEnd(t: Table, page: seq<string>, id: string)
    requires NewestFirst(t, page) && NoRepeats(page) && id in t && id !in Members(page)
    requires forall i :: 0 <= i < |page| ==> t[id].createdAt <= t[page[i]].createdAt
    ensures NewestFirst(t, page + [id]) && NoRepeats(page + [id])
  {
    forall i | 0 <= i < |page| ensures page[i] != id {
      assert page[i] in Members(page);
    }
  }

  lemma TakeNewest(t: Table, all: set<string>, rows: set<string>, page: seq<string>, id: string)
    requires Taken(t, all, rows, page) && id in rows
    requires forall other :: other in rows ==> t[other].createdAt <= t[id].createdAt
    ensures Taken(t, all, rows - {id}, page + [id])
  {
    assert id in all && id !in Members(page);
    assert Members(page + [id]) == Members(page) + {id};
    NewestAtEnd(t, page, id);
  }

  lemma TakenIsPage(t: Table, subject: Subject, cursor: Option<int>, limit: nat, rows: set<string>, page: seq<string>)
    requires Taken(t, Eligible(t, subject, cursor), rows, page)
    requires |page| <= limit && (rows == {} || |page| == limit)
    ensures IsPage(t, subject, cursor, limit, page)
  {
    forall id | id in page
      ensures id in Eligible(t, subject, cursor)
    {
      assert id in Members(page);
    }
  }

  /** How an instant is written as a cursor and how a cursor is read. */
  datatype CursorText = CursorText(format: int -> string, parse: string -> Option<int>)

  /** The instant survives being written and read; Rfc3339.CursorRoundTrip says for which timestamps
      the service's format does this. */
  predicate ReadsBack(text: CursorText, t: int) {
    text.format(t) != "" && text.parse(text.format(t)) == Some(t)
  }

  /** The cursor a request names: none if empty, and no request at all if it cannot be read. */
  function CursorOf(text: CursorText, cursor: string): (r: Option<Option<int>>) {
    if cursor == "" then Some(None)
    else if text.parse(cursor).None? then None
    else Some(text.parse(cursor))
  }

  function CursorTextOf(text: CursorText, next: Option<int>): string {
    if next.Some? then text.format(next.value) else ""
  }

  /** The text a page hands out for its next cursor is read back as that cursor. */
  lemma CursorReturns(text: CursorText, next: Option<int>)
    ensures (next.Some? ==> ReadsBack(text, next.value)) ==> CursorOf(text, CursorTextOf(text, next)) == Some(next)
    ensures CursorOf(text, CursorTextOf(text, next)) == Some(next) && next.Some? ==> ReadsBack(text, next.value)
  {
  }

  class NotificationService {
    const text: CursorText
    var table: Table

    constructor (text: CursorText)
      ensures this.text == text && table == map[]
    {
      this.text := text;
      table := map[];
    }

    /** The keyset query: picks the newest remaining row until the limit is reached. */
    method Query(subject: Subject, cursor: Option<int>, limit: nat) returns (page: seq<string>)
      ensures IsPage(table, subject, cursor, limit, page)
    {
      var rows := set id | id in table && table[id].subject == subject
          && (cursor.Some? ==> table[id].createdAt < cursor.value);
      ghost var all := rows;
      page := [];
      while rows != {} && |page| < limit
        invariant Taken(table, all, rows, page) && |page| <= limit
        decreases rows
      {
        var id := Newest(table, rows);
        TakeNewest(table, all, rows, page, id);
        page := page + [id];
        rows := rows - {id};
      }
      assert all == Eligible(table, subject, cursor);
      TakenIsPage(table, subject, cursor, limit, rows, page);
    }

    /** List: refuses a cursor it cannot read; otherwise a page, and the text of the next cursor
        exactly when the page is full. */
    method List(subject: Subject, cursor: string, limit: int) returns (page: Option<seq<string>>, next: string)
      ensures page.Some? <==> CursorOf(text, cursor).Some?
      ensures page.None? ==> next == ""
      ensures page.Some? ==>
        var size := if 1 <= limit <= 50 then limit else 50;
        && IsPage(table, subject, CursorOf(text, cursor).value, size, page.value)
        && next == CursorTextOf(text, NextCursor(table, page.value, size))
    {
      var size, start: Option<int> := PageLimit(limit), None;
      if cursor != "" {
        start := text.parse(cursor);
        if start.None? {
          return None, "";
        }
      }
      var rows := Query(subject, start, size);
      page, next := Some(rows), "";
      if |rows| == size {
        next := text.format(table[rows[|rows| - 1]].createdAt);
      }
    }

    /** MarkRead: only the subject's own unread row, and never its place in the feed. */
    method MarkRead(subject: Subject, id: string, now: int) returns (found: bool)
      modifies this
      ensures found <==> id in old(table) && old(table)[id].subject == subject && old(table)[id].readAt.None?
      ensures table == if found then old(table)[id := old(table)[id].(readAt := Some(now))] else old(table)
      ensures Evolved(old(table), table, subject)
    {
      found := id in table && table[id].subject == subject && table[id].readAt.None?;
      if found {
        table := table[id := table[id].(readAt := Some(now))];
      }
    }
  }
}
