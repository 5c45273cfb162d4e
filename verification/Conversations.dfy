/** Message history paging and unread counts (capabilities/messaging/src/db.rs). */
module Conversations {
  import opened Prelude
  import opened Selecting
  import opened Sorting
  import opened Windows

  datatype Message = Message(
    id: string,
    conversation: string,
    direction: string,
    sender: string,
    sentAt: int,
    body: string,
    status: string)

  function SentAt(m: Message): int {
    m.sentAt
  }

  predicate SentLe(a: Message, b: Message) {
    a.sentAt <= b.sentAt
  }

  // ── Queries, on values ────────────────────────────────────────────────────

  function OfConversation(rows: seq<Message>, conversation: string): (r: seq<Message>)
    ensures |r| <= |rows|
  {
    if rows == [] then []
    else (if rows[0].conversation == conversation then [rows[0]] else []) + OfConversation(rows[1..], conversation)
  }

  /** A whole conversation, oldest first; equal times stay in insertion order. */
  function History(rows: seq<Message>, conversation: string): seq<Message> {
    SortBy(OfConversation(rows, conversation), SentLe)
  }

  /** Everything the SELECT could return after a cursor. */
  function After(rows: seq<Message>, conversation: string, cursor: int): seq<Message> {
    SortBy(Recent(OfConversation(rows, conversation), SentAt, cursor + 1), SentLe)
  }

  function Unread(rows: seq<Message>, conversation: string, readAt: int): nat {
    if rows == [] then 0
    else
      var m := rows[0];
      (if m.conversation == conversation && m.direction == "received" && m.sentAt > readAt then 1 else 0)
      + Unread(rows[1..], conversation, readAt)
  }

  function Marker(markers: map<string, int>, conversation: string): int {
    if conversation in markers then markers[conversation] else 0
  }

  function TotalUnread(rows: seq<Message>, markers: map<string, int>): nat {
    if rows == [] then 0
    else
      var m := rows[0];
      (if m.direction == "received" && m.sentAt > Marker(markers, m.conversation) then 1 else 0)
          + TotalUnread(rows[1..], markers)
  }

  predicate DistinctIds(rows: seq<Message>) {
    forall i, j :: 0 <= i < j < |rows| ==> rows[i].id != rows[j].id
  }

  predicate HasId(rows: seq<Message>, id: string) {
    exists i :: 0 <= i < |rows| && rows[i].id == id
  }

  /** The rows without the one of this id. */
  function WithoutId(rows: seq<Message>, id: string): seq<Message> {
    if rows == [] then [] else (if rows[0].id == id then [] else [rows[0]]) + WithoutId(rows[1..], id)
  }

  lemma {:induction false} WithoutIdMembers(rows: seq<Message>, id: string)
    ensures forall m :: m in WithoutId(rows, id) <==> m in rows && m.id != id
    ensures DistinctIds(rows) ==> DistinctIds(WithoutId(rows, id))
  {
    if rows != [] {
      WithoutIdMembers(rows[1..], id);
      HeadSplit(rows);
      if DistinctIds(rows) {
        assert forall m :: m in rows[1..] ==> m.id != rows[0].id;
      }
    }
  }

  /** Nothing received is unread exactly when none of it was sent later. */
  lemma {:induction false} NothingUnread(rows: seq<Message>, conversation: string, readAt: int)
    ensures Unread(rows, conversation, readAt) == 0
            <==> forall m :: m in rows && m.conversation == conversation && m.direction == "received" ==>
                   m.sentAt <= readAt
  {
    if rows != [] {
      NothingUnread(rows[1..], conversation, readAt);
      HeadSplit(rows);
    }
  }

  /** Moving one marker changes the total by the change of that conversation's count. */
  lemma {:induction false} TotalAfterRead(rows: seq<Message>, markers: map<string, int>, conversation: string, now: int)
    ensures TotalUnread(rows, markers[conversation := now]) + Unread(rows, conversation, Marker(markers, conversation))
            == TotalUnread(rows, markers) + Unread(rows, conversation, now)
  {
    if rows != [] {
      TotalAfterRead(rows[1..], markers, conversation, now);
    }
  }

  // ── What the queries select ───────────────────────────────────────────────

  function In(conversation: string): Message -> bool {
    (m: Message) => m.conversation == conversation
  }

  /** The WHERE clause of a page. */
  function Later(conversation: string, cursor: int): Message -> bool {
    (m: Message) => m.conversation == conversation && m.sentAt > cursor
  }

  /** The WHERE clause of an unread count. */
  function Unseen(conversation: string, readAt: int): Message -> bool {
    (m: Message) => m.conversation == conversation && m.direction == "received" && m.sentAt > readAt
  }

  function UnseenBy(markers: map<string, int>): Message -> bool {
    (m: Message) =>
      m.direction == "received" && m.sentAt > if m.conversation in markers then markers[m.conversation] else 0
  }

  function NotId(id: string): Message -> bool {
    (m: Message) => m.id != id
  }

  /** A conversation is the stored messages that name it, each as often as stored and in the order stored. */
  lemma {:induction false} OfConversationSelects(rows: seq<Message>, conversation: string)
    ensures OfConversation(rows, conversation) == Filter(rows, In(conversation))
    ensures Selects(rows, OfConversation(rows, conversation), In(conversation))
  {
    hide Selects;
    if rows != [] {
      OfConversationSelects(rows[1..], conversation);
    }
    FilterSelects(rows, In(conversation));
  }

  lemma {:induction false} LaterSelects(rows: seq<Message>, conversation: string, cursor: int)
    ensures Recent(OfConversation(rows, conversation), SentAt, cursor + 1) == Filter(rows, Later(conversation, cursor))
  {
    if rows != [] {
      LaterSelects(rows[1..], conversation, cursor);
      if rows[0].conversation == conversation {
        RecentCons(rows[0], OfConversation(rows[1..], conversation), SentAt, cursor + 1);
      } else {
        assert OfConversation(rows, conversation) == OfConversation(rows[1..], conversation);
      }
    }
  }

  /** `all` is what `keep` selects, in order of time, equal times in the order stored. */
  ghost predicate Lists(rows: seq<Message>, keep: Message -> bool, all: seq<Message>) {
    exists chosen ::
      && Selects(rows, chosen, keep)
      && multiset(all) == multiset(chosen)
      && InOrder(all, SentAt)
      && forall z: Message :: Filter(all, Like(z, SentLe)) == Filter(chosen, Like(z, SentLe))
  }

  lemma SortLists(rows: seq<Message>, keep: Message -> bool)
    ensures Lists(rows, keep, SortBy(Filter(rows, keep), SentLe))
  {
    hide Selects, SortBy, Filter;
    var chosen := Filter(rows, keep);
    FilterSelects(rows, keep);
    SortedInOrder(chosen);
    forall z: Message
      ensures Filter(SortBy(chosen, SentLe), Like(z, SentLe)) == Filter(chosen, Like(z, SentLe))
    {
      SortStable(chosen, SentLe, z);
    }
  }

  /** What the SELECT could return: the conversation's messages sent after the cursor, in order. */
  lemma AfterLists(rows: seq<Message>, conversation: string, cursor: int)
    ensures Lists(rows, Later(conversation, cursor), After(rows, conversation, cursor))
  {
    hide Lists;
    LaterSelects(rows, conversation, cursor);
    SortLists(rows, Later(conversation, cursor));
  }

  /** Each row of a page is a stored message of the conversation sent after the cursor. */
  lemma AfterHolds(rows: seq<Message>, conversation: string, cursor: int, m: Message)
    ensures multiset(After(rows, conversation, cursor))[m]
            == if m.conversation == conversation && m.sentAt > cursor then multiset(rows)[m] else 0
    ensures m in After(rows, conversation, cursor)
            <==> m in rows && m.conversation == conversation && m.sentAt > cursor
  {
    hide Selects, After;
    AfterLists(rows, conversation, cursor);
    var chosen :| Selects(rows, chosen, Later(conversation, cursor))
                  && multiset(After(rows, conversation, cursor)) == multiset(chosen);
    SelectsCount(rows, chosen, Later(conversation, cursor), m);
    assert m in After(rows, conversation, cursor) <==> m in multiset(After(rows, conversation, cursor));
    assert m in rows <==> m in multiset(rows);
  }

  lemma PageHolds(rows: seq<Message>, conversation: string, cursor: int, page: seq<Message>)
    requires page <= After(rows, conversation, cursor)
    ensures forall m :: m in page ==> m in rows && m.conversation == conversation && m.sentAt > cursor
    ensures InOrder(page, SentAt)
  {
    hide After;
    forall m | m in page
      ensures m in rows && m.conversation == conversation && m.sentAt > cursor
    {
      AfterHolds(rows, conversation, cursor, m);
    }
    AfterIsRecent(rows, conversation, cursor);
    assert forall i :: 0 <= i < |page| ==> page[i] == After(rows, conversation, cursor)[i];
  }

  /** An unread count is the number of rows of the conversation received after its marker. */
  lemma {:induction false} UnreadCounts(rows: seq<Message>, conversation: string, readAt: int)
    ensures Unread(rows, conversation, readAt) == |Filter(rows, Unseen(conversation, readAt))|
  {
    if rows != [] {
      UnreadCounts(rows[1..], conversation, readAt);
    }
  }

  lemma {:induction false} TotalCounts(rows: seq<Message>, markers: map<string, int>)
    ensures TotalUnread(rows, markers) == |Filter(rows, UnseenBy(markers))|
  {
    if rows != [] {
      TotalCounts(rows[1..], markers);
    }
  }

  lemma {:induction false} WithoutIdSelects(rows: seq<Message>, id: string)
    ensures Selects(rows, WithoutId(rows, id), NotId(id))
  {
    hide Selects;
    SelectsNone(NotId(id));
    if rows != [] {
      WithoutIdSelects(rows[1..], id);
      HeadSplit(rows);
      SelectsCons(rows[0], rows[1..], WithoutId(rows[1..], id), NotId(id));
    }
  }

  // ── The database ──────────────────────────────────────────────────────────

  class MessageDb {
    var rows: seq<Message>
    var markers: map<string, int>

    /** The primary key. */
    ghost predicate Valid()
      reads this
    {
      DistinctIds(rows)
    }

    constructor ()
      ensures Valid() && rows == [] && markers == map[]
    {
      rows, markers := [], map[];
    }

    method InsertMessage(m: Message) returns (ok: bool)
      requires Valid()
      modifies this`rows
      ensures Valid()
      ensures ok <==> !HasId(old(rows), m.id)
      ensures rows == if ok then old(rows) + [m] else old(rows)
    {
      if HasId(rows, m.id) {
        return false;
      }
      rows := rows + [m];
      return true;
    }

    /** Only the sender deletes, and only sent messages. */
    method DeleteMessage(id: string, localPeer: string) returns (deleted: bool)
      requires Valid()
      modifies this`rows
      ensures Valid()
      ensures deleted <==> exists m :: m in old(rows) && m.id == id && m.direction == "sent" && m.sender == localPeer
      ensures rows == if deleted then WithoutId(old(rows), id) else old(rows)
    {
      deleted := false;
      for i := 0 to |rows|
        invariant rows == old(rows) && Valid() && !deleted
        invariant forall j :: 0 <= j < i ==> rows[j].id != id
      {
        if rows[i].id == id {
          deleted := rows[i].direction == "sent" && rows[i].sender == localPeer;
          if deleted {
            assert rows[i] in rows;
            WithoutIdMembers(rows, id);
            rows := WithoutId(rows, id);
          }
          return;
        }
      }
    }

    /**
     * What is sent later than `now` stays unread, the rest of the conversation is read: the
     * total falls by what this conversation held, and nothing else changes.
     */
    method MarkRead(conversation: string, now: int)
      modifies this`markers
      ensures markers == old(markers)[conversation := now]
      ensures Unread(rows, conversation, Marker(markers, conversation)) == Unread(rows, conversation, now)
      ensures (forall m :: m in rows && m.conversation == conversation ==> m.sentAt <= now) ==>
                Unread(rows, conversation, Marker(markers, conversation)) == 0
      ensures TotalUnread(rows, markers)
              == old(TotalUnread(rows, markers)) - old(Unread(rows, conversation, Marker(markers, conversation)))
                 + Unread(rows, conversation, now)
      ensures forall c :: c != conversation ==> Marker(markers, c) == Marker(old(markers), c)
    {
      TotalAfterRead(rows, markers, conversation, now);
      NothingUnread(rows, conversation, now);
      markers := markers[conversation := now];
    }

    /** A page after the cursor, and where the next one starts if there is more; one row too many is asked for. */
    method GetConversation(conversation: string, cursor: Option<int>, limit: nat)
      returns (page: seq<Message>, next: Option<int>)
      ensures var rest := After(rows, conversation, if cursor.Some? then cursor.value else 0);
              && page == (if |rest| > limit then rest[..limit] else rest)
              && next == (if |rest| > limit > 0 then Some(rest[limit - 1].sentAt) else None)
      ensures var from := if cursor.Some? then cursor.value else 0;
              && |page| <= limit
              && (forall m :: m in page ==> m in rows && m.conversation == conversation && m.sentAt > from)
              && InOrder(page, SentAt)
    {
      var from := if cursor.Some? then cursor.value else 0;
      var selected := After(rows, conversation, from);
      var messages := if |selected| > limit + 1 then selected[..limit + 1] else selected;
      if |messages| > limit {
        page := messages[..limit];
        next := if page == [] then None else Some(page[|page| - 1].sentAt);
      } else {
        page, next := messages, None;
      }
      PageHolds(rows, conversation, from, page);
    }
  }

  // ── Following the cursor ──────────────────────────────────────────────────

  /** All pages from a cursor on, each starting where the one before says. */
  function ReadFrom(rows: seq<Message>, conversation: string, cursor: int, limit: nat): seq<Message>
    requires limit > 0
    decreases |After(rows, conversation, cursor)|
  {
    var rest := After(rows, conversation, cursor);
    if |rest| <= limit then rest
    else
      var next := rest[limit - 1].sentAt;
      AfterLater(rows, conversation, cursor, limit);
      rest[..limit] + ReadFrom(rows, conversation, next, limit)
  }

  /** The same pages cut from the sorted history. */
  function Pages(history: seq<Message>, limit: nat): (r: seq<Message>)
    requires limit > 0 && InOrder(history, SentAt)
    ensures |r| <= |history|
    decreases |history|
  {
    if |history| <= limit then history
    else
      var cut := history[limit - 1].sentAt + 1;
      RecentIsSuffix(history, SentAt, cut);
      SuffixAfter(history, limit);
      RecentInOrder(history, SentAt, cut);
      history[..limit] + Pages(Recent(history, SentAt, cut), limit)
  }

  /** Full pages end after `limit` messages, and after every `limit` more. */
  predicate PageEnd(i: int, limit: nat)
    requires limit > 0
    decreases i
  {
    i >= limit && (i == limit || PageEnd(i - limit, limit))
  }

  /** No page ends between two messages of the same time. */
  predicate CleanCuts(history: seq<Message>, limit: nat)
    requires limit > 0
  {
    forall i :: 0 < i < |history| && PageEnd(i, limit) ==> history[i - 1].sentAt < history[i].sentAt
  }

  lemma {:induction false} RecentInsert(m: Message, s: seq<Message>, cutoff: int)
    requires InOrder(s, SentAt)
    ensures Recent(InsertBy(m, s, SentLe), SentAt, cutoff)
            == if m.sentAt >= cutoff then InsertBy(m, Recent(s, SentAt, cutoff), SentLe) else Recent(s, SentAt, cutoff)
  {
    if s == [] {
      RecentCons(m, s, SentAt, cutoff);
    } else {
      hide Recent, InsertBy;
      var h, rest := s[0], s[1..];
      HeadSplit(s);
      InsertCons(m, h, rest, SentLe);
      RecentCons(h, rest, SentAt, cutoff);
      if SentLe(m, h) {
        RecentCons(m, s, SentAt, cutoff);
        if m.sentAt >= cutoff {
          RecentFromHead(s, SentAt, cutoff);
          InsertCons(m, h, rest, SentLe);
        }
      } else {
        RecentInsert(m, rest, cutoff);
        RecentCons(h, InsertBy(m, rest, SentLe), SentAt, cutoff);
        InsertCons(m, h, Recent(rest, SentAt, cutoff), SentLe);
      }
    }
  }

  lemma SortedInOrder(s: seq<Message>)
    ensures InOrder(SortBy(s, SentLe), SentAt)
  {
    SortBySorted(s, SentLe);
    assert forall i, j :: 0 <= i < j < |s| ==> SentLe(SortBy(s, SentLe)[i], SortBy(s, SentLe)[j]);
  }

  /** Filtering before or after the sort is the same. */
  lemma {:induction false} RecentSort(s: seq<Message>, cutoff: int)
    ensures SortBy(Recent(s, SentAt, cutoff), SentLe) == Recent(SortBy(s, SentLe), SentAt, cutoff)
  {
    if s != [] {
      hide Recent, InsertBy, SortBy;
      var h, rest := s[0], s[1..];
      HeadSplit(s);
      RecentSort(rest, cutoff);
      SortedInOrder(rest);
      SortCons(h, rest, SentLe);
      RecentInsert(h, SortBy(rest, SentLe), cutoff);
      RecentCons(h, rest, SentAt, cutoff);
      SortCons(h, Recent(rest, SentAt, cutoff), SentLe);
    }
  }

  lemma AfterIsRecent(rows: seq<Message>, conversation: string, cursor: int)
    ensures After(rows, conversation, cursor) == Recent(History(rows, conversation), SentAt, cursor + 1)
    ensures InOrder(After(rows, conversation, cursor), SentAt)
  {
    RecentSort(OfConversation(rows, conversation), cursor + 1);
    SortedInOrder(Recent(OfConversation(rows, conversation), SentAt, cursor + 1));
  }

  lemma SuffixAfter(history: seq<Message>, limit: nat)
    requires 0 < limit < |history| && InOrder(history, SentAt)
    ensures |Recent(history, SentAt, history[limit - 1].sentAt + 1)| <= |history| - limit
    ensures |Recent(history, SentAt, history[limit - 1].sentAt + 1)| == |history| - limit
            <==> history[limit - 1].sentAt < history[limit].sentAt
    ensures history[limit - 1].sentAt < history[limit].sentAt
            ==> Recent(history, SentAt, history[limit - 1].sentAt + 1) == history[limit..]
  {
    var cut := history[limit - 1].sentAt + 1;
    RecentIsSuffix(history, SentAt, cut);
    var kept := Recent(history, SentAt, cut);
    if |kept| > |history| - limit {
      assert kept[limit - 1 - (|history| - |kept|)] == history[limit - 1];
      RecentMember(history, SentAt, cut, history[limit - 1]);
    }
    if |kept| == |history| - limit {
      assert kept[0] == history[limit];
      RecentMember(history, SentAt, cut, history[limit]);
    } else {
      assert SentAt(history[limit]) < cut;
    }
  }

  lemma AfterLater(rows: seq<Message>, conversation: string, cursor: int, limit: nat)
    requires 0 < limit < |After(rows, conversation, cursor)|
    ensures var rest := After(rows, conversation, cursor); var next := rest[limit - 1].sentAt;
            && After(rows, conversation, next) == Recent(rest, SentAt, next + 1)
            && |After(rows, conversation, next)| < |rest|
  {
    hide Recent, After, History;
    var rest := After(rows, conversation, cursor);
    var next := rest[limit - 1].sentAt;
    AfterIsRecent(rows, conversation, cursor);
    AfterIsRecent(rows, conversation, next);
    assert next > cursor by {
      RecentMember(History(rows, conversation), SentAt, cursor + 1, rest[limit - 1]);
    }
    RecentTwice(History(rows, conversation), SentAt, cursor + 1, next + 1);
    SuffixAfter(rest, limit);
  }

  /** Following the cursor through the database cuts pages from the sorted history. */
  lemma {:induction false} ReadIsPages(rows: seq<Message>, conversation: string, cursor: int, limit: nat)
    requires limit > 0
    ensures InOrder(After(rows, conversation, cursor), SentAt)
    ensures ReadFrom(rows, conversation, cursor, limit) == Pages(After(rows, conversation, cursor), limit)
    decreases |After(rows, conversation, cursor)|
  {
    hide After, Recent;
    AfterIsRecent(rows, conversation, cursor);
    var rest := After(rows, conversation, cursor);
    if |rest| > limit {
      AfterLater(rows, conversation, cursor, limit);
      ReadIsPages(rows, conversation, rest[limit - 1].sentAt, limit);
    }
  }

  lemma CleanCutsTail(history: seq<Message>, limit: nat)
    requires 0 < limit < |history|
    ensures CleanCuts(history, limit)
            <==> history[limit - 1].sentAt < history[limit].sentAt && CleanCuts(history[limit..], limit)
  {
    var tail := history[limit..];
    if history[limit - 1].sentAt < history[limit].sentAt && CleanCuts(tail, limit) {
      forall i | 0 < i < |history| && PageEnd(i, limit)
        ensures history[i - 1].sentAt < history[i].sentAt
      {
        assert i > limit
               ==> PageEnd(i - limit, limit) && tail[i - limit - 1] == history[i - 1] && tail[i - limit] == history[i];
      }
    }
    if CleanCuts(history, limit) {
      assert PageEnd(limit, limit);
      forall i | 0 < i < |tail| && PageEnd(i, limit)
        ensures tail[i - 1].sentAt < tail[i].sentAt
      {
        assert PageEnd(limit + i, limit) && tail[i - 1] == history[limit + i - 1] && tail[i] == history[limit + i];
      }
    }
  }

  lemma SamePrefix<T>(prefix: seq<T>, a: seq<T>, b: seq<T>)
    ensures prefix + a == prefix + b <==> a == b
  {
    assert (prefix + a)[|prefix|..] == a && (prefix + b)[|prefix|..] == b;
  }

  lemma SameRest<T>(s: seq<T>, n: nat, rest: seq<T>)
    requires n <= |s|
    ensures s[..n] + rest == s <==> rest == s[n..]
  {
    SamePrefix(s[..n], rest, s[n..]);
    assert s == s[..n] + s[n..];
  }

  lemma PagesUnfold(history: seq<Message>, limit: nat, kept: seq<Message>)
    requires 0 < limit < |history| && InOrder(history, SentAt)
    requires kept == Recent(history, SentAt, history[limit - 1].sentAt + 1)
    ensures InOrder(kept, SentAt) && Pages(history, limit) == history[..limit] + Pages(kept, limit)
  {
    hide Recent;
    RecentInOrder(history, SentAt, history[limit - 1].sentAt + 1);
  }

  /** The pages make up the history if and only if no page ends inside a run of equal times. */
  lemma {:induction false} PagesComplete(history: seq<Message>, limit: nat)
    requires limit > 0 && InOrder(history, SentAt)
    ensures Pages(history, limit) == history <==> CleanCuts(history, limit)
    decreases |history|
  {
    if |history| > limit {
      hide Recent, CleanCuts, Pages, InOrder;
      var kept := Recent(history, SentAt, history[limit - 1].sentAt + 1);
      PagesUnfold(history, limit, kept);
      SuffixAfter(history, limit);
      CleanCutsTail(history, limit);
      PagesComplete(kept, limit);
      SameRest(history, limit, Pages(kept, limit));
    }
  }

  /** Following `next_cursor` from the start yields the whole conversation, in order. */
  predicate Complete(rows: seq<Message>, conversation: string, limit: nat)
    requires limit > 0
  {
    ReadFrom(rows, conversation, 0, limit) == History(rows, conversation)
  }

  /**
   * Following `next_cursor` yields the whole conversation, in order, if and only if every
   * time is positive and no page ends inside a run of equal times.
   */
  lemma PagingComplete(rows: seq<Message>, conversation: string, limit: nat)
    requires limit > 0
    ensures Complete(rows, conversation, limit)
            <==> && (forall m :: m in rows && m.conversation == conversation ==> m.sentAt > 0)
                 && CleanCuts(History(rows, conversation), limit)
  {
    hide Recent, After, History, CleanCuts, Pages, OfConversation;
    var history := History(rows, conversation);
    AfterIsRecent(rows, conversation, 0);
    ReadIsPages(rows, conversation, 0, limit);
    HistoryMembers(rows, conversation);
    if forall m :: m in history ==> m.sentAt > 0 {
      RecentAll(history, SentAt, 1);
      PagesComplete(history, limit);
    } else {
      var m :| m in history && m.sentAt <= 0;
      RecentMember(history, SentAt, 1, m);
      RecentIsSuffix(history, SentAt, 1);
      assert history[0..] == history;
      assert |Recent(history, SentAt, 1)| < |history|;
    }
  }

  lemma HistoryMembers(rows: seq<Message>, conversation: string)
    ensures forall m :: m in History(rows, conversation) <==> m in rows && m.conversation == conversation
    ensures InOrder(History(rows, conversation), SentAt)
  {
    hide OfConversation;
    forall m: Message
      ensures m in History(rows, conversation) <==> m in rows && m.conversation == conversation
    {
      HistoryHolds(rows, conversation, m);
    }
    SortedInOrder(OfConversation(rows, conversation));
  }

  lemma HistoryHolds(rows: seq<Message>, conversation: string, m: Message)
    ensures multiset(History(rows, conversation))[m] == if m.conversation == conversation then multiset(rows)[m] else 0
    ensures m in History(rows, conversation) <==> m in rows && m.conversation == conversation
  {
    hide OfConversation, Selects;
    var chosen := OfConversation(rows, conversation);
    OfConversationSelects(rows, conversation);
    SelectsCount(rows, chosen, In(conversation), m);
    SortByMembers(chosen, SentLe);
  }

  lemma {:induction false} PagesFull(history: seq<Message>, limit: nat)
    requires limit > 0 && InOrder(history, SentAt) && |Pages(history, limit)| == |history|
    ensures Pages(history, limit) == history
    decreases |history|
  {
    if |history| > limit {
      hide Recent, Pages, InOrder;
      var kept := Recent(history, SentAt, history[limit - 1].sentAt + 1);
      PagesUnfold(history, limit, kept);
      SuffixAfter(history, limit);
      PagesFull(kept, limit);
      SameRest(history, limit, kept);
    }
  }

  /** Following `next_cursor` yields all exactly when it yields every message of the conversation as often as stored. */
  lemma CompleteHoldsAll(rows: seq<Message>, conversation: string, limit: nat)
    requires limit > 0
    ensures Complete(rows, conversation, limit)
            <==> forall m: Message :: multiset(ReadFrom(rows, conversation, 0, limit))[m]
                             == if m.conversation == conversation then multiset(rows)[m] else 0
  {
    hide ReadFrom, After, History, Pages;
    var history, read := History(rows, conversation), ReadFrom(rows, conversation, 0, limit);
    forall m: Message
      ensures multiset(history)[m] == if m.conversation == conversation then multiset(rows)[m] else 0
    {
      HistoryHolds(rows, conversation, m);
    }
    if forall m: Message :: multiset(read)[m] == if m.conversation == conversation then multiset(rows)[m] else 0 {
      assert multiset(read) == multiset(history);
      assert |multiset(read)| == |read| && |multiset(history)| == |history|;
      ReadAll(rows, conversation, limit);
    }
  }

  lemma ReadAll(rows: seq<Message>, conversation: string, limit: nat)
    requires limit > 0
    ensures |ReadFrom(rows, conversation, 0, limit)| == |History(rows, conversation)| ==>
              ReadFrom(rows, conversation, 0, limit) == History(rows, conversation)
  {
    hide ReadFrom, After, History, Pages, Recent;
    var history := History(rows, conversation);
    HistoryMembers(rows, conversation);
    AfterIsRecent(rows, conversation, 0);
    ReadIsPages(rows, conversation, 0, limit);
    RecentIsSuffix(history, SentAt, 1);
    if |ReadFrom(rows, conversation, 0, limit)| == |history| {
      assert Recent(history, SentAt, 1) == history[0..] == history;
      PagesFull(history, limit);
    }
  }

  predicate StrictlyAscending(history: seq<Message>) {
    forall i :: 0 < i < |history| ==> history[i - 1].sentAt < history[i].sentAt
  }

  /** Paging is complete for every page size if and only if the times are positive and distinct. */
  lemma PagingCompleteAlways(rows: seq<Message>, conversation: string)
    ensures (forall limit: nat :: limit > 0 ==> Complete(rows, conversation, limit))
            <==> && (forall m :: m in rows && m.conversation == conversation ==> m.sentAt > 0)
                 && StrictlyAscending(History(rows, conversation))
  {
    hide Complete, History, OfConversation, CleanCuts, StrictlyAscending;
    var history := History(rows, conversation);
    forall limit: nat | limit > 0
      ensures Complete(rows, conversation, limit)
              <==> (forall m :: m in rows && m.conversation == conversation ==> m.sentAt > 0)
                   && CleanCuts(history, limit)
      ensures StrictlyAscending(history) ==> CleanCuts(history, limit)
    {
      PagingComplete(rows, conversation, limit);
      CutsOfOne(history, limit);
    }
    CutsOfOne(history, 1);
    if forall limit: nat :: limit > 0 ==> Complete(rows, conversation, limit) {
      assert Complete(rows, conversation, 1);
    }
  }

  lemma {:induction false} EveryPlaceEnds(i: int)
    requires i > 0
    ensures PageEnd(i, 1)
  {
    if i > 1 {
      EveryPlaceEnds(i - 1);
    }
  }

  lemma CutsOfOne(history: seq<Message>, limit: nat)
    requires limit > 0
    ensures CleanCuts(history, 1) <==> StrictlyAscending(history)
    ensures CleanCuts(history, 1) ==> CleanCuts(history, limit)
  {
    forall i | 0 < i < |history|
      ensures PageEnd(i, 1)
    {
      EveryPlaceEnds(i);
    }
  }

  /** Whatever the times are, no message is shown more often than it is stored. */
  lemma NothingTwice(rows: seq<Message>, conversation: string, limit: nat)
    requires limit > 0
    ensures forall m: Message :: multiset(ReadFrom(rows, conversation, 0, limit))[m]
                        <= if m.conversation == conversation then multiset(rows)[m] else 0
  {
    hide Recent, ReadFrom, Pages, OfConversation, After, InOrder;
    AfterWithin(rows, conversation);
    ReadIsPages(rows, conversation, 0, limit);
    PagesWithin(After(rows, conversation, 0), limit);
    OfConversationSelects(rows, conversation);
    hide Selects;
    forall m: Message
      ensures multiset(OfConversation(rows, conversation))[m]
              <= if m.conversation == conversation then multiset(rows)[m] else 0
    {
      SelectsCount(rows, OfConversation(rows, conversation), In(conversation), m);
    }
  }

  lemma AfterWithin(rows: seq<Message>, conversation: string)
    ensures multiset(After(rows, conversation, 0)) <= multiset(OfConversation(rows, conversation))
    ensures InOrder(After(rows, conversation, 0), SentAt)
  {
    hide Recent, OfConversation, InOrder;
    var sent := Recent(OfConversation(rows, conversation), SentAt, 1);
    AfterIsRecent(rows, conversation, 0);
    RecentSort(OfConversation(rows, conversation), 1);
    SortBySorted(sent, SentLe);
    RecentWithin(OfConversation(rows, conversation), 1);
  }

  lemma {:induction false} RecentWithin(s: seq<Message>, cutoff: int)
    ensures multiset(Recent(s, SentAt, cutoff)) <= multiset(s)
  {
    if s != [] {
      RecentWithin(s[1..], cutoff);
      HeadSplit(s);
    }
  }

  lemma PartsWithin<T>(s: seq<T>, i: nat, k: nat, part: seq<T>)
    requires i <= k <= |s| && multiset(part) <= multiset(s[k..])
    ensures multiset(s[..i] + part) <= multiset(s)
  {
    assert s == s[..i] + s[i..k] + s[k..];
  }

  lemma {:induction false} PagesWithin(history: seq<Message>, limit: nat)
    requires limit > 0 && InOrder(history, SentAt)
    ensures multiset(Pages(history, limit)) <= multiset(history)
    decreases |history|
  {
    if |history| > limit {
      hide Recent, Pages, InOrder;
      var k := NextPageStart(history, limit);
      PagesUnfold(history, limit, history[k..]);
      PagesWithin(history[k..], limit);
      PartsWithin(history, limit, k, Pages(history[k..], limit));
    }
  }

  lemma NextPageStart(history: seq<Message>, limit: nat) returns (k: nat)
    requires 0 < limit < |history| && InOrder(history, SentAt)
    ensures limit <= k <= |history| && Recent(history, SentAt, history[limit - 1].sentAt + 1) == history[k..]
  {
    hide Recent;
    SuffixAfter(history, limit);
    RecentIsSuffix(history, SentAt, history[limit - 1].sentAt + 1);
    k := |history| - |Recent(history, SentAt, history[limit - 1].sentAt + 1)|;
  }

  // ── Unread counts ─────────────────────────────────────────────────────────

  function UnreadOver(rows: seq<Message>, markers: map<string, int>, conversations: seq<string>): nat {
    if conversations == [] then 0
    else Unread(rows, conversations[0], Marker(markers, conversations[0]))
         + UnreadOver(rows, markers, conversations[1..])
  }

  lemma {:induction false} UnreadOverCons(m: Message, rows: seq<Message>, markers: map<string, int>,
                                          conversations: seq<string>)
    requires Distinct(conversations)
    ensures UnreadOver([m] + rows, markers, conversations)
            == UnreadOver(rows, markers, conversations)
               + if m.conversation in conversations && m.direction == "received"
                    && m.sentAt > Marker(markers, m.conversation)
                 then 1 else 0
  {
    if conversations != [] {
      UnreadOverCons(m, rows, markers, conversations[1..]);
      HeadSplit(conversations);
      assert ([m] + rows)[1..] == rows;
      assert conversations[0] !in conversations[1..];
    }
  }

  lemma {:induction false} UnreadOverEmpty(markers: map<string, int>, conversations: seq<string>)
    ensures UnreadOver([], markers, conversations) == 0
  {
    if conversations != [] {
      UnreadOverEmpty(markers, conversations[1..]);
    }
  }

  /** The total is the sum over any list that names every conversation once. */
  lemma {:induction false} TotalIsSum(rows: seq<Message>, markers: map<string, int>, conversations: seq<string>)
    requires Distinct(conversations)
    requires forall m :: m in rows ==> m.conversation in conversations
    ensures TotalUnread(rows, markers) == UnreadOver(rows, markers, conversations)
  {
    if rows == [] {
      UnreadOverEmpty(markers, conversations);
    } else {
      TotalIsSum(rows[1..], markers, conversations);
      UnreadOverCons(rows[0], rows[1..], markers, conversations);
      HeadSplit(rows);
    }
  }
}
