/**
 * The three tables of the bot's database (`users`, `vocab`, `answers`) as
 * values, and the read-only queries and row updates the bot runs on them.
 * Timestamps are abstract instants ordered like integers.
 */
module Tables {
  import opened Wrappers

  type ChatId = int
  type Time = int

  // ---------------------------------------------------------------- users

  /** One row of `users`. */
  datatype User = User(chatId: ChatId, tz: string, startHour: int, endHour: int, dailyCount: int)

  const DefaultTz: string := "Europe/Kyiv"

  /** The row inserted for a new chat: every column but the key takes its schema default. */
  function DefaultUser(chat: ChatId): (u: User)
    ensures u.chatId == chat && u.tz == DefaultTz
    ensures 0 <= u.startHour < u.endHour <= 24 && 1 <= u.dailyCount <= 12
    ensures u.startHour == 10 && u.endHour == 21 && u.dailyCount == 3
  {
    User(chat, DefaultTz, 10, 21, 3)
  }

  /** A keyword argument of `set_user`: one column and its new value. */
  datatype Field = Tz(tz: string) | StartHour(startHour: int) | EndHour(endHour: int) | DailyCount(dailyCount: int)

  datatype Column = TzColumn | StartHourColumn | EndHourColumn | DailyCountColumn

  function ColumnOf(f: Field): Column
  {
    match f
    case Tz(_) => TzColumn
    case StartHour(_) => StartHourColumn
    case EndHour(_) => EndHourColumn
    case DailyCount(_) => DailyCountColumn
  }

  /** The column `f` names holds the value `f` gives it. */
  predicate Holds(u: User, f: Field)
  {
    match f
    case Tz(t) => u.tz == t
    case StartHour(h) => u.startHour == h
    case EndHour(h) => u.endHour == h
    case DailyCount(n) => u.dailyCount == n
  }

  /** `u` and `v` agree on column `c`. */
  predicate SameColumn(u: User, v: User, c: Column)
  {
    match c
    case TzColumn => u.tz == v.tz
    case StartHourColumn => u.startHour == v.startHour
    case EndHourColumn => u.endHour == v.endHour
    case DailyCountColumn => u.dailyCount == v.dailyCount
  }

  /** One column assignment of the update that `set_user` builds. */
  function Assign(u: User, f: Field): (v: User)
    ensures v.chatId == u.chatId && Holds(v, f)
    ensures forall c :: c != ColumnOf(f) ==> SameColumn(u, v, c)
  {
    match f
    case Tz(t) => u.(tz := t)
    case StartHour(h) => u.(startHour := h)
    case EndHour(h) => u.(endHour := h)
    case DailyCount(n) => u.(dailyCount := n)
  }

  /** The row after one update assigning every field, assignments taken left to right. */
  function ApplyFields(u: User, fields: seq<Field>): (r: User)
    ensures r.chatId == u.chatId
    ensures fields == [] ==> r == u
  {
    if fields == [] then u
    else Assign(ApplyFields(u, fields[..|fields| - 1]), fields[|fields| - 1])
  }

  /** A column no field names keeps its value, and so does the key. */
  lemma {:induction false} ApplyFieldsKeepsUnnamed(u: User, fields: seq<Field>, c: Column)
    requires forall i :: 0 <= i < |fields| ==> ColumnOf(fields[i]) != c
    ensures SameColumn(u, ApplyFields(u, fields), c)
    ensures ApplyFields(u, fields).chatId == u.chatId
  {
    if fields != [] {
      ApplyFieldsKeepsUnnamed(u, fields[..|fields| - 1], c);
    }
  }

  /** A named column takes the value of the last field naming it. */
  lemma {:induction false} ApplyFieldsSetsNamed(u: User, fields: seq<Field>, i: nat)
    requires i < |fields|
    requires forall j :: i < j < |fields| ==> ColumnOf(fields[j]) != ColumnOf(fields[i])
    ensures Holds(ApplyFields(u, fields), fields[i])
  {
    var n := |fields| - 1;
    if i < n {
      ApplyFieldsSetsNamed(u, fields[..n], i);
      var before := ApplyFields(u, fields[..n]);
      assert SameColumn(before, Assign(before, fields[n]), ColumnOf(fields[i]));
    }
  }

  // ---------------------------------------------------------------- vocab

  /** One row of `vocab`; `last_seen` is NULL until the first answer. */
  datatype VocabItem = VocabItem(id: int, chatId: ChatId, text: string, lastSeen: Option<Time>, strength: int, active: bool)

  /** Rows in strictly ascending `id` order, as AUTOINCREMENT leaves the table. */
  predicate Ascending(rows: seq<VocabItem>)
  {
    forall i, j :: 0 <= i < j < |rows| ==> rows[i].id < rows[j].id
  }

  /** The chat's rows that are not soft-deleted, in table order. */
  function ActiveRows(rows: seq<VocabItem>, chat: ChatId): (r: seq<VocabItem>)
    ensures |r| <= |rows|
    ensures forall v :: v in r <==> v in rows && v.chatId == chat && v.active
  {
    if rows == [] then []
    else
      var n := |rows| - 1;
      assert rows == rows[..n] + [rows[n]];
      ActiveRows(rows[..n], chat) + (if rows[n].chatId == chat && rows[n].active then [rows[n]] else [])
  }

  /** Filtering a table kept in id order keeps id order. */
  lemma {:induction false} ActiveRowsAscending(rows: seq<VocabItem>, chat: ChatId)
    requires Ascending(rows)
    ensures Ascending(ActiveRows(rows, chat))
  {
    if rows != [] {
      var n := |rows| - 1;
      ActiveRowsAscending(rows[..n], chat);
      var pre := ActiveRows(rows[..n], chat);
      forall v | v in pre ensures v.id < rows[n].id {
        var k :| 0 <= k < n && rows[..n][k] == v;
      }
    }
  }

  /** `list_vocab`: the chat's active rows by ascending id, at most `limit` of them. */
  function ListVocab(rows: seq<VocabItem>, chat: ChatId, limit: nat): (r: seq<VocabItem>)
    ensures |r| <= limit
    ensures forall v :: v in r ==> v in rows && v.chatId == chat && v.active
    ensures |r| < limit ==> forall v :: v in rows && v.chatId == chat && v.active ==> v in r
  {
    var a := ActiveRows(rows, chat);
    if |a| <= limit then a else a[..limit]
  }

  /**
   * On a table in id order the listing is in strictly ascending id order and
   * holds the smallest ids: every active row of the chat it leaves out has a
   * larger id than every row it shows.
   */
  lemma ListVocabOrdered(rows: seq<VocabItem>, chat: ChatId, limit: nat)
    requires Ascending(rows)
    ensures Ascending(ListVocab(rows, chat, limit))
    ensures forall v, w ::
      (v in rows && v.chatId == chat && v.active && v !in ListVocab(rows, chat, limit)
       && w in ListVocab(rows, chat, limit)) ==> w.id < v.id
  {
    ActiveRowsAscending(rows, chat);
    var a := ActiveRows(rows, chat);
    if |a| > limit {
      PrefixHoldsSmallest(a, limit);
    }
  }

  /** In an ascending sequence every element past a prefix has a larger id than every element in it. */
  lemma PrefixHoldsSmallest(a: seq<VocabItem>, limit: nat)
    requires Ascending(a) && limit <= |a|
    ensures forall v, w :: (v in a && v !in a[..limit] && w in a[..limit]) ==> w.id < v.id
  {
    forall v, w | v in a && v !in a[..limit] && w in a[..limit] ensures w.id < v.id {
      var k :| 0 <= k < |a| && a[k] == v;
      var j :| 0 <= j < limit && a[..limit][j] == w;
      assert a[j] == w;
    }
  }

  /** Ascending `last_seen` with a missing value before every time: strictly before. */
  predicate SeenBefore(a: Option<Time>, b: Option<Time>)
  {
    (a.None? && b.Some?) || (a.Some? && b.Some? && a.value < b.value)
  }

  /** `a` sorts strictly before `b` by `last_seen` (missing first), then by ascending strength. */
  predicate SortsBefore(a: VocabItem, b: VocabItem): (r: bool)
    ensures r ==> a.lastSeen != b.lastSeen || a.strength != b.strength
    ensures a.lastSeen.None? && b.lastSeen.Some? ==> r
    ensures a.lastSeen.Some? && b.lastSeen.None? ==> !r
  {
    SeenBefore(a.lastSeen, b.lastSeen) || (a.lastSeen == b.lastSeen && a.strength < b.strength)
  }

  /** Neither sorts before the other: only the random key tells them apart. */
  predicate SameRank(a: VocabItem, b: VocabItem)
  {
    a.lastSeen == b.lastSeen && a.strength == b.strength
  }

  /** A row no row of `rows` sorts strictly before. */
  function Earliest(rows: seq<VocabItem>): (m: VocabItem)
    requires rows != []
    ensures m in rows
    ensures forall v :: v in rows ==> !SortsBefore(v, m)
  {
    if |rows| == 1 then rows[0]
    else
      var m := Earliest(rows[1..]);
      assert rows == [rows[0]] + rows[1..];
      if SortsBefore(rows[0], m) then rows[0] else m
  }

  /** The rows of `rows` that rank level with `pivot`, in table order. */
  function RankedWith(rows: seq<VocabItem>, pivot: VocabItem): (r: seq<VocabItem>)
    ensures forall v :: v in r <==> v in rows && SameRank(v, pivot)
  {
    if rows == [] then []
    else
      var n := |rows| - 1;
      assert rows == rows[..n] + [rows[n]];
      RankedWith(rows[..n], pivot) + (if SameRank(rows[n], pivot) then [rows[n]] else [])
  }

  /**
   * `pick_vocab`: the chat's active row that sorts first; `draw` stands for
   * the random sort key that decides among rows of equal rank.
   */
  function PickVocab(rows: seq<VocabItem>, chat: ChatId, draw: nat): (r: Option<VocabItem>)
    ensures r.None? <==> forall v :: v in rows && v.chatId == chat ==> !v.active
    ensures r.Some? ==> r.value in rows && r.value.chatId == chat && r.value.active
    ensures r.Some? ==> forall v :: v in rows && v.chatId == chat && v.active ==> !SortsBefore(v, r.value)
    ensures r.Some? && (exists v :: v in rows && v.chatId == chat && v.active && v.lastSeen.None?) ==>
      r.value.lastSeen.None?
  {
    var a := ActiveRows(rows, chat);
    if a == [] then None
    else
      var ties := RankedWith(a, Earliest(a));
      assert Earliest(a) in ties;
      Some(ties[draw % |ties|])
  }

  /** Every row that no active row of the chat sorts before is picked by some draw. */
  lemma PickReachesEveryTie(rows: seq<VocabItem>, chat: ChatId, v: VocabItem)
    requires v in rows && v.chatId == chat && v.active
    requires forall w :: w in rows && w.chatId == chat && w.active ==> !SortsBefore(w, v)
    ensures exists draw: nat :: PickVocab(rows, chat, draw) == Some(v)
  {
    var a := ActiveRows(rows, chat);
    assert v in a;
    var k := TieIndex(a, v);
    var ties := RankedWith(a, Earliest(a));
    SmallRemainder(k, |ties|);
    assert PickVocab(rows, chat, k) == Some(v);
  }

  lemma SmallRemainder(k: nat, n: nat)
    requires k < n
    ensures k % n == k
  {
  }

  /**
   * A freshly added row (never seen, strength 0) in a table without negative
   * strengths ranks first, so some draw picks it.
   */
  lemma FreshRowCanBePicked(rows: seq<VocabItem>, chat: ChatId, v: VocabItem)
    requires forall w :: w in rows ==> w.strength >= 0
    requires v in rows && v.chatId == chat && v.active && v.lastSeen.None? && v.strength == 0
    ensures exists draw: nat :: PickVocab(rows, chat, draw) == Some(v)
  {
    PickReachesEveryTie(rows, chat, v);
  }

  /** Where a row that nothing sorts before stands among the rows ranked level with the first. */
  lemma TieIndex(a: seq<VocabItem>, v: VocabItem) returns (k: nat)
    requires v in a
    requires forall w :: w in a ==> !SortsBefore(w, v)
    ensures k < |RankedWith(a, Earliest(a))| && RankedWith(a, Earliest(a))[k] == v
  {
    var m := Earliest(a);
    assert !SortsBefore(v, m) && !SortsBefore(m, v);
    var ties := RankedWith(a, m);
    assert v in ties;
    k :| k < |ties| && ties[k] == v;
  }

  /** The soft delete of `remove_vocab`: clears `active` on rows matching both the chat and the id. */
  function Deactivated(rows: seq<VocabItem>, chat: ChatId, vid: int): (r: seq<VocabItem>)
    ensures |r| == |rows|
    ensures forall i :: 0 <= i < |rows| ==> r[i].(active := rows[i].active) == rows[i]
    ensures forall i :: 0 <= i < |rows| ==> (r[i].active <==> rows[i].active && !(rows[i].chatId == chat && rows[i].id == vid))
  {
    seq(|rows|, i requires 0 <= i < |rows| =>
      if rows[i].chatId == chat && rows[i].id == vid then rows[i].(active := false) else rows[i])
  }

  /**
   * After a removal the chat's active rows are its former active rows except
   * the removed id, and every other chat's active rows are as before.
   */
  lemma RemoveActiveRows(rows: seq<VocabItem>, chat: ChatId, vid: int, other: ChatId)
    ensures forall v :: v in ActiveRows(Deactivated(rows, chat, vid), chat) <==>
      v in ActiveRows(rows, chat) && v.id != vid
    ensures other != chat ==> ActiveRows(Deactivated(rows, chat, vid), other) == ActiveRows(rows, other)
  {
    var d := Deactivated(rows, chat, vid);
    forall v ensures v in ActiveRows(d, chat) <==> v in ActiveRows(rows, chat) && v.id != vid {
      if v in d && v.chatId == chat && v.active {
        var k :| 0 <= k < |d| && d[k] == v;
        assert rows[k] == v;
      }
      if v in rows && v.chatId == chat && v.active && v.id != vid {
        var k :| 0 <= k < |rows| && rows[k] == v;
        assert d[k] == v;
      }
    }
    if other != chat {
      ActiveRowsOfOtherChat(rows, d, other);
    }
  }

  /** Two tables that differ only in rows of other chats have the same active rows for `chat`. */
  lemma {:induction false} ActiveRowsOfOtherChat(xs: seq<VocabItem>, ys: seq<VocabItem>, chat: ChatId)
    requires |xs| == |ys|
    requires forall i :: 0 <= i < |xs| ==> xs[i] == ys[i] || (xs[i].chatId != chat && ys[i].chatId != chat)
    ensures ActiveRows(xs, chat) == ActiveRows(ys, chat)
  {
    if xs != [] {
      var n := |xs| - 1;
      ActiveRowsOfOtherChat(xs[..n], ys[..n], chat);
    }
  }

  /** The listing after a removal never shows the removed id. */
  lemma ListAfterRemove(rows: seq<VocabItem>, chat: ChatId, vid: int, limit: nat)
    ensures forall v :: v in ListVocab(Deactivated(rows, chat, vid), chat, limit) ==> v.id != vid
  {
    RemoveActiveRows(rows, chat, vid, chat);
  }

  /** Removing twice is removing once. */
  lemma RemoveIdempotent(rows: seq<VocabItem>, chat: ChatId, vid: int)
    ensures Deactivated(Deactivated(rows, chat, vid), chat, vid) == Deactivated(rows, chat, vid)
  {
  }

  /** Removing an id the chat has no row with changes nothing. */
  lemma RemoveMissingIsNoop(rows: seq<VocabItem>, chat: ChatId, vid: int)
    requires forall v :: v in rows ==> v.chatId != chat || v.id != vid
    ensures Deactivated(rows, chat, vid) == rows
  {
  }

  /** The second write of `record_answer`: stamps and strengthens every row with that id, whatever its chat. */
  function Touched(rows: seq<VocabItem>, vid: int, now: Time): (r: seq<VocabItem>)
    ensures |r| == |rows|
    ensures forall i :: 0 <= i < |rows| ==>
      r[i].(lastSeen := rows[i].lastSeen, strength := rows[i].strength) == rows[i]
  {
    seq(|rows|, i requires 0 <= i < |rows| =>
      if rows[i].id == vid then rows[i].(lastSeen := Some(now), strength := rows[i].strength + 1) else rows[i])
  }

  /**
   * Recording an answer gains the row with that id exactly one point of
   * strength, stamps it, and leaves every other row unchanged; strength never
   * falls, and when the clock has not gone back, neither does `last_seen`.
   */
  lemma RecordBumpsRow(rows: seq<VocabItem>, vid: int, now: Time)
    ensures |Touched(rows, vid, now)| == |rows|
    ensures forall i :: 0 <= i < |rows| ==>
      Touched(rows, vid, now)[i].strength == rows[i].strength + (if rows[i].id == vid then 1 else 0)
    ensures forall i :: 0 <= i < |rows| && rows[i].id == vid ==> Touched(rows, vid, now)[i].lastSeen == Some(now)
    ensures forall i :: 0 <= i < |rows| && rows[i].id != vid ==> Touched(rows, vid, now)[i] == rows[i]
    ensures (forall i :: 0 <= i < |rows| && rows[i].lastSeen.Some? ==> rows[i].lastSeen.value <= now) ==>
      forall i :: 0 <= i < |rows| ==> !SeenBefore(Touched(rows, vid, now)[i].lastSeen, rows[i].lastSeen)
  {
  }

  /** Ids are unique in the table. */
  predicate UniqueIds(rows: seq<VocabItem>)
  {
    forall i, j :: 0 <= i < |rows| && 0 <= j < |rows| && rows[i].id == rows[j].id ==> i == j
  }

  /**
   * The update is filtered by id only; when the id comes from `pick_vocab`
   * for the same chat, as in the reply handler, it changes that chat's picked
   * row and nothing else.
   */
  lemma RecordAfterPickStaysInChat(rows: seq<VocabItem>, chat: ChatId, draw: nat, now: Time)
    requires UniqueIds(rows)
    requires PickVocab(rows, chat, draw).Some?
    ensures var v := PickVocab(rows, chat, draw).value;
      forall i :: 0 <= i < |rows| && rows[i] != v ==> Touched(rows, v.id, now)[i] == rows[i]
  {
    var v := PickVocab(rows, chat, draw).value;
    var k :| 0 <= k < |rows| && rows[k] == v;
    forall i | 0 <= i < |rows| && rows[i] != v ensures rows[i].id != rows[k].id {
    }
  }

  // -------------------------------------------------------------- answers

  /** One row of `answers`. */
  datatype Answer = Answer(id: int, chatId: ChatId, vocabId: int, text: string, answeredAt: Time)

  /** One row of the export query: the answer's time and text. */
  datatype ExportRow = ExportRow(answeredAt: Time, text: string)

  function RowOf(a: Answer): ExportRow
  {
    ExportRow(a.answeredAt, a.text)
  }

  /** The chat's answers, projected to the exported columns, in log order. */
  function ChatRows(answers: seq<Answer>, chat: ChatId): (r: seq<ExportRow>)
    ensures forall a :: a in answers && a.chatId == chat ==> RowOf(a) in r
    ensures forall x :: x in r ==> exists a :: a in answers && a.chatId == chat && x == RowOf(a)
    ensures forall x :: multiset(r)[x] == |Matching(answers, chat, x)|
  {
    if answers == [] then
      assert forall x :: Matching(answers, chat, x) == {};
      []
    else
      var n := |answers| - 1;
      assert answers == answers[..n] + [answers[n]];
      MatchingSnoc(answers, chat);
      ChatRows(answers[..n], chat) + (if answers[n].chatId == chat then [RowOf(answers[n])] else [])
  }

  /** The positions of the chat's answers whose exported row is `x`. */
  ghost function Matching(answers: seq<Answer>, chat: ChatId, x: ExportRow): set<int>
  {
    set i | 0 <= i < |answers| && answers[i].chatId == chat && RowOf(answers[i]) == x
  }

  /** The last answer adds its own position to the matches of its row, and to no other's. */
  lemma MatchingSnoc(answers: seq<Answer>, chat: ChatId)
    requires answers != []
    ensures forall x ::
      |Matching(answers, chat, x)| ==
        |Matching(answers[..|answers| - 1], chat, x)| +
        (if answers[|answers| - 1].chatId == chat && RowOf(answers[|answers| - 1]) == x then 1 else 0)
  {
    var n := |answers| - 1;
    forall x
      ensures |Matching(answers, chat, x)| ==
        |Matching(answers[..n], chat, x)| + (if answers[n].chatId == chat && RowOf(answers[n]) == x then 1 else 0)
    {
      var before := Matching(answers[..n], chat, x);
      if answers[n].chatId == chat && RowOf(answers[n]) == x {
        assert Matching(answers, chat, x) == before + {n};
        assert n !in before;
      } else {
        assert Matching(answers, chat, x) == before;
      }
    }
  }

  predicate SortedDesc(s: seq<ExportRow>)
  {
    forall i, j :: 0 <= i < j < |s| ==> s[i].answeredAt >= s[j].answeredAt
  }

  /** Inserts `x` into a sequence sorted newest first, before the first row not newer than it. */
  function InsertDesc(x: ExportRow, s: seq<ExportRow>): (r: seq<ExportRow>)
    requires SortedDesc(s)
    ensures SortedDesc(r)
    ensures multiset(r) == multiset(s) + multiset{x}
    ensures forall y :: y in r ==> y == x || y in s
  {
    if s == [] || x.answeredAt >= s[0].answeredAt then [x] + s
    else
      var t := InsertDesc(x, s[1..]);
      assert s == [s[0]] + s[1..];
      HeadIsNewest(s);
      ConsSorted(s[0], t);
      [s[0]] + t
  }

  /** The head of a newest-first sequence is at least as new as every row after it. */
  lemma HeadIsNewest(s: seq<ExportRow>)
    requires SortedDesc(s) && s != []
    ensures forall y :: y in s[1..] ==> y.answeredAt <= s[0].answeredAt
  {
    forall y | y in s[1..] ensures y.answeredAt <= s[0].answeredAt {
      var k :| 0 <= k < |s[1..]| && s[1..][k] == y;
      assert s[k + 1] == y;
    }
  }

  /** Putting a row in front of a newest-first sequence of rows no newer than it keeps it newest first. */
  lemma ConsSorted(h: ExportRow, t: seq<ExportRow>)
    requires SortedDesc(t) && forall y :: y in t ==> y.answeredAt <= h.answeredAt
    ensures SortedDesc([h] + t)
  {
    forall i, j | 0 <= i < j < |[h] + t| ensures ([h] + t)[i].answeredAt >= ([h] + t)[j].answeredAt {
      if i == 0 {
        assert ([h] + t)[j] in t;
      }
    }
  }

  function SortDesc(s: seq<ExportRow>): (r: seq<ExportRow>)
    ensures SortedDesc(r)
    ensures multiset(r) == multiset(s)
  {
    if s == [] then []
    else
      var n := |s| - 1;
      assert s == s[..n] + [s[n]];
      InsertDesc(s[n], SortDesc(s[..n]))
  }

  /** The export query: the chat's answers, newest first. */
  function ExportAnswers(answers: seq<Answer>, chat: ChatId): (r: seq<ExportRow>)
    ensures SortedDesc(r)
    ensures multiset(r) == multiset(ChatRows(answers, chat))
  {
    SortDesc(ChatRows(answers, chat))
  }

  /** Appending an answer adds exactly its row to its own chat's export and nothing to any other's. */
  lemma ExportAfterRecord(answers: seq<Answer>, a: Answer, chat: ChatId)
    ensures multiset(ExportAnswers(answers + [a], chat)) ==
      multiset(ExportAnswers(answers, chat)) + (if a.chatId == chat then multiset{RowOf(a)} else multiset{})
  {
    assert (answers + [a])[..|answers|] == answers;
  }
}
