/**
 * The `todos` table of index.js (schema at index.js:18-27) as a sequence of
 * rows, and the queries the message handler runs on it: the owner-scoped
 * listing with its ORDER BY, and the owner-scoped UPDATE and DELETE by id.
 *
 * SQLite's `julianday(text)` is not modelled: it is a parameter
 * `julian: string -> Option<real>`, with None standing for SQL NULL, which
 * an ascending ORDER BY puts before every number.
 */
module TodoTable {
  import opened Wrappers
  import opened JsText

  /** One row: `done` is the INTEGER column read as a flag (0 = false). */
  datatype Todo = Todo(id: int, userId: string, content: string, priority: string, deadline: Option<string>, done: bool)

  const HIGH: string := "高"
  const MEDIUM: string := "中"
  const LOW: string := "低"

  /** The sort key a row without a deadline gets in place of julianday. */
  const NO_DEADLINE_KEY: real := 999999.0

  // ---------------------------------------------------------------- the values the dialogue stores

  /** The priority the dialogue stores: the reply itself when it is 高, 中 or 低, otherwise 中. */
  function PriorityOf(content: string): (p: string)
    ensures p == HIGH || p == MEDIUM || p == LOW
    ensures p == content <==> (content == HIGH || content == MEDIUM || content == LOW)
    ensures p != content ==> p == MEDIUM
  {
    if content == HIGH || content == MEDIUM || content == LOW then content else MEDIUM
  }

  /** The deadline the dialogue stores: null when the lower-cased reply is 无, otherwise the reply as raw text. */
  function DeadlineOf(content: string): Option<string> {
    if ToLower(content) == "无" then None else Some(content)
  }

  /** The deadline is null exactly for the text `无`; any other text is stored unchanged. */
  lemma DeadlineNullExactly(content: string)
    ensures DeadlineOf(content).None? <==> content == "无"
    ensures DeadlineOf(content).Some? ==> DeadlineOf(content).value == content
  {
    if ToLower(content) == "无" {
      ToLowerChars(content);
      assert LowerChar(content[0]) == '无';
      assert content == [content[0]];
    }
  }

  // ---------------------------------------------------------------- owner scoping

  /** The rows of one owner, in table order. */
  function Owned(rows: seq<Todo>, user: string): (r: seq<Todo>)
    ensures forall t :: t in r <==> t in rows && t.userId == user
    ensures |r| <= |rows|
  {
    if rows == [] then []
    else if rows[0].userId == user then [rows[0]] + Owned(rows[1..], user)
    else Owned(rows[1..], user)
  }

  predicate Matches(t: Todo, id: int, user: string) {
    t.id == id && t.userId == user
  }

  /** The number of rows with this id and owner: the change count an owner-scoped statement reports. */
  function MatchCount(rows: seq<Todo>, id: int, user: string): (n: nat)
    ensures n <= |rows|
    ensures n == 0 <==> forall t :: t in rows ==> !Matches(t, id, user)
  {
    if rows == [] then 0
    else (if Matches(rows[0], id, user) then 1 else 0) + MatchCount(rows[1..], id, user)
  }

  /** Ids strictly ascending in table order, as AUTOINCREMENT hands them out. */
  predicate IdsAscending(rows: seq<Todo>) {
    forall i, j :: 0 <= i < j < |rows| ==> rows[i].id < rows[j].id
  }

  /** Every id lies between 1 and the bound: the ids AUTOINCREMENT has handed out. */
  predicate IdsWithin(rows: seq<Todo>, bound: int) {
    forall t :: t in rows ==> 1 <= t.id <= bound
  }

  /** In an id-ordered table the first row has the smallest id. */
  lemma FirstIdSmallest(rows: seq<Todo>)
    requires IdsAscending(rows) && rows != []
    ensures IdsAscending(rows[1..])
    ensures forall t :: t in rows[1..] ==> rows[0].id < t.id
  {
    forall t | t in rows[1..] ensures rows[0].id < t.id {
      var j :| 0 <= j < |rows[1..]| && rows[1..][j] == t;
      assert rows[j + 1] == t;
    }
  }

  /** A row below every id of an id-ordered table can go in front of it. */
  lemma AscendingCons(x: Todo, rows: seq<Todo>)
    requires IdsAscending(rows) && forall t :: t in rows ==> x.id < t.id
    ensures IdsAscending([x] + rows)
  {
    forall j | 0 <= j < |rows| ensures x.id < rows[j].id {
      assert rows[j] in rows;
    }
  }

  /** With distinct ids, an id and an owner identify at most one row. */
  lemma {:induction false} AtMostOneMatch(rows: seq<Todo>, id: int, user: string)
    requires IdsAscending(rows)
    ensures MatchCount(rows, id, user) <= 1
  {
    if rows != [] {
      FirstIdSmallest(rows);
      AtMostOneMatch(rows[1..], id, user);
    }
  }

  // ---------------------------------------------------------------- completing a row of one owner

  function MarkDone(rows: seq<Todo>, id: int, user: string): (r: seq<Todo>)
    ensures |r| == |rows|
    ensures forall k :: 0 <= k < |rows| ==> r[k] == if Matches(rows[k], id, user) then rows[k].(done := true) else rows[k]
  {
    if rows == [] then []
    else [if Matches(rows[0], id, user) then rows[0].(done := true) else rows[0]] + MarkDone(rows[1..], id, user)
  }

  /** A completion that matches no row leaves the table as it was. */
  lemma MarkDoneNoMatch(rows: seq<Todo>, id: int, user: string)
    requires MatchCount(rows, id, user) == 0
    ensures MarkDone(rows, id, user) == rows
  {
    assert forall k :: 0 <= k < |rows| ==> rows[k] in rows;
  }

  /** Completing keeps every id in place, so the table stays in id order within its bound. */
  lemma MarkDoneKeepsIds(rows: seq<Todo>, id: int, user: string, bound: int)
    requires IdsAscending(rows) && IdsWithin(rows, bound)
    ensures IdsAscending(MarkDone(rows, id, user)) && IdsWithin(MarkDone(rows, id, user), bound)
  {
    var r := MarkDone(rows, id, user);
    assert forall k :: 0 <= k < |r| ==> r[k].id == rows[k].id;
    forall t | t in r ensures 1 <= t.id <= bound {
      var k :| 0 <= k < |r| && r[k] == t;
      assert rows[k] in rows;
    }
  }

  /** Another user's rows, and their order, are untouched by a completion. */
  lemma {:induction false} MarkDoneOtherUsers(rows: seq<Todo>, id: int, user: string, other: string)
    requires other != user
    ensures Owned(MarkDone(rows, id, user), other) == Owned(rows, other)
  {
    if rows != [] {
      MarkDoneOtherUsers(rows[1..], id, user, other);
      assert MarkDone(rows, id, user)[1..] == MarkDone(rows[1..], id, user);
    }
  }

  // ---------------------------------------------------------------- deleting a row of one owner

  function DeleteMatching(rows: seq<Todo>, id: int, user: string): (r: seq<Todo>)
    ensures forall t :: t in r <==> t in rows && !Matches(t, id, user)
    ensures |r| == |rows| - MatchCount(rows, id, user)
  {
    if rows == [] then []
    else if Matches(rows[0], id, user) then DeleteMatching(rows[1..], id, user)
    else [rows[0]] + DeleteMatching(rows[1..], id, user)
  }

  /** A deletion that matches no row leaves the table as it was. */
  lemma {:induction false} DeleteNoMatch(rows: seq<Todo>, id: int, user: string)
    requires MatchCount(rows, id, user) == 0
    ensures DeleteMatching(rows, id, user) == rows
  {
    if rows != [] {
      assert rows[0] in rows;
      DeleteNoMatch(rows[1..], id, user);
      assert [rows[0]] + rows[1..] == rows;
    }
  }

  /** Deleting keeps the remaining rows in their order, so the table stays in id order within its bound. */
  lemma {:induction false} DeleteKeepsIds(rows: seq<Todo>, id: int, user: string, bound: int)
    requires IdsAscending(rows) && IdsWithin(rows, bound)
    ensures IdsAscending(DeleteMatching(rows, id, user)) && IdsWithin(DeleteMatching(rows, id, user), bound)
  {
    if rows != [] {
      FirstIdSmallest(rows);
      assert IdsWithin(rows[1..], bound) by {
        forall t | t in rows[1..] ensures 1 <= t.id <= bound {
          assert t in rows;
        }
      }
      DeleteKeepsIds(rows[1..], id, user, bound);
      if !Matches(rows[0], id, user) {
        AscendingCons(rows[0], DeleteMatching(rows[1..], id, user));
      }
    }
  }

  /** Another user's rows, and their order, survive a deletion. */
  lemma {:induction false} DeleteOtherUsers(rows: seq<Todo>, id: int, user: string, other: string)
    requires other != user
    ensures Owned(DeleteMatching(rows, id, user), other) == Owned(rows, other)
  {
    if rows != [] {
      DeleteOtherUsers(rows[1..], id, user, other);
    }
  }

  // ---------------------------------------------------------------- the listing order

  /** The priority's place in the listing: 高 first, then 中, then any other text. */
  function Rank(priority: string): int {
    if priority == HIGH then 1 else if priority == MEDIUM then 2 else 3
  }

  /** The deadline sort key: 999999 without a deadline, julianday of the text otherwise (None is SQL NULL). */
  function DeadlineKey(t: Todo, julian: string -> Option<real>): Option<real> {
    if t.deadline.None? then Some(NO_DEADLINE_KEY) else julian(t.deadline.value)
  }

  /** SQLite's ascending order on a nullable number: NULL first. */
  predicate KeyLe(x: Option<real>, y: Option<real>) {
    x.None? || (y.Some? && x.value <= y.value)
  }

  /** The listing order (open rows first, then priority rank, then deadline key): a may stand before b. */
  predicate RowLe(a: Todo, b: Todo, julian: string -> Option<real>) {
    if a.done != b.done then !a.done
    else if Rank(a.priority) != Rank(b.priority) then Rank(a.priority) < Rank(b.priority)
    else KeyLe(DeadlineKey(a, julian), DeadlineKey(b, julian))
  }

  /** Rows in the listing order; rows with equal keys may stand in either order. */
  predicate Sorted(rows: seq<Todo>, julian: string -> Option<real>) {
    forall i, j :: 0 <= i < j < |rows| ==> RowLe(rows[i], rows[j], julian)
  }

  /** Any two rows are comparable, and the order is transitive: a total preorder. */
  lemma RowLeTotalPreorder(a: Todo, b: Todo, c: Todo, julian: string -> Option<real>)
    ensures RowLe(a, b, julian) || RowLe(b, a, julian)
    ensures RowLe(a, b, julian) && RowLe(b, c, julian) ==> RowLe(a, c, julian)
  {
  }

  /** A row that may stand before every row of a sorted listing can head it. */
  lemma SortedCons(x: Todo, rows: seq<Todo>, julian: string -> Option<real>)
    requires Sorted(rows, julian) && forall j :: 0 <= j < |rows| ==> RowLe(x, rows[j], julian)
    ensures Sorted([x] + rows, julian)
  {
  }

  /** A row that may stand before the head of a sorted listing may stand before all of it. */
  lemma BeforeHead(x: Todo, rows: seq<Todo>, julian: string -> Option<real>)
    requires Sorted(rows, julian) && rows != [] && RowLe(x, rows[0], julian)
    ensures forall j :: 0 <= j < |rows| ==> RowLe(x, rows[j], julian)
  {
    forall j | 0 <= j < |rows| ensures RowLe(x, rows[j], julian) {
      RowLeTotalPreorder(x, rows[0], rows[j], julian);
    }
  }

  /** The head of a sorted listing may stand before the rest with a later row put in. */
  lemma HeadBeforeInserted(x: Todo, rows: seq<Todo>, rest: seq<Todo>, julian: string -> Option<real>)
    requires Sorted(rows, julian) && rows != [] && !RowLe(x, rows[0], julian)
    requires multiset(rest) == multiset(rows[1..]) + multiset{x}
    ensures forall j :: 0 <= j < |rest| ==> RowLe(rows[0], rest[j], julian)
  {
    forall j | 0 <= j < |rest| ensures RowLe(rows[0], rest[j], julian) {
      assert rest[j] in multiset(rest);
      if rest[j] != x {
        assert rest[j] in multiset(rows[1..]);
        var k :| 0 <= k < |rows[1..]| && rows[1..][k] == rest[j];
        assert rows[k + 1] == rest[j];
      } else {
        RowLeTotalPreorder(x, rows[0], x, julian);
      }
    }
  }

  /** One row put into its place in a sorted listing. */
  function Insert(x: Todo, rows: seq<Todo>, julian: string -> Option<real>): (r: seq<Todo>)
    requires Sorted(rows, julian)
    ensures Sorted(r, julian)
    ensures multiset(r) == multiset(rows) + multiset{x}
  {
    if rows == [] then [x]
    else if RowLe(x, rows[0], julian) then
      BeforeHead(x, rows, julian);
      SortedCons(x, rows, julian);
      [x] + rows
    else
      var rest := Insert(x, rows[1..], julian);
      HeadBeforeInserted(x, rows, rest, julian);
      SortedCons(rows[0], rest, julian);
      assert rows == [rows[0]] + rows[1..];
      [rows[0]] + rest
  }

  /** The rows in listing order. */
  function Sort(rows: seq<Todo>, julian: string -> Option<real>): (r: seq<Todo>)
    ensures Sorted(r, julian)
    ensures multiset(r) == multiset(rows)
  {
    if rows == [] then []
    else
      assert rows == [rows[0]] + rows[1..];
      Insert(rows[0], Sort(rows[1..], julian), julian)
  }

  /**
   * The `列表` query (index.js:85-91): exactly the owner's rows, each as often
   * as in the table, in the listing order. Where keys tie the model keeps one
   * order; nothing below depends on which.
   */
  function ListRows(rows: seq<Todo>, user: string, julian: string -> Option<real>): (r: seq<Todo>)
    ensures Sorted(r, julian)
    ensures multiset(r) == multiset(Owned(rows, user))
  {
    Sort(Owned(rows, user), julian)
  }

  /** A listing holds exactly the owner's rows, and it is empty exactly when the owner has none. */
  lemma ListedRowsExactly(rows: seq<Todo>, user: string, julian: string -> Option<real>)
    ensures forall t :: t in ListRows(rows, user, julian) <==> t in rows && t.userId == user
    ensures ListRows(rows, user, julian) == [] <==> forall t :: t in rows ==> t.userId != user
  {
    var r := ListRows(rows, user, julian);
    forall t ensures t in r <==> t in Owned(rows, user) {
      assert t in r <==> t in multiset(r);
      assert t in Owned(rows, user) <==> t in multiset(Owned(rows, user));
    }
    if r != [] {
      assert r[0] in r;
    }
  }

  /** In a sorted listing, a row that strictly precedes another in the order stands before it. */
  lemma SortedPlacesBefore(rows: seq<Todo>, i: int, j: int, julian: string -> Option<real>)
    requires Sorted(rows, julian) && 0 <= i < |rows| && 0 <= j < |rows|
    requires !RowLe(rows[j], rows[i], julian)
    ensures i < j
  {
  }

  /** Open rows are listed before completed ones. */
  lemma OpenBeforeDone(rows: seq<Todo>, i: int, j: int, julian: string -> Option<real>)
    requires Sorted(rows, julian) && 0 <= i < |rows| && 0 <= j < |rows|
    requires !rows[i].done && rows[j].done
    ensures i < j
  {
    SortedPlacesBefore(rows, i, j, julian);
  }

  /**
   * With equal status and priority, a row without a deadline is listed
   * before a dated row whose julianday exceeds 999999, which every date from
   * 1900 BC on does.
   */
  lemma UndatedBeforeDated(rows: seq<Todo>, i: int, j: int, julian: string -> Option<real>)
    requires Sorted(rows, julian) && 0 <= i < |rows| && 0 <= j < |rows|
    requires rows[i].done == rows[j].done && Rank(rows[i].priority) == Rank(rows[j].priority)
    requires rows[i].deadline.None? && rows[j].deadline.Some?
    requires julian(rows[j].deadline.value).Some? && julian(rows[j].deadline.value).value > NO_DEADLINE_KEY
    ensures i < j
  {
    SortedPlacesBefore(rows, i, j, julian);
  }

  /**
   * With equal status and priority, a deadline text julianday cannot read
   * (such as `明天`) is NULL and is listed before every row without a deadline.
   */
  lemma UnreadableDeadlineFirst(rows: seq<Todo>, i: int, j: int, julian: string -> Option<real>)
    requires Sorted(rows, julian) && 0 <= i < |rows| && 0 <= j < |rows|
    requires rows[i].done == rows[j].done && Rank(rows[i].priority) == Rank(rows[j].priority)
    requires rows[i].deadline.Some? && julian(rows[i].deadline.value).None? && rows[j].deadline.None?
    ensures i < j
  {
    SortedPlacesBefore(rows, i, j, julian);
  }
}
