/**
 * The `messageCreate` handler of index.js (lines 40-130): one message at a
 * time against the per-user add dialogue and the `todos` table.
 *
 * The dialogue entry of a user holds the step and the fields collected so
 * far; the step and its fields are one datatype value, so a waiting-priority
 * entry always carries the name and the deadline the earlier steps stored.
 * Replies are tags instead of Discord messages.
 */
module TodoBot {
  import opened Wrappers
  import opened JsText
  import opened TodoTable

  /** A user's place in the add dialogue, with what has been collected. */
  datatype Dialogue =
    | WaitingName
    | WaitingDeadline(content: string)
    | WaitingPriority(content: string, deadline: Option<string>)

  /** The fields of a Discord message the handler reads. */
  datatype Message = Message(authorIsBot: bool, channelId: string, authorId: string, content: string)

  /** What the handler answers; Silent is no reply at all. */
  datatype Reply =
    | Silent
    | AskName
    | AskDeadline
    | AskPriority
    | Added(row: Todo)
    | EmptyList
    | Listing(rows: seq<Todo>)
    | CompleteUsage
    | DeleteUsage
    | NotFound(id: int)
    | MarkedDone(id: int)
    | Deleted(id: int)

  const ADD: string := "添加"
  const LIST: string := "列表"
  const COMPLETE: string := "完成"
  const DELETE: string := "删除"

  predicate StartsWith(s: string, prefix: string) {
    |prefix| <= |s| && s[..|prefix|] == prefix
  }

  /** The id argument of `完成` and `删除`: parseInt of the second space-separated word. */
  function IdArgument(content: string): ParsedInt {
    ParseInt(SecondWord(content))
  }

  /** A command word alone has no second word, so parseInt sees "undefined": NaN, the usage reply. */
  lemma BareCommandHasNoId(cmd: string)
    requires ' ' !in cmd
    ensures SecondWord(cmd) == None
    ensures IdArgument(cmd) == NotANumber
  {
    SplitJoin([cmd], ' ');
    assert Join([cmd], ' ') == cmd;
    assert DigitPrefix("ndefined", 10) == [];
  }

  /** A command word, a space and the decimal rendering of n, then nothing or a further space: the id is n. */
  lemma CommandWithId(cmd: string, n: int, rest: string)
    requires ' ' !in cmd
    requires rest == [] || rest[0] == ' '
    ensures IdArgument(cmd + " " + IntString(n) + rest) == Integer(n)
  {
    IntStringHasNoSpace(n);
    SecondWordOf(cmd, IntString(n), rest);
    ParseIntDecimal(n, []);
    assert IntString(n) + [] == IntString(n);
  }

  /** parseInt also reads a `0x` prefix: `完成 0x1F` names id 31. */
  lemma HexId()
    ensures IdArgument(COMPLETE + " 0x1F") == Integer(31)
  {
    SecondWordOf(COMPLETE, "0x1F", []);
    assert COMPLETE + " " + "0x1F" + [] == COMPLETE + " 0x1F";
    assert TrimStart("0x1F") == "0x1F";
    assert DigitPrefix("1F", 16) == "1F";
    assert DigitsValue("1F", 16) == 31 by {
      assert "1F"[..1] == "1";
    }
  }

  /** Messages the handler drops before anything else: from bots, or outside the todo channel. */
  predicate Ignored(msg: Message, channel: string) {
    msg.authorIsBot || msg.channelId != channel
  }

  /** A listing reply for this owner: the owner's rows, each once per table row, in listing order. */
  predicate IsListing(rows: seq<Todo>, table: seq<Todo>, user: string, julian: string -> Option<real>) {
    Sorted(rows, julian) && multiset(rows) == multiset(Owned(table, user))
  }

  class Bot {
    /** TODO_CHANNEL_ID. */
    const channel: string
    /** userStates, keyed by user id. */
    var userStates: map<string, Dialogue>
    /** The `todos` table, in rowid order. */
    var todos: seq<Todo>
    /** The AUTOINCREMENT sequence: the largest id ever handed out. */
    var lastId: int

    ghost predicate Valid()
      reads this
    {
      lastId >= 0 && IdsAscending(todos) && IdsWithin(todos, lastId)
    }

    /**
     * A bot started over the persisted `todos.db`: the table keeps the rows
     * and the AUTOINCREMENT sequence of earlier runs (the CREATE TABLE is
     * IF NOT EXISTS), and no dialogue is in progress.
     */
    constructor (channel: string, todos: seq<Todo>, lastId: int)
      requires lastId >= 0 && IdsAscending(todos) && IdsWithin(todos, lastId)
      ensures Valid()
      ensures this.channel == channel && userStates == map[] && this.todos == todos && this.lastId == lastId
    {
      this.channel := channel;
      userStates := map[];
      this.todos := todos;
      this.lastId := lastId;
    }

    /** The INSERT that ends the dialogue: the next AUTOINCREMENT id, not yet done. */
    method Insert(user: string, content: string, priority: string, deadline: Option<string>) returns (row: Todo)
      requires Valid()
      modifies this
      ensures Valid()
      ensures row == Todo(old(lastId) + 1, user, content, priority, deadline, false)
      ensures forall t :: t in old(todos) ==> t.id < row.id
      ensures todos == old(todos) + [row] && lastId == old(lastId) + 1
      ensures userStates == old(userStates)
    {
      row := Todo(lastId + 1, user, content, priority, deadline, false);
      todos := todos + [row];
      lastId := lastId + 1;
    }

    /** The `完成` command (index.js:112-118). */
    method Complete(user: string, content: string) returns (reply: Reply)
      requires Valid()
      modifies this
      ensures Valid()
      ensures userStates == old(userStates) && lastId == old(lastId)
      ensures var id := IdArgument(content);
        if IsFalsy(id) then reply == CompleteUsage && todos == old(todos)
        else if MatchCount(old(todos), id.value, user) == 0 then reply == NotFound(id.value) && todos == old(todos)
        else reply == MarkedDone(id.value) && todos == MarkDone(old(todos), id.value, user)
    {
      var id := IdArgument(content);
      if IsFalsy(id) {
        return CompleteUsage;
      }
      var changes := MatchCount(todos, id.value, user);
      MarkDoneKeepsIds(todos, id.value, user, lastId);
      if changes == 0 {
        MarkDoneNoMatch(todos, id.value, user);
      }
      todos := MarkDone(todos, id.value, user);
      reply := if changes == 0 then NotFound(id.value) else MarkedDone(id.value);
    }

    /** The `删除` command (index.js:122-128). */
    method Delete(user: string, content: string) returns (reply: Reply)
      requires Valid()
      modifies this
      ensures Valid()
      ensures userStates == old(userStates) && lastId == old(lastId)
      ensures var id := IdArgument(content);
        if IsFalsy(id) then reply == DeleteUsage && todos == old(todos)
        else if MatchCount(old(todos), id.value, user) == 0 then reply == NotFound(id.value) && todos == old(todos)
        else reply == Deleted(id.value) && todos == DeleteMatching(old(todos), id.value, user)
    {
      var id := IdArgument(content);
      if IsFalsy(id) {
        return DeleteUsage;
      }
      var changes := MatchCount(todos, id.value, user);
      DeleteKeepsIds(todos, id.value, user, lastId);
      if changes == 0 {
        DeleteNoMatch(todos, id.value, user);
      }
      todos := DeleteMatching(todos, id.value, user);
      reply := if changes == 0 then NotFound(id.value) else Deleted(id.value);
    }

    /** The `列表` command (index.js:84-93): reads the table, changes nothing. */
    method List(user: string, julian: string -> Option<real>) returns (reply: Reply)
      requires Valid()
      ensures reply == EmptyList <==> forall t :: t in todos ==> t.userId != user
      ensures reply != EmptyList ==> reply.Listing? && IsListing(reply.rows, todos, user, julian)
    {
      var rows := ListRows(todos, user, julian);
      ListedRowsExactly(todos, user, julian);
      if rows == [] {
        return EmptyList;
      }
      return Listing(rows);
    }

    /**
     * One `messageCreate` event. A user with a dialogue entry advances it by
     * one step, whatever the text; otherwise the text is matched against the
     * commands in the handler's order: exact `添加`, exact `列表`, then texts
     * starting with `完成` or `删除`. Anything else gets no reply.
     */
    method HandleMessage(msg: Message, julian: string -> Option<real>) returns (reply: Reply)
      requires Valid()
      modifies this
      ensures Valid()
      // index.js:41-42
      ensures Ignored(msg, channel) ==>
        reply == Silent && userStates == old(userStates) && todos == old(todos) && lastId == old(lastId)
      // index.js:47-75
      ensures !Ignored(msg, channel) && msg.authorId in old(userStates) ==>
        var u := msg.authorId;
        match old(userStates)[u]
        case WaitingName =>
          reply == AskDeadline && userStates == old(userStates)[u := WaitingDeadline(msg.content)]
          && todos == old(todos) && lastId == old(lastId)
        case WaitingDeadline(c) =>
          reply == AskPriority && userStates == old(userStates)[u := WaitingPriority(c, DeadlineOf(msg.content))]
          && todos == old(todos) && lastId == old(lastId)
        case WaitingPriority(c, d) =>
          var row := Todo(old(lastId) + 1, u, c, PriorityOf(msg.content), d, false);
          reply == Added(row) && userStates == old(userStates) - {u}
          && todos == old(todos) + [row] && lastId == old(lastId) + 1
          && (forall t :: t in old(todos) ==> t.id < row.id)
      // index.js:78-129
      ensures !Ignored(msg, channel) && msg.authorId !in old(userStates) ==>
        var u, text := msg.authorId, msg.content;
        var id := IdArgument(text);
        lastId == old(lastId) &&
        if text == ADD then
          reply == AskName && userStates == old(userStates)[u := WaitingName] && todos == old(todos)
        else if text == LIST then
          userStates == old(userStates) && todos == old(todos)
          && (reply == EmptyList <==> forall t :: t in old(todos) ==> t.userId != u)
          && (reply != EmptyList ==> reply.Listing? && IsListing(reply.rows, old(todos), u, julian))
        else if StartsWith(text, COMPLETE) then
          userStates == old(userStates) &&
          if IsFalsy(id) then reply == CompleteUsage && todos == old(todos)
          else if MatchCount(old(todos), id.value, u) == 0 then reply == NotFound(id.value) && todos == old(todos)
          else reply == MarkedDone(id.value) && todos == MarkDone(old(todos), id.value, u)
        else if StartsWith(text, DELETE) then
          userStates == old(userStates) &&
          if IsFalsy(id) then reply == DeleteUsage && todos == old(todos)
          else if MatchCount(old(todos), id.value, u) == 0 then reply == NotFound(id.value) && todos == old(todos)
          else reply == Deleted(id.value) && todos == DeleteMatching(old(todos), id.value, u)
        else
          reply == Silent && userStates == old(userStates) && todos == old(todos)
    {
      if Ignored(msg, channel) {
        return Silent;
      }
      var u := msg.authorId;
      if u in userStates {
        match userStates[u]
        case WaitingName =>
          userStates := userStates[u := WaitingDeadline(msg.content)];
          return AskDeadline;
        case WaitingDeadline(c) =>
          userStates := userStates[u := WaitingPriority(c, DeadlineOf(msg.content))];
          return AskPriority;
        case WaitingPriority(c, d) =>
          var row := Insert(u, c, PriorityOf(msg.content), d);
          userStates := userStates - {u};
          return Added(row);
      }
      if msg.content == ADD {
        userStates := userStates[u := WaitingName];
        return AskName;
      }
      if msg.content == LIST {
        reply := List(u, julian);
        return;
      }
      if StartsWith(msg.content, COMPLETE) {
        reply := Complete(u, msg.content);
        return;
      }
      if StartsWith(msg.content, DELETE) {
        reply := Delete(u, msg.content);
        return;
      }
      return Silent;
    }
  }
}
