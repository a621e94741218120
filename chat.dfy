/** The two chat logs, `request_messages` and `order_messages`: rows are only ever appended, and a
    read returns the rows of one thread ordered by their timestamp (`ORDER BY timestamp ASC`). */
module Chat {
  import opened Tables
  import opened Records

  /** The sender column: the student's user name when a student is logged in, else "Admin". */
  function SenderName(student: Option<string>): (s: string)
    ensures student.Some? ==> s == student.value
    ensures student.None? ==> s == "Admin"
  {
    if student.Some? then student.value else "Admin"
  }

  /** A message body the send routes refuse (`if not message`): missing or empty.  Whatever they
      accept has at least one character. */
  predicate Blank(message: Option<string>): (b: bool)
    ensures !b <==> message.Some? && |message.value| > 0
  {
    message.None? || message.value == ""
  }

  /** Rows in non-decreasing timestamp order. */
  ghost predicate ByTime(rows: seq<Row<Message>>) {
    forall i, j :: 0 <= i < j < |rows| ==> rows[i].val.timestamp <= rows[j].val.timestamp
  }

  /** A row no later than the first of a sorted list can go in front of it. */
  lemma ByTimeCons(x: Row<Message>, rows: seq<Row<Message>>)
    requires ByTime(rows) && (rows == [] || x.val.timestamp <= rows[0].val.timestamp)
    ensures ByTime([x] + rows)
  {
  }

  /** Puts `m` in front of the first row that is later than it. */
  function InsertByTime(m: Row<Message>, rows: seq<Row<Message>>): (r: seq<Row<Message>>)
    requires ByTime(rows)
    ensures ByTime(r)
    ensures multiset(r) == multiset(rows) + multiset{m}
    ensures r != [] && (r[0] == m || (rows != [] && r[0] == rows[0]))
  {
    if rows == [] then [m]
    else if m.val.timestamp <= rows[0].val.timestamp then
      ByTimeCons(m, rows);
      [m] + rows
    else
      assert rows == [rows[0]] + rows[1..];
      var rest := InsertByTime(m, rows[1..]);
      ByTimeCons(rows[0], rest);
      [rows[0]] + rest
  }

  /** The rows of a query result sorted by timestamp (an insertion sort; rows with equal
      timestamps keep their row order). */
  function SortByTime(rows: seq<Row<Message>>): (r: seq<Row<Message>>)
    ensures ByTime(r)
    ensures multiset(r) == multiset(rows)
  {
    if rows == [] then []
    else
      assert rows == [rows[0]] + rows[1..];
      InsertByTime(rows[0], SortByTime(rows[1..]))
  }

  /** The answer of `get_messages` / `get_order_messages` for a thread. */
  function Thread(log: Table<Message>, id: nat): (r: seq<Row<Message>>)
    ensures ByTime(r)
    ensures multiset(r) == multiset(Where(log.rows, InThread(id)))
  {
    SortByTime(Where(log.rows, InThread(id)))
  }

  /** A thread read holds exactly the rows of the log that belong to that thread, each as often as
      the log holds it. */
  lemma ThreadIsTheThread(log: Table<Message>, id: nat)
    ensures forall x :: multiset(Thread(log, id))[x] == if x.val.threadId == id then multiset(log.rows)[x] else 0
    ensures forall x :: x in Thread(log, id) <==> x in log.rows && x.val.threadId == id
  {
    WhereCounts(log.rows, InThread(id));
    var t := Thread(log, id);
    forall x ensures x in t <==> x in log.rows && x.val.threadId == id {
      assert x in t <==> multiset(t)[x] > 0;
      assert x in log.rows <==> multiset(log.rows)[x] > 0;
    }
  }

  /** Appending a message to one thread leaves the reads of every other thread as they were. */
  lemma AppendLeavesOtherThreads(log: Table<Message>, m: Message, id: nat)
    requires m.threadId != id
    ensures Where(Insert(log, m).rows, InThread(id)) == Where(log.rows, InThread(id))
  {
    WhereAppendUnselected(log.rows, Row(log.nextId, m), InThread(id));
  }

  /** Appending a message to a thread adds it to that thread's reads and nothing else. */
  lemma AppendJoinsThread(log: Table<Message>, m: Message)
    ensures Where(Insert(log, m).rows, InThread(m.threadId))
      == Where(log.rows, InThread(m.threadId)) + [Row(log.nextId, m)]
  {
    WhereAppendSelected(log.rows, Row(log.nextId, m), InThread(m.threadId));
  }
}
