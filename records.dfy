/** The rows of the marketplace's tables, the responses of its routes, and the column updates its
    UPDATE statements perform. */
module Records {
  import opened Tables
  import opened Uploads

  /** The `status` column of `orders`: the handlers write only 'Pending' and 'Confirmed'. */
  datatype OrderStatus = Pending | Confirmed

  /** A row of `orders`: which project, which student, how far the payment went, and the
      transaction id the student typed in (`request.form.get` may give none). */
  datatype Order = Order(projectId: nat, student: string, status: OrderStatus, txn: Option<string>)

  /** The `status` column of `project_requests`: 'Requested', 'Pending', 'Price Set', 'Completed'. */
  datatype RequestStatus = Requested | PaymentPending | PriceSet | Completed

  /** The text columns a student fills in when asking for a custom project. */
  datatype RequestForm = RequestForm(
    title: string, description: string, problemStatement: string,
    objectives: string, outcomes: string, outputIdea: string)

  /** A row of `project_requests`. */
  datatype Request = Request(
    student: string, form: RequestForm, price: int, status: RequestStatus,
    txn: Option<string>, finalFile: Option<string>)

  /** The columns of `projects` that the admin's form supplies. */
  datatype ProjectInfo = ProjectInfo(
    title: string, price: int, description: string, problemStatement: string,
    objectives: string, outcomes: string, technologies: string)

  /** A row of `projects`; `file` is the stored path of the project file, or "" when none was sent. */
  datatype Project = Project(info: ProjectInfo, file: string)

  /** A row of `users` or `admin`. */
  datatype Credential = Credential(username: string, password: string)

  /** A row of `request_messages` (thread = request id) or `order_messages` (thread = order id). */
  datatype Message = Message(threadId: nat, sender: string, text: string, timestamp: nat)

  /** What a route hands back to the browser. */
  datatype Response =
    | Redirect(location: string)
    | Page(template: string)
    | SendFile(filename: string)
    | Error(code: nat)
    | Success
    | MessageList(rows: seq<Row<Message>>)

  /** The row a new custom request gets: the columns left out of the INSERT take their defaults,
      price 0 and status 'Requested'; transaction id and final file are NULL. */
  function NewRequest(student: string, form: RequestForm): (r: Request)
    ensures r.status == Requested && r.price == 0 && r.txn.None? && r.finalFile.None?
    ensures r.student == student && r.form == form
  {
    Request(student, form, 0, Requested, None, None)
  }

  /** `WHERE project_id=? AND student_username=?` */
  function ForPair(projectId: nat, student: string): Row<Order> -> bool {
    (r: Row<Order>) => r.val.projectId == projectId && r.val.student == student
  }

  /** `WHERE username=? AND password=?` */
  function Matching(username: string, password: string): Row<Credential> -> bool {
    (r: Row<Credential>) => r.val == Credential(username, password)
  }

  /** `WHERE request_id=?` on `request_messages`, `WHERE order_id=?` on `order_messages`. */
  function InThread(id: nat): Row<Message> -> bool {
    (r: Row<Message>) => r.val.threadId == id
  }

  /** `SET status='Pending', transaction_id=?` on an order: project and student stay. */
  function Repay(txn: Option<string>): (f: Order -> Order)
    ensures forall o: Order :: f(o).status == Pending && f(o).txn == txn
    ensures forall o: Order :: f(o).projectId == o.projectId && f(o).student == o.student
  {
    (o: Order) => o.(status := Pending, txn := txn)
  }

  /** `SET status='Confirmed'` on an order: every other column stays. */
  function Confirm(o: Order): (r: Order)
    ensures r.status == Confirmed
    ensures r.projectId == o.projectId && r.student == o.student && r.txn == o.txn
  {
    o.(status := Confirmed)
  }

  /** `SET transaction_id=?, status='Pending'` on a request: price, form and final file stay. */
  function PayRequest(txn: Option<string>): (f: Request -> Request)
    ensures forall q: Request :: f(q).status == PaymentPending && f(q).txn == txn
    ensures forall q: Request ::
      f(q).price == q.price && f(q).finalFile == q.finalFile && f(q).student == q.student && f(q).form == q.form
  {
    (q: Request) => q.(txn := txn, status := PaymentPending)
  }

  /** `SET price=?, status='Price Set'` on a request: transaction id, form and final file stay. */
  function SetPrice(price: int): (f: Request -> Request)
    ensures forall q: Request :: f(q).status == PriceSet && f(q).price == price
    ensures forall q: Request ::
      f(q).txn == q.txn && f(q).finalFile == q.finalFile && f(q).student == q.student && f(q).form == q.form
  {
    (q: Request) => q.(price := price, status := PriceSet)
  }

  /** `SET final_file=?, status='Completed'` on a request: price, transaction id and form stay. */
  function Complete(path: string): (f: Request -> Request)
    ensures forall q: Request :: f(q).status == Completed && f(q).finalFile == Some(path)
    ensures forall q: Request ::
      f(q).price == q.price && f(q).txn == q.txn && f(q).student == q.student && f(q).form == q.form
  {
    (q: Request) => q.(finalFile := Some(path), status := Completed)
  }

  /** What the upsert in `submit_payment` relies on: no two orders share a (project, student) pair. */
  ghost predicate OneOrderPerPair(rows: seq<Row<Order>>) {
    forall i, j :: 0 <= i < j < |rows| ==>
      !(rows[i].val.projectId == rows[j].val.projectId && rows[i].val.student == rows[j].val.student)
  }

  /** What the request lifecycle keeps: a request still 'Requested' has price 0 and nothing else
      set; a 'Completed' request records the stored path of a sanitized final file. */
  ghost predicate Consistent(r: Request) {
    (r.status == Requested ==> r.price == 0 && r.txn.None? && r.finalFile.None?) &&
    (r.status == Completed ==> r.finalFile.Some? && IsStoredPath(r.finalFile.value))
  }

  ghost predicate AllConsistent(rows: seq<Row<Request>>) {
    forall i :: 0 <= i < |rows| ==> Consistent(rows[i].val)
  }

  /** A child table of photos or videos: keyed, every row points at an owner id the parent table
      has handed out (deleting the owner leaves the row in place), and every path is a stored path. */
  ghost predicate MediaTable(t: Table<Media>, owners: nat) {
    Keyed(t) && forall i :: 0 <= i < |t.rows| ==> t.rows[i].val.ownerId < owners && IsStoredPath(t.rows[i].val.path)
  }

  /** Every project file column is empty or a stored path. */
  ghost predicate ProjectFiles(rows: seq<Row<Project>>) {
    forall i :: 0 <= i < |rows| ==> rows[i].val.file == "" || IsStoredPath(rows[i].val.file)
  }

  /** The upload loops keep a child table well formed when the owner id has been handed out. */
  lemma SavedMediaTable(t: Table<Media>, owners: nat, owner: nat, ups: seq<Upload>, bound: nat)
    requires MediaTable(t, owners) && owners <= bound && owner < bound && Sanitized(ups)
    ensures MediaTable(InsertAll(t, MediaRows(owner, ups)), bound)
  {
    var r := InsertAll(t, MediaRows(owner, ups));
    MediaRowsAreNamedUploads(owner, ups);
    MediaPathsRoundTrip(owner, ups);
    forall i | 0 <= i < |r.rows| ensures r.rows[i].val.ownerId < bound && IsStoredPath(r.rows[i].val.path) {
      if i < |t.rows| {
        assert r.rows[i] == r.rows[..|t.rows|][i] == t.rows[i];
      } else {
        assert r.rows[i] == Row(t.nextId + (i - |t.rows|), MediaRows(owner, ups)[i - |t.rows|]);
      }
    }
  }

  /** A child table stays well formed as its parent hands out more ids. */
  lemma MediaTableGrows(t: Table<Media>, owners: nat, bound: nat)
    requires MediaTable(t, owners) && owners <= bound
    ensures MediaTable(t, bound)
  {
  }

  /** The account rows matching a login form exist. */
  ghost predicate HasAccount(t: Table<Credential>, username: string, password: string) {
    exists i :: 0 <= i < |t.rows| && Matching(username, password)(t.rows[i])
  }

  /** Under the pair invariant the lookup of `submit_payment` and `download` picks at most one row. */
  lemma PairSelectsOne(rows: seq<Row<Order>>, projectId: nat, student: string)
    requires OneOrderPerPair(rows)
    ensures AtMostOne(rows, ForPair(projectId, student))
  {
  }

  /** Inserting an order for a pair that has none keeps one order per pair. */
  lemma InsertNewPair(t: Table<Order>, o: Order)
    requires OneOrderPerPair(t.rows)
    requires FirstIndex(t.rows, ForPair(o.projectId, o.student)).None?
    ensures OneOrderPerPair(Insert(t, o).rows)
  {
    var r := Insert(t, o).rows;
    forall i, j | 0 <= i < j < |r|
      ensures !(r[i].val.projectId == r[j].val.projectId && r[i].val.student == r[j].val.student)
    {
      assert r[i] == t.rows[i];
      if j < |t.rows| {
        assert r[j] == t.rows[j];
      } else {
        assert !ForPair(o.projectId, o.student)(t.rows[i]);
      }
    }
  }

  /** An update that leaves project and student alone keeps one order per pair. */
  lemma UpdateKeepsPairs(rows: seq<Row<Order>>, sel: Row<Order> -> bool, f: Order -> Order)
    requires OneOrderPerPair(rows)
    requires forall o: Order :: f(o).projectId == o.projectId && f(o).student == o.student
    ensures OneOrderPerPair(UpdatedRows(rows, sel, f))
  {
    var r := UpdatedRows(rows, sel, f);
    forall i, j | 0 <= i < j < |r|
      ensures !(r[i].val.projectId == r[j].val.projectId && r[i].val.student == r[j].val.student)
    {
      assert r[i].val.projectId == rows[i].val.projectId && r[i].val.student == rows[i].val.student;
      assert r[j].val.projectId == rows[j].val.projectId && r[j].val.student == rows[j].val.student;
    }
  }

  /** An update that keeps every request consistent keeps the table consistent. */
  lemma UpdateKeepsConsistent(rows: seq<Row<Request>>, sel: Row<Request> -> bool, f: Request -> Request)
    requires AllConsistent(rows)
    requires forall q: Request :: Consistent(f(q))
    ensures AllConsistent(UpdatedRows(rows, sel, f))
  {
    var r := UpdatedRows(rows, sel, f);
    forall i | 0 <= i < |r| ensures Consistent(r[i].val) {
      if sel(rows[i]) {
        assert r[i].val == f(rows[i].val);
      } else {
        assert r[i] == rows[i];
      }
    }
  }

  /** Appending a consistent request keeps the table consistent. */
  lemma InsertKeepsConsistent(t: Table<Request>, q: Request)
    requires AllConsistent(t.rows) && Consistent(q)
    ensures AllConsistent(Insert(t, q).rows)
  {
    var r := Insert(t, q).rows;
    forall i | 0 <= i < |r| ensures Consistent(r[i].val) {
      if i < |t.rows| {
        assert r[i] == r[..|t.rows|][i];
      }
    }
  }

  /** Each step of the lifecycle produces a consistent request, whatever the request was before;
      completing needs a stored path. */
  lemma LifecycleStepsConsistent(txn: Option<string>, price: int, path: string)
    requires IsStoredPath(path)
    ensures forall q: Request :: Consistent(PayRequest(txn)(q)) && Consistent(SetPrice(price)(q))
    ensures forall q: Request :: Consistent(Complete(path)(q)) && Complete(path)(q).finalFile == Some(path)
  {
  }
}
