/** The marketplace's route handlers as operations on one object that holds the tables of the
    SQLite file and the two session flags.  Each handler checks the session, then runs its INSERTs
    and UPDATEs; the read-only handlers are functions of the state. */
module Marketplace {
  import opened Tables
  import opened Uploads
  import opened Records
  import opened Chat
  import opened Access

  /** The upload loop of `add_project` and `request_project`: one child row per upload that has a
      filename, each holding the stored path of its sanitized name. */
  method SaveMedia(t: Table<Media>, owner: nat, ups: seq<Upload>) returns (r: Table<Media>)
    ensures r == InsertAll(t, MediaRows(owner, ups))
  {
    r := t;
    var i := 0;
    while i < |ups|
      invariant 0 <= i <= |ups|
      invariant r == InsertAll(t, MediaRows(owner, ups[..i]))
    {
      var up := ups[i];
      MediaRowsStep(owner, ups, i);
      if up.filename != "" {
        var m := Media(owner, StoredPath(up.safeName));
        InsertAllSnoc(t, MediaRows(owner, ups[..i]), m);
        r := Insert(r, m);
      } else {
        assert MediaRows(owner, ups[..i]) + [] == MediaRows(owner, ups[..i]);
      }
      i := i + 1;
    }
    assert ups[..|ups|] == ups;
  }

  class Store {
    var projects: Table<Project>
    var projectPhotos: Table<Media>
    var projectVideos: Table<Media>
    var orders: Table<Order>
    var requests: Table<Request>
    var requestPhotos: Table<Media>
    var requestVideos: Table<Media>
    var requestMessages: Table<Message>
    var orderMessages: Table<Message>
    var users: Table<Credential>
    var admins: Table<Credential>
    /** `session["admin"]`: the admin's user name, once logged in. */
    var admin: Option<string>
    /** `session["student"]`: the student's user name, once logged in. */
    var student: Option<string>

    /** The table invariants the handlers keep. */
    ghost predicate Valid()
      reads this
    {
      && Keyed(projects) && Keyed(orders) && Keyed(requests)
      && Keyed(requestMessages) && Keyed(orderMessages) && Keyed(users) && Keyed(admins)
      && MediaTable(projectPhotos, projects.nextId) && MediaTable(projectVideos, projects.nextId)
      && MediaTable(requestPhotos, requests.nextId) && MediaTable(requestVideos, requests.nextId)
      && ProjectFiles(projects.rows)
      && OneOrderPerPair(orders.rows)
      && AllConsistent(requests.rows)
    }

    /** A fresh database: every table empty except `admin`, which holds the seed accounts; no one
        is logged in. */
    constructor (accounts: seq<Credential>)
      ensures Valid()
      ensures admins == InsertAll(Empty(), accounts) && users == Empty()
      ensures projects == Empty() && projectPhotos == Empty() && projectVideos == Empty()
      ensures orders == Empty() && requests == Empty() && requestPhotos == Empty() && requestVideos == Empty()
      ensures requestMessages == Empty() && orderMessages == Empty()
      ensures admin.None? && student.None?
    {
      projects, projectPhotos, projectVideos := Empty(), Empty(), Empty();
      orders, requests, requestPhotos, requestVideos := Empty(), Empty(), Empty(), Empty();
      requestMessages, orderMessages := Empty(), Empty();
      users, admins := Empty(), InsertAll(Empty(), accounts);
      admin, student := None, None;
    }

    // ---------------- sessions ----------------

    /** `admin_login` (POST): the flag is set iff a matching admin row exists. */
    method AdminLogin(username: string, password: string) returns (r: Response)
      modifies this`admin
      ensures HasAccount(admins, username, password) ==> admin == Some(username) && r == Redirect("/admin_dashboard")
      ensures !HasAccount(admins, username, password) ==> admin == old(admin) && r == Page("admin_login.html")
    {
      var k := FirstIndex(admins.rows, Matching(username, password));
      if k.Some? {
        admin := Some(username);
        r := Redirect("/admin_dashboard");
      } else {
        r := Page("admin_login.html");
        assert forall i :: 0 <= i < |admins.rows| ==> !Matching(username, password)(admins.rows[i]);
      }
    }

    /** `student_login` (POST): the flag is set iff a matching user row exists. */
    method StudentLogin(username: string, password: string) returns (r: Response)
      modifies this`student
      ensures HasAccount(users, username, password) ==> student == Some(username) && r == Redirect("/")
      ensures !HasAccount(users, username, password) ==> student == old(student) && r == Page("student_login.html")
    {
      var k := FirstIndex(users.rows, Matching(username, password));
      if k.Some? {
        student := Some(username);
        r := Redirect("/");
      } else {
        r := Page("student_login.html");
        assert forall i :: 0 <= i < |users.rows| ==> !Matching(username, password)(users.rows[i]);
      }
    }

    /** `register` (POST): appends a user row; an existing user name is not checked for. */
    method Register(username: string, password: string) returns (r: Response)
      requires Valid()
      modifies this`users
      ensures Valid()
      ensures users == Insert(old(users), Credential(username, password))
      ensures r == Redirect("/student_login")
    {
      users := Insert(users, Credential(username, password));
      r := Redirect("/student_login");
    }

    /** `logout`: both flags are cleared. */
    method Logout() returns (r: Response)
      modifies this`admin, this`student
      ensures admin.None? && student.None?
      ensures r == Redirect("/")
    {
      student := None;
      admin := None;
      r := Redirect("/");
    }

    // ---------------- catalogue ----------------

    /** `add_project`: one project row, then its photo and video rows.  The handler checks no
        session flag.  When a named upload cannot be saved the handler raises (500) before
        `commit`, so its INSERTs are rolled back and no table changes. */
    method AddProject(info: ProjectInfo, file: Option<Upload>, photos: seq<Upload>, videos: seq<Upload>)
      returns (r: Response)
      requires Valid()
      requires file.Some? ==> '/' !in file.value.safeName
      requires Sanitized(photos) && Sanitized(videos)
      modifies this`projects, this`projectPhotos, this`projectVideos
      ensures Valid()
      ensures ProjectSaveFails(file, photos, videos) ==>
        r == Error(500) &&
        projects == old(projects) && projectPhotos == old(projectPhotos) && projectVideos == old(projectVideos)
      ensures !ProjectSaveFails(file, photos, videos) ==>
        r == Redirect("/admin_dashboard") &&
        projects == Insert(old(projects), Project(info, RecordedPath(file))) &&
        projectPhotos == InsertAll(old(projectPhotos), MediaRows(old(projects.nextId), photos)) &&
        projectVideos == InsertAll(old(projectVideos), MediaRows(old(projects.nextId), videos))
    {
      if ProjectSaveFails(file, photos, videos) {
        return Error(500);
      }
      var projectId := projects.nextId;
      MediaTableGrows(projectPhotos, projectId, projectId + 1);
      MediaTableGrows(projectVideos, projectId, projectId + 1);
      projects := Insert(projects, Project(info, RecordedPath(file)));
      SaveProjectPhotos(projectId, photos);
      SaveProjectVideos(projectId, videos);
      r := Redirect("/admin_dashboard");
    }

    /** The photo loop of `add_project`. */
    method SaveProjectPhotos(projectId: nat, photos: seq<Upload>)
      requires Valid()
      requires projectId < projects.nextId && Sanitized(photos)
      modifies this`projectPhotos
      ensures Valid()
      ensures projectPhotos == InsertAll(old(projectPhotos), MediaRows(projectId, photos))
    {
      SavedMediaTable(projectPhotos, projects.nextId, projectId, photos, projects.nextId);
      projectPhotos := SaveMedia(projectPhotos, projectId, photos);
    }

    /** The video loop of `add_project`. */
    method SaveProjectVideos(projectId: nat, videos: seq<Upload>)
      requires Valid()
      requires projectId < projects.nextId && Sanitized(videos)
      modifies this`projectVideos
      ensures Valid()
      ensures projectVideos == InsertAll(old(projectVideos), MediaRows(projectId, videos))
    {
      SavedMediaTable(projectVideos, projects.nextId, projectId, videos, projects.nextId);
      projectVideos := SaveMedia(projectVideos, projectId, videos);
    }

    /** `delete`: removes the project row with that id and no other row; its photo and video rows
        stay.  Without the admin flag nothing changes. */
    method Delete(id: nat) returns (r: Response)
      requires Valid()
      modifies this`projects
      ensures Valid()
      ensures admin.None? ==> r == Redirect("/admin_login") && projects == old(projects)
      ensures admin.Some? ==> r == Redirect("/") && projects == DeleteWhere(old(projects), ById(id))
      ensures admin.Some? ==> forall k :: 0 <= k < |projects.rows| ==>
        projects.rows[k].id != id && projects.rows[k] in old(projects.rows)
      ensures admin.Some? ==> forall k :: 0 <= k < |old(projects.rows)| && old(projects.rows)[k].id != id ==>
        old(projects.rows)[k] in projects.rows
    {
      if admin.None? {
        return Redirect("/admin_login");
      }
      projects := DeleteWhere(projects, ById(id));
      r := Redirect("/");
    }

    // ---------------- orders ----------------

    /** `submit_payment`: the order of this student for this project is set back to 'Pending' with
        the new transaction id, in place; when there is none, one 'Pending' order is appended. */
    method SubmitPayment(projectId: nat, txn: Option<string>) returns (r: Response)
      requires Valid()
      modifies this`orders
      ensures Valid()
      ensures student.None? ==> r == Redirect("/student_login") && orders == old(orders)
      ensures student.Some? ==> r == Redirect("/")
      ensures student.Some? ==>
        var k := FirstIndex(old(orders.rows), ForPair(projectId, student.value));
        (k.Some? ==>
          orders.nextId == old(orders.nextId) &&
          orders.rows == old(orders.rows)[k.value := Row(old(orders.rows)[k.value].id,
                                                          Repay(txn)(old(orders.rows)[k.value].val))]) &&
        (k.None? ==> orders == Insert(old(orders), Order(projectId, student.value, Pending, txn)))
    {
      if student.None? {
        return Redirect("/student_login");
      }
      var u := student.value;
      var existing := FirstIndex(orders.rows, ForPair(projectId, u));
      if existing.None? {
        InsertNewPair(orders, Order(projectId, u, Pending, txn));
        orders := Insert(orders, Order(projectId, u, Pending, txn));
      } else {
        PairSelectsOne(orders.rows, projectId, u);
        UpdateSingleRow(orders.rows, ForPair(projectId, u), Repay(txn), existing.value);
        UpdateKeepsPairs(orders.rows, ForPair(projectId, u), Repay(txn));
        orders := UpdateWhere(orders, ForPair(projectId, u), Repay(txn));
      }
      r := Redirect("/");
    }

    /** `confirm_payment`: the order with that id becomes 'Confirmed'; every other order is left as
        it was.  Without the admin flag nothing changes. */
    method ConfirmPayment(orderId: nat) returns (r: Response)
      requires Valid()
      modifies this`orders
      ensures Valid()
      ensures admin.None? ==> r == Redirect("/admin_login") && orders == old(orders)
      ensures admin.Some? ==> r == Redirect("/admin_orders") && orders.nextId == old(orders.nextId)
      ensures admin.Some? ==> OnlyRowChanged(old(orders.rows), orders.rows, orderId, Confirm)
    {
      if admin.None? {
        return Redirect("/admin_login");
      }
      UpdateKeepsPairs(orders.rows, ById(orderId), Confirm);
      UpdateByIdChangesOnlyTarget(orders, orderId, Confirm);
      orders := UpdateWhere(orders, ById(orderId), Confirm);
      r := Redirect("/admin_orders");
    }

    /** The student holds a confirmed order for the project. */
    ghost predicate PaidFor(projectId: nat, u: string)
      reads this
    {
      exists i :: 0 <= i < |orders.rows| && ForPair(projectId, u)(orders.rows[i]) && orders.rows[i].val.status == Confirmed
    }

    /** The project's row records a file that is in the upload folder. */
    ghost predicate ProjectFileOnServer(projectId: nat, files: set<string>)
      reads this
    {
      exists j :: 0 <= j < |projects.rows| && projects.rows[j].id == projectId
        && OnServer(Some(projects.rows[j].val.file), files)
    }

    /** `download`: the file only to a student whose order is confirmed, when the project records a
        file and the file is there (and then the name the project row records); 404 when the
        order is confirmed but the project, its path or its file is missing; 403 otherwise. */
    function Download(projectId: nat, files: set<string>): (r: Response)
      reads this
      requires Valid()
      ensures student.None? ==> r == Redirect("/student_login")
      ensures student.Some? ==> (r.SendFile? <==> PaidFor(projectId, student.value) && ProjectFileOnServer(projectId, files))
      ensures student.Some? ==> (r == Error(404) <==> PaidFor(projectId, student.value) && !ProjectFileOnServer(projectId, files))
      ensures student.Some? ==> (r == Error(403) <==> !PaidFor(projectId, student.value))
      ensures r.SendFile? ==> (exists j :: 0 <= j < |projects.rows| && projects.rows[j].id == projectId
                                 && projects.rows[j].val.file == StoredPath(r.filename))
    {
      if student.None? then Redirect("/student_login")
      else
        var k := FirstIndex(orders.rows, ForPair(projectId, student.value));
        var p := FirstIndex(projects.rows, ById(projectId));
        PairSelectsOne(orders.rows, projectId, student.value);
        KeyedIdsUnique(projects, projectId);
        var file := if p.Some? then Some(projects.rows[p.value].val.file) else None;
        if p.Some? && projects.rows[p.value].val.file != "" then
          StripStoredPath(projects.rows[p.value].val.file);
          DownloadDecision(if k.Some? then Some(orders.rows[k.value].val) else None, file, files)
        else
          DownloadDecision(if k.Some? then Some(orders.rows[k.value].val) else None, file, files)
    }

    // ---------------- custom requests ----------------

    /** `request_project` (POST): one new request row, 'Requested' with price 0, then one photo row
        per photo and one video row per video that has a filename, all pointing at the new id. */
    method RequestProject(form: RequestForm, photos: seq<Upload>, videos: seq<Upload>) returns (r: Response)
      requires Valid()
      requires Sanitized(photos) && Sanitized(videos)
      modifies this`requests, this`requestPhotos, this`requestVideos
      ensures Valid()
      ensures student.None? ==>
        r == Redirect("/student_login") &&
        requests == old(requests) && requestPhotos == old(requestPhotos) && requestVideos == old(requestVideos)
      ensures student.Some? && (SomeSaveFails(photos) || SomeSaveFails(videos)) ==>
        r == Error(500) &&
        requests == old(requests) && requestPhotos == old(requestPhotos) && requestVideos == old(requestVideos)
      ensures student.Some? && !SomeSaveFails(photos) && !SomeSaveFails(videos) ==>
        r == Redirect("/my_requests") &&
        requests == Insert(old(requests), NewRequest(student.value, form)) &&
        requestPhotos == InsertAll(old(requestPhotos), MediaRows(old(requests.nextId), photos)) &&
        requestVideos == InsertAll(old(requestVideos), MediaRows(old(requests.nextId), videos))
    {
      if student.None? {
        return Redirect("/student_login");
      }
      if SomeSaveFails(photos) || SomeSaveFails(videos) {
        return Error(500);
      }
      SaveRequest(student.value, form, photos, videos);
      r := Redirect("/my_requests");
    }

    /** The INSERTs of `request_project` for a logged-in student. */
    method SaveRequest(u: string, form: RequestForm, photos: seq<Upload>, videos: seq<Upload>)
      requires Valid()
      requires Sanitized(photos) && Sanitized(videos)
      modifies this`requests, this`requestPhotos, this`requestVideos
      ensures Valid()
      ensures requests == Insert(old(requests), NewRequest(u, form))
      ensures requestPhotos == InsertAll(old(requestPhotos), MediaRows(old(requests.nextId), photos))
      ensures requestVideos == InsertAll(old(requestVideos), MediaRows(old(requests.nextId), videos))
    {
      var requestId := requests.nextId;
      InsertKeepsConsistent(requests, NewRequest(u, form));
      MediaTableGrows(requestPhotos, requestId, requestId + 1);
      MediaTableGrows(requestVideos, requestId, requestId + 1);
      requests := Insert(requests, NewRequest(u, form));
      SaveRequestPhotos(requestId, photos);
      SaveRequestVideos(requestId, videos);
    }

    /** The photo loop of `request_project`. */
    method SaveRequestPhotos(requestId: nat, photos: seq<Upload>)
      requires Valid()
      requires requestId < requests.nextId && Sanitized(photos)
      modifies this`requestPhotos
      ensures Valid()
      ensures requestPhotos == InsertAll(old(requestPhotos), MediaRows(requestId, photos))
    {
      SavedMediaTable(requestPhotos, requests.nextId, requestId, photos, requests.nextId);
      requestPhotos := SaveMedia(requestPhotos, requestId, photos);
    }

    /** The video loop of `request_project`. */
    method SaveRequestVideos(requestId: nat, videos: seq<Upload>)
      requires Valid()
      requires requestId < requests.nextId && Sanitized(videos)
      modifies this`requestVideos
      ensures Valid()
      ensures requestVideos == InsertAll(old(requestVideos), MediaRows(requestId, videos))
    {
      SavedMediaTable(requestVideos, requests.nextId, requestId, videos, requests.nextId);
      requestVideos := SaveMedia(requestVideos, requestId, videos);
    }

    /** `submit_request_payment`: the request with that id gets the transaction id and 'Pending';
        no other row changes.  Which student owns the request is not checked. */
    method SubmitRequestPayment(requestId: nat, txn: Option<string>) returns (r: Response)
      requires Valid()
      modifies this`requests
      ensures Valid()
      ensures student.None? ==> r == Redirect("/student_login") && requests == old(requests)
      ensures student.Some? ==> r == Redirect("/my_requests") && requests.nextId == old(requests.nextId)
      ensures student.Some? ==> OnlyRowChanged(old(requests.rows), requests.rows, requestId, PayRequest(txn))
    {
      if student.None? {
        return Redirect("/student_login");
      }
      LifecycleStepsConsistent(txn, 0, StoredPath(""));
      UpdateKeepsConsistent(requests.rows, ById(requestId), PayRequest(txn));
      UpdateByIdChangesOnlyTarget(requests, requestId, PayRequest(txn));
      requests := UpdateWhere(requests, ById(requestId), PayRequest(txn));
      r := Redirect("/my_requests");
    }

    /** `admin_set_price`: the request with that id gets the price and 'Price Set'; no other row
        changes. */
    method AdminSetPrice(requestId: nat, price: int) returns (r: Response)
      requires Valid()
      modifies this`requests
      ensures Valid()
      ensures admin.None? ==> r == Redirect("/admin_login") && requests == old(requests)
      ensures admin.Some? ==> r == Redirect("/admin_requests") && requests.nextId == old(requests.nextId)
      ensures admin.Some? ==> OnlyRowChanged(old(requests.rows), requests.rows, requestId, SetPrice(price))
    {
      if admin.None? {
        return Redirect("/admin_login");
      }
      LifecycleStepsConsistent(None, price, StoredPath(""));
      UpdateKeepsConsistent(requests.rows, ById(requestId), SetPrice(price));
      UpdateByIdChangesOnlyTarget(requests, requestId, SetPrice(price));
      requests := UpdateWhere(requests, ById(requestId), SetPrice(price));
      r := Redirect("/admin_requests");
    }

    /** `admin_complete_request`: only when a final file with a filename is sent does the request
        with that id record its stored path and become 'Completed'; otherwise nothing changes.  A
        file that cannot be saved raises (500) before the UPDATE. */
    method AdminCompleteRequest(requestId: nat, finalFile: Option<Upload>) returns (r: Response)
      requires Valid()
      requires finalFile.Some? ==> '/' !in finalFile.value.safeName
      modifies this`requests
      ensures Valid()
      ensures admin.None? ==> r == Redirect("/admin_login") && requests == old(requests)
      ensures admin.Some? && (finalFile.None? || finalFile.value.filename == "") ==>
        r == Redirect("/admin_requests") && requests == old(requests)
      ensures admin.Some? && finalFile.Some? && SaveFails(finalFile.value) ==>
        r == Error(500) && requests == old(requests)
      ensures admin.Some? && finalFile.Some? && finalFile.value.filename != "" && !SaveFails(finalFile.value) ==>
        r == Redirect("/admin_requests") && requests.nextId == old(requests.nextId) &&
        OnlyRowChanged(old(requests.rows), requests.rows, requestId, Complete(StoredPath(finalFile.value.safeName)))
    {
      if admin.None? {
        return Redirect("/admin_login");
      }
      if finalFile.Some? && SaveFails(finalFile.value) {
        return Error(500);
      }
      if finalFile.Some? && finalFile.value.filename != "" {
        var path := StoredPath(finalFile.value.safeName);
        assert path[|Prefix|..] == finalFile.value.safeName;
        LifecycleStepsConsistent(None, 0, path);
        UpdateKeepsConsistent(requests.rows, ById(requestId), Complete(path));
        UpdateByIdChangesOnlyTarget(requests, requestId, Complete(path));
        requests := UpdateWhere(requests, ById(requestId), Complete(path));
      }
      r := Redirect("/admin_requests");
    }

    /** The request with that id is 'Completed' and records a file that is in the folder. */
    ghost predicate RequestFileOnServer(requestId: nat, files: set<string>)
      reads this
    {
      exists i :: 0 <= i < |requests.rows| && requests.rows[i].id == requestId
        && requests.rows[i].val.status == Completed && OnServer(requests.rows[i].val.finalFile, files)
    }

    /** The request with that id is 'Completed' and records a non-empty final file. */
    ghost predicate RequestFileRecorded(requestId: nat)
      reads this
    {
      exists i :: 0 <= i < |requests.rows| && requests.rows[i].id == requestId
        && requests.rows[i].val.status == Completed && requests.rows[i].val.finalFile.Some?
        && requests.rows[i].val.finalFile.value != ""
    }

    /** `download_request`: the final file when the request is completed and its file is there
        (under the name the request row records), 404 when it is recorded but missing, 403 otherwise.
        Any logged-in student gets the same answer: ownership is not checked. */
    function DownloadRequest(requestId: nat, files: set<string>): (r: Response)
      reads this
      requires Valid()
      ensures student.None? ==> r == Redirect("/student_login")
      ensures student.Some? ==> (r.SendFile? <==> RequestFileOnServer(requestId, files))
      ensures student.Some? ==> (r == Error(404) <==> RequestFileRecorded(requestId) && !RequestFileOnServer(requestId, files))
      ensures student.Some? ==> (r == Error(403) <==> !RequestFileRecorded(requestId))
      ensures r.SendFile? ==> (exists i :: 0 <= i < |requests.rows| && requests.rows[i].id == requestId
                                 && requests.rows[i].val.finalFile == Some(StoredPath(r.filename)))
    {
      if student.None? then Redirect("/student_login")
      else
        var k := FirstIndex(requests.rows, ById(requestId));
        KeyedIdsUnique(requests, requestId);
        if k.Some? && requests.rows[k.value].val.status == Completed then
          StripStoredPath(requests.rows[k.value].val.finalFile.value);
          RequestDownloadDecision(Some(requests.rows[k.value].val), files)
        else
          RequestDownloadDecision(if k.Some? then Some(requests.rows[k.value].val) else None, files)
    }

    // ---------------- chat ----------------

    /** `send_message`: 401 without a session, 400 on a blank message, else exactly one row is
        appended to `request_messages`, sent by the student if one is logged in, else by "Admin". */
    method SendMessage(requestId: nat, message: Option<string>, now: nat) returns (r: Response)
      requires Valid()
      modifies this`requestMessages
      ensures Valid()
      ensures admin.None? && student.None? ==> r == Error(401) && requestMessages == old(requestMessages)
      ensures (admin.Some? || student.Some?) && Blank(message) ==> r == Error(400) && requestMessages == old(requestMessages)
      ensures (admin.Some? || student.Some?) && !Blank(message) ==>
        r == Success &&
        requestMessages == Insert(old(requestMessages), Message(requestId, SenderName(student), message.value, now))
    {
      if admin.None? && student.None? {
        return Error(401);
      }
      var sender := SenderName(student);
      if Blank(message) {
        return Error(400);
      }
      requestMessages := Insert(requestMessages, Message(requestId, sender, message.value, now));
      r := Success;
    }

    /** `send_order_message`: the same as `send_message`, on `order_messages`. */
    method SendOrderMessage(orderId: nat, message: Option<string>, now: nat) returns (r: Response)
      requires Valid()
      modifies this`orderMessages
      ensures Valid()
      ensures admin.None? && student.None? ==> r == Error(401) && orderMessages == old(orderMessages)
      ensures (admin.Some? || student.Some?) && Blank(message) ==> r == Error(400) && orderMessages == old(orderMessages)
      ensures (admin.Some? || student.Some?) && !Blank(message) ==>
        r == Success &&
        orderMessages == Insert(old(orderMessages), Message(orderId, SenderName(student), message.value, now))
    {
      if admin.None? && student.None? {
        return Error(401);
      }
      var sender := SenderName(student);
      if Blank(message) {
        return Error(400);
      }
      orderMessages := Insert(orderMessages, Message(orderId, sender, message.value, now));
      r := Success;
    }

    /** `get_messages`: 401 without a session, else exactly the rows of that request's thread, in
        timestamp order. */
    function GetMessages(requestId: nat): (r: Response)
      reads this
      ensures admin.None? && student.None? ==> r == Error(401)
      ensures admin.Some? || student.Some? ==> r.MessageList? && ByTime(r.rows)
      ensures r.MessageList? ==> forall x :: x in r.rows <==> x in requestMessages.rows && x.val.threadId == requestId
      ensures r.MessageList? ==> multiset(r.rows) == multiset(Where(requestMessages.rows, InThread(requestId)))
      ensures r.MessageList? ==>
        forall x :: multiset(r.rows)[x] == if x.val.threadId == requestId then multiset(requestMessages.rows)[x] else 0
    {
      if admin.None? && student.None? then Error(401)
      else
        ThreadIsTheThread(requestMessages, requestId);
        MessageList(Thread(requestMessages, requestId))
    }

    /** `get_order_messages`: 401 without a session, else exactly the rows of that order's thread,
        in timestamp order. */
    function GetOrderMessages(orderId: nat): (r: Response)
      reads this
      ensures admin.None? && student.None? ==> r == Error(401)
      ensures admin.Some? || student.Some? ==> r.MessageList? && ByTime(r.rows)
      ensures r.MessageList? ==> forall x :: x in r.rows <==> x in orderMessages.rows && x.val.threadId == orderId
      ensures r.MessageList? ==> multiset(r.rows) == multiset(Where(orderMessages.rows, InThread(orderId)))
      ensures r.MessageList? ==>
        forall x :: multiset(r.rows)[x] == if x.val.threadId == orderId then multiset(orderMessages.rows)[x] else 0
    {
      if admin.None? && student.None? then Error(401)
      else
        ThreadIsTheThread(orderMessages, orderId);
        MessageList(Thread(orderMessages, orderId))
    }
  }
}
