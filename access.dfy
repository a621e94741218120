/** The two download decisions.  Once the route knows a student is logged in, the answer depends
    only on what the database holds and on which files are present in the upload folder (`files`,
    the names `os.path.exists` would find there). */
module Access {
  import opened Tables
  import opened Uploads
  import opened Records

  predicate IsConfirmed(order: Option<Order>) {
    order.Some? && order.value.status == Confirmed
  }

  /** A recorded path that is not empty and whose file is in the folder. */
  predicate OnServer(path: Option<string>, files: set<string>) {
    path.Some? && path.value != "" && StripPrefix(path.value) in files
  }

  /** `download`: `order` is the student's order for the project, `projectFile` the project's
      `project_file` column (None when the project row is gone). */
  function DownloadDecision(order: Option<Order>, projectFile: Option<string>, files: set<string>): (r: Response)
    ensures r.SendFile? <==> IsConfirmed(order) && OnServer(projectFile, files)
    ensures r.SendFile? ==> r.filename == StripPrefix(projectFile.value)
    ensures r == Error(404) <==> IsConfirmed(order) && !OnServer(projectFile, files)
    ensures r == Error(403) <==> !IsConfirmed(order)
  {
    if order.Some? && order.value.status == Confirmed then
      if projectFile.Some? && projectFile.value != "" then
        var filename := StripPrefix(projectFile.value);
        if filename in files then SendFile(filename) else Error(404)
      else Error(404)
    else Error(403)
  }

  /** `download_request`: `request` is the request row, if there is one. */
  function RequestDownloadDecision(request: Option<Request>, files: set<string>): (r: Response)
    ensures r.SendFile? <==> request.Some? && request.value.status == Completed && OnServer(request.value.finalFile, files)
    ensures r.SendFile? ==> r.filename == StripPrefix(request.value.finalFile.value)
    ensures r == Error(404) <==>
      request.Some? && request.value.status == Completed && request.value.finalFile.Some?
      && request.value.finalFile.value != "" && StripPrefix(request.value.finalFile.value) !in files
    ensures r == Error(403) <==>
      !(request.Some? && request.value.status == Completed && request.value.finalFile.Some? && request.value.finalFile.value != "")
  {
    if request.Some? && request.value.status == Completed && request.value.finalFile.Some? && request.value.finalFile.value != "" then
      var filename := StripPrefix(request.value.finalFile.value);
      if filename in files then SendFile(filename) else Error(404)
    else Error(403)
  }

  /** A confirmed order for a project whose file was recorded under a sanitized name is sent
      that name, provided the folder holds a file under it; otherwise 404.  The folder is shared, so
      the file under that name is the one saved last with it. */
  lemma ConfirmedOrderGetsUploadedFile(o: Order, name: string, files: set<string>)
    requires '/' !in name
    ensures DownloadDecision(Some(Confirm(o)), Some(StoredPath(name)), files)
      == if name in files then SendFile(name) else Error(404)
  {
    StoredPathRoundTrip(name);
  }

  /** Whatever else an order holds, while it is only 'Pending' the file stays locked. */
  lemma PendingOrderIsDenied(o: Order, txn: Option<string>, projectFile: Option<string>, files: set<string>)
    ensures DownloadDecision(Some(Repay(txn)(o)), projectFile, files) == Error(403)
  {
  }

  /** Completing a request with a sanitized final file makes its name downloadable, provided the
      folder holds a file under it; otherwise 404. */
  lemma CompletedRequestGetsFinalFile(q: Request, name: string, files: set<string>)
    requires '/' !in name
    ensures RequestDownloadDecision(Some(Complete(StoredPath(name))(q)), files)
      == if name in files then SendFile(name) else Error(404)
  {
    StoredPathRoundTrip(name);
  }

  /** A later payment or a new price takes the request out of 'Completed' and locks the final
      file again, though the row still records it: the source does not order the transitions. */
  lemma LaterStepsRelockRequest(q: Request, txn: Option<string>, price: int, files: set<string>)
    ensures RequestDownloadDecision(Some(PayRequest(txn)(q)), files) == Error(403)
    ensures RequestDownloadDecision(Some(SetPrice(price)(q)), files) == Error(403)
    ensures PayRequest(txn)(q).finalFile == q.finalFile && SetPrice(price)(q).finalFile == q.finalFile
  {
  }
}
