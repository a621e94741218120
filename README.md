# project_store marketplace — a Dafny model of its route handlers

`app.py` is a Flask application in which an admin sells student projects. Students pay for
catalogue projects by typing in a UPI transaction id. They can also ask for custom projects,
which the admin prices and completes by uploading a final file. Both sides chat about an order
or a request. Every handler reads the session, then runs a few SQLite statements.

This model reads the SQLite file as one object, `Marketplace.Store`. Its fields are:
- the tables, each a sequence of rows in rowid order plus the AUTOINCREMENT counter;
- the two session flags, `admin` and `student`.

Each POST or state-changing handler is a method of the class. It checks the flags the handler
checks, then performs the handler's INSERTs, UPDATEs and DELETEs. Its `modifies` clause names
the only tables it may touch. The read-only handlers `download`, `download_request`,
`get_messages` and `get_order_messages` are functions of the state.

Modules:
- `Tables` (tables.dfy): rows, tables and the SQL statements as functions.
  - INSERT appends a row with the next id.
  - `UPDATE … WHERE` rewrites the selected rows.
  - `DELETE … WHERE` filters rows.
  - `SELECT … WHERE` and `fetchone()` pick rows.
  - A WHERE clause is a selector on rows.
- `Uploads` (uploads.dfy):
  - the stored path `"uploads/" + name`;
  - Python's `str.replace`, used to strip it;
  - the upload loops that add one child row per named photo or video.
- `Records` (records.dfy): the row types, the route responses, the column updates, and the
  invariants the handlers keep.
- `Chat` (chat.dfy): the message logs, and thread reads ordered by timestamp.
- `Access` (access.dfy): the two download decisions as pure functions of the rows involved and
  of the set of files present in the upload folder.
- `Marketplace` (store.dfy): the `Store` class, its invariant `Valid()`, the handlers, and the
  upload loop `SaveMedia`.

`Valid()` is the invariant every handler keeps:
- every table is keyed: ids are increasing and below the counter;
- every photo and video row points at an id its parent table has handed out, and holds a stored
  path;
- every project's file column is empty or a stored path, which is what
  Marketplace.Store.Download relies on to strip `uploads/`;
- at most one order exists per (project, student);
- every custom request is consistent:
  - a 'Requested' row has price 0, no transaction id and no final file;
  - a 'Completed' row records the stored path of a sanitized final file.

## Model

| member | source | states |
|---|---|---|
| Tables.Insert | app.py:180-182 | INSERT appends one row after all others, with the requested columns and the counter's id (`lastrowid`), which no existing row has, and advances the counter by one; a keyed table stays keyed |
| Tables.InsertAll | app.py:186-192 | a sequence of INSERTs appends the values in order with consecutive ids from the counter, and keeps the table keyed |
| Tables.Where | app.py:536-537 | SELECT … WHERE returns only rows of the table that the clause selects, and every selected row |
| Tables.WhereCounts | app.py:536-537 | SELECT … WHERE returns each selected row as many times as the table holds it, and no other row |
| Tables.FirstIndex | app.py:287-288 | `fetchone()` finds nothing iff no row is selected; otherwise it gives the first selected row |
| Tables.UpdatedRows | app.py:294-295 | UPDATE … WHERE keeps length and ids, rewrites every selected row with the SET clause and leaves every other row as it was |
| Tables.UpdateWhere | app.py:294-295 | UPDATE keeps the counter and the row count, and keeps the table keyed |
| Tables.DeleteWhere | app.py:218 | DELETE keeps exactly the unselected rows, does not move the counter (ids are never reused) and keeps the table keyed |
| Tables.WhereKeepsOrder | app.py:218 | filtering rows preserves increasing ids |
| Tables.UpdateByIdChangesOnlyTarget | app.py:470 | `UPDATE … WHERE id=?` rewrites the row with that id and leaves every other row unchanged |
| Tables.UpdateSingleRow | app.py:294-295 | when the WHERE clause selects at most one row, UPDATE is a single-position update of that row |
| Tables.KeyedIdsUnique | app.py:34 | in a keyed table `WHERE id=?` selects at most one row |
| Tables.WhereAppendUnselected | app.py:523-524 | appending a row outside the WHERE clause leaves the query result unchanged |
| Tables.WhereAppendSelected | app.py:523-524 | appending a selected row adds it at the end of the query result |
| Uploads.Replace | app.py:395 | `str.replace` produces only characters of the string or of the replacement, and with an empty replacement never makes the string longer |
| Uploads.ReplaceAbsent | app.py:501 | `replace` leaves a string that lacks a character of the pattern unchanged |
| Uploads.StoredPath | app.py:177 | the stored path is `uploads/` followed by the name; for a name without '/' it is a stored path |
| Uploads.StripPrefix | app.py:501 | `replace('uploads/', '')` turns a stored path into its name part, and never yields a character the path lacks |
| Uploads.StoredPathRoundTrip | app.py:177 | for a name without '/', stripping `uploads/` from `"uploads/" + name` gives the name back |
| Uploads.StripStoredPath | app.py:501 | a stored path strips to its name part and is the stored path of that part |
| Uploads.UnsanitizedNameIsNotRecovered | app.py:395 | without sanitizing, the round trip fails: `"uploads/" + "uploads/a"` strips to `"a"` |
| Uploads.RecordedPath | app.py:172-177 | the `project_file` column is "" when no named file was sent; otherwise it is a stored path that strips back to the sanitized name |
| Uploads.Named | app.py:187 | the uploads that are saved are exactly those with a non-empty filename, each as many times as it was sent |
| Uploads.MediaRows | app.py:334-349 | the rows the upload loop adds: at most one per upload, each owned by the parent id |
| Uploads.MediaRowsAreNamedUploads | app.py:334-340 | the loop adds one row per named upload, in order, each owned by the parent id and holding the stored path of the upload's name |
| Uploads.MediaPathsRoundTrip | app.py:343-349 | every saved photo or video path is a stored path that strips back to the upload's sanitized name |
| Records.NewRequest | app.py:42-45 | a new request row has status 'Requested', price 0, no transaction id and no final file, and holds the student and the form columns |
| Records.SavedMediaTable | app.py:186-201 | the upload loops keep a child table well formed when they attach rows to an id the parent has handed out |
| Records.MediaTableGrows | app.py:331 | a child table stays well formed when its parent hands out more ids |
| Records.Repay | app.py:294-295 | the SET clause of `submit_payment` makes an order 'Pending' with the new transaction id and keeps its project and student |
| Records.Confirm | app.py:470 | the SET clause of `confirm_payment` makes an order 'Confirmed' and keeps every other column |
| Records.PayRequest | app.py:378 | the SET clause of `submit_request_payment` sets the transaction id and 'Pending' and keeps price, form and final file |
| Records.SetPrice | app.py:436 | the SET clause of `admin_set_price` sets the price and 'Price Set' and keeps transaction id, form and final file |
| Records.Complete | app.py:456 | the SET clause of `admin_complete_request` records the final file and 'Completed' and keeps price, transaction id and form |
| Records.PairSelectsOne | app.py:287-288 | under the one-order-per-pair invariant, the lookup of `submit_payment` selects at most one row |
| Records.InsertNewPair | app.py:290-292 | inserting an order for a pair that has none keeps one order per (project, student) |
| Records.UpdateKeepsPairs | app.py:293-295 | an update that changes neither project nor student keeps one order per pair |
| Records.UpdateKeepsConsistent | app.py:378 | an update that yields consistent requests keeps the whole request table consistent |
| Records.InsertKeepsConsistent | app.py:326-329 | appending a consistent request keeps the table consistent |
| Records.LifecycleStepsConsistent | app.py:436 | payment ('Pending'), pricing ('Price Set') and completion with a stored path ('Completed') all produce consistent requests; completion records the path |
| Chat.SenderName | app.py:516 | the sender is the student's name when a student is logged in, else "Admin" |
| Chat.Blank | app.py:519 | the message `if not message` refuses is missing or empty; an accepted one has at least one character |
| Chat.InsertByTime | app.py:536-537 | inserting a row into a timestamp-ordered list keeps it ordered and adds exactly that row |
| Chat.SortByTime | app.py:550-551 | `ORDER BY timestamp ASC` returns a timestamp-ordered permutation of its input |
| Chat.Thread | app.py:536-537 | a thread read is ordered by timestamp and holds the rows the WHERE clause selects, each as often as the filter gives it |
| Chat.ThreadIsTheThread | app.py:536-540 | a thread read holds exactly the rows of the log with that thread id, each as many times as the log holds it |
| Chat.AppendLeavesOtherThreads | app.py:568-569 | a message sent to one thread leaves the reads of every other thread unchanged |
| Chat.AppendJoinsThread | app.py:523-524 | a message sent to a thread is added to that thread's read and nothing else is |
| Access.DownloadDecision | app.py:494-508 | the file is sent iff the order is 'Confirmed', the project path is non-empty and its stripped name is in the folder (and then that stripped name is sent); 404 iff confirmed but path empty or file missing; 403 iff not confirmed |
| Access.RequestDownloadDecision | app.py:391-401 | the final file is sent iff the request is 'Completed', `final_file` is non-empty and the file is in the folder; 404 iff recorded but missing; 403 otherwise |
| Access.ConfirmedOrderGetsUploadedFile | app.py:499-505 | a confirmed order for a project recorded under a sanitized name is sent the file under that name when the folder holds one, else 404 |
| Access.PendingOrderIsDenied | app.py:508 | an order set to 'Pending' is denied with 403, whatever else it holds |
| Access.CompletedRequestGetsFinalFile | app.py:453-456 | a request completed with a sanitized file is sent the file under that name when the folder holds one, else 404 |
| Access.LaterStepsRelockRequest | app.py:378 | a later payment or pricing takes the request out of 'Completed', so it gets 403, while the final file stays recorded |
| Marketplace.SaveMedia | app.py:186-201 | the upload loop appends exactly the rows `MediaRows` describes: one per named upload, in order |
| Marketplace.Store.constructor | init_db.py:125-128 | every table starts empty with its counter at 1, except `admin`, which holds the seed accounts; no one is logged in |
| Marketplace.Store.AdminLogin | app.py:112-128 | the admin flag is set to the user name iff a matching admin row exists; otherwise the login page is shown and nothing changes |
| Marketplace.Store.StudentLogin | app.py:225-241 | the student flag is set iff a matching user row exists |
| Marketplace.Store.Register | app.py:245-255 | exactly one user row is appended |
| Marketplace.Store.Logout | app.py:477-481 | both session flags are cleared |
| Marketplace.Store.AddProject | app.py:154-206 | one project row holding the recorded file path, then one photo and one video row per named upload, owned by the new project id; when a named upload has an empty sanitized name the save raises, the uncommitted INSERTs are lost and no table changes (500) |
| Marketplace.Store.SaveProjectPhotos | app.py:185-192 | the photo loop of `add_project` appends the photo rows of the new project and keeps the invariant |
| Marketplace.Store.SaveProjectVideos | app.py:194-201 | the video loop of `add_project` appends the video rows of the new project and keeps the invariant |
| Marketplace.Store.Delete | app.py:213-221 | without the admin flag nothing changes; with it, exactly the project rows with another id remain, in order, and the photo and video rows stay |
| Marketplace.Store.SubmitPayment | app.py:276-300 | without a student nothing changes; an existing order for (project, student) is set to 'Pending' with the new transaction id in place and no row is added; otherwise exactly one 'Pending' order is appended; at most one order per pair is kept |
| Marketplace.Store.ConfirmPayment | app.py:464-473 | without the admin flag nothing changes; otherwise the order with that id becomes 'Confirmed' and every other order is unchanged |
| Marketplace.Store.Download | app.py:485-508 | a logged-in student gets the file iff one of their orders for the project is 'Confirmed' and the project records a file that is in the folder, in which case the name sent is the one whose stored path the project row records; 404 iff paid but file missing; 403 iff not paid |
| Marketplace.Store.RequestProject | app.py:306-353 | without a student nothing changes; otherwise one 'Requested' row with price 0, then the photo and video rows of the named uploads, owned by the new request id; when a named upload has an empty sanitized name no table changes (500) |
| Marketplace.Store.SaveRequest | app.py:326-349 | the INSERTs of `request_project`: the new request and its media rows, keeping the invariant |
| Marketplace.Store.SaveRequestPhotos | app.py:334-340 | the photo loop of `request_project` appends the photo rows of the new request |
| Marketplace.Store.SaveRequestVideos | app.py:343-349 | the video loop of `request_project` appends the video rows of the new request |
| Marketplace.Store.SubmitRequestPayment | app.py:371-382 | without a student nothing changes; otherwise only the request with that id gets the transaction id and 'Pending' |
| Marketplace.Store.AdminSetPrice | app.py:429-440 | without the admin flag nothing changes; otherwise only the request with that id gets the price and 'Price Set' |
| Marketplace.Store.AdminCompleteRequest | app.py:443-460 | the request with that id records the stored path and becomes 'Completed' only when a file with a filename is sent and can be saved; a file whose sanitized name is empty raises before the UPDATE (500); otherwise nothing changes |
| Marketplace.Store.DownloadRequest | app.py:385-401 | a logged-in student gets the final file iff the request is 'Completed' and its file is in the folder, and then the name sent is the one whose stored path the request row records; 404 iff recorded but missing; 403 otherwise |
| Marketplace.Store.SendMessage | app.py:511-527 | 401 and no change without a session; 400 and no change on a blank message; otherwise exactly one row is appended to `request_messages` with the right sender |
| Marketplace.Store.SendOrderMessage | app.py:556-572 | the same on `order_messages` |
| Marketplace.Store.GetMessages | app.py:529-540 | 401 without a session; otherwise exactly the rows of that request's thread, each as many times as the log holds it, in timestamp order |
| Marketplace.Store.GetOrderMessages | app.py:543-554 | 401 without a session; otherwise exactly the rows of that order's thread, each as many times as the log holds it, in timestamp order |

## Left out

- Flask routing, templates, the `redirect` responses and the JSON bodies are reduced to the
  `Response` datatype. The message texts of the 403 and 404 answers are dropped.
- The GET branches and the read-only pages (`home`, `admin_dashboard`, `admin_orders`,
  `checkout`, `my_requests`, `admin_requests`) only render query results, so they are not modelled.
- `handle_sqlite_error` is left out: the model has no database errors.
- The connections and the SQL text are left out; each statement is a function on rows.
- Saving files, creating the upload folder and `os.path.exists` are I/O. The folder's contents
  are an input set of names to the download decisions.
- `secure_filename` is a foreign function. Each upload carries its result, and the handlers rely
  only on that result containing no '/' (the `Sanitized` requirement). It may return "", and
  then `file.save` raises on the folder's own path.
- A save that raises aborts the handler with a 500. `add_project` and `request_project` raise
  before `con.commit()`, so their INSERTs are rolled back. The model then leaves every table
  unchanged, but files saved before the failure stay in the folder. Other save failures, such as
  a full disk, are not modelled.
- Every handler saves into one shared folder, and a later upload with the same sanitized name
  overwrites the earlier file. A download sends whatever file is under the recorded name now,
  possibly a photo another user uploaded. The model only proves that the name sent is the one
  the row records.
- `CURRENT_TIMESTAMP` is the clock: the send methods take the timestamp as a natural number.
- Rows with equal timestamps keep their row order on a read. SQL leaves that order unspecified.
- Marketplace.Store.AddProject and Marketplace.Store.AdminSetPrice take the price as an int. The
  source passes the form's text and relies on the column's INTEGER affinity to convert it.
- Marketplace.Store.AddProject does not model the `photo` and `video` columns of `projects`,
  which are always written as "".
- `request.form[...]` on a missing field and `request.json` on a body without JSON raise inside
  Flask. Those paths are not modelled. A message is a string, or None when the key is absent.
- Marketplace.Store.SubmitRequestPayment and Marketplace.Store.DownloadRequest do not check which
  student owns the request, because the source does not either. The model states this behaviour
  as written.
- The `admin` and `student` fields stand for the Flask session cookie of one client. Several
  clients appear only as that one client logging out and in again.
- Concurrent requests are not modelled. The check-then-insert of `submit_payment` is atomic here.
- Tables the schema creates outside `app.py` (`orders`, `users`, `admin`, `project_photos`,
  `project_videos`) are assumed to hold the columns the handlers use. Of `init_db.py`, only the
  seed admin row enters the model, as the constructor's accounts. Its DDL and `fix_db.py` are
  not part of this model.
- `static/uploads/app.py` and the git push scripts are not part of this model.
