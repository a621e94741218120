/** Uploaded files as the route handlers record them.  A file is saved under the upload folder and
    the database keeps the path `uploads/<name>`; the download routes turn a stored path back into a
    name inside the folder with Python's `str.replace('uploads/', '')`. */
module Uploads {
  import opened Tables

  /** A file the browser sent: the filename it gave, and what werkzeug's `secure_filename` made of
      that filename (a foreign function; all the model relies on is that its output has no '/'). */
  datatype Upload = Upload(filename: string, safeName: string)

  /** A child row of a project or a request: the id of its owner and the stored path of one photo
      or video. */
  datatype Media = Media(ownerId: nat, path: string)

  const Prefix: string := "uploads/"

  /** What the handlers store for a saved file: the prefix, then the name. */
  function StoredPath(name: string): (p: string)
    ensures |p| == |Prefix| + |name| && p[..|Prefix|] == Prefix && p[|Prefix|..] == name
    ensures '/' !in name ==> IsStoredPath(p)
  {
    Prefix + name
  }

  /** A stored path whose name part is a sanitized filename. */
  predicate IsStoredPath(p: string) {
    |Prefix| <= |p| && p[..|Prefix|] == Prefix && '/' !in p[|Prefix|..]
  }

  /** Every upload went through `secure_filename`. */
  predicate Sanitized(ups: seq<Upload>) {
    forall k :: 0 <= k < |ups| ==> '/' !in ups[k].safeName
  }

  /** A named upload whose sanitized name is empty (werkzeug gives "" for a name such as "../..").
      Its folder path is the upload folder itself, and `file.save` on it raises. */
  predicate SaveFails(up: Upload) {
    up.filename != "" && up.safeName == ""
  }

  /** Some upload of the list cannot be saved. */
  predicate SomeSaveFails(ups: seq<Upload>) {
    exists k :: 0 <= k < |ups| && SaveFails(ups[k])
  }

  /** Some file `add_project` would save cannot be saved: the project file or a photo or video. */
  predicate ProjectSaveFails(file: Option<Upload>, photos: seq<Upload>, videos: seq<Upload>) {
    (file.Some? && SaveFails(file.value)) || SomeSaveFails(photos) || SomeSaveFails(videos)
  }

  /** Python's `s.replace(pat, with)`: scanning left to right, every occurrence of `pat` that does not
      overlap an earlier one is replaced by `with`. */
  function Replace(s: string, pat: string, with: string): (r: string)
    requires pat != []
    ensures forall c :: c in r ==> c in s || c in with
    ensures with == [] ==> |r| <= |s|
    decreases |s|
  {
    if |pat| <= |s| && s[..|pat|] == pat then
      var rest := Replace(s[|pat|..], pat, with);
      assert forall c :: c in s[|pat|..] ==> c in s;
      with + rest
    else if s == [] then []
    else
      var rest := Replace(s[1..], pat, with);
      assert forall c :: c in s[1..] ==> c in s;
      [s[0]] + rest
  }

  /** `path.replace('uploads/', '')` as the download routes write it: a stored path gives its name
      part; any path gives a name made of its own characters. */
  function StripPrefix(path: string): (name: string)
    ensures IsStoredPath(path) ==> name == path[|Prefix|..]
    ensures forall c :: c in name ==> c in path
  {
    if IsStoredPath(path) then
      assert '/' in Prefix;
      ReplaceAbsent(path[|Prefix|..], Prefix, "", '/');
      Replace(path, Prefix, "")
    else Replace(path, Prefix, "")
  }

  /** A string that lacks one of the characters of `pat` holds no occurrence of it, and `replace`
      leaves it as it is. */
  lemma {:induction false} ReplaceAbsent(s: string, pat: string, with: string, c: char)
    requires pat != [] && c in pat && c !in s
    ensures Replace(s, pat, with) == s
  {
    if s != [] {
      if |pat| <= |s| {
        assert c !in s[..|pat|];
      }
      ReplaceAbsent(s[1..], pat, with, c);
      assert s == [s[0]] + s[1..];
    }
  }

  /** Stripping the prefix from the stored path of a sanitized name gives the name back. */
  lemma StoredPathRoundTrip(name: string)
    requires '/' !in name
    ensures StripPrefix(StoredPath(name)) == name
  {
    var p := StoredPath(name);
    assert p[..|Prefix|] == Prefix && p[|Prefix|..] == name;
    assert '/' in Prefix;
    ReplaceAbsent(name, Prefix, "", '/');
  }

  /** A stored path strips to its own name part. */
  lemma StripStoredPath(p: string)
    requires IsStoredPath(p)
    ensures StripPrefix(p) == p[|Prefix|..] && p == StoredPath(p[|Prefix|..])
  {
    assert p == Prefix + p[|Prefix|..];
    StoredPathRoundTrip(p[|Prefix|..]);
  }

  /** Without sanitizing the round trip fails: `replace` removes every occurrence, not only the
      prefix the handler added. */
  lemma UnsanitizedNameIsNotRecovered()
    ensures StripPrefix(StoredPath("uploads/a")) == "a"
  {
    assert StoredPath("uploads/a") == Prefix + Prefix + "a";
    assert (Prefix + Prefix + "a")[|Prefix|..] == Prefix + "a";
    assert (Prefix + "a")[|Prefix|..] == "a";
    assert "a"[1..] == [];
  }

  /** The `project_file` column `add_project` writes: the stored path when a file with a filename
      was sent, else "". */
  function RecordedPath(file: Option<Upload>): (p: string)
    requires file.Some? ==> '/' !in file.value.safeName
    ensures file.None? || file.value.filename == "" ==> p == ""
    ensures file.Some? && file.value.filename != "" ==>
      IsStoredPath(p) && StripPrefix(p) == file.value.safeName
  {
    if file.Some? && file.value.filename != "" then
      StoredPathRoundTrip(file.value.safeName);
      assert StoredPath(file.value.safeName)[|Prefix|..] == file.value.safeName;
      StoredPath(file.value.safeName)
    else ""
  }

  /** The uploads the handlers save: those whose filename is not empty (`if photo and photo.filename`),
      each as often as it was sent. */
  function Named(ups: seq<Upload>): (r: seq<Upload>)
    ensures |r| <= |ups|
    ensures forall k :: 0 <= k < |r| ==> r[k] in ups && r[k].filename != ""
    ensures forall k :: 0 <= k < |ups| && ups[k].filename != "" ==> ups[k] in r
    ensures forall u :: multiset(r)[u] == if u.filename != "" then multiset(ups)[u] else 0
    decreases |ups|
  {
    if ups == [] then []
    else
      var init := ups[..|ups| - 1];
      var last := ups[|ups| - 1];
      assert ups == init + [last];
      assert forall k :: 0 <= k < |init| ==> init[k] == ups[k];
      Named(init) + (if last.filename != "" then [last] else [])
  }

  /** The child rows the upload loops insert for `owner`, one per saved upload, in upload order. */
  function MediaRows(owner: nat, ups: seq<Upload>): (r: seq<Media>)
    ensures |r| <= |ups|
    ensures forall k :: 0 <= k < |r| ==> r[k].ownerId == owner
    decreases |ups|
  {
    if ups == [] then []
    else
      var last := ups[|ups| - 1];
      MediaRows(owner, ups[..|ups| - 1])
        + (if last.filename != "" then [Media(owner, StoredPath(last.safeName))] else [])
  }

  /** One more turn of an upload loop. */
  lemma MediaRowsStep(owner: nat, ups: seq<Upload>, i: nat)
    requires i < |ups|
    ensures MediaRows(owner, ups[..i + 1]) == MediaRows(owner, ups[..i])
      + (if ups[i].filename != "" then [Media(owner, StoredPath(ups[i].safeName))] else [])
  {
    assert ups[..i + 1][..i] == ups[..i];
  }

  /** The loops add exactly one row per upload with a non-empty filename, each pointing at `owner`
      and holding the stored path of that upload's sanitized name. */
  lemma {:induction false} MediaRowsAreNamedUploads(owner: nat, ups: seq<Upload>)
    ensures |MediaRows(owner, ups)| == |Named(ups)|
    ensures forall k :: 0 <= k < |Named(ups)| ==>
      MediaRows(owner, ups)[k] == Media(owner, StoredPath(Named(ups)[k].safeName))
    decreases |ups|
  {
    if ups != [] {
      var init, last := ups[..|ups| - 1], ups[|ups| - 1];
      MediaRowsAreNamedUploads(owner, init);
      var n := Named(init) + (if last.filename != "" then [last] else []);
      var m := MediaRows(owner, init)
        + (if last.filename != "" then [Media(owner, StoredPath(last.safeName))] else []);
      assert Named(ups) == n;
      assert MediaRows(owner, ups) == m;
      assert forall k :: 0 <= k < |n| ==> m[k] == Media(owner, StoredPath(n[k].safeName));
    }
  }

  /** Every stored photo or video path strips back to the sanitized name it was saved under. */
  lemma MediaPathsRoundTrip(owner: nat, ups: seq<Upload>)
    requires Sanitized(ups)
    ensures |MediaRows(owner, ups)| == |Named(ups)|
    ensures forall k :: 0 <= k < |Named(ups)| ==>
      IsStoredPath(MediaRows(owner, ups)[k].path) &&
      StripPrefix(MediaRows(owner, ups)[k].path) == Named(ups)[k].safeName
  {
    MediaRowsAreNamedUploads(owner, ups);
    forall k | 0 <= k < |Named(ups)|
      ensures IsStoredPath(MediaRows(owner, ups)[k].path)
      ensures StripPrefix(MediaRows(owner, ups)[k].path) == Named(ups)[k].safeName
    {
      var name := Named(ups)[k].safeName;
      var i :| 0 <= i < |ups| && ups[i] == Named(ups)[k];
      assert '/' !in name;
      assert StoredPath(name)[|Prefix|..] == name;
      StoredPathRoundTrip(name);
    }
  }
}
