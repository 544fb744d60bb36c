/**
  The manager's `upload` and `download` (yui_oss/manager.py) as traces. The local side is
  a tree of files and directories for upload and a set of existing directories for
  download; the store answers each call through the oracle in `Env`.
 */
module Transfer {
  import opened Outcomes
  import opened Text
  import opened PosixPath
  import opened Digest
  import opened RemotePath
  import opened Store
  import opened Plans

  /** What lies at a local path: a file with its hex MD5 (as `utils.file_md5` computes
      it), or a directory whose entries come in `os.listdir` order. */
  datatype LocalNode = LocalFile(md5: string) | LocalDir(entries: seq<LocalEntry>)

  datatype LocalEntry = LocalEntry(name: string, node: LocalNode)

  /** The number of files and directories in a tree, the root included. */
  function Size(node: LocalNode): (n: nat)
    ensures n >= 1
    decreases node, 1
  {
    match node
    case LocalFile(_) => 1
    case LocalDir(_) => 1 + EntriesSize(node, 0)
  }

  function EntriesSize(dir: LocalNode, i: nat): nat
    requires dir.LocalDir? && i <= |dir.entries|
    decreases dir, 0, |dir.entries| - i
  {
    if i == |dir.entries| then 0
    else
      assert dir.entries[i] in dir.entries;
      Size(dir.entries[i].node) + EntriesSize(dir, i + 1)
  }

  /** Where `upload` puts `local` for the normalised remote `r`: below `r` under the local
      name when `r` is a directory, at `r` itself otherwise, with a separator appended for
      a local directory. */
  function UploadDest(local: string, isDir: bool, r: string): string {
    (if IsDir(r) then r + Basename(local) else r) + (if isDir then "/" else "")
  }

  /** `upload(local, remote, recursive)`: `local` is the absolute local path, `node` what
      lies there and `markerMd5` the hex MD5 of the marker content `$DIR$`. */
  function UploadPlan(env: Env, markerMd5: string, local: string, node: LocalNode, remote: string, recursive: bool): Outcome {
    Wrap(Upload, UploadFrom(env, markerMd5, local, node, NormPath(remote), recursive))
  }

  /** The body of `upload` once `remote` is normalised to `r`. */
  function UploadFrom(env: Env, markerMd5: string, local: string, node: LocalNode, r: string, recursive: bool): Plan
    decreases node, 2
  {
    var dest := UploadDest(local, node.LocalDir?, r);
    match node
    case LocalFile(md5) => UploadFileTo(env, local, md5, r, dest)
    case LocalDir(_) =>
      if !IsDir(dest) then Stop([], NotADirectory(Upload))
      else UploadDirTo(env, markerMd5, local, node, r, dest, recursive)
  }

  /** A file: put it with its MD5 as the `Content-MD5` header, then report. The callbacks
      receive `r`, not the destination key. */
  function UploadFileTo(env: Env, local: string, md5: string, r: string, dest: string): Plan {
    match Md5ToBase64(md5)
    case None => Stop([], BadDigest)
    case Some(header) =>
      var call := PutObject(dest, FromFile(local), header);
      match env.reply(call)
      case Raised => Stop([Call(call)], StoreRaised)
      case Status(code) => Done([Call(call), Report(Upload, code, local, Some(r))])
  }

  /** A directory: put the marker, upload the entries when recursive, then report; the
      directory's own callback comes after its children's events. */
  function UploadDirTo(env: Env, markerMd5: string, local: string, dir: LocalNode, r: string, dest: string, recursive: bool): Plan
    requires dir.LocalDir?
    decreases dir, 1
  {
    match Md5ToBase64(markerMd5)
    case None => Stop([], BadDigest)
    case Some(header) =>
      var call := PutObject(dest, Marker, header);
      match env.reply(call)
      case Raised => Stop([Call(call)], StoreRaised)
      case Status(code) =>
        var children := if recursive then UploadEntries(env, markerMd5, local, dir, 0, dest) else Done([]);
        Then(Plan([Call(call)] + children.events, children.stop), Done([Report(Upload, code, local, Some(r))]))
  }

  /** The recursive calls of a directory upload, from entry `i` on: each entry is uploaded
      from `local/name` to the directory's destination key, recursively. */
  function UploadEntries(env: Env, markerMd5: string, local: string, dir: LocalNode, i: nat, dest: string): Plan
    requires dir.LocalDir? && i <= |dir.entries|
    decreases dir, 0, |dir.entries| - i
  {
    if i == |dir.entries| then Done([])
    else
      var e := dir.entries[i];
      assert e in dir.entries;
      Then(UploadFrom(env, markerMd5, PathJoin(local, e.name), e.node, NormPath(dest), true),
           UploadEntries(env, markerMd5, local, dir, i + 1, dest))
  }

  /** The 4-argument callback of an upload of `local` to the normalised remote `r`. */
  predicate ReportsUpload(e: Event, local: string, r: string) {
    (e.OnSuccess? || e.OnError?) && e.verb == Upload && e.src == local && e.dest == Some(r)
  }

  /** A local directory's destination always ends with the separator. */
  lemma UploadDestOfDir(local: string, r: string)
    ensures EndsWith(UploadDest(local, true, r), "/") && IsDir(UploadDest(local, true, r))
  {
    TrailingSepIsDir(UploadDest(local, true, r));
  }

  /** A local directory is uploaded to its directory-shaped destination. */
  lemma UploadFromDir(env: Env, markerMd5: string, local: string, node: LocalNode, r: string, recursive: bool)
    requires node.LocalDir?
    ensures UploadFrom(env, markerMd5, local, node, r, recursive) ==
      UploadDirTo(env, markerMd5, local, node, r, UploadDest(local, true, r), recursive)
  {
    UploadDestOfDir(local, r);
  }

  /** A local file is uploaded to its destination, whatever its shape. */
  lemma UploadFromFile(env: Env, markerMd5: string, local: string, node: LocalNode, r: string, recursive: bool)
    requires node.LocalFile?
    ensures UploadFrom(env, markerMd5, local, node, r, recursive) ==
      UploadFileTo(env, local, node.md5, r, UploadDest(local, false, r))
  {
  }

  /** What can stop an upload: an MD5 that `md5_to_base64` rejects, or a raising store. */
  predicate UploadCause(c: Cause) {
    c == BadDigest || c == StoreRaised
  }

  /** The rejection "remote path should be a directory" never happens, at any depth: an
      upload stops only on a bad digest or a raising store. */
  lemma {:induction false} UploadNeverRejectsDestination(env: Env, markerMd5: string, local: string, node: LocalNode, r: string, recursive: bool)
    ensures UploadFrom(env, markerMd5, local, node, r, recursive).stop != Some(NotADirectory(Upload))
    ensures var p := UploadFrom(env, markerMd5, local, node, r, recursive); p.stop.Some? ==> UploadCause(p.stop.value)
    decreases node, 2
  {
    if node.LocalDir? {
      var dest := UploadDest(local, true, r);
      UploadFromDir(env, markerMd5, local, node, r, recursive);
      var header := Md5ToBase64(markerMd5);
      if header.Some? && env.reply(PutObject(dest, Marker, header.value)).Status? {
        var children := if recursive then UploadEntries(env, markerMd5, local, node, 0, dest) else Done([]);
        if recursive {
          EntriesNeverRejectDestination(env, markerMd5, local, node, 0, dest);
        }
        assert UploadDirTo(env, markerMd5, local, node, r, dest, recursive).stop == children.stop;
      }
    } else {
      UploadFromFile(env, markerMd5, local, node, r, recursive);
    }
  }

  lemma {:induction false} EntriesNeverRejectDestination(env: Env, markerMd5: string, local: string, dir: LocalNode, i: nat, dest: string)
    requires dir.LocalDir? && i <= |dir.entries|
    ensures UploadEntries(env, markerMd5, local, dir, i, dest).stop != Some(NotADirectory(Upload))
    ensures var p := UploadEntries(env, markerMd5, local, dir, i, dest); p.stop.Some? ==> UploadCause(p.stop.value)
    decreases dir, 0, |dir.entries| - i
  {
    if i < |dir.entries| {
      var e := dir.entries[i];
      assert e in dir.entries;
      UploadNeverRejectsDestination(env, markerMd5, PathJoin(local, e.name), e.node, NormPath(dest), true);
      EntriesNeverRejectDestination(env, markerMd5, local, dir, i + 1, dest);
    }
  }

  /** `upload` raises only its own error class, for a bad digest or a raising store. */
  lemma UploadErrors(env: Env, markerMd5: string, local: string, node: LocalNode, remote: string, recursive: bool)
    ensures var o := UploadPlan(env, markerMd5, local, node, remote, recursive);
      o.error.Some? ==> o.error.value.kind == Upload && UploadCause(o.error.value.cause)
  {
    UploadNeverRejectsDestination(env, markerMd5, local, node, NormPath(remote), recursive);
  }

  /** An entry `name` of a directory uploaded to `dest` lands at `name` below the
      normalised destination, with a separator appended for a directory. */
  lemma UploadEntryDest(local: string, name: string, isDir: bool, dest: string)
    requires Sep !in name && IsDir(dest)
    ensures UploadDest(PathJoin(local, name), isDir, NormPath(dest)) ==
      NormPath(dest) + name + (if isDir then "/" else "")
  {
    NormPathKeepsDir(dest);
    BasenameOfJoin(local, name);
  }

  /** A non-recursive directory upload writes the marker and fires one callback, with no
      child uploads. */
  lemma UploadDirShallow(env: Env, markerMd5: string, local: string, node: LocalNode, r: string)
    requires node.LocalDir? && Md5ToBase64(markerMd5).Some?
    requires env.reply(PutObject(UploadDest(local, true, r), Marker, Md5ToBase64(markerMd5).value)).Status?
    ensures var call := PutObject(UploadDest(local, true, r), Marker, Md5ToBase64(markerMd5).value);
      UploadFrom(env, markerMd5, local, node, r, false) ==
        Done([Call(call), Report(Upload, env.reply(call).code, local, Some(r))])
  {
    var dest := UploadDest(local, true, r);
    UploadFromDir(env, markerMd5, local, node, r, false);
  }

  /** A single file is put at its destination with the `Content-MD5` header that decodes
      back to the file's MD5, and one callback reports the normalised remote. */
  lemma UploadFile(env: Env, markerMd5: string, local: string, md5: string, r: string, recursive: bool)
    requires |md5| % 2 == 0 && IsLowerHex(md5)
    requires env.reply(PutObject(UploadDest(local, false, r), FromFile(local), Md5ToBase64(md5).value)).Status?
    ensures var p := UploadFrom(env, markerMd5, local, LocalFile(md5), r, recursive);
      && p.stop.None? && |p.events| == 2
      && p.events[0].Call? && p.events[0].call.key == UploadDest(local, false, r)
      && Base64ToMd5(p.events[0].call.contentMd5) == Some(md5)
      && p.events[1].src == local && p.events[1].dest == Some(r)
  {
    Md5RoundTrip(md5);
  }

  /** A recursive upload that completes issues one put per file and directory of the
      tree and fires as many callbacks; it starts with the put for `local` itself and ends
      with the callback for `local`, after every descendant's events. */
  lemma {:induction false} UploadCounts(env: Env, markerMd5: string, local: string, node: LocalNode, r: string)
    requires UploadFrom(env, markerMd5, local, node, r, true).stop.None?
    ensures var p := UploadFrom(env, markerMd5, local, node, r, true);
      && |Calls(p.events)| == Size(node)
      && Callbacks(p.events) == Size(node)
      && |p.events| >= 2
      && p.events[0].Call? && p.events[0].call.PutObject? && p.events[0].call.key == UploadDest(local, node.LocalDir?, r)
      && ReportsUpload(p.events[|p.events| - 1], local, r)
    decreases node, 2
  {
    if node.LocalDir? {
      var dest := UploadDest(local, true, r);
      UploadFromDir(env, markerMd5, local, node, r, true);
      DirCounts(env, markerMd5, local, node, r, dest);
    } else {
      var dest := UploadDest(local, false, r);
      UploadFromFile(env, markerMd5, local, node, r, true);
      FileCounts(env, local, node.md5, r, dest);
      assert Size(node) == 1;
    }
  }

  /** A file upload that completes is its put followed by its callback. */
  lemma FileCounts(env: Env, local: string, md5: string, r: string, dest: string)
    requires UploadFileTo(env, local, md5, r, dest).stop.None?
    ensures var p := UploadFileTo(env, local, md5, r, dest);
      && |Calls(p.events)| == 1 && Callbacks(p.events) == 1 && |p.events| == 2
      && p.events[0].Call? && p.events[0].call.PutObject? && p.events[0].call.key == dest
      && ReportsUpload(p.events[1], local, r)
  {
    var header := Md5ToBase64(md5).value;
    var call := PutObject(dest, FromFile(local), header);
    var last := Report(Upload, env.reply(call).code, local, Some(r));
    var events := [Call(call), last];
    assert UploadFileTo(env, local, md5, r, dest) == Done(events);
    assert events[1..] == [last] && [last][1..] == [];
    assert Calls(events) == [call];
    assert Callbacks(events) == 1;
  }

  lemma {:induction false} DirCounts(env: Env, markerMd5: string, local: string, dir: LocalNode, r: string, dest: string)
    requires dir.LocalDir?
    requires UploadDirTo(env, markerMd5, local, dir, r, dest, true).stop.None?
    ensures var p := UploadDirTo(env, markerMd5, local, dir, r, dest, true);
      && |Calls(p.events)| == Size(dir)
      && Callbacks(p.events) == Size(dir)
      && |p.events| >= 2
      && p.events[0].Call? && p.events[0].call.PutObject? && p.events[0].call.key == dest
      && ReportsUpload(p.events[|p.events| - 1], local, r)
    decreases dir, 1
  {
    var p := UploadDirTo(env, markerMd5, local, dir, r, dest, true);
    var header := Md5ToBase64(markerMd5).value;
    var call := PutObject(dest, Marker, header);
    var code := env.reply(call).code;
    var children := UploadEntries(env, markerMd5, local, dir, 0, dest);
    var last := Report(Upload, code, local, Some(r));
    assert p.events == [Call(call)] + children.events + [last];
    EntriesCounts(env, markerMd5, local, dir, 0, dest);
    CallsAppend([Call(call)] + children.events, [last]);
    CallsAppend([Call(call)], children.events);
    CallbacksAppend([Call(call)] + children.events, [last]);
    CallbacksAppend([Call(call)], children.events);
  }

  lemma {:induction false} EntriesCounts(env: Env, markerMd5: string, local: string, dir: LocalNode, i: nat, dest: string)
    requires dir.LocalDir? && i <= |dir.entries|
    requires UploadEntries(env, markerMd5, local, dir, i, dest).stop.None?
    ensures var p := UploadEntries(env, markerMd5, local, dir, i, dest);
      |Calls(p.events)| == EntriesSize(dir, i) && Callbacks(p.events) == EntriesSize(dir, i)
    decreases dir, 0, |dir.entries| - i
  {
    if i < |dir.entries| {
      var e := dir.entries[i];
      assert e in dir.entries;
      var first := UploadFrom(env, markerMd5, PathJoin(local, e.name), e.node, NormPath(dest), true);
      var rest := UploadEntries(env, markerMd5, local, dir, i + 1, dest);
      EntriesUnfold(env, markerMd5, local, dir, i, dest);
      UploadCounts(env, markerMd5, PathJoin(local, e.name), e.node, NormPath(dest));
      EntriesCounts(env, markerMd5, local, dir, i + 1, dest);
      CallsAppend(first.events, rest.events);
      CallbacksAppend(first.events, rest.events);
    }
  }

  /** The uploads of the entries from `i` on are the upload of entry `i`, then those of
      the rest; a completed run completes both parts. */
  lemma EntriesUnfold(env: Env, markerMd5: string, local: string, dir: LocalNode, i: nat, dest: string)
    requires dir.LocalDir? && i < |dir.entries|
    ensures var e := dir.entries[i];
      var first := UploadFrom(env, markerMd5, PathJoin(local, e.name), e.node, NormPath(dest), true);
      var rest := UploadEntries(env, markerMd5, local, dir, i + 1, dest);
      && UploadEntries(env, markerMd5, local, dir, i, dest) == Then(first, rest)
      && (UploadEntries(env, markerMd5, local, dir, i, dest).stop.None? ==> first.stop.None? && rest.stop.None?)
      && EntriesSize(dir, i) == Size(e.node) + EntriesSize(dir, i + 1)
  {
  }

  /** `os.path.isdir` against the set of local directories, each recorded as
      `os.path.normpath` writes it. */
  predicate IsLocalDir(dirs: set<string>, p: string) {
    Normpath(p) in dirs
  }

  /** Where `download_single` writes the key `rem` for the local path `loc`: below `loc`
      under the key's last segment when `loc` is a directory, at `loc` otherwise, with a
      separator appended for a directory key. */
  function DownloadTarget(dirs: set<string>, rem: string, loc: string): string {
    (if IsLocalDir(dirs, loc) then loc + "/" + LastSegment(rem) else loc) + (if IsDir(rem) then "/" else "")
  }

  /** A trace so far and the local directories that exist after it. */
  datatype Progress = Progress(plan: Plan, dirs: set<string>)

  /** `download_single(rem, loc)`: a directory key becomes `os.mkdir` of its target, any
      other key is fetched into its target. The callbacks receive `loc`, not the target. */
  function DownloadSingle(env: Env, dirs: set<string>, rem: string, loc: string): Progress {
    var target := DownloadTarget(dirs, rem, loc);
    if IsDir(rem) then MakeDir(dirs, rem, loc, target) else Fetch(env, dirs, rem, loc, target)
  }

  /** `os.mkdir(target)`, which raises when the directory is already there, then
      `on_success`. */
  function MakeDir(dirs: set<string>, rem: string, loc: string, target: string): (st: Progress)
    ensures st.plan.stop.Some? <==> IsLocalDir(dirs, target)
    ensures st.plan.stop.Some? ==> st.plan.stop.value == LocalDirExists && st.dirs == dirs
    ensures st.plan.stop.None? ==>
      && |st.plan.events| == 2 && st.plan.events[0] == MakeLocalDir(target) && IsLocalDir(st.dirs, target) && dirs <= st.dirs
      && CallbackSources(st.plan.events) == [rem]
  {
    if Normpath(target) in dirs then Progress(Stop([], LocalDirExists), dirs)
    else
      var done := OnSuccess(Download, rem, Some(loc));
      var events := [MakeLocalDir(target), done];
      assert events[1..] == [done] && [done][1..] == [];
      Progress(Done(events), dirs + {Normpath(target)})
  }

  /** `get_object_to_file(rem, target)`, then the callback for its status. */
  function Fetch(env: Env, dirs: set<string>, rem: string, loc: string, target: string): (st: Progress)
    ensures st.dirs == dirs
    ensures Calls(st.plan.events) == [GetObjectToFile(rem, target)]
    ensures st.plan.stop.None? <==> env.reply(GetObjectToFile(rem, target)).Status?
    ensures st.plan.stop.Some? ==> st.plan.stop.value == StoreRaised
    ensures st.plan.stop.None? ==> CallbackSources(st.plan.events) == [rem]
  {
    var call := GetObjectToFile(rem, target);
    match env.reply(call)
    case Raised =>
      assert [Call(call)][1..] == [];
      Progress(Stop([Call(call)], StoreRaised), dirs)
    case Status(code) =>
      var last := Report(Download, code, rem, Some(loc));
      var events := [Call(call), last];
      assert events[1..] == [last] && [last][1..] == [];
      Progress(Done(events), dirs)
  }

  /** The local path a listed key is downloaded into: the local root joined with every
      segment of the key but the last, normalised. */
  function ListedLocal(local: string, key: string): string {
    Normpath(local + "/" + ParentPath(key))
  }

  /** `download(remote, local, recursive)`: `local` is the absolute local path and `dirs`
      the local directories that exist beforehand. */
  function DownloadPlan(b: Bucket, env: Env, dirs: set<string>, remote: string, local: string, recursive: bool): Outcome {
    Wrap(Download, DownloadFrom(b, env, dirs, NormPath(remote), local, recursive))
  }

  /** The body of `download` once `remote` is normalised to `r`: the key itself, then,
      for a recursive directory download, every key the listing of `r` returns. */
  function DownloadFrom(b: Bucket, env: Env, dirs: set<string>, r: string, local: string, recursive: bool): Plan {
    var first := DownloadSingle(env, dirs, r, local);
    if IsDir(r) && recursive then Then(first.plan, DownloadKeys(env, first.dirs, ListAll(b, r), local))
    else first.plan
  }

  function DownloadKeys(env: Env, dirs: set<string>, keys: seq<string>, local: string): Plan {
    Thread(dirs, keys, ListedStep(env, local))
  }

  /** The download of one listed key, given the local directories that exist by then. */
  function ListedStep(env: Env, local: string): (set<string>, string) -> Progress {
    (dirs, key) => DownloadSingle(env, dirs, key, ListedLocal(local, key))
  }

  /** Applies `step` to each key in turn, threading the set of local directories through
      and stopping at the first step that stops. */
  function Thread(dirs: set<string>, keys: seq<string>, step: (set<string>, string) -> Progress): Plan
    decreases |keys|
  {
    if keys == [] then Done([])
    else
      var st := step(dirs, keys[0]);
      Then(st.plan, Thread(st.dirs, keys[1..], step))
  }

  /** When every step that completes reports exactly its key, a completed thread reports
      exactly its keys, in order. */
  lemma {:induction false} ThreadSources(dirs: set<string>, keys: seq<string>, step: (set<string>, string) -> Progress)
    requires forall d, k :: step(d, k).plan.stop.None? ==> CallbackSources(step(d, k).plan.events) == [k]
    requires Thread(dirs, keys, step).stop.None?
    ensures CallbackSources(Thread(dirs, keys, step).events) == keys
    decreases |keys|
  {
    if keys != [] {
      var st := step(dirs, keys[0]);
      var rest := Thread(st.dirs, keys[1..], step);
      ThreadSources(st.dirs, keys[1..], step);
      CallbackSourcesAppend(st.plan.events, rest.events);
      assert keys == [keys[0]] + keys[1..];
    }
  }

  /** A single download that completes fires exactly one callback, for its key. */
  lemma DownloadSingleReports(env: Env, dirs: set<string>, rem: string, loc: string)
    ensures var p := DownloadSingle(env, dirs, rem, loc).plan;
      p.stop.None? ==> CallbackSources(p.events) == [rem]
  {
    var target := DownloadTarget(dirs, rem, loc);
    if IsDir(rem) {
      assert DownloadSingle(env, dirs, rem, loc) == MakeDir(dirs, rem, loc, target);
    } else {
      assert DownloadSingle(env, dirs, rem, loc) == Fetch(env, dirs, rem, loc, target);
    }
  }

  /** A download that completes handles, in order, the normalised key and then, for a
      recursive directory download, every listed key; a non-recursive or single-object
      download handles the key alone. */
  lemma DownloadSources(b: Bucket, env: Env, dirs: set<string>, r: string, local: string, recursive: bool)
    requires DownloadFrom(b, env, dirs, r, local, recursive).stop.None?
    ensures CallbackSources(DownloadFrom(b, env, dirs, r, local, recursive).events) ==
      [r] + (if IsDir(r) && recursive then ListAll(b, r) else [])
  {
    if IsDir(r) && recursive {
      DownloadDirSources(b, env, dirs, r, local);
    } else {
      DownloadSingleReports(env, dirs, r, local);
      assert DownloadFrom(b, env, dirs, r, local, recursive) == DownloadSingle(env, dirs, r, local).plan;
      assert [r] + [] == [r];
    }
  }

  /** The recursive half of `DownloadSources`. */
  lemma DownloadDirSources(b: Bucket, env: Env, dirs: set<string>, r: string, local: string)
    requires IsDir(r) && DownloadFrom(b, env, dirs, r, local, true).stop.None?
    ensures CallbackSources(DownloadFrom(b, env, dirs, r, local, true).events) == [r] + ListAll(b, r)
  {
    var first := DownloadSingle(env, dirs, r, local);
    DownloadSingleReports(env, dirs, r, local);
    var rest := DownloadKeys(env, first.dirs, ListAll(b, r), local);
    assert DownloadFrom(b, env, dirs, r, local, true) == Then(first.plan, rest);
    assert first.plan.stop.None? && rest.stop.None?;
    DownloadKeysSources(env, first.dirs, ListAll(b, r), local);
    CallbackSourcesAppend(first.plan.events, rest.events);
  }

  lemma DownloadKeysSources(env: Env, dirs: set<string>, keys: seq<string>, local: string)
    requires DownloadKeys(env, dirs, keys, local).stop.None?
    ensures CallbackSources(DownloadKeys(env, dirs, keys, local).events) == keys
  {
    var step := ListedStep(env, local);
    forall d, k | step(d, k).plan.stop.None? ensures CallbackSources(step(d, k).plan.events) == [k] {
      DownloadSingleReports(env, d, k, ListedLocal(local, k));
    }
    ThreadSources(dirs, keys, step);
  }

  /** An object downloaded into an existing local directory keeps the last segment of
      its key as its file name. */
  lemma DownloadKeepsName(dirs: set<string>, rem: string, loc: string)
    requires !IsDir(rem) && IsLocalDir(dirs, loc)
    ensures DownloadTarget(dirs, rem, loc) == loc + "/" + LastSegment(rem)
    ensures Basename(DownloadTarget(dirs, rem, loc)) == LastSegment(rem)
  {
    var seg := LastSegment(rem);
    assert DownloadTarget(dirs, rem, loc) == loc + [Sep] + seg + "";
    assert loc + [Sep] + seg + "" == loc + [Sep] + seg;
    BasenameAfterSep(loc, seg);
  }

  /** A directory key creates its target, which ends with the separator and is a local
      directory afterwards; the download stops exactly when that directory existed. */
  lemma DownloadMakesDir(env: Env, dirs: set<string>, rem: string, loc: string)
    requires IsDir(rem)
    ensures var st := DownloadSingle(env, dirs, rem, loc); var target := DownloadTarget(dirs, rem, loc);
      && EndsWith(target, "/")
      && (st.plan.stop.Some? <==> IsLocalDir(dirs, target))
      && (st.plan.stop.None? ==> st.plan.events[0] == MakeLocalDir(target) && IsLocalDir(st.dirs, target) && dirs <= st.dirs)
  {
    var target := DownloadTarget(dirs, rem, loc);
    assert DownloadSingle(env, dirs, rem, loc) == MakeDir(dirs, rem, loc, target);
  }

  /** What can stop a download: `os.mkdir` of a directory that is there, or a raising
      store. */
  predicate DownloadCause(c: Cause) {
    c == LocalDirExists || c == StoreRaised
  }

  /** A single download stops only for a download cause, and never removes a local
      directory. */
  lemma DownloadSingleStops(env: Env, dirs: set<string>, rem: string, loc: string)
    ensures var st := DownloadSingle(env, dirs, rem, loc);
      && (st.plan.stop.Some? ==> DownloadCause(st.plan.stop.value))
      && dirs <= st.dirs
  {
    var target := DownloadTarget(dirs, rem, loc);
    if IsDir(rem) {
      assert DownloadSingle(env, dirs, rem, loc) == MakeDir(dirs, rem, loc, target);
    } else {
      assert DownloadSingle(env, dirs, rem, loc) == Fetch(env, dirs, rem, loc, target);
    }
  }

  /** A stopped thread stops for a reason one of its steps can stop for. */
  lemma {:induction false} ThreadStopsWith(dirs: set<string>, keys: seq<string>, step: (set<string>, string) -> Progress, allowed: Cause -> bool)
    requires forall d, k :: step(d, k).plan.stop.Some? ==> allowed(step(d, k).plan.stop.value)
    ensures Thread(dirs, keys, step).stop.Some? ==> allowed(Thread(dirs, keys, step).stop.value)
    decreases |keys|
  {
    if keys != [] {
      ThreadStopsWith(step(dirs, keys[0]).dirs, keys[1..], step, allowed);
    }
  }

  /** `download` raises only its own error class, for a local directory that is already
      there or a raising store. */
  lemma DownloadErrors(b: Bucket, env: Env, dirs: set<string>, remote: string, local: string, recursive: bool)
    ensures var o := DownloadPlan(b, env, dirs, remote, local, recursive);
      o.error.Some? ==> o.error.value.kind == Download && DownloadCause(o.error.value.cause)
  {
    var r := NormPath(remote);
    var first := DownloadSingle(env, dirs, r, local);
    DownloadSingleStops(env, dirs, r, local);
    if IsDir(r) && recursive {
      var step := ListedStep(env, local);
      forall d, k | step(d, k).plan.stop.Some? ensures DownloadCause(step(d, k).plan.stop.value) {
        DownloadSingleStops(env, d, k, ListedLocal(local, k));
      }
      ThreadStopsWith(first.dirs, ListAll(b, r), step, DownloadCause);
    }
  }

  /** A thread reaching a key whose step stops for every set of directories containing
      `base` stops, as long as no step removes a directory. */
  lemma {:induction false} ThreadStopsAtKey(dirs: set<string>, keys: seq<string>, step: (set<string>, string) -> Progress, key: string, base: set<string>)
    requires key in keys && base <= dirs
    requires forall d :: base <= d ==> step(d, key).plan.stop.Some?
    requires forall d, k :: d <= step(d, k).dirs
    ensures Thread(dirs, keys, step).stop.Some?
    decreases |keys|
  {
    if keys[0] != key {
      assert key in keys[1..];
      ThreadStopsAtKey(step(dirs, keys[0]).dirs, keys[1..], step, key, base);
    }
  }

  /** A recursive download of a top-level directory whose marker object exists, into a
      local directory, never completes: the first step creates `local/name/`, and the
      listing returns the marker again, which maps to the same local directory, so
      `os.mkdir` raises. */
  lemma DownloadTopDirNeverCompletes(b: Bucket, env: Env, dirs: set<string>, r: string, local: string)
    requires IsDir(r) && Sep !in StripChar(r, Sep) && r in b.keys
    requires IsLocalDir(dirs, local) && Normpath(local + "/") == local
    ensures DownloadFrom(b, env, dirs, r, local, true).stop.Some?
  {
    var first := DownloadSingle(env, dirs, r, local);
    if first.plan.stop.None? {
      ListedKeysStop(b, env, dirs, r, local);
    }
  }

  /** After the first step of such a download completes, the walk over the listing
      stops. */
  lemma ListedKeysStop(b: Bucket, env: Env, dirs: set<string>, r: string, local: string)
    requires IsDir(r) && Sep !in StripChar(r, Sep) && r in b.keys
    requires IsLocalDir(dirs, local) && Normpath(local + "/") == local
    requires DownloadSingle(env, dirs, r, local).plan.stop.None?
    ensures DownloadKeys(env, DownloadSingle(env, dirs, r, local).dirs, ListAll(b, r), local).stop.Some?
  {
    var first := DownloadSingle(env, dirs, r, local);
    var step := ListedStep(env, local);
    MarkerStepStops(env, dirs, r, local);
    ListedStepKeepsDirs(env, local);
    MarkerListed(b, r);
    ThreadStopsAtKey(first.dirs, ListAll(b, r), step, r, first.dirs);
  }

  /** No listed step removes a local directory. */
  lemma ListedStepKeepsDirs(env: Env, local: string)
    ensures forall d, k :: d <= ListedStep(env, local)(d, k).dirs
  {
    forall d, k ensures d <= ListedStep(env, local)(d, k).dirs {
      DownloadSingleStops(env, d, k, ListedLocal(local, k));
    }
  }

  /** A directory's own marker is in its listing. */
  lemma MarkerListed(b: Bucket, r: string)
    requires r in b.keys
    ensures r in ListAll(b, r)
  {
  }

  /** Once the first step of such a download has created `local/name/`, the listed
      marker's step stops whatever directories were created after it. */
  lemma MarkerStepStops(env: Env, dirs: set<string>, r: string, local: string)
    requires IsDir(r) && Sep !in StripChar(r, Sep)
    requires IsLocalDir(dirs, local) && Normpath(local + "/") == local
    requires DownloadSingle(env, dirs, r, local).plan.stop.None?
    ensures forall d :: DownloadSingle(env, dirs, r, local).dirs <= d ==>
      ListedStep(env, local)(d, r).plan.stop.Some?
  {
    var target := DownloadTarget(dirs, r, local);
    var first := DownloadSingle(env, dirs, r, local);
    assert first == MakeDir(dirs, r, local, target);
    TopDirListedLocal(local, r);
    forall d | first.dirs <= d ensures ListedStep(env, local)(d, r).plan.stop.Some? {
      assert DownloadTarget(d, r, local) == target;
      assert DownloadSingle(env, d, r, local) == MakeDir(d, r, local, target);
    }
  }

  /** A listed top-level key is downloaded into the local root itself. */
  lemma TopDirListedLocal(local: string, r: string)
    requires Sep !in StripChar(r, Sep) && Normpath(local + "/") == local
    ensures ListedLocal(local, r) == local
  {
    KeySegments(r);
    assert local + "/" + ParentPath(r) == local + "/";
  }

  /** A listed key is re-rooted below `local` by its whole parent path, counted from the
      bucket root and not from the directory being downloaded: a key `p/name` or
      `p/name/` goes into `normpath(local/p)`. */
  lemma ListedLocalNested(local: string, p: string, name: string, isDir: bool)
    requires p != "" && p[0] != Sep && name != "" && Sep !in name
    ensures ListedLocal(local, p + "/" + name + (if isDir then "/" else "")) == Normpath(local + "/" + p)
  {
    var key := p + "/" + name + (if isDir then "/" else "");
    StripNested(p, name, isDir);
    NestedKeySegments(key, p, name);
  }

  /** Downloading a nested directory `p/name/` into an existing local directory: the key
      itself creates `local/name/`, but its own marker is then sent to `normpath(local/p)`
      and a child `p/name/child` to `normpath(local/p/name)`, neither of them inside the
      directory just made. */
  lemma NestedDirDownloadSplits(dirs: set<string>, local: string, p: string, name: string, child: string)
    requires IsLocalDir(dirs, local)
    requires p != "" && Sep !in p && name != "" && Sep !in name && child != "" && Sep !in child
    ensures DownloadTarget(dirs, p + "/" + name + "/", local) == local + "/" + name + "/"
    ensures ListedLocal(local, p + "/" + name + "/") == Normpath(local + "/" + p)
    ensures ListedLocal(local, p + "/" + name + "/" + child) == Normpath(local + "/" + p + "/" + name)
  {
    NestedDirTarget(dirs, local, p, name);
    ListedLocalNested(local, p, name, true);
    NestedChildLocal(local, p, name, child);
  }

  /** The nested directory key `p/name/` itself goes to `local/name/`. */
  lemma NestedDirTarget(dirs: set<string>, local: string, p: string, name: string)
    requires IsLocalDir(dirs, local)
    requires p != "" && p[0] != Sep && name != "" && Sep !in name
    ensures DownloadTarget(dirs, p + "/" + name + "/", local) == local + "/" + name + "/"
  {
    var r := p + "/" + name + "/";
    assert r == p + "/" + name + (if true then "/" else "");
    assert EndsWith(r, "/");
    TrailingSepIsDir(r);
    StripNested(p, name, true);
    NestedKeySegments(r, p, name);
  }

  /** A child of `p/name/` is downloaded into `normpath(local/p/name)`. */
  lemma NestedChildLocal(local: string, p: string, name: string, child: string)
    requires p != "" && p[0] != Sep && name != "" && child != "" && Sep !in child
    ensures ListedLocal(local, p + "/" + name + "/" + child) == Normpath(local + "/" + p + "/" + name)
  {
    var q := p + "/" + name;
    assert q[0] == p[0];
    assert p + "/" + name + "/" + child == q + "/" + child + (if false then "/" else "");
    assert local + "/" + p + "/" + name == local + "/" + q;
    ListedLocalNested(local, q, child, false);
  }
}
