# YuiOss core in Dafny

A model of the path and key arithmetic of the YuiOss command-line client for Aliyun OSS,
and of the per-object plans its commands produce, together with proofs about them.

The model covers `OssFileManager` in `yui_oss/manager.py`:

- `norm_path` and `is_dir`, on top of a POSIX `os.path.normpath`;
- `md5_to_base64` and `base64_to_md5`: base16 decoding and base64 encoding, as in
  sections 8 and 4 of RFC 4648;
- `list_dir`, as a filter over a sorted key list;
- `upload`, `download`, `delete`, `copy` and `move`.

It also covers the `Console` of `yui_oss/console.py`:

- `cd`, which recomputes the remote current directory `root` and decides whether to persist it;
- how remote arguments are resolved against `root`;
- the argument-count checks of `ul`, `dl`, `cp`, `mv` and `rm`;
- the key filter of `ls`.

Every manager operation is a pure function from its arguments to an `Outcome`. An
`Outcome` is the ordered trace of what the operation does, plus the error it raises, if
any. The trace records store calls, local directory creations, and `on_success` /
`on_error` callbacks.

The object store is modelled as follows:

- The bucket is a strictly sorted sequence of keys (`Store.Bucket`). Object contents
  never influence a plan.
- The store's answer to each call comes from an oracle, `Plans.Env.reply`. The answer is
  an HTTP status or a raised exception.
- `Plans.Handlers` records whether the callbacks are the console's own 4-parameter
  methods or callbacks that accept any call.

Modules:

- `Outcomes`: `Option`.
- `Text`: Python's `strip`, `split`, `join` and `replace` on strings.
- `PosixPath`: `posixpath.normpath`, `join` and `basename`.
- `Digest`: hex and base64 conversion.
- `RemotePath`: `norm_path`, `is_dir`, and the parent prefix used by copy and move.
- `Store`: `list_dir`.
- `Plans`: events, plans, and walking over a listing.
- `Objects`: `delete`, `copy` and `move`.
- `Transfer`: `upload` and `download`.
- `Console`: the console commands.

Where the code and its documentation disagree, the model follows the code:

- `norm_path('')` is `./`.
- `norm_path('a/..')` is `.`, and normalising that again gives `./`. So `norm_path` is not
  idempotent.
- `is_dir` looks only at the shape of the string. `cd` never asks the store whether a
  directory exists.
- A copy of a single object fires `on_success`.
- `copy_single` and `move_single` call `on_error` with three arguments, not four
  (`yui_oss/manager.py:262`, `yui_oss/manager.py:300`). Against the console's
  4-parameter `on_error` that call raises `TypeError`, and the operation stops with its
  own error class. With callbacks that accept any call, a move whose copy failed still
  deletes the original and, when the store accepts the delete, reports success.
- `copy` rejects a directory source whose destination is not directory-shaped with
  `YuiMoveException`. The outer handler then re-wraps it as a copy error.
- The upload callbacks receive the normalised `remote`, not the key that was written.
  A directory's own callback comes after all of its children's events.
- A recursive download places every listed key below the local destination by the
  key's whole parent path, counted from the bucket root and not from the directory being
  downloaded (`yui_oss/manager.py:212-213`). For a nested directory `p/name/` the first
  step creates `local/name/`, but the listed marker goes to `normpath(local/p)` and a
  child `p/name/c` to `normpath(local/p/name)`, outside the directory just created.
- For a top-level directory downloaded into an existing local directory, the listed
  marker maps to the directory the first step created, so `os.mkdir` raises and the
  download always ends with `YuiDownloadException` once the marker exists.
- A single object copied or moved into a directory is rewritten by replacing its parent
  prefix with the destination (`yui_oss/manager.py:280-282`, `yui_oss/manager.py:320-322`).
  A top-level key has the prefix `/`, which it does not contain, so it keeps its own
  key: the copy is onto itself, and a move copies the object onto itself and then
  deletes it, so the object is gone.

## Model

| member | source | states |
|---|---|---|
| RemotePath.IsDirIffTrailingSep | yui_oss/manager.py:358-366 | a path is directory-shaped exactly when its normalised form ends with `/` |
| RemotePath.NormPathDirectoryShape | yui_oss/manager.py:349-356 | a stripped path that ends with `/` or is `''`, `.` or `..` normalises to something ending with `/`; any other path normalises to exactly `normpath` of the stripped path, with no `/` appended |
| RemotePath.NormPathRoot | yui_oss/manager.py:351-353 | a path whose `normpath` is the root becomes exactly `/` |
| RemotePath.NormPathCanonical | yui_oss/manager.py:349-356 | every normalised key is a canonical `normpath` result (no empty or `.` component, `..` only as a leading run of a relative path), possibly followed by one `/` |
| RemotePath.NormPathKeepsDir | yui_oss/manager.py:349-366 | normalising a directory-shaped path gives a directory-shaped path |
| RemotePath.TrailingSepIsDir | yui_oss/manager.py:365-366 | every path ending with `/` is a directory |
| RemotePath.NormPathOfDot | yui_oss/manager.py:349-356 | `.` normalises to `./` |
| RemotePath.NormPathNotIdempotent | yui_oss/manager.py:349-356 | `a/..` normalises to `.`, which normalises to `./` |
| RemotePath.ParentPrefixIsPrefix | yui_oss/manager.py:275 | the parent prefix of a relative key with at least two segments is a proper prefix of the key, other than `/` |
| RemotePath.ParentPrefixOfTopLevel | yui_oss/manager.py:275 | the parent prefix of a single-segment key is `/` |
| RemotePath.KeySegments | yui_oss/manager.py:191 | with the separators at both ends stripped, a key with a single segment is its own last segment and has an empty parent path, and any other key is its parent path, one `/` and its last segment |
| PosixPath.NormpathIdempotent | yui_oss/manager.py:351 | `normpath` applied twice equals `normpath` applied once |
| PosixPath.NormpathKeepsAbsolute | yui_oss/manager.py:351 | a path starts with `/` exactly when its `normpath` does |
| PosixPath.BasenameOfJoin | yui_oss/manager.py:150-161 | the last path component of `join(dir, name)` is `name` |
| Digest.HexDecode | yui_oss/manager.py:370 | hex decoding succeeds exactly on even-length hex strings and gives half as many bytes |
| Digest.HexDecodeEncode | yui_oss/manager.py:370 | hex-decoding the hex encoding of bytes gives back the bytes |
| Digest.HexEncodeDecode | yui_oss/manager.py:374 | hex-encoding the decoding of a lowercase even-length hex string gives back the string |
| Digest.Base64DecodeEncode | yui_oss/manager.py:370-374 | base64-decoding the base64 encoding of bytes gives back the bytes |
| Digest.Md5ToBase64 | yui_oss/manager.py:368-370 | the conversion succeeds exactly on even-length hex strings; otherwise it raises |
| Digest.Base64ToMd5 | yui_oss/manager.py:372-374 | a successful conversion gives lowercase hex of even length |
| Digest.Md5RoundTrip | yui_oss/manager.py:368-374 | for lowercase even-length hex `h`, `base64_to_md5(md5_to_base64(h)) == h` |
| Digest.Base64RoundTrip | yui_oss/manager.py:368-374 | for every base64 encoding `b` of bytes, `md5_to_base64(base64_to_md5(b)) == b` |
| Digest.Base64Length | yui_oss/manager.py:370 | the base64 encoding of `n` bytes has `4 * ceil(n / 3)` characters |
| Digest.Md5HeaderLength | yui_oss/manager.py:155-157 | the `Content-MD5` header of a 32-digit hex digest has 24 characters |
| Store.ListAll | yui_oss/manager.py:328-338 | the full listing holds exactly the bucket's keys that start with `root` |
| Store.ListAllSorted | yui_oss/manager.py:336 | the full listing of a sorted bucket is in lexicographic order, so it never repeats a key |
| Store.ListChildren | yui_oss/manager.py:336 | the delimited listing holds exactly the child entries of the keys below `root`, with everything past the first separator folded into a common prefix; for a sorted bucket it is strictly sorted, so no entry appears twice |
| Store.ListChildrenShape | yui_oss/manager.py:336 | a key below `root` with no separator after `root` is listed as itself |
| Plans.WalkComplete | yui_oss/manager.py:276-278 | a loop over a listing completes exactly when every step completes, and its trace is then the steps' traces in listing order |
| Plans.WalkStops | yui_oss/manager.py:276-278 | a loop stops for the reason of its first stopping step, after the traces of the steps before it |
| Plans.WalkStopsWith | yui_oss/manager.py:276-278 | a loop that stops does so for a reason one of its steps can stop for |
| Plans.WalkSources | yui_oss/manager.py:276-278 | a completed loop fires, in listing order, the callbacks each of its steps fires |
| Objects.DeleteSingle | yui_oss/manager.py:228-234 | one `delete_object` of the key, completing exactly when the store answers; the answer then fires one callback for the key, `on_error("delete", key, None)` for a status of 400 or more and `on_success("delete", key, None)` otherwise; a raising store fires no callback |
| Objects.CopySingle | yui_oss/manager.py:259-265 | one `copy_object` from source to destination; an answer of 400 or more fires the 3-argument `on_error(src, dest)`, any other answer `on_success("copy", src, dest)`; it completes exactly when the store answers and the error callback, if any, accepts its call, and then reports the source once; it stops only on a raising store or on the 3-argument call |
| Objects.MoveDelete | yui_oss/manager.py:301-306 | one `delete_object` of the original, completing exactly when the store answers; the answer then fires `on_error("move", old, new)` for 400 or more and `on_success("move", old, new)` otherwise |
| Objects.MoveSingle | yui_oss/manager.py:297-306 | a copy, then a delete of the original exactly when the copy went through; a failed copy fires the 3-argument `on_error` first; a completed move reports the source once more for a failed copy, and its last event is the `move` callback for the delete's status; it stops only on a raising store or on the 3-argument call |
| Objects.Reverse | yui_oss/manager.py:239-240 | the reversed listing has the same length, with element `i` taken from position `n - 1 - i` |
| Objects.CopyDirRejection | yui_oss/manager.py:270-286 | a directory copy to a non-directory fails with the move error re-wrapped as a copy error, and one into the source fails with a copy error, both before any store call; any other failure comes after a store call |
| Objects.MoveDirRejection | yui_oss/manager.py:310-314 | the same two rejections for move, both raised as move errors before any store call |
| Objects.CopyDirCalls | yui_oss/manager.py:275-278 | an accepted directory copy issues exactly one `copy_object` per listed key, in listing order, each to the key's destination; it completes exactly when every copy goes through |
| Objects.MoveDirCalls | yui_oss/manager.py:315-318 | an accepted directory move issues, per listed key in listing order, the copy to its destination and then the delete of the key; it completes exactly when every copy and delete goes through |
| Objects.MoveDeletesAfterFailedCopy | yui_oss/manager.py:298-306 | with callbacks that accept any call, a move whose copy answered an error still deletes the original and, when the store accepts the delete, reports the move as a success |
| Objects.MoveKeepsSourceAfterFailedCopy | yui_oss/manager.py:298-300 | with the console's callbacks, a failed copy stops the move before the delete |
| Objects.CopyFileReportsSuccess | yui_oss/manager.py:279-283 | a single-object copy that the store accepts issues one copy and fires `on_success` |
| Objects.DeleteDirRefused | yui_oss/manager.py:243-244 | a non-recursive delete of any directory-shaped path fails with a delete error after no store call |
| Objects.DeleteDirCalls | yui_oss/manager.py:237-242 | a recursive delete issues one `delete_object` per listed key, in exactly the reverse of listing order, and completes exactly when the store answers every one |
| Objects.DeleteDirReports | yui_oss/manager.py:237-242 | a completed recursive delete fires one callback per listed key, in exactly the reverse of listing order |
| Objects.CopyDirReports | yui_oss/manager.py:275-278 | a completed directory copy fires one callback per listed key, in listing order |
| Objects.MoveDirReports | yui_oss/manager.py:315-318 | a completed directory move fires, per listed key in listing order, the 3-argument `on_error` if its copy failed and then the `move` callback; with the console's handlers that is one callback per listed key |
| Objects.DeleteErrors | yui_oss/manager.py:235-248 | `delete` raises only `YuiDeleteException`, for a directory refused by a non-recursive delete or for a store call that raised |
| Objects.CopyErrors | yui_oss/manager.py:267-286 | `copy` raises only `YuiCopyException`, wrapping the move error for a non-directory destination, the copy error for a destination inside the source, a raising store, or the failing 3-argument `on_error` |
| Objects.MoveErrors | yui_oss/manager.py:307-326 | `move` raises only `YuiMoveException`, for the same four reasons |
| Objects.DeleteFileCalls | yui_oss/manager.py:245-246 | deleting a non-directory issues exactly one `delete_object` of that key |
| Objects.DirDestKeyTopLevel | yui_oss/manager.py:277 | for a top-level source directory, every key is prefixed with the destination as a whole, so `x/` copied to `y/` gives `y/x/...` |
| Objects.DirDestKeyNested | yui_oss/manager.py:275-277 | for a nested source whose parent prefix occurs in a key only at its start, the destination key is the destination followed by the rest of the key |
| Objects.DirDestKeyRewritesEveryOccurrence | yui_oss/manager.py:275-277 | `replace` rewrites every occurrence: copying `a/b/` to `c/` sends `a/b/a/x` to `c/b/c/x` |
| Objects.CopyTopLevelFileOntoItself | yui_oss/manager.py:280-283 | a top-level object copied into a directory is copied onto its own key |
| Objects.MoveTopLevelFileDeletesIt | yui_oss/manager.py:319-323 | a top-level object moved into a directory, with a successful copy, is copied onto its own key and then deleted |
| Transfer.UploadDestOfDir | yui_oss/manager.py:150-151 | the destination of a local directory always ends with `/` and is directory-shaped |
| Transfer.UploadNeverRejectsDestination | yui_oss/manager.py:150-154 | the "remote path should be a directory" rejection never happens: an upload stops only on a digest `md5_to_base64` rejects or a raising store |
| Transfer.UploadErrors | yui_oss/manager.py:147-175 | `upload` raises only `YuiUploadException`, for a bad digest or a raising store |
| Transfer.UploadEntryDest | yui_oss/manager.py:159-163 | an entry `name` of a directory uploaded to `dest` is written at `name` below the normalised `dest`, with `/` appended for a directory |
| Transfer.UploadDirShallow | yui_oss/manager.py:152-159 | a non-recursive upload of a directory writes only the `$DIR$` marker, with its digest header, then reports |
| Transfer.UploadFile | yui_oss/manager.py:164-173 | uploading a file puts it at its destination with a header that decodes back to the file's digest, then reports with the local path and the normalised remote |
| Transfer.UploadCounts | yui_oss/manager.py:152-173 | a completed recursive upload puts one object and fires one callback per node of the local tree; the first event writes the destination and the last is the node's own callback |
| Transfer.DirCounts | yui_oss/manager.py:152-173 | the same for a directory: marker first, its own callback after all of its children's events |
| Transfer.EntriesCounts | yui_oss/manager.py:160-163 | completed child uploads together put one object and fire one callback per node below the directory |
| Transfer.DownloadSingleReports | yui_oss/manager.py:190-203 | a completed single download fires exactly one callback, for the remote key |
| Transfer.DownloadSources | yui_oss/manager.py:205-214 | a completed download reports the remote path first and then, when it is a directory downloaded recursively, every listed key in listing order |
| Transfer.DownloadKeysSources | yui_oss/manager.py:211-214 | a completed walk over a listing reports exactly the listed keys, in order |
| Transfer.ListedLocalNested | yui_oss/manager.py:212-213 | a listed key `p/name` or `p/name/` is downloaded into `normpath(local/p)`: its whole parent path from the bucket root, not the part below the downloaded directory |
| Transfer.NestedDirDownloadSplits | yui_oss/manager.py:191-214 | for a nested directory `p/name/` with a single-segment `p`, downloaded into an existing local directory, the key itself goes to `local/name/`, while its listed marker goes to `normpath(local/p)` and a child `p/name/c` to `normpath(local/p/name)` |
| Transfer.DownloadKeepsName | yui_oss/manager.py:191 | downloading an object into an existing local directory keeps the object's last segment as the file name |
| Transfer.DownloadErrors | yui_oss/manager.py:205-217 | `download` raises only `YuiDownloadException`, for a local directory that is already there or a raising store |
| Transfer.DownloadTopDirNeverCompletes | yui_oss/manager.py:190-214 | a recursive download of a top-level directory whose marker exists, into an existing local directory, never completes: the listed marker maps to the directory the first step created, and `os.mkdir` raises |
| Transfer.DownloadMakesDir | yui_oss/manager.py:192-195 | downloading a directory key creates a local directory ending with `/`; it fails exactly when that directory already exists |
| Console.CdNoArgument | yui_oss/console.py:84-105 | `cd` with no argument sets `root` to the bucket root and persists it |
| Console.CdRejectsNonDirectory | yui_oss/console.py:89-91 | `cd` to a path that is not directory-shaped leaves `root` as it was and persists nothing |
| Console.CdLeavesCleanRoot | yui_oss/console.py:92-103 | after a `cd` that moves, `root` is empty or ends with `/`, and has no `.` or `..` segment |
| Console.CdAbsoluteIgnoresRoot | yui_oss/console.py:92-93 | a directory-shaped `cd` argument starting with `/` gives the same result from every current `root`; one that is not directory-shaped leaves each `root` unchanged |
| Console.CdUp | yui_oss/console.py:92-103 | `cd ..` drops the last segment of a clean root and keeps the bucket root as it is |
| Console.CdChildThenUp | yui_oss/console.py:92-103 | `cd name/` followed by `cd ..` returns to the root it started from |
| Console.ResolveSegmentsClean | yui_oss/console.py:96-102 | the segment loop never keeps a `.` or `..` segment |
| Console.ResolveSegmentsPlain | yui_oss/console.py:96-102 | segments without `.` and `..` are kept as given |
| Console.ResolveSegmentsAppend | yui_oss/console.py:96-102 | resolving two runs of segments equals resolving the first and continuing with the second |
| Console.ResolveArg | yui_oss/console.py:168-169 | an argument starting with `/` resolves to itself minus the `/`; any other resolves to `root` followed by the argument |
| Console.ResolveArgAbsolute | yui_oss/console.py:186-187 | an argument starting with `/` resolves the same from every `root` |
| Console.Dispatch | yui_oss/console.py:119-210 | a command yields a manager call exactly when it has its required argument count: one for `rm`, two for the others |
| Console.DispatchAbsolute | yui_oss/console.py:159-193 | a command whose arguments all start with `/` makes the same manager call from every `root` |
| Console.RunCommand | yui_oss/console.py:201-203 | a command with the wrong argument count makes no store call and raises nothing |
| Console.LsEntries | yui_oss/console.py:114 | `ls` shows every listed key other than `root`, with `root` removed, and nothing else |
| Console.LsCount | yui_oss/console.py:114-116 | the reported count is the number of listed keys other than `root` |
| Console.LsAllCount | yui_oss/console.py:114-115 | `ls -a` on a sorted bucket shows one entry per key below `root`, leaving out only `root`'s own marker |
| Console.LsChildrenCount | yui_oss/console.py:113-115 | `ls` without `-a` on a sorted bucket shows one entry per distinct child entry, leaving out only `root`'s own marker |
| Console.LsAtBucketRoot | yui_oss/console.py:114 | at the bucket root `ls` shows the listed keys unchanged |
| Console.LsShowsRest | yui_oss/console.py:114 | a key in which `root` occurs only as its prefix is shown as the rest of the key |

## Left out

- Network transport, authentication, and the `oss2` `Bucket`, `Service` and
  `ObjectIterator`. The store is a sorted key list, and each call is answered by the
  `Env.reply` oracle. That oracle gives the same answer to the same call every time.
  Listing never fails in the model. In the source, the `ObjectIterator` fetch runs inside
  each operation's `try` and would raise that operation's own error class. So
  `Objects.DeleteErrors`, `Objects.CopyErrors`, `Objects.MoveErrors` and
  `Transfer.DownloadErrors` do not name a failed listing as a cause.
- Bucket management (`list_bucket`, `change_bucket`, `create_bucket`, `delete_bucket`),
  `get_md5` and `is_exist`: each is a single remote call.
- `os.path.abspath`: local paths enter the model as given. `Console.RunCommand` passes
  the local arguments of `ul` and `dl` on unchanged, so a relative local path is
  modelled as it was typed, not as its absolute form.
- `os.listdir`: the local tree (`Transfer.LocalNode`) lists children in the order
  `listdir` would return them.
- File hashing (`utils.file_md5`): a file's digest is part of the local tree.
- Local directories: the local-directory check is an oracle, a set of existing
  directories compared after `normpath`. Failures of `os.mkdir` other than "already
  exists" are not modelled: a missing parent, or a file in the way.
- `get_object_to_file` writing the file: only the call is recorded.
- Progress callbacks and `on_progress`: floating-point percentages and terminal output.
- YAML persistence of the console attributes: `cd` returns a flag saying whether the
  attributes are written back.
- argparse, colorama, printing, and the `__getattribute__` dispatch of console commands.
- The console prints the `YuiException` an operation raises, and carries on. The model
  returns the error in the `Outcome` instead.
- `None` callbacks: the console always passes both handlers.
- Windows `ntpath` behaviour: `os.sep` is `/`.
- Whitespace beyond ASCII in `strip`.
- Python's lenient base64 decoding, which discards characters outside the alphabet:
  `Digest.Base64ToMd5` rejects them, and accepts only a multiple of four characters
  with at most two `=` at the end.
- Pagination of the listing, which `ObjectIterator` fetches lazily.
- Transfer.UploadFile: covers an upload the store answers, not a raising store.
- Transfer.UploadCounts: covers uploads that complete, not the trace of a stopped one.
- Transfer.DownloadSources: states the callback sources of a completed download only.
