/**
  The manager's store-side operations `delete`, `copy` and `move` (yui_oss/manager.py),
  as traces over a bucket listing and a store that answers each call.
 */
module Objects {
  import opened Outcomes
  import opened Text
  import opened PosixPath
  import opened RemotePath
  import opened Store
  import opened Plans

  /** `delete_single`: delete one key and report the status to `on_error` (400 or more)
      or `on_success`, with method name `delete` and no destination. */
  function DeleteSingle(env: Env, key: string): (p: Plan)
    ensures Calls(p.events) == [DeleteObject(key)]
    ensures p.stop.None? <==> env.reply(DeleteObject(key)).Status?
    ensures p.stop.Some? ==> p.stop.value == StoreRaised && Callbacks(p.events) == 0
    ensures p.stop.None? ==>
      && |p.events| == 2
      && ReportsStatus(p.events[1], Delete, env.reply(DeleteObject(key)).code, key, None)
      && CallbackSources(p.events) == [key]
  {
    var p := Issue(env, DeleteObject(key), code => Done([Report(Delete, code, key, None)]));
    assert p.events[1..] == if p.stop.Some? then [] else [Report(Delete, env.reply(DeleteObject(key)).code, key, None)];
    p
  }

  /** `copy_single`: copy one object; an error status goes to the 3-argument `on_error`
      (which stops the walk when the handler takes four parameters), any other status to
      `on_success` with method name `copy`. */
  function CopySingle(env: Env, src: string, dest: string): (p: Plan)
    ensures Calls(p.events) == [CopyObject(src, dest)]
    ensures p.stop.None? <==> CopyGoesThrough(env, src, dest)
    ensures p.stop.Some? ==> p.stop.value == StoreRaised || p.stop.value == HandlerArity
    ensures env.reply(CopyObject(src, dest)).Raised? ==> Callbacks(p.events) == 0
    ensures var c := env.reply(CopyObject(src, dest));
      c.Status? ==>
        && |p.events| == 2
        && (IsErrorStatus(c.code) ==> p.events[1] == OnError3(src, dest))
        && (!IsErrorStatus(c.code) ==> p.events[1] == OnSuccess(Copy, src, Some(dest)))
    ensures p.stop.None? ==> CallbackSources(p.events) == [src]
  {
    var p := Issue(env, CopyObject(src, dest), code =>
      if IsErrorStatus(code) then ShortError(env, src, dest)
      else Done([OnSuccess(Copy, src, Some(dest))]));
    assert Calls(p.events[1..]) == [];
    assert env.reply(CopyObject(src, dest)).Status? ==> p.events[1..] == [p.events[1]];
    p
  }

  /** The 3-argument `on_error(src, dest, res)` of the copy and move helpers. The console's
      handlers take four parameters, so the call raises a `TypeError` and the walk stops. */
  function ShortError(env: Env, src: string, dest: string): (p: Plan)
    ensures p.events == [OnError3(src, dest)]
    ensures p.stop.Some? <==> env.handlers == FourParameters
  {
    if env.handlers == FourParameters then Stop([OnError3(src, dest)], HandlerArity)
    else Done([OnError3(src, dest)])
  }

  /** The store answers a copy, and an error status does not reach a handler that
      rejects the 3-argument call. */
  predicate CopyGoesThrough(env: Env, src: string, dest: string) {
    var c := env.reply(CopyObject(src, dest));
    c.Status? && (IsErrorStatus(c.code) ==> env.handlers == AnyArity)
  }

  /** The delete half of `move_single`: delete the original and report the status with
      method name `move` and the target as destination. */
  function MoveDelete(env: Env, source: string, target: string): (p: Plan)
    ensures Calls(p.events) == [DeleteObject(source)]
    ensures p.stop.None? <==> env.reply(DeleteObject(source)).Status?
    ensures p.stop.Some? ==> p.stop.value == StoreRaised && Callbacks(p.events) == 0
    ensures p.stop.None? ==>
      && |p.events| == 2
      && ReportsStatus(p.events[1], Move, env.reply(DeleteObject(source)).code, source, Some(target))
      && CallbackSources(p.events) == [source]
  {
    var p := Issue(env, DeleteObject(source), code => Done([Report(Move, code, source, Some(target))]));
    assert p.events[1..] == if p.stop.Some? then [] else [Report(Move, env.reply(DeleteObject(source)).code, source, Some(target))];
    p
  }

  /** The sources of the callbacks of a completed `move_single`: the 3-argument
      `on_error` after a failed copy, then the report of the delete. */
  function MoveSources(env: Env, source: string, target: string): seq<string> {
    var c := env.reply(CopyObject(source, target));
    if c.Status? && IsErrorStatus(c.code) then [source, source] else [source]
  }

  /** `move_single`: copy, report a failed copy with the 3-argument `on_error`, then delete
      the original whatever the copy's status was, and report the delete. The delete is
      reached exactly when the copy goes through; the move completes when the delete is
      answered too, and its last event is then the report of the delete. */
  function MoveSingle(env: Env, source: string, target: string): (p: Plan)
    ensures Calls(p.events) ==
      [CopyObject(source, target)] + (if CopyGoesThrough(env, source, target) then [DeleteObject(source)] else [])
    ensures p.stop.None? <==>
      CopyGoesThrough(env, source, target) && env.reply(DeleteObject(source)).Status?
    ensures p.stop.Some? ==> p.stop.value == StoreRaised || p.stop.value == HandlerArity
    ensures var c := env.reply(CopyObject(source, target));
      c.Status? && IsErrorStatus(c.code) ==> |p.events| >= 2 && p.events[1] == OnError3(source, target)
    ensures p.stop.None? ==>
      && CallbackSources(p.events) == MoveSources(env, source, target)
      && ReportsStatus(p.events[|p.events| - 1], Move, env.reply(DeleteObject(source)).code, source, Some(target))
  {
    var copy := CopyObject(source, target);
    var k := code =>
      Then(if IsErrorStatus(code) then ShortError(env, source, target) else Done([]),
           MoveDelete(env, source, target));
    var p := Issue(env, copy, k);
    if env.reply(copy).Raised? then p
    else
      var first := if IsErrorStatus(env.reply(copy).code) then ShortError(env, source, target) else Done([]);
      var second := MoveDelete(env, source, target);
      var q := k(env.reply(copy).code);
      assert p.events == [Call(copy)] + q.events;
      CallsAppend(first.events, second.events);
      CallbackSourcesAppend(first.events, second.events);
      assert Calls(q.events) == if first.stop.Some? then [] else [DeleteObject(source)];
      p
  }

  /** The destination of a listed key when a directory is copied or moved: below a
      top-level source (`prefix == "/"`) the destination is prepended, otherwise every
      occurrence of the source's parent prefix is rewritten. */
  function DirDestKey(prefix: string, dest: string, key: string): string {
    if prefix == "/" then dest + key else Replace(key, prefix, dest)
  }

  /** The destination of a single object copied or moved into a directory. */
  function FileDestKey(src: string, dest: string): string {
    Replace(src, ParentPrefix(src), dest)
  }

  /** `delete(remote, recursive)`: normalise, then `DeleteFrom`. */
  function DeletePlan(b: Bucket, env: Env, remote: string, recursive: bool): Outcome {
    Wrap(Delete, DeleteFrom(b, env, NormPath(remote), recursive))
  }

  /** The body of `delete` on an already normalised key. */
  function DeleteFrom(b: Bucket, env: Env, r: string, recursive: bool): Plan {
    if IsDir(r) then
      if recursive then Walk(Reverse(ListAll(b, r)), DeleteStep(env))
      else Stop([], DirectoryRefused)
    else DeleteSingle(env, r)
  }

  /** A recursive delete of a directory walks its listing backwards. */
  lemma DeleteFromDir(b: Bucket, env: Env, r: string)
    requires IsDir(r)
    ensures DeleteFrom(b, env, r, true) == Walk(Reverse(ListAll(b, r)), DeleteStep(env))
  {
  }

  function DeleteStep(env: Env): string -> Plan {
    k => DeleteSingle(env, k)
  }

  /** `copy(remote_src, remote_dest)`: normalise both, then `CopyFrom`. */
  function CopyPlan(b: Bucket, env: Env, src: string, dest: string): Outcome {
    Wrap(Copy, CopyFrom(b, env, NormPath(src), NormPath(dest)))
  }

  /** The body of `copy` on normalised keys. A non-directory destination for a directory
      raises the move error class, which the outer handler re-wraps as a copy error. */
  function CopyFrom(b: Bucket, env: Env, s: string, d: string): Plan {
    if IsDir(s) then
      if !IsDir(d) then Stop([], NotADirectory(Move))
      else if StartsWith(d, s) then Stop([], DestInsideSource(Copy))
      else Walk(ListAll(b, s), CopyStep(env, ParentPrefix(s), d))
    else CopySingle(env, s, FileTarget(s, d))
  }

  /** An accepted directory copy walks the listing of the source. */
  lemma CopyFromDir(b: Bucket, env: Env, s: string, d: string)
    requires IsDir(s) && IsDir(d) && !StartsWith(d, s)
    ensures CopyFrom(b, env, s, d) == Walk(ListAll(b, s), CopyStep(env, ParentPrefix(s), d))
  {
  }

  function CopyStep(env: Env, prefix: string, d: string): string -> Plan {
    k => CopySingle(env, k, DirDestKey(prefix, d, k))
  }

  /** Where a single object goes. For a directory destination, every occurrence of the
      key's parent prefix is replaced by the destination: a nested key lands under its
      last segment, but a top-level key has the prefix `/`, which it does not contain, so
      it stays where it is. Otherwise the destination key itself. */
  function FileTarget(s: string, d: string): string {
    if IsDir(d) then FileDestKey(s, d) else d
  }

  /** `move(remote_old, remote_new)`: normalise both, then `MoveFrom`. */
  function MovePlan(b: Bucket, env: Env, source: string, target: string): Outcome {
    Wrap(Move, MoveFrom(b, env, NormPath(source), NormPath(target)))
  }

  /** The body of `move` on normalised keys. */
  function MoveFrom(b: Bucket, env: Env, s: string, d: string): Plan {
    if IsDir(s) then
      if !IsDir(d) then Stop([], NotADirectory(Move))
      else if StartsWith(d, s) then Stop([], DestInsideSource(Move))
      else Walk(ListAll(b, s), MoveStep(env, ParentPrefix(s), d))
    else MoveSingle(env, s, FileTarget(s, d))
  }

  /** An accepted directory move walks the listing of the source. */
  lemma MoveFromDir(b: Bucket, env: Env, s: string, d: string)
    requires IsDir(s) && IsDir(d) && !StartsWith(d, s)
    ensures MoveFrom(b, env, s, d) == Walk(ListAll(b, s), MoveStep(env, ParentPrefix(s), d))
  {
  }

  function MoveStep(env: Env, prefix: string, d: string): string -> Plan {
    k => MoveSingle(env, k, DirDestKey(prefix, d, k))
  }

  function Reverse(s: seq<string>): (r: seq<string>)
    ensures |r| == |s| && forall i :: 0 <= i < |s| ==> r[i] == s[|s| - 1 - i]
  {
    if s == [] then [] else Reverse(s[1..]) + [s[0]]
  }

  /** Copying a directory into something that is not directory-shaped, or into itself or a
      directory below it, fails before any store call, with the error classes the source
      raises; otherwise the copy can only fail after a store call. */
  lemma CopyDirRejection(b: Bucket, env: Env, s: string, d: string)
    requires IsDir(s)
    ensures var o := Wrap(Copy, CopyFrom(b, env, s, d));
      && (!IsDir(d) ==> o == Outcome([], Some(Failure(Copy, NotADirectory(Move)))))
      && (IsDir(d) && StartsWith(d, s) ==> o == Outcome([], Some(Failure(Copy, DestInsideSource(Copy)))))
      && (IsDir(d) && !StartsWith(d, s) && o.error.Some? ==> |Calls(o.events)| >= 1)
  {
    if IsDir(d) && !StartsWith(d, s) {
      CopyWalkStopsAfterCall(env, ListAll(b, s), ParentPrefix(s), d);
    }
  }

  /** A stopped copy walk has issued at least one store call. */
  lemma CopyWalkStopsAfterCall(env: Env, keys: seq<string>, prefix: string, d: string)
    ensures var w := Walk(keys, CopyStep(env, prefix, d));
      w.stop.Some? ==> |Calls(w.events)| >= 1
  {
    var step := CopyStep(env, prefix, d);
    if Walk(keys, step).stop.Some? {
      forall i | 0 <= i < |keys| ensures |Calls(step(keys[i]).events)| >= 1 {
      }
      StoppedWalkCalls(keys, step);
    }
  }

  /** The same rejection rules for `move`, both raised as move errors. */
  lemma MoveDirRejection(b: Bucket, env: Env, s: string, d: string)
    requires IsDir(s)
    ensures var o := Wrap(Move, MoveFrom(b, env, s, d));
      && (!IsDir(d) ==> o == Outcome([], Some(Failure(Move, NotADirectory(Move)))))
      && (IsDir(d) && StartsWith(d, s) ==> o == Outcome([], Some(Failure(Move, DestInsideSource(Move)))))
      && (IsDir(d) && !StartsWith(d, s) && o.error.Some? ==> |Calls(o.events)| >= 1)
  {
    if IsDir(d) && !StartsWith(d, s) {
      MoveWalkStopsAfterCall(env, ListAll(b, s), ParentPrefix(s), d);
    }
  }

  /** A stopped move walk has issued at least one store call. */
  lemma MoveWalkStopsAfterCall(env: Env, keys: seq<string>, prefix: string, d: string)
    ensures var w := Walk(keys, MoveStep(env, prefix, d));
      w.stop.Some? ==> |Calls(w.events)| >= 1
  {
    var step := MoveStep(env, prefix, d);
    if Walk(keys, step).stop.Some? {
      forall i | 0 <= i < |keys| ensures |Calls(step(keys[i]).events)| >= 1 {
      }
      StoppedWalkCalls(keys, step);
    }
  }

  /** A stopped walk whose steps each start with a store call has issued a call. */
  lemma StoppedWalkCalls(keys: seq<string>, step: string -> Plan)
    requires forall i :: 0 <= i < |keys| ==> |Calls(step(keys[i]).events)| >= 1
    requires Walk(keys, step).stop.Some?
    ensures |Calls(Walk(keys, step).events)| >= 1
  {
    var i := FirstStop(keys, step);
    WalkStops(keys, step, i);
    CallsAppend(Flatten(keys[..i], step), step(keys[i]).events);
  }

  /** The index of the first step that stops. */
  function FirstStop(keys: seq<string>, step: string -> Plan): (i: nat)
    requires Walk(keys, step).stop.Some?
    ensures i < |keys| && step(keys[i]).stop.Some?
    ensures forall j :: 0 <= j < i ==> step(keys[j]).stop.None?
    decreases |keys|
  {
    if step(keys[0]).stop.Some? then 0
    else
      var i := FirstStop(keys[1..], step);
      assert forall m :: 1 <= m <= i ==> keys[m] == keys[1..][m - 1];
      1 + i
  }

  /** A directory copy that raises nothing issues exactly one copy per listed key, in
      listing order, each to the key's destination; it completes exactly when the source
      is accepted and every one of those copies goes through. */
  lemma CopyDirCalls(b: Bucket, env: Env, s: string, d: string)
    requires IsDir(s)
    ensures var o := Wrap(Copy, CopyFrom(b, env, s, d));
      var keys := ListAll(b, s);
      var prefix := ParentPrefix(s);
      && (o.error.None? <==>
            IsDir(d) && !StartsWith(d, s) &&
            forall i :: 0 <= i < |keys| ==> CopyGoesThrough(env, keys[i], DirDestKey(prefix, d, keys[i])))
      && (o.error.None? ==>
            |Calls(o.events)| == |keys| &&
            forall i :: 0 <= i < |keys| ==> Calls(o.events)[i] == CopyObject(keys[i], DirDestKey(prefix, d, keys[i])))
  {
    if IsDir(d) && !StartsWith(d, s) {
      var prefix := ParentPrefix(s);
      var keys := ListAll(b, s);
      var step := CopyStep(env, prefix, d);
      var f := k => [CopyObject(k, DirDestKey(prefix, d, k))];
      forall i | 0 <= i < |keys|
        ensures step(keys[i]).stop.None? <==> CopyGoesThrough(env, keys[i], DirDestKey(prefix, d, keys[i]))
        ensures Calls(step(keys[i]).events) == f(keys[i]) && |f(keys[i])| == 1
      {
        assert step(keys[i]) == CopySingle(env, keys[i], DirDestKey(prefix, d, keys[i]));
      }
      WalkComplete(keys, step);
      CallsOfFlatten(keys, step, f);
      FlatMapSingle(keys, f);
      CopyFromDir(b, env, s, d);
    }
  }

  /** A directory move that raises nothing issues, per listed key in listing order, the
      copy to the key's destination and then the delete of the key; it completes exactly
      when every copy goes through and every delete is answered. */
  lemma MoveDirCalls(b: Bucket, env: Env, s: string, d: string)
    requires IsDir(s)
    ensures var o := Wrap(Move, MoveFrom(b, env, s, d));
      var keys := ListAll(b, s);
      var prefix := ParentPrefix(s);
      && (o.error.None? <==>
            IsDir(d) && !StartsWith(d, s) &&
            forall i :: 0 <= i < |keys| ==>
              CopyGoesThrough(env, keys[i], DirDestKey(prefix, d, keys[i])) &&
              env.reply(DeleteObject(keys[i])).Status?)
      && (o.error.None? ==>
            |Calls(o.events)| == 2 * |keys| &&
            forall i :: 0 <= i < |keys| ==>
              Calls(o.events)[2 * i] == CopyObject(keys[i], DirDestKey(prefix, d, keys[i])) &&
              Calls(o.events)[2 * i + 1] == DeleteObject(keys[i]))
  {
    if IsDir(d) && !StartsWith(d, s) {
      var prefix := ParentPrefix(s);
      var keys := ListAll(b, s);
      var step := MoveStep(env, prefix, d);
      var f := k => [CopyObject(k, DirDestKey(prefix, d, k)), DeleteObject(k)];
      MoveWalk(env, prefix, d, keys);
      MoveFromDir(b, env, s, d);
    }
  }

  lemma MoveWalk(env: Env, prefix: string, d: string, keys: seq<string>)
    ensures var w := Walk(keys, MoveStep(env, prefix, d));
      && (w.stop.None? <==>
            forall i :: 0 <= i < |keys| ==>
              CopyGoesThrough(env, keys[i], DirDestKey(prefix, d, keys[i])) &&
              env.reply(DeleteObject(keys[i])).Status?)
      && (w.stop.None? ==>
            |Calls(w.events)| == 2 * |keys| &&
            forall i :: 0 <= i < |keys| ==>
              Calls(w.events)[2 * i] == CopyObject(keys[i], DirDestKey(prefix, d, keys[i])) &&
              Calls(w.events)[2 * i + 1] == DeleteObject(keys[i]))
  {
    var step := MoveStep(env, prefix, d);
    var f := k => [CopyObject(k, DirDestKey(prefix, d, k)), DeleteObject(k)];
    forall i | 0 <= i < |keys|
      ensures step(keys[i]).stop.None? <==>
        CopyGoesThrough(env, keys[i], DirDestKey(prefix, d, keys[i])) && env.reply(DeleteObject(keys[i])).Status?
      ensures step(keys[i]).stop.None? ==> Calls(step(keys[i]).events) == f(keys[i])
      ensures |f(keys[i])| == 2
    {
      MoveStepCalls(env, prefix, d, keys[i]);
    }
    WalkComplete(keys, step);
    if Walk(keys, step).stop.None? {
      CallsOfFlatten(keys, step, f);
      FlatMapPair(keys, f);
    }
  }

  /** One step of a directory move completes exactly when its copy goes through and its
      delete gets a status, and then issues the copy and the delete. */
  lemma MoveStepCalls(env: Env, prefix: string, d: string, k: string)
    ensures var t := DirDestKey(prefix, d, k);
      && (MoveStep(env, prefix, d)(k).stop.None? <==>
            CopyGoesThrough(env, k, t) && env.reply(DeleteObject(k)).Status?)
      && (MoveStep(env, prefix, d)(k).stop.None? ==>
            Calls(MoveStep(env, prefix, d)(k).events) == [CopyObject(k, t), DeleteObject(k)])
  {
    var t := DirDestKey(prefix, d, k);
    assert MoveStep(env, prefix, d)(k) == MoveSingle(env, k, t);
    assert [CopyObject(k, t)] + [DeleteObject(k)] == [CopyObject(k, t), DeleteObject(k)];
  }

  /** With handlers that accept the 3-argument call, a move whose copy fails still deletes
      the original and, when the store accepts the delete, reports the move as a
      success. */
  lemma MoveDeletesAfterFailedCopy(env: Env, source: string, target: string)
    requires env.handlers == AnyArity
    requires env.reply(CopyObject(source, target)).Status? && IsErrorStatus(env.reply(CopyObject(source, target)).code)
    requires env.reply(DeleteObject(source)).Status? && !IsErrorStatus(env.reply(DeleteObject(source)).code)
    ensures MoveSingle(env, source, target) == Done([
      Call(CopyObject(source, target)), OnError3(source, target),
      Call(DeleteObject(source)), OnSuccess(Move, source, Some(target))])
  {
  }

  /** With the console's 4-parameter handlers, a failed copy stops the move before the
      delete, so the original stays. */
  lemma MoveKeepsSourceAfterFailedCopy(env: Env, source: string, target: string)
    requires env.handlers == FourParameters
    requires env.reply(CopyObject(source, target)).Status? && IsErrorStatus(env.reply(CopyObject(source, target)).code)
    ensures MoveSingle(env, source, target) ==
      Stop([Call(CopyObject(source, target)), OnError3(source, target)], HandlerArity)
  {
  }

  /** A single object whose copy succeeds is reported to `on_success`. */
  lemma CopyFileReportsSuccess(b: Bucket, env: Env, s: string, d: string)
    requires !IsDir(s)
    requires var c := env.reply(CopyObject(s, FileTarget(s, d))); c.Status? && !IsErrorStatus(c.code)
    ensures Wrap(Copy, CopyFrom(b, env, s, d)) ==
      Outcome([Call(CopyObject(s, FileTarget(s, d))), OnSuccess(Copy, s, Some(FileTarget(s, d)))], None)
  {
  }

  /** A non-recursive delete refuses every directory-shaped path without a store call. */
  lemma DeleteDirRefused(b: Bucket, env: Env, r: string)
    requires IsDir(r)
    ensures Wrap(Delete, DeleteFrom(b, env, r, false)) == Outcome([], Some(Failure(Delete, DirectoryRefused)))
  {
  }

  /** A recursive delete of a directory issues one delete per listed key, in reverse
      listing order, and completes exactly when the store answers every one of them. */
  lemma DeleteDirCalls(b: Bucket, env: Env, r: string)
    requires IsDir(r)
    ensures var keys := ListAll(b, r); var o := Wrap(Delete, DeleteFrom(b, env, r, true));
      && (o.error.None? <==> forall i :: 0 <= i < |keys| ==> env.reply(DeleteObject(keys[i])).Status?)
      && (o.error.None? ==>
            |Calls(o.events)| == |keys| &&
            forall i :: 0 <= i < |keys| ==> Calls(o.events)[i] == DeleteObject(keys[|keys| - 1 - i]))
  {
    var keys := ListAll(b, r);
    DeleteWalkCalls(env, keys);
    DeleteFromDir(b, env, r);
  }

  /** Deleting keys in reverse order completes exactly when every delete gets a status,
      and then issues one delete per key, last key first. */
  lemma DeleteWalkCalls(env: Env, keys: seq<string>)
    ensures var o := Wrap(Delete, Walk(Reverse(keys), DeleteStep(env)));
      && (o.error.None? <==> forall i :: 0 <= i < |keys| ==> env.reply(DeleteObject(keys[i])).Status?)
      && (o.error.None? ==>
            |Calls(o.events)| == |keys| &&
            forall i :: 0 <= i < |keys| ==> Calls(o.events)[i] == DeleteObject(keys[|keys| - 1 - i]))
  {
    var order := Reverse(keys);
    var step := DeleteStep(env);
    var f := k => [DeleteObject(k)];
    WalkComplete(order, step);
    DeletesInAnyOrder(env, keys);
    forall i | 0 <= i < |order|
      ensures Calls(step(order[i]).events) == f(order[i]) && |f(order[i])| == 1
      ensures step(order[i]).stop.None? <==> env.reply(DeleteObject(order[i])).Status?
    {
    }
    CallsOfFlatten(order, step, f);
    FlatMapSingle(order, f);
  }

  /** Every delete of the reversed keys gets a status exactly when every delete of the
      keys does. */
  lemma DeletesInAnyOrder(env: Env, keys: seq<string>)
    ensures (forall i :: 0 <= i < |Reverse(keys)| ==> env.reply(DeleteObject(Reverse(keys)[i])).Status?) ==>
            (forall i :: 0 <= i < |keys| ==> env.reply(DeleteObject(keys[i])).Status?)
    ensures (forall i :: 0 <= i < |keys| ==> env.reply(DeleteObject(keys[i])).Status?) ==>
            (forall i :: 0 <= i < |Reverse(keys)| ==> env.reply(DeleteObject(Reverse(keys)[i])).Status?)
  {
    var order := Reverse(keys);
    if forall i :: 0 <= i < |order| ==> env.reply(DeleteObject(order[i])).Status? {
      forall i | 0 <= i < |keys| ensures env.reply(DeleteObject(keys[i])).Status? {
        assert order[|keys| - 1 - i] == keys[i];
      }
    }
    if forall i :: 0 <= i < |keys| ==> env.reply(DeleteObject(keys[i])).Status? {
      forall i | 0 <= i < |order| ensures env.reply(DeleteObject(order[i])).Status? {
        assert order[i] == keys[|keys| - 1 - i];
      }
    }
  }

  /** A completed recursive delete of a directory reports every listed key once, last
      key first: the callbacks' sources are the listing reversed. */
  lemma DeleteDirReports(b: Bucket, env: Env, r: string)
    requires IsDir(r)
    ensures var o := Wrap(Delete, DeleteFrom(b, env, r, true));
      o.error.None? ==> CallbackSources(o.events) == Reverse(ListAll(b, r))
  {
    var order := Reverse(ListAll(b, r));
    WalkReportsKeys(order, DeleteStep(env));
    DeleteFromDir(b, env, r);
  }

  /** A completed directory copy reports every listed key once, in listing order. */
  lemma CopyDirReports(b: Bucket, env: Env, s: string, d: string)
    requires IsDir(s)
    ensures var o := Wrap(Copy, CopyFrom(b, env, s, d));
      o.error.None? ==> CallbackSources(o.events) == ListAll(b, s)
  {
    if IsDir(d) && !StartsWith(d, s) {
      CopyWalkReports(env, ParentPrefix(s), d, ListAll(b, s));
      CopyFromDir(b, env, s, d);
    }
  }

  lemma CopyWalkReports(env: Env, prefix: string, d: string, keys: seq<string>)
    ensures var w := Walk(keys, CopyStep(env, prefix, d));
      w.stop.None? ==> CallbackSources(w.events) == keys
  {
    var step := CopyStep(env, prefix, d);
    forall i | 0 <= i < |keys| && step(keys[i]).stop.None?
      ensures CallbackSources(step(keys[i]).events) == [keys[i]]
    {
      assert step(keys[i]) == CopySingle(env, keys[i], DirDestKey(prefix, d, keys[i]));
    }
    WalkReportsKeys(keys, step);
  }

  /** A completed directory move reports, per listed key in listing order, the failed
      copy (if any) and then the delete; with the console's handlers no copy can have
      failed, so every listed key is reported exactly once. */
  lemma MoveDirReports(b: Bucket, env: Env, s: string, d: string)
    requires IsDir(s)
    ensures var o := Wrap(Move, MoveFrom(b, env, s, d));
      var prefix := ParentPrefix(s);
      && (o.error.None? ==>
            CallbackSources(o.events) == FlatMap(ListAll(b, s), k => MoveSources(env, k, DirDestKey(prefix, d, k))))
      && (o.error.None? && env.handlers == FourParameters ==> CallbackSources(o.events) == ListAll(b, s))
  {
    if IsDir(d) && !StartsWith(d, s) {
      MoveWalkReports(env, ParentPrefix(s), d, ListAll(b, s));
      MoveFromDir(b, env, s, d);
    }
  }

  lemma MoveWalkReports(env: Env, prefix: string, d: string, keys: seq<string>)
    ensures var w := Walk(keys, MoveStep(env, prefix, d));
      && (w.stop.None? ==>
            CallbackSources(w.events) == FlatMap(keys, k => MoveSources(env, k, DirDestKey(prefix, d, k))))
      && (w.stop.None? && env.handlers == FourParameters ==> CallbackSources(w.events) == keys)
  {
    var step := MoveStep(env, prefix, d);
    var g := k => MoveSources(env, k, DirDestKey(prefix, d, k));
    forall i | 0 <= i < |keys| && step(keys[i]).stop.None?
      ensures CallbackSources(step(keys[i]).events) == g(keys[i])
      ensures env.handlers == FourParameters ==> CallbackSources(step(keys[i]).events) == [keys[i]]
    {
      assert step(keys[i]) == MoveSingle(env, keys[i], DirDestKey(prefix, d, keys[i]));
    }
    WalkSources(keys, step, g);
    if env.handlers == FourParameters {
      WalkReportsKeys(keys, step);
    }
  }

  /** `delete` raises only its own error class: for a directory refused by a
      non-recursive delete, or for a store call that raised. */
  lemma DeleteErrors(b: Bucket, env: Env, remote: string, recursive: bool)
    ensures var o := DeletePlan(b, env, remote, recursive);
      o.error.Some? ==>
        && o.error.value.kind == Delete
        && (o.error.value.cause == DirectoryRefused || o.error.value.cause == StoreRaised)
        && (o.error.value.cause == DirectoryRefused ==> !recursive && IsDir(NormPath(remote)))
  {
    var r := NormPath(remote);
    if IsDir(r) && recursive {
      WalkStopsWith(Reverse(ListAll(b, r)), DeleteStep(env), c => c == StoreRaised);
    }
  }

  /** `copy` raises only its own error class. A directory copied to a key that is not
      directory-shaped was first raised as a move error; a copy into the source itself
      as a copy error; a walk stops on a raising store or on the 3-argument `on_error`. */
  lemma CopyErrors(b: Bucket, env: Env, src: string, dest: string)
    ensures var o := CopyPlan(b, env, src, dest);
      o.error.Some? ==>
        && o.error.value.kind == Copy
        && CopyCause(o.error.value.cause)
  {
    CopyFromStops(b, env, NormPath(src), NormPath(dest));
  }

  predicate CopyCause(c: Cause) {
    c == NotADirectory(Move) || c == DestInsideSource(Copy) || c == StoreRaised || c == HandlerArity
  }

  lemma CopyFromStops(b: Bucket, env: Env, s: string, d: string)
    ensures var p := CopyFrom(b, env, s, d); p.stop.Some? ==> CopyCause(p.stop.value)
  {
    if IsDir(s) && IsDir(d) && !StartsWith(d, s) {
      var keys, step := ListAll(b, s), CopyStep(env, ParentPrefix(s), d);
      var allowed := c => c == StoreRaised || c == HandlerArity;
      forall i | 0 <= i < |keys| && step(keys[i]).stop.Some? ensures allowed(step(keys[i]).stop.value) {
        assert step(keys[i]) == CopySingle(env, keys[i], DirDestKey(ParentPrefix(s), d, keys[i]));
      }
      WalkStopsWith(keys, step, allowed);
      CopyFromDir(b, env, s, d);
    }
  }

  /** `move` raises only its own error class, for the same reasons as `copy`. */
  lemma MoveErrors(b: Bucket, env: Env, source: string, target: string)
    ensures var o := MovePlan(b, env, source, target);
      o.error.Some? ==>
        && o.error.value.kind == Move
        && MoveCause(o.error.value.cause)
  {
    MoveFromStops(b, env, NormPath(source), NormPath(target));
  }

  predicate MoveCause(c: Cause) {
    c == NotADirectory(Move) || c == DestInsideSource(Move) || c == StoreRaised || c == HandlerArity
  }

  lemma MoveFromStops(b: Bucket, env: Env, s: string, d: string)
    ensures var p := MoveFrom(b, env, s, d); p.stop.Some? ==> MoveCause(p.stop.value)
  {
    if IsDir(s) && IsDir(d) && !StartsWith(d, s) {
      var keys, step := ListAll(b, s), MoveStep(env, ParentPrefix(s), d);
      var allowed := c => c == StoreRaised || c == HandlerArity;
      forall i | 0 <= i < |keys| && step(keys[i]).stop.Some? ensures allowed(step(keys[i]).stop.value) {
        assert step(keys[i]) == MoveSingle(env, keys[i], DirDestKey(ParentPrefix(s), d, keys[i]));
      }
      WalkStopsWith(keys, step, allowed);
      MoveFromDir(b, env, s, d);
    }
  }

  /** Deleting a file-shaped key issues exactly one delete, of that key, whether or not
      the delete is recursive. */
  lemma DeleteFileCalls(b: Bucket, env: Env, r: string, recursive: bool)
    requires !IsDir(r)
    ensures Calls(DeleteFrom(b, env, r, recursive).events) == [DeleteObject(r)]
  {
  }

  /** Below a top-level source directory, every key is copied to the destination followed
      by the whole key: `x/` copied to `y/` gives `y/x/...`. */
  lemma DirDestKeyTopLevel(src: string, dest: string, key: string)
    requires Sep !in StripChar(src, Sep)
    ensures DirDestKey(ParentPrefix(src), dest, key) == dest + key
  {
    ParentPrefixOfTopLevel(src);
  }

  /** Below a nested source directory, a key in which the parent prefix occurs only at
      the start keeps everything after that prefix. */
  lemma DirDestKeyNested(src: string, dest: string, key: string)
    requires !StartsWith(src, "/") && |Split(StripChar(src, Sep), Sep)| >= 2
    requires StartsWith(key, src)
    requires forall i :: |ParentPrefix(src)| <= i <= |key| ==> !OccursAt(key, ParentPrefix(src), i)
    ensures ParentPrefix(src) != "/"
    ensures |ParentPrefix(src)| <= |key|
    ensures DirDestKey(ParentPrefix(src), dest, key) == dest + key[|ParentPrefix(src)|..]
  {
    var prefix := ParentPrefix(src);
    ParentPrefixIsPrefix(src);
    assert StartsWith(key, prefix) by {
      assert key[..|prefix|] == src[..|prefix|];
    }
    ReplaceLeadingOnly(key, prefix, dest);
    assert DirDestKey(prefix, dest, key) == Replace(key, prefix, dest);
  }

  /** Stripping a character that does not occur changes nothing. */
  lemma StripAbsentChar(s: string, c: char)
    requires c !in s
    ensures StripChar(s, c) == s
  {
    assert TrimStart(s, x => x == c) == s by {
      if |s| > 0 { assert s[0] in s; }
    }
    if |s| > 0 { assert s[|s| - 1] in s; }
  }

  /** A string without the separator has no occurrence of `/`. */
  lemma NoSepNoOccurrence(s: string)
    requires Sep !in s
    ensures forall i :: 0 <= i <= |s| ==> !OccursAt(s, "/", i)
  {
    forall i | 0 <= i <= |s| ensures !OccursAt(s, "/", i) {
      if i < |s| {
        assert s[i..][0] == s[i];
        assert s[i] in s;
      }
    }
  }

  /** A top-level object copied into a directory is copied onto itself: its parent
      prefix is `/`, which does not occur in the key, so `replace` leaves it unchanged. */
  lemma CopyTopLevelFileOntoItself(b: Bucket, env: Env, s: string, d: string)
    requires !IsDir(s) && IsDir(d) && Sep !in s
    ensures Calls(CopyFrom(b, env, s, d).events) == [CopyObject(s, s)]
  {
    StripAbsentChar(s, Sep);
    ParentPrefixOfTopLevel(s);
    NoSepNoOccurrence(s);
    ReplaceAbsent(s, "/", d);
  }

  /** Moving a top-level object into a directory copies it onto itself and then deletes
      it: with a successful copy, the object is gone and nothing is left at a new key. */
  lemma MoveTopLevelFileDeletesIt(b: Bucket, env: Env, s: string, d: string)
    requires !IsDir(s) && IsDir(d) && Sep !in s
    requires env.reply(CopyObject(s, s)).Status? && !IsErrorStatus(env.reply(CopyObject(s, s)).code)
    ensures Calls(MoveFrom(b, env, s, d).events) == [CopyObject(s, s), DeleteObject(s)]
  {
    TopLevelFileTarget(s, d);
    MoveFromFile(b, env, s, d);
    MoveThroughCalls(env, s, s);
  }

  /** A move of a single object is `move_single` to its target. */
  lemma MoveFromFile(b: Bucket, env: Env, s: string, d: string)
    requires !IsDir(s)
    ensures MoveFrom(b, env, s, d) == MoveSingle(env, s, FileTarget(s, d))
  {
  }

  /** A move whose copy succeeds issues the copy and then the delete. */
  lemma MoveThroughCalls(env: Env, s: string, t: string)
    requires env.reply(CopyObject(s, t)).Status? && !IsErrorStatus(env.reply(CopyObject(s, t)).code)
    ensures Calls(MoveSingle(env, s, t).events) == [CopyObject(s, t), DeleteObject(s)]
  {
    assert CopyGoesThrough(env, s, t);
    assert [CopyObject(s, t)] + [DeleteObject(s)] == [CopyObject(s, t), DeleteObject(s)];
  }

  /** A top-level key sent into a directory keeps its own name as its target. */
  lemma TopLevelFileTarget(s: string, d: string)
    requires IsDir(d) && Sep !in s
    ensures FileTarget(s, d) == s
  {
    StripAbsentChar(s, Sep);
    ParentPrefixOfTopLevel(s);
    NoSepNoOccurrence(s);
    ReplaceAbsent(s, "/", d);
  }

  /** The parent prefix of `a/b/` is `a/`. */
  lemma ParentPrefixOfNested(s: string)
    requires s == "a/b/"
    ensures ParentPrefix(s) == "a/"
  {
    StripCharOneTrailing(s, Sep);
    var u := s[..3];
    var a := u[..1];
    var c := u[2..];
    assert u == a + [Sep] + c;
    assert a == "a" && c == "b";
    SplitAfterPiece(a, c, Sep);
    SplitNoSep(c, Sep);
    assert Split(u, Sep) == [a, c];
    assert Split(u, Sep)[..1] == [a];
  }

  /** `replace` rewrites every occurrence: `a/` in `a/b/a/x` becomes `c/` twice. */
  lemma ReplaceRewritesEveryOccurrence(key: string, pat: string, rep: string)
    requires key == "a/b/a/x" && pat == "a/" && rep == "c/"
    ensures Replace(key, pat, rep) == "c/b/c/x"
  {
    var t1 := key[2..];
    var t2 := t1[1..];
    var t3 := t2[1..];
    var t4 := t3[2..];
    assert t1 == "b/a/x" && t2 == "/a/x" && t3 == "a/x" && t4 == "x";
    assert StartsWith(key, pat) && StartsWith(t3, pat);
    assert t1[0] != pat[0] && t2[0] != pat[0] && |t4| < |pat|;
    assert Replace(t4, pat, rep) == "x" by {
      assert t4[1..] == [];
    }
    assert Replace(t3, pat, rep) == "c/x";
    assert Replace(t2, pat, rep) == "/c/x";
    assert Replace(t1, pat, rep) == "b/c/x";
  }

  /** Copying or moving the nested directory `a/b/` to `c/` sends its key `a/b/a/x` to
      `c/b/c/x`, not `c/b/a/x`: the parent prefix `a/` is rewritten wherever it occurs. */
  lemma DirDestKeyRewritesEveryOccurrence(src: string, dest: string, key: string)
    requires src == "a/b/" && dest == "c/" && key == "a/b/a/x"
    ensures StartsWith(key, src)
    ensures DirDestKey(ParentPrefix(src), dest, key) == "c/b/c/x"
  {
    ParentPrefixOfNested(src);
    var prefix := ParentPrefix(src);
    ReplaceRewritesEveryOccurrence(key, prefix, dest);
    assert key[..4] == src;
  }
}
