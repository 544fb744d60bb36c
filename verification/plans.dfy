/**
  What one manager command does, as a trace: the store calls it issues, the local
  directories it creates and the callbacks it fires, in order, and the error it ends
  with, if any. The store's answer to each call comes from an oracle.
 */
module Plans {
  import opened Outcomes

  /** The manager operations; also the `method` string handed to the callbacks. */
  datatype Verb = Upload | Download | Delete | Copy | Move

  /** Why an operation stopped. `raisedAs` records which exception class the manager
      raised before its outer handler re-wrapped it as the operation's own error. */
  datatype Cause =
    | NotADirectory(raisedAs: Verb)     // the destination must be directory-shaped
    | DestInsideSource(raisedAs: Verb)  // the destination lies below the source
    | DirectoryRefused                  // non-recursive delete of a directory
    | BadDigest                         // `md5_to_base64` given something that is not hex
    | StoreRaised                       // the store call raised instead of answering
    | HandlerArity                      // a 3-argument `on_error` call to a 4-parameter handler
    | LocalDirExists                    // `os.mkdir` of a directory that is already there

  /** The exception that leaves an operation: always the operation's own error class. */
  datatype Failure = Failure(kind: Verb, cause: Cause)

  /** What is uploaded: the directory marker content `$DIR$`, or a local file. */
  datatype Body = Marker | FromFile(local: string)

  /** A call into the object store. `contentMd5` is the `Content-MD5` header. */
  datatype StoreCall =
    | PutObject(key: string, body: Body, contentMd5: string)
    | GetObjectToFile(key: string, local: string)
    | CopyObject(src: string, dest: string)
    | DeleteObject(key: string)

  /** The store either answers with an HTTP status or raises. */
  datatype Reply = Status(code: int) | Raised

  predicate IsErrorStatus(code: int) {
    code >= 400
  }

  /** One observable step. `OnError3` is the 3-argument error callback the copy and move
      helpers make (no method name); every other callback gets 4 arguments. */
  datatype Event =
    | Call(call: StoreCall)
    | MakeLocalDir(path: string)
    | OnSuccess(verb: Verb, src: string, dest: Option<string>)
    | OnError(verb: Verb, src: string, dest: Option<string>)
    | OnError3(src: string, target: string)

  /** The callbacks handed to the manager. `FourParameters` is the console's pair of
      bound methods, which raise a `TypeError` when called with 3 arguments;
      `AnyArity` accepts every call. */
  datatype Handlers = FourParameters | AnyArity

  /** Everything a plan depends on besides its arguments. */
  datatype Env = Env(reply: StoreCall -> Reply, handlers: Handlers)

  /** A partial trace: the events so far and, if the walk stopped, why. */
  datatype Plan = Plan(events: seq<Event>, stop: Option<Cause>)

  /** What a manager operation returns: its trace and the error it raised, if any. */
  datatype Outcome = Outcome(events: seq<Event>, error: Option<Failure>)

  function Done(events: seq<Event>): Plan {
    Plan(events, None)
  }

  function Stop(events: seq<Event>, cause: Cause): Plan {
    Plan(events, Some(cause))
  }

  /** Run `p`, then `q` unless `p` stopped. */
  function Then(p: Plan, q: Plan): (r: Plan)
    ensures p.stop.Some? ==> r == p
    ensures p.stop.None? ==> r.events == p.events + q.events && r.stop == q.stop
  {
    if p.stop.Some? then p else Plan(p.events + q.events, q.stop)
  }

  /** The outer `except Exception` of every operation: a stop becomes the operation's
      own error. */
  function Wrap(verb: Verb, p: Plan): (o: Outcome)
    ensures o.events == p.events
    ensures o.error.Some? <==> p.stop.Some?
    ensures o.error.Some? ==> o.error.value == Failure(verb, p.stop.value)
  {
    Outcome(p.events, if p.stop.Some? then Some(Failure(verb, p.stop.value)) else None)
  }

  /** Applies `step` to each key in turn, stopping at the first step that stops. */
  function Walk(keys: seq<string>, step: string -> Plan): Plan
    decreases |keys|
  {
    if keys == [] then Done([]) else Then(step(keys[0]), Walk(keys[1..], step))
  }

  /** The events of every step, concatenated: the trace of a walk no step stops. */
  function Flatten(keys: seq<string>, step: string -> Plan): seq<Event>
    decreases |keys|
  {
    if keys == [] then [] else step(keys[0]).events + Flatten(keys[1..], step)
  }

  /** A walk completes exactly when every step completes, and then its trace is the
      concatenation of the steps' traces in key order. */
  lemma {:induction false} WalkComplete(keys: seq<string>, step: string -> Plan)
    ensures Walk(keys, step).stop.None? <==> forall i :: 0 <= i < |keys| ==> step(keys[i]).stop.None?
    ensures Walk(keys, step).stop.None? ==> Walk(keys, step).events == Flatten(keys, step)
    decreases |keys|
  {
    if keys != [] {
      WalkComplete(keys[1..], step);
      assert forall i :: 1 <= i < |keys| ==> keys[i] == keys[1..][i - 1];
    }
  }

  /** A stopped walk stops for the reason of its first stopping step, after the traces of
      the steps before it and that step's own trace. */
  lemma {:induction false} WalkStops(keys: seq<string>, step: string -> Plan, i: nat)
    requires i < |keys| && step(keys[i]).stop.Some?
    requires forall j :: 0 <= j < i ==> step(keys[j]).stop.None?
    ensures Walk(keys, step).stop == step(keys[i]).stop
    ensures Walk(keys, step).events == Flatten(keys[..i], step) + step(keys[i]).events
    decreases i
  {
    if i > 0 {
      assert forall j :: 0 <= j < i - 1 ==> keys[1..][j] == keys[j + 1];
      WalkStops(keys[1..], step, i - 1);
      assert keys[..i][1..] == keys[1..][..i - 1];
    }
  }

  /** The store calls of a trace, in order. */
  function Calls(events: seq<Event>): (r: seq<StoreCall>)
    ensures |r| <= |events|
  {
    if events == [] then []
    else if events[0].Call? then [events[0].call] + Calls(events[1..])
    else Calls(events[1..])
  }

  lemma {:induction false} CallsAppend(a: seq<Event>, b: seq<Event>)
    ensures Calls(a + b) == Calls(a) + Calls(b)
    decreases |a|
  {
    if a != [] {
      assert (a + b)[0] == a[0] && (a + b)[1..] == a[1..] + b;
      CallsAppend(a[1..], b);
    } else {
      assert a + b == b;
    }
  }

  predicate IsCallback(e: Event) {
    e.OnSuccess? || e.OnError? || e.OnError3?
  }

  /** How many callbacks of either kind a trace fires. */
  function Callbacks(events: seq<Event>): (n: nat)
    ensures n <= |events|
  {
    if events == [] then 0
    else if IsCallback(events[0]) then 1 + Callbacks(events[1..])
    else Callbacks(events[1..])
  }

  lemma {:induction false} CallbacksAppend(a: seq<Event>, b: seq<Event>)
    ensures Callbacks(a + b) == Callbacks(a) + Callbacks(b)
    decreases |a|
  {
    if a != [] {
      assert (a + b)[0] == a[0] && (a + b)[1..] == a[1..] + b;
      CallbacksAppend(a[1..], b);
    } else {
      assert a + b == b;
    }
  }

  /** The `src` argument of every callback of a trace, in order. */
  function CallbackSources(events: seq<Event>): (r: seq<string>)
    ensures |r| == Callbacks(events)
  {
    if events == [] then []
    else if IsCallback(events[0]) then [events[0].src] + CallbackSources(events[1..])
    else CallbackSources(events[1..])
  }

  lemma {:induction false} CallbackSourcesAppend(a: seq<Event>, b: seq<Event>)
    ensures CallbackSources(a + b) == CallbackSources(a) + CallbackSources(b)
    decreases |a|
  {
    if a != [] {
      assert (a + b)[0] == a[0] && (a + b)[1..] == a[1..] + b;
      CallbackSourcesAppend(a[1..], b);
    } else {
      assert a + b == b;
    }
  }

  /** The callback the manager fires after a store call with a 4-argument handler:
      `on_error` for an error status, `on_success` otherwise. */
  function Report(verb: Verb, code: int, src: string, dest: Option<string>): (e: Event)
    ensures e.OnError? <==> IsErrorStatus(code)
    ensures e.OnSuccess? <==> !IsErrorStatus(code)
    ensures e.src == src
  {
    if IsErrorStatus(code) then OnError(verb, src, dest) else OnSuccess(verb, src, dest)
  }

  /** `e` is the 4-argument callback a store answer `code` earns: `on_error` for a
      status of 400 or more, `on_success` otherwise, with method name `verb`. */
  predicate ReportsStatus(e: Event, verb: Verb, code: int, src: string, dest: Option<string>) {
    && (e.OnError? || e.OnSuccess?)
    && (e.OnError? <==> IsErrorStatus(code))
    && e.verb == verb && e.src == src && e.dest == dest
  }

  /** Issue `call`; a raising store stops the plan right after the call, otherwise the
      continuation gets the status code. */
  function Issue(env: Env, call: StoreCall, k: int -> Plan): (p: Plan)
    ensures |p.events| >= 1 && p.events[0] == Call(call)
    ensures env.reply(call).Raised? ==> p == Stop([Call(call)], StoreRaised)
  {
    match env.reply(call)
    case Raised => Stop([Call(call)], StoreRaised)
    case Status(code) =>
      var q := k(code);
      Plan([Call(call)] + q.events, q.stop)
  }

  /** What `f` assigns to each key, concatenated in key order. */
  function FlatMap<T>(keys: seq<string>, f: string -> seq<T>): seq<T>
    decreases |keys|
  {
    if keys == [] then [] else f(keys[0]) + FlatMap(keys[1..], f)
  }

  /** When every step issues the calls `f` assigns to its key, the concatenated traces
      issue `FlatMap(keys, f)`. */
  lemma {:induction false} CallsOfFlatten(keys: seq<string>, step: string -> Plan, f: string -> seq<StoreCall>)
    requires forall i :: 0 <= i < |keys| ==> Calls(step(keys[i]).events) == f(keys[i])
    ensures Calls(Flatten(keys, step)) == FlatMap(keys, f)
    decreases |keys|
  {
    if keys != [] {
      assert forall i :: 0 <= i < |keys| - 1 ==> keys[1..][i] == keys[i + 1];
      CallsOfFlatten(keys[1..], step, f);
      CallsAppend(step(keys[0]).events, Flatten(keys[1..], step));
    }
  }

  /** One element per key: the `i`-th element is the one for the `i`-th key. */
  lemma {:induction false} FlatMapSingle<T>(keys: seq<string>, f: string -> seq<T>)
    requires forall i :: 0 <= i < |keys| ==> |f(keys[i])| == 1
    ensures |FlatMap(keys, f)| == |keys|
    ensures forall i :: 0 <= i < |keys| ==> FlatMap(keys, f)[i] == f(keys[i])[0]
    decreases |keys|
  {
    if keys != [] {
      assert forall i :: 0 <= i < |keys| - 1 ==> keys[1..][i] == keys[i + 1];
      FlatMapSingle(keys[1..], f);
    }
  }

  /** Two elements per key: elements `2i` and `2i + 1` are the pair for the `i`-th key. */
  lemma {:induction false} FlatMapPair<T>(keys: seq<string>, f: string -> seq<T>)
    requires forall i :: 0 <= i < |keys| ==> |f(keys[i])| == 2
    ensures |FlatMap(keys, f)| == 2 * |keys|
    ensures forall i :: 0 <= i < |keys| ==>
      FlatMap(keys, f)[2 * i] == f(keys[i])[0] && FlatMap(keys, f)[2 * i + 1] == f(keys[i])[1]
    decreases |keys|
  {
    if keys != [] {
      assert forall i :: 0 <= i < |keys| - 1 ==> keys[1..][i] == keys[i + 1];
      FlatMapPair(keys[1..], f);
      var r := FlatMap(keys, f);
      forall i | 1 <= i < |keys|
        ensures r[2 * i] == f(keys[i])[0] && r[2 * i + 1] == f(keys[i])[1]
      {
        assert r[2 * i] == FlatMap(keys[1..], f)[2 * (i - 1)];
        assert r[2 * i + 1] == FlatMap(keys[1..], f)[2 * (i - 1) + 1];
      }
    }
  }

  /** When every step fires callbacks for the sources `g` assigns to its key, the
      concatenated traces fire them for `FlatMap(keys, g)`. */
  lemma {:induction false} SourcesOfFlatten(keys: seq<string>, step: string -> Plan, g: string -> seq<string>)
    requires forall i :: 0 <= i < |keys| ==> CallbackSources(step(keys[i]).events) == g(keys[i])
    ensures CallbackSources(Flatten(keys, step)) == FlatMap(keys, g)
    decreases |keys|
  {
    if keys != [] {
      assert forall i :: 0 <= i < |keys| - 1 ==> keys[1..][i] == keys[i + 1];
      SourcesOfFlatten(keys[1..], step, g);
      CallbackSourcesAppend(step(keys[0]).events, Flatten(keys[1..], step));
    }
  }

  /** A completed walk reports, in key order, the sources each completed step reports. */
  lemma WalkSources(keys: seq<string>, step: string -> Plan, g: string -> seq<string>)
    requires forall i :: 0 <= i < |keys| && step(keys[i]).stop.None? ==>
      CallbackSources(step(keys[i]).events) == g(keys[i])
    ensures Walk(keys, step).stop.None? ==> CallbackSources(Walk(keys, step).events) == FlatMap(keys, g)
  {
    WalkComplete(keys, step);
    if Walk(keys, step).stop.None? {
      SourcesOfFlatten(keys, step, g);
    }
  }

  /** A completed walk whose steps each report their own key once reports the keys. */
  lemma WalkReportsKeys(keys: seq<string>, step: string -> Plan)
    requires forall i :: 0 <= i < |keys| && step(keys[i]).stop.None? ==>
      CallbackSources(step(keys[i]).events) == [keys[i]]
    ensures Walk(keys, step).stop.None? ==> CallbackSources(Walk(keys, step).events) == keys
  {
    var g := (k: string) => [k];
    WalkSources(keys, step, g);
    FlatMapSingle(keys, g);
  }

  /** A stopped walk stops for a reason one of its steps can stop for. */
  lemma {:induction false} WalkStopsWith(keys: seq<string>, step: string -> Plan, allowed: Cause -> bool)
    requires forall i :: 0 <= i < |keys| && step(keys[i]).stop.Some? ==> allowed(step(keys[i]).stop.value)
    ensures Walk(keys, step).stop.Some? ==> allowed(Walk(keys, step).stop.value)
    decreases |keys|
  {
    if keys != [] {
      assert forall i :: 0 <= i < |keys| - 1 ==> keys[1..][i] == keys[i + 1];
      WalkStopsWith(keys[1..], step, allowed);
    }
  }
}
