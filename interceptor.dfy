/**
 * `Interceptor`: installs capturing handlers under chosen names of a
 * namespace, and passes each captured call on to a callback, at once or,
 * while paused, later. Resuming hands the held calls to the host's timer
 * queue (`setTimeout(..., 0)`), which runs them in order; an abort silences
 * everything still to come.
 */
module Interception {
  import opened Wrappers

  /** The arguments of one captured call; only their identity and order matter. */
  type Args = seq<string>

  /**
   * What the namespace holds under a name: the interceptor's own handler, or
   * some other value, of which only its truthiness matters here.
   */
  datatype Value = Handler | Foreign(truthy: bool)

  /** `this._global[methodName]` is truthy: the name is present with a truthy value (a handler is a function). */
  predicate Occupied(target: map<string, Value>, m: string) {
    m in target && (target[m].Handler? || target[m].truthy)
  }

  /** `Basil.CannotInterceptExistingMethodError(methodName)`. */
  datatype InterceptError = CannotInterceptExistingMethod(name: string)

  /**
   * The whole state of an interceptor and of what it talks to: the
   * namespace, the installed names, the two flags, the held calls, the
   * host's queue of timer tasks and the calls the callback has received.
   */
  datatype State = State(
    target: map<string, Value>,
    intercepted: seq<string>,
    paused: bool,
    aborted: bool,
    queue: seq<Args>,
    tasks: seq<Args>,
    delivered: seq<Args>)

  /** A new interceptor over `target`: nothing installed, held, scheduled or delivered; neither paused nor aborted. */
  function Initial(target: map<string, Value>): (r: State) {
    State(target, [], false, false, [], [], [])
  }

  /** The names a list holds. */
  function Names(s: seq<string>): (r: set<string>) {
    set n | n in s
  }

  // ----- The operations, one step each -----

  /** `intercept(m)`: refused when the name is taken, otherwise the handler is installed and the name recorded. */
  function AfterIntercept(s: State, m: string): (r: (State, Option<InterceptError>))
    ensures r.1.Some? <==> Occupied(s.target, m)
    ensures r.1.Some? ==> r.1.value.name == m && r.0 == s
    ensures r.1.None? ==>
              && m in r.0.target && r.0.target[m] == Handler
              && (forall n :: n != m ==> (n in r.0.target <==> n in s.target))
              && (forall n :: n != m && n in s.target ==> r.0.target[n] == s.target[n])
              && r.0.intercepted == s.intercepted + [m]
              && r.0.(target := s.target, intercepted := s.intercepted) == s
  {
    if Occupied(s.target, m) then (s, Some(CannotInterceptExistingMethod(m)))
    else (s.(target := s.target[m := Handler], intercepted := s.intercepted + [m]), None)
  }

  /**
   * `restore()`: every recorded name is deleted from the namespace, and the
   * record emptied. Exactly the recorded names go; every other entry keeps its
   * value; flags, hold, tasks and deliveries are untouched.
   */
  function AfterRestore(s: State): (r: State)
    ensures forall n :: n in r.target <==> n in s.target && n !in s.intercepted
    ensures forall n :: n in r.target ==> r.target[n] == s.target[n]
    ensures r == s.(target := r.target, intercepted := [])
  {
    s.(target := s.target - Names(s.intercepted), intercepted := [])
  }

  /**
   * `_handleIntercept(args)`: only the deliveries and the hold can change,
   * and each only by growing; once aborted neither does; otherwise the call
   * is added once, at the end of the deliveries when not paused and at the
   * end of the hold when paused.
   */
  function AfterCall(s: State, a: Args): (r: State)
    ensures r.(delivered := s.delivered, queue := s.queue) == s
    ensures s.delivered <= r.delivered && s.queue <= r.queue
    ensures (|r.delivered| - |s.delivered|) + (|r.queue| - |s.queue|) == if s.aborted then 0 else 1
    ensures |r.delivered| > |s.delivered| ==> !s.paused && r.delivered[|r.delivered| - 1] == a
    ensures |r.queue| > |s.queue| ==> s.paused && r.queue[|r.queue| - 1] == a
  {
    if s.aborted then s
    else if !s.paused then s.(delivered := s.delivered + [a])
    else s.(queue := s.queue + [a])
  }

  function AfterPause(s: State): (r: State) {
    s.(paused := true)
  }

  /** `resume()`: not paused any more, each held call handed to the timer queue, the hold emptied. */
  function AfterResume(s: State): (r: State) {
    s.(paused := false, queue := [], tasks := s.tasks + s.queue)
  }

  function AfterAbort(s: State): (r: State) {
    s.(aborted := true)
  }

  /**
   * The host runs its oldest timer task: the held call is delivered unless
   * the interceptor was aborted in the meantime. Paused or not does not matter.
   */
  function AfterTick(s: State): (r: State) {
    if s.tasks == [] then s
    else
      var a := s.tasks[0];
      s.(tasks := s.tasks[1..], delivered := if s.aborted then s.delivered else s.delivered + [a])
  }

  /** Anything that can happen to an interceptor, as a value. */
  datatype Op = DoIntercept(m: string) | DoRestore | Call(a: Args) | DoPause | DoResume | DoAbort | HostTick

  function Step(s: State, op: Op): (r: State) {
    match op
    case DoIntercept(m) => AfterIntercept(s, m).0
    case DoRestore => AfterRestore(s)
    case Call(a) => AfterCall(s, a)
    case DoPause => AfterPause(s)
    case DoResume => AfterResume(s)
    case DoAbort => AfterAbort(s)
    case HostTick => AfterTick(s)
  }

  function Run(s: State, ops: seq<Op>): (r: State)
    decreases |ops|
  {
    if ops == [] then s else Run(Step(s, ops[0]), ops[1..])
  }

  /** `k` turns of the host's timer queue. */
  function Ticks(k: nat): (r: seq<Op>) {
    if k == 0 then [] else [HostTick] + Ticks(k - 1)
  }

  /** Calls made with these arguments, in this order. */
  function Calls(args: seq<Args>): (r: seq<Op>) {
    if args == [] then [] else [Call(args[0])] + Calls(args[1..])
  }

  // ----- What the operations promise -----

  /** Installing a free name and restoring gives the namespace back, when nothing else was installed. */
  lemma InterceptThenRestore(s: State, m: string)
    requires s.intercepted == [] && m !in s.target
    ensures AfterIntercept(s, m).1 == None && AfterRestore(AfterIntercept(s, m).0).target == s.target
  {
    var r := AfterRestore(AfterIntercept(s, m).0);
    assert Names([m]) == {m};
    assert r.target.Keys == s.target.Keys;
  }

  /** No operation clears the abort latch. */
  lemma {:induction false} AbortIsFinal(s: State, ops: seq<Op>)
    requires s.aborted
    ensures Run(s, ops).aborted
    decreases |ops|
  {
    if ops != [] {
      AbortIsFinal(Step(s, ops[0]), ops[1..]);
    }
  }

  /** Once aborted, the callback receives nothing more, whatever happens. */
  lemma {:induction false} AbortedDeliversNothing(s: State, ops: seq<Op>)
    requires s.aborted
    ensures Run(s, ops).delivered == s.delivered
    decreases |ops|
  {
    if ops != [] {
      var s' := Step(s, ops[0]);
      assert s'.aborted && s'.delivered == s.delivered;
      AbortedDeliversNothing(s', ops[1..]);
    }
  }

  /** Calls made while paused are held in the order they were made, and none is delivered. */
  lemma {:induction false} PausedCallsAreHeld(s: State, args: seq<Args>)
    requires s.paused && !s.aborted
    ensures Run(s, Calls(args)) == s.(queue := s.queue + args)
    decreases |args|
  {
    if args == [] {
      assert s.queue + [] == s.queue;
    } else {
      var ops := Calls(args);
      var s' := AfterCall(s, args[0]);
      assert ops == [Call(args[0])] + Calls(args[1..]);
      assert ops[0] == Call(args[0]) && ops[1..] == Calls(args[1..]);
      PausedCallsAreHeld(s', args[1..]);
      assert s.queue + [args[0]] + args[1..] == s.queue + args;
    }
  }

  /** While not aborted, each turn of the timer queue delivers the oldest task. */
  lemma {:induction false} TicksDeliver(s: State, k: nat)
    requires !s.aborted && k <= |s.tasks|
    ensures Run(s, Ticks(k)) == s.(tasks := s.tasks[k..], delivered := s.delivered + s.tasks[..k])
    decreases k
  {
    if k == 0 {
      assert s.tasks[0..] == s.tasks && s.delivered + s.tasks[..0] == s.delivered;
    } else {
      var s' := AfterTick(s);
      assert Ticks(k) == [HostTick] + Ticks(k - 1);
      assert Ticks(k)[0] == HostTick && Ticks(k)[1..] == Ticks(k - 1);
      TicksDeliver(s', k - 1);
      assert s'.tasks[k - 1..] == s.tasks[k..];
      assert s.delivered + s.tasks[..k] == s'.delivered + s'.tasks[..k - 1];
    }
  }

  /**
   * Everything held while paused reaches the callback in the order it was
   * called: pause, some calls, resume, and the host's timer queue run out.
   */
  lemma PauseResumeKeepsOrder(s: State, args: seq<Args>)
    requires !s.aborted && s.queue == [] && s.tasks == []
    ensures var r := Run(AfterResume(Run(AfterPause(s), Calls(args))), Ticks(|args|));
            && r.delivered == s.delivered + args
            && r.queue == [] && r.tasks == [] && !r.paused
  {
    var p := AfterPause(s);
    PausedCallsAreHeld(p, args);
    var held := Run(p, Calls(args));
    assert held == p.(queue := args);
    var resumed := AfterResume(held);
    assert resumed == s.(paused := false, tasks := [] + args);
    TicksDeliver(resumed, |args|);
    assert args[..|args|] == args;
  }

  // ----- The interceptor object -----

  class Interceptor {
    /** `_global`: the namespace handlers are installed in. */
    var target: map<string, Value>
    /** `_intercepted`: the names installed, in order. */
    var intercepted: seq<string>
    var paused: bool
    var aborted: bool
    /** `_interceptQueue`: the calls held while paused. */
    var queue: seq<Args>
    /** The host's timer queue: calls handed to `setTimeout(..., 0)` and not yet run. */
    var tasks: seq<Args>
    /** The calls `_callback` has received, in order. */
    var delivered: seq<Args>

    function Snap(): (r: State)
      reads this
    {
      State(target, intercepted, paused, aborted, queue, tasks, delivered)
    }

    constructor (target: map<string, Value>)
      ensures Snap() == Initial(target)
    {
      this.target := target;
      intercepted := [];
      paused := false;
      aborted := false;
      queue := [];
      tasks := [];
      delivered := [];
    }

    method Intercept(m: string) returns (err: Option<InterceptError>)
      modifies this
      ensures (Snap(), err) == AfterIntercept(old(Snap()), m)
      ensures err.Some? <==> Occupied(old(target), m)
      ensures err.Some? ==> unchanged(this)
    {
      if m in target && (target[m].Handler? || target[m].truthy) {
        return Some(CannotInterceptExistingMethod(m));
      }
      target := target[m := Handler];
      intercepted := intercepted + [m];
      err := None;
    }

    /** `restore()`: the recorded names deleted one by one, then the record emptied. */
    method Restore()
      modifies this
      ensures Snap() == AfterRestore(old(Snap()))
    {
      for i := 0 to |intercepted|
        invariant intercepted == old(intercepted)
        invariant target == old(target) - Names(intercepted[..i])
        invariant Snap() == old(Snap()).(target := target)
      {
        assert Names(intercepted[..i + 1]) == Names(intercepted[..i]) + {intercepted[i]};
        target := target - {intercepted[i]};
      }
      assert intercepted[..|intercepted|] == intercepted;
      intercepted := [];
    }

    method HandleIntercept(a: Args)
      modifies this
      ensures Snap() == AfterCall(old(Snap()), a)
    {
      if aborted {
        return;
      }
      if !paused {
        delivered := delivered + [a];
      } else {
        queue := queue + [a];
      }
    }

    method Pause()
      modifies this
      ensures Snap() == AfterPause(old(Snap()))
    {
      paused := true;
    }

    /** `resume()`: each held call handed to the timer queue in turn, then the hold emptied. */
    method Resume()
      modifies this
      ensures Snap() == AfterResume(old(Snap()))
    {
      paused := false;
      for i := 0 to |queue|
        invariant queue == old(queue)
        invariant tasks == old(tasks) + queue[..i]
        invariant Snap() == old(Snap()).(paused := false, tasks := tasks)
      {
        tasks := tasks + [queue[i]];
      }
      assert queue[..|queue|] == queue;
      queue := [];
    }

    method Abort()
      modifies this
      ensures Snap() == AfterAbort(old(Snap()))
    {
      aborted := true;
    }

    /** The host runs the oldest timer task, if there is one. */
    method RunNextTask()
      modifies this
      ensures Snap() == AfterTick(old(Snap()))
    {
      if tasks == [] {
        return;
      }
      var a := tasks[0];
      tasks := tasks[1..];
      if !aborted {
        delivered := delivered + [a];
      }
    }
  }
}
