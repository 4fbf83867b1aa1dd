/**
 * What one pass of the runner does to the result tree, as functions on
 * values, and why `_runTree` stops: the runner re-runs the root body until
 * the root node is complete; in each pass the shared "branch has been run"
 * latch lets only the first incomplete branch run.
 */
module RunnerSpec {
  import opened Wrappers
  import opened Tests
  import Names

  /** The name `test(...)` gives its node: the one passed, or the one `_extractName` derives. */
  function NameOf(arg: NameArg): (r: string) {
    match arg
    case Named(n) => n
    case FromFunction(fnName, contents) => Names.ExtractName(fnName, contents)
  }

  /** The node after a branch attempt, and the latch (`_branchHasBeenRun`) after it. */
  datatype Pass = Pass(test: TestV, latch: bool)

  /** A body's effect on the node running it: the node, the latch, and what it threw, if anything. */
  datatype Outcome = Outcome(test: TestV, latch: bool, thrown: Option<Thrown>)

  /**
   * `_runSingleBranch(test, fn)`: nothing if the node is complete or the
   * latch is set; otherwise the body runs through `test.run` (counting the
   * run and keeping what it threw) and the latch is set.
   */
  function RunBranch(t: TestV, fn: Script, latch: bool): (r: Pass)
    decreases Size(fn), 1
  {
    if t.IsComplete() || latch then Pass(t, latch)
    else
      var o := Exec(t, fn, false);
      Pass(o.test.Ran(o.thrown), true)
  }

  /**
   * The steps of a body, run with `t` as `_outerTest`: a throw ends the
   * body; a nested `test(...)` call is a `DeclareStep`.
   */
  function Exec(t: TestV, steps: Script, latch: bool): (r: Outcome)
    decreases Size(steps), 0
  {
    if steps == [] then Outcome(t, latch, None)
    else
      match steps[0]
      case Throw(e) => Outcome(t, latch, Some(e))
      case Declare(arg, body) =>
        var p := DeclareStep(t, NameOf(arg), body, latch);
        Exec(p.test, steps[1..], p.latch)
  }

  /**
   * A nested `test(n, body)` in nested mode: `_createTest` is
   * `outerTest.child(n)`, which creates the child whether or not it will
   * run, and `_runTest` is `_runSingleBranch` on it.
   */
  function DeclareStep(t: TestV, n: string, body: Script, latch: bool): (r: Pass)
    decreases Size(body), 2
  {
    var t1 := t.WithChild(n);
    var i := FindChild(t1.children, n);
    var q := RunBranch(t1.children[i], body, latch);
    Pass(t1.(children := t1.children[i := q.test]), q.latch)
  }

  // ----- What a body declares -----

  /** `steps` makes a nested `test(n, ...)` call before its first throw. */
  predicate Declares(steps: Script, n: string) {
    steps != [] && steps[0].Declare? && (NameOf(steps[0].arg) == n || Declares(steps[1..], n))
  }

  /** The body of the first nested `test(n, ...)` call in `steps`. */
  function FirstBody(steps: Script, n: string): (r: Script)
    requires Declares(steps, n)
  {
    if NameOf(steps[0].arg) == n then steps[0].body else FirstBody(steps[1..], n)
  }

  predicate ThrowFree(steps: Script) {
    forall i :: 0 <= i < |steps| ==> steps[i].Declare?
  }

  lemma {:induction false} DeclaresConcat(pre: Script, steps: Script, n: string)
    requires ThrowFree(pre)
    ensures Declares(pre + steps, n) <==> Declares(pre, n) || Declares(steps, n)
    decreases |pre|
  {
    if pre == [] {
      assert pre + steps == steps;
    } else {
      assert (pre + steps)[0] == pre[0];
      assert (pre + steps)[1..] == pre[1..] + steps;
      DeclaresConcat(pre[1..], steps, n);
    }
  }

  lemma {:induction false} FirstBodyConcat(pre: Script, steps: Script, n: string)
    requires ThrowFree(pre) && !Declares(pre, n) && Declares(steps, n)
    ensures Declares(pre + steps, n) && FirstBody(pre + steps, n) == FirstBody(steps, n)
    decreases |pre|
  {
    DeclaresConcat(pre, steps, n);
    if pre == [] {
      assert pre + steps == steps;
    } else {
      assert (pre + steps)[0] == pre[0];
      assert (pre + steps)[1..] == pre[1..] + steps;
      FirstBodyConcat(pre[1..], steps, n);
    }
  }

  /**
   * A node conforms to its body: before its first run it has no children;
   * afterwards its children are exactly the names the body declares, each
   * conforming to the first body declared under its name.
   */
  ghost predicate Conforms(t: TestV, b: Script)
    decreases t
  {
    if t.runCount == 0 then t.children == []
    else
      && (forall n :: Declares(b, n) ==> t.HasChild(n))
      && ChildrenConform(t, b)
  }

  ghost predicate ChildrenConform(t: TestV, b: Script)
    decreases t, 0
  {
    && DistinctNames(t.children)
    && forall i :: 0 <= i < |t.children| ==>
         Declares(b, t.children[i].name) && Conforms(t.children[i], FirstBody(b, t.children[i].name))
  }

  // ----- The measure: bodies still to run -----

  /** The size of the tree a body declares, not counting the node running it. */
  function Total(steps: Script): (r: nat)
    decreases Size(steps)
  {
    if steps == [] then 0
    else
      match steps[0]
      case Throw(_) => 0
      case Declare(_, body) => 1 + Total(body) + Total(steps[1..])
  }

  /**
   * An upper bound on the passes still needed to complete `t` run with body
   * `b`: the incomplete nodes, counting the ones not created yet.
   */
  function Measure(t: TestV, b: Script): (r: nat)
    decreases t, 1, 0
  {
    if t.IsComplete() then 0 else 1 + KidsMeasure(t, b)
  }

  function KidsMeasure(t: TestV, steps: Script): (r: nat)
    decreases t, 0, Size(steps)
  {
    if steps == [] then 0
    else
      match steps[0]
      case Throw(_) => 0
      case Declare(arg, body) => ChildMeasure(t, NameOf(arg), body) + KidsMeasure(t, steps[1..])
  }

  function ChildMeasure(t: TestV, n: string, body: Script): (r: nat)
    decreases t, 0, 0
  {
    if t.HasChild(n) then Measure(t.children[FindChild(t.children, n)], body) else 1 + Total(body)
  }

  /**
   * How a node can change over passes: it keeps its name and run count
   * grows; a complete node stays as it is; and once it has run, its children
   * stay the same list, each changing in the same way.
   */
  ghost predicate Progress(x: TestV, y: TestV)
    decreases x
  {
    && y.name == x.name
    && y.runCount >= x.runCount
    && (x.IsComplete() ==> y == x)
    && ((x.runCount == 0 && x.children == [])
        || (|y.children| == |x.children|
            && forall i :: 0 <= i < |x.children| ==> Progress(x.children[i], y.children[i])))
  }

  lemma {:induction false} ProgressRefl(x: TestV)
    ensures Progress(x, x)
    decreases x
  {
    forall i | 0 <= i < |x.children| ensures Progress(x.children[i], x.children[i]) {
      ProgressRefl(x.children[i]);
    }
  }

  lemma {:induction false} ProgressTrans(x: TestV, y: TestV, z: TestV)
    requires Progress(x, y) && Progress(y, z)
    ensures Progress(x, z)
    decreases x
  {
    if !(x.runCount == 0 && x.children == []) {
      forall i | 0 <= i < |x.children| ensures Progress(x.children[i], z.children[i]) {
        ProgressTrans(x.children[i], y.children[i], z.children[i]);
      }
    }
  }

  /** A fresh node's measure is the whole tree its body declares, itself included. */
  lemma {:induction false} FreshMeasure(n: string, b: Script)
    ensures Measure(FreshTest(n), b) == 1 + Total(b)
  {
    FreshKids(n, b);
  }

  lemma {:induction false} FreshKids(n: string, steps: Script)
    ensures KidsMeasure(FreshTest(n), steps) == Total(steps)
    decreases Size(steps)
  {
    if steps != [] && steps[0].Declare? {
      FreshKids(n, steps[1..]);
    }
  }

  /** No node needs more passes than the tree its body declares has nodes. */
  lemma {:induction false} MeasureBound(t: TestV, b: Script)
    ensures Measure(t, b) <= 1 + Total(b)
    decreases t, 1, 0
  {
    if !t.IsComplete() {
      KidsBound(t, b);
    }
  }

  lemma {:induction false} KidsBound(t: TestV, steps: Script)
    ensures KidsMeasure(t, steps) <= Total(steps)
    decreases t, 0, Size(steps)
  {
    if steps != [] && steps[0].Declare? {
      var n, body := NameOf(steps[0].arg), steps[0].body;
      if t.HasChild(n) {
        MeasureBound(t.children[FindChild(t.children, n)], body);
      }
      KidsBound(t, steps[1..]);
    }
  }

  /** Two child lists with the same names find every name at the same place. */
  lemma {:induction false} FindSameNames(xs: seq<TestV>, ys: seq<TestV>, n: string)
    requires |xs| == |ys| && forall i :: 0 <= i < |xs| ==> xs[i].name == ys[i].name
    ensures (exists j :: 0 <= j < |xs| && xs[j].name == n) <==> (exists j :: 0 <= j < |ys| && ys[j].name == n)
    ensures (exists j :: 0 <= j < |xs| && xs[j].name == n) ==> FindChild(xs, n) == FindChild(ys, n)
  {
    if exists j :: 0 <= j < |xs| && xs[j].name == n {
      var j :| 0 <= j < |xs| && xs[j].name == n;
      assert ys[j].name == n;
      var f, g := FindChild(xs, n), FindChild(ys, n);
      assert xs[g].name == n && ys[f].name == n;
    } else {
      forall j | 0 <= j < |ys| ensures ys[j].name != n {
        assert xs[j].name != n;
      }
    }
  }

  /** Progress never increases the measure, whatever the body. */
  lemma {:induction false} MeasureMono(x: TestV, y: TestV, b: Script)
    requires Progress(x, y)
    ensures Measure(y, b) <= Measure(x, b)
    decreases x, 1, 0
  {
    if y.IsComplete() || x.IsComplete() {
    } else if x.runCount == 0 && x.children == [] {
      FreshKids(x.name, b);
      assert KidsMeasure(x, b) == KidsMeasure(FreshTest(x.name), b) by {
        SameChildrenKids(x, FreshTest(x.name), b);
      }
      MeasureBound(y, b);
    } else {
      KidsMono(x, y, b);
    }
  }

  lemma {:induction false} KidsMono(x: TestV, y: TestV, steps: Script)
    requires |y.children| == |x.children|
    requires forall i :: 0 <= i < |x.children| ==> Progress(x.children[i], y.children[i])
    ensures KidsMeasure(y, steps) <= KidsMeasure(x, steps)
    decreases x, 0, Size(steps)
  {
    if steps != [] && steps[0].Declare? {
      var n, body := NameOf(steps[0].arg), steps[0].body;
      FindSameNames(x.children, y.children, n);
      if x.HasChild(n) {
        var i := FindChild(x.children, n);
        MeasureMono(x.children[i], y.children[i], body);
      }
      KidsMono(x, y, steps[1..]);
    }
  }

  /** The children measure depends on the children only. */
  lemma {:induction false} SameChildrenKids(x: TestV, y: TestV, steps: Script)
    requires x.children == y.children
    ensures KidsMeasure(x, steps) == KidsMeasure(y, steps)
    decreases Size(steps)
  {
    if steps != [] && steps[0].Declare? {
      SameChildrenKids(x, y, steps[1..]);
    }
  }

  /** Creating a child (fresh) does not change the measure. */
  lemma {:induction false} WithChildKids(t: TestV, n: string, steps: Script)
    ensures KidsMeasure(t.WithChild(n), steps) == KidsMeasure(t, steps)
    decreases Size(steps)
  {
    if steps != [] && steps[0].Declare? && !t.HasChild(n) {
      var m, body := NameOf(steps[0].arg), steps[0].body;
      var t1 := t.WithChild(n);
      assert t1.children == t.children + [FreshTest(n)];
      if m == n {
        assert FindChild(t1.children, n) == |t.children| by {
          var f := FindChild(t1.children, n);
          assert f >= |t.children|;
        }
        FreshMeasure(n, body);
      } else if t.HasChild(m) {
        assert FindChild(t1.children, m) == FindChild(t.children, m) by {
          var f, g := FindChild(t1.children, m), FindChild(t.children, m);
          assert t1.children[g].name == m;
        }
      } else {
        assert !t1.HasChild(m);
      }
      WithChildKids(t, n, steps[1..]);
    }
  }

  /**
   * Replacing the first child named `n` by a progressed version does not
   * increase the measure, and decreases it when the child's measure under
   * the first body declared for `n` decreases.
   */
  lemma {:induction false} ReplaceKids(t: TestV, i: nat, c: TestV, steps: Script)
    requires i < |t.children| && i == FindChild(t.children, t.children[i].name)
    requires Progress(t.children[i], c)
    ensures KidsMeasure(t.(children := t.children[i := c]), steps) <= KidsMeasure(t, steps)
    ensures Declares(steps, c.name)
            && Measure(c, FirstBody(steps, c.name)) < Measure(t.children[i], FirstBody(steps, c.name))
            ==> KidsMeasure(t.(children := t.children[i := c]), steps) < KidsMeasure(t, steps)
    decreases Size(steps)
  {
    var t1 := t.(children := t.children[i := c]);
    if steps != [] && steps[0].Declare? {
      var m, body := NameOf(steps[0].arg), steps[0].body;
      FindSameNames(t.children, t1.children, m);
      if t.HasChild(m) {
        var j := FindChild(t.children, m);
        if j == i {
          MeasureMono(t.children[i], c, body);
        }
      }
      ReplaceKids(t, i, c, steps[1..]);
    }
  }

  // ----- One pass: what it preserves and why it makes progress -----

  /**
   * One call of `_runSingleBranch` on a node that conforms to its body: the
   * node still conforms and has progressed; afterwards the latch is set or
   * the node is complete; and a call that runs the body (latch clear, node
   * incomplete) sets the latch and strictly decreases the measure.
   */
  lemma {:induction false} BranchFacts(t: TestV, b: Script, latch: bool)
    requires Conforms(t, b)
    ensures Conforms(RunBranch(t, b, latch).test, b)
    ensures Progress(t, RunBranch(t, b, latch).test)
    ensures RunBranch(t, b, latch).latch || RunBranch(t, b, latch).test.IsComplete()
    ensures latch ==> RunBranch(t, b, latch) == Pass(t, true)
    ensures !latch && !t.IsComplete() ==>
              RunBranch(t, b, latch).latch && Measure(RunBranch(t, b, latch).test, b) < Measure(t, b)
    decreases Size(b), 2
  {
    if t.IsComplete() || latch {
      ProgressRefl(t);
    } else {
      BranchRuns(t, b);
    }
  }

  /** The case of `BranchFacts` where the body runs. */
  lemma {:induction false} BranchRuns(t: TestV, b: Script)
    requires Conforms(t, b) && !t.IsComplete()
    ensures var p := RunBranch(t, b, false);
            Conforms(p.test, b) && Progress(t, p.test) && p.latch && Measure(p.test, b) < Measure(t, b)
    decreases Size(b), 1
  {
    var o := Exec(t, b, false);
    assert WalkInv(t, b, [], false);
    ExecFacts(t, b, [], b, false);
    var y := o.test.Ran(o.thrown);
    assert RunBranch(t, b, false) == Pass(y, true);
    RanFacts(t, o.test, y, b, o.latch);
  }

  /** After the body's walk, `run` counts the run: the node conforms, progressed, and needs fewer passes. */
  lemma {:induction false} RanFacts(t: TestV, x: TestV, y: TestV, b: Script, latch: bool)
    requires Conforms(t, b) && !t.IsComplete()
    requires Stepped(t, x, b, false, latch) && Finished(x, b, latch)
    requires y.name == x.name && y.runCount == x.runCount + 1 && y.children == x.children
    ensures Conforms(y, b) && Progress(t, y) && Measure(y, b) < Measure(t, b)
  {
    assert ChildrenConform(y, b);
    if t.runCount > 0 {
      assert |y.children| == |t.children|;
    }
    SameChildrenKids(y, x, b);
    if !latch {
      RanComplete(y, b);
    }
  }

  /** When no branch ran, every child was complete, so the node is complete after its run. */
  lemma {:induction false} RanComplete(y: TestV, b: Script)
    requires y.runCount > 0 && ChildrenConform(y, b)
    requires forall n :: Declares(b, n) ==> y.HasChild(n) && y.children[FindChild(y.children, n)].IsComplete()
    ensures y.IsComplete()
  {
    forall i | 0 <= i < |y.children| ensures y.children[i].IsComplete() {
      FindDistinct(y.children, i);
    }
  }

  /**
   * The invariant of running body `b == pre + steps` with `t` as the outer
   * test, once `pre` has run: after its first run a node has a child for
   * every name its body declares; every child conforms to the body first
   * declared under its name; and every name `pre` declared has a child that
   * is complete unless the latch is set.
   */
  ghost predicate WalkInv(t: TestV, b: Script, pre: Script, latch: bool) {
    && ThrowFree(pre)
    && (t.runCount > 0 ==> forall n :: Declares(b, n) ==> t.HasChild(n))
    && ChildrenConform(t, b)
    && (forall n :: Declares(pre, n) ==>
          t.HasChild(n) && (latch || t.children[FindChild(t.children, n)].IsComplete()))
  }

  /** What a step of a body does to the node running it. */
  ghost predicate Stepped(t: TestV, y: TestV, b: Script, latch: bool, latch': bool) {
    && y.name == t.name && y.runCount == t.runCount && y.error == t.error
    && |y.children| >= |t.children|
    && (t.runCount > 0 ==> |y.children| == |t.children|)
    && (forall i :: 0 <= i < |t.children| ==> Progress(t.children[i], y.children[i]))
    && (latch ==> latch')
    && KidsMeasure(y, b) <= KidsMeasure(t, b)
    && (!latch && latch' ==> KidsMeasure(y, b) < KidsMeasure(t, b))
  }

  lemma {:induction false} SteppedTrans(t: TestV, y: TestV, z: TestV, b: Script, l1: bool, l2: bool, l3: bool)
    requires Stepped(t, y, b, l1, l2) && Stepped(y, z, b, l2, l3)
    ensures Stepped(t, z, b, l1, l3)
  {
    forall i | 0 <= i < |t.children| ensures Progress(t.children[i], z.children[i]) {
      ProgressTrans(t.children[i], y.children[i], z.children[i]);
    }
  }

  lemma {:induction false} SteppedRefl(t: TestV, b: Script, latch: bool)
    ensures Stepped(t, t, b, latch, latch)
  {
    forall i | 0 <= i < |t.children| ensures Progress(t.children[i], t.children[i]) {
      ProgressRefl(t.children[i]);
    }
  }

  /** The names `pre + [s]` declares, for a declaration step `s`. */
  lemma DeclaresSnoc(pre: Script, s: Step, m: string)
    requires ThrowFree(pre) && s.Declare?
    ensures ThrowFree(pre + [s])
    ensures Declares(pre + [s], m) <==> Declares(pre, m) || NameOf(s.arg) == m
  {
    DeclaresConcat(pre, [s], m);
    assert [s][1..] == [];
  }

  /** One nested `test(...)` call keeps the walk invariant and is a step. */
  lemma {:induction false} DeclareFacts(t: TestV, b: Script, pre: Script, steps: Script, latch: bool)
    requires b == pre + steps && steps != [] && steps[0].Declare?
    requires WalkInv(t, b, pre, latch)
    ensures var p := DeclareStep(t, NameOf(steps[0].arg), steps[0].body, latch);
            && WalkInv(p.test, b, pre + [steps[0]], p.latch)
            && Stepped(t, p.test, b, latch, p.latch)
    decreases Size(steps[0].body), 4
  {
    var n := NameOf(steps[0].arg);
    forall m ensures Declares(pre + [steps[0]], m) <==> Declares(pre, m) || n == m {
      DeclaresSnoc(pre, steps[0], m);
    }
    DeclaresConcat(pre, steps, n);
    if Declares(pre, n) {
      DeclareAgain(t, b, pre, steps, latch);
    } else {
      FirstBodyConcat(pre, steps, n);
      DeclareFirst(t, b, pre, steps, latch);
    }
  }

  /** A name declared before in the same body: its child is complete or the latch is set, so nothing runs. */
  lemma {:induction false} DeclareAgain(t: TestV, b: Script, pre: Script, steps: Script, latch: bool)
    requires b == pre + steps && steps != [] && steps[0].Declare?
    requires WalkInv(t, b, pre, latch) && Declares(pre, NameOf(steps[0].arg))
    ensures DeclareStep(t, NameOf(steps[0].arg), steps[0].body, latch) == Pass(t, latch)
    ensures Stepped(t, t, b, latch, latch)
  {
    var n, body := NameOf(steps[0].arg), steps[0].body;
    var t1 := t.WithChild(n);
    assert t1 == t;
    var i := FindChild(t1.children, n);
    var c := t1.children[i];
    assert RunBranch(c, body, latch) == Pass(c, latch);
    assert t1.children[i := c] == t.children;
    SteppedRefl(t, b, latch);
  }

  /** The first declaration of a name in the body: its child, created if need be, gets its branch attempt. */
  lemma {:induction false} DeclareFirst(t: TestV, b: Script, pre: Script, steps: Script, latch: bool)
    requires b == pre + steps && steps != [] && steps[0].Declare?
    requires WalkInv(t, b, pre, latch) && !Declares(pre, NameOf(steps[0].arg))
    requires Declares(b, NameOf(steps[0].arg)) && FirstBody(b, NameOf(steps[0].arg)) == steps[0].body
    requires forall m :: Declares(pre + [steps[0]], m) <==> Declares(pre, m) || NameOf(steps[0].arg) == m
    ensures var p := DeclareStep(t, NameOf(steps[0].arg), steps[0].body, latch);
            && WalkInv(p.test, b, pre + [steps[0]], p.latch)
            && Stepped(t, p.test, b, latch, p.latch)
    decreases Size(steps[0].body), 3
  {
    var n, body := NameOf(steps[0].arg), steps[0].body;
    var t1 := t.WithChild(n);
    var i := FindChild(t1.children, n);
    var c := t1.children[i];
    WithChildFacts(t, n);
    if t.HasChild(n) {
      assert c == t.children[i];
    }
    assert Conforms(c, body);
    BranchFacts(c, body, latch);
    var q := RunBranch(c, body, latch);
    assert DeclareStep(t, n, body, latch) == Pass(t1.(children := t1.children[i := q.test]), q.latch);
    ReplaceFacts(t, n, q.test, b, pre + [steps[0]], latch, q.latch);
  }

  /** Where `child(n)` finds or puts the child named `n`. */
  lemma WithChildFacts(t: TestV, n: string)
    requires DistinctNames(t.children)
    ensures var t1 := t.WithChild(n);
            var i := FindChild(t1.children, n);
            && |t.children| <= |t1.children| <= |t.children| + 1
            && (forall j :: 0 <= j < |t.children| ==> t1.children[j] == t.children[j])
            && (i == |t.children| <==> |t1.children| == |t.children| + 1)
            && DistinctNames(t1.children)
            && (t.HasChild(n) ==> t1 == t)
            && (!t.HasChild(n) ==> t1.children[i] == FreshTest(n))
  {
    var t1 := t.WithChild(n);
    if t.HasChild(n) {
      FindDistinct(t.children, FindChild(t.children, n));
    } else {
      assert t1.children == t.children + [FreshTest(n)];
      assert t1.children[|t.children|].name == n;
    }
  }

  /**
   * The walk invariant and the step relation once the child named `n`
   * (first declared by the last step of `pre'`) has been replaced by `c'`.
   */
  lemma {:induction false} ReplaceFacts(t: TestV, n: string, c': TestV, b: Script, pre': Script,
                                        latch: bool, latch': bool)
    requires ThrowFree(pre') && ChildrenConform(t, b)
    requires t.runCount > 0 ==> forall m :: Declares(b, m) ==> t.HasChild(m)
    requires Declares(b, n) && Conforms(c', FirstBody(b, n)) && c'.name == n
    requires Progress(t.WithChild(n).children[FindChild(t.WithChild(n).children, n)], c')
    requires latch ==> latch'
    requires latch' || c'.IsComplete()
    requires !latch && latch' ==>
               Measure(c', FirstBody(b, n))
               < Measure(t.WithChild(n).children[FindChild(t.WithChild(n).children, n)], FirstBody(b, n))
    requires forall m :: Declares(pre', m) ==>
               m == n || (t.HasChild(m) && (latch || t.children[FindChild(t.children, m)].IsComplete()))
    ensures var t1 := t.WithChild(n);
            var t2 := t1.(children := t1.children[FindChild(t1.children, n) := c']);
            WalkInv(t2, b, pre', latch') && Stepped(t, t2, b, latch, latch')
  {
    var t1 := t.WithChild(n);
    var i := FindChild(t1.children, n);
    WithChildFacts(t, n);
    ReplaceWalk(t, t1, i, c', b, pre', latch, latch');
    WithChildKids(t, n, b);
    ReplaceKids(t1, i, c', b);
  }

  lemma {:induction false} ReplaceWalk(t: TestV, t1: TestV, i: nat, c': TestV, b: Script, pre': Script,
                                       latch: bool, latch': bool)
    requires i < |t1.children| && |t.children| <= |t1.children| <= |t.children| + 1
    requires forall j :: 0 <= j < |t.children| ==> t1.children[j] == t.children[j]
    requires t1.name == t.name && t1.runCount == t.runCount && t1.error == t.error
    requires i == |t.children| <==> |t1.children| == |t.children| + 1
    requires DistinctNames(t1.children) && ThrowFree(pre')
    requires t.runCount > 0 ==> forall n :: Declares(b, n) ==> t.HasChild(n)
    requires t.runCount > 0 && Declares(b, c'.name) ==> t1 == t
    requires ChildrenConform(t, b)
    requires Declares(b, c'.name) && Conforms(c', FirstBody(b, c'.name))
    requires c'.name == t1.children[i].name && Progress(t1.children[i], c')
    requires latch' || c'.IsComplete()
    requires forall m :: Declares(pre', m) ==>
               m == c'.name || (t.HasChild(m) && (latch' || t.children[FindChild(t.children, m)].IsComplete()))
    ensures var t2 := t1.(children := t1.children[i := c']);
            && WalkInv(t2, b, pre', latch')
            && |t2.children| >= |t.children|
            && (t.runCount > 0 ==> |t2.children| == |t.children|)
            && (forall j :: 0 <= j < |t.children| ==> Progress(t.children[j], t2.children[j]))
  {
    var t2 := t1.(children := t1.children[i := c']);
    ReplaceConform(t, t1, i, c', b);
    assert forall j :: 0 <= j < |t.children| ==> t2.children[j].name == t.children[j].name;
    forall m | Declares(pre', m)
      ensures t2.HasChild(m) && (latch' || t2.children[FindChild(t2.children, m)].IsComplete())
    {
      if m == c'.name {
        FindDistinct(t2.children, i);
      } else {
        var k := FindChild(t.children, m);
        assert t2.children[k].name == m;
        FindDistinct(t2.children, k);
        FindDistinct(t.children, k);
      }
    }
    if t.runCount > 0 {
      forall m | Declares(b, m) ensures t2.HasChild(m) {
        var k := FindChild(t.children, m);
        assert t2.children[k].name == m;
      }
    }
    forall j | 0 <= j < |t.children| ensures Progress(t.children[j], t2.children[j]) {
      if j != i {
        ProgressRefl(t.children[j]);
      }
    }
  }

  lemma {:induction false} ReplaceConform(t: TestV, t1: TestV, i: nat, c': TestV, b: Script)
    requires i < |t1.children| && |t.children| <= |t1.children| <= |t.children| + 1
    requires forall j :: 0 <= j < |t.children| ==> t1.children[j] == t.children[j]
    requires i == |t.children| <==> |t1.children| == |t.children| + 1
    requires DistinctNames(t1.children) && ChildrenConform(t, b)
    requires Declares(b, c'.name) && Conforms(c', FirstBody(b, c'.name)) && c'.name == t1.children[i].name
    ensures ChildrenConform(t1.(children := t1.children[i := c']), b)
  {
    var t2 := t1.(children := t1.children[i := c']);
    forall j | 0 <= j < |t2.children|
      ensures Declares(b, t2.children[j].name) && Conforms(t2.children[j], FirstBody(b, t2.children[j].name))
    {
      if j != i {
        assert t2.children[j] == t.children[j];
      }
    }
  }

  /**
   * Running the remaining steps of body `b == pre + steps`: the walk
   * invariant carries over to the end of the body, where every declared
   * name has a child, complete unless the latch is set; and it is a step.
   */
  lemma {:induction false} ExecFacts(t: TestV, b: Script, pre: Script, steps: Script, latch: bool)
    requires b == pre + steps
    requires WalkInv(t, b, pre, latch)
    ensures var o := Exec(t, steps, latch);
            Stepped(t, o.test, b, latch, o.latch) && Finished(o.test, b, o.latch)
    decreases Size(steps), 0
  {
    if steps == [] || steps[0].Throw? {
      ExecEnd(t, b, pre, steps, latch);
    } else {
      var p := DeclareStep(t, NameOf(steps[0].arg), steps[0].body, latch);
      DeclareFacts(t, b, pre, steps, latch);
      ConsSplit(pre, steps);
      ExecFacts(p.test, b, pre + [steps[0]], steps[1..], p.latch);
      ExecStep(t, b, steps, latch, p, Exec(p.test, steps[1..], p.latch));
    }
  }

  /** At the end of body `b`: its children conform, and every name it declares has a child, complete unless the latch is set. */
  ghost predicate Finished(t: TestV, b: Script, latch: bool) {
    && ChildrenConform(t, b)
    && (forall n :: Declares(b, n) ==>
          t.HasChild(n) && (latch || t.children[FindChild(t.children, n)].IsComplete()))
  }

  /** The end of a body, or its first throw: all its declarations have been made. */
  lemma {:induction false} ExecEnd(t: TestV, b: Script, pre: Script, steps: Script, latch: bool)
    requires b == pre + steps && (steps == [] || steps[0].Throw?)
    requires WalkInv(t, b, pre, latch)
    ensures Exec(t, steps, latch).test == t && Exec(t, steps, latch).latch == latch
    ensures Stepped(t, t, b, latch, latch)
    ensures Finished(t, b, latch)
  {
    SteppedRefl(t, b, latch);
    forall n | Declares(b, n) ensures Declares(pre, n) {
      DeclaresConcat(pre, steps, n);
    }
  }

  lemma ConsSplit(pre: Script, steps: Script)
    requires steps != []
    ensures pre + steps == (pre + [steps[0]]) + steps[1..]
  {
  }

  /** A declaration step followed by the rest of the body composes into the body's effect. */
  lemma {:induction false} ExecStep(t: TestV, b: Script, steps: Script, latch: bool, p: Pass, o: Outcome)
    requires steps != [] && steps[0].Declare?
    requires p == DeclareStep(t, NameOf(steps[0].arg), steps[0].body, latch)
    requires o == Exec(p.test, steps[1..], p.latch)
    requires Stepped(t, p.test, b, latch, p.latch)
    requires Stepped(p.test, o.test, b, p.latch, o.latch) && Finished(o.test, b, o.latch)
    ensures Exec(t, steps, latch) == o
    ensures Stepped(t, o.test, b, latch, o.latch) && Finished(o.test, b, o.latch)
  {
    SteppedTrans(t, p.test, o.test, b, latch, p.latch, o.latch);
  }

  // ----- The whole run: `_runTree` -----

  /**
   * The tree `_runTree` leaves behind: passes with a clear latch until the
   * node is complete.
   */
  ghost function Iterate(t: TestV, fn: Script): (r: TestV)
    requires Conforms(t, fn)
    decreases Measure(t, fn)
  {
    if t.IsComplete() then t
    else
      BranchFacts(t, fn, false);
      Iterate(RunBranch(t, fn, false).test, fn)
  }

  /** How many passes `_runTree` makes. */
  ghost function PassCount(t: TestV, fn: Script): (r: nat)
    requires Conforms(t, fn)
    decreases Measure(t, fn)
  {
    if t.IsComplete() then 0
    else
      BranchFacts(t, fn, false);
      1 + PassCount(RunBranch(t, fn, false).test, fn)
  }

  /** The final tree is complete, still conforms, and was reached by progress. */
  lemma {:induction false} IterateFacts(t: TestV, fn: Script)
    requires Conforms(t, fn)
    ensures var r := Iterate(t, fn);
            r.IsComplete() && Conforms(r, fn) && Progress(t, r) && r.name == t.name
    decreases Measure(t, fn)
  {
    if t.IsComplete() {
      ProgressRefl(t);
    } else {
      BranchFacts(t, fn, false);
      var p := RunBranch(t, fn, false);
      IterateFacts(p.test, fn);
      ProgressTrans(t, p.test, Iterate(p.test, fn));
    }
  }

  /**
   * No passes for a complete node, at least one otherwise, and never more
   * than the measure, so at most one more than the nodes the body declares.
   */
  lemma {:induction false} PassCountBound(t: TestV, fn: Script)
    requires Conforms(t, fn)
    ensures PassCount(t, fn) <= Measure(t, fn) <= 1 + Total(fn)
    ensures PassCount(t, fn) == 0 <==> t.IsComplete()
    decreases Measure(t, fn)
  {
    MeasureBound(t, fn);
    if !t.IsComplete() {
      BranchFacts(t, fn, false);
      PassCountBound(RunBranch(t, fn, false).test, fn);
    }
  }

  /** A complete node needs no pass. */
  lemma IterateDone(t: TestV, fn: Script)
    requires Conforms(t, fn) && t.IsComplete()
    ensures Iterate(t, fn) == t && PassCount(t, fn) == 0
  {
  }

  /** An incomplete node needs one pass more than the tree after its next pass. */
  lemma IterateStep(t: TestV, fn: Script)
    requires Conforms(t, fn) && !t.IsComplete()
    ensures Conforms(RunBranch(t, fn, false).test, fn)
    ensures Iterate(t, fn) == Iterate(RunBranch(t, fn, false).test, fn)
    ensures PassCount(t, fn) == 1 + PassCount(RunBranch(t, fn, false).test, fn)
    ensures Measure(RunBranch(t, fn, false).test, fn) < Measure(t, fn)
  {
    BranchFacts(t, fn, false);
  }

  /**
   * Where `_runTree`'s loop stands after `k` passes from `t0`: at a
   * conforming tree with the same final tree and `k` passes fewer to go.
   */
  ghost predicate TreeAt(t0: TestV, x: TestV, fn: Script, k: nat) {
    && Conforms(t0, fn) && Conforms(x, fn)
    && Iterate(x, fn) == Iterate(t0, fn)
    && k + PassCount(x, fn) == PassCount(t0, fn)
  }

  /** One more pass of the loop, from an incomplete tree. */
  lemma TreeStep(t0: TestV, x: TestV, fn: Script, k: nat, y: TestV)
    requires TreeAt(t0, x, fn, k) && !x.IsComplete() && y == RunBranch(x, fn, false).test
    ensures TreeAt(t0, y, fn, k + 1) && Measure(y, fn) < Measure(x, fn)
  {
    IterateStep(x, fn);
  }

  /** The loop ends at a complete tree: the final one, after all the passes. */
  lemma TreeEnd(t0: TestV, x: TestV, fn: Script, k: nat)
    requires TreeAt(t0, x, fn, k) && x.IsComplete()
    ensures x == Iterate(t0, fn) && k == PassCount(t0, fn)
  {
    IterateDone(x, fn);
  }

  /** A node that has not run conforms to any body. */
  lemma FreshConforms(n: string, fn: Script)
    ensures Conforms(FreshTest(n), fn)
  {
  }
}
