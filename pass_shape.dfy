/**
 * The shape of one pass of the runner, and what it means for leaves.
 * In a pass the nodes whose bodies run form a single path down from the
 * node the pass starts at ("one branch per pass"), each of them incomplete
 * beforehand; so a node that ends up without children ran at most once, and
 * once the root is complete every leaf has run exactly once.
 */
module PassShape {
  import opened Wrappers
  import opened Tests
  import opened RunnerSpec

  /** The `i`-th child before the pass: the old child, or a fresh node if the pass created it. */
  function Before(x: TestV, y: TestV, i: nat): (r: TestV)
    requires i < |y.children|
  {
    if i < |x.children| then x.children[i] else FreshTest(y.children[i].name)
  }

  /** The `i`-th child of `y` differs from what it was before the pass. */
  predicate Changed(x: TestV, y: TestV, i: nat)
    requires i < |y.children|
  {
    y.children[i] != Before(x, y, i)
  }

  /**
   * `y` is `x` after a pass: either nothing happened to it, or its body ran
   * once while it was incomplete, it kept its children in order (and may
   * have gained some), at most one child changed, and every child is in
   * turn the result of a pass.
   */
  ghost predicate OnePath(x: TestV, y: TestV)
    decreases y, 1
  {
    || y == x
    || (&& !x.IsComplete()
        && y.name == x.name && y.runCount == x.runCount + 1
        && |x.children| <= |y.children|
        && KidsPath(x, y))
  }

  ghost predicate KidsPath(x: TestV, y: TestV)
    decreases y, 0
  {
    && (forall i, j :: 0 <= i < j < |y.children| ==> !(Changed(x, y, i) && Changed(x, y, j)))
    && (forall i :: 0 <= i < |y.children| ==> OnePath(Before(x, y, i), y.children[i]))
  }

  /**
   * While the body of `t0` runs, the node as it stands (`t`): same name, run
   * count and failure, the old children first, each child the result of a
   * pass, at most one of them changed, and none before the latch is set.
   */
  ghost predicate Walk(t0: TestV, t: TestV, latch: bool) {
    && t.name == t0.name && t.runCount == t0.runCount && t.error == t0.error
    && |t0.children| <= |t.children|
    && KidsPath(t0, t)
    && (!latch ==> forall i :: 0 <= i < |t.children| ==> !Changed(t0, t, i))
  }

  /** A branch attempt is a pass, and changes the node only by setting a clear latch. */
  lemma {:induction false} BranchPath(t: TestV, b: Script, latch: bool)
    ensures var p := RunBranch(t, b, latch);
            && OnePath(t, p.test)
            && (latch ==> p.latch)
            && (p.test != t ==> !latch && p.latch)
    decreases Size(b), 1
  {
    if !(t.IsComplete() || latch) {
      var o := Exec(t, b, false);
      WalkStart(t);
      ExecPath(t, t, b, false);
      RanPath(t, o.test, o.thrown);
    }
  }

  lemma WalkStart(t: TestV)
    ensures Walk(t, t, false)
  {
    forall i | 0 <= i < |t.children| ensures OnePath(Before(t, t, i), t.children[i]) {
    }
  }

  /** `run` records the finished walk: the node's pass. */
  lemma RanPath(t: TestV, x: TestV, thrown: Option<Thrown>)
    requires !t.IsComplete() && Walk(t, x, true)
    ensures OnePath(t, x.Ran(thrown))
  {
    var y := x.Ran(thrown);
    assert y.children == x.children;
    forall i | 0 <= i < |y.children|
      ensures Before(t, y, i) == Before(t, x, i) && (Changed(t, y, i) <==> Changed(t, x, i))
    {
    }
    assert KidsPath(t, y);
  }

  /** The rest of a body keeps the walk going; the latch, once set, stays set. */
  lemma {:induction false} ExecPath(t0: TestV, t: TestV, steps: Script, latch: bool)
    requires Walk(t0, t, latch)
    ensures var o := Exec(t, steps, latch);
            Walk(t0, o.test, o.latch) && (latch ==> o.latch)
    decreases Size(steps), 0
  {
    if steps != [] && steps[0].Declare? {
      var p := DeclareStep(t, NameOf(steps[0].arg), steps[0].body, latch);
      DeclarePath(t0, t, NameOf(steps[0].arg), steps[0].body, latch);
      ExecPath(t0, p.test, steps[1..], p.latch);
    }
  }

  /** One nested `test(n, body)` call keeps the walk going. */
  lemma {:induction false} DeclarePath(t0: TestV, t: TestV, n: string, body: Script, latch: bool)
    requires Walk(t0, t, latch)
    ensures var p := DeclareStep(t, n, body, latch);
            Walk(t0, p.test, p.latch) && (latch ==> p.latch)
    decreases Size(body), 2
  {
    var t1 := t.WithChild(n);
    var i := FindChild(t1.children, n);
    var c := t1.children[i];
    var q := RunBranch(c, body, latch);
    BranchPath(c, body, latch);
    WithChildWalk(t0, t, n, latch);
    ReplaceWalkPath(t0, t1, i, q.test, latch, q.latch);
  }

  /** Creating the child, if need be, keeps the walk: a new child is a fresh node, unchanged. */
  lemma WithChildWalk(t0: TestV, t: TestV, n: string, latch: bool)
    requires Walk(t0, t, latch)
    ensures Walk(t0, t.WithChild(n), latch)
  {
    var t1 := t.WithChild(n);
    if !t.HasChild(n) {
      assert t1.children == t.children + [FreshTest(n)];
      forall i | 0 <= i < |t1.children| ensures OnePath(Before(t0, t1, i), t1.children[i]) {
        if i < |t.children| {
          assert Before(t0, t1, i) == Before(t0, t, i);
        }
      }
      assert forall i :: 0 <= i < |t.children| ==> (Changed(t0, t1, i) <==> Changed(t0, t, i));
    }
  }

  /**
   * Putting back the child at `i` after its branch attempt keeps the walk:
   * the child changed only if the latch was clear, when no child had
   * changed yet.
   */
  lemma ReplaceWalkPath(t0: TestV, t: TestV, i: nat, c': TestV, latch: bool, latch': bool)
    requires Walk(t0, t, latch) && i < |t.children|
    requires OnePath(t.children[i], c') && (latch ==> latch')
    requires c' != t.children[i] ==> !latch && latch'
    ensures Walk(t0, t.(children := t.children[i := c']), latch')
  {
    var t2 := t.(children := t.children[i := c']);
    forall j | 0 <= j < |t2.children|
      ensures Before(t0, t2, j) == Before(t0, t, j)
      ensures j != i ==> (Changed(t0, t2, j) <==> Changed(t0, t, j))
    {
    }
    if c' != t.children[i] {
      assert !Changed(t0, t, i);
      assert forall j :: 0 <= j < |t2.children| && j != i ==> !Changed(t0, t2, j);
    } else {
      assert t2 == t;
    }
  }

  // ----- Leaves run once -----

  /** Every node of the tree without children has run at most once. */
  ghost predicate LeavesAtMostOnce(t: TestV)
    decreases t
  {
    && (t.children == [] ==> t.runCount <= 1)
    && forall i :: 0 <= i < |t.children| ==> LeavesAtMostOnce(t.children[i])
  }

  /** Every node of the tree without children has run exactly once. */
  ghost predicate LeavesOnce(t: TestV)
    decreases t
  {
    && (t.children == [] ==> t.runCount == 1)
    && forall i :: 0 <= i < |t.children| ==> LeavesOnce(t.children[i])
  }

  /**
   * A pass keeps leaves at most once: a node that runs while incomplete and
   * still has no children afterwards had not run before.
   */
  lemma {:induction false} PassKeepsLeaves(x: TestV, y: TestV)
    requires LeavesAtMostOnce(x) && OnePath(x, y)
    ensures LeavesAtMostOnce(y)
    decreases y
  {
    if y != x {
      forall i | 0 <= i < |y.children| ensures LeavesAtMostOnce(y.children[i]) {
        PassKeepsLeaves(Before(x, y, i), y.children[i]);
      }
    }
  }

  /** When the root is complete, every leaf ran once. */
  lemma {:induction false} CompleteLeavesOnce(t: TestV)
    requires t.IsComplete() && LeavesAtMostOnce(t)
    ensures LeavesOnce(t)
    decreases t
  {
    forall i | 0 <= i < |t.children| ensures LeavesOnce(t.children[i]) {
      CompleteLeavesOnce(t.children[i]);
    }
  }

  lemma FreshLeaves(n: string)
    ensures LeavesAtMostOnce(FreshTest(n))
  {
  }

  /**
   * `_runTree` from a tree whose leaves ran at most once (a fresh node, in
   * particular) ends with every leaf having run exactly once.
   */
  lemma {:induction false} RunTreeLeavesOnce(t: TestV, fn: Script)
    requires Conforms(t, fn) && LeavesAtMostOnce(t)
    ensures LeavesOnce(Iterate(t, fn))
    decreases Measure(t, fn)
  {
    if t.IsComplete() {
      CompleteLeavesOnce(t);
    } else {
      BranchFacts(t, fn, false);
      BranchPath(t, fn, false);
      PassKeepsLeaves(t, RunBranch(t, fn, false).test);
      RunTreeLeavesOnce(RunBranch(t, fn, false).test, fn);
    }
  }
}
