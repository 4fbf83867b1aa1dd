/**
 * `TestRunner`: runs a test body over and over until its result tree is
 * complete, letting one incomplete branch run per pass, with the setup
 * plugins wrapped around each pass.
 */
module Runner {
  import opened Wrappers
  import Tests
  import opened RunnerSpec

  /** A registered plugin, known by the name it was registered under. */
  datatype Plugin = Plugin(name: string)

  /** The plugins in the order `_runWithPlugins` calls them: last registered first. */
  function Reversed(plugins: seq<Plugin>): (r: seq<Plugin>)
    ensures |r| == |plugins| && forall i :: 0 <= i < |r| ==> r[i] == plugins[|plugins| - 1 - i]
  {
    if plugins == [] then [] else [plugins[|plugins| - 1]] + Reversed(plugins[..|plugins| - 1])
  }

  /** `s`, `k` times over. */
  function Repeat(s: seq<Plugin>, k: nat): (r: seq<Plugin>)
    ensures |r| == k * |s|
  {
    if k == 0 then [] else Repeat(s, k - 1) + s
  }

  class TestRunner {
    /** `_rootPlugins`: registered, never read by a run. */
    var rootPlugins: seq<Plugin>
    var setupPlugins: seq<Plugin>
    /** `_branchHasBeenRun`: the latch that lets one branch run per pass. */
    var branchHasBeenRun: bool
    /** `_thisValue`: the per-pass `this` of every body. */
    var thisValue: Option<Tests.Context>
    /** `_outerTest`: the node whose body is running, if any. */
    var outerTest: Tests.Test?
    /** The setup plugins in the order they were called, over all passes so far. */
    var setupCalls: seq<Plugin>

    constructor ()
      ensures rootPlugins == [] && setupPlugins == [] && setupCalls == []
      ensures outerTest == null && thisValue == None && !branchHasBeenRun
    {
      rootPlugins, setupPlugins, setupCalls := [], [], [];
      outerTest, thisValue, branchHasBeenRun := null, None, false;
    }

    method RegisterRootPlugin(p: Plugin)
      modifies this
      ensures rootPlugins == old(rootPlugins) + [p]
      ensures setupPlugins == old(setupPlugins) && setupCalls == old(setupCalls)
      ensures outerTest == old(outerTest) && thisValue == old(thisValue)
      ensures branchHasBeenRun == old(branchHasBeenRun)
    {
      rootPlugins := rootPlugins + [p];
    }

    method RegisterSetupPlugin(p: Plugin)
      modifies this
      ensures setupPlugins == old(setupPlugins) + [p]
      ensures rootPlugins == old(rootPlugins) && setupCalls == old(setupCalls)
      ensures outerTest == old(outerTest) && thisValue == old(thisValue)
      ensures branchHasBeenRun == old(branchHasBeenRun)
    {
      setupPlugins := setupPlugins + [p];
    }

    /**
     * `test(name, fn)`. At the top level it makes a new root and runs its
     * tree to completion; inside a running body it reuses or creates the
     * running node's child of that name and gives it a branch attempt.
     */
    method Test(arg: Tests.NameArg, fn: Tests.Script) returns (t: Tests.Test)
      requires outerTest != null ==> outerTest.Valid()
      modifies this, if outerTest != null then outerTest.Repr else {}
      ensures outerTest == old(outerTest) && (old(outerTest) != null ==> thisValue == old(thisValue))
      ensures setupPlugins == old(setupPlugins) && rootPlugins == old(rootPlugins)
      ensures old(outerTest) == null ==>
                && fresh(t) && t.Valid() && fresh(t.Repr) && t.name == NameOf(arg)
                && t.model == Iterate(Tests.FreshTest(NameOf(arg)), fn)
                && setupCalls == old(setupCalls) + Repeat(Reversed(setupPlugins), PassCount(Tests.FreshTest(NameOf(arg)), fn))
      ensures old(outerTest) != null ==>
                && outerTest.Valid() && fresh(outerTest.Repr - old(outerTest.Repr))
                && t in outerTest.Repr && t.name == NameOf(arg) && t.Valid()
                && (exists j :: 0 <= j < |outerTest.model.children| && outerTest.model.children[j].name == NameOf(arg))
                && t == outerTest.kids[Tests.FindChild(outerTest.model.children, NameOf(arg))]
                && t.model == outerTest.model.children[Tests.FindChild(outerTest.model.children, NameOf(arg))]
                && Pass(outerTest.model, branchHasBeenRun)
                   == DeclareStep(old(outerTest.model), NameOf(arg), fn, old(branchHasBeenRun))
                && setupCalls == old(setupCalls)
      decreases Tests.Size(fn), 7, 0
    {
      var name := NameOf(arg);
      t := CreateTest(name);
      ghost var i: nat := if outerTest != null then Tests.FindChild(outerTest.model.children, name) else 0;
      RunTest(t, fn, i);
      if outerTest != null {
        outerTest.KidNamed(i, name);
        DeclareStepIs(old(outerTest.model), name, fn, old(branchHasBeenRun), i, Pass(t.model, branchHasBeenRun));
      }
    }

    /** `_createTest(name)`: `outerTest.child(name)` inside a body, a new root otherwise. */
    method CreateTest(name: string) returns (t: Tests.Test)
      requires outerTest != null ==> outerTest.Valid()
      modifies if outerTest != null then {outerTest} else {}
      ensures t.Valid() && t.name == name
      ensures outerTest == null ==> fresh(t) && fresh(t.Repr) && t.model == Tests.FreshTest(name)
      ensures outerTest != null ==>
                && outerTest.Valid() && fresh(outerTest.Repr - old(outerTest.Repr))
                && t in outerTest.Repr && t.Repr <= outerTest.Repr && outerTest !in t.Repr
                && outerTest.model == old(outerTest.model).WithChild(name)
                && t == outerTest.kids[Tests.FindChild(outerTest.model.children, name)]
    {
      if outerTest != null {
        t := outerTest.Child(name);
      } else {
        t := new Tests.Test(name);
      }
    }

    /**
     * `_runTest(test, fn)`: a branch attempt inside a body, the whole tree
     * otherwise. Inside a body `t` is the running node's child at `i`, and
     * the running node is brought up to date with it.
     */
    method RunTest(t: Tests.Test, fn: Tests.Script, ghost i: nat)
      requires t.Valid()
      requires outerTest != null ==> outerTest.Valid() && i < |outerTest.kids| && outerTest.kids[i] == t
      requires outerTest == null ==> RunnerSpec.Conforms(t.model, fn)
      modifies this, t.Repr, if outerTest != null then {outerTest} else {}
      ensures t.Valid() && fresh(t.Repr - old(t.Repr))
      ensures outerTest == old(outerTest) && (old(outerTest) != null ==> thisValue == old(thisValue))
      ensures setupPlugins == old(setupPlugins) && rootPlugins == old(rootPlugins)
      ensures old(outerTest) != null ==>
                && Pass(t.model, branchHasBeenRun) == RunBranch(old(t.model), fn, old(branchHasBeenRun))
                && setupCalls == old(setupCalls)
                && outerTest.Valid() && outerTest.Repr == old(outerTest.Repr) + t.Repr
                && outerTest.kids == old(outerTest.kids)
                && outerTest.model == old(outerTest.model).(children := old(outerTest.model).children[i := t.model])
      ensures old(outerTest) == null ==>
                t.model == Iterate(old(t.model), fn)
                && setupCalls == old(setupCalls) + Repeat(Reversed(setupPlugins), PassCount(old(t.model), fn))
      decreases Tests.Size(fn), 6, 0
    {
      if outerTest != null {
        RunSingleBranch(t, fn);
        outerTest.ChildChanged(i);
        outerTest.Adopt(i);
      } else {
        RunTree(t, fn);
      }
    }

    /**
     * `_runTree(test, fn)`: passes, each with the latch cleared and a new
     * `this`, until the node is complete.
     */
    method RunTree(t: Tests.Test, fn: Tests.Script)
      requires outerTest == null && t.Valid() && Conforms(t.model, fn)
      modifies this, t.Repr
      ensures t.Valid() && fresh(t.Repr - old(t.Repr)) && outerTest == null
      ensures t.model == Iterate(old(t.model), fn) && t.model.IsComplete()
      ensures setupCalls == old(setupCalls) + Repeat(Reversed(setupPlugins), PassCount(old(t.model), fn))
      ensures setupPlugins == old(setupPlugins) && rootPlugins == old(rootPlugins)
      decreases Tests.Size(fn), 5, 0
    {
      ghost var k: nat := 0;
      ghost var t0 := t.model;
      while !t.IsComplete()
        invariant t.Valid() && fresh(t.Repr - old(t.Repr)) && outerTest == null
        invariant TreeAt(t0, t.model, fn, k)
        invariant setupCalls == old(setupCalls) + Repeat(Reversed(setupPlugins), k)
        invariant setupPlugins == old(setupPlugins) && rootPlugins == old(rootPlugins)
        decreases Measure(t.model, fn)
      {
        TreePass(t, fn, t0, k, old(setupCalls));
        k := k + 1;
      }
      TreeFinish(t0, t.model, fn, k, old(setupCalls), setupCalls, Reversed(setupPlugins));
    }

    method TreePass(t: Tests.Test, fn: Tests.Script, ghost t0: Tests.TestV, ghost k: nat, ghost calls0: seq<Plugin>)
      requires t.Valid() && TreeAt(t0, t.model, fn, k) && !t.model.IsComplete()
      requires setupCalls == calls0 + Repeat(Reversed(setupPlugins), k)
      modifies this, t.Repr
      ensures t.Valid() && fresh(t.Repr - old(t.Repr))
      ensures TreeAt(t0, t.model, fn, k + 1) && Measure(t.model, fn) < Measure(old(t.model), fn)
      ensures setupCalls == calls0 + Repeat(Reversed(setupPlugins), k + 1)
      ensures outerTest == old(outerTest)
      ensures setupPlugins == old(setupPlugins) && rootPlugins == old(rootPlugins)
      decreases Tests.Size(fn), 4, 1
    {
      ghost var before := t.model;
      RunPass(t, fn);
      TreeStep(t0, before, fn, k, t.model);
      RepeatMore(calls0, Reversed(setupPlugins), k);
    }

    /** One pass of `_runTree`'s loop: the latch cleared, a new `this`, and the branch attempt inside the setup plugins. */
    method RunPass(t: Tests.Test, fn: Tests.Script)
      requires t.Valid()
      modifies this, t.Repr
      ensures t.Valid() && fresh(t.Repr - old(t.Repr))
      ensures Pass(t.model, branchHasBeenRun) == RunBranch(old(t.model), fn, false)
      ensures setupCalls == old(setupCalls) + Reversed(setupPlugins)
      ensures thisValue == Some(Tests.NextContext(old(thisValue)))
      ensures outerTest == old(outerTest)
      ensures setupPlugins == old(setupPlugins) && rootPlugins == old(rootPlugins)
      decreases Tests.Size(fn), 4, 0
    {
      branchHasBeenRun := false;
      thisValue := Some(Tests.NextContext(thisValue));
      RunWithPlugins(setupPlugins, t, fn);
    }

    /**
     * `_runWithPlugins(plugins, innermost, test, context)`: the entries of
     * `[innermost] + plugins` are called by `callback`, last first.
     */
    method RunWithPlugins(plugins: seq<Plugin>, t: Tests.Test, fn: Tests.Script)
      requires t.Valid()
      modifies this, t.Repr
      ensures t.Valid() && fresh(t.Repr - old(t.Repr))
      ensures Pass(t.model, branchHasBeenRun) == RunBranch(old(t.model), fn, old(branchHasBeenRun))
      ensures setupCalls == old(setupCalls) + Reversed(plugins)
      ensures outerTest == old(outerTest) && thisValue == old(thisValue)
      ensures setupPlugins == old(setupPlugins) && rootPlugins == old(rootPlugins)
      decreases Tests.Size(fn), 3, |plugins| + 1
    {
      Callback(plugins, t, fn);
    }

    /**
     * `callback()`: `functions.pop()` is called with `callback` as its
     * continuation. `pending` is what is left of `functions` above the
     * innermost entry. A plugin calls its continuation once (the only
     * effect of a plugin that is modelled is that it was called); the
     * innermost entry is `_runSingleBranch(test, fn)`.
     */
    method Callback(pending: seq<Plugin>, t: Tests.Test, fn: Tests.Script)
      requires t.Valid()
      modifies this, t.Repr
      ensures t.Valid() && fresh(t.Repr - old(t.Repr))
      ensures Pass(t.model, branchHasBeenRun) == RunBranch(old(t.model), fn, old(branchHasBeenRun))
      ensures setupCalls == old(setupCalls) + Reversed(pending)
      ensures outerTest == old(outerTest) && thisValue == old(thisValue)
      ensures setupPlugins == old(setupPlugins) && rootPlugins == old(rootPlugins)
      decreases Tests.Size(fn), 3, |pending|
    {
      if pending == [] {
        RunSingleBranch(t, fn);
      } else {
        var p := pending[|pending| - 1];
        setupCalls := setupCalls + [p];
        Callback(pending[..|pending| - 1], t, fn);
      }
    }

    /** `_runSingleBranch(test, fn)`: nothing if the node is complete or the latch is set. */
    method RunSingleBranch(t: Tests.Test, fn: Tests.Script)
      requires t.Valid()
      modifies this, t.Repr
      ensures t.Valid() && fresh(t.Repr - old(t.Repr))
      ensures Pass(t.model, branchHasBeenRun) == RunBranch(old(t.model), fn, old(branchHasBeenRun))
      ensures outerTest == old(outerTest) && thisValue == old(thisValue) && setupCalls == old(setupCalls)
      ensures setupPlugins == old(setupPlugins) && rootPlugins == old(rootPlugins)
      decreases Tests.Size(fn), 2, 0
    {
      if t.IsComplete() || branchHasBeenRun {
        return;
      }
      RunTestFunction(t, fn);
      branchHasBeenRun := true;
    }

    /** `_runTestFunction(test, fn)`: runs the body with `test` as the outer test, then restores it. */
    method RunTestFunction(t: Tests.Test, fn: Tests.Script)
      requires t.Valid()
      modifies this, t.Repr
      ensures t.Valid() && fresh(t.Repr - old(t.Repr))
      ensures var o := Exec(old(t.model), fn, old(branchHasBeenRun));
              t.model == o.test.Ran(o.thrown) && branchHasBeenRun == o.latch
      ensures outerTest == old(outerTest) && thisValue == old(thisValue) && setupCalls == old(setupCalls)
      ensures setupPlugins == old(setupPlugins) && rootPlugins == old(rootPlugins)
      decreases Tests.Size(fn), 1, 0
    {
      var outer := outerTest;
      outerTest := t;
      var thrown := ExecBody(t, fn);
      t.Run(fn, thisValue, thrown);
      outerTest := outer;
    }

    /**
     * The body itself, as `fn.call(thisValue)` runs it inside `test.run`:
     * its nested `test(...)` calls in order, up to its first throw, which
     * is handed back for `run` to record.
     */
    method ExecBody(t: Tests.Test, steps: Tests.Script) returns (thrown: Option<Tests.Thrown>)
      requires outerTest == t && t.Valid()
      modifies this, t.Repr
      ensures t.Valid() && fresh(t.Repr - old(t.Repr)) && outerTest == t
      ensures Exec(old(t.model), steps, old(branchHasBeenRun)) == Outcome(t.model, branchHasBeenRun, thrown)
      ensures thisValue == old(thisValue) && setupCalls == old(setupCalls)
      ensures setupPlugins == old(setupPlugins) && rootPlugins == old(rootPlugins)
      decreases Tests.Size(steps), 0, 0
    {
      if steps == [] {
        return None;
      }
      match steps[0]
      case Throw(e) =>
        return Some(e);
      case Declare(arg, body) =>
        var _ := Test(arg, body);
        thrown := ExecBody(t, steps[1..]);
    }
  }

  /** `DeclareStep`, given the child's position and its branch attempt. */
  lemma DeclareStepIs(m: Tests.TestV, n: string, fn: Tests.Script, latch: bool, i: nat, q: Pass)
    requires i == Tests.FindChild(m.WithChild(n).children, n)
    requires q == RunBranch(m.WithChild(n).children[i], fn, latch)
    ensures DeclareStep(m, n, fn, latch) == Pass(m.WithChild(n).(children := m.WithChild(n).children[i := q.test]), q.latch)
  {
  }

  lemma TreeFinish(t0: Tests.TestV, x: Tests.TestV, fn: Tests.Script, k: nat, calls0: seq<Plugin>, calls: seq<Plugin>, rs: seq<Plugin>)
    requires TreeAt(t0, x, fn, k) && x.IsComplete() && calls == calls0 + Repeat(rs, k)
    ensures x == Iterate(t0, fn) && calls == calls0 + Repeat(rs, PassCount(t0, fn))
  {
    TreeEnd(t0, x, fn, k);
  }

  lemma RepeatMore(pre: seq<Plugin>, s: seq<Plugin>, k: nat)
    ensures pre + Repeat(s, k) + s == pre + Repeat(s, k + 1)
  {
  }

}
