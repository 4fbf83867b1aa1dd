/**
 * The result tree: one `Test` node per declared test, holding its name, how
 * many times its own body ran, its children (keyed by name, in the order they
 * were first declared) and the failure its body raised, if any.
 */
module Tests {
  import opened Wrappers

  /** A JavaScript `Error` object; only its description is modelled. */
  datatype Error = Error(message: string)

  /** What a body can throw: an `Error` instance, or any other value (given by its string form). */
  datatype Thrown = ThrownError(error: Error) | ThrownValue(text: string)

  /** `if (!(error instanceof Error)) error = new Error(error)`. */
  function AsError(t: Thrown): (e: Error)
    ensures t.ThrownError? ==> e == t.error
    ensures t.ThrownValue? ==> e.message == t.text
  {
    match t
    case ThrownError(e) => e
    case ThrownValue(text) => Error(text)
  }

  /** How a nested `test(...)` call names its test: explicitly, or by the function it is given. */
  datatype NameArg = Named(name: string) | FromFunction(fnName: string, contents: string)

  /**
   * A test body. Bodies are arbitrary code; what matters to the runner is the
   * nested `test(name, fn)` calls they make and whether they throw, so a body
   * is a list of such steps, executed in order.
   */
  datatype Step = Declare(arg: NameArg, body: seq<Step>) | Throw(thrown: Thrown)

  type Script = seq<Step>

  /** Number of steps, nested ones included; the measure for recursion over bodies. */
  function Size(s: Script): (r: nat) {
    if s == [] then 0
    else (match s[0] case Declare(_, b) => 1 + Size(b) case Throw(_) => 1) + Size(s[1..])
  }

  lemma {:induction false} BodyIsSmaller(s: Script, i: nat)
    requires i < |s| && s[i].Declare?
    ensures Size(s[i].body) < Size(s)
  {
    if i > 0 {
      BodyIsSmaller(s[1..], i - 1);
    }
  }

  /**
   * The per-pass `this` value (`this._thisValue = {}`). Only its identity
   * matters, so each new object is told apart from the earlier ones by a
   * number that grows from pass to pass.
   */
  datatype Context = Context(id: nat)

  /** The object made for the next pass: new, unlike every earlier one. */
  function NextContext(last: Option<Context>): (c: Context)
    ensures last.Some? ==> c.id > last.value.id
  {
    if last.Some? then Context(last.value.id + 1) else Context(0)
  }

  // ----- The abstract value of a node -----

  /** A node as a value: name, run count, children in declaration order, failure. */
  datatype TestV = TestV(name: string, runCount: nat, children: seq<TestV>, error: Option<Error>)
  {
    /** Its own body has run and every child is complete. */
    predicate IsComplete() {
      runCount > 0 && forall i :: 0 <= i < |children| ==> children[i].IsComplete()
    }

    /** Complete, every child has passed, and no failure of its own. */
    predicate HasPassed() {
      IsComplete() && (forall i :: 0 <= i < |children| ==> children[i].HasPassed()) && error.None?
    }

    predicate HasChild(n: string) {
      exists i :: 0 <= i < |children| && children[i].name == n
    }

    /** `child(name)` on the value: unchanged if the child exists, otherwise one new child at the end. */
    function WithChild(n: string): (r: TestV)
      ensures r.HasChild(n)
      ensures r.name == name && r.runCount == runCount && r.error == error
      ensures children <= r.children && |r.children| <= |children| + 1
    {
      if HasChild(n) then this
      else
        var r := this.(children := children + [FreshTest(n)]);
        assert r.children[|children|].name == n;
        r
    }

    /** What `run` records: one more run, and the failure if the body threw. */
    function Ran(outcome: Option<Thrown>): (r: TestV) {
      this.(runCount := runCount + 1,
            error := if outcome.Some? then Some(AsError(outcome.value)) else error)
    }
  }

  /** `new Test(name)`. */
  function FreshTest(n: string): (r: TestV) {
    TestV(n, 0, [], None)
  }

  /** Index of the first child with the given name. */
  function FindChild(cs: seq<TestV>, n: string): (i: nat)
    requires exists j :: 0 <= j < |cs| && cs[j].name == n
    ensures i < |cs| && cs[i].name == n
    ensures forall j :: 0 <= j < i ==> cs[j].name != n
  {
    if cs[0].name == n then 0 else 1 + FindChild(cs[1..], n)
  }

  /** Child names are distinct, as the keys of `_children` are. */
  predicate DistinctNames(cs: seq<TestV>) {
    forall i, j :: 0 <= i < j < |cs| ==> cs[i].name != cs[j].name
  }

  /** With distinct names, a child is found at its own position. */
  lemma FindDistinct(cs: seq<TestV>, i: nat)
    requires DistinctNames(cs) && i < |cs|
    ensures FindChild(cs, cs[i].name) == i
  {
  }

  /** No node in the tree carries a failure of its own. */
  predicate NoErrors(t: TestV) {
    t.error.None? && forall i :: 0 <= i < |t.children| ==> NoErrors(t.children[i])
  }

  lemma HasPassedImpliesComplete(t: TestV)
    ensures t.HasPassed() ==> t.IsComplete()
  {
  }

  lemma FreshTestNeitherCompleteNorPassed(n: string)
    ensures !FreshTest(n).IsComplete() && !FreshTest(n).HasPassed()
  {
  }

  /**
   * A complete tree has passed exactly when no node in it failed: a failure
   * anywhere below marks every ancestor as not passed.
   */
  lemma {:induction false} PassedIffNoErrors(t: TestV)
    requires t.IsComplete()
    ensures t.HasPassed() <==> NoErrors(t)
  {
    forall i | 0 <= i < |t.children|
      ensures t.children[i].HasPassed() <==> NoErrors(t.children[i])
    {
      PassedIffNoErrors(t.children[i]);
    }
  }

  // ----- The node itself -----

  class Test {
    const name: string
    var runCount: nat
    /**
     * `_children`: the child nodes in the order their names were first used,
     * which is the order `Object.keys` lists them in; names are distinct.
     */
    var kids: seq<Test>
    var error: Option<Error>
    /** The failing body and the `this` it ran with, kept once it threw. */
    var inspect: Option<Script>
    var inspectThisValue: Option<Context>

    ghost var Repr: set<Test>
    /** The subtree as a value. */
    ghost var model: TestV

    ghost predicate Valid()
      reads this, Repr
      decreases Repr
    {
      && this in Repr
      && (forall i :: 0 <= i < |kids| ==>
            && kids[i] in Repr && kids[i].Repr <= Repr && this !in kids[i].Repr
            && kids[i].Valid())
      && (forall i, j :: 0 <= i < j < |kids| ==> kids[i].name != kids[j].name && kids[i].Repr !! kids[j].Repr)
      && model.name == name && model.runCount == runCount && model.error == error
      && |model.children| == |kids|
      && (forall i :: 0 <= i < |kids| ==> model.children[i] == kids[i].model)
    }

    constructor (name: string)
      ensures Valid() && fresh(Repr) && Repr == {this}
      ensures this.name == name && model == FreshTest(name)
      ensures kids == [] && inspect == None && inspectThisValue == None
    {
      this.name := name;
      runCount := 0;
      kids := [];
      error := None;
      inspect := None;
      inspectThisValue := None;
      Repr := {this};
      model := FreshTest(name);
    }

    /** `isComplete()`: has run, and every child is complete. */
    predicate IsComplete()
      reads this, Repr
      requires Valid()
      decreases Repr
      ensures IsComplete() == model.IsComplete()
    {
      runCount > 0 && forall i :: 0 <= i < |kids| ==> kids[i].IsComplete()
    }

    /** `hasPassed()`: complete, every child passed, and no failure of its own. */
    predicate HasPassed()
      reads this, Repr
      requires Valid()
      decreases Repr
      ensures HasPassed() == model.HasPassed()
    {
      IsComplete()
      && (forall i :: 0 <= i < |kids| ==> kids[i].HasPassed())
      && error.None?
    }

    /** `runCount()`: how many times the node's own body has run. */
    function RunCount(): (n: nat)
      reads this, Repr
      requires Valid()
      ensures n == model.runCount
    {
      runCount
    }

    /** `error()`: the failure recorded by the last run that threw, if any. */
    function Error(): (e: Option<Error>)
      reads this, Repr
      requires Valid()
      ensures e == model.error
    {
      error
    }

    /** `children()`: the child nodes, in creation order. */
    function Children(): (cs: seq<Test>)
      reads this, Repr
      requires Valid()
      ensures |cs| == |model.children|
      ensures forall i :: 0 <= i < |cs| ==> cs[i].Valid() && cs[i].model == model.children[i]
    {
      kids
    }

    /** Each child's model carries that child's name. */
    /**
     * The child object at `i`, named `n`, is valid, and looking `n` up
     * among the model's children finds position `i`, whose value is that
     * child's.
     */
    lemma KidNamed(i: nat, n: string)
      requires Valid() && i < |kids| && kids[i].name == n
      ensures kids[i].Valid()
      ensures exists j :: 0 <= j < |model.children| && model.children[j].name == n
      ensures FindChild(model.children, n) == i
      ensures kids[FindChild(model.children, n)] == kids[i]
      ensures model.children[FindChild(model.children, n)] == kids[i].model
    {
      ModelNames();
      FindDistinct(model.children, i);
    }

    lemma ModelNames()
      requires Valid()
      ensures forall i :: 0 <= i < |kids| ==> model.children[i].name == kids[i].name
    {
      forall i | 0 <= i < |kids| ensures model.children[i].name == kids[i].name {
        assert kids[i].Valid();
      }
    }

    /** `this._children[name]`: the position of the child named `n`, if there is one. */
    function Lookup(n: string): (r: Option<nat>)
      reads this, Repr
      requires Valid()
      ensures r.Some? <==> model.HasChild(n)
      ensures r.Some? ==> r.value < |kids| && kids[r.value].name == n && r.value == FindChild(model.children, n)
    {
      ModelNames();
      var r := FindFrom(n, 0);
      if r.Some? then
        var f := FindChild(model.children, n);
        assert kids[f].name == n;
        r
      else
        r
    }

    function FindFrom(n: string, i: nat): (r: Option<nat>)
      reads this
      requires i <= |kids|
      ensures r.Some? ==> i <= r.value < |kids| && kids[r.value].name == n
      ensures r.None? ==> forall j :: i <= j < |kids| ==> kids[j].name != n
      decreases |kids| - i
    {
      if i == |kids| then None else if kids[i].name == n then Some(i) else FindFrom(n, i + 1)
    }

    /** `child(name)`: the existing child of that name, or a new one added after all others. */
    method Child(n: string) returns (c: Test)
      requires Valid()
      modifies this
      ensures Valid() && fresh(Repr - old(Repr))
      ensures c.Valid() && c.name == n && c in Repr && c.Repr <= Repr && this !in c.Repr
      ensures model == old(model).WithChild(n) && c == kids[FindChild(model.children, n)]
      ensures old(model).HasChild(n) ==> kids == old(kids) && Repr == old(Repr)
      ensures !old(model).HasChild(n) ==>
                (fresh(c) && c.Repr == {c} && c.model == FreshTest(n)
                 && kids == old(kids) + [c] && Repr == old(Repr) + {c})
      ensures runCount == old(runCount) && error == old(error)
      ensures inspect == old(inspect) && inspectThisValue == old(inspectThisValue)
    {
      var i := Lookup(n);
      if i.Some? {
        c := kids[i.value];
      } else {
        c := new Test(n);
        Attach(c);
      }
    }

    /** Adds `c` as the last child; the new-child branch of `child(name)`. */
    method Attach(c: Test)
      requires Valid() && !model.HasChild(c.name) && c.Valid() && c.Repr == {c} && c !in Repr
      modifies this
      ensures Valid()
      ensures kids == old(kids) + [c] && Repr == old(Repr) + {c}
      ensures model == old(model).(children := old(model).children + [c.model])
      ensures runCount == old(runCount) && error == old(error)
      ensures inspect == old(inspect) && inspectThisValue == old(inspectThisValue)
    {
      ModelNames();
      kids, Repr, model := kids + [c], Repr + {c}, model.(children := model.children + [c.model]);
    }

    /**
     * After the child at position `i` has changed (it ran, or grew children
     * of its own), brings this node's footprint and abstract value up to date.
     * The requirements are `Valid()` with the child's own entries left out.
     */
    ghost method Adopt(i: nat)
      requires this in Repr && i < |kids|
      requires forall j :: 0 <= j < |kids| && j != i ==>
                 kids[j] in Repr && kids[j].Repr <= Repr && this !in kids[j].Repr && kids[j].Valid()
      requires kids[i].Valid() && this !in kids[i].Repr
      requires forall j, k :: 0 <= j < k < |kids| ==> kids[j].name != kids[k].name && kids[j].Repr !! kids[k].Repr
      requires model.name == name && model.runCount == runCount && model.error == error
      requires |model.children| == |kids|
      requires forall j :: 0 <= j < |kids| && j != i ==> model.children[j] == kids[j].model
      modifies this
      ensures Valid() && kids == old(kids)
      ensures Repr == old(Repr) + kids[i].Repr
      ensures model == old(model).(children := old(model).children[i := kids[i].model])
    {
      Repr, model := Repr + kids[i].Repr, model.(children := model.children[i := kids[i].model]);
    }

    /**
     * A call that left this node alone and changed nothing of its subtree
     * outside the child at `i`, and left that child valid with only new
     * objects added to its footprint, leaves the node ready for `Adopt(i)`.
     */
    twostate lemma ChildChanged(i: nat)
      requires old(Valid()) && unchanged(this) && i < |kids|
      requires forall o :: o in old(Repr) && o !in old(kids[i].Repr) ==> unchanged(o)
      requires kids[i].Valid() && fresh(kids[i].Repr - old(kids[i].Repr))
      ensures this in Repr && this !in kids[i].Repr
      ensures forall j :: 0 <= j < |kids| && j != i ==>
                kids[j] in Repr && kids[j].Repr <= Repr && this !in kids[j].Repr && kids[j].Valid()
      ensures forall j, k :: 0 <= j < k < |kids| ==> kids[j].name != kids[k].name && kids[j].Repr !! kids[k].Repr
      ensures model.name == name && model.runCount == runCount && model.error == error
      ensures |model.children| == |kids|
      ensures forall j :: 0 <= j < |kids| && j != i ==> model.children[j] == kids[j].model
    {
      forall j | 0 <= j < |kids| && j != i
        ensures kids[j].Repr == old(kids[j].Repr) && kids[j].model == old(kids[j].model) && kids[j].Valid()
      {
        assert old(kids[j].Repr) !! old(kids[i].Repr);
        assert unchanged(kids[j]);
        assert forall o :: o in old(kids[j].Repr) ==> unchanged(o);
      }
    }

    /**
     * `run(fn, thisValue)` once the body `fn` has been executed with outcome
     * `outcome` (the body's own execution is the runner's interpreter): a
     * throw is recorded as the node's failure, with `fn` and `thisValue` kept
     * for inspection, and the run is counted either way.
     */
    method Run(fn: Script, thisValue: Option<Context>, outcome: Option<Thrown>)
      requires Valid()
      modifies this
      ensures Valid() && Repr == old(Repr) && kids == old(kids)
      ensures runCount == old(runCount) + 1
      ensures outcome.Some? ==> error == Some(AsError(outcome.value))
                                && inspect == Some(fn) && inspectThisValue == thisValue
      ensures outcome.None? ==> error == old(error)
                                && inspect == old(inspect) && inspectThisValue == old(inspectThisValue)
      ensures model == old(model).Ran(outcome)
    {
      if outcome.Some? {
        error := Some(AsError(outcome.value));
        inspect := Some(fn);
        inspectThisValue := thisValue;
      }
      runCount := runCount + 1;
      model := model.Ran(outcome);
    }
  }
}
