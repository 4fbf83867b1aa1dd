# Basil, modelled in Dafny

Basil is a small JavaScript test framework in which tests are declared by
nesting: a test body calls `test(name, body)` for each of its sub-tests. The
runner does not run a body once and descend; it runs the root body over and
over, and in each pass a shared latch lets only the first incomplete branch
reach its leaf. A node is complete when its own body has run and every child
is complete, so the passes stop once every branch has been walked. Around
each pass the registered setup plugins are called, last registered first,
each delegating to the next. An `Interceptor` installs capturing handlers
under free names of a namespace and passes the
captured calls on to a callback, at once or, while paused, later through the
host's timer queue. The browser runner turns finished trees into a page. It
reads a name filter from the query string, keeps per-depth totals, prints
each total five characters wide, and gives every result a CSS class and a
caption. It also keeps a collapsed flag per result in `localStorage`.

The project has these modules:

- `Tests` (tests.dfy): the result tree. `TestV` is a node as a value; the
  class `Test` is the mutable node, with a ghost `model` of type `TestV` that
  its methods keep up to date.
- `RunnerSpec` (runner_spec.dfy): what a branch attempt, a body and a whole
  `_runTree` do to a node, as functions on `TestV`, with the termination
  measure and the lemmas the runner's proofs use.
- `PassShape` (pass_shape.dfy): one pass changes at most one path of the
  tree, so every leaf of a finished tree ran exactly once.
- `Runner` (runner.dfy): the class `TestRunner`, whose methods are proved
  against `RunnerSpec` and record the order of the setup-plugin calls.
- `Names` (names.dfy): how a name is derived from a function's text.
- `Interception` (interceptor.dfy): the class `Interceptor` and a state
  machine on values (`State`, `Op`, `Run`) that each method is proved to follow.
- `BrowserRunner` (browser.dfy): `param`, the filter check, the totals, the
  fixed-width total, the CSS class, the caption and the collapse toggle.
- `Wrappers` (wrappers.dfy): `Option`.

Test bodies are arbitrary code. What the runner sees of a body is the
sequence of nested `test(...)` calls it makes and whether it throws, so a body
is modelled as a `Script` of `Declare(name, body)` and `Throw(value)` steps.
The body's `this` is a `Context` told apart from earlier ones by a growing id.
A plugin is known by its name, and its only modelled effect is that it was
called. The page's search string and `localStorage` are parameters or fields.

## Model

| member | source | states |
|---|---|---|
| Names.NormaliseIsUnwords | basil.js:88 | turning every run of non-word characters into one space and trimming gives the body's words joined by single spaces |
| Names.WordsOfUnwords | basil.js:88 | joining proper words with single spaces and splitting again gives the same words |
| Names.NormaliseIdempotent | basil.js:88 | a derived name is already normal: normalising it again changes nothing |
| Tests.AsError | basil.js:167-170 | an `Error` thrown is kept as it is; any other thrown value becomes an `Error` with that value as its message |
| Tests.NextContext | basil.js:106 | each pass's `this` is a new object, with a larger id than the last one |
| Tests.TestV.WithChild | basil.js:181-186 | afterwards a child of that name exists; name, run count and failure are kept; the old children stay first, in order, with at most one new one after them |
| Tests.FindChild | basil.js:182 | the position found holds the name, and no earlier child has it |
| Tests.FindDistinct | basil.js:182-185 | with distinct names, as keys of an object have, a child is found at its own position |
| Tests.BodyIsSmaller | basil.js:164-166 | a nested body is smaller than the body that declares it, so running bodies within bodies terminates |
| Tests.HasPassedImpliesComplete | basil.js:193-197 | a node that has passed is complete |
| Tests.FreshTestNeitherCompleteNorPassed | basil.js:147-152 | a new node has not run, so it is neither complete nor passed |
| Tests.PassedIffNoErrors | basil.js:159-162 | for a complete tree, `hasPassed` holds exactly when no node anywhere in the tree recorded a failure |
| Tests.Test.constructor | basil.js:147-152 | a new node has the name, run count 0, no children and no failure |
| Tests.Test.IsComplete | basil.js:159-162 | the run count is positive and every child is complete, recursively |
| Tests.Test.HasPassed | basil.js:193-197 | complete, every child passed recursively, and no failure of its own |
| Tests.Test.RunCount | basil.js:177-179 | the number of times the node's own body has run |
| Tests.Test.Error | basil.js:199-201 | the failure recorded by the latest run that threw, or none |
| Tests.Test.Children | basil.js:188-191 | the child nodes in the order their names were first used, one per name |
| Tests.Test.Lookup | basil.js:182 | a child is found exactly when one has the name; it is the first with that name |
| Tests.Test.Child | basil.js:181-186 | an existing child is returned and the node is left as it was; otherwise a new, fresh child is added after all others and returned |
| Tests.Test.KidNamed | basil.js:181-182 | the child object named `n` is valid, looking `n` up among the node's children finds its position, and the value there is that child's |
| Tests.Test.Run | basil.js:164-175 | the run count grows by one either way; if the body threw, the failure is recorded (as an `Error`) with the body and its `this`; if not, the old failure stays |
| RunnerSpec.BranchFacts | basil.js:122-129 | with the latch set, a branch attempt changes nothing; afterwards the latch is set or the node is complete; an attempt that runs a body sets the latch and strictly lowers the passes still needed |
| RunnerSpec.IterateFacts | basil.js:103-110 | the tree `_runTree` leaves is complete, keeps the root's name, and every node in it only grew |
| RunnerSpec.PassCountBound | basil.js:103-110 | the loop makes no pass for a complete node and at least one otherwise, and never more than one plus the number of nodes the body declares |
| RunnerSpec.IterateStep | basil.js:104-109 | each pass on an incomplete tree is one clear-latch branch attempt and leaves one pass fewer to go |
| RunnerSpec.MeasureBound | basil.js:103-110 | the passes still needed never exceed the size of the tree the body declares |
| RunnerSpec.MeasureMono | basil.js:159-162 | a node that only grew (ran more, kept its children) needs no more passes than before |
| RunnerSpec.DeclareAgain | basil.js:181-183 | a name declared a second time in the same body finds its complete child or a set latch, so nothing more runs |
| PassShape.BranchPath | basil.js:122-129 | in one pass the nodes whose bodies run form one path from the node down, each incomplete beforehand, and a set latch stays set |
| PassShape.RunTreeLeavesOnce | basil.js:103-110 | starting from a new node, once `_runTree` stops every leaf of the tree has run exactly once |
| PassShape.CompleteLeavesOnce | basil.js:159-162 | in a complete tree whose leaves ran at most once, every leaf ran exactly once |
| Runner.Reversed | basil.js:113-118 | the plugins in calling order: the last registered first, the first registered last |
| Runner.TestRunner.constructor | basil.js:59-62 | no plugins of either kind, no outer test, no pass started |
| Runner.TestRunner.RegisterRootPlugin | basil.js:138-140 | the plugin goes at the end of the root plugins; nothing else changes |
| Runner.TestRunner.RegisterSetupPlugin | basil.js:142-144 | the plugin goes at the end of the setup plugins; nothing else changes |
| Runner.TestRunner.Test | basil.js:65-76 | at the top level: a new root whose tree is run to completion, with the setup plugins called in reverse order once per pass; inside a body: the running node's child of that name is reused or created and given one branch attempt, and afterwards the running node still has a child of that name, that child is the returned (valid) test object and the node's value holds that child's value |
| Runner.TestRunner.CreateTest | basil.js:91-95 | inside a body, the running node's `child(name)`; at the top level, a new node |
| Runner.TestRunner.RunTest | basil.js:97-101 | inside a body, one branch attempt on the child, and the running node keeps the same child objects and sees the child's new state; at the top level, the whole tree is run |
| Runner.TestRunner.RunTree | basil.js:103-110 | the loop ends, and the node is complete and equal to the final tree of the pass-by-pass model; each pass calls every setup plugin once, last registered first |
| Runner.TestRunner.RunPass | basil.js:105-108 | each pass clears the latch, makes a new `this`, calls the setup plugins last first and makes a clear-latch branch attempt |
| Runner.TestRunner.RunWithPlugins | basil.js:112-120 | the plugins are called from the last to the first, then the innermost branch attempt runs once |
| Runner.TestRunner.Callback | basil.js:117-119 | each call pops the last pending function and calls it with itself as the continuation |
| Runner.TestRunner.RunSingleBranch | basil.js:122-129 | a complete node or a set latch means nothing runs; otherwise the body runs and the latch is set |
| Runner.TestRunner.RunTestFunction | basil.js:131-136 | the body runs with the node as the outer test, the run is counted, and the old outer test is put back |
| Runner.TestRunner.ExecBody | basil.js:164-166 | the body's nested `test(...)` calls happen in order until its first throw, which is handed back |
| Interception.AfterIntercept | basil.js:11-17 | refused, with the name and no change, exactly when the name already holds a truthy value; otherwise the handler is installed and the name recorded last |
| Interception.AfterRestore | basil.js:19-24 | exactly the recorded names leave the namespace, every other entry keeps its value, the record is emptied and nothing else changes |
| Interception.AfterCall | basil.js:26-35 | only the deliveries and the hold change, each only by growing; aborted, neither grows; otherwise exactly one grows, by the call itself at its end: the deliveries when not paused, the hold when paused |
| Interception.InterceptThenRestore | basil.js:11-24 | installing one free name and restoring gives the namespace back |
| Interception.AbortIsFinal | basil.js:54-56 | no sequence of operations clears the abort flag |
| Interception.AbortedDeliversNothing | basil.js:27-28 | after an abort the callback receives nothing, whatever happens |
| Interception.PausedCallsAreHeld | basil.js:32-34 | calls made while paused are held in the order they were made, and none is delivered |
| Interception.TicksDeliver | basil.js:45-50 | while not aborted, each turn of the timer queue delivers the oldest scheduled call |
| Interception.PauseResumeKeepsOrder | basil.js:37-52 | pause, some calls, resume and let the timer queue run: the callback gets exactly those calls in the order they were made |
| Interception.Interceptor.constructor | basil.js:2-8 | nothing installed, held or delivered; not paused, not aborted |
| Interception.Interceptor.Intercept | basil.js:11-17 | the state after is the one `AfterIntercept` gives; the error is raised exactly when the name is taken, and then nothing changes |
| Interception.Interceptor.Restore | basil.js:19-24 | the state after is the one `AfterRestore` gives |
| Interception.Interceptor.HandleIntercept | basil.js:26-35 | the state after is the one `AfterCall` gives |
| Interception.Interceptor.Pause | basil.js:37-39 | only the paused flag changes, and it is set |
| Interception.Interceptor.Resume | basil.js:41-52 | not paused any more; every held call handed to the timer queue in order; the hold emptied |
| Interception.Interceptor.Abort | basil.js:54-56 | only the aborted flag changes, and it is set |
| Interception.Interceptor.RunNextTask | basil.js:46-49 | the oldest timer task is removed, and its call delivered unless the interceptor was aborted |
| BrowserRunner.Split | basil-browser-runner.js:35 | `split` always gives at least one piece |
| BrowserRunner.JoinSplit | basil-browser-runner.js:35 | joining the pieces with the separator gives the text back |
| BrowserRunner.SplitJoin | basil-browser-runner.js:35-37 | pieces free of the separator, joined and split again, come back unchanged |
| BrowserRunner.ReplaceFirst | basil-browser-runner.js:39 | only the first `+` becomes a space; the length and every other character are kept |
| BrowserRunner.ValueOfAsWritten | basil-browser-runner.js:37-40 | reading the value fails exactly when the entry has no `=`, and is never "not found" |
| BrowserRunner.ValueOf | basil-browser-runner.js:37-40 | the same for the form-encoded reading |
| BrowserRunner.ValueOfAsWrittenDecodes | basil-browser-runner.js:37-39 | with an `=`, the value found is the text after the first `=` up to the next `=` (or the end), same length, its first `+` made a space and every other character kept |
| BrowserRunner.ValueOfDecodes | basil-browser-runner.js:37-39 | with an `=`, the value found is the text after the first `=` up to the next `=` (or the end), same length, every `+` made a space, every other character kept, and no `+` left |
| BrowserRunner.UpTo | basil-browser-runner.js:37 | the text before the first separator has none in it, is a prefix, and ends where the first separator is |
| BrowserRunner.SplitHead | basil-browser-runner.js:37 | the first piece of `split` is the text before the first separator |
| BrowserRunner.ValuePiece | basil-browser-runner.js:37 | with a separator present, `split` has a second piece, the text after the first separator up to the next one |
| BrowserRunner.Decode | basil-browser-runner.js:37-40 | either reading of `+` fails exactly when the entry has no `=`, and never reports a missing key |
| BrowserRunner.LookupNotFound | basil-browser-runner.js:36-43 | `undefined` exactly when no entry's key is the key asked for |
| BrowserRunner.LookupFirst | basil-browser-runner.js:36-41 | otherwise the value of the first entry with the key, decoded as line 39 does (first `+` only) or with every `+`, whatever comes after it |
| BrowserRunner.Param | basil-browser-runner.js:33-43 | the loop over the `&`-separated entries of the query gives the first-match lookup, with only the first `+` of the value made a space |
| BrowserRunner.SingleEntry | basil-browser-runner.js:33-41 | a search string of one `key=value` entry gives that entry's value for its key |
| BrowserRunner.LookupFails | basil-browser-runner.js:36-39 | the lookup fails (reading `pair[1]` of `undefined`) exactly when the first entry with the key has no `=`, as in `?debug` |
| BrowserRunner.ValueStopsAtSecondEquals | basil-browser-runner.js:37-39 | a value is cut at its next `=`, under either reading of `+` |
| BrowserRunner.FormRoundTrip | basil-browser-runner.js:39 | with every `+` read as a space, the entry the settings form sends for a filter reads back as it was typed |
| BrowserRunner.ParamRoundTrip | basil-browser-runner.js:33-43 | with every `+` read as a space, `param(key)` on the search string the settings form sends gives the filter back as it was typed |
| BrowserRunner.FormValueAsWritten | basil-browser-runner.js:39 | as written, of an entry's value `w1+w2` only the first `+` turns into a space |
| BrowserRunner.ParamValueAsWritten | basil-browser-runner.js:33-43 | as written, `param(key)` on `?key=w1+w2` gives `w1 w2` with every later `+` kept |
| BrowserRunner.ParamFilterAsWritten | basil-browser-runner.js:33-43 | as written, `param('filter')` on `?filter=a+b+c` is `a b+c` |
| BrowserRunner.Lower | basil-browser-runner.js:22 | every ASCII capital becomes its small letter; nothing else changes |
| BrowserRunner.IndexOfFrom | basil-browser-runner.js:22 | -1 exactly when the text does not occur; otherwise the first place it occurs |
| BrowserRunner.NoFilterKeepsAll | basil-browser-runner.js:21-23 | no filter, or an empty one, skips nothing |
| BrowserRunner.SkippedIff | basil-browser-runner.js:21-23 | with a non-empty filter a test is skipped exactly when the filter occurs nowhere in its name, case aside |
| BrowserRunner.SkippedIgnoresCase | basil-browser-runner.js:22 | the case of the name and of the filter does not change the outcome |
| BrowserRunner.CountPassing | basil-browser-runner.js:227 | the passing results never outnumber the results |
| BrowserRunner.PassedAtMostCount | basil-browser-runner.js:219-231 | at every depth, no more passes than results |
| BrowserRunner.Totals.constructor | basil-browser-runner.js:7-8 | both totals start empty |
| BrowserRunner.Totals.CalculateTotals | basil-browser-runner.js:219-231 | every result of the forest, and every one that passed, is counted at its own depth shifted by the level; a missing entry counts as 0; passes never exceed counts |
| BrowserRunner.Totals.UpdateTotals | basil-browser-runner.js:212-214 | the totals grow at each depth by the results of the new tree at that depth |
| BrowserRunner.DigitsValue | basil-browser-runner.js:240 | the decimal text of a number reads back as that number |
| BrowserRunner.FormatTotal | basil-browser-runner.js:240 | the total text is always six characters wide, whatever the total |
| BrowserRunner.FormatTotalAligned | basil-browser-runner.js:240 | a total below 100000 is right-aligned in five characters behind blanks |
| BrowserRunner.FormatTotalValue | basil-browser-runner.js:240 | the text shows the total modulo 100000: a larger total loses its leading digits |
| BrowserRunner.StatusWords | basil-browser-runner.js:196-198 | the three status classes are single words, each given for exactly one outcome |
| BrowserRunner.CssClassWords | basil-browser-runner.js:195-205 | the class list is two or three words: the status, `basil-parent` exactly when the result has children (`basil-leaf` otherwise), and `is-collapsed` exactly when the flag is set |
| BrowserRunner.Caption | basil-browser-runner.js:207-210 | the name and a blank, then nothing, or the error in parentheses |
| BrowserRunner.CaptionError | basil-browser-runner.js:208-209 | the error text can be read back from between the parentheses |
| BrowserRunner.CollapseKeyInjective | basil-browser-runner.js:150 | different results have different storage keys |
| BrowserRunner.ToggleFlips | basil-browser-runner.js:149-160 | toggling flips the result's collapsed flag |
| BrowserRunner.ToggleKeepsOthers | basil-browser-runner.js:153-160 | toggling changes no other key, so no other result's flag |
| BrowserRunner.ToggleTwice | basil-browser-runner.js:149-160 | toggling twice restores the flag, and the storage itself unless the key held a falsy value |
| BrowserRunner.CollapseStore.ToggleCollapsed | basil-browser-runner.js:153-160 | a truthy flag is deleted, anything else becomes `true`, and the flag flips |

## Left out

- DOM work is not modelled: building the page, `appendResults`, `createLi`, titles, the settings form and hide-passed state, `updateTotalsNode`'s list items, and the inspect and view-code links with their `debugger` hook. Only the strings and numbers these compute are modelled.
- `describe`'s wait for `document.body` (the `setTimeout(…, 100)` retry) and its one-off `setup()` are timing and page set-up. The header's `is-failed` class is DOM too.
- `oldDescribe` is whatever `global.describe` held before the browser runner loaded (basil-browser-runner.js:2); neither core file defines it, and the model does not say what it is. The `global.Basil` export (basil.js:208-213: `Test`, `TestRunner`, `Interceptor`, `CannotInterceptExistingMethodError`) is wiring.
- `_extractName`: `fn.name`, `fn.toString()` and the regular expression that cuts out the body are host reflection. `ExtractName` takes the name and the body text as inputs. The `"(No Name)"` branch (basil.js:85-86) is dead: when the expression matches, `[1]` is a non-empty string; when it does not (an arrow function, say), `exec` returns `null` and reading `[1]` throws a `TypeError` at basil.js:84. That throw is not modelled by `ExtractName`.
- `decodeURIComponent` is taken as the identity, so its `URIError` on a malformed escape is not modelled.
- `toLowerCase` is modelled for ASCII letters only.
- `Object.keys` order is modelled as insertion order, which holds for names that are not array indices. Names inherited from `Object.prototype` (such as `constructor` or `toString`) are not modelled: `this._children[name]` (basil.js:182) would find them, and so would `intercept`'s test `this._global[methodName]` (basil.js:12), so `intercept('toString')` on a plain object throws. The `target` map of the model holds only own names.
- `PluginDidNotDelegateError` is declared but never raised by the source.
- Plugins: each is assumed to call its continuation exactly once, and only the call is recorded. A plugin that calls it twice or never is not modelled.
- Root plugins are registered but never read by a run, and the model does the same.
- The per-pass `this` object is modelled as a growing id, not an object the body can write to.
- BrowserRunner.Totals.CalculateTotals: holes in the totals arrays read as 0, as `|| 0` does. The way `forEach` skips holes in `updateTotalsNode` is DOM and not modelled.
- `localStorage` holds strings; the model keeps only whether each stored value is truthy.
- Interception.AfterRestore: `restore` deletes every recorded name. A name that held a falsy value before `intercept` is therefore gone afterwards, not given back; `InterceptThenRestore` requires the name to be absent at first.
- Interception.Interceptor.HandleIntercept: the arguments are a value. The callback's `this` (the interceptor) and what the callback does are not modelled.
- Bodies are modelled as fixed scripts: every pass over a body makes the same nested `test(...)` calls in the same order. Termination of `_runTree` (basil.js:103-110), `RunTreeLeavesOnce` and the plugin-call count hold only for such bodies. A body whose nested calls depend on state kept across passes is not modelled, and the source can loop forever on one. For example, a body `if (n++ === 0) { test('a', f); test('b', g) } else test('a', f)` declares `b` on the first pass only, so `b` never runs, the root never becomes complete (basil.js:159-161), and the loop at basil.js:104 never ends.
- Interior nodes run once on every pass that reaches them, so their run counts can exceed one. Only leaves run exactly once, which is what `RunTreeLeavesOnce` states.
- A `Fails` lookup in `describe` (the `TypeError` of reading `pair[1]`) propagates as a throw and is not followed further.
- `error.toString()` in the caption is modelled as the error's text.

## Findings

`Param` follows the code as written (`LookupIn` with `AsWritten`). The intended reading is `LookupIn` with `EveryPlus`, about which `ParamRoundTrip` is proved.

| source | as written | input that shows it | evidently intended | confidence | as-written member | corrected member |
|---|---|---|---|---|---|---|
| basil-browser-runner.js:39 | `pair[1].replace('+', ' ')` replaces only the first `+` | the settings form (`method="get"`, lines 52-53) sends the filter `a b c` as `?filter=a+b+c`, which `param('filter')` reads as `a b+c`, so the filter no longer matches a test named `a b c` | every `+` stands for a space, and the filter reads back as `a b c` | high; not executed | BrowserRunner.ParamFilterAsWritten | BrowserRunner.ParamRoundTrip |
