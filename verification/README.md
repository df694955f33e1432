# Verification of BehaviorTree.CPP

This project models the parts of BehaviorTree.CPP whose correctness is hardest to see from one function,
and proves properties of them in Dafny: the tick engine, the hierarchical blackboard, the wildcard
matcher, the vendored XML library, and three small protocols. `dafny verify dfyconfig.toml` checks all
of it.

Every core comes in two layers. A layer of values (datatypes and functions) says what the code computes;
the lemmas are about it. A layer of classes and methods has the form of the code (fields that are updated,
loops, arrays, pointers), and each method is proved to do what the function of its name says. The files
of a core can be read in the order given; Wrappers holds the one type that several of them share. Where an
operation would otherwise be specified by its own steps, a further file states its results in other terms:
the answers of children (FallbackAnswers, ControlAnswers), the way of a key (BlackboardPaths), a stack of calls
(CoroutineStack), texts as they are written (WildcardNotation, XmlValues, XmlNotation).

| core | files |
|---|---|
| tick engine | TickModel, Quiescence, Alike, Restart, StaleConditions, FallbackRuns, ParallelAccounting, ParallelRuns, FallbackAnswers, ControlAnswers, TickEngine |
| wildcards | WildcardScanners, Wildcards, WildcardNotation |
| XML | XmlText, XmlDecoding, XmlModel, XmlRoundTrip, XmlValues, XmlNotation, XmlPrinter, XmlParser, XmlReload, SiblingModel, SiblingTrees, Siblings, MemPool |
| blackboard | BlackboardModel, BlackboardPaths, Blackboards, EditModel, BlackboardRuns |
| protocols | TraceModel, TraceFlush, TraceRecorder, CoroutineModel, CoroutineStack, Coroutines, MultipartCodec |

## How the world outside enters

- A tick keeps a log of events: which node was ticked, which script of which node was run, when `tickRoot`
  looked for a wake-up signal. Nodes are named by their `uid`. Leaves, scripts and the wake-up signal are a
  `World`: a function from logs to replies, so that what comes from outside can depend on who asks and on
  everything before. "The same nodes ticked in the same order" is equality of logs. A tick that throws is the
  outcome `Threw`, after which nothing is claimed.
- The blackboard's value conversions (parsing a string for a type, lossless casts, the copy of one value
  into another) are functions given to `set`; everything proved holds for all of them.
- Threads of the trace recorder are steps that can come in any order; a stretch of code under a mutex is
  one step, and an event is written field by field.
- New entries of a blackboard are objects that no function can name beforehand. What edits do is a function
  of the start state, the edits and the names of the entries they make; that these are new is proved.
- The stack check of `mco_yield` and the leaf allocations are parameters or always succeed.

## Where the code and its documentation part

- `haltTree` says of its second sweep that it "should be no-op". It is for quiet trees
  (`Quiescence.SecondSweepIsNoOp`); a two-child IfThenElse that answers Failure leaves its condition's
  status stored, and then the sweep changes it (`Quiescence.SecondSweepMatters`).
- The documentation of IfThenElse says that two children are the same as a third child that always fails.
  The code differs: it does not reset the children in that case.
- The documentation of ParallelAll says that it fails when the failures exceed `max_failures`; the code
  compares with `>=`, and so does the model.
- A Parallel node with a negative success threshold answers Success, not Skipped, when all its children
  skip (`ParallelAccounting.ParallelKeepsGoing`).
- A fallback keeps its count of skipped children when it succeeds. The next run starts with that count
  if the node still stores a completed status, as the condition of a WhileDoElse does
  (`FallbackRuns.RetickedFallback`, exactly when it matters). A script that answers for such a condition
  without ticking it therefore spoils the restart of a tree (`StaleConditions.SecondRunMiscounts`, runs of
  `tickRoot` from the tree as built; `StaleConditions.RestartIsSteady`, exactly which conditions do). A
  scripted fallback anywhere else restarts cleanly (`Restart.SecondRunLikeFirst`).
- A decorator that hands on Skipped from a control node leaves that node Running below it, out of reach of
  halts (`Quiescence.SkippedDecorator`; `Quiescence.DecoratorQuiets`, exactly when; `Quiescence.TameTableExact`,
  exactly which functors can do so).
- The matcher does not come back to a branch once it has fitted (`Wildcards.StarInBranch`,
  `Wildcards.NestedBranch`; `Wildcards.StarBranchExact`, exactly which branches are decided wrongly).
- A reference to one of the numbers 0xD800 to 0xDFFF becomes three bytes of the pattern in section 3 of
  RFC 3629, which that section prohibits for them.
- `GetStr` keeps no byte of the ampersand of an unknown entity: what is found there is the byte of the raw
  text at the write position.
- A slash at the end of a tag overrides one at its beginning: `</a/>` is read as an empty element.
- An end tag at document level ends the document without an error, and what follows it is not read.
- `createEntryImpl` takes a remapping target that begins with `@` literally, whereas `getEntry` goes to
  the root (`BlackboardModel.AgreementIsPlainTargets`, exactly when the two agree).
- `set` through a remapping stores a string in an entry of another type without converting it. What is
  claimed is that declared types are stable, not that values always match them.

## Model

| member | source | states |
|---|---|---|
| Quiescence.TickKeepsQuiet | src/tree_node.cpp:71-146 | Quiescence: for every tree of the modelled nodes (three-child IfThenElse, restricted decorators) and every behaviour of leaves and scripts, a tick keeps "below a node that does not store Running everything is Idle", together with the books of every node |
| Quiescence.TickKeepsSettled | src/tree_node.cpp:71-146 | The counters of a node that does not store Running are those of a new node (with the exceptions named in the model), and of a parallel node they always count the completed set; needs no assumption on the shape of the tree |
| Quiescence.ExecuteTickSound | src/tree_node.cpp:71-146 | The induction behind the two: one invariant of every reachable tree kept by a tick of any node |
| Quiescence.HaltQuiets | src/control_node.cpp:32-71 | Halting a quiet node makes its whole subtree Idle, although only Running children are halted |
| Quiescence.SweepIdle | src/bt_factory.cpp:499-501 | The recursive halt puts every node of any tree to sleep, whatever state it is in |
| Quiescence.HaltTreeIdles | src/bt_factory.cpp:489-504 | So after `haltTree` every node is Idle, quiet tree or not |
| Quiescence.SecondSweepIsNoOp | src/bt_factory.cpp:489-504 | The comment "this should be no-op" as a theorem: in a quiet tree the sweep after the halt of the root changes no status |
| Quiescence.TwoChildIfThenElse | src/controls/if_then_else_node.cpp:45-62 | Exactly when a tick of a two-child IfThenElse keeps quiescence: unless it ends with the condition answering Failure |
| Quiescence.SecondSweepMatters | src/controls/if_then_else_node.cpp:58-61 | A tree with a two-child IfThenElse where the second sweep does change a status |
| Quiescence.SweepReaches | src/bt_factory.cpp:499-501 | The sweep resets a grandchild that the halt of the root passes over, if there is one that is not Idle |
| Quiescence.DecoratorQuiets | src/decorator_node.cpp:72-86 | Exactly when a tick of a decorator keeps quiescence, whatever its functor is: unless a child that stays Running is left under a decorator that does not store Running |
| Quiescence.SkippedDecorator | src/decorator_node.cpp:72-86 | A decorator that passes every answer on, over a fallback whose child skips: a halt of the root leaves the fallback Running |
| Quiescence.TameTableExact | src/decorator_node.cpp:72-86 | The restriction on decorators is exact: a functor outside it loses quiescence within two ticks over some child in some world, and one inside it over none |
| Restart.CompletedRunIsClean | src/bt_factory.cpp:567-605 | After a root tick that ends in Success or Failure every node is Idle, and the tree is like a newly built one up to fields that are written before they are read |
| Restart.HaltedTreeIsClean | src/bt_factory.cpp:489-504 | The same after `haltTree` |
| Alike.LikeExecuteTick | src/tree_node.cpp:71-146 | Bisimulation, for trees of any shape: nodes alike up to stale fields tick the same nodes and run the same scripts in the same order, give the same answers and stay alike, given that no child about to be ticked stores a completed status unless it is an exposed condition; this too is kept. Excluded are only conditions that a script can complete while their memory is stale |
| Alike.HaltPrompt | src/control_node.cpp:32-71 | Halts keep the invariant that only exposed conditions are ticked again while they store an answer |
| Alike.IdleIsPrompt | src/tree_node.cpp:53-55 | Sleeping trees satisfy it |
| Restart.SecondRunLikeFirst | src/bt_factory.cpp:567-605 | Clean restart: after a completed run a second run ticks the same nodes and runs the same scripts in the same order as in the tree as built, gives the same verdict and leaves an alike tree, whatever scripts there are, unless one can complete a stale condition |
| Restart.RunAfterHaltLikeFirst | src/bt_factory.cpp:489-504 | The same for a run after a halt at any time |
| Restart.RunKeepsQuiet | src/bt_factory.cpp:567-605 | Every call of `tickRoot` that returns leaves a quiet tree of the same shape |
| Restart.SessionIsQuiet | src/bt_factory.cpp:489-605 | Any session of runs and halts from a new tree reaches only quiet trees, and a halt there puts every node to sleep |
| Restart.NewTreeIsQuiet | src/tree_node.cpp:53-55 | A newly built tree satisfies the invariant |
| FallbackAnswers.FallbackTickAnswers | src/controls/fallback_node.cpp:27-90 | One tick of a fallback in terms of the ticks of its children: they are asked in order from where the last tick stopped, up to the first that succeeds or runs, or, in the asynchronous variant, up to a pause behind the failure of a child that was Idle before and is not the last; the answer, the log, the whole new node, and exactly when it throws |
| ControlAnswers.ReactiveAnswers | src/controls/reactive_fallback.cpp:25-91 | One tick of a reactive fallback in terms of the ticks of its children: those ticked are the shortest beginning that ends in Success or Running, or all; the answer is that child's, otherwise Skipped if all skipped and Failure if not; the log is that of these ticks; which children are Idle afterwards, and exactly when it throws |
| ControlAnswers.WhileAnswers | src/controls/while_do_else_node.cpp:28-78 | One tick of WhileDoElse in terms of its children: Running while the condition runs, otherwise the answer of the branch that goes with the condition's, the other branch halted, all children at rest when it ends |
| ControlAnswers.IfAnswers | src/controls/if_then_else_node.cpp:29-81 | One tick of IfThenElse in terms of its children: the second follows a condition that succeeds, the third one that fails, and a branch that runs is asked again without the condition |
| ControlAnswers.DecoratorAnswers | src/decorator_node.cpp:72-75 | A decorator ticks its child once and answers what its functor makes of the child's answer |
| ControlAnswers.ScriptsDecide | src/tree_node.cpp:193-244 | Before a tick of a node that is neither running nor completed the pre-condition scripts are run in order up to the first that answers: failureIf with Failure, successIf with Success, skipIf and a whileTrue that does not hold with Skipped; otherwise the node is ticked |
| ControlAnswers.RunningDecides | src/tree_node.cpp:193-244 | For a node that runs only whileTrue is asked, and the node is halted and skipped if it does not hold; none is asked for a completed node |
| ControlAnswers.ExecuteTickAnswers | src/tree_node.cpp:71-146 | `executeTick` answers what a script decided, without a tick, or what the node's tick answers, and stores every answer but Skipped; it throws exactly if the tick does or answers Idle |
| ControlAnswers.RootAnswers | src/bt_factory.cpp:567-605 | `tickRoot` is a succession of ticks of the root: with ExactlyOnce one, with OnceUnlessWokenUp as long as the root runs and has been woken up, with WhileRunning as long as it runs |
| StaleConditions.RestartIsSteady | src/controls/while_do_else_node.cpp:39-68 | Exactly which conditions spoil a restart: a WhileDoElse over any fallback or reactive fallback of leaves with any scripts restarts cleanly in all worlds, logs included, if and only if the condition has fewer than two children, or is reactive where several running children are allowed, or has no successIf script and, given an else-branch, no failureIf script |
| StaleConditions.SecondRunMiscounts | src/controls/fallback_node.cpp:52-87 | The failing runs of `tickRoot` from the tree as built, for fallbacks: a first run leaves a skip counted, a script answers in the second, and the condition asked again is skipped, so that the tick throws |
| StaleConditions.SecondRunThrows | src/controls/reactive_fallback.cpp:46-62 | The failing runs for reactive fallbacks where only one child may run: the child of the first run is still remembered |
| FallbackRuns.FallbackIsOr | src/controls/fallback_node.cpp:27-90 | A run that ends answers the short-circuit "or" of its children's final answers (Skipped if all skip), with the log of the reference: the same children ticked in the same order, and the same below them, however Running is spread over ticks, plain or asynchronous. A run that throws or goes on has got as far as the reference |
| FallbackRuns.OrIsFallback | src/controls/fallback_node.cpp:27-90 | The converse: when the reference comes to a verdict or throws, so does the fallback, with the same log |
| FallbackRuns.AsynchAgrees | src/controls/fallback_node.cpp:63-70 | The asynchronous variant and the plain one come to the same end with the same log of the nodes below; the plain one never needs more ticks of its own, the asynchronous one some number of them |
| FallbackRuns.RunIsOr | src/controls/fallback_node.cpp:27-90 | The induction over ticks: at any time, also while it goes on, what a run has done is a stretch of the reference, of one child tick or more for each tick |
| FallbackRuns.RunEnds | src/controls/fallback_node.cpp:27-90 | How many ticks a run needs at most |
| FallbackRuns.RetickedFallback | src/controls/fallback_node.cpp:31-34 | Ticked again while storing a completed status, the fallback is right exactly when the left-over skip count does no harm |
| FallbackRuns.StaleSkipsMiscount | src/controls/fallback_node.cpp:52-53 | Two leaves for which it answers Skipped instead of Failure |
| ParallelRuns.ParallelAllRun | src/controls/parallel_all_node.cpp:25-103 | A whole run of ParallelAll, however its children spread Running over ticks, tick for tick and event for event against rounds that remember answers and count nothing: Skipped if the last round asked all and all skipped, otherwise Failure exactly when the children whose final answer is Failure reach the threshold, with -k read as all but k-1 of them |
| ParallelRuns.ParallelRun | src/controls/parallel_node.cpp:40-132 | A whole run of Parallel against the same kind of reference: it ends where the final answers of the children first decide, success before failure, or where all skip in one round |
| ParallelRuns.ParallelVerdict | src/controls/parallel_node.cpp:55-152 | When a run of Parallel ends, with the counts written out: Success means that enough children succeeded, for a threshold -k all but k-1 of them, those that skipped in the last round among them; Failure means that they did not, and that too many failed for it or the failure threshold is met, -k again being all but k-1 |
| ParallelAccounting.ThresholdReaches | src/controls/parallel_node.cpp:147-152 | The threshold that the nodes compute is reached exactly when enough children are: `at` of them, or for -k all but k-1 |
| ParallelRuns.EndedBooks | src/controls/parallel_all_node.cpp:47-75 | The counters of a node are the numbers of final answers, after every round |
| ParallelAccounting.ParallelAllAnswers | src/controls/parallel_all_node.cpp:25-103 | One tick of ParallelAll: Running exactly when a child answered so, Skipped when all skip, otherwise Failure exactly when the failures counted before and now reach the threshold; the whole new node |
| ParallelAccounting.ParallelAnswers | src/controls/parallel_node.cpp:40-132 | One tick of Parallel: the unfinished children are asked in order up to the first point where the counts of before and now decide; the whole new node |
| ParallelAccounting.ParallelKeepsGoing | src/controls/parallel_node.cpp:55-132 | Running leaves an unfinished child, with a negative success threshold one that answered Running in this tick; such a node never answers Skipped unless it has no children |
| ParallelAccounting.RoundCovers | src/controls/parallel_node.cpp:55-132 | Every child is completed before a round or asked in it; successes plus failures count the completed set |
| ParallelAccounting.VisitOne | src/controls/parallel_node.cpp:62-97 | One child of the loop, as an invariant connecting the node's counters with the answers so far |
| TickEngine.TreeNode.ExecuteTick | src/tree_node.cpp:71-146 | The method on node objects does what the specification of a tick says, pre-conditions and the unsaved Skipped included |
| TickEngine.TreeNode.CheckPreConditions | src/tree_node.cpp:193-244 | The loop over the four pre-conditions, halting the node when whileTrue fails |
| TickEngine.TreeNode.SetStatus | src/tree_node.cpp:160-181 | Refuses Idle |
| TickEngine.TreeNode.HaltNode | src/tree_node.cpp:148-158 | Halts a node and everything below that runs |
| TickEngine.TreeNode.HaltChild | src/control_node.cpp:55-63 | Halts a running child and resets its status, leaving the others alone |
| TickEngine.TreeNode.ResetChildren | src/control_node.cpp:38-48 | Resets every child, halting those that run |
| TickEngine.TreeNode.TickFallback | src/controls/fallback_node.cpp:27-90 | The loop of the fallback on objects is the specification |
| TickEngine.TreeNode.TickReactive | src/controls/reactive_fallback.cpp:25-91 | The loop of the reactive fallback on objects is the specification |
| TickEngine.TreeNode.HaltOthers | src/controls/reactive_fallback.cpp:46-62 | Halting all but the running child, and the check of the running child's number |
| TickEngine.TreeNode.TickParallel | src/controls/parallel_node.cpp:40-132 | The loop of the parallel node on objects is the specification |
| TickEngine.TreeNode.TickParallelAll | src/controls/parallel_all_node.cpp:25-103 | The loop of ParallelAll on objects is the specification |
| TickEngine.TreeNode.TickWhile | src/controls/while_do_else_node.cpp:28-78 | WhileDoElse on objects is the specification |
| TickEngine.TreeNode.TickIf | src/controls/if_then_else_node.cpp:29-81 | IfThenElse on objects is the specification |
| TickEngine.TreeNode.TickDecorator | src/decorator_node.cpp:72-75 | The simple decorator on objects is the specification |
| TickEngine.TreeNode.UnstickChild | src/decorator_node.cpp:77-86 | A decorator resets its child after a completed or skipped tick |
| TickEngine.TreeNode.HaltEverywhere | src/bt_factory.cpp:499-501 | The recursive visitor that halts every node |
| TickEngine.Tree.HaltTree | src/bt_factory.cpp:489-504 | `haltTree` on objects; an orderly tree ends with every node Idle |
| TickEngine.Tree.TickRoot | src/bt_factory.cpp:567-605 | `tickRoot` on objects; a completed run of an orderly tree leaves it like a newly built one |
| Wildcards.MatchSound | 3rdparty/wildcards/wildcards.hpp:1491-1603 | For every pattern and string the matcher comes to an answer without throwing, and a positive answer means membership in the language of the pattern |
| Wildcards.MatchExact | 3rdparty/wildcards/wildcards.hpp:1491-1603 | Without nested alternatives the answer is exactly membership in the language of committed choice, and in the full language if no branch has a star |
| Wildcards.MatchIsItems | 3rdparty/wildcards/wildcards.hpp:1491-1603 | Matching by positions in the pattern is matching of the parsed pattern; no scanner throws |
| Wildcards.ItemsSound | 3rdparty/wildcards/wildcards.hpp:1491-1603 | A full match lies in the language, a partial match takes a beginning that does |
| Wildcards.ItemsExact | 3rdparty/wildcards/wildcards.hpp:1456-1489 | Acceptance is the language in which a branch takes its shortest beginning and is never reconsidered |
| Wildcards.PartialIsShortest | 3rdparty/wildcards/wildcards.hpp:1491-1603 | The match of a branch ends at the shortest beginning that fits |
| Wildcards.CommitIsLang | 3rdparty/wildcards/wildcards.hpp:1456-1489 | Committing gives nothing away when branches have no star |
| Wildcards.MatchRigid | 3rdparty/wildcards/wildcards.hpp:1491-1603 | If every branch has strings of one length only, nested alternatives included, the answer is exactly membership in the language |
| Wildcards.RigidExact | 3rdparty/wildcards/wildcards.hpp:1456-1489 | The induction for full and for partial matches |
| Wildcards.StarInBranch | 3rdparty/wildcards/wildcards.hpp:1456-1489 | (a*)b stands for axb and does not match it |
| Wildcards.StarBranchExact | 3rdparty/wildcards/wildcards.hpp:1456-1489 | A pattern that is one branch without alternatives is decided rightly for every string if and only if the branch has no star, or stands for no string at all |
| Wildcards.NothingFits | 3rdparty/wildcards/wildcards.hpp:1456-1489 | ... which is the case exactly when some item of it allows no character |
| Wildcards.NestedBranch | 3rdparty/wildcards/wildcards.hpp:1456-1489 | ((a&#124;ab))c stands for abc and does not match it |
| WildcardNotation.ShownParses | 3rdparty/wildcards/wildcards.hpp:1491-1603 | A pattern written down from items is read as these items: characters with a meaning escaped, a set between its brackets with the sign for not in front, the branches of an alternative between its brackets with separators, nested at will, for any choice of differing characters |
| WildcardNotation.ShownMatches | 3rdparty/wildcards/wildcards.hpp:1491-1603 | What such a pattern matches lies in the language of the items, it never throws, and it is exactly their language where choices cannot be wrong |
| WildcardNotation.SetMatches | 3rdparty/wildcards/wildcards.hpp:1534-1543 | `[...]` matches exactly the single characters between the brackets, `[!...]` exactly the others |
| WildcardNotation.ScansPass | 3rdparty/wildcards/wildcards.hpp:1235-1447 | The scanners of alternatives pass over everything that is written between them, at any depth |
| WildcardScanners.SetNeverThrows | 3rdparty/wildcards/wildcards.hpp:997-1138 | Whenever `is_set` accepts, `match_set` does not throw |
| WildcardScanners.SetInPrefix | 3rdparty/wildcards/wildcards.hpp:898-985 | A set ends at the same place in a beginning of the pattern and in the whole |
| WildcardScanners.AltInPrefix | 3rdparty/wildcards/wildcards.hpp:1235-1340 | The end that `alt_end` finds is the end for a scan that stops there |
| WildcardScanners.SubEndsExist | 3rdparty/wildcards/wildcards.hpp:1348-1447 | Inside an accepted alternative `alt_sub_end` always finds the end of the branch |
| WildcardScanners.ScanIsSet | 3rdparty/wildcards/wildcards.hpp:821-888 | The loop of `is_set` is its recursive form |
| WildcardScanners.ScanSetEnd | 3rdparty/wildcards/wildcards.hpp:898-985 | The loop of `set_end` is its recursive form |
| WildcardScanners.ScanMatchSet | 3rdparty/wildcards/wildcards.hpp:997-1138 | The loop of `match_set` is its recursive form |
| WildcardScanners.ScanIsAlt | 3rdparty/wildcards/wildcards.hpp:1146-1226 | The loop of `is_alt` is its recursive form |
| WildcardScanners.ScanAltEnd | 3rdparty/wildcards/wildcards.hpp:1235-1340 | The loop of `alt_end` is its recursive form |
| WildcardScanners.ScanAltSubEnd | 3rdparty/wildcards/wildcards.hpp:1348-1447 | The loop of `alt_sub_end` is its recursive form |
| XmlRoundTrip.RoundTrip | 3rdparty/tinyxml2/tinyxml2.cpp:2676-2857 | A printed document parses back to itself, compact or indented, exactly when attribute names are distinct within each element, nesting stays below the limit, no value has a CR and there is something to print |
| XmlRoundTrip.PrintedParses | 3rdparty/tinyxml2/tinyxml2.cpp:1085-1199 | Otherwise: the line ends of values are normalized, or the parser reports an error |
| XmlRoundTrip.KidsParse | 3rdparty/tinyxml2/tinyxml2.cpp:1085-1199 | The induction over printed children, with white space and end tags |
| XmlRoundTrip.AttributesFound | 3rdparty/tinyxml2/tinyxml2.cpp:1972-2034 | Printed attributes are read back in order; a repeated name is an error |
| XmlRoundTrip.NameFound | 3rdparty/tinyxml2/tinyxml2.cpp:237-255 | A name is read to its last character |
| XmlRoundTrip.ValueFound | 3rdparty/tinyxml2/tinyxml2.cpp:212-234 | A printed value ends at its closing quote |
| XmlRoundTrip.EndTagFound | 3rdparty/tinyxml2/tinyxml2.cpp:2088-2113 | An end tag is read as one |
| XmlRoundTrip.FitsIsShallow | 3rdparty/tinyxml2/tinyxml2.cpp:2578-2584 | What the parser takes is what has distinct attribute names and stays below 500 nested calls |
| XmlRoundTrip.RereadSame | 3rdparty/tinyxml2/tinyxml2.cpp:286-340 | A document is its own normalized form exactly when no value has a CR |
| XmlRoundTrip.PrintedLayout | 3rdparty/tinyxml2/tinyxml2.cpp:2742-2857 | The layout: an element and its child on lines of their own, four blanks a level, an element without children sealed; in compact form nothing in between |
| XmlNotation.WrittenParses | 3rdparty/tinyxml2/tinyxml2.cpp:2562-2590 | A document however it is written (any of the six white space bytes wherever they may stand, the mark of the byte order or not, names over the spelled-out alphabets, either quote, elements that stand alone or have end tags) is parsed to the elements it stands for if attribute names differ within each element, end tags bear the names of their elements, and fewer than 499 of these are nested; otherwise the parser reports the first error in the order of the text: a repeated attribute, a nesting at the limit, or an end tag of another name |
| XmlNotation.NodesRead | 3rdparty/tinyxml2/tinyxml2.cpp:1107-1196 | The induction over elements, whatever stands behind them: they are read as written, or the first error is found |
| XmlNotation.AssignmentRead | 3rdparty/tinyxml2/tinyxml2.cpp:1455-1481 | An attribute with white space around its parts, in either quote |
| XmlNotation.NameRead | 3rdparty/tinyxml2/tinyxml2.h:573-589 | A name over the spelled-out alphabets is read to its end |
| XmlText.AlphabetsAreTested | 3rdparty/tinyxml2/tinyxml2.h:569-589 | The tests for bytes of names and for white space are those of the spelled-out alphabets |
| XmlValues.ValueIsRead | 3rdparty/tinyxml2/tinyxml2.cpp:286-384 | A value written in pieces (bytes for themselves, the five names, decimal and hexadecimal references, four ways to end a line) is read as what these stand for |
| XmlReload.PrintAndParse | src/xml_parsing.cpp:320-325 | The printer object and the parser object one after the other: the document comes back under exactly those conditions |
| XmlDecoding.DecodeOfEscape | 3rdparty/tinyxml2/tinyxml2.cpp:286-384 | Decoding what `PrintString` wrote normalizes line ends and nothing else: the value comes back exactly when it has no CR |
| XmlDecoding.GetStr | 3rdparty/tinyxml2/tinyxml2.cpp:286-384 | In place: the raw text becomes what it stands for, the write position never passes the read position or the end, nothing outside is touched |
| XmlDecoding.ReadRound | 3rdparty/tinyxml2/tinyxml2.cpp:299-371 | One round of the decoding loop, unknown entities included |
| XmlDecoding.ReadCharacterRef | 3rdparty/tinyxml2/tinyxml2.cpp:475-568 | The loops of `GetCharacterRef` on the buffer |
| XmlDecoding.ReadDigits | 3rdparty/tinyxml2/tinyxml2.cpp:502-556 | The digits of a reference, read backwards with wrap-around |
| XmlDecoding.FindEntity | 3rdparty/tinyxml2/tinyxml2.cpp:347-359 | The walk along the entity table |
| XmlDecoding.Normalize | 3rdparty/tinyxml2/tinyxml2.cpp:300-327 | Normalized values have no CR, and those without CR are unchanged |
| XmlDecoding.EscapeHasNoQuote | 3rdparty/tinyxml2/tinyxml2.cpp:2676-2728 | An escaped value has no quote, and a NUL only if the value has one |
| XmlText.DecimalReference | 3rdparty/tinyxml2/tinyxml2.cpp:528-556 | Every decimal reference to a number below 0x110000, with any number of leading zeros, becomes the bytes of the table in section 3 of RFC 3629 whose free bits are the number (surrogates too) |
| XmlText.HexReference | 3rdparty/tinyxml2/tinyxml2.cpp:486-527 | The same for hexadecimal references |
| XmlText.AccumulateIsNumber | 3rdparty/tinyxml2/tinyxml2.cpp:502-556 | Reading digits backwards computes their number, nothing wrapping below 2^32 |
| XmlText.ConvertIsUtf8 | 3rdparty/tinyxml2/tinyxml2.cpp:422-472 | The bytes put together again give the number, and are as few as the table in section 3 of RFC 3629 allows |
| XmlText.RefFits | 3rdparty/tinyxml2/tinyxml2.cpp:340-346 | A reference is never shorter than its encoding |
| XmlPrinter.Printer.PrintElement | 3rdparty/tinyxml2/tinyxml2.cpp:2982-3002 | Visiting an element appends its text, with the seal of an opened parent, and leaves the printer where it was |
| XmlPrinter.Printer.PrintKids | 3rdparty/tinyxml2/tinyxml2.cpp:2157-2166 | Visiting children in order appends their text |
| XmlPrinter.Printer.OpenElement | 3rdparty/tinyxml2/tinyxml2.cpp:2760-2770 | What opening an element appends and changes |
| XmlPrinter.Printer.PushAttribute | 3rdparty/tinyxml2/tinyxml2.cpp:2773-2781 | What an attribute appends |
| XmlPrinter.Printer.CloseElement | 3rdparty/tinyxml2/tinyxml2.cpp:2832-2857 | What closing appends: sealed if nothing came after the attributes, otherwise the end tag on its own line |
| XmlPrinter.Printer.PrepareForNewNode | 3rdparty/tinyxml2/tinyxml2.cpp:2742-2757 | The seal and the margin in front of a new node |
| XmlPrinter.Printer.PrintString | 3rdparty/tinyxml2/tinyxml2.cpp:2676-2728 | Runs between entities, written together: the escaped value |
| XmlPrinter.Printer.PrintEntity | 3rdparty/tinyxml2/tinyxml2.cpp:2699-2707 | The entity for a special character |
| XmlParser.Document.ParseDocument | 3rdparty/tinyxml2/tinyxml2.cpp:2562-2575 | The loops over the buffer compute the parser specified on values, errors included |
| XmlParser.Document.ScanSiblings | 3rdparty/tinyxml2/tinyxml2.cpp:1107-1196 | The loop over the children of a node, with mismatched and missing end tags |
| XmlParser.Document.ScanNodes | 3rdparty/tinyxml2/tinyxml2.cpp:2578-2590 | Nesting is counted up and down, and refused at the limit |
| XmlParser.Document.ScanElement | 3rdparty/tinyxml2/tinyxml2.cpp:2088-2113 | An element from behind its less-than sign |
| XmlParser.Document.ScanAttributes | 3rdparty/tinyxml2/tinyxml2.cpp:1972-2034 | The loop over attributes, errors included |
| XmlParser.Document.ScanAttribute | 3rdparty/tinyxml2/tinyxml2.cpp:1455-1481 | One attribute |
| SiblingModel.InsertEndIsAppend | 3rdparty/tinyxml2/tinyxml2.cpp:938-965 | `InsertEndChild` moves the node from wherever it was to the end of the list, and all lists stay well linked |
| SiblingModel.InsertFirstIsPrepend | 3rdparty/tinyxml2/tinyxml2.cpp:968-996 | `InsertFirstChild` moves it to the front |
| SiblingModel.InsertAfterIsInsert | 3rdparty/tinyxml2/tinyxml2.cpp:999-1028 | `InsertAfterChild` moves it behind its sibling; it goes through a null pointer exactly when it is the last child right behind that sibling already |
| SiblingModel.UnlinkKeeps | 3rdparty/tinyxml2/tinyxml2.cpp:901-922 | `Unlink` takes the node out of its list and changes nothing else |
| SiblingModel.InsertKeeps | 3rdparty/tinyxml2/tinyxml2.cpp:938-1028 | Putting a free node between two neighbours inserts it in the list there |
| SiblingModel.PreambleKeeps | 3rdparty/tinyxml2/tinyxml2.cpp:1216-1228 | A node is freed from its parent first |
| SiblingTrees.InsertionIsAcyclic | 3rdparty/tinyxml2/tinyxml2.cpp:938-1028 | Each of the three insertions keeps the nodes a forest exactly when the node added is neither the new parent nor one of its ancestors |
| SiblingTrees.MoveIsAcyclic | 3rdparty/tinyxml2/tinyxml2.cpp:938-1028 | The same for any change of one parent: the way up from every node ends |
| Siblings.Node.Unlink | 3rdparty/tinyxml2/tinyxml2.cpp:901-922 | The pointer updates on objects are those of the model |
| Siblings.Node.InsertEndChild | 3rdparty/tinyxml2/tinyxml2.cpp:938-965 | The pointer updates on objects; another document is refused |
| Siblings.Node.InsertFirstChild | 3rdparty/tinyxml2/tinyxml2.cpp:968-996 | The pointer updates on objects |
| Siblings.Node.InsertAfterChild | 3rdparty/tinyxml2/tinyxml2.cpp:999-1028 | The pointer updates on objects, refusals and the null access included |
| MemPool.Pool.Alloc | 3rdparty/tinyxml2/tinyxml2.h:371-400 | Hands out an item that nobody holds, making a block only when there is none; free and live items stay a partition of all items |
| MemPool.Pool.Free | 3rdparty/tinyxml2/tinyxml2.h:402-414 | The item comes back to the front of the free list |
| MemPool.Pool.NewBlock | 3rdparty/tinyxml2/tinyxml2.h:371-384 | The items of a new block are linked in order |
| MemPool.Pool.FreeListEnds | 3rdparty/tinyxml2/tinyxml2.h:371-414 | The free list is what its sequence says and ends |
| MemPool.Pool.CountersAreRight | 3rdparty/tinyxml2/tinyxml2.h:388-392 | The counters are the number of live items now and at most |
| BlackboardModel.AgreementIsPlainTargets | src/blackboard.cpp:212-265 | Creation and lookup agree for all entries and keys exactly when no manual remapping below the root leads to a key of the root |
| BlackboardModel.PlaceIsLookup | src/blackboard.cpp:46-76 | Creation finds the entry a lookup finds, and makes one exactly where a lookup finds nothing |
| BlackboardModel.CreatedIsFound | src/blackboard.cpp:253-265 | A created entry is what its key leads to from then on |
| BlackboardModel.LookupsStay | src/blackboard.cpp:253-265 | A creation changes no lookup that found something, whatever the remappings |
| BlackboardModel.RootTargetsDisagree | src/blackboard.cpp:233-243 | One remapping to a key of the root makes the two disagree |
| BlackboardModel.SetPlaceIsLookup | include/behaviortree_cpp/blackboard.h:202-232 | A `set` writes where its key leads, or makes what it leads to from then on |
| BlackboardPaths.LookupIsEnd | src/blackboard.cpp:46-76 | A lookup follows the keys that the key becomes on the way up (manual remapping first, otherwise the same key if the board remaps by itself and the key does not begin with an underscore), and finds what is at the end |
| BlackboardPaths.MarkLeadsToRoot | src/blackboard.cpp:46-55 | The first key on the way that begins with the mark of the root is looked up there, without its marks, and nowhere else |
| BlackboardPaths.PlaceIsEnd | src/blackboard.cpp:212-265 | A creation ends where the way ends: at an entry, at a place for one, or at the root for lack of a parent |
| BlackboardPaths.MarkedSetIsAtRoot | include/behaviortree_cpp/blackboard.h:202-232 | A `set` with the mark of the root finds or makes the entry there |
| BlackboardPaths.WayExists | src/blackboard.cpp:46-76 | Every key has such a way |
| Blackboards.Blackboard.GetEntryIsLookup | src/blackboard.cpp:46-76 | `getEntry` on objects resolves as the model, and ends by depth and key length |
| Blackboards.Blackboard.RootBlackboard | src/blackboard.cpp:317-327 | The loop finds the root |
| Blackboards.Blackboard.CreateEntry | src/blackboard.cpp:142-156 | The outcome for every key; a created entry is found afterwards; no lookup that found something changes |
| Blackboards.Blackboard.CreateEntryImpl | src/blackboard.cpp:212-265 | The recursion along the parents makes or finds the entry of the model's place |
| Blackboards.Blackboard.Set | include/behaviortree_cpp/blackboard.h:202-310 | Every `set`: when it is refused and what the entry holds otherwise (`SetHolds`), the one entry that is written and counts a step, the key leading to it afterwards, no other entry in the frame |
| Blackboards.Blackboard.SetPlain | include/behaviortree_cpp/blackboard.h:208-309 | The local and the remapped path of `set` |
| Blackboards.Blackboard.OutcomeHolds | include/behaviortree_cpp/blackboard.h:243-309 | What a `set` makes of an entry that exists, said by what the entry holds afterwards: an own entry without a type takes value and type; one with a type keeps the type and holds a copy of the value, or of its parse, and is refused exactly when the types differ and neither parsing nor a lossless cast helps, or there is no copy; a remapped one holds the value as given, refused exactly when both types are declared and differ |
| Blackboards.Blackboard.Unset | include/behaviortree_cpp/blackboard.h:186-199 | Removes the blackboard's own entry only |
| Blackboards.Blackboard.CloneInto | src/blackboard.cpp:158-201 | Same keys, values and types as the source; entries under surviving keys keep their identity and count a step, others are new or dropped |
| BlackboardRuns.RunEdits | include/behaviortree_cpp/blackboard.h:202-310 | Any sequence of sets, creations and removals on the objects does what the model of edits says: the final blackboards and what every entry holds are a function of the start state and the edits, up to the names of the entries made |
| BlackboardRuns.Step | include/behaviortree_cpp/blackboard.h:202-310 | One edit of one blackboard |
| EditModel.RunIsReplay | include/behaviortree_cpp/blackboard.h:202-310 | Without removals an entry ends up with what the edits leave in it whose key led to it at the start, taken by themselves |
| EditModel.LastSetDecides | include/behaviortree_cpp/blackboard.h:202-310 | After any run of edits, removals included, an entry holds what the last accepted set says whose key led to it: the value as given, or made to fit the declared type; with copies that keep the payload, that payload |
| EditModel.UnwrittenStays | include/behaviortree_cpp/blackboard.h:202-310 | Only an accepted set whose key leads to an entry changes what it holds |
| EditModel.ReplayCounts | include/behaviortree_cpp/blackboard.h:230-309 | Its counter has moved by the number of these edits that were accepted, up to whole rounds |
| EditModel.GoalIsLookup | src/blackboard.cpp:46-76 | The entry that an edit writes is the one a lookup of its key finds, where manual remappings do not go to the root |
| EditModel.RunExtends | src/blackboard.cpp:212-265 | Without removals every key that led to an entry leads to it still, and new entries are reached by no other key |
| EditModel.RunTypes | include/behaviortree_cpp/blackboard.h:243-309 | No sequence of edits changes a declared type |
| EditModel.RunOwns | include/behaviortree_cpp/blackboard.h:202-232 | No entry comes to be held under two keys |
| EditModel.RunKeeps | src/blackboard.cpp:253-265 | Without removals no lookup that found something changes, and every blackboard keeps its keys |
| EditModel.PlaceAfter | src/blackboard.cpp:212-265 | What a creation changes for other keys: those that led to the same free place, and no others |
| BlackboardRuns.BlackboardBackup | src/bt_factory.cpp:617-626 | Copies of all blackboards that share nothing with them |
| BlackboardRuns.BlackboardRestore | src/bt_factory.cpp:607-614 | Every blackboard gets the contents of its copy |
| BlackboardRuns.BackupEditRestore | src/bt_factory.cpp:607-626 | Whatever edits happen in between, every blackboard has its old keys, values and types again; entries under keys that the edits leave there keep their identity and count one step; without removals that is every entry, and it has counted the accepted writes to it and one more |
| BlackboardRuns.EntryUpdatedAction.Tick | src/actions/updated_action.cpp:39-67 | Succeeds if the counter is not the one seen last, and remembers it |
| BlackboardRuns.EntryUpdatedAction.TickTwice | src/actions/updated_action.cpp:39-67 | Between two ticks of the action, whatever sets and creations happen, the second succeeds exactly when the number of accepted sets whose key leads to the entry is not a multiple of 2^64 |
| TraceModel.StepKeepsInv | 3rdparty/minitrace/minitrace.cpp:265-489 | Every step of every thread keeps the invariant of the double-buffered recorder |
| TraceModel.RunKeepsInv | 3rdparty/minitrace/minitrace.cpp:265-489 | For any number of threads and any interleaving |
| TraceModel.PrintedAreAccepted | 3rdparty/minitrace/minitrace.cpp:295-365 | The printed lines are those of the first accepted events, complete and in order: no loss, no duplicate, nothing that an earlier event left in the slot |
| TraceModel.ShownIsStored | 3rdparty/minitrace/minitrace.cpp:297-352 | A line shows only fields that recording the event has written, exactly for events other than a complete event with an id recorded with an argument of kind none, which no macro records |
| TraceModel.WritersAreApart | 3rdparty/minitrace/minitrace.cpp:377-431 | Writers own different slots within the buffers |
| TraceModel.PrintingIsAlone | 3rdparty/minitrace/minitrace.cpp:283-365 | While a thread prints nobody writes to the buffer it prints from, and nobody else prints |
| TraceModel.RestIsCurrent | 3rdparty/minitrace/minitrace.cpp:278-295 | At rest, the printed lines and those of the current buffer are the lines of the accepted events |
| TraceModel.PollStep | 3rdparty/minitrace/minitrace.cpp:290-295 | When no event is in progress and the mutex is held, nobody writes or is about to, also when the flusher goes on to print |
| TraceFlush.LineTells | 3rdparty/minitrace/minitrace.cpp:297-352 | What a line tells of its event: all fields but the id, the argument if there is one; the id for the asynchronous phases; the duration of a complete event with an id |
| TraceFlush.RecordedIsPrinted | 3rdparty/minitrace/minitrace.cpp:265-489 | After one more event and a flush a recorder at rest has printed the lines of all accepted events and of this one; it is missing exactly when tracing is off or the buffer is full |
| TraceRecorder.Recorder.ReserveSlot | 3rdparty/minitrace/minitrace.cpp:381-391 | On the recorder: the next slot, or the event is dropped |
| TraceRecorder.Recorder.WriteField | 3rdparty/minitrace/minitrace.cpp:393-426 | On the recorder: one field of the slot, if an event of its kind has it |
| TraceRecorder.Recorder.SwapBuffers | 3rdparty/minitrace/minitrace.cpp:278-289 | On the recorder: the buffers change places |
| TraceRecorder.Recorder.PollWriters | 3rdparty/minitrace/minitrace.cpp:290-295 | On the recorder: one look at the counter |
| TraceRecorder.Recorder.PrintEvent | 3rdparty/minitrace/minitrace.cpp:297-361 | On the recorder: the line of one event |
| TraceRecorder.Recorder.FinishFlush | 3rdparty/minitrace/minitrace.cpp:363-366 | On the recorder: flushing ends |
| TraceRecorder.Recorder.Reachable | 3rdparty/minitrace/minitrace.cpp:377-431 | In every reachable recorder the slots and ranges that the other methods rely on are there |
| CoroutineModel.RunIsDisciplined | 3rdparty/minicoro/minicoro.h:1662-1770 | After every sequence of operations the chain from the current coroutine is finite and without repetition, its first runs, the rest is normal, all others are suspended or dead without predecessor |
| CoroutineStack.RunMirrors | 3rdparty/minicoro/minicoro.h:1662-1770 | After every sequence of operations the states and pointers are those of a stack of calls: a coroutine runs if it is on top, is normal below, dead if it has ended, and suspended otherwise |
| CoroutineStack.StepMirrors | 3rdparty/minicoro/minicoro.h:1713-1770 | Every operation is allowed or refused as on that stack, with the same error |
| CoroutineStack.EndedIsDead | 3rdparty/minicoro/minicoro.h:532-536 | A coroutine that has ended is dead and cannot be resumed until it is destroyed |
| CoroutineModel.StepKeeps | 3rdparty/minicoro/minicoro.h:478-536 | What every operation does to the chain |
| CoroutineModel.RunningIsCurrent | 3rdparty/minicoro/minicoro.h:503-510 | A coroutine runs exactly when it is the current one, which the commented-out assertions ask for |
| CoroutineModel.ChainIsFollowed | 3rdparty/minicoro/minicoro.h:478-536 | Following the predecessors meets the chain and ends |
| CoroutineModel.ResumeThenYield | 3rdparty/minicoro/minicoro.h:1731-1770 | A coroutine that is resumed and yields leaves everything as it was |
| Coroutines.CoroutineThread.Resume | 3rdparty/minicoro/minicoro.h:1731-1743 | The pointer updates on objects are those of the model |
| Coroutines.CoroutineThread.Yield | 3rdparty/minicoro/minicoro.h:1745-1770 | The pointer updates on objects, errors included |
| Coroutines.CoroutineThread.Finish | 3rdparty/minicoro/minicoro.h:532-536 | The end of a coroutine |
| Coroutines.CoroutineThread.Destroy | 3rdparty/minicoro/minicoro.h:1713-1729 | Destroying is refused unless suspended or dead |
| Coroutines.CoroutineThread.DisciplineSuffices | 3rdparty/minicoro/minicoro.h:478-501 | In a disciplined thread the assertions of the code hold |
| MultipartCodec.RoundTrip | 3rdparty/cppzmq/zmq_addon.hpp:220-302 | Parts that were encoded are decoded to the same parts |
| MultipartCodec.DecodesFrames | 3rdparty/cppzmq/zmq_addon.hpp:276-302 | Decoding accepts exactly the sequences of whole frames, and gives their parts |
| MultipartCodec.EncodingIsShortest | 3rdparty/cppzmq/zmq_addon.hpp:220-258 | No other message that is decoded to the parts is shorter |
| MultipartCodec.NetworkOrder | 3rdparty/cppzmq/zmq_addon.hpp:77-102 | The most significant byte comes first |
| MultipartCodec.BigEndianInverse | 3rdparty/cppzmq/zmq_addon.hpp:77-102 | The two functions for network order are inverse to each other |
| MultipartCodec.Encode | 3rdparty/cppzmq/zmq_addon.hpp:220-258 | Both passes: refused exactly when a part is too large, otherwise the message is filled to the last byte |
| MultipartCodec.Decode | 3rdparty/cppzmq/zmq_addon.hpp:276-302 | The loop over the bytes, refusals included |
| MultipartCodec.WriteNetworkOrder | 3rdparty/cppzmq/zmq_addon.hpp:77-88 | Four bytes and no others |
| MultipartCodec.ReadNetworkOrder | 3rdparty/cppzmq/zmq_addon.hpp:90-102 | The number they stand for |

## Left out

- Tick engine: sequences, switches, retries, repeats, timeouts, delays, loops and subtree nodes; injected callbacks; side effects of post-condition scripts; sleeping between ticks; adding children after construction.
- Tick engine: thresholds of the parallel nodes are fixed when the node is built (ports bound to literals); the halt of a leaf resets its status, as that of every leaf of the library does.
- Quiescence.TickKeepsQuiet: decorators are those with a tame functor; of the others `Quiescence.DecoratorQuiets` says which ticks keep quiescence, and `Quiescence.TameTableExact` that each of them loses it somewhere.
- Quiescence.TameTableExact: functors that answer Idle for a Running child are left out over leaves, because the engine then throws whenever the leaf runs.
- StaleConditions.RestartIsSteady: the converse of clean restart, that a bad condition does spoil some run, is stated for conditions over leaves, because subtrees in place of the leaves may be unable to give the answers it takes.
- Restart.RunKeepsQuiet: `tickRoot` is followed for any number `fuel` of root ticks; a run that never ends is not described beyond every such number.
- Wildcards.MatchExact: for nested alternatives whose branches have strings of several lengths only soundness is stated, because there the answer depends on which branch fits first.
- WildcardNotation.ShownMatches: patterns with a bracket that opens no set or alternative, or with an unescaped separator or closing bracket outside of alternatives, are not written by `Show`.
- Wildcards: the pattern position in the result of a match and the wide-character tables.
- XML: text, comments, CDATA, declarations, DTDs, whitespace modes, line numbers, the byte order mark when printing, and nodes that are not elements (the parser model answers `Unsupported` for them).
- XmlParser.Document.ParseDocument: values are decoded when the parser meets them and names are copied, whereas the code decodes a value at its first use and ends names by writing a NUL behind them.
- XmlNotation.WrittenParses: what the parser takes beyond XML is not in the notation (an ampersand that begins no reference, a reference to a number from 0x110000 on, attributes in an end tag, `</a/>`, text behind an end tag at document level).
- XmlPrinter: the buffer is a sequence; the final NUL and the file variant are not modelled.
- MemPool: contents of items, `Clear`, and the trace output.
- Blackboard: mutexes, shared-pointer lifetime (parents stay alive), timestamps, JSON import and export, and the throwing `get`.
- BlackboardRuns.BackupEditRestore: the blackboards of the tree hold all their ancestors among themselves.
- Trace: `mtr_shutdown`, string copies, and the formatting of lines, including the id text that the code repeats from an earlier line for an event with an id that is neither asynchronous nor complete.
- Coroutines: stacks, context switches, storage, sanitizer hooks, and the allocation failures of `mco_create`.
- MultipartCodec.Encode: the sum of sizes does not overflow `size_t`.
