# Verified models of the core of `base/`

A Dafny model of the algorithms and protocols in Chromium's `base/` library that work by
updating state step by step, with proofs of what they promise.  The command
`dafny verify dfyconfig.toml` covers the whole project.

What is modelled, and the main results:

* **Descriptor shuffle** (`ShuffleRun`, `FileDescriptorShuffle`, `ShuffleSpec`,
  `ShuffleRefinement`, `ShuffleOutcome`, `ShuffleDelegates`, `ShuffleAnswers`).  The nested loops that rewrite the
  arcs still to come are proved to equal a run over values, for any delegate whose `Duplicate`
  hands out numbers that are not open; the run is proved to refine a specification that never
  rewrites an arc, as long as no such number is in the way of the arcs still to come.  From
  that: for distinct destinations and open sources, the call carries out one simultaneous
  assignment, with exactly the closes asked for, for every such delegate if and only if no
  identity arc shares its source with a later arc while one of the two is to be closed, at most
  sixteen duplicates are needed, and no arc that needs a duplicate comes before one whose
  destination is not open yet.  For a delegate that keeps off the numbers that the arcs name,
  which is what "fresh" promises at base/file_descriptor_shuffle.h:35-37, the last condition
  goes away; for dup, whose answer is the lowest number that is not open, it becomes that dup
  does not come upon the destination of a later arc, worked out from the arcs and the open
  numbers alone.
* **Lazy creation** (`LazyInstance`, `AtExit`).  Any number of threads in `Pointer()`,
  interleaved at every access: one construction, one owner, one answer, every object that is
  constructed destroyed once before the next, and every call can return.  On one thread, with nested at-exit managers: an instance is destroyed before what
  its constructor reaches through instances that are not leaky, exactly once, and goes back to
  EMPTY.  For whatever it does not reach in this way, there is a run in which it is in use when
  that has been destroyed.
* **Atomic operations** (`AtomicOps`).  The retry loops under arbitrary interference and
  spurious failures are linearizable: every run is explained by one-step operations, one for
  each call, taking effect between its call and its return.  What each of them does is read off
  the states: of equal swaps the first alone wins, exchanges hand values on, and increments
  lose nothing.
* **Recursive delete** (`FileTree`, `FileDelete`, `CreateDirectory`).  The file system is a
  tree; a path there is the sequence of names that leads to a node.  The traversal yields
  everything once and parents first, and `Delete` removes precisely the subtree, while the
  traversal and the deletion run interleaved.  A path that is a symbolic link is followed by
  stat but not by unlink and rmdir: the directory that it leads to is emptied and stays.
* **Command lines** (`WindowsQuoting`, `CommandLineSwitches`, `CommandLineReading`, `CommandLine`).  Quoting against
  the documented rules of CommandLineToArgvW, what InitFromArgv makes of an argument list, from
  the positions and characters of the arguments, and `argv_` against `switches_` and `args_`: for
  each operation, exactly when it keeps the two views in agreement, and for any sequence of
  them, exactly when they agree in the end.
* **File paths** (`FilePath`, `FilePathComponents`, `FilePathRelative`, `FilePathExtension`,
  `HfsCompare`), in the POSIX configuration: separator `/`, no drive letters, with `//` as the
  alternate root.
* **IDMap** and **LinkedList** as classes over the heap.

Where the code and its documentation differ, the model follows the code:

* base/file_path.h:218-221 states `path.RemoveExtension().value().append(path.Extension()) ==
  path.value()`.  This is false for a path with an extension and a trailing separator
  ("a.b/"), and `FilePathExtension.RemoveThenAppendExtension` gives the exact condition.
* base/command_line.cc:46-47 says that a quoted string is always processed as one argument.
  The empty string and a string with a tab but no space, backslash or quote are not; see
  `WindowsQuoting.QuotedLineRoundTrips` and `WindowsQuoting.NotAlwaysOneArgument`.
* base/file_path.h:193-200 promises the relative path to the child.  Seeded with the parent
  itself, `AppendRelativePath` leads back to the child, except from "./" and the like, whose
  "." component is lost by the first `Append`; `FilePathRelative.DotSlashMissesChild` has the
  input.
* A switch whose name has an '=' in it, or whose name and value are both empty, is stored in
  `switches_` but not read back from `argv_`.
* `AppendArguments` merges the switches of the other command line but not its arguments, so
  that `argv_` says more than `args_` afterwards.
* `PerformInjectiveMultimap` loses a descriptor that an identity arc keeps and a later arc
  closes, leaves open every duplicate beyond the sixteenth, and closes a destination whose
  number dup has handed out before: `FileDescriptorTableInjection`
  (base/file_descriptor_shuffle.cc:82-85) uses dup, which gives the lowest number that is not
  open, and `ShuffleAnswers.LowestNumberCollides` has the input.
* base/file_util.h:97-104 promises that Delete deletes the given path.  On a symbolic link that
  leads nowhere it reports success and the link stays (base/file_util_posix.cc:157-161); on one
  that leads to a directory it empties the directory and fails; on one inside the directory
  that it leads to, it removes the link on the way and fails with all directories still there.

Specifications written as functions are tied to the loops of the code by the `ensures` of the
methods; the lemmas are about those functions.  Ghost state records what has happened: the
calls of a delegate, the stops of an iterator, the order of destructions.

## Model

| member | source | states |
|---|---|---|
| FileDescriptorShuffle.InjectionDelegate.Duplicate | base/file_descriptor_shuffle.cc:82-85 | A success gives a number that is not open, chosen as the delegate's policy says (the lowest, as dup does, or any that it does not keep off), holding the same file as the original; a failure changes nothing and means that the original was not open or calls may fail. |
| FileDescriptorShuffle.InjectionDelegate.Move | base/file_descriptor_shuffle.h:38-40 | A success makes the destination hold what the source holds and changes nothing else. |
| FileDescriptorShuffle.InjectionDelegate.Close | base/file_descriptor_shuffle.h:41-42 | Exactly the one number stops being open. |
| FileDescriptorShuffle.DuplicateOnce | base/file_descriptor_shuffle.cc:36-46 | Duplicate is called for the first arc that reads the overwritten destination and not again; the number is remembered only while there is room; it fails only if calls may fail or that number is not open. |
| FileDescriptorShuffle.RewriteArc | base/file_descriptor_shuffle.cc:35-59 | One inner iteration on the mutable vector, the table, the trace and the array of duplicates is one pass of the run over values. |
| FileDescriptorShuffle.RewritePending | base/file_descriptor_shuffle.cc:33-59 | The inner loop is all the passes, and Duplicate is called exactly if some pending arc reads the destination. |
| FileDescriptorShuffle.MoveAndClose | base/file_descriptor_shuffle.cc:61-67 | An identity arc makes no call; any other moves and then closes its source if the flag is still set; a Move that fails is the end of it and changes nothing. |
| FileDescriptorShuffle.PerformStep | base/file_descriptor_shuffle.cc:24-68 | One outer iteration is one step of the run, with what Duplicate answered; it fails only if calls may fail or a pending source is not open. |
| FileDescriptorShuffle.PerformInjectiveMultimapDestructive | base/file_descriptor_shuffle.cc:16-74 | For any delegate: the whole trace of calls and the whole final table are those of the run on its answers, and it succeeds whenever calls do not fail and all sources are open.  No call follows one that fails: then the calls are those of the completed steps, and perhaps the Duplicate of the next. |
| FileDescriptorShuffle.PerformInjectiveMultimap | base/file_descriptor_shuffle.cc:76-80 | On a copy of the arcs: it carries out the simultaneous assignment under the condition of ShuffleDelegates.AchievesForEveryDelegate, exactly under that of ShuffleOutcome.AchievesExactly when the delegate keeps off the named numbers, and exactly under that of ShuffleAnswers.DupAchievesIff with dup.  Unless an answer can be in the way, no call reads a descriptor that has been closed, and a descriptor that is no destination is closed once if an arc asks for it and once more if a remembered duplicate has its number. |
| ShuffleRun.KeptCloseIsLast | base/file_descriptor_shuffle.cc:52-58 | An arc that still has its close flag after the inner loop shares its source with no arc behind it. |
| ShuffleRun.SourcesStayOpen | base/file_descriptor_shuffle.cc:36-67 | If all sources are open at the start then, whatever numbers Duplicate hands out, every Duplicate and every Move is called on an open number. |
| ShuffleRefinement.OwesStep | base/file_descriptor_shuffle.cc:48-58 | What one inner iteration does to the close flag of a pending arc agrees with the closed form that only looks at the original arcs: dropped at an overwritten source, handed on to the next arc from the same source. |
| ShuffleRefinement.PassAdvances | base/file_descriptor_shuffle.cc:36-58 | One pass brings the rewritten vector from its specified state at j to the one at j + 1. |
| ShuffleRefinement.AsksIffNeeded | base/file_descriptor_shuffle.cc:36-39 | The tests on the rewritten vector call Duplicate in step i exactly if the arc is no identity and a later original arc reads its destination. |
| ShuffleRefinement.RunMatches | base/file_descriptor_shuffle.cc:24-68 | After every step the vector, the table, the remembered duplicates and the trace of calls are those specified from the original arcs. |
| ShuffleSpec.HoldsClosedForm | base/file_descriptor_shuffle.cc:24-68 | After any number of steps a descriptor holds what was duplicated into it, or nothing if it has been closed, or the original content of its arc's source if that arc is done, or its own content. |
| ShuffleSpec.SourceSurvives | base/file_descriptor_shuffle.cc:36-50 | Before every step, the place from which a pending arc will read still holds what its original source held at the start. |
| ShuffleSpec.SourceMatches | base/file_descriptor_shuffle.cc:36 | The comparison of a rewritten source with a number still in use asks whether the original source is that number and has not been overwritten. |
| ShuffleDelegates.AchievesForEveryDelegate | base/file_descriptor_shuffle.cc:16-74 | For distinct destinations and open sources: the call achieves the assignment whatever numbers that are not open Duplicate hands out, if and only if no identity arc is given away by a later one, at most sixteen duplicates are needed, and no arc that needs one comes before an arc whose destination is not open. |
| ShuffleDelegates.AnswersAreFresh | base/file_descriptor_shuffle.cc:36-50 | Where nothing can collide, every number that is not open is out of the way of the arcs still to come, although it may be that of a source already closed. |
| ShuffleDelegates.CollidingAnswers | base/file_descriptor_shuffle.cc:36-71 | Wherever a collision is possible some delegate brings it about, and the destination is lost. |
| ShuffleDelegates.DuplicatedIsLost | base/file_descriptor_shuffle.cc:41-71 | A remembered duplicate that has the number of a destination is closed in the end, whatever has been moved there. |
| ShuffleDelegates.ContractAchievesIff | base/file_descriptor_shuffle.h:35-37 | For a delegate that keeps off the numbers the arcs name, the call achieves the assignment if and only if no identity arc is given away and at most sixteen duplicates are needed. |
| ShuffleDelegates.RunClosesInOrder | base/file_descriptor_shuffle.cc:61-71 | Where no answer can be in the way, the calls of the run read nothing after it has been closed and close what is no destination as often as asked. |
| ShuffleAnswers.AchievesForAnswers | base/file_descriptor_shuffle.cc:24-71 | Whatever Duplicate answers, if the duplicates fit in the buffer: the call achieves the assignment if and only if no identity arc is given away and no answer is the destination of a later arc. |
| ShuffleAnswers.EarlyHitIsLost | base/file_descriptor_shuffle.cc:40-45 | An answer that is the destination of a later arc loses that destination while there is room in the buffer, however many duplicates follow. |
| ShuffleAnswers.DupAchievesIff | base/file_descriptor_shuffle.cc:82-85 | With the lowest number that is not open as the answer, and duplicates that fit in the buffer: the call achieves the assignment if and only if no identity arc is given away and none of the lowest numbers, worked out from the original arcs, is the destination of a later arc. |
| ShuffleAnswers.SameHits | base/file_descriptor_shuffle.cc:82-85 | What dup answers in the run comes upon a later destination exactly if what is worked out from the original arcs and the open numbers does. |
| ShuffleAnswers.DupCanAnswer | base/file_descriptor_shuffle.cc:82-85 | For all arcs and tables there is a run in which every answer is the lowest number that is not open. |
| ShuffleAnswers.LowestNumberCollides | base/file_descriptor_shuffle.cc:82-85 | For the arcs 5->3 and 3->4 with 0, 1, 2, 3 and 5 open, dup answers 4 and the assignment is not achieved. |
| ShuffleAnswers.LowestNumberKeepsOff | base/file_descriptor_shuffle.cc:82-85 | For the arcs 5->3 and 3->9 with 0 to 5 open, another delegate could answer 9, but dup answers 6 and the assignment is achieved. |
| ShuffleDelegates.IdentityThenClose | base/file_descriptor_shuffle.cc:55-67 | The arcs 0->0 and then 0->1 with close never achieve the assignment. |
| ShuffleDelegates.ChainAchievesIff | base/file_descriptor_shuffle.cc:16-45 | The chain of arcs i->i+1 achieves the assignment with numbers that no arc names if and only if it has at most seventeen arcs. |
| ShuffleOutcome.AchievesExactly | base/file_descriptor_shuffle.cc:16-74 | With duplicates that no arc names, the specified final table is the simultaneous assignment, the open set being the initial one plus the destinations minus the closed sources, if and only if no identity arc is given away by a later one and at most sixteen duplicates are needed. |
| ShuffleOutcome.FreshAchieves | base/file_descriptor_shuffle.cc:24-71 | Duplicates that are out of the way of the arcs still to come are enough for the assignment, also when they have the numbers of sources already closed. |
| ShuffleOutcome.FinalTable | base/file_descriptor_shuffle.cc:24-71 | The content of every descriptor at the end for duplicates that no arc names, with no hypothesis on close flags or on their number: lost identities and leaked duplicates included. |
| ShuffleOutcome.DuplicatesOf | base/file_descriptor_shuffle.cc:36-41 | The duplicates are one number for each non-identity arc whose destination a later arc reads, all different. |
| ShuffleOutcome.ClosedNonDest | base/file_descriptor_shuffle.cc:52-67 | A source that is no destination is closed exactly when some arc from it has the close flag. |
| ShuffleOutcome.ClosedDest | base/file_descriptor_shuffle.cc:52-67 | A destination is closed exactly when it is an identity arc's and a later arc from it shares a close flag with it. |
| ShuffleOutcome.ClosedExactlyOnce | base/file_descriptor_shuffle.cc:66-71 | In the whole trace a descriptor that is no destination is closed once if an arc asks for it, once more if a remembered duplicate has its number, and otherwise never. |
| ShuffleOutcome.ClosedAfterLastUse | base/file_descriptor_shuffle.cc:61-67 | No Move or Duplicate reads a descriptor that has been closed, unless its number has been handed out again. |
| LazyInstance.InvariantHolds | base/lazy_instance.h:122-143 | In every interleaving the state, the program points of all threads, the number of constructor runs and the results returned fit together. |
| LazyInstance.OneOwnerKept | base/lazy_instance.cc:15-30 | Every step of any thread keeps: the state is CREATING exactly while one thread, and no other, owns the creation. |
| LazyInstance.PointStays | base/lazy_instance.h:122-143 | A step of one thread cannot invalidate the program point of another. |
| LazyInstance.ConstructedOnce | base/lazy_instance.h:126-134 | In every run the constructor runs at most once between two OnExits, and has run once and finished when the state is CREATED. |
| LazyInstance.CreatingHasOneOwner | base/lazy_instance.cc:18-29 | In every reachable CREATING state precisely one thread is creating. |
| LazyInstance.PhaseOnlyAdvances | base/lazy_instance.cc:15-42 | The state moves EMPTY, CREATING, CREATED one step at a time, and only the owner's store makes it CREATED. |
| LazyInstance.AnswersAgree | base/lazy_instance.h:122-143 | Any two results of Pointer() are the same instance, non-null and fully built. |
| LazyInstance.ReturnedStaysGood | base/lazy_instance.h:142 | What a thread holds stays the current, built instance until it lets go of it. |
| LazyInstance.RegisteredOnce | base/lazy_instance.cc:32-42 | Once all calls are over, the destructor of a created instance is registered exactly once, or never if the instance is leaky. |
| LazyInstance.OnExitDestroys | base/lazy_instance.h:162-168 | OnExit finds the published object built, destroys it, and leaves nothing built, no instance and the phase EMPTY. |
| LazyInstance.OneBuilt | base/lazy_instance.h:122-168 | In every reachable state at most one object is built, and none while the phase is EMPTY. |
| LazyInstance.ConstructedIsDestroyed | base/lazy_instance.h:122-168 | Over any run the objects constructed are, in order, those that OnExit has destroyed and then the one that is still built. |
| LazyInstance.ConstructedInOrder | base/lazy_instance.h:122-143 | No object is constructed twice. |
| LazyInstance.CreatedIsFast | base/lazy_instance.h:122-124 | Once the instance is there, a call returns it after two loads and leaves the shared state alone. |
| LazyInstance.CallCanReturn | base/lazy_instance.cc:23-28 | From every reachable state any call in progress can still be brought to its return, so the spin waits for something that can happen. |
| LazyInstance.PublishedBeforeRegistered | base/lazy_instance.cc:36-41 | A run in which a second thread has been given the instance while its destructor is not yet registered. |
| AtExit.Process.Pointer | base/lazy_instance.h:122-143 | On one thread, creating an instance, with all that its constructor touches, keeps the registration order, changes only the top manager by adding to it, and ends CREATED; nothing else changes when all that it touches is there. |
| AtExit.Process.RegisterCallback | base/at_exit.cc:43-53 | Pushes on the top manager's stack; everything the instance touches is already below it. |
| AtExit.Process.ProcessCallbacksNow | base/at_exit.cc:56-70 | Destroys the top manager's instances in the reverse of their registration, each back to EMPTY, and nothing else; each is destroyed before every non-leaky instance that it touched, or that one is still there. |
| AtExit.Process.RunLast | base/at_exit.cc:64-69 | When an instance is destroyed, every non-leaky instance that it touched is still CREATED. |
| AtExit.Process.OnExit | base/lazy_instance.h:162-168 | Destroys the instance and returns it to EMPTY. |
| AtExit.Process.NewManager | base/at_exit.cc:72-75 | A shadowing manager becomes the top one with an empty stack. |
| AtExit.Process.DeleteManager | base/at_exit.cc:31-40 | Processes the callbacks of the top manager and uncovers the one below it unchanged. |
| AtExit.Process.Shutdown | base/at_exit.cc:31-40 | Deleting all managers destroys every registered instance exactly once, and before everything that its constructor reaches through non-leaky instances; every non-leaky instance ends EMPTY and leaky ones are left alone. |
| AtExit.DestroyedBeforeTouched | base/at_exit.cc:64-69 | In the log of destructions of Shutdown an instance comes before each non-leaky instance that its constructor touched. |
| AtExit.ChainIsOrdered | base/lazy_instance.cc:32-42 | An instance is registered after everything that its constructor reaches through instances that are not leaky. |
| AtExit.Process.ReachedIsCreated | base/lazy_instance.cc:32-42 | Whenever an instance is CREATED, so is everything that it reaches through instances that are not leaky. |
| AtExit.OutlivesUnreached | base/lazy_instance.h:71-77 | For every acyclic graph of touches and any two non-leaky instances with no such chain from the first to the second, a run in which the first is CREATED after the second has been destroyed. |
| AtExit.LeakyOutlivesTouched | base/lazy_instance.h:71-77 | Through a leaky instance the order is lost: an instance of the above, in which 0 is created on the leaky 1 when 2, which 1 touched, has been destroyed. |
| AtomicOps.StepIsAtomicOrSilent | base/atomicops_internals_arm_gcc.h:32-75 | The access that completes a loop is the one-step operation with its result; every other access leaves the cell alone. |
| AtomicOps.RunsLinearize | base/atomicops.h:59-82 | In every run the cell and all results are those of the logged one-step operations performed one after the other. |
| AtomicOps.RunsDoTheirOperations | base/atomicops.h:59-82 | In every run, from the states alone: a CompareAndSwap that takes effect returns what the cell held and stores the new value if and only if that was the expected one; an Exchange returns what the cell held and stores its value; an Increment adds modulo 2^32 and returns the sum; between two effects the cell does not change. |
| AtomicOps.OneSwapWins | base/atomicops_internals_arm_gcc.h:36-43 | Of any number of swaps of a for b, from a cell that holds a, exactly the first to take effect returns a, the others return b, and the cell ends with b. |
| AtomicOps.ExchangesConserve | base/atomicops_internals_arm_gcc.h:46-54 | In a run of exchanges the results with the final cell are, as a multiset, the initial value with the values stored. |
| AtomicOps.OneEffectPerCall | base/atomicops_internals_x86_macosx.h:16-38 | Each call of each thread takes effect exactly once, after it begins and before it returns, with its own arguments and the result it returns. |
| AtomicOps.RunsConserveSum | base/atomicops_internals_arm_gcc.h:61-75 | In every run, increments leave the initial value plus their sum modulo 2^32, and each result is the sum up to its effect. |
| AtomicOps.IncrementsAddUp | base/atomicops.h:77-82 | The cell after any log of increments is their sum modulo 2^32. |
| AtomicOps.AloneFinishes | base/atomicops_internals_arm_gcc.h:36-75 | Any loop left undisturbed returns within three accesses. |
| AtomicOps.SequenceNumbersDiffer | base/atomic_sequence_num.h:19-22 | In every run from zero the i-th GetNext to take effect returns i, so two of the first 2^32 calls never return the same number. |
| AtomicOps.DropSeesZero | base/atomic_ref_count.h:32-40 | In every run a change of a reference count sees zero exactly when the running count at its effect is zero modulo 2^32. |
| FileTree.FileSystem.Stat | base/file_util_posix.cc:157-163 | Follows a link; tells what is missing from other failures, and directories from the rest. |
| FileTree.FileSystem.Unlink | base/file_util_posix.cc:163-164 | Is not called after a removal has failed, and removes one node that is no directory, a link as what it is; without failures it succeeds on every such node whose name still leads there. |
| FileTree.FileSystem.Rmdir | base/file_util_posix.cc:165-166 | Removes only an empty directory, and never through the link itself; without failures it succeeds on every such directory whose name still leads there. |
| FileTree.FileSystem.ReadDirectory | base/file_util_posix.cc:719-758 | Lists children once each, in any order, with the two dot entries, and directories as directories; when calls may fail it may stop early and a directory may look like a leaf, otherwise it lists them all, correctly. |
| FileTree.ReadKeepsSound | base/file_util_posix.cc:664-691 | Popping a directory and taking in its listing keeps the subtrees still to be listed apart from each other and from the entries still to be yielded. |
| FileTree.ReadGainsNothing | base/file_util_posix.cc:674-691 | After a directory is read nothing outside it has become due. |
| FileTree.ReadLosesNothing | base/file_util_posix.cc:674-691 | If no call fails everything that was due still is. |
| FileTree.YieldStep | base/file_util_posix.cc:658-697 | Yielding the next entry takes exactly that node off what is due, and nothing due contains it. |
| FileTree.UnlinkKeepsSound | base/file_util_posix.cc:179-182 | Unlinking a leaf that has been yielded disturbs neither the traversal nor what is due. |
| FileTree.ScopeShrinks | base/file_util_posix.cc:662-670 | Every directory popped, readable or not, leaves strictly less to be listed: the traversal terminates. |
| FileDelete.FileEnumerator.PushEntries | base/file_util_posix.cc:674-691 | The new entries are the listing without the dot entries, and its subdirectories are pushed on what was pending. |
| FileDelete.FileEnumerator.Next | base/file_util_posix.cc:658-697 | Each call yields one node that was due, of which no ancestor is still due, and then exactly that node is no longer due; it ends only when nothing is due. |
| FileDelete.Enumerate | base/file_util_posix.cc:658-697 | Whatever a whole traversal yields is below the root, exactly once and after every directory that it is in, also when calls fail; if none fails it yields every node below the root. |
| FileDelete.UnlinkAll | base/file_util_posix.cc:168-183 | The first loop removes only leaves below the path and stacks every directory after the ones it is in; without failures all that is left under the path is on the stack, also when the names go through a link that is not below it; a link below it is removed. |
| FileDelete.TopIsEmpty | base/file_util_posix.cc:185-189 | The directory popped from the stack is empty if everything left is on the stack. |
| FileDelete.RemoveDirectories | base/file_util_posix.cc:185-190 | The second loop removes the stacked directories, the path itself last, and without failures every rmdir succeeds; through a link the last one fails and the directory is left empty. |
| FileDelete.Delete | base/file_util_posix.cc:153-191 | On what is no link: success leaves exactly the nodes outside the subtree, and without failures a recursive call always succeeds and another exactly on a missing path, a leaf or an empty directory.  A link is removed if it leads to no directory, left if it leads nowhere, and if it leads to a directory the call fails with that directory emptied; if it lies inside that directory, the link goes, all directories stay and the call fails.  Nothing outside the path and the inside of a link's target is ever removed.  Nothing is removed after an unlink or rmdir that fails, and a call that is not recursive changes nothing if it fails. |
| CreateDirectory.CollectAncestors | base/file_util_posix.cc:497-506 | The first loop ends and collects the path and all its DirNames up to the root directory. |
| CreateDirectory.AncestorsClimb | base/file_util_posix.cc:499-506 | Each collected path is the DirName of the one before it and the last is its own DirName. |
| CreateDirectory.EnsureExists | base/file_util_posix.cc:511-520 | One iteration succeeds exactly when the directory is there or can be made in its parent, and makes at most that one; whatever fails, it reports whether the directory is there in the end. |
| CreateDirectory.CreateDirectory | base/file_util_posix.cc:495-523 | It succeeds if and only if every directory on the path exists in the end; nothing else is made; without failures it succeeds exactly when the root of the path exists and no place on the path is taken by something else.  For any resolution of paths that agrees with DirName. |
| CreateDirectory.DirNameIsAround | base/file_path.cc:295-329 | Resolving a path to its components is such a resolution: DirName gives the place around the path, the root directories being in themselves. |
| WindowsQuoting.WindowsStyleQuote | base/command_line.cc:48-88 | The index loops produce the recursively specified quoting: backslashes doubled just before a quote or the end; the result is the argument itself if and only if this has no space, backslash or quote. |
| WindowsQuoting.QuotedIs | base/command_line.cc:48-88 | Only an argument with a space, a backslash or a quote is changed, and one with spaces but neither of the others just gets a quote at each end. |
| WindowsQuoting.ScanPending | base/command_line.cc:58-85 | From any point inside a quoted argument, with backslashes pending, the documented parser reads the rest of the argument back and stops at its closing quote. |
| WindowsQuoting.ScanJoined | base/command_line.cc:369-373 | Parsing any quoted list gives, argument by argument, the argument itself or its pieces between tabs. |
| WindowsQuoting.QuotedLineRoundTrips | base/command_line.cc:46-88 | The parsed line is the list of arguments if and only if no argument is empty, has a NUL, or has a tab without a space, backslash or quote. |
| WindowsQuoting.NotAlwaysOneArgument | base/command_line.cc:46-54 | The empty argument and "a\tb" do not come back. |
| CommandLine.CommandLine.InitFromArgv | base/command_line.cc:202-226 | The loop parses switches up to the terminator and collects the other arguments, on top of what was there. |
| CommandLineReading.ParsedByPosition | base/command_line.cc:202-226 | The arguments are, in order, those before the first "--" that do not begin with a dash and then everything behind it; a switch has the value that the last argument of the form "--n", "--n=v", "-n" or "-n=v" before the "--" gives it, n having no '=' and the longer prefix going first; there are no other switches. |
| CommandLineReading.SaysIff | base/command_line.cc:93-126 | An argument is read as a switch n with value v if and only if it has one of these four forms. |
| CommandLine.CommandLine.AppendSwitch | base/command_line.cc:293-302 | One rendered switch more in argv_ and its empty value in switches_, whatever the command line holds; the views stay in agreement exactly if the switch fits. |
| CommandLine.CommandLine.AppendSwitchNative | base/command_line.cc:309-328 | The same for a switch with a value. |
| CommandLine.CommandLine.AppendSwitches | base/command_line.cc:339-343 | Appends every switch of the other command line, which may be the same one, exactly once; the switches become the union with the other's winning; the views stay in agreement exactly if all fit in that order. |
| CommandLine.CommandLine.CopySwitchesFrom | base/command_line.cc:345-354 | Appends, in order, those of the named switches that the source has, with the same condition. |
| CommandLineSwitches.CopiedIs | base/command_line.cc:345-354 | What CopySwitchesFrom appends is one switch for each position whose name the source has, in order, with the source's value. |
| CommandLineSwitches.PositionsAscend | base/command_line.cc:345-354 | These positions ascend and are all of those whose name the source has. |
| CommandLineSwitches.CopiedFolds | base/command_line.cc:345-354 | Together they map just the named switches of the source to its values. |
| CommandLine.CommandLine.AppendArguments | base/command_line.cc:391-420 | The program is replaced exactly when asked, everything else is appended to argv_, the switches are merged and the arguments are not; the views stay in agreement exactly if the other had no arguments or, behind a terminator, nothing at all. |
| CommandLineSwitches.RenderedIsSwitch | base/command_line.cc:93-126 | A rendered switch is read as a switch, equals the terminator only if it is empty, and gives its own name and value when the name has no '='. |
| CommandLineSwitches.AppendKeepsIff | base/command_line.cc:202-226 | Behind any argv_, one more switch is read back, with no new argument, if and only if switches are still being read, its name has no '=', and it is not the empty switch, unless that is there already. |
| CommandLineSwitches.AppendAllIff | base/command_line.cc:202-226 | The same for any list of switches, one after the other. |
| CommandLineSwitches.MergeKeepsIff | base/command_line.cc:417-419 | Reading two command lines as one gives the merged switches and only the first one's arguments if and only if the second has none, or behind a terminator nothing at all. |
| CommandLineSwitches.ReparseIff | base/command_line.cc:202-226 | From a program alone, parsing the rendered switches gives back exactly the switches and no arguments if and only if no name has an '=' and no switch is empty in both name and value. |
| CommandLineSwitches.NotEverySwitchReparses | base/command_line.cc:93-126 | The switch "a=b" and the empty switch do not come back. |
| CommandLine.Reparse | base/command_line.cc:202-226 | InitFromArgv on argv_ rebuilds switches_ and args_ exactly if the views agree. |
| CommandLine.Perform | base/command_line.cc:293-420 | Each of the five operations appends just the switches that it stands for to both views. |
| CommandLine.PerformAll | base/command_line.cc:293-420 | Any sequence of the five operations on a consistent command line, the operands of AppendArguments having been built from switches, leaves it consistent if and only if all the switches appended, as one list, fit one after the other. |
| CommandLine.Build | base/command_line.cc:293-420 | From a program alone: argv_ and switches_ are those of the list of all the switches appended by any sequence of operations, and agree if and only if each switch in it reads back. |
| CommandLine.RebuildSwitches | base/command_line.cc:339-343 | From a program alone, appending the switches of another command line gives an argv_ that rebuilds them if and only if each of them reads back. |
| FilePath.StripTrailingSeparatorsInternal | base/file_path.cc:1181-1201 | The in-place loop equals its closed form. |
| FilePath.StripIs | base/file_path.cc:1181-1201 | Stripping gives a prefix followed only by separators, ends in a separator only as "/" or "//", and is empty only for the empty path. |
| FilePath.StripIdempotent | base/file_path.cc:1181-1201 | Stripping twice is stripping once. |
| FilePath.DirNameDescends | base/file_path.cc:295-329 | DirName is a fixed point exactly on ".", "/" and "//", and is strictly lower everywhere else. |
| FilePath.DirNameReachesRoot | base/file_path.cc:221-226 | Iterating DirName reaches ".", "/" or "//" from every path, and stops at the first of them. |
| FilePath.AppendThenSplit | base/file_path.cc:445-477 | For a non-empty path and a name, BaseName of the appended path is the name and DirName is the stripped path. |
| FilePathComponents.AppendAddsFields | base/file_path.cc:445-477 | For any path and any relative one, empty or with separators in it: the fields of the appended path are those of the first and then those of the second, its root is that of the first, and it is at most one character longer than the two; to "." the second alone is the answer. |
| FilePath.GetComponents | base/file_path.cc:208-241 | The loop equals the components specified by recursion on DirName. |
| FilePathComponents.ComponentsAreRootAndFields | base/file_path.cc:208-241 | The components are the fields between separators, read from the left, behind "//" for a path that begins with two separators or with three and a name, behind "/" for any other that begins with one, and without a leading "." before another field. |
| FilePathRelative.AppendAddsComponent | base/file_path.cc:445-477 | Appending a name adds exactly that component, if and only if the path is not "./" or the like and the result is not ".". |
| FilePathRelative.LaterComponentsAreNames | base/file_path.cc:208-241 | All components are non-empty and free of separators, except that the first may be a root. |
| FilePathRelative.AppendRelativePath | base/file_path.cc:247-289 | It succeeds exactly on a proper prefix of components and then appends the remaining ones to the seed, which it otherwise leaves alone. |
| FilePathRelative.RelativePathReachesChild | base/file_path.cc:283-288 | Seeded with the parent it gives a path with exactly the child's components, if and only if the parent is not "./" or the like. |
| FilePathRelative.DotSlashLosesComponent | base/file_path.cc:208-241 | "./" has the component ".", and appending "a" to it leaves only "a". |
| FilePathRelative.DotSlashMissesChild | base/file_path.cc:247-289 | "./" is the parent of "././a", whose components are "." and "a"; the relative path seeded with "./" has other components. |
| FilePathRelative.IsParentIsStrictOrder | base/file_path.cc:243-245 | IsParent is irreflexive, asymmetric and transitive. |
| FilePathExtension.PositionInPath | base/file_path.cc:121-160 | Searching the whole path finds the same dot as searching its last component, double extensions included. |
| FilePathExtension.TwoDots | base/file_path.cc:134-157 | For a name front.e1.e2 below any directory: the extension is .e1.e2 and front is left if e2 is gz, z or bz2 in any case and e1 has one to four characters, and otherwise it is .e2 and front.e1 is left. |
| FilePathExtension.DoubleExtension | base/file_path.cc:134-157 | The first half of this on its own. |
| FilePathExtension.SingleExtension | base/file_path.cc:121-145 | Any other name with a dot, "." and ".." excepted, is cut at its last dot. |
| FilePathExtension.NoExtension | base/file_path.cc:121-132 | A name without a dot, "." and ".." have no extension and nothing is removed. |
| FilePathExtension.RemoveThenAppendExtension | base/file_path.cc:354-372 | RemoveExtension followed by Extension is the path, if and only if there is no extension or no trailing separator to strip. |
| FilePathExtension.TrailingSeparatorIsLost | base/file_path.cc:354-372 | For a name with one dot and a separator after it, such as "a.b/": the extension is that of the name, the rest ends before the dot, and the two together are not the path. |
| FilePathExtension.ExtensionStartsWithOneDot | base/file_path.cc:114-160 | A non-empty extension starts with precisely one dot. |
| HfsCompare.HFSReadNextNonIgnorableCodepoint | base/file_path.cc:1042-1061 | Every table access is in bounds, and the next folded code point that is not ignorable is returned with the rest left to read, or zero at the end. |
| HfsCompare.HFSFastUnicodeCompare | base/file_path.cc:1068-1090 | For any function that the case table encodes: the result is the lexicographic comparison of the two strings mapped by it, without what it maps to zero, and zero exactly when they are equal. |
| HfsCompare.KeptIsMapped | base/file_path.cc:1048-1059 | What is read from a string is the string mapped by the function that the table encodes, through a subtable where the high byte has one, without zeros. |
| HfsCompare.TableEncodes | base/file_path.cc:1053-1055 | Every case table encodes such a function. |
| HfsCompare.CompareCases | base/file_path.cc:1068-1090 | With a table that has 97 for 65 and for 97, "A" and "a" compare as equal. |
| HfsCompare.ExactlyOneOrder | base/file_path.cc:1068-1090 | Of two names exactly one comes first unless their kept code points are equal. |
| HfsCompare.BeforeIsTransitive | base/file_path.cc:1068-1090 | The comparison is transitive. |
| HfsCompare.IgnorablesDoNotMatter | base/file_path.cc:1048-1059 | Leaving out an ignorable code point anywhere does not change what is compared. |
| IdMap.IDMap.Add | base/id_map.h:59-67 | The next id is used and advanced, and exactly one entry is inserted; the id then looks up to the pointer and every other id to what it did before. |
| IdMap.IDMap.AddWithID | base/id_map.h:73-78 | Exactly one entry is inserted, which Lookup finds, and size() grows by one. |
| IdMap.IDMap.Remove | base/id_map.h:80-94 | Outside iterations the entry is erased and, if owned, its pointer deleted; inside, only the id is noted; an unknown id changes nothing.  Lookup of the id is NULL after it outside iterations, and otherwise no Lookup changes. |
| IdMap.IDMap.Compact | base/id_map.h:190-197 | Exactly the removed entries go, the others stay in order, and every owned pointer that goes is deleted; Lookup of what has gone is NULL. |
| IdMap.IDMap.Destroy | base/id_map.h:47-53 | In owning mode everything ever added has been deleted exactly as often as it was added; otherwise nothing has. |
| IdMap.IDMap.SizeCountsKept | base/id_map.h:109-112 | size() is the number of keys that are not removed. |
| IdMap.IDMap.LookupFinds | base/id_map.h:101-107 | Lookup gives the pointer of any entry, also while its removal is pending, and NULL for an id that has none. |
| IdMap.Iterator.Advance | base/id_map.h:148-161 | The cursor goes to the next entry that is not removed at that time, and stays on the trail of such stops. |
| IdMap.Iterator.Destroy | base/id_map.h:127-131 | Only the last iterator to go compacts the map. |
| IdMap.KeysReturnedOnce | base/id_map.h:148-161 | No iterator returns a key twice, whatever is removed meanwhile. |
| IdMap.RemovedKeysNotReturned | base/id_map.h:155-161 | A key removed before the cursor gets there is never returned. |
| IdMap.KeptKeysReturned | base/id_map.h:148-161 | A key that is not removed when the cursor has passed it has been returned. |
| IdMap.RemoveUnderIterators | base/id_map.h:114-165 | A removal, and the end of a nested iterator, leave every entry in place and the outer iterator valid. |
| IdMap.Traverse | base/id_map.h:117-165 | A whole traversal returns the entries that are not removed, keys with their pointers, each once, also inside other iterations. |
| LinkedList.LinkNode.InsertBefore | base/linked_list.h:91-96 | The four pointers that change and the two neighbours' others that do not. |
| LinkedList.LinkNode.InsertAfter | base/linked_list.h:99-104 | The same on the other side. |
| LinkedList.LinkNode.RemoveFromList | base/linked_list.h:107-110 | The neighbours are joined, and the node keeps its own pointers. |
| LinkedList.LinkedList.Append | base/linked_list.h:150-152 | The ring spells the old sequence with the node at its end. |
| LinkedList.LinkedList.InsertBefore | base/linked_list.h:91-96 | On a well-formed ring: the ring stays well-formed and spells the sequence with the node inserted there, touching only the node and its two neighbours. |
| LinkedList.LinkedList.InsertAfter | base/linked_list.h:99-104 | The same after a node. |
| LinkedList.LinkedList.Remove | base/linked_list.h:107-110 | The ring spells the sequence without the node, which keeps pointing at its former neighbours. |
| LinkedList.LinkedList.Forwards | base/linked_list.h:154-164 | The documented loop from head() to end() sees exactly the sequence. |
| LinkedList.LinkedList.Backwards | base/linked_list.h:158-164 | The documented loop from tail() sees its reverse. |
| LinkedList.RemoveAndReinsert | base/linked_list.h:91-110 | RemoveFromList and then InsertBefore on the retained next pointer restores every pointer in the heap. |
| LinkedList.MoveToOther | base/linked_list.h:91-110 | Moving a node between two lists changes nothing else in either. |

## Left out

- System calls are operations on an abstract table or tree; a flag says whether they may fail, and a failing call changes nothing.  errno values other than a missing path, EINTR retries, file modes and open file handles are not modelled.
- ShuffleAnswers.DupAchievesIff: for at most sixteen duplicates.  One that is not remembered may have the number of a later destination and be overwritten instead of left open; for more than sixteen, only EarlyHitIsLost and, where no arc names an answer, AchievesExactly.
- Weak memory ordering, the Acquire, Release and Barrier variants and inline assembly: all memory is sequentially consistent.
- Termination of the retry and spin loops under an arbitrary scheduler: only that each can finish from every reachable state.
- OSAtomicAdd32 on the Mac, being one primitive step already.
- Creation from several threads in the destruction order, destructors that create lazy instances, and constructors that touch their own instance, which would wait for ever.
- At-exit managers are a sequence of stacks, not objects linked by next_manager_; callbacks other than OnExit and the lock are not modelled.
- LazyInstance's operator==, thread restrictions and annotations.
- FileEnumerator's patterns, its non-recursive mode, INCLUDE_DOT_DOT and the mode that follows symbolic links, where the traversal need not end.
- FileDelete.Delete: of a link that lies inside the directory it leads to, not which leaves go before the link, which is up to the order of the listings; links among the directories that lead to the path, and other processes changing the tree meanwhile, are not modelled.
- Paths in FileTree and FileDelete are sequences of names, not strings; FilePath.AppendThenSplit is the link between the two.
- CreateDirectory.CreateDirectory: what a path leads to on the disk is a parameter, of which it is required that DirName gives the directory in which mkdir would make a path; links and ".." that lead elsewhere are covered only so far.
- Windows: drive letters, both separators, command_line_string_, ParseFromString with its trimming, and quoting of the program.
- The treatment of two quotes in a row inside quotes that CommandLineToArgvW has but its documentation does not mention; WindowsStyleQuote never produces it.
- CommandLine.CommandLine.AppendArguments: not on the command line itself, where the source would not end.
- AppendArg, AppendArgNative and AppendArgs on POSIX, which push to argv_ only, PrependWrapper and the process-wide command line.
- IDMap: its int32 ids wrapping round, set_check_on_null_data, thread checks, and Add during an iteration, after which an iterator over a hash table is not valid.
- IdMap.IDMap.Add: the order of entries is up to the hash table, so the place of the new entry is arbitrary.
- LinkedList: the list and the position are ghost parameters, because a node does not know them; the value() casts are left out.
- The contents of the HFS case table, which is a parameter with its documented shape, the UTF-8 decoder, GetHFSDecomposedForm, and code points above 0xFFFF.
- InsertBeforeExtension, ReplaceExtension, MatchesExtension and the other easy members of FilePath.
- Callbacks and Bind, message loops, logging, CPU detection, event recording, version information, path providers and base64.
