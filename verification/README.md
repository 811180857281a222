# Lumiera foundation: a verified model

Lumiera is a video editing application; its foundation code holds a number of small algorithms and protocols that
everything else relies on. This project models the demanding ones and proves what they promise.

- **Interfaces** (`SimplePaths`, `InterfaceUsage`, `Interfaces`, `PluginRegistry`): interfaces open other interfaces
  when they are acquired, cyclic dependencies included. The reference counter of each interface turns out to be the
  number of simple dependency paths from the handles that are open, whatever the order of opening and closing.
- **AllocationCluster** (`AllocationLayout`, `AllocationCluster`): a bump allocator over extents of 256 bytes that
  finds the start of its current extent by arithmetic only.
- **IterChainSearch** (`ChainedSearch`, `IterChainSearch`): a search with backtracking on a stack of filters.
- **IncidenceCount** (`IncidenceTimeline`, `IncidenceIntegrals`, `IncidenceCount`): one sweep over the merged event
  logs of several threads, which integrates many sums at once.
- **Depend** (`DependAccess`, `DependHandles`, `DependInject`, `DependDelegates`): lazy creation of an instance with
  double checked locking, and the reconfiguration by services, mocks and delegation to the access point of a subclass.
- **SubsystemRunner** (`SubsystemStartup`, `StartupRepeats`, `SubsystemRunner`): startup in the order of dependencies,
  and winding down by termination signals.
- **Binary search** (`BinarySearch`) with a domain that is shifted, and **word lists** (`WordTokens`, `Wordlist`) that
  are edited as strings.

Objects that change in place are classes; their methods are proved against functions and predicates on plain values, and
what these promise is proved as lemmas. Ghost fields hold the history a property speaks of (open handles, live
allocations, calls of `start`).

Findings that are stated as theorems:

- `AllotMemory` does not end for every request within the limits that are enforced; `FitsEveryExtent` and
  `NeverAllotted` give the exact condition, `LimitsDoNotSuffice` an instance.
- `binarySearch` admits `lower == upper` but never ends then (`SearchEndsExactly`).
- A service that is shut down or replaced while a mock handle further in has it stashed gets published again, when it
  does not exist any more (`ShutdownUnderMock`). An access point that delegates to a subclass publishes an object that
  it does not own, and goes on to do so when that is gone (`DelegateDies`). `NeverDanglingExactly` shows that these, and
  replacing a service that is exposed, are the only ways to a dangling instance, whatever happens to objects owned
  elsewhere; `NeitherDanglingExactly` shows the same for two access points, one delegating to the other.
- Replacing in a word list skips blanks at the start even when these are no delimiters, so that it does not search the
  words of the list (`SearchesTheWords`, `BlankIsSkipped`); `ReplacedInWholeList` tells for which lists and words it
  replaces a word of the list all the same; two substitutes are run together when there are no delimiters
  (`EditedTokens`), and so is an added word (`AppendedTokens`).
- Unloading a plugin is safe only if none of its interface names leads to a used interface of another plugin
  (`PluginHost.Unload`; `UnloadMeetsForeignInterface` is a run where it does). It never ends if another plugin is
  registered by the same name (`SearchEndsExactly`).
- A dependency table is filled once and never renewed. What an interface not in use has recorded may lead to interfaces
  of a plugin unloaded since (`OpenAndClose`); and when that plugin is registered anew and the interface opened again,
  so does the table of an interface in use (`ReopenedAfterUnload`). One more open would walk it. Among interfaces in use
  only those with a table from before can have such entries (`TableIsInUse`, `RemovalKeepsTables`); all tables lead to
  registered interfaces exactly if those from before do (`TablesRegisteredExactly`).
- When the heap fails, a cluster that has extents is left such that discarding it starts at a wrong address and does not
  free the newest extent (`DiscardMissesNewest`).
- The check whether an allocation can be resized compares signed 32-bit numbers; `CheckIsExact` tells for which sizes it
  is right.
- A startup that fails can have called a subsystem several times, namely one that declines to start
  (`DecliningIsCalledAgain`). `StartedOnceExactly` tells from the prerequisites alone whether this can happen.
- The assertions in the evaluation of incidents demand less than properly bracketed logs (`CrossedIsCovered`);
  `Evaluate` has the exact condition.
- Creating a service within a handle while another instance is exposed fails, and yet the end of the handle closes the
  access to the other instance (`CreateWhileExposed`).

## Model

| member | source | states |
|---|---|---|
| SimplePaths.CountsSimplePaths | src/common/interface.c:114-150 | The number of arrivals of the non-cyclic walk at a node is the number of simple paths that lead to it, for every multigraph |
| SimplePaths.PathsAreSimple | src/common/interface.c:114-150 | The recursive enumeration of paths yields exactly the edge sequences that pass no node twice |
| SimplePaths.VisitsAllPermuted | src/common/interface.c:225-302 | The order in which interfaces are opened or closed does not matter for the counts |
| SimplePaths.VisitedIsClosed | src/common/interface.c:114-150 | Whatever a counted node depends on is counted as well |
| SimplePaths.VisitsAgree | src/common/interface.c:114-150 | Counts depend on the nodes that are reached only, not on what else is registered |
| InterfaceUsage.EnterSound | src/common/interface.c:189-194 | Counting one more use of a node and entering it keeps all other nodes settled; an acquired node has its dependencies in use |
| InterfaceUsage.AcquiringNext | src/common/interface.c:197-206 | While `acquire` opens one dependency after the other, what is counted so far plus what remains is the walk of the whole |
| InterfaceUsage.WalkingInUse | src/common/interface.c:114-150 | The walk over recorded dependencies meets only nodes that are in use |
| InterfaceUsage.CoveredInUse | src/common/interface.c:249-302 | A node to be closed has a positive count, and its dependencies are still in use and covered too |
| InterfaceUsage.CloseDrops | src/common/interface.c:270-301 | Closing the dependencies of a node and then dropping its own count subtracts exactly what opening it added |
| InterfaceUsage.BalancedIsSound | src/common/interface.c:153-222 | In a quiescent state the dependencies of each open node are in use, so that opening again is safe |
| InterfaceUsage.OpenBalances | src/common/interface.c:153-222 | Opening a node keeps every count equal to the arrivals from the outstanding handles |
| InterfaceUsage.HandleIsCovered | src/common/interface.c:225-302 | Any outstanding handle can be closed: each count involved is large enough |
| InterfaceUsage.CloseBalances | src/common/interface.c:225-302 | Closing any outstanding handle keeps every count exact |
| InterfaceUsage.ContinueBalances | src/common/interfaceregistry.c:112-198 | While the nodes in use stay and open what they did, all counts remain exact when others are replaced |
| InterfaceUsage.VisitsAreSimplePaths | src/common/interface.c:159-162 | The count of a node is the sum, over the handles, of the numbers of simple paths to it |
| InterfaceUsage.SameHandlesSameCounts | src/common/interface.c:225-302 | States with the same open handles have the same counts, so closing undoes opening in any order |
| Interfaces.InterfaceNode.PushDependency | src/common/interface.c:81-111 | Appends to the dependency table, which doubles on demand and stays terminated, also when the new memory holds garbage |
| Interfaces.InterfaceSystem.InProgress | src/common/interface.c:170-181 | The search of the intrusive list ends and finds exactly the nodes in progress |
| Interfaces.InterfaceSystem.OpenNode | src/common/interface.c:153-222 | Opening adds the arrivals of the walk to all counts, records the dependency when asked to, and restores stack and links; it ends for cyclic graphs |
| Interfaces.InterfaceSystem.OpenDependencies | src/common/interface.c:197-212 | `acquire` runs exactly on the first use, of a node not acquired; on later use its recorded dependencies are walked |
| Interfaces.InterfaceSystem.Acquire | src/common/interface.c:199-206 | After `acquire` the dependency table holds exactly what was opened, in order, and all of it is in use |
| Interfaces.InterfaceSystem.DepWalk | src/common/interface.c:114-150 | The walk counts up as an opening would, only acquired nodes, and changes nothing else |
| Interfaces.InterfaceSystem.CloseNode | src/common/interface.c:248-302 | Closing never meets a count of zero, subtracts what opening added, and restores stack and links |
| Interfaces.InterfaceSystem.Release | src/common/interface.c:277-284 | `release` runs exactly on the last use, of an acquired node with all dependencies in use |
| Interfaces.InterfaceSystem.CloseDependencies | src/common/interface.c:286-294 | While uses remain, the recorded dependencies are closed |
| Interfaces.InterfaceSystem.Open | src/common/interface.c:153-222 | Keeps the system valid: exact counts, acquired exactly when in use, plugin counts in step; adds one handle; no table from before is walked |
| Interfaces.InterfaceSystem.Close | src/common/interface.c:225-302 | The same for closing any one of the outstanding handles |
| Interfaces.InterfaceSystem.Run | src/common/interface.c:114-302 | After every run of opens and matched closes, over a set of nodes that never changes, each `refcnt` is the number of simple paths from the outstanding handles, provided that no node with a table from before is entered twice |
| Interfaces.InterfaceSystem.RefcntCountsSimplePaths | src/common/interface.c:159-162 | What `Run` states, for every valid state |
| Interfaces.InterfaceSystem.AllClosed | src/common/interface.c:248-302 | With everything closed all interface and plugin counts are zero |
| Interfaces.UseCountShift | src/common/interface.c:189-191 | A change of one count shifts the sum over the interfaces of its plugin by as much |
| Interfaces.InterfaceSystem.PluginInc | src/common/plugin.c:171-175 | A plugin counts the uses of all its interfaces, counting up |
| Interfaces.InterfaceSystem.PluginDec | src/common/plugin.c:178-183 | The same for counting down; the count is positive before |
| Interfaces.InterfaceSystem.UnusedPlugin | src/common/plugin.c:304-305 | An unused plugin has no interface in use |
| Interfaces.InterfaceSystem.UnusedInterfaces | src/common/plugin.c:171-183 | A plugin without any interface in use is not in use |
| Interfaces.InterfaceSystem.TableIsInUse | src/common/interface.c:118-121 | The recorded dependencies of an interface in use are in use, and none is of an unused plugin, unless the table is from before a change of the registry |
| Interfaces.InterfaceSystem.OpenAndClose | src/common/interface.c:197-206 | After the last close nothing is in use and every plugin can be unloaded, while the table still leads to all that was opened |
| Interfaces.InterfaceSystem.Continue | src/common/interfaceregistry.c:112-198 | Unused nodes have gone and new ones come, with handles still open: the system is valid, and exactly the tables that do not list what is opened now count as from before |
| Interfaces.UseCountKept | src/common/plugin.c:171-183 | The use count of a plugin depends on its interfaces in use only |
| PluginRegistry.PluginHost.RegisterPlugin | src/common/plugin.c:259-293 | Registers a plugin and its interfaces, each new key with its node; taken names and keys are kept; with a taken name or an interface version other than 0 nothing is registered for it and a failure reported, else only an error pending before is; with new nodes, tables still lead to registered interfaces |
| PluginRegistry.PluginHost.BulkRegister | src/common/interfaceregistry.c:132-147 | Each new key leads to its node and taken keys are kept |
| PluginRegistry.PluginHost.BulkRemove | src/common/interfaceregistry.c:167-198 | Removes the listed interfaces; the requirement `refcnt == 0` holds exactly if none of them is in use |
| PluginRegistry.PluginHost.Unload | src/common/plugin.c:296-334 | An unused plugin is removed with its interfaces; the requirement is met exactly if no listed key leads to a used interface of another plugin; it gets stuck exactly if the search for it in the registry never ends; when safe, tables still lead to registered interfaces exactly if no remaining one that is unused or from before has an entry among those removed |
| PluginRegistry.SearchEndsExactly | src/lib/psplay.c:340-355 | The search for a plugin to be removed ends exactly if its name is not registered or leads to it |
| PluginRegistry.PluginHost.RemovalKeepsTables | src/common/interfaceregistry.c:167-198 | After unused interfaces were removed, no interface in use has an entry for one of them unless its table is from before |
| PluginRegistry.PluginHost.TablesRegisteredExactly | src/common/interface.c:203 | When all that is opened is registered, all tables lead to registered interfaces exactly if those from before do |
| PluginRegistry.PluginHost.Open | src/common/interface.c:153-222 | Opening keeps that up, whatever is recorded on the way |
| PluginRegistry.ReopenedAfterUnload | src/common/interface.c:197-212 | A run after which an interface in use has a table that leads to an interface that is gone, and one more open would walk it |
| PluginRegistry.UnloadMeetsForeignInterface | src/common/plugin.c:317-325 | A run where unloading an unused plugin meets an interface in use |
| AllocationLayout.PaddingIsLeast | src/lib/allocation-cluster.hpp:100-110 | The padding is the least that aligns, as the C++ standard demands of `std::align` (section 23.10.5 of ISO/IEC 14882:2017) |
| AllocationLayout.LimitsDoNotSuffice | src/lib/allocation-cluster.cpp:262-278 | 240 bytes aligned at 128 pass both limits but fit no extent at a multiple of 128 |
| AllocationLayout.FitsEveryExtent | src/lib/allocation-cluster.hpp:171-179 | A request fits every fresh extent exactly if it leaves room for the worst padding |
| AllocationLayout.WorstAtExtent | src/lib/allocation-cluster.hpp:171-179 | Extents at multiples of 256 need the worst padding |
| AllocationCluster.FailingSupply | src/lib/allocation-cluster.hpp:171-179 | For any other request the heap can hand out any number of blocks that all miss it |
| AllocationCluster.NeverAllotted | src/lib/allocation-cluster.hpp:171-179 | A request can use up any number of blocks in vain, exactly if a fresh extent may lack room for the worst padding |
| AllocationLayout.PlaceBlock | src/lib/allocation-cluster.hpp:100-110 | A block placed from `pos` on is disjoint from all live ones; all stay aligned and within the storage of one extent |
| AllocationLayout.PlaceExtent | src/lib/allocation-cluster.cpp:189-195 | A new extent leaves all live blocks well placed |
| AllocationLayout.ResizeLast | src/lib/allocation-cluster.hpp:282-305 | The block that ends at `pos` can take another size within the extent, and all live blocks stay disjoint |
| AllocationCluster.AllocationCluster.StorageAllot | src/lib/allocation-cluster.hpp:100-110 | Allots exactly if padding and size fit the reserve, at the first aligned position, and goes on right behind; else changes nothing. What is used up grows by padding and size |
| AllocationCluster.AllocationCluster.AddBlock | src/lib/allocation-cluster.cpp:126-131 | Links a new extent in front of the true head of the list and leaves all allocations well placed |
| AllocationCluster.AllocationCluster.AllotMemory | src/lib/allocation-cluster.hpp:171-179 | Refused exactly beyond the limits; else allotted well placed, at the first aligned position in the current extent if that has room, and of the first fresh extent that does otherwise; allotment goes on right behind; with room for the worst padding, after one new extent at most; when the heap fails, the current extent has been closed |
| AllocationCluster.AllocationCluster.AllotTwo | src/lib/allocation-cluster.hpp:100-179 | Of two requests the second comes right behind the first with the padding it needs, and takes no block, exactly if it fits in the extent of the first |
| AllocationCluster.AllocationCluster.LastIsAdjustable | src/lib/allocation-cluster.hpp:290-317 | What was allotted last can be resized, up to the end of its extent exactly |
| AllocationCluster.AllocationCluster.DiscardMissesNewest | src/lib/allocation-cluster.cpp:133-138 | After a failure of the heap the step back leads below the newest extent, which is not freed even if that happens to be an older extent |
| AllocationCluster.AllocationCluster.BlockStartIsNewestExtent | src/lib/allocation-cluster.cpp:170-178 | `pos + rest - 256` is the newest extent, in every valid state |
| AllocationCluster.AllocationCluster.CloseCurrentBlock | src/lib/allocation-cluster.cpp:180-187 | The position becomes the head of the list of extents |
| AllocationCluster.AllocationCluster.AdjustableIsNewest | src/lib/allocation-cluster.hpp:290-317 | An allocation that may be adjusted lies in the current extent and is the last one there |
| AllocationCluster.AllocationCluster.DoAdjust | src/lib/allocation-cluster.hpp:282-305 | For sizes below 2^31: changes the size of the last allocation only, and reversibly; refused exactly for others or without reserve |
| AllocationCluster.CheckIsExact | src/lib/allocation-cluster.hpp:290-311 | The check by signed numbers agrees with the sizes exactly if the new size fits, or its lower 32 bits are below 2^31 and do not fit |
| AllocationCluster.AllocationCluster.ReallocInPlace | src/lib/allocation-cluster.hpp:367-390 | For sizes below 2^31: the buffer takes exactly the requested size, also when it shrinks and the difference wraps around; done exactly if it is the last allocation and the reserve suffices; it stays the last one |
| AllocationCluster.AllocationCluster.NumExtents | src/lib/allocation-cluster.cpp:284-288 | Counts the extents by walking the list |
| AllocationCluster.AllocationCluster.NumBytes | src/lib/allocation-cluster.cpp:290-302 | What is used up of all extents, older ones in full, which grows by padding and size with each allotment; it bounds the sum of all live sizes |
| AllocationCluster.AllocationCluster.RegisterDestructor | src/lib/allocation-cluster.cpp:140-144 | The destructor of a live frame is put in front of those on the current extent, which is the extent of the frame or a newer one |
| AllocationCluster.TeardownDestroysAll | src/lib/allocation-cluster.cpp:133-138 | Discarding calls the destructors on all extents, each as often as it is registered |
| AllocationCluster.TeardownIsSafe | src/lib/allocation-cluster.cpp:133-138 | When a destructor is called the extent with its frame has not been freed |
| AllocationCluster.AllocationCluster.DiscardAll | src/lib/allocation-cluster.cpp:133-138 | Destroys and frees extent by extent, newest first, and leaves an empty cluster |
| AllocationCluster.AllocationCluster.DiscardIsComplete | src/lib/allocation-cluster.cpp:133-144 | What is destroyed is exactly what was registered, no frame twice |
| AllocationCluster.AllocationCluster.DiscardIsSafe | src/lib/allocation-cluster.cpp:133-144 | In every valid state discarding destroys each frame while its extent exists |
| ChainedSearch.Filter.Pulled | src/lib/iter-chain-search.hpp:92-98 | The filter goes to the first element approved, not before its position |
| ChainedSearch.PushKeepsPending | src/lib/iter-chain-search.hpp:195-200 | Opening a child search leaves the solutions still to come as they are |
| ChainedSearch.DropKeepsPending | src/lib/iter-explorer.hpp:687-695 | So does dropping an exhausted child and moving its parent on |
| ChainedSearch.StackIsSolution | src/lib/iter-chain-search.hpp:188-203 | With all levels in place the stack is the first solution, and a step at the top removes just that one |
| ChainedSearch.PushTakesWork | src/lib/iter-chain-search.hpp:195-202 | The backtracking loop ends: each expansion takes away work, for arbitrary steps on a finite source |
| ChainedSearch.FromRefines | src/lib/iter-chain-search.hpp:228-245 | Searching with one more step is refining the solutions found without it |
| ChainedSearch.MatchesAreAll | src/lib/iter-chain-search.hpp:140-147 | The matches found by trial are exactly the non-decreasing sequences of positions that satisfy the conditions in turn |
| ChainedSearch.MatchesAreOrdered | src/lib/iter-chain-search.hpp:140-147 | They come in strictly increasing lexicographic order, so each only once |
| ChainedSearch.SearchFindsMatches | src/lib/iter-chain-search.hpp:140-147 | The backtracking search visits these matches in this order |
| IterChainSearch.ChainSearch.ExpandChildren | src/lib/iter-explorer.hpp:584-598 | Pushes a copy of the current filter and retains the parent |
| IterChainSearch.ChainSearch.DropExhaustedChildren | src/lib/iter-explorer.hpp:687-695 | Pops until a valid child is on top, without losing a solution |
| IterChainSearch.ChainSearch.IterNext | src/lib/iter-chain-search.hpp:189-203 | Moves on by exactly one solution, and establishes the next one or exhaustion |
| IterChainSearch.ChainSearch.AddStep | src/lib/iter-chain-search.hpp:228-245 | From the solutions so far, goes to those refined by the step; the first step enables the filter; no effect when exhausted |
| IterChainSearch.ChainSearch.Search | src/lib/iter-chain-search.hpp:253-264 | The same for a predicate |
| IterChainSearch.ChainSearch.ClearFilter | src/lib/iter-chain-search.hpp:282-289 | Passes through the rest of the source from the current position on |
| IterChainSearch.PassThrough | src/lib/iter-chain-search.hpp:178-182 | A disabled filter yields every position |
| IterChainSearch.SearchAll | src/lib/iter-chain-search.hpp:140-147 | For every finite source and sequence of conditions: all matches, nothing else, each once, in lexicographic order |
| IncidenceTimeline.SortedOrdered | src/lib/incidence-count.hpp:222-224 | The merged timeline is ordered by time |
| IncidenceTimeline.SortKeepsOrdered | src/lib/incidence-count.hpp:222-224 | Stable sorting keeps the order of events of any selection already ordered |
| IncidenceTimeline.SortIsStable | src/lib/incidence-count.hpp:222-224 | Events at the same time stay in the order in which they come |
| IncidenceTimeline.SortMerges | src/lib/incidence-count.hpp:217-224 | The timeline holds exactly the log of each thread, in its own order, also for equal times |
| IncidenceTimeline.TotalNonNegative | src/lib/incidence-count.hpp:226-275 | The active counter never goes negative and ends at zero |
| IncidenceTimeline.CaseNonNegative | src/lib/incidence-count.hpp:226-275 | The same for each case |
| IncidenceTimeline.ThreadNonNegative | src/lib/incidence-count.hpp:226-275 | The same for each thread |
| IncidenceTimeline.LeaveWasActive | src/lib/incidence-count.hpp:256-264 | The three assertions hold before each decrement |
| IncidenceTimeline.CoveredNonNegative | src/lib/incidence-count.hpp:256-273 | If the assertions hold for a timeline, no counter ever is negative |
| IncidenceTimeline.BracketedIsCovered | src/lib/incidence-count.hpp:256-264 | Properly bracketed logs meet all assertions, and all counters end at zero |
| IncidenceTimeline.CrossedIsCovered | src/lib/incidence-count.hpp:217-264 | Two logs that are not properly bracketed, for whose sorted timeline all assertions hold |
| IncidenceIntegrals.CaseTimesAddUp | src/lib/incidence-count.hpp:246-248 | The times of all cases add up to the cumulated time |
| IncidenceIntegrals.ThreadTimesAddUp | src/lib/incidence-count.hpp:249-254 | The times of all threads add up to the integral of the concurrency |
| IncidenceIntegrals.ConcurrencyTimesCover | src/lib/incidence-count.hpp:255-277 | The times at each degree of concurrency add up to the covered time |
| IncidenceIntegrals.ConcurrencyTimesWeighted | src/lib/incidence-count.hpp:254-255 | Weighted by their degree they add up to the integral of the concurrency |
| IncidenceIntegrals.IntegralByParts | src/lib/incidence-count.hpp:246 | The integral of activity is leave times less enter times, plus what is still active |
| IncidenceIntegrals.TimeByParts | src/lib/incidence-count.hpp:246-248 | The same for the whole timeline |
| IncidenceIntegrals.BalancedTime | src/lib/incidence-count.hpp:246-248 | With everything left, active time is leave times less enter times |
| IncidenceIntegrals.BusyInOwnLog | src/lib/incidence-count.hpp:249-251 | Events of other threads cut the time of a thread into slices that add up to what its own events amount to |
| IncidenceIntegrals.BusyIsOwn | src/lib/incidence-count.hpp:249-251 | With everything left in the end, the time of a thread is that of its own log |
| IncidenceIntegrals.ConcurrencyBound | src/lib/incidence-count.hpp:252-254 | The concurrency and its integral stay within the number of threads |
| IncidenceCount.BookSlice | src/lib/incidence-count.hpp:245-255 | Booking a slice brings every partial sum to its integral up to the event |
| IncidenceCount.Adjust | src/lib/incidence-count.hpp:256-273 | The assertions hold exactly if the event is covered; then every counter stands for the events up to and including it |
| IncidenceCount.EntersAndLeaves | src/lib/incidence-count.hpp:265-273 | Of the events of each case and thread, and of all, half the excess over what is open are activations |
| IncidenceCount.EntersAddUp | src/lib/incidence-count.hpp:270-272 | The activations of all cases, and those of all threads, add up to the activations |
| IncidenceCount.IncidenceCount.EnsureSequence | src/lib/incidence-count.hpp:104-114 | Makes room for the log of a thread and keeps all logs |
| IncidenceCount.IncidenceCount.AddEntry | src/lib/incidence-count.hpp:116-126 | Appends to the log of the thread only; the logs stay ordered by time |
| IncidenceCount.IncidenceCount.Sweep | src/lib/incidence-count.hpp:226-275 | Gets through exactly if every leave is covered, and then has computed all counters and integrals |
| IncidenceCount.ResultIsConsistent | src/lib/incidence-count.hpp:276-283 | The result put together from the sweep is consistent |
| IncidenceCount.BracketedIsEvaluated | src/lib/incidence-count.hpp:206-284 | For properly bracketed logs all assertions hold, half of the events of each case, of each thread and of all are activations, times of cases are leave times less enter times, and the time of a thread is that of its own log |
| IncidenceCount.IncidenceCount.Evaluate | src/lib/incidence-count.hpp:206-284 | For all logs: the assertions hold exactly if every leave is covered and the number of events is even; then the activations of cases and threads add up to all, and tell the events of each; the times of cases, threads and degrees add up to cumulated, active and covered time, and average times covered time is active time, at most the number of threads times covered time |
| DependAccess.StepInv | src/lib/depend.hpp:306-326 | Every step of any thread keeps the invariant of the access protocol |
| DependAccess.OneInstanceForAll | src/lib/depend.hpp:306-326 | For any number of threads and any interleaving at most one object is built, all that return get this one, it stays published, and the factory is disabled |
| DependAccess.AccessEnds | src/lib/depend.hpp:306-326 | In every run an access ends only by returning the instance published by then, or by a build that throws while there is none |
| DependAccess.AccessGetsThrough | src/lib/depend.hpp:309-326 | From every reachable state a thread that is inside, or next to get the lock, gets through by its own steps, with the published instance exactly if there is one or its build succeeds; the lock is free again |
| DependAccess.AccessWithoutLock | src/lib/depend.hpp:309-310 | With an instance published an access returns it without the lock |
| DependAccess.AccessBuilds | src/lib/depend.hpp:315-325 | All that has changed when a thread has built the object, published it and returned |
| DependAccess.DisabledStaysClosed | src/lib/depend.hpp:170-178 | A disabled factory without instance never yields one |
| DependAccess.FailedBuildLeavesNoTrace | src/lib/depend.hpp:313-323 | After a build that throws nobody is inside and nothing built, and any thread waiting can try again with the same factory |
| DependHandles.BuildOk | src/lib/depend.hpp:318-322 | Building keeps the configuration and all handles in order, and the mock belongs to its handle |
| DependHandles.AccessedByThread | src/lib/depend.hpp:306-326 | The access in one piece leaves the configuration that the steps of a thread lead to |
| DependHandles.DelegateOk | src/lib/depend-inject.hpp:384-413 | Publishing what the subclass yields keeps all in order, while that exists |
| DependHandles.ElsewhereOk | src/lib/depend-inject.hpp:384-413 | Objects of other types may come and go, unless one goes away that is exposed or stashed |
| DependHandles.RestoreOk | src/lib/depend-inject.hpp:427-433 | The stashed configuration is in order after the mock is gone: nothing it refers to went with the mock |
| DependHandles.MockComesAndGoes | src/lib/depend-inject.hpp:280-311 | A mock built on access belongs to its handle alone, and goes away with it without a trace |
| DependHandles.ShutdownOk | src/lib/depend-inject.hpp:447-453 | Unless a mock handle further in has stashed the service of any handle, nothing refers to it after its shutdown |
| DependHandles.StepOk | src/lib/depend-inject.hpp:201-341 | Every safe move keeps the invariant, with handles addressed at any level |
| DependHandles.SafeExactly | src/lib/depend-inject.hpp:201-341 | A move is safe exactly if the published instance stays null or live from then on until all handles are gone |
| DependHandles.DeadIsRestored | src/lib/depend-inject.hpp:427-433 | An object that is stashed and gone gets published in the end, whatever is done until then |
| DependHandles.NeverDanglingExactly | src/lib/depend-inject.hpp:201-341 | For every use of services, idle ones, mocks and delegation that ends without handles, among objects of other types that come and go: the published instance is null or live at all times exactly if no stashed service is shut down or replaced, none exposed is replaced, and no foreign object is published that is gone or goes away while published or stashed |
| DependHandles.ShutdownUnderMock | src/lib/depend-inject.hpp:427-433 | A run that publishes a service which does not exist any more |
| DependHandles.CreateUnderMock | src/lib/depend-inject.hpp:230-237 | A service created in place of a pending mock is exposed, is not exposed after the mock handle has gone, and yet its end closes the access to what was restored |
| DependHandles.StaysClosed | src/lib/depend-inject.hpp:447-453 | Closed access stays closed through a run exactly if there is no other configuration, no new service, no mock handle and none that restores an open access |
| DependHandles.KeepsClosedExactly | src/lib/depend-inject.hpp:201-341 | The same for each single move |
| DependHandles.EvolvedThrough | src/lib/depend-inject.hpp:201-341 | Within a scope the handles from before remain, and nothing owned is lost from before but what a handle addressed had owned |
| DependHandles.MockScope | src/lib/depend-inject.hpp:280-311 | Whatever is done within the scope of a mock handle, safe or not: configuration and instance are exactly as before afterwards |
| DependHandles.ServiceScope | src/lib/depend-inject.hpp:201-248 | The end of a service handle inhibits access, unless its service was shut down before |
| DependInject.Dependency.Access | src/lib/depend.hpp:306-326 | Fails exactly without instance when disabled or not buildable, and then changes nothing; else returns the published instance, which exists in a valid state; when delegated, it publishes what the subclass yields and owns nothing more |
| DependInject.Dependency.UseSingleton | src/lib/depend-inject.hpp:384-413 | Nothing to do for the same type without a function; else refused exactly once an instance is exposed |
| DependInject.Dependency.AccessConfigured | src/lib/depend-inject.hpp:384-413 | What an access yields after a singleton was configured: by a function for the same type a new object, owned and to be deleted; by delegation what the subclass yields, not owned; for the default the same as without |
| DependInject.Dependency.ConfiguredLife | src/lib/depend-inject.hpp:384-413 | With the factory goes what it has built, but not what a subclass has yielded |
| DependInject.Dependency.NotYetStarted | src/lib/depend-inject.hpp:216-223 | An idle handle changes nothing else |
| DependInject.Dependency.CreateInstance | src/lib/depend-inject.hpp:230-237 | For a handle at any level: exposes the new service exactly if none is exposed; otherwise the handle owns it nevertheless |
| DependInject.Dependency.Shutdown | src/lib/depend-inject.hpp:239-247 | For a handle at any level: its service is gone, and access closed and inhibited |
| DependInject.Dependency.OpenService | src/lib/depend-inject.hpp:208-214 | Creates and exposes a service, or leaves everything as it was |
| DependInject.Dependency.OpenLocal | src/lib/depend-inject.hpp:416-425 | Stashes the whole configuration and waits for the mock to be built |
| DependInject.Dependency.AccessMocked | src/lib/depend-inject.hpp:280-311 | An access under a mock handle builds the mock, which is gone when everything is as before |
| DependInject.Dependency.CloseLast | src/lib/depend-inject.hpp:225-311 | A service handle shuts down; a mock handle restores exactly the stashed configuration, and its mock is gone |
| DependInject.Dependency.Execute | src/lib/depend-inject.hpp:201-341 | Performs any moves, and refines the functions of which the results above speak |
| DependHandles.NextDeleted | src/lib/depend.hpp:180-195 | What is still to be deleted never includes what was deleted before |
| DependInject.Dependency.DestroyFactory | src/lib/depend.hpp:138-142 | The deleter chain runs oldest first, deletes each managed object while it exists, and resets the instance |
| DependInject.Dependency.CreateWhileExposed | src/lib/depend-inject.hpp:230-247 | A failed attempt to create a service leads to the access to another, live instance being closed |
| DependDelegates.TurnLinked | src/lib/depend-inject.hpp:384-413 | Each move at either access point is a move of its own kind or one of foreign objects for the other, and what they own stays apart |
| DependDelegates.Projected | src/lib/depend-inject.hpp:384-413 | A joint run of both access points is a run of either, among objects of the other that come and go |
| DependDelegates.NeitherDanglingExactly | src/lib/depend-inject.hpp:201-413 | For every joint use that ends without handles: both published instances are null or live at all times exactly if each move is safe by itself and nothing of the subclass goes away that the base type exposes or has stashed |
| DependDelegates.DelegateDies | src/lib/depend-inject.hpp:397 | Whenever the base type delegates while a mock of the subclass is exposed: it publishes the mock, and still does when that is gone |
| DependDelegates.MockGetsDelegated | src/lib/depend-inject.hpp:391-413 | Safe moves lead to such a state from the start |
| SubsystemStartup.NeedsUp | src/common/subsystem-runner.hpp:188-192 | In a supported state all transitive prerequisites of a running subsystem run |
| SubsystemStartup.OrderedAppend | src/common/subsystem-runner.hpp:180-184 | A subsystem started last keeps the managed ones free of duplicates and in topological order |
| SubsystemStartup.ProgressMore | src/common/subsystem-runner.hpp:177 | From one prerequisite to the next: each subsystem is started once and after what it needs |
| SubsystemStartup.ResultOf | src/common/subsystem-runner.hpp:177-192 | The same for a subsystem started after all its prerequisites |
| SubsystemStartup.StartupCalls | src/common/subsystem-runner.hpp:162-192 | Whatever the outcome: only subsystems needed are called, again only one that declines; a failure is due to the last one called, which is asked to shut down exactly if it came up or declined without a prerequisite |
| SubsystemStartup.StartedOnceAtMost | src/common/subsystem-runner.hpp:162-192 | Also when it fails, a startup calls each subsystem once at most, if none of those needed declines |
| StartupRepeats.StartupSettles | src/common/subsystem-runner.hpp:162-192 | After a startup that went well what runs is supported, and the subsystem runs or has declined with its prerequisites running |
| StartupRepeats.StartupOnce | src/common/subsystem-runner.hpp:162-192 | Without a repeated prerequisite no startup calls anybody twice, whatever runs before |
| StartupRepeats.NeedCalls | src/common/subsystem-runner.hpp:177-192 | If just one subsystem declines, each startup that needs it calls it |
| StartupRepeats.CalledTwice | src/common/subsystem-runner.hpp:177-192 | A repeated prerequisite is called twice if it is the only one to decline |
| StartupRepeats.StartedOnceExactly | src/common/subsystem-runner.hpp:162-192 | Nobody is ever called twice, for all behaviours, exactly if no subsystem has a prerequisite that none of those before it needs but one of those after it does |
| SubsystemStartup.DecliningIsCalledAgain | src/common/subsystem-runner.hpp:177-192 | A run where a subsystem that declines is called twice, before the failure |
| SubsystemRunner.Runner.StartItself | src/common/subsystem-runner.hpp:178-192 | Each outcome of one `start`, with what is managed and requested after it |
| SubsystemRunner.Runner.TriggerStartup | src/common/subsystem-runner.hpp:162-192 | Does what the recursive startup function says, also on failure. Ends for acyclic prerequisites; on normal return prerequisites run, exactly the newly running were started, once each and in order; succeeds whenever all that is needed can run |
| SubsystemRunner.Runner.MaybeRun | src/common/subsystem-runner.hpp:126-133 | Runs the subsystem exactly if it runs already, or is to start and everything needed can run; then all transitive prerequisites run |
| SubsystemRunner.WithoutCutsOut | src/common/subsystem-runner.hpp:204 | Removal takes exactly the one entry and keeps the order |
| SubsystemRunner.RemainingAre | src/common/subsystem-runner.hpp:194-207 | Whatever the order of signals, exactly those without signal remain |
| SubsystemRunner.Runner.ShutdownAll | src/common/subsystem-runner.hpp:135-140 | Each managed subsystem gets one request, in order |
| SubsystemRunner.Runner.TriggerEmergency | src/common/subsystem-runner.hpp:142-147 | The emergency flag is never reset |
| SubsystemRunner.Runner.SigTerm | src/common/subsystem-runner.hpp:194-207 | One managed subsystem less if it was managed; all remaining ones are asked to shut down; a problem is an emergency |
| SubsystemRunner.Runner.WindDown | src/common/subsystem-runner.hpp:194-207 | For any signals in any order: emergency exactly if there was one or a problem was reported; after the first signal whatever remains was asked to shut down; once all requests are answered nothing remains |
| SubsystemRunner.Runner.Wait | src/common/subsystem-runner.hpp:149-157 | Returns exactly if all managed subsystems signalled, or in an emergency, and then tells whether there is one |
| BinarySearch.BreaksNearThreshold | src/lib/binary-search.hpp:46-53 | A breaking point found lies within half of epsilon of the threshold |
| BinarySearch.ShiftsOverlap | src/lib/binary-search.hpp:72-110 | A shift expands the domain to seven fifths, with the old end a fourteenth of the way inside |
| BinarySearch.UpMoves | src/lib/binary-search.hpp:84-92 | Each shift moves the upper end on by at least the initial length, and the domains overlap |
| BinarySearch.DownMoves | src/lib/binary-search.hpp:102-110 | The same downwards |
| BinarySearch.UpEndsExactly | src/lib/binary-search.hpp:79-94 | Shifting up ends exactly if there is nothing to do, or the domain extends and the probe succeeds somewhere |
| BinarySearch.HalvingEndsExactly | src/lib/binary-search.hpp:60-68 | The halving of a domain that extends ends exactly if epsilon is positive |
| BinarySearch.SearchEndsExactly | src/lib/binary-search.hpp:54-112 | All three loops end exactly if `lower < upper`, the probe fails somewhere and succeeds somewhere, and epsilon is positive |
| BinarySearch.HalvedMore | src/lib/binary-search.hpp:60-68 | Each halving is needed and brings the loop closer to its end |
| BinarySearch.Inner | src/lib/binary-search.hpp:54-70 | Finds a breaking point between the ends, also for probes that are not monotone, with the least number of halvings |
| BinarySearch.Upper | src/lib/binary-search.hpp:79-94 | Shifts up only as long as the upper end fails, and finds a breaking point there |
| BinarySearch.Search | src/lib/binary-search.hpp:97-112 | Finds the threshold of a monotone probe up to half of epsilon; shifts down only while the lower end succeeds, and then never up |
| WordTokens.Separated | src/common/config-wordlist.c:46-59 | A delimiter separates the words before from those after |
| WordTokens.CutKeepsTokens | src/common/config-wordlist.c:102 | Cutting off the front keeps the words exactly if only delimiters are cut off |
| WordTokens.TokensTotal | src/common/config-wordlist.c:46-59 | The words hold exactly the characters that are no delimiters |
| WordTokens.ScanStep | src/common/config-wordlist.c:74-81 | Each step of a scan finds the word, or goes on having seen one more word, or there is nothing left |
| WordTokens.EditedTokens | src/common/config-wordlist.c:117-127 | Editing the text replaces the word by the words of both substitutes, exactly unless both are given and there is no delimiter |
| WordTokens.EditedText | src/common/config-wordlist.c:117-127 | Character by character: all parts are kept in their order, with the first delimiter, if any, between those that are not empty |
| Wordlist.SpelledOut | src/common/config-wordlist.c:117-127 | All corner cases of separators amount to joining the parts one by one, where empty parts do not count |
| Wordlist.Config.GetNth | src/common/config-wordlist.c:37-61 | Returns the word at the index, or nothing |
| Wordlist.Config.Find | src/common/config-wordlist.c:64-84 | Returns the index of the first occurrence, or -1 if there is none; the empty word is taken for found behind trailing delimiters |
| Wordlist.Config.Replace | src/common/config-wordlist.c:87-139 | Replaces the first occurrence among the words searched and keeps all other text; stored exactly when returned |
| Wordlist.ReplacedInWholeList | src/common/config-wordlist.c:87-139 | Whatever the substitutes, the first occurrence in the whole list is replaced and nothing else, exactly if the blanks skipped are delimiters, or else end in one or the word found is a later one, and that is the first of its kind in the whole list |
| Wordlist.SkippedText | src/common/config-wordlist.c:102 | What is skipped at the start are all blanks, tabs, commas and semicolons |
| Wordlist.SearchesTheWords | src/common/config-wordlist.c:102 | The words searched are those of the list exactly if the blanks skipped are delimiters |
| Wordlist.BlankIsSkipped | src/common/config-wordlist.c:102 | With delimiter `:` the first word of ` a:b` is not among the words searched |
| Wordlist.AppendedTokens | src/common/config-wordlist.c:165-168 | The list has the added word as its last one, exactly unless there are words before and no delimiter |
| Wordlist.Config.Add | src/common/config-wordlist.c:142-178 | Appends exactly when absent, behind the first delimiter exactly if there are words and delimiters, and returns what is stored |

## Left out

Interfaces and plugins:

- Between two changes of the registry the set of interfaces is fixed; a change leaves interfaces in use and what these
  open alone. Opening an interface that is not registered, the unfinished
  branches of `lumiera_interface_open`, loading and discovery are not modelled.
- Interfaces without `acquire` or `release` function are taken as opening or closing nothing. `acquire` never closes,
  `release` never opens and closes what `acquire` opened; both directions share the link field, so that other use would
  break the lists.
- Each call is atomic, as it holds the recursive mutex. Counters are unbounded.
- Interfaces of an unloaded plugin stay in the model as objects. The registry trees are maps; the order of keys by
  `strcmp` is left out.
- Interfaces.InterfaceSystem.Run: speaks of quiescent states; what holds while calls are nested is stated by the methods
  it is made of.
- Interfaces.InterfaceSystem.Open: requires that no interface with a table from before is entered a second time; what
  the walk over such a table does to freed memory is not modelled. The same holds for `Run` and `OpenAndClose`.
- PluginRegistry.PluginHost.Unload: the search for the plugin starts from scratch, not from where an earlier one ended.

AllocationCluster:

- Addresses are unbounded. Blocks from the heap are given as a
  list that may run out, with each block aligned at 16.
- AllocationCluster.AllocationCluster.AllotMemory: when the heap fails with extents in use, the contract states the
  state left behind (`Failed`) instead of `Valid()`; what is read at the wrong address is not modelled.
- AllocationCluster.AllocationCluster.DoAdjust: sizes from 2^31 on pass or fail the check by their lower bits; what is
  done to the position then is not modelled.
- AllocationCluster.AllocationCluster.ReallocInPlace: covers expansion in place for sizes below 2^31; moving to another
  allocation is not part of this model.

IterChainSearch:

- The comment at src/lib/iter-explorer.hpp:521 says that expanding consumes the element; the code retains it and moves the
  parent on when the child is exhausted (src/lib/iter-explorer.hpp:693). The model follows the code.
- Filters only go forward; steps are arbitrary functions from filters to filters. Filters that change direction are left out.

IncidenceCount:

- Times are real numbers instead of floating point; identifiers are unbounded. The logs are given per thread; concurrent
  growth of the recording is not modelled. An average over no time is `None` where the code divides zero by zero.

Depend:

- Sequentially consistent interleaving; the zombie check always passes; objects are never reused.
- A function given for a subclass is installed at the access point of the subclass, which is a move of its own there.
  Destruction of the factories is not among the moves; `DestroyFactory` treats one of them by itself. Objects that are
  leaked when a managed singleton is built while a mock handle is in use just stay.
- Moving a handle object to another owner is left out; handles are addressed by their level.

SubsystemRunner:

- Each subsystem has a fixed behaviour when started, and none terminates during startup. Options and logging are left out.
- SubsystemRunner.Runner.Wait: the time limit in an emergency is a possible return at any time.

Binary search and word lists:

- BinarySearch.Search: real numbers instead of floating point, and probes without side effects.
- The configuration is a map from keys to strings, and storing may fail. Strings hold no NUL; indices are unbounded.
