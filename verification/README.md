# QBox in Dafny

A model of the parts of QBox that carry its timing, memory and elaboration
logic, and proofs about them. Every `.dfy` file belongs to one project;
`dafny verify dfyconfig.toml` checks it.

| files | part of QBox |
|---|---|
| `mcips*.dfy` | MCIPS: several vCPUs of one QEMU instance share one QEMU time, elect an active CPU and stay inside a window agreed with SystemC; the plugin and its SystemC window together |
| `sync_window.dfy` | two `sc_sync_window` objects that keep two SystemC kernels within one quantum |
| `plugin_shutdown.dfy`, `job_queue.dfy` | the plugin shutdown handshake and jobs run on the SystemC thread |
| `exclusive*.dfy` | the exclusive monitor: locks of exclusive loads against stores and direct memory |
| `dmi_*.dfy`, `addrtr.dfy` | the DMI converter: flat accesses, pieces, cache; address translation |
| `bank*.dfy` | register banks of any dimension: addressing, masks, bus and direct access |
| `planner.dfy` | the order in which a container constructs its modules |
| `alias_*.dfy` | socket aliases of the container builder: cycles, order, binds, parameter migration |
| `basics.dfy`, `ordered.dfy` | shared types, arithmetic, iteration over ordered keys |

Components whose steps may interleave are state machines: a step function over
values, an invariant, and theorems over every run. The objects beside them are
classes whose methods are shown to perform those steps. Loops of the source are
loops here, shown to compute a function or to meet a property stated without
them.

## What the environment is assumed to do

- MCIPS: the quantum is positive, window ends come from SystemC time and are at
  least one quantum, paused CPUs execute nothing, every `vcpu_init` precedes the
  first window, a block has at most `maxTb` instructions, and each callback is
  one step, since one mutex guards it. Time is a real number of seconds.
- Sync windows: a kernel's time stands still while it is suspended or has an
  update to serve, and does not jump over a due event. The step event is an
  observer event (systemc-components/common/include/observer_event.h): it does
  not make time advance, so a side advances when its kernel has something else
  to do, or to a sweep.
- Register banks: a grant has the address asked for and agrees with where memory
  is; different addresses of a register are different bytes.
- Exclusive monitor: a transaction has at least one byte and does not wrap.
- DMI converter: grants have the address asked for, agree with where memory is,
  and are pairwise equal or disjoint; none is all of the address space. The bus
  behind performs an accepted access as a flat one and nothing when it refuses.
- Planner: whether an object outside the container exists does not change while
  planning. A fatal report ends the operation; it is the result `Fatal`.

## Where the code falls short of its own description

- Watchdog bumps can carry QEMU time more than a quantum past a paused CPU;
  from then on no window resumes anyone (`McipsDeaf.DeafRun`,
  `McipsProofs.DeafIff`).
- The exclusive monitor's class comment says that a load by an initiator with a
  lock releases it first. The code looks for overlapping regions before that, so
  a load that overlaps the initiator's own lock changes nothing
  (`ExclusiveSpec.ReloadMovesLockIff`). The model follows the code.
- A `shutdown_bridge` call that finds the handle dead returns while callback
  bodies may still run, unless the counter is zero (`PluginShutdown.LoserIsSafeIff`).
- The DMI converter advances only a local pointer when there are at least as many
  byte enables as data bytes, so later pieces reuse the first enables
  (`DmiConverter.SecondPieceForgets`, `DmiConverter.WriteBehindByteBlocks`). It is
  right for all blocks exactly when the enables are all alike
  (`DmiPieces.LongEnablesIff`), for given blocks exactly when `DmiPieces.BlocksDecide`
  says so.
- The assertion in `check_dmi` compares the end of a grant with its start plus the
  register's offset plus its size, so a grant of exactly the register's bytes stops
  the simulation (`BankPort.Port.CheckDmi`).

## Model

| member | source | states |
|---|---|---|
| `McipsProofs.NoWedge` | qemu-components/common/include/mcips-plugin.h:343-486 | in every run without watchdog bumps, either some CPU runs, or the active CPU is the slowest awake one, QEMU time is strictly past the SystemC window and SystemC was told that time, and exactly the windows that reach QEMU time set the active CPU running |
| `McipsProofs.WindowResumesIff` | qemu-components/common/include/mcips-plugin.h:451-486 | from any state in which all awake CPUs wait, a window sets the active CPU running if and only if it reaches QEMU time and QEMU time is at most one quantum past the slowest CPU |
| `McipsProofs.DeafIff` | qemu-components/common/include/mcips-plugin.h:99-118 | with watchdog bumps: a waiting state ignores every window if and only if QEMU time is more than a quantum past the slowest awake CPU |
| `McipsDeaf.DeafRun` | qemu-components/common/include/mcips-plugin.h:99-118 | a reachable run, with watchdog bumps, that ends in such a deaf state |
| `McipsProofs.SkewBound` | qemu-components/common/include/mcips-plugin.h:343-370 | in every run an awake CPU other than the active one is ahead of QEMU time by at most (quota - 1 + largest block) / its rate, hence by at most the nanoseconds of a quantum plus the largest block, in instructions; the base time of a running one is never ahead |
| `McipsProofs.TimeNeverGoesBack` | qemu-components/common/include/mcips-plugin.h:583-774 | over every run QEMU time and the nanosecond clock never decrease, across hand-overs, truncation, watchdog bumps and the switch to SystemC time |
| `McipsProofs.ClockStep` | qemu-components/common/include/mcips-plugin.h:720-774 | no single step lowers the value the clock query returns, although it adds two separately truncated parts |
| `McipsProofs.HandOverTime` | qemu-components/common/include/mcips-plugin.h:583-640 | handing the active role over keeps QEMU time exactly; the clock, which was the sum of two truncated parts, is the truncation of that time afterwards, and not lower |
| `McipsProofs.StepDone` | qemu-components/common/include/mcips-plugin.h:489-707 | every step, from any state that satisfies the invariants, keeps them, keeps every CPU within its lead and lowers neither QEMU time nor the clock |
| `McipsSystemc.AlwaysServed` | qemu-components/common/include/mcips-plugin.h:421-486 | plugin and SystemC window together: from every reachable state of a bump-free run in which nobody runs although a CPU is awake, finitely many SystemC events alone set the active CPU running |
| `McipsSystemc.StepKeepsInv` | systemc-components/common/include/sync_window.h:91-171 | every event of the two together keeps the plugin invariant and that SystemC has the last window the plugin sent, in force or on its way, cannot sleep through its end, and has announced where it is suspended |
| `McipsSystemc.NextEvent` | systemc-components/common/include/sync_window.h:91-147 | while the plugin waits, SystemC has an event that resumes it or brings it strictly closer |
| `McipsSystemc.AnnounceServes` | qemu-components/common/include/mcips-plugin.h:451-486 | an announcement resumes a waiting plugin if it reaches QEMU time and otherwise leaves it waiting with the same window |
| `McipsEffects.TimeIsAccounted` | qemu-components/common/include/mcips-plugin.h:489-774 | in every run QEMU time is exactly the instructions the active CPUs executed at their rates, plus the watchdog quanta, plus what SystemC was ahead at a lone wake-up |
| `McipsEffects.ClockIsTime` | qemu-components/common/include/mcips-plugin.h:720-774 | with an active CPU the clock is QEMU time short of less than two nanoseconds; with none it is the later of QEMU and SystemC time in whole nanoseconds, and zero before the first one |
| `McipsEffects.WakesUp` | qemu-components/common/include/mcips-plugin.h:650-707 | a CPU that wakes up starts at QEMU time and runs; QEMU time moves only when nobody was awake, and then up to SystemC time; a paused one runs again exactly when it may; nobody else is touched |
| `McipsEffects.EndsQuota` | qemu-components/common/include/mcips-plugin.h:517-540 | the end of a quota moves no time, clears what is in flight, pauses the caller exactly when it may not run, resumes exactly the paused CPUs that may, and tells SystemC QEMU time |
| `McipsEffects.GoesIdle` | qemu-components/common/include/mcips-plugin.h:583-640 | going idle keeps QEMU time; the active CPU hands over to the first awake one, which starts at QEMU time and runs; another CPU loses what it has in flight; with nobody awake SystemC gets an open window |
| `McipsEffects.TakesWindow` | qemu-components/common/include/mcips-plugin.h:451-486 | a window changes its end and, if it may now run, sets the paused active CPU running; nothing else |
| `McipsEffects.Ticks` | qemu-components/common/include/mcips-plugin.h:99-118 | the watchdog moves QEMU time and the active CPU by a quantum exactly when time stood still |
| `McipsEffects.Executes` | qemu-components/common/include/mcips-plugin.h:545-580 | n instructions take n / rate of the CPU time, and of QEMU time on the active CPU |
| `McipsEffects.MayGoIff` | qemu-components/common/include/mcips-plugin.h:375-386 | the threshold test says exactly: inside the window and at most a quantum past every awake CPU, or, for the others, not past QEMU time |
| `McipsProofs.StateInvariant` | qemu-components/common/include/mcips-plugin.h:328-340 | in every run there is no active CPU exactly when all are idle, the window is attached exactly when there is one, the active CPU is at QEMU time, idle CPUs have nothing in flight, and an awake CPU always finds an active one |
| `McipsProofs.StepKeepsInv` | qemu-components/common/include/mcips-plugin.h:489-707 | every callback, from any state that satisfies the invariant, leads to one that does |
| `McipsProofs.RebalanceRestoresInv` | qemu-components/common/include/mcips-plugin.h:395-418 | rebalancing repairs the one CPU that may be ahead after its quota or a hand-over, and changes no time |
| `McipsProofs.RebalanceWaits` | qemu-components/common/include/mcips-plugin.h:395-418 | after rebalancing, a state in which nobody runs is past the threshold, has sent the window that starts at QEMU time, and has the slowest CPU active |
| `McipsPlugin.Plugin.constructor` | qemu-components/common/include/mcips-plugin.h:152-226 | a valid plugin: all CPUs idle at time 0, window attached |
| `McipsPlugin.Plugin.QemuTimeNow` | qemu-components/common/include/mcips-plugin.h:295-302 | base time plus what the active CPU has executed since |
| `McipsPlugin.Plugin.SlowestNonIdleCpu` | qemu-components/common/include/mcips-plugin.h:305-321 | the loop finds the least current time over awake CPUs, none when all are idle |
| `McipsPlugin.Plugin.SelectActiveVcpu` | qemu-components/common/include/mcips-plugin.h:328-340 | the loop elects the first awake CPU, none when all are idle |
| `McipsPlugin.Plugin.PauseIfAhead` | qemu-components/common/include/mcips-plugin.h:343-354 | the state afterwards is the model step, CPU by CPU |
| `McipsPlugin.Plugin.ResumeIfBehind` | qemu-components/common/include/mcips-plugin.h:357-370 | the loop over paused CPUs resumes exactly those that may run |
| `McipsPlugin.Plugin.ComputeThreshold` | qemu-components/common/include/mcips-plugin.h:381-386 | the earlier of the window end and the slowest awake CPU plus one quantum |
| `McipsPlugin.Plugin.DetachSyncWindow` | qemu-components/common/include/mcips-plugin.h:227-235 | the window becomes open-ended |
| `McipsPlugin.Plugin.SetSystemcWindow` | qemu-components/common/include/mcips-plugin.h:424-442 | SystemC is told QEMU time and one quantum |
| `McipsPlugin.Plugin.RebalanceAndSync` | qemu-components/common/include/mcips-plugin.h:395-418 | pause, resume and send, or detach without active CPU, as the model step does |
| `McipsPlugin.Plugin.ReceiveWindowCb` | qemu-components/common/include/mcips-plugin.h:451-486 | keeps the plugin valid, nobody ahead of its lead, time and clock not lower; a waiting plugin sets its active CPU running if and only if the window and the slowest CPU allow it |
| `McipsPlugin.Plugin.VcpuInit` | qemu-components/common/include/mcips-plugin.h:489-510 | the same validity; the CPU starts at time 0 with its configured rate, or a billion instructions per second, and becomes active if none is |
| `McipsPlugin.Plugin.CpuEndDeltaQuota` | qemu-components/common/include/mcips-plugin.h:517-540 | the same validity, and exactly the effect of McipsEffects.EndsQuota; there is an active CPU, as the source asserts |
| `McipsPlugin.Plugin.AccountDelta` | qemu-components/common/include/mcips-plugin.h:517-540 | only the active CPU moves QEMU time |
| `McipsPlugin.Plugin.VcpuIdle` | qemu-components/common/include/mcips-plugin.h:583-640 | the same validity; the caller is idle with nothing in flight, and there is an active CPU and an attached window exactly when some CPU is awake |
| `McipsPlugin.Plugin.GoIdle` | qemu-components/common/include/mcips-plugin.h:583-640 | the part of it before rebalancing |
| `McipsPlugin.Plugin.HandOver` | qemu-components/common/include/mcips-plugin.h:583-640 | the next active CPU starts at QEMU time and runs, or the window is detached |
| `McipsPlugin.Plugin.VcpuResume` | qemu-components/common/include/mcips-plugin.h:650-707 | the same validity, and exactly the effect of McipsEffects.WakesUp on the fields |
| `McipsPlugin.Plugin.IdleTick` | qemu-components/common/include/mcips-plugin.h:99-118 | the same validity; QEMU time grows by one quantum exactly when a CPU is active and it has not moved since the last tick |
| `McipsPlugin.Plugin.GetQemuClock` | qemu-components/common/include/mcips-plugin.h:720-774 | exactly the reading of McipsEffects.ClockIsTime, without changing the state |
| `ExclusiveSpec.ExclusiveAtomicity` | systemc-components/exclusive_monitor/include/exclusive-monitor.h:152-302 | over whole runs, an exclusive store to r by id succeeds if and only if id took the lock on exactly r by an earlier load, since which nobody wrote a byte of r by transport or direct access and id took no other lock |
| `ExclusiveSpec.DmiNeverBypassesALock` | systemc-components/exclusive_monitor/include/exclusive-monitor.h:306-365 | in every reachable state locks are disjoint and no window held by an initiator meets a lock |
| `ExclusiveSpec.StepKeepsInv` | systemc-components/exclusive_monitor/include/exclusive-monitor.h:118-150 | every transaction, grant and invalidation keeps that |
| `ExclusiveSpec.LockStep` | systemc-components/exclusive_monitor/include/exclusive-monitor.h:152-207 | exactly how one event changes whether id holds r |
| `ExclusiveSpec.OverlappingLoadIsIgnored` | systemc-components/exclusive_monitor/include/exclusive-monitor.h:152-169 | an exclusive load that overlaps any lock changes nothing |
| `ExclusiveSpec.ReloadMovesLockIff` | systemc-components/exclusive_monitor/include/exclusive-monitor.h:35-36 | the documented "unlock, then lock" of a reload happens if and only if the range is free of locks or already the own lock |
| `ExclusiveSpec.NarrowReloadFails` | systemc-components/exclusive_monitor/include/exclusive-monitor.h:152-169 | a reload of half the own lock leaves the old lock, so the store that follows fails |
| `ExclusiveMonitor.Monitor.constructor` | systemc-components/exclusive_monitor/include/exclusive-monitor.h:376-383 | no locks, both maps empty |
| `ExclusiveMonitor.Monitor.FindRegion` | systemc-components/exclusive_monitor/include/exclusive-monitor.h:87-116 | the iterator search finds a region exactly when the range meets one |
| `ExclusiveMonitor.Monitor.LockRegion` | systemc-components/exclusive_monitor/include/exclusive-monitor.h:120-130 | the lock is added to both maps and the range is invalidated |
| `ExclusiveMonitor.Monitor.UnlockRegion` | systemc-components/exclusive_monitor/include/exclusive-monitor.h:132-139 | exactly that lock is gone and the maps still agree |
| `ExclusiveMonitor.Monitor.UnlockRegionById` | systemc-components/exclusive_monitor/include/exclusive-monitor.h:141-150 | the initiator has no lock afterwards and nothing else changes |
| `ExclusiveMonitor.Monitor.HandleExclusiveLoad` | systemc-components/exclusive_monitor/include/exclusive-monitor.h:152-169 | takes the lock when the range is free, otherwise changes nothing; invalidates exactly when it locks |
| `ExclusiveMonitor.Monitor.HandleExclusiveStore` | systemc-components/exclusive_monitor/include/exclusive-monitor.h:171-197 | succeeds if and only if the initiator holds exactly this range, and then releases it |
| `ExclusiveMonitor.Monitor.HandleRegularStore` | systemc-components/exclusive_monitor/include/exclusive-monitor.h:199-207 | the loop removes exactly the locks the store meets |
| `ExclusiveMonitor.Monitor.BTransport` | systemc-components/exclusive_monitor/include/exclusive-monitor.h:214-302 | each transaction is a step of the specification, is withheld only as a failed exclusive store, invalidates exactly its own bytes and exactly when it takes a lock, and drops the DMI hint exactly on reads that are exclusive or meet a lock |
| `ExclusiveMonitor.Monitor.GetDirectMemPtr` | systemc-components/exclusive_monitor/include/exclusive-monitor.h:306-365 | the largest lock-free part of the offered window around the address, with each address at the same host byte; refused if and only if the address is locked |
| `ExclusiveMonitor.Monitor.LocksAreOk` | systemc-components/exclusive_monitor/include/exclusive-monitor.h:118-150 | agreement of the two maps makes the locks disjoint |
| `ExclusiveMonitor.Monitor.GrantIsLargest` | systemc-components/exclusive_monitor/include/exclusive-monitor.h:306-365 | a window clipped by its neighbouring regions is the largest free one |
| `ExclusiveMonitor.AddRegion` | systemc-components/exclusive_monitor/include/exclusive-monitor.h:120-130 | locking a free range keeps the maps in one-to-one agreement and disjoint |
| `ExclusiveMonitor.RemoveRegion` | systemc-components/exclusive_monitor/include/exclusive-monitor.h:132-139 | unlocking keeps it too |
| `SyncWindowModel.BoundedSkew` | systemc-components/common/include/sync_window.h:91-171 | in every run of two bound windows neither side is more than one quantum ahead |
| `SyncWindowModel.NoLostWindow` | systemc-components/common/include/sync_window.h:131-171 | the last accepted window is in force or an update is pending |
| `SyncWindowModel.NeverBothStuck` | systemc-components/common/include/sync_window.h:91-147 | the two sides are never both suspended with no update under way |
| `SyncWindowModel.AlwaysEnabled` | systemc-components/common/include/sync_window.h:91-147 | in every reachable state an update, a step or a sweep is due on some side, or some side is free to advance |
| `SyncWindowModel.LaggardIsSwept` | systemc-components/common/include/sync_window.h:118-147 | while one side is suspended and the other is behind it, there is an event that needs no activity in either kernel |
| `SyncWindowModel.StepKeepsInv` | systemc-components/common/include/sync_window.h:91-171 | every event keeps the pair invariant behind these |
| `SyncWindow.SyncWindow.constructor` | systemc-components/common/include/sync_window.h:224-238 | initial window of one quantum and a step due at once |
| `SyncWindow.SyncWindow.AsyncSetWindow` | systemc-components/common/include/sync_window.h:157-171 | stores the window and asks for an update exactly when it differs from the current one |
| `SyncWindow.SyncWindow.Update` | systemc-components/common/include/sync_window.h:131-147 | the pair stays valid; the last accepted window is in force and the stepper is woken |
| `SyncWindow.SyncWindow.StepHelper` | systemc-components/common/include/sync_window.h:91-115 | the pair stays valid; this side is suspended if and only if it is at the end of its window, and then the other side knows how far it came; otherwise the other side is untouched |
| `SyncWindow.SyncWindow.SweepHelper` | systemc-components/common/include/sync_window.h:120-128 | the pair stays valid and the other side learns of the time of this one |
| `SyncWindow.SyncWindow.InStep` | systemc-components/common/include/sync_window.h:91-171 | what validity means: neither object a quantum ahead, no window lost, not both stuck |
| `PluginShutdown.ShutdownIsSafe` | qemu-components/common/include/libqemu-plugin.h:98-136 | for any threads and any interleaving: once the shutdown call that flipped alive has returned, no callback body runs and none starts; the counter is always the number of threads in flight |
| `PluginShutdown.StepKeepsInv` | qemu-components/common/include/libqemu-plugin.h:98-136 | each atomic access keeps the counter exact, lets bodies run only while counted, and keeps the drained state drained |
| `PluginShutdown.ReturnedForever` | qemu-components/common/include/libqemu-plugin.h:98-106 | the shutdown stays complete |
| `PluginShutdown.ShutdownReturns` | qemu-components/common/include/libqemu-plugin.h:98-136 | from every reachable state with a draining shutdown call, steps of the threads in flight and one last look at the counter make it return |
| `PluginShutdown.LastPoll` | qemu-components/common/include/libqemu-plugin.h:103-105 | with nobody counted the next look at the counter returns |
| `PluginShutdown.NoBodyStartsOnceDead` | qemu-components/common/include/libqemu-plugin.h:127-136 | a body that runs after alive was cleared was running when it was cleared |
| `PluginShutdown.LoserIsSafeIff` | qemu-components/common/include/libqemu-plugin.h:98-106 | for every counter value r: a shutdown call that lost the exchange at counter r may conclude, in every run, that no body runs from then on if and only if r is zero |
| `PluginShutdown.LoserReturnsEarly` | qemu-components/common/include/libqemu-plugin.h:98-106 | for every r > 0 a run in which such a call returns at counter r while a body is running |
| `PluginShutdown.ZeroIsSafe` | qemu-components/common/include/libqemu-plugin.h:98-136 | once the handle is dead and the counter zero, no body runs in the rest of the run |
| `PluginShutdown.CrowdRun` | qemu-components/common/include/libqemu-plugin.h:127-136 | any number of threads can be in their bodies at once |
| `JobQueueModel.FifoOnce` | systemc-components/common/include/runonsysc.h:102-133 | over any interleaving the jobs begun are exactly those taken, in the order of acceptance, each once and without gaps; the queue holds the rest in order |
| `JobQueueModel.EveryJobRuns` | systemc-components/common/include/runonsysc.h:102-133 | while the queue runs, handler steps alone lead from every reachable state to one where a given accepted job has been run and its waiter released, with true unless the body threw |
| `JobQueueModel.CancelledOnlyAtEnd` | systemc-components/common/include/runonsysc.h:143-159 | no job is cancelled before cancel_all |
| `JobQueueModel.EndOfSimulation` | systemc-components/common/include/runonsysc.h:194-200 | wherever the handler waits, stopping and cancelling is possible and ends the queue |
| `JobQueueModel.WaiterGetsResult` | systemc-components/common/include/runonsysc.h:47-79 | a job the handler is through with ran its body to the end; its waiter, unless cancelled, is released exactly then, with true exactly when the body completed and with the exception exactly when it threw; a call that returns true always means a completed body |
| `JobQueueModel.NobodyLeftWaiting` | systemc-components/common/include/runonsysc.h:143-200 | after end_of_simulation the queue is empty for good, every accepted job's waiter is released, nothing more is accepted |
| `JobQueueModel.StepKeepsInv` | systemc-components/common/include/runonsysc.h:47-256 | every step keeps the queue, the handler and the promises consistent |
| `JobQueueModel.EndedForever` | systemc-components/common/include/runonsysc.h:194-200 | the end is final |
| `RunOnSysc.Core.constructor` | systemc-components/common/include/runonsysc.h:87-95 | valid, running, nothing queued |
| `RunOnSysc.Core.Push` | systemc-components/common/include/runonsysc.h:214-236 | keeps the queue valid; accepts exactly while running, at the tail, with a number above all that wait |
| `RunOnSysc.Core.PopFront` | systemc-components/common/include/runonsysc.h:102-118 | keeps it valid; takes the head, which has never run and is newer than everything that has |
| `RunOnSysc.Core.CancelAll` | systemc-components/common/include/runonsysc.h:143-159 | keeps it valid; the queue is empty and no accepted job has a waiter any more |
| `Planner.PriorityConstruct` | systemc-components/common/include/module_factory_container.h:788-971 | a plan is returned if and only if dependencies are acyclic, resolvable and never point to a later group; it is a permutation in priority order with each module after its dependencies; every module of any set that can be ordered with its router binds comes after what it binds to |
| `Planner.PlanGroup` | systemc-components/common/include/module_factory_container.h:812-966 | one group: bind order is given up at most once and only when it blocks everything, failure means a set of modules blocking each other, and the pass cap never ends the loop |
| `Planner.Pass` | systemc-components/common/include/module_factory_container.h:903-931 | one pass looks at each module once, in order, and constructs exactly those that are ready when their turn comes; the rest stays in order |
| `Planner.ComputeDependsOnMe` | systemc-components/common/include/module_factory_container.h:824-901 | the map holds exactly the bind and argument dependencies among modules still to do |
| `Planner.AddSource` | systemc-components/common/include/module_factory_container.h:824-869 | adds one source to exactly its targets |
| `Planner.BindDepsReady` | systemc-components/common/include/module_factory_container.h:909-921 | ready if and only if everything required of the module is done |
| `Planner.GroupByPriority` | systemc-components/common/include/module_factory_container.h:806-810 | each group lists exactly the modules of its priority, in order |
| `Planner.ResolvableNeverStuck` | systemc-components/common/include/module_factory_container.h:933-966 | a resolvable configuration has no set of modules that block each other in any group |
| `Planner.OrderlyNeverStuck` | systemc-components/common/include/module_factory_container.h:933-966 | modules that can be ordered with their binds are never among those for which binds are given up |
| `Planner.PlanGivesRank` | systemc-components/common/include/module_factory_container.h:788-971 | conversely, positions in a plan are a rank |
| `AliasGraph.GetSocketRedirectCycle` | systemc-components/container_builder/src/container_builder.cc:326-367 | empty if and only if the redirect graph has no cycle; otherwise the reported path is a cycle |
| `AliasGraph.WalkFrom` | systemc-components/container_builder/src/container_builder.cc:337-361 | one walk ends in a real cycle or in a duplicate-free chain that leaves the unfinished aliases |
| `AliasGraph.SourceCounts` | systemc-components/container_builder/src/container_builder.cc:101-111 | each counter is the number of aliases redirecting to its alias |
| `AliasGraph.Emit` | systemc-components/container_builder/src/container_builder.cc:122-131 | one emission decrements the counter of the target and makes it ready at zero |
| `AliasGraph.RedirectOrder` | systemc-components/container_builder/src/container_builder.cc:101-132 | without cycles every alias is emitted exactly once, before the alias it redirects to |
| `AliasGraph.OrderAliases` | systemc-components/container_builder/src/container_builder.cc:95-132 | an order exists if and only if there is no cycle |
| `AliasGraph.SomeAliasReady` | systemc-components/container_builder/src/container_builder.cc:120-132 | without cycles the ready set empties only when all aliases are out |
| `AliasGraph.RootedMeansAcyclic` | systemc-components/container_builder/src/container_builder.cc:326-367 | completed walks leave no room for a cycle |
| `AliasChase.ChaseIsComplete` | systemc-components/container_builder/src/container_builder.cc:299-313 | following the order once takes a name all the way: the result is under no alias |
| `AliasChase.AliasResolution` | systemc-components/container_builder/src/container_builder.cc:299-313 | after migration the internal names are exactly the chased names of the given parameters, and each has the value of exactly the parameter that wins it: the last alias that moves one of two and not the other decides, and an aliased parameter beats an internal one |
| `AliasChase.MigrationTraced` | systemc-components/container_builder/src/container_builder.cc:303-313 | the same after every prefix of the order, for names under no alias migrated so far |
| `AliasChase.AliasedNames` | systemc-components/container_builder/src/container_builder.cc:303-313 | names under an alias end up with exactly what the aliases before it brought there, by the same rule of who wins, and no parameter disappears |
| `AliasChase.WinnerIsUnique` | systemc-components/container_builder/src/container_builder.cc:303-313 | at most one parameter wins a name |
| `AliasChase.BeatsIsStrict` | systemc-components/container_builder/src/container_builder.cc:303-313 | two parameters never beat each other, and only one given under an alias beats another |
| `AliasBinds.BindsResolved` | systemc-components/container_builder/src/container_builder.cc:199-257 | no simple bind is left naming an alias; each is followed to the end and every other value is kept |
| `AliasBinds.RewriteBinds` | systemc-components/container_builder/src/container_builder.cc:183-257 | index-driven rewriting equals scanning every simple bind parameter for every alias |
| `AliasBinds.RewriteAlias` | systemc-components/container_builder/src/container_builder.cc:224-257 | the same for one alias, keeping the index exact |
| `AliasBinds.RewriteEntry` | systemc-components/container_builder/src/container_builder.cc:141-152 | rewriting one parameter keeps the index exact |
| `AliasBinds.ReplaceIndex` | systemc-components/container_builder/src/container_builder.cc:141-152 | moves exactly one entry and leaves no empty list |
| `AliasBinds.BuildIndex` | systemc-components/container_builder/src/container_builder.cc:183-197 | lists exactly the simple bind parameters under their values |
| `AliasBinds.Matching` | systemc-components/container_builder/src/container_builder.cc:218-233 | finds exactly the parameters that name the alias in any of its four spellings |
| `AliasMigrate.AddToCache` | systemc-components/container_builder/src/container_builder.cc:170-178 | a later value replaces the earlier one in its place |
| `AliasMigrate.CacheAliasParam` | systemc-components/container_builder/src/container_builder.cc:154-179 | only the parameter's own alias learns of it, and not the alias being migrated |
| `AliasMigrate.FillCaches` | systemc-components/container_builder/src/container_builder.cc:299-301 | the caches hold exactly what is under each alias |
| `AliasMigrate.Store` | systemc-components/container_builder/src/container_builder.cc:307-312 | writing through keeps the caches exact for aliases still to come |
| `AliasMigrate.MigrateAlias` | systemc-components/container_builder/src/container_builder.cc:303-313 | copying from the cache of one alias equals copying from the broker |
| `AliasMigrate.MigrateParams` | systemc-components/container_builder/src/container_builder.cc:299-313 | the whole cached migration equals the direct one |
| `AliasMigrate.RedirectSocketParams` | systemc-components/container_builder/src/container_builder.cc:89-313 | fatal if and only if cyclic; otherwise every preset reaches its fully chased name, and every internal name has the resolved value of a preset chased to it, naming no alias when it is a simple bind |
| `AliasMigrate.EndToEnd` | systemc-components/container_builder/src/container_builder.cc:199-313 | resolving, then migrating, traced back to the preset |
| `BankLayout.AddressRoundTrip` | systemc-components/common/include/registers.h:1280-1347 | for any number of dimensions, byte d of element i lies in the span and decodes to i, its indices and d |
| `BankLayout.ElementsDisjoint` | systemc-components/common/include/registers.h:1041-1057 | distinct elements share no byte |
| `BankLayout.OffsetsIncrease` | systemc-components/common/include/registers.h:1280-1292 | elements lie in memory in the order of their numbers, none before the end of the one before |
| `BankLayout.SpanIsExact` | systemc-components/common/include/registers.h:974-983 | the first element starts at 0 and the last one ends exactly at the span |
| `BankLayout.ElementByteIff` | systemc-components/common/include/registers.h:1312-1322 | the bytes that decode in range are exactly the bytes of elements |
| `BankLayout.LayoutOkIff` | systemc-components/common/include/registers.h:1041-1057 | the per-dimension stride checks amount to the recursive soundness of the layout |
| `BankLayout.CheckLayout` | systemc-components/common/include/registers.h:1041-1057 | accepts if and only if every stride covers the span of the dimensions inside it |
| `BankLayout.ConstructNd` | systemc-components/common/include/registers.h:1107-1124 | accepts exactly the sound layouts, over all counts and strides |
| `BankLayout.Construct1d` | systemc-components/common/include/registers.h:1092-1105 | accepts if and only if elements do not overlap; a count of zero is accepted |
| `BankLayout.InnerSpan` | systemc-components/common/include/registers.h:1044-1047 | the inner loop computes the span of the inner dimensions |
| `BankLayout.NothingExceedsSpan` | systemc-components/common/include/registers.h:974-1039 | the span bounds the number of elements, every divisor and the end of every element, so that all fit in 64 bits when it does |
| `BankLayout.ComputeTotalSpan` | systemc-components/common/include/registers.h:974-983 | the bytes from the first to the last element; zero without elements or with mismatched dimensions |
| `BankLayout.RowMajorDiv` | systemc-components/common/include/registers.h:1038-1039 | each divisor is the number of elements inside its dimension |
| `BankLayout.ByteOffsetFor` | systemc-components/common/include/registers.h:1267-1278 | fatal if and only if the indices do not fit |
| `BankLayout.ByteOffsetForFlat` | systemc-components/common/include/registers.h:1280-1292 | fatal if and only if the number is past the last element; otherwise the element's offset |
| `BankLayout.DivideAll` | systemc-components/common/include/registers.h:1005-1016 | the dividing loop yields the element number exactly when all indices are in range |
| `BankLayout.TryFlatIndex` | systemc-components/common/include/registers.h:1005-1016 | finds an element if and only if the byte belongs to one, and then that one |
| `BankLayout.DecodedElement` | systemc-components/common/include/registers.h:1324-1347 | what decoding returns is the element that has the byte |
| `BankLayout.Claims` | systemc-components/common/include/router_if.h:68-82 | the loop accepts exactly the addresses that decode in range |
| `BankLayout.BankClaims` | systemc-components/common/include/router_if.h:68-82 | the router claims exactly the bytes of elements, and its one-dimensional form agrees |
| `RegisterBank.Bank.Set` | systemc-components/common/include/registers.h:1176-1184 | bulk write, whatever the dimensions: each bit of an addressed element is new where its mask, spelled out from the configuration, has a one and old elsewhere; no other byte changes; fatal exactly past the end |
| `BankEffect.AfterSetIs` | systemc-components/common/include/registers.h:375-398 | the byte-wise merge has exactly that bit-wise effect |
| `BankEffect.BitsDecide` | systemc-components/common/include/registers.h:391-397 | new bits under the mask and old bits elsewhere is exactly what the merge computes |
| `BankEffect.MaskableIff` | systemc-components/common/include/registers.h:1299-1310 | a masked write is accepted exactly when its bytes are exactly those of one element, or of several in a one-dimensional bank |
| `RegisterBank.Bank.SetOneDim` | systemc-components/common/include/registers.h:311-373 | through the host pointer, by one contiguous transaction or by one per element: the same effect, and no host byte outside the register changes |
| `RegisterBank.Bank.SetByPointer` | systemc-components/common/include/registers.h:316-327 | one more element through the host pointer, at its multiple of the stride |
| `RegisterBank.Bank.SetByTransaction` | systemc-components/common/include/registers.h:343-372 | one more element by a transaction at its bus address |
| `BankPort.Port.CheckDmi` | systemc-components/common/include/registers.h:231-251 | from a coherent grant to a pointer to the register; stops if and only if the grant ends before its own start plus offset plus size, which is more than covering the register |
| `BankPort.Port.WriteHost` | systemc-components/common/include/registers.h:253-327 | a copy through that pointer changes exactly the bytes a transaction at the same place would |
| `BankPort.Port.WriteBus` | systemc-components/common/include/registers.h:328-342 | a transaction changes exactly its bytes of the register |
| `BankPort.Port.Get` | systemc-components/common/include/registers.h:418-437 | reading gives the bytes the bus sees, either way |
| `BankPort.Port.Put` | systemc-components/common/include/registers.h:440-479 | storing changes exactly these bytes, either way |
| `RegisterBank.Bank.SetContiguous` | systemc-components/common/include/registers.h:328-342 | one transaction with all elements back to back |
| `BankSpec.ContiguousIsSet` | systemc-components/common/include/registers.h:328-342 | writing elements back to back equals setting them one by one |
| `RegisterBank.Bank.SetBytes` | systemc-components/common/include/registers.h:440-479 | at any raw offset: bits under the mask the offset selects are new, all others old, no other byte changed |
| `RegisterBank.Bank.MaskForByteOffset` | systemc-components/common/include/registers.h:1253-1264 | the mask of the element that has the byte, the bank mask when none does |
| `BankSpec.MaskForElement` | systemc-components/common/include/registers.h:1253-1264 | at the start of an element, that element's mask |
| `RegisterBank.Bank.DecodeAccess` | systemc-components/common/include/registers.h:1324-1347 | indices, element number, alignment and range of an address |
| `RegisterBank.Bank.MaskedElementCount` | systemc-components/common/include/registers.h:1299-1310 | non-zero if and only if the write covers whole elements, several only in a dense one-dimensional bank |
| `RegisterBank.Bank.CaptureTxnPre` | systemc-components/common/include/registers.h:1349-1367 | refuses exactly the other masked writes, and otherwise remembers the bytes about to be overwritten |
| `RegisterBank.Bank.HandleMaskPost` | systemc-components/common/include/registers.h:1369-1391 | accepted if and only if the write covers whole elements and enough was captured, otherwise nothing changes; every addressed byte then has the new bits under its element's mask and the captured ones elsewhere, in memory and in the transaction |
| `RegisterBank.Bank.BusWrite` | systemc-components/reg_router/include/reg_router.h:59-95 | the whole write: accepted exactly when no bit is protected or it covers whole elements, refused with nothing changed; bit by bit new under the mask and old elsewhere, every other byte unchanged, the stored values returned |
| `BankTransfer.MaskInPlace` | systemc-components/common/include/registers.h:1381-1390 | the post-write loop: memory and transaction both hold the merge |
| `BankTransfer.Capture` | systemc-components/common/include/registers.h:1362-1366 | the capture loop gathers exactly the covered bytes |
| `BankMask.SetOneMore` | systemc-components/common/include/registers.h:375-398 | merging one more element extends the effect by exactly that element |
| `DmiConverter.Converter.BTransport` | systemc-components/dmi_converter/include/dmi_converter.h:67-181 | whatever mix of cached blocks, new grants and a final fallback serves it, the access moves exactly the enabled bytes between memory and data; the enables are the given ones when there are none, fewer than data bytes, or no block ends inside; it succeeds exactly when all bytes were performed and recommends direct access exactly when blocks of the final cache hold all of it; the cache grows only by granted answers; the loop ends |
| `DmiPieces.ReplyIsOk` | systemc-components/dmi_converter/include/dmi_converter.h:141-178 | status and DMI hint say exactly that |
| `DmiFlat.FlatEffect` | systemc-components/dmi_converter/include/dmi_converter.h:96-134 | a flat access fills or stores exactly the enabled bytes, the later of two at one place, and changes nothing else |
| `DmiConverter.Converter.Split` | systemc-components/dmi_converter/include/dmi_converter.h:88-180 | the loop itself: where each piece starts, how far blocks reach, what is moved, what the reply says |
| `DmiConverter.Converter.Hit` | systemc-components/dmi_converter/include/dmi_converter.h:90-144 | one round on a cached block moves at least one byte further; memory, data, enables and piece starts stay as the blocks determine them |
| `DmiConverter.Converter.Miss` | systemc-components/dmi_converter/include/dmi_converter.h:147-167 | one round without a block either leaves one cached at the address or shows that the memory turned it down |
| `DmiConverter.Converter.UseBlock` | systemc-components/dmi_converter/include/dmi_converter.h:90-144 | one hit moves what the block holds and adjusts the enables |
| `DmiConverter.Converter.CopyBlock` | systemc-components/dmi_converter/include/dmi_converter.h:96-134 | copying through the host pointer moves the right bytes under the right enables |
| `DmiConverter.Converter.Ask` | systemc-components/dmi_converter/include/dmi_converter.h:159-167 | a usable grant is remembered, so that the next lookup hits |
| `DmiConverter.Converter.ForwardRest` | systemc-components/dmi_converter/include/dmi_converter.h:147-178 | the rest is forwarded from the right byte with the right enables |
| `DmiConverter.Converter.InCache` | systemc-components/dmi_converter/include/dmi_converter.h:266-278 | finds the cached block with the address if and only if there is one |
| `DmiConverter.Converter.CacheClean` | systemc-components/dmi_converter/include/dmi_converter.h:279-306 | removes exactly the blocks that meet the range |
| `DmiConverter.Converter.GetDirectMemPtr` | systemc-components/dmi_converter/include/dmi_converter.h:189-202 | a cached block with the address is the answer unless it allows neither reading nor writing; otherwise the answer is what the memory behind grants, which is remembered |
| `DmiConverter.UpdateByteEnable` | systemc-components/dmi_converter/include/dmi_converter.h:215-232 | after each piece the working copy again starts with the next byte's enable |
| `DmiConverter.RotatedBy` | systemc-components/dmi_converter/include/dmi_converter.h:226-230 | rotating by the remainder advances a repeating pattern by the whole length |
| `DmiPieces.ShortEnablesAreRight` | systemc-components/dmi_converter/include/dmi_converter.h:226-230 | enables shorter than the data: the split never changes which bytes are enabled |
| `DmiPieces.OnePieceIsRight` | systemc-components/dmi_converter/include/dmi_converter.h:96-134 | an access served in one piece gets its own enables |
| `DmiPieces.LongEnablesIff` | systemc-components/dmi_converter/include/dmi_converter.h:223-225 | at least as many enables as data bytes: the access is the flat one however it is split, on all memories and data, if and only if the enables are all alike |
| `DmiPieces.BlocksDecide` | systemc-components/dmi_converter/include/dmi_converter.h:223-225 | for given blocks it is, if and only if each byte has the same enable as the byte that far from the start of its piece, which block ends determine |
| `DmiPieces.BlockServes` | systemc-components/dmi_converter/include/dmi_converter.h:90-144 | after one block serves, pieces start exactly where blocks end |
| `DmiPieces.GrantKeepsServed` | systemc-components/dmi_converter/include/dmi_converter.h:159-167 | a new grant moves no piece already served |
| `DmiConverter.WriteBehindByteBlocks` | systemc-components/dmi_converter/include/dmi_converter.h:223-225 | the converter on memory that grants single bytes: every byte of a write gets the first enable, for all data and enables |
| `DmiConverter.SecondPieceForgets` | systemc-components/dmi_converter/include/dmi_converter.h:223-225 | a write of two bytes with only the first enabled writes both, where the flat access writes one |
| `DmiPieces.BlockLenZeroIff` | systemc-components/dmi_converter/include/dmi_converter.h:94-95 | the loop makes no progress if and only if one grant covers all 64-bit addresses and the access is at 0 |
| `DmiFlat.SameEffectIff` | systemc-components/dmi_converter/include/dmi_converter.h:96-134 | two enable patterns have the same effect on all memories and data if and only if they are equal |
| `DmiFlat.WrittenAt` | systemc-components/dmi_converter/include/dmi_converter.h:99-114 | what a flat write leaves at each of its addresses |
| `AddressTranslation.RangeEnd` | systemc-components/addrtr/include/addrtr.h:43-50 | defined if and only if the range is non-empty and ends within 64 bits |
| `AddressTranslation.Addrtr.MapTxnAddr` | systemc-components/addrtr/include/addrtr.h:89-109 | accepted if and only if both ranges are valid and the transaction lies in the target range; every byte then lies at its image |
| `AddressTranslation.Addrtr.AcceptsIff` | systemc-components/addrtr/include/addrtr.h:89-109 | acceptance means every byte, and the address itself, is in the target range |
| `AddressTranslation.Addrtr.TranslationsInvert` | systemc-components/addrtr/include/addrtr.h:77-87 | the two wrapping translations undo each other on all 64-bit addresses and do not wrap inside the range |
| `AddressTranslation.Addrtr.MapWindow` | systemc-components/addrtr/include/addrtr.h:52-75 | the result is exactly the preimage of the window, each address at the same host byte, within 64 bits; none if and only if the preimage is empty |
| `AddressTranslation.Addrtr.BTransport` | systemc-components/addrtr/include/addrtr.h:111-119 | forwarded at the image of every byte, address restored |
| `AddressTranslation.Addrtr.GetDirectMemPtr` | systemc-components/addrtr/include/addrtr.h:132-159 | a grant is handed on if and only if it has the mapped address; the window then has the original address and is the exact translation |
| `AddressTranslation.Addrtr.InvalidateDirectMemPtr` | systemc-components/addrtr/include/addrtr.h:161-173 | the forwarded range is exactly the preimage, dropped if and only if that is empty |
| `AddressTranslation.Addrtr.InvalidationReachesGrant` | systemc-components/addrtr/include/addrtr.h:132-173 | withdrawing part of a grant reaches what was handed on for it, and only that |

## Left out

- QEMU device wrappers, `cpu.h`, `qemu-instance.h` and `dmi-manager.h`: property plumbing, or behaviour that rests on QEMU calls outside this repository.
- Remote ports, loaders, Lua configuration, dynamic libraries: process, file and foreign-library input and output.
- Quantum keepers: the policies that can be seen have one branch each.
- Single-element reads, typed register access, fields and callbacks of registers.
- The routers' address decoding and caching: only `claims` is modelled.
- SystemC kernel internals, and rounding of `sc_time`.
- McipsPlugin.Plugin.GetQemuClock: is one atomic step; the lock-free reads of the source and its wall-clock gating between two queries are not modelled.
- McipsPlugin.Plugin.DetachSyncWindow: does not model races between detaching, attaching and the end of simulation.
- McipsPlugin.Plugin.IdleTick: is an event that may happen at any time; its wall-clock period and the simulation-ended check are not modelled.
- SyncWindow.SyncWindow.StepHelper: a replaced notification of the observer event may fire at any time, as a step of the model; how the event attaches to the kernel is not modelled.
- McipsSystemc.AlwaysServed: gives one schedule of SystemC events, in which time may go up to the end of the window; it does not say that the kernel has something to do until then.
- SyncWindow.SyncWindow.constructor: the quantum is fixed and positive and the window stays attached; the policies that change it, detaching and the keep-alive channel are not modelled.
- PluginShutdown.ShutdownIsSafe: the handshake is on values, one step for each atomic access in sequentially consistent order; weaker memory orders are not modelled.
- RunOnSysc.Core.Push: only the lock-protected parts are methods; the handler's waiting and the promises are steps of the state machine, and a call made on the SystemC thread itself, which runs its job directly, is not modelled.
- Planner.PriorityConstruct: takes as given which children are modules, the dependencies found in arguments and nested containers, and what a bind string names.
- AliasBinds.RewriteBinds: covers simple binds; strings with several binds separated by `;` and the `platform.` prefix rule are not modelled.
- AliasGraph.RedirectOrder: takes any ready alias next; the source takes the first by name.
- AliasMigrate.RedirectSocketParams: does not model locking the migrated parameters or marking them as consumed.
- BankLayout.ConstructNd: is over unbounded integers; wrap-around inside the constructor's own checks is not modelled.
- RegisterBank.Bank.BusWrite: is the register with its callbacks in place; a register for which no callback is registered bypasses masks (systemc-components/common/include/registers.h:130-131).
- RegisterBank.Bank.Set: setting or clearing element masks, and the point at which a register asks for direct access, are not modelled.
- BankTransfer.MaskInPlace: the offsets and masks of the elements are computed before the loop instead of inside it.
- ExclusiveMonitor.Monitor.BTransport: is one atomic step.
- DmiConverter.Converter.BTransport: delays, extensions and several ports are not modelled; memcpy is a copy byte by byte.
- AddressTranslation.Addrtr.GetDirectMemPtr: does not say what a refused request leaves in the grant object.
