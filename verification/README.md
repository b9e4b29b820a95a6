# NachOS kernel model

A model of the NachOS 4.0 kernel in `Project_02_Multiprogramming/code`, with proofs of what its parts are
for. The system has simulated hardware (an interrupt queue and clock, a rotating disk, a processor with paged
memory), a thread kernel on top of it, a file system and user processes.

Two kinds of modules model it.

* **Step systems** for what many threads do at once. Context switches happen only where simulated time
  advances, so a stretch of code with interrupts off is one atomic step, and everything between such steps
  interleaves freely. A run is a sequence of states; the theorems hold in every state of every run, for any
  number of threads. `Semaphores`, `Monitors` (Lock and Condition, with `MonitorRuns`), `SynchLists`,
  `SynchDisks`, `Threads` (scheduler, thread life cycle, and the semaphores of the kernel), `Processes` (join and
  exit) and `Isolation` (programs in memory, with `MemoryRuns`).
* **Objects** for what one thread does step by step, as classes whose methods change fields and arrays in
  place: `Bitmaps`, `Lists`, `HashTables`, `Interrupts`, `Disks`, `SectorFiles` (open files over sectors),
  `FileSystems` (headers, directory and the file system on the bytes of a disk), `Paging`, `AddressSpaces`,
  `Kernels`, `MonitorObjects`, `ProcessObjects` and `Multiply`. Each is proved against a function of its
  state, and the functions carry the further theorems: `Volumes` says what a disk stores and `VolumeStore`
  how it lies on sectors, `Codec` how structures lie in bytes, and `Loading` what the program loader leaves
  at every address. `FileSessions` and the ends of `Interrupts` and `Disks` make any sequence of calls of these
  objects, and `ProcessObjects` shows that its objects do what the steps of `Processes` do.

Sizes are parameters: the numbers of threads, sectors, directory entries, frames, table slots and buckets.
C integers are unbounded, except where their width matters (the multiplication, words in memory and on
disk, and the casts between int and unsigned int, which are written out). Simulated time is unbounded.

What comes from outside is left open and every choice covered: interrupt handlers schedule whatever they
like, idle time brings any sequence of wakeups, a new file header holds garbage until it is filled in.

## Where the code does less than its documentation says

The model follows the code in each of these, and a lemma gives the input and the exact condition.

* `AddrSpace::Load` loses the first page of initialised data when a program has no code, and does not look at
  where the header puts the data. `Loading.FirstDataPageLost` and `Loading.DataMisplaced` give a file that
  is loaded wrong. `Loading.LoaderRightIff` says for every header exactly when Load is right about all files
  that carry it; for data at an address that reach behind the header of the file it is so exactly if there is
  code and the data follow it (`Loading.LoaderRightAnywhereIff`).
* `kernel.cc` makes a bitmap of 256 frames for a machine with 128 (`Loading.FramesMayNotExist`); a load stays in
  main memory exactly if enough bits below the number of frames are clear (`Loading.FramesExistIff`). `Load`
  is proved under this condition, which a bitmap no longer than memory always meets.
* The track buffer of `disk.cc` is said to hold what has passed the head, but it may hold a sector that is
  still passing (`Disks.ReadsTooEarly`, `Disks.Disk.BufferedTooEarly`). It has passed when the transfer ends
  (`Disks.Disk.BufferedHasPassed`).
* A file name counts in its first nine characters only (`Volumes.StoredNameMatches`), so that two long names
  may be one file, as longname_a and longname_b are (`Volumes.TenthIsIgnored`).
* `PTable::JoinUpdate` looks at the parent of a PCB without looking whether there is one: Join(1) before any
  Exec reads a PCB that is not there (`ProcessObjects.PTable.InitStartProcess`). It does so exactly if the id is
  not negative and its slot is not in use (`ProcessObjects.PTable.DanglingIff`). `ExitUpdate` reads the PCB of
  the parent's slot for a counter, and the parent may have left (`Processes.ParentMayLeave`). A second Join of a
  child passes the check as long as the child has not left, and sleeps on a semaphore that is about to be
  deleted (`Processes.SecondJoin`, `ProcessObjects.PTable.JoinUpdate`).
* `FileHeader::Allocate` does not check that a file fits the 30 sectors of a header: with room on the disk, a
  file of 3841 bytes is stored behind the array (`Volumes.AllocateLeavesHeader`). It stays in the header exactly
  if it refuses for lack of room or the file is not larger than MaxFileSize (`Volumes.AllocateStaysIff`, and
  `Volumes.CreateStaysIff` for Create); Allocate and Create are proved under this condition.

## Model

| member | source | states |
|---|---|---|
| Semaphores.RunConservesUnits | Project_02_Multiprogramming/code/threads/synch.cc:75-117 | in every interleaving of any number of threads, the value of a semaphore is its initial value plus the completed Vs minus the completed Ps, and is never negative |
| Semaphores.NoUnitSleptOn | Project_02_Multiprogramming/code/threads/synch.cc:66-117 | in every interleaving, when threads sleep on a semaphore that has units, some woken thread has yet to test the value again and will find a unit: nobody sleeps for good beside an available unit |
| Semaphores.SleepersInOrder | Project_02_Multiprogramming/code/threads/synch.cc:75-117 | in every run the threads that found no unit, in the order in which they went to sleep, are those that Vs have made ready, in their order, followed by the queue |
| Semaphores.SleeperInTurn | Project_02_Multiprogramming/code/threads/synch.cc:75-117 | a thread asleep with k threads ahead of it is made ready by exactly the (k+1)-th V from then on, and is one place further up after each V before |
| Semaphores.PassPKeepsOk | Project_02_Multiprogramming/code/threads/synch.cc:75-92 | one turn of the loop in P keeps: value >= 0, no thread queued twice, queued and woken threads are different ones, and a non-empty queue means at least `value` woken threads |
| Semaphores.StepVKeepsOk | Project_02_Multiprogramming/code/threads/synch.cc:102-117 | V keeps the same, and takes exactly the longest sleeper off the queue |
| Semaphores.Semaphore.P | Project_02_Multiprogramming/code/threads/synch.cc:75-92 | the turn of P that the runs of this module are made of: asleep as the last in the queue exactly when the value was 0, otherwise with one unit less |
| Semaphores.Semaphore.V | Project_02_Multiprogramming/code/threads/synch.cc:102-117 | the V that they are made of: one unit more, and the longest sleeper, if there is one, off the queue and ready |
| Monitors.LockExcludes | Project_02_Multiprogramming/code/threads/synch.cc:181-203 | in every interleaving the value of the lock's semaphore plus the number of threads between P and V is 1; lockHolder is null or the one such thread, also when it is preempted before it records itself |
| Monitors.FreeLockIsTested | Project_02_Multiprogramming/code/threads/synch.cc:181-203 | a thread asleep on a free lock always has a woken thread ahead of it that can take the lock |
| Monitors.AssertsHold | Project_02_Multiprogramming/code/threads/synch.cc:198-297 | the assertions in Release, Wait and Signal and in the lists of waiters never fail, and no deleted semaphore is used |
| Monitors.OneVPerWaiter | Project_02_Multiprogramming/code/threads/synch.cc:244-297 | over a whole run the semaphore that a call of Wait allocates gets at most one V |
| Monitors.SignalNotLost | Project_02_Multiprogramming/code/threads/synch.cc:244-283 | a signal given after the waiter is queued but before its P is kept: the unit is there, the thread is not asleep, and its next test succeeds; until then the waiter stays queued or with the signaller |
| Monitors.DeleteIsSafe | Project_02_Multiprogramming/code/threads/synch.cc:244-256 | `delete waiter` runs only when the semaphore is in no queue, no thread sleeps or waits on it, and no thread is still inside Signal or V with it |
| Monitors.BroadcastSignalsAll | Project_02_Multiprogramming/code/threads/synch.cc:292-297 | when Broadcast leaves its loop the queue is empty, and the waiters signalled since it began are exactly those that were queued then, none of them before; no other waiter is signalled meanwhile |
| Monitors.NextKeeps | Project_02_Multiprogramming/code/threads/synch.cc:181-297 | every step of any thread in Acquire, Release, Wait, Signal or Broadcast keeps the invariant of lock, waiters and signals |
| Monitors.OthersStay | Project_02_Multiprogramming/code/threads/synch.cc:181-297 | a step of one thread moves no other thread, except that a V makes a sleeper ready |
| MonitorRuns.CallsCarriedOut | Project_02_Multiprogramming/code/threads/synch.cc:181-297 | in every run each call does once what it was made for, before it is over: Acquire and Wait take the lock's unit, Release and Wait give it back, Wait takes the unit of its waiter and deletes it, Broadcast goes on until the queue is empty |
| MonitorRuns.LockIsSemaphore | Project_02_Multiprogramming/code/threads/synch.cc:181-203 | in every run the lock is a semaphore of module Semaphores with one unit: threads get it in the order in which they went to sleep on it |
| MonitorRuns.SignalledInTurn | Project_02_Multiprogramming/code/threads/synch.cc:244-297 | waiters are taken off the condition's queue in the order in which their threads called Wait |
| MonitorRuns.TakenIsSignalled | Project_02_Multiprogramming/code/threads/synch.cc:273-297 | what a thread takes off the queue it gives a V, in this order, and nothing else |
| MonitorObjects.Lock.Acquire | Project_02_Multiprogramming/code/threads/synch.cc:181-186 | asleep, or with the unit and recorded as holder |
| MonitorObjects.Lock.Release | Project_02_Multiprogramming/code/threads/synch.cc:198-203 | for the holder: nobody is recorded, the semaphore has its unit back, and the longest sleeper is ready |
| MonitorObjects.Condition.Wait | Project_02_Multiprogramming/code/threads/synch.cc:244-256 | a fresh semaphore is the last in the queue and the lock has been given up |
| MonitorObjects.Condition.Signal | Project_02_Multiprogramming/code/threads/synch.cc:273-283 | the longest waiter gets one unit, and nobody else anything |
| MonitorObjects.Condition.Broadcast | Project_02_Multiprogramming/code/threads/synch.cc:292-297 | every waiter gets exactly one unit, and the queue is empty |
| MonitorObjects.SynchList.Append | Project_02_Multiprogramming/code/threads/synchlist.cc:51-59 | in the monitor: the item is last on the list, one waiter has a unit, the other waiters are as they were, and the lock is free |
| MonitorObjects.SynchList.RemoveFront | Project_02_Multiprogramming/code/threads/synchlist.cc:69-81 | in the monitor: the front of the list, or a wait on a fresh semaphore behind all waiters, which are as they were; the lock is free |
| SynchLists.FirstInFirstOut | Project_02_Multiprogramming/code/threads/synchlist.cc:51-81 | in every interleaving of any number of producers and consumers, the items taken off so far followed by the list are the items put on it, in lock order; an item taken as the k-th is for good the one put on as the k-th |
| SynchLists.EveryItemIsAdded | Project_02_Multiprogramming/code/threads/synchlist.cc:51-59 | in every run the items with which a thread has called Append are those that it has put on the list, each once and in this order, except one that it is about to: a call that has returned has put its item on the list |
| SynchLists.EveryRemoveTakes | Project_02_Multiprogramming/code/threads/synchlist.cc:69-81 | in every run a thread has taken exactly one item off the list for each of its calls of RemoveFront that has returned |
| SynchLists.NeverTakesFromEmpty | Project_02_Multiprogramming/code/threads/synchlist.cc:69-81 | RemoveFront never takes from an empty list, whoever barges in between its wakeup and its check |
| SynchLists.NoLostWakeup | Project_02_Multiprogramming/code/threads/synchlist.cc:51-81 | whenever the lock is free and consumers are queued, the consumers that have been signalled and are not back yet are at least as many as the items on the list |
| SynchLists.SomeConsumerCanRun | Project_02_Multiprogramming/code/threads/synchlist.cc:69-81 | with the lock free, an item on the list and a consumer queued, some thread on its way back into the monitor can run |
| SynchLists.PerformKeeps | Project_02_Multiprogramming/code/threads/synchlist.cc:51-81 | every step of a producer or consumer keeps the invariant of places and wakeups |
| SynchDisks.RequestsAccounted | Project_02_Multiprogramming/code/filesys/synchdisk.cc:57-94 | in every interleaving of requesters and interrupts, the threads between their request and the end of their P are 1 if the disk is active plus the semaphore's value, and at most 1 |
| SynchDisks.DiskIsNeverBusy | Project_02_Multiprogramming/code/machine/disk.cc:113-151 | the disk never sees a request while it is active: its assertion never fails |
| SynchDisks.ReturnsAfterOwnInterrupt | Project_02_Multiprogramming/code/filesys/synchdisk.cc:57-94 | ReadSector and WriteSector go on only after an interrupt that found the disk active with their own request |
| SynchDisks.AnswerNotLost | Project_02_Multiprogramming/code/filesys/synchdisk.cc:57-94 | a thread whose request has been answered is awake and passes its next test |
| SynchDisks.OneRequestPerCall | Project_02_Multiprogramming/code/filesys/synchdisk.cc:57-94 | in every run each call of ReadSector or WriteSector makes one request of the disk and is answered once before it returns; requests are numbered one after the other |
| SynchDisks.PerformKeeps | Project_02_Multiprogramming/code/filesys/synchdisk.cc:57-94 | every step of a requester and every interrupt keep the invariant of the handshake |
| Threads.ExactlyOnePlace | Project_02_Multiprogramming/code/threads/scheduler.cc:56-167 | over every run each thread is in exactly one place (at work, on the ready list, in one semaphore's queue, just created, or awaiting destruction), and its status is the one of that place |
| Threads.AssertsHold | Project_02_Multiprogramming/code/threads/scheduler.cc:103-167 | toBeDestroyed is null at every finishing Run, a thread that is destroyed is never the running one, and no thread is put on a list that it is on |
| Threads.DestroyedNext | Project_02_Multiprogramming/code/threads/thread.cc:170-179 | a thread that finishes is destroyed by the thread that is dispatched next, the front of the ready list, as its first act |
| Threads.PickedInTurn | Project_02_Multiprogramming/code/threads/scheduler.cc:56-84 | a ready thread with k threads ahead of it is what exactly the (k+1)-th dispatch from then on returns, and until then is one place further up after each dispatch |
| Threads.NextKeeps | Project_02_Multiprogramming/code/threads/thread.cc:92-252 | creating, forking, yielding, P, V, finishing, dispatching and resuming keep the invariant of places and statuses |
| Threads.RunInv | Project_02_Multiprogramming/code/threads/thread.cc:92-252 | the invariant of places and statuses holds in every state of every run |
| Threads.YieldTakesTurns | Project_02_Multiprogramming/code/threads/thread.cc:199-215 | with another thread ready, the front of the ready list runs and the caller is last on it; otherwise nothing changes |
| Threads.DispatchTakesFront | Project_02_Multiprogramming/code/threads/thread.cc:237-252 | at the end of Sleep the front of the ready list runs, and is the one recorded as dispatched; no other thread moves |
| Threads.CreatedThenForked | Project_02_Multiprogramming/code/threads/thread.cc:36-106 | a new thread is JUST_CREATED and nowhere; Fork makes it READY and last on the ready list; nothing else changes |
| Threads.FinishEnds | Project_02_Multiprogramming/code/threads/thread.cc:170-179 | after Finish the thread is at work no more and waits for its end |
| Threads.OnlyFinishedEnd | Project_02_Multiprogramming/code/threads/scheduler.cc:103-167 | a thread awaits destruction only after its own Finish |
| Threads.IsSemaphoreRun | Project_02_Multiprogramming/code/threads/synch.cc:75-117 | in every run of the kernel each semaphore takes the steps of a run of module Semaphores: a V for each call of V, by threads and handlers, a turn of P for each test, with the same value, the same queue, and the same threads on their way |
| Threads.UnitsConserved | Project_02_Multiprogramming/code/threads/synch.cc:75-117 | in every run the value of a semaphore is its initial value plus the calls of V minus the Ps that took a unit; and beside units nobody sleeps unless a thread inside the same P is ready or just about to test |
| Threads.WokenInTurn | Project_02_Multiprogramming/code/threads/synch.cc:75-117 | a thread asleep on a semaphore with k threads ahead of it moves up by one with each V, and the (k+1)-th V from then on puts it last on the ready list |
| Threads.EveryPTakesOne | Project_02_Multiprogramming/code/threads/synch.cc:75-92 | a thread that has called P is inside it until it has taken exactly one unit, over any switches and wakeups |
| Kernels.Kernel.ReadyToRun | Project_02_Multiprogramming/code/threads/scheduler.cc:56-64 | the thread is READY and last on the ready list |
| Kernels.Kernel.FindNextToRun | Project_02_Multiprogramming/code/threads/scheduler.cc:74-84 | the front of the ready list, taken off it; null, and no change, when the list is empty |
| Kernels.Kernel.Run | Project_02_Multiprogramming/code/threads/scheduler.cc:103-133 | up to SWITCH: the next thread is current and RUNNING, and a finishing one is kept for destruction |
| Kernels.Kernel.CheckToBeDestroyed | Project_02_Multiprogramming/code/threads/scheduler.cc:160-167 | the thread kept for destruction exists no longer; the assertion of its destructor holds |
| Kernels.Kernel.AfterSwitch | Project_02_Multiprogramming/code/threads/scheduler.cc:135-150 | behind SWITCH, or in Begin: the finished thread is destroyed first, and the invariant holds |
| Kernels.Kernel.Fork | Project_02_Multiprogramming/code/threads/thread.cc:92-106 | a thread just created is READY and last on the ready list |
| Kernels.Kernel.Yield | Project_02_Multiprogramming/code/threads/thread.cc:199-215 | if another thread is ready it runs, and this one is last on the ready list; otherwise nothing changes |
| Kernels.Kernel.SleepLoop | Project_02_Multiprogramming/code/threads/thread.cc:237-252 | whatever handlers do while the machine idles, the first thread that becomes ready runs; without one the machine halts |
| Kernels.Kernel.Finish | Project_02_Multiprogramming/code/threads/thread.cc:170-179 | the thread is blocked for good and kept for destruction when the next one runs |
| Kernels.Kernel.P | Project_02_Multiprogramming/code/threads/synch.cc:75-92 | the turn of P of module Threads, from the test of the value to the sleep or the unit, with the switch to another thread; List::Append's assertion holds |
| Kernels.Kernel.V | Project_02_Multiprogramming/code/threads/synch.cc:102-117 | the V of module Threads, by a thread or by an interrupt handler: one unit more, and the head of the queue, if there is one, READY |
| Kernels.IdleLoopKeeps | Project_02_Multiprogramming/code/threads/thread.cc:246-251 | the idle loop keeps the invariant of places, for everything that interrupt handlers may do |
| Kernels.IdleLoopIsActs | Project_02_Multiprogramming/code/threads/thread.cc:246-251 | the idle loop is a run of module Threads: the calls of V that the handlers make, one after the other, and then the dispatch of the front of the ready list, or the halt |
| Kernels.NoneReadyBefore | Project_02_Multiprogramming/code/threads/thread.cc:246-251 | the machine idles only while no thread is ready |
| Interrupts.Interrupt.CheckIfDue | Project_02_Multiprogramming/code/machine/interrupt.cc:280-322 | everything due fires, in order, exactly once and at this time; what handlers schedule meanwhile waits; on return every pending interrupt is strictly in the future; the clock moves only if nothing is due and it may advance |
| Interrupts.Interrupt.FireDue | Project_02_Multiprogramming/code/machine/interrupt.cc:313-320 | the loop ends although handlers may schedule any number of interrupts: the pending ones already due grow fewer in each round |
| Interrupts.Interrupt.Schedule | Project_02_Multiprogramming/code/machine/interrupt.cc:256-266 | the new interrupt takes its place behind all that are due no later, and the history of the run stays in order |
| Interrupts.Interrupt.OneTick | Project_02_Multiprogramming/code/machine/interrupt.cc:147-176 | time and the counter of the mode advance by the mode's tick, what has become due fires, and a context switch is asked for if a handler wanted one |
| Interrupts.Interrupt.SetLevel | Project_02_Multiprogramming/code/machine/interrupt.cc:123-136 | a tick passes exactly when interrupts that were off are enabled |
| Interrupts.Interrupt.Idle | Project_02_Multiprogramming/code/machine/interrupt.cc:207-227 | with interrupts pending the clock jumps to the first and it fires exactly when it is due; without, the machine halts and nothing has fired |
| Interrupts.Interrupt.CallBack | Project_02_Multiprogramming/code/machine/interrupt.cc:316-316 | whatever a handler schedules or asks for, the interrupts that are due stay in front |
| Interrupts.AnyRun | Project_02_Multiprogramming/code/machine/interrupt.cc:123-322 | over any run of Schedule, SetLevel, OneTick, Idle and changes of mode from the start, whatever the handlers do: each call moves the clock as its branch says (by no time, by the tick of the mode, to the first pending due time) and what is due at the new time fires then; at the end all that has fired is in order of due time, ties in order of scheduling, none early and none a tick too late; what has fired is exactly what is due by now and the rest is pending; each interrupt asked for is due exactly as long after the time of its call as was asked; the ticks add up |
| Interrupts.ScheduleKeepsHistory | Project_02_Multiprogramming/code/machine/interrupt.cc:256-266 | a new interrupt is due after all that have fired and finds its place among those that have not |
| Interrupts.InsertedBehindDue | Project_02_Multiprogramming/code/machine/interrupt.cc:313-320 | what a handler schedules comes behind everything that is due now |
| Lists.InsertedIsSorted | Project_02_Multiprogramming/code/lib/list.cc:232-260 | insertion keeps a list sorted, for every order with ties |
| Lists.InsertedIsStable | Project_02_Multiprogramming/code/lib/list.cc:232-260 | an item goes behind exactly those that are no bigger: items that tie leave in the order in which they came |
| Lists.List.Insert | Project_02_Multiprogramming/code/lib/list.cc:232-260 | the relinked elements are the old items with the new one in front of the first bigger one |
| Lists.List.Append | Project_02_Multiprogramming/code/lib/list.cc:73-89 | the relinked elements are the old items and then the new one |
| Lists.List.Prepend | Project_02_Multiprogramming/code/lib/list.cc:96-112 | the relinked elements are the new item and then the old ones |
| Lists.List.RemoveFront | Project_02_Multiprogramming/code/lib/list.cc:123-142 | the first item, and the rest of the list, also when it was the only one |
| Lists.List.Remove | Project_02_Multiprogramming/code/lib/list.cc:149-178 | the list without the item, with `last` and the count correct also when it was the last; the closing assertion that the item is not on the list any more holds, because no item is on it twice |
| Lists.List.IsInList | Project_02_Multiprogramming/code/lib/list.cc:185-197 | true exactly for the items of the list |
| Lists.LinkedBehind | Project_02_Multiprogramming/code/lib/list.cc:246-258 | an element linked in behind a place leaves a list without cycles or shared elements |
| Lists.LinkedWithout | Project_02_Multiprogramming/code/lib/list.cc:163-173 | an element unlinked leaves a list without cycles or shared elements |
| Lists.RestIsDistinct | Project_02_Multiprogramming/code/lib/list.cc:149-178 | taking an item off a list without repetitions leaves exactly the other items, without repetitions |
| Bitmaps.Bitmap.constructor | Project_02_Multiprogramming/code/lib/bitmap.cc:21-36 | all bits are clear |
| Bitmaps.Bitmap.Mark | Project_02_Multiprogramming/code/lib/bitmap.cc:55-63 | exactly this bit is set, in words of 32 bits |
| Bitmaps.Bitmap.Clear | Project_02_Multiprogramming/code/lib/bitmap.cc:72-80 | exactly this bit is cleared |
| Bitmaps.Bitmap.Test | Project_02_Multiprogramming/code/lib/bitmap.cc:89-99 | whether the bit is set |
| Bitmaps.Bitmap.FindAndSet | Project_02_Multiprogramming/code/lib/bitmap.cc:110-120 | the lowest clear bit, now set; -1 and no change when there is none |
| Bitmaps.Bitmap.NumClear | Project_02_Multiprogramming/code/lib/bitmap.cc:128-139 | the number of clear bits |
| Bitmaps.ClearAndMarked | Project_02_Multiprogramming/code/lib/bitmap.cc:128-139 | clear and marked bits together are all bits |
| Bitmaps.TakeClearIsFresh | Project_02_Multiprogramming/code/lib/bitmap.cc:110-120 | as long as enough bits are clear, k calls of FindAndSet give k different numbers that were all clear, and lower the count by k |
| Bitmaps.TakeClearIsLowest | Project_02_Multiprogramming/code/lib/bitmap.cc:110-120 | they are the lowest clear ones, in ascending order |
| Bitmaps.BitsDouble | Project_02_Multiprogramming/code/lib/bitmap.cc:60-60 | the bits of a word count from the low end, each for twice the one before |
| Bitmaps.BitMeans | Project_02_Multiprogramming/code/lib/bitmap.cc:89-99 | number i is bit i % 32 of word i / 32 |
| SectorFiles.OpenFile.ReadAt | Project_02_Multiprogramming/code/filesys/openfile.cc:115-142 | exactly the flat slice of the file from the position on, clipped at its end, whether aligned or not; no other byte of the buffer changes |
| SectorFiles.OpenFile.WriteAt | Project_02_Multiprogramming/code/filesys/openfile.cc:144-183 | the file as a flat array of bytes changes exactly in the requested in-file bytes, and no sector of another file changes |
| SectorFiles.OpenFile.ReadEdges | Project_02_Multiprogramming/code/filesys/openfile.cc:163-171 | the partly overwritten first and last sectors hold their old bytes before the new ones are put in, also when they are one sector |
| SectorFiles.OpenFile.Read | Project_02_Multiprogramming/code/filesys/openfile.cc:73-79 | the slice from the seek position on, which advances by what was read |
| SectorFiles.OpenFile.Write | Project_02_Multiprogramming/code/filesys/openfile.cc:81-87 | the flat file changes from the seek position on, which advances by what was written |
| SectorFiles.SpliceIsWrite | Project_02_Multiprogramming/code/filesys/openfile.cc:144-183 | a read of the range just written gives the bytes written, and every byte outside it is as it was |
| SectorFiles.OtherFile | Project_02_Multiprogramming/code/filesys/openfile.cc:144-183 | writing one file leaves the bytes of every file with other sectors alone |
| SectorFiles.ByteLies | Project_02_Multiprogramming/code/filesys/filehdr.cc:112-116 | byte k of a file is byte k % 128 of the sector that the header names in place k / 128 |
| SectorFiles.ClipIsMost | Project_02_Multiprogramming/code/filesys/openfile.cc:120-124 | a transfer is of as many bytes as were asked for and are there up to the end of the file |
| Codec.HeaderRoundTrip | Project_02_Multiprogramming/code/filesys/filehdr.cc:83-100 | a file header written to its sector and fetched again is the same header |
| Codec.DirRoundTrip | Project_02_Multiprogramming/code/filesys/directory.cc:62-79 | a directory written to its file and fetched again is the same table |
| Codec.BitsRoundTrip | Project_02_Multiprogramming/code/filesys/pbitmap.cc:62-79 | a bitmap written to its file and fetched again has the same words |
| Codec.HeaderMeans | Project_02_Multiprogramming/code/filesys/filehdr.h:60-62 | a sector read as a header: length, number of sectors and their numbers are the ints at bytes 0, 4 and 8 on, low byte first, in two's complement |
| Codec.HeaderLies | Project_02_Multiprogramming/code/filesys/filehdr.h:60-62 | and so a header is written |
| Codec.DirMeans | Project_02_Multiprogramming/code/filesys/directory.h:34-37 | entry i of a directory file is read from byte 20 * i on: the flag, the sector at 4, ten bytes of name at 8 |
| Codec.EntryLies | Project_02_Multiprogramming/code/filesys/directory.h:34-37 | and so an entry is written |
| Codec.BitWordLies | Project_02_Multiprogramming/code/filesys/pbitmap.cc:75-79 | a word of the bitmap is written low byte first |
| Volumes.StoredNameMatches | Project_02_Multiprogramming/code/filesys/directory.cc:89-142 | a stored name matches exactly the names that agree with it in their first nine characters |
| Volumes.TenthIsIgnored | Project_02_Multiprogramming/code/filesys/directory.cc:89-142 | longname_a and longname_b are different names of ten characters, and either one matches the entry that stores the other |
| Volumes.NinthCounts | Project_02_Multiprogramming/code/filesys/directory.cc:89-142 | names that differ in the ninth character do not match |
| Volumes.CreateSucceeds | Project_02_Multiprogramming/code/filesys/filesys.cc:178-220 | Create returns TRUE if and only if the name is new in its first nine characters, an entry is free, and there are clear sectors for the header and the data, whether or not a header can hold so many |
| Volumes.AllocateStaysIff | Project_02_Multiprogramming/code/filesys/filehdr.cc:43-58 | the loop of Allocate stores only into the 30 places of dataSectors if and only if there are too few clear sectors, so that it is not entered, or the file is not larger than MaxFileSize |
| Volumes.AllocateLeavesHeader | Project_02_Multiprogramming/code/filesys/filehdr.cc:50-52 | with 31 clear sectors, a file of 3841 bytes is stored at place 30, behind the array |
| Volumes.CreateStaysIff | Project_02_Multiprogramming/code/filesys/filesys.cc:178-220 | a call of Create stays in the header that it fills in if and only if it returns FALSE or the file is not larger than MaxFileSize |
| Volumes.CreateFinds | Project_02_Multiprogramming/code/filesys/directory.cc:107-142 | as a map from names to sectors, Create adds one association and changes no other |
| Volumes.RemoveFinds | Project_02_Multiprogramming/code/filesys/directory.cc:107-161 | Remove takes one association away and changes no other |
| Volumes.CreateThenRemove | Project_02_Multiprogramming/code/filesys/filesys.cc:178-307 | Create followed by Remove of the same name restores the bitmap and the headers exactly, and every lookup |
| Volumes.OthersKeepHeaders | Project_02_Multiprogramming/code/filesys/filesys.cc:178-307 | every file other than the one named keeps its entry and its header |
| Volumes.CreateKeeps | Project_02_Multiprogramming/code/filesys/filesys.cc:178-220 | a successful Create keeps: the bitmap marks exactly the sectors of the files and of the system, all different, and names differ |
| Volumes.RemoveKeeps | Project_02_Multiprogramming/code/filesys/filesys.cc:277-307 | so does Remove |
| Volumes.SectorsConserved | Project_02_Multiprogramming/code/filesys/filesys.cc:81-307 | clear sectors, those of the files and those of the system add up to the disk |
| Volumes.CreateCounts | Project_02_Multiprogramming/code/filesys/filesys.cc:178-220 | on a volume whose files have just the data sectors that their sizes need, Create takes one entry and 1 + divRoundUp(size, 128) clear sectors, and leaves such a volume |
| Volumes.RemoveCounts | Project_02_Multiprogramming/code/filesys/filesys.cc:277-307 | Remove gives the entry back, and as many clear sectors as the size of the file took |
| Volumes.RunFromFormat | Project_02_Multiprogramming/code/filesys/filesys.cc:81-307 | after format and any sequence of Create and Remove, whichever succeed: the bitmap marks exactly the header and data sectors of the directory's files and the system's, pairwise disjoint, and no sector is lost |
| Volumes.CallDoes | Project_02_Multiprogramming/code/filesys/filesys.cc:178-307 | in every run a Create makes its name findable exactly if it was, or an entry was free and the sectors enough; a Remove takes exactly its own away |
| Volumes.FreeFrom | Project_02_Multiprogramming/code/filesys/directory.cc:134-140 | the first free entry, all before it being in use; -1 exactly when there is none |
| Volumes.PartitionSizes | Project_02_Multiprogramming/code/filesys/filesys.cc:178-307 | disjoint claims and the system's sectors add up to the marked ones |
| VolumeStore.CreateStored | Project_02_Multiprogramming/code/filesys/filesys.cc:207-213 | writing header, directory and bitmap, sector by sector, leaves a disk that says what Create promises |
| VolumeStore.RemoveStored | Project_02_Multiprogramming/code/filesys/filesys.cc:297-302 | writing bitmap and directory leaves a disk that says what Remove promises |
| VolumeStore.FileUntouched | Project_02_Multiprogramming/code/filesys/filesys.cc:178-307 | a file whose sectors a call leaves alone keeps its header and all its bytes |
| FileSystems.HeaderRecord.Allocate | Project_02_Multiprogramming/code/filesys/filehdr.cc:43-58 | for every size with which it stays in the header: with enough clear bits the header gets the first clear sectors, all different, and marks exactly them; the assertion in the loop never fails; otherwise FALSE and no bit changes |
| FileSystems.HeaderRecord.Deallocate | Project_02_Multiprogramming/code/filesys/filehdr.cc:67-74 | the assertion never fails, and exactly the file's data sectors are cleared |
| FileSystems.HeaderRecord.FetchFrom | Project_02_Multiprogramming/code/filesys/filehdr.cc:83-87 | the header that the sector holds |
| FileSystems.HeaderRecord.WriteBack | Project_02_Multiprogramming/code/filesys/filehdr.cc:96-100 | the sector holds the header, and no other sector changes |
| FileSystems.FetchBitmap | Project_02_Multiprogramming/code/filesys/pbitmap.cc:62-66 | the words that the file holds |
| FileSystems.WriteBitmap | Project_02_Multiprogramming/code/filesys/pbitmap.cc:75-79 | the file holds the words, and no sector of another file changes |
| FileSystems.Directory.FetchFrom | Project_02_Multiprogramming/code/filesys/directory.cc:62-66 | the table that the file holds |
| FileSystems.Directory.WriteBack | Project_02_Multiprogramming/code/filesys/directory.cc:75-79 | the file holds the table, and no sector of another file changes |
| FileSystems.Directory.FindIndex | Project_02_Multiprogramming/code/filesys/directory.cc:89-96 | the first entry in use that matches the name, -1 if there is none |
| FileSystems.Directory.Find | Project_02_Multiprogramming/code/filesys/directory.cc:107-115 | the sector of that entry, or -1 |
| FileSystems.Directory.Add | Project_02_Multiprogramming/code/filesys/directory.cc:128-142 | the first free entry (FreeFrom) gets the name and the sector; FALSE and no change exactly when the name is there or no entry is free |
| FileSystems.Directory.Remove | Project_02_Multiprogramming/code/filesys/directory.cc:152-161 | the entry is free; FALSE and no change exactly when the name is not there |
| FileSystems.Format | Project_02_Multiprogramming/code/filesys/filesys.cc:84-139 | an empty directory and only the system's sectors marked; both assertions on Allocate hold |
| FileSystems.FileSystem.constructor | Project_02_Multiprogramming/code/filesys/filesys.cc:81-147 | a fresh file system on a disk with room for it, or the one that the disk stores, unchanged |
| FileSystems.FileSystem.Create | Project_02_Multiprogramming/code/filesys/filesys.cc:178-220 | for every size with which it stays in the header it fills in: all or nothing on the bytes of the disk. FALSE leaves every sector as it was, whatever the cause; TRUE leaves the disk with exactly one more file, and no sector of another file has changed |
| FileSystems.FileSystem.Open | Project_02_Multiprogramming/code/filesys/filesys.cc:232-246 | the file with the header that the directory names; null exactly when the name is not stored; nothing changes |
| FileSystems.FileSystem.Remove | Project_02_Multiprogramming/code/filesys/filesys.cc:277-307 | TRUE exactly when the name is stored, and then the disk has exactly that file less; otherwise nothing changes; no sector of another file changes |
| FileSystems.OpenAt | Project_02_Multiprogramming/code/filesys/openfile.cc:29-34 | an open file at position 0 with the header that the sector holds |
| FileSessions.ReadsLastWrite | Project_02_Multiprogramming/code/filesys/openfile.cc:115-183 | in any session of Create, Remove, Write and Read, a byte that a write has put into a file, and that no later write has put again and whose file none has removed, is what a later read of that place gives |
| FileSessions.Session | Project_02_Multiprogramming/code/filesys/filesys.cc:81-307 | on a formatted disk, any sequence of Create, Open and Read or Write, and Remove acts as on a catalog: a map from names to bytes, empty at first, and a number of clear sectors. Create succeeds if and only if the name is new, the map has fewer files than the directory has entries, and the clear sectors are enough for header and data; it takes these sectors, and Remove gives them back; the disk stores the catalog at the end |
| FileSessions.ServeAll | Project_02_Multiprogramming/code/filesys/filesys.cc:178-307 | the same from any disk with a sound file system whose catalog is known |
| FileSessions.CreateIff | Project_02_Multiprogramming/code/filesys/filesys.cc:178-220 | on a disk that stores a catalog, Create succeeds if and only if the catalog says so |
| FileSessions.ByteStays | Project_02_Multiprogramming/code/filesys/openfile.cc:144-183 | calls that do not remove the file or write over a byte leave this byte as it is |
| FileSessions.WriteHolds | Project_02_Multiprogramming/code/filesys/openfile.cc:144-183 | a write through a file that Open gave keeps the stored volume sound, changes the bytes of this file, and those of no other |
| FileSessions.WriteKeepsStore | Project_02_Multiprogramming/code/filesys/openfile.cc:144-183 | such a write leaves directory, bitmap and all headers on the disk as they are |
| FileSessions.CreateBytes | Project_02_Multiprogramming/code/filesys/filesys.cc:178-220 | Create gives a name a file of the size asked for, and no other name finds other bytes than before |
| FileSessions.RemoveBytes | Project_02_Multiprogramming/code/filesys/filesys.cc:277-307 | after Remove the name finds nothing, and no other name finds other bytes than before |
| Paging.Machine.Translate | Project_02_Multiprogramming/code/machine/translate.cc:187-265 | the exception of the first check that fails, in the order of the source, or the physical address with use and dirty bits set; its assertion holds |
| Paging.Machine.ReadMem | Project_02_Multiprogramming/code/machine/translate.cc:86-123 | the value at the translated address, a byte sign-extended, a half word not; memory is unchanged |
| Paging.Machine.WriteMem | Project_02_Multiprogramming/code/machine/translate.cc:138-170 | exactly the bytes at the translated address change, the low byte first; with an exception nothing changes |
| Paging.LoadAfterStore | Project_02_Multiprogramming/code/machine/translate.cc:86-170 | a load after a store to the same place gives the value back, cut to its size |
| Paging.StaysInFrame | Project_02_Multiprogramming/code/machine/translate.cc:197-264 | an access that passes the alignment check never crosses into the next frame |
| Paging.CheckIff | Project_02_Multiprogramming/code/machine/translate.cc:197-256 | each exception exactly under its conditions: misaligned or behind the table, then not valid, then a store to a read-only page, then a frame that does not exist |
| Paging.TouchedIs | Project_02_Multiprogramming/code/machine/translate.cc:258-260 | use is set, dirty is set by a store and otherwise kept, nothing else in the entry and no other entry changes |
| Paging.ValueMeans | Project_02_Multiprogramming/code/machine/translate.cc:97-121 | a load of a byte is signed, of a half word not, of a word in two's complement; the low byte comes first |
| Paging.StoreMeans | Project_02_Multiprogramming/code/machine/translate.cc:149-166 | a store leaves the low bytes of the value, the lowest first, and every other byte as it was |
| MemoryRuns.LoadsWhatWasStored | Project_02_Multiprogramming/code/machine/translate.cc:86-170 | in every run of programs, what a program stored it loads, cut to the size, until it stores to one of these addresses again, whatever it and all others do meanwhile |
| MemoryRuns.BitsTell | Project_02_Multiprogramming/code/machine/translate.cc:258-260 | in every run the dirty bit of a page tells whether its program has stored to it since it was loaded, and the use bit whether it has stored to it or loaded from it |
| Loading.LoaderRightIff | Project_02_Multiprogramming/code/userprog/addrspace.cc:117-238 | for every header with the code at address 0 and no negative size or file address: the page-by-page copy of every file that carries it leaves the flat image of code, data and zeros if and only if there are no data, or they are to lie where Load puts them (behind the code, or without code a page before address 0), or some lie behind the header in the file and both images leave them out, or all are bytes of the header and these are the same in both places |
| Loading.LoaderRightAnywhereIff | Project_02_Multiprogramming/code/userprog/addrspace.cc:117-238 | so for data at a virtual address that reach behind the header of the file: if and only if there are no data, or there is code and the data follow it |
| Loading.LoadsFlatImage | Project_02_Multiprogramming/code/userprog/addrspace.cc:194-238 | under the condition of LoaderRightIff, also when the last page of code is shared with the data, every byte is that of one flat load of the file |
| Loading.FirstDataPageLost | Project_02_Multiprogramming/code/userprog/addrspace.cc:181-237 | without code, and with data that reach behind the header, the file that carries this header and ends in a byte 1 is loaded with a 0 in its place; that address is one of the pages of the program if the data follow the code, and may lie behind them if the header puts the data elsewhere |
| Loading.DataMisplaced | Project_02_Multiprogramming/code/userprog/addrspace.cc:194-238 | with data that reach behind the header and that Load puts, at least in part, elsewhere than the header does, a file that carries the header has its last byte of data, at an address of the pages of the program, where the flat image has another |
| Loading.CarriesIff | Project_02_Multiprogramming/code/userprog/addrspace.cc:123-127 | the files from which Load reads a header are those that begin with its bytes |
| Loading.NoffMeans | Project_02_Multiprogramming/code/userprog/noff.h:12-28 | the header that Load reads: magic number, then virtualAddr, inFileAddr and size of code, initialised and uninitialised data are the ints at bytes 0, 4, 8 to 36 of the file, low byte first |
| Loading.PagesFor | Project_02_Multiprogramming/code/userprog/addrspace.cc:134-142 | the least number of pages of 128 bytes for code, data and 1024 bytes of stack |
| Loading.StageReads | Project_02_Multiprogramming/code/userprog/addrspace.cc:194-238 | each read of Load, in its order, puts bytes only where the flat image has them, and takes what is loaded to the next stage, also when the file ends early |
| Loading.FramesExistIff | Project_02_Multiprogramming/code/userprog/addrspace.cc:149-170 | with a bitmap longer than the machine has frames, all frames exist if and only if enough of the bits below that number are clear |
| Loading.FramesMayNotExist | Project_02_Multiprogramming/code/threads/kernel.cc:119-119 | with 256 bits for 128 frames and 120 taken, 9 pages that pass the check of Load get a frame that does not exist |
| Loading.ReadsImage | Project_02_Multiprogramming/code/userprog/addrspace.cc:159-171 | through the new page table the scattered frames read as the one image |
| Loading.PartCopied | Project_02_Multiprogramming/code/userprog/addrspace.cc:200-237 | one read of Load into part of a frame extends what is loaded, also when the file ends early |
| AddressSpaces.AddrSpace.Load | Project_02_Multiprogramming/code/userprog/addrspace.cc:111-282 | FALSE exactly when the file cannot be opened or there are too few clear frames, and then no frame and no byte has changed; otherwise the first clear frames hold the program and no other byte has changed |
| AddressSpaces.AddrSpace.AllocatePages | Project_02_Multiprogramming/code/userprog/addrspace.cc:158-171 | every page gets a frame of its own, zeroed, and exactly these are marked |
| AddressSpaces.AddrSpace.CopyCode | Project_02_Multiprogramming/code/userprog/addrspace.cc:195-207 | the code lies in its pages |
| AddressSpaces.AddrSpace.CopyShared | Project_02_Multiprogramming/code/userprog/addrspace.cc:223-229 | the first data lie behind the code in its last page |
| AddressSpaces.AddrSpace.CopyDataPages | Project_02_Multiprogramming/code/userprog/addrspace.cc:231-237 | the other data lie in the pages that follow |
| AddressSpaces.AddrSpace.ReadPart | Project_02_Multiprogramming/code/userprog/addrspace.cc:200-237 | one call of ReadAt puts the bytes that the file has into the frame of the page, and changes no other byte of memory |
| AddressSpaces.AddrSpace.Delete | Project_02_Multiprogramming/code/userprog/addrspace.cc:91-99 | exactly the frames of the space's page table are clear again |
| AddressSpaces.AddrSpace.Translate | Project_02_Multiprogramming/code/userprog/addrspace.cc:377-420 | the exception of the first check that fails, in the order of the source, or the physical address with use and dirty bits set; its assertion holds |
| AddressSpaces.KernelAgrees | Project_02_Multiprogramming/code/userprog/addrspace.cc:377-420 | the kernel translates a byte as the machine does if and only if the page is valid or outside the table |
| AddressSpaces.KernelCheckIff | Project_02_Multiprogramming/code/userprog/addrspace.cc:377-420 | each exception of the kernel's translation exactly under its conditions |
| Isolation.RunIsolates | Project_02_Multiprogramming/code/userprog/addrspace.cc:91-282 | over any sequence of allocations, single reads of Load, loads, stores and deletions, a program reads at every address what it read before, as long as the steps are of other programs |
| Isolation.NextKeeps | Project_02_Multiprogramming/code/userprog/addrspace.cc:91-238 | every step keeps: page tables are injective, those of different spaces disjoint, all frames exist, the bitmap is exactly their union, and every program being loaded has its pages |
| Isolation.WriteElsewhere | Project_02_Multiprogramming/code/machine/translate.cc:138-170 | a store in one space changes no page and no byte of another |
| Isolation.DeleteFreesOwnFrames | Project_02_Multiprogramming/code/userprog/addrspace.cc:91-99 | deletion clears a frame if and only if the space owned it, and marks none |
| Isolation.LoadedProgramReads | Project_02_Multiprogramming/code/userprog/addrspace.cc:111-282 | in every run a program that is completely loaded reads, at every virtual address, as its flat image, whatever other programs did between its allocation, outside of addrLock, and its reads of the file |
| Isolation.CopyElsewhere | Project_02_Multiprogramming/code/userprog/addrspace.cc:194-238 | a read of one program's file changes no page and no byte of another program |
| Isolation.CopyLoads | Project_02_Multiprogramming/code/userprog/addrspace.cc:194-238 | it takes the program's own pages to the next stage of loading |
| Isolation.WriteThenRead | Project_02_Multiprogramming/code/machine/translate.cc:86-170 | what a program stores it loads again, cut to its size |
| Isolation.WriteApart | Project_02_Multiprogramming/code/machine/translate.cc:86-170 | a store changes no load of the same space from other addresses |
| Processes.JoinReturnsExitCode | Project_02_Multiprogramming/code/threads/ptable.cc:166-220 | in every ordering of joins and exits, what JoinUpdate returned for a child is the code with which that child called ExitUpdate |
| Processes.SlotIsKept | Project_02_Multiprogramming/code/threads/ptable.cc:166-236 | from the call of JoinUpdate to its V the child's slot is not cleared and not given to another process |
| Processes.SecondJoin | Project_02_Multiprogramming/code/threads/ptable.cc:166-194 | in every run, a process that joins a child for the second time, while its slot is in use, finds joinsem without a unit, the code already returned, and the child released and past its own V |
| Processes.ParentMayLeave | Project_02_Multiprogramming/code/threads/ptable.cc:209-219 | with three slots or more, some run lets a process leave the table while its child runs and can call Exit, which would count on the deleted PCB in the slot of its parent |
| Processes.GoneWasJoined | Project_02_Multiprogramming/code/threads/ptable.cc:197-236 | a process leaves the table only after some JoinUpdate has returned its exit code |
| Processes.RendezvousProceeds | Project_02_Multiprogramming/code/threads/pcb.cc:82-101 | neither side of the rendezvous sleeps for good once the other has done its part |
| Processes.PerformKeeps | Project_02_Multiprogramming/code/threads/ptable.cc:41-236 | every step of Exec, Join and Exit keeps the invariant of slots, semaphores and codes |
| ProcessObjects.PTable.constructor | Project_02_Multiprogramming/code/threads/ptable.cc:6-18 | at most ten slots, none in use |
| ProcessObjects.PTable.InitStartProcess | Project_02_Multiprogramming/code/threads/ptable.cc:32-39 | the first process is in slot 0 without a parent: the table is that of the start of every run of module Processes; a Join of id 1 would now read a PCB that is not there |
| ProcessObjects.PTable.DanglingIff | Project_02_Multiprogramming/code/threads/ptable.cc:166-179 | JoinUpdate reads the parent of no null, deleted or out-of-range PCB if and only if the id is negative or its slot is in use |
| ProcessObjects.PTable.ExecUpdate | Project_02_Multiprogramming/code/threads/ptable.cc:41-100 | -1 and no change exactly for a null name, the caller's or the first process's, a file that cannot be opened, or a full table; otherwise the lowest free slot gets a PCB object of its own, with the caller as parent, and the table becomes that of the state after the step Exec |
| ProcessObjects.PTable.JoinUpdate | Project_02_Multiprogramming/code/threads/ptable.cc:166-194 | for every id with a PCB: refused exactly for a negative id or a caller that is not the parent; at the first join the table becomes that of the state that the parent reaches by its own steps, where it sleeps, or has returned the code with which the child called ExitUpdate; at a second one the parent sleeps on joinsem and nothing else changes |
| ProcessObjects.PTable.JoinTested | Project_02_Multiprogramming/code/threads/ptable.cc:186-194 | the same for a parent that has been woken and tests again |
| ProcessObjects.PTable.ExitUpdate | Project_02_Multiprogramming/code/threads/ptable.cc:197-220 | the assertion-like test of the slot holds, and the table becomes that of the state that the child reaches by its own steps, where it sleeps, or is gone with its slot clear |
| ProcessObjects.PTable.ExitTested | Project_02_Multiprogramming/code/threads/ptable.cc:217-219 | the same for a child that has been woken and tests again |
| ProcessObjects.PTable.Remove | Project_02_Multiprogramming/code/threads/ptable.cc:230-236 | exactly this slot is clear |
| ProcessObjects.PTable.Call | Project_02_Multiprogramming/code/threads/ptable.cc:183-219 | what a PCB object is asked to do changes no other PCB: they and their semaphores are never shared between slots |
| ProcessObjects.PCB.constructor | Project_02_Multiprogramming/code/threads/pcb.cc:29-41 | no exit code yet, the caller as parent, both semaphores without units |
| ProcessObjects.PCB.JoinWait | Project_02_Multiprogramming/code/threads/pcb.cc:82-85 | the P of the parent |
| ProcessObjects.PCB.JoinRelease | Project_02_Multiprogramming/code/threads/pcb.cc:87-90 | the V for the parent |
| ProcessObjects.PCB.ExitWait | Project_02_Multiprogramming/code/threads/pcb.cc:93-96 | the P of the child |
| ProcessObjects.PCB.ExitRelease | Project_02_Multiprogramming/code/threads/pcb.cc:98-101 | the V for the child |
| Multiply.Mult | Project_02_Multiprogramming/code/machine/mipssim.cc:771-828 | hi and lo hold the exact 64-bit product of all 32-bit operands, signed or unsigned, the most negative ones and the early exit included |
| Multiply.MultiplyUnsigned | Project_02_Multiprogramming/code/machine/mipssim.cc:793-814 | the loop gives the exact product of the operands read as unsigned, although a is shifted arithmetically |
| Multiply.AddDoubleAdds | Project_02_Multiprogramming/code/machine/mipssim.cc:800-804 | the comparison finds the carry: word by word the numbers are added |
| Multiply.NegateDoubleNegates | Project_02_Multiprogramming/code/machine/mipssim.cc:818-824 | the two's complement of the two words is 2^64 minus the number |
| Disks.Disk.UnbufferedIsEarliest | Project_02_Multiprogramming/code/machine/disk.cc:229-250 | a request that the buffer does not serve ends when its sector has just passed the head completely, after a seek of 500 ticks for each track, and no earlier pass begins after the seek |
| Disks.Disk.BufferedIff | Project_02_Multiprogramming/code/machine/disk.cc:236-244 | the track buffer serves a request if and only if it is a read of the current track whose sector has passed completely, since the buffer began, by the next sector boundary |
| Disks.Disk.BufferedHasPassed | Project_02_Multiprogramming/code/machine/disk.cc:236-244 | the sector has passed completely when the transfer from the buffer ends |
| Disks.Disk.BufferedTooEarly | Project_02_Multiprogramming/code/machine/disk.cc:236-244 | it had not when the request was made exactly if the sector is passing for the first time at that moment |
| Disks.ReadsTooEarly | Project_02_Multiprogramming/code/machine/disk.cc:236-244 | a disk one system tick after start claims to hold a sector that is still passing |
| Disks.Disk.LatencyBounds | Project_02_Multiprogramming/code/machine/disk.cc:229-250 | every latency is between 500 and 31999 ticks |
| Disks.PassedIff | Project_02_Multiprogramming/code/machine/disk.cc:238-240 | the comparison of whole sectors decides whether a sector has passed between two times |
| Disks.SeekIs | Project_02_Multiprogramming/code/machine/disk.cc:177-182 | a seek over k tracks, inwards or outwards, takes 500 * k ticks |
| Disks.TwoTracksAway | Project_02_Multiprogramming/code/machine/disk.cc:113-250 | a new disk that is asked to write sector 65 takes 17000 ticks |
| Disks.Disk.UpdateLast | Project_02_Multiprogramming/code/machine/disk.cc:258-268 | the buffer starts at the first boundary after a seek of 500 ticks for each track, and is kept without one |
| Disks.Disk.Request | Project_02_Multiprogramming/code/machine/disk.cc:113-151 | 500 ticks out of the buffer, otherwise up to the end of the first pass after a seek of 500 ticks for each track from the head's old place; the buffer starts at the boundary after the seek, no later than the interrupt |
| Disks.Disk.CallBack | Project_02_Multiprogramming/code/machine/disk.cc:158-163 | the disk is idle, and the start of the buffer is not in the future |
| Disks.AnyRequests | Project_02_Multiprogramming/code/machine/disk.cc:113-268 | over any run of requests, each made any time after the interrupt for the one before it, and interrupts that come any time late: each takes the time of a transfer out of the buffer, or ends with the first whole pass of its sector after the seek, and the track buffer never begins in the future |
| Disks.SinceBegins | Project_02_Multiprogramming/code/machine/disk.cc:258-268 | in every such run the buffer began at time 0, or at the first boundary after the last seek before |
| Disks.BufferHoldsSector | Project_02_Multiprogramming/code/machine/disk.cc:229-268 | in every such run, a sector that is read out of the buffer has passed the head completely before the transfer ends, and between that pass and the request the head has not left the track |
| HashTables.HashTable.Insert | Project_02_Multiprogramming/code/lib/hash.cc:108-124 | the map has exactly one association more, and the item is in the bucket of its hash; the table grows fourfold exactly with three items per bucket, and never holds more than three per bucket |
| HashTables.HashTable.ReHash | Project_02_Multiprogramming/code/lib/hash.cc:134-153 | four times the buckets and the same map |
| HashTables.HashTable.Find | Project_02_Multiprogramming/code/lib/hash.cc:191-198 | what the map holds for the key |
| HashTables.HashTable.FindInBucket | Project_02_Multiprogramming/code/lib/hash.cc:166-181 | the first item of the bucket with the key |
| HashTables.HashTable.Remove | Project_02_Multiprogramming/code/lib/hash.cc:208-223 | the item of a key that the caller knows to be in the table, and the map without exactly this association, so that the closing assertion holds |
| HashTables.HashTable.FindNextFullBucket | Project_02_Multiprogramming/code/lib/hash.cc:249-259 | the first bucket from there on that is not empty |
| HashTables.HashIterator.constructor | Project_02_Multiprogramming/code/lib/hash.cc:331-340 | at the first item of the table |
| HashTables.HashIterator.Next | Project_02_Multiprogramming/code/lib/hash.cc:347-360 | past exactly one item, over empty buckets |
| HashTables.Visit | Project_02_Multiprogramming/code/lib/hash.cc:331-360 | a loop over an unmodified table meets the items of its buckets in order |
| HashTables.EachOnce | Project_02_Multiprogramming/code/lib/hash.cc:331-360 | what it meets is exactly what the map holds, nothing twice, as many as are counted |
| HashTables.MovingStep | Project_02_Multiprogramming/code/lib/hash.cc:145-150 | one turn of ReHash moves an item to the bucket of its key and loses or doubles no association |
| HashTables.AppendLookup | Project_02_Multiprogramming/code/lib/hash.cc:120-121 | appending an item with a new key to its bucket adds one association and keeps every item where its key hashes to |
| HashTables.RemoveLookup | Project_02_Multiprogramming/code/lib/hash.cc:218-219 | removing an item from its bucket takes one association away and keeps every item where its key hashes to |

## Left out

- The stub file system and stub OpenFile (`filesys.h` and `openfile.h` under FILESYS_STUB) that the build selects: they only pass calls on to the host.
- System-call dispatch, argument copying, the console, the network, sockets and the UNIX wrappers: foreign calls and input or output.
- SWITCH, stacks and their fenceposts, and saved registers: a switch is a change of the current thread.
- The instruction interpreter except Mult, the TLB, big-endian hosts and the RDATA build.
- `STable`, the open-file table of a process, the `numwait` counters and `ExecVUpdate`: they take no part in the join and exit handshake, and ExecVUpdate repeats ExecUpdate.
- Semaphores.Semaphore.P: models one turn of the loop; a thread that was woken runs it again, as module Threads shows with the switch between.
- SynchLists.PerformKeeps: the assertion of List::Append that an item is not on the list yet is not demanded of producers.
- Threads.NextKeeps: the queue of a semaphore and the kernel's lists are sequences of thread identities; module Lists proves that the linked lists are sequences.
- HashTables.HashTable.Insert: a bucket's linked list is the sequence of its items, so relinking inside a bucket is not modelled there.
- Interrupts.Interrupt.Schedule: the pending list is a sequence with the insertion that module Lists proves for linked lists; the delayed load before handlers run is left out.
- Interrupts.Interrupt.OneTick: the Yield in the middle is the caller's, with AfterYield behind it, because other threads run there.
- SectorFiles.OpenFile.WriteAt: bytes of the last sector behind the end of the file are unspecified; positions are not negative, and the sum of position and length does not overflow an int.
- FileSystems.Directory.constructor: the names of unused entries, garbage in the source, are zeros here, and so are the padding bytes of entries; nothing reads them.
- FileSystems.HeaderRecord.Allocate: sizes with which the source stores behind its array, which are exactly those that AllocateStaysIff names: over MaxFileSize, with enough clear sectors.
- FileSystems.FileSystem.Create: sizes with which the source stores behind its array, exactly those that CreateStaysIff names; there is no concurrent access to the file system, as the source assumes; the disk has a multiple of 32 sectors.
- FileSystems.FileSystem.Open: what Read and Write do to an open file after its name has been removed is not modelled.
- FileSessions.Session: each Read and Write opens its file; sizes of new files are at most MaxFileSize, and no two calls overlap in time.
- Processes.PerformKeeps: ExecUpdate is one step, because bmsem is held throughout; a second join of the same child, which finds it leaving (SecondJoin), is not a step; the process in slot 0 halts the machine instead of exiting.
- ProcessObjects.PTable.JoinUpdate: ids whose PCB is null, deleted or out of range, where the source reads what is not there (DanglingIff says which); what becomes of a table with a second join; nobody else steps in between (module Processes lets everybody).
- ProcessObjects.PTable.ExecUpdate: whether the file can be opened is a parameter, and the new thread and its fork are left out.
- ProcessObjects.PTable.ExitUpdate: the process in slot 0, which halts the machine; the counter in the PCB of the parent's slot, which may be deleted (ParentMayLeave); the end of the thread in the destructor of the PCB is left out.
- ProcessObjects.PCB.constructor: the file table with stdin and stdout, multex and the thread are left out.
- MonitorObjects.Condition.Wait: stops before the P on its semaphore; that P, the second Acquire and the delete are steps of module Monitors.
- MonitorObjects.SynchList.Append: begins when the lock is held; its Acquire is a step of module SynchLists.
- MonitorObjects.SynchList.RemoveFront: one turn of the loop with the lock held; the turns after a wakeup are steps of module SynchLists.
- AddressSpaces.AddrSpace.Load: the header has its magic number, sizes and file addresses are not negative, the code begins at virtual address 0, the program fits the machine (the assertion of the source), and the file holds a whole header; nobody else steps in between its reads (module Isolation lets everybody).
- Multiply.Mult: negating the most negative int, undefined in C, wraps around as on the hosts of NachOS.
- Disks.Disk.Request: the transfer of the data to the host's file.
