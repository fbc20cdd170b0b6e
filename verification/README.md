# Verified models of L1_sysprg_trg

The repository is a collection of small C programs that teach system programming. This project models about a dozen of
its protocols and loops in Dafny and proves what they promise, over every input, every run and every behaviour of the
kernel or scheduler they depend on. Thread counts, limits, buffer sizes and addresses that the programs fix with
`#define` are parameters here.

`dafny verify dfyconfig.toml` checks everything.

## How the models are built

* **Loops** (the chat server, the checksum, the restart library, the hex dump, the decoders, the prime generator, the
  fills and the multiplication) are methods on arrays and objects, with the program's own variables. The kernel they
  call is a class whose contract is all that is assumed of it: which descriptors are ready, how many bytes move, when a
  call is interrupted or fails is left open.
* **Protocols between processes or threads** (the semaphore locks, the counting semaphore, the condition variable, the
  SIGCHLD handler, the threads of the multiplication, the two fills, the file transfer) are state machines: an action is
  one system call or one memory access of one process, a run is any sequence of enabled actions. `Reachable` carries an
  invariant along a run; the theorems follow from it.

## What comes out

* After every visit of a descriptor the chat server has sent to every connection exactly what others said while it was a
  member, in order. Its `accept` and `recv` calls are exactly those `select` asked for, each on the very connection that
  was reported, although descriptors are closed and reused in the middle of the scan.
* Both System V locks are one crash-safe mutex. In semdemo.c somebody can still get in, from any reachable state, exactly
  unless the process that created the set died before freeing it.
* In both, and for every single process, it is proved exactly when it can still get the lock: in semdemo.c not after ten
  polls in vain, in sem1.c not after losing the race for creating the set.
* The protocols make progress: the counting semaphore, the condition variable, the shared fill, the file transfer and the
  threads of the multiplication can stop only when their work is done, within a stated number of steps. The exceptions are
  exact and real: permits that died with their holders, calls that failed.
* The restart library reports failure exactly when a call failed for another reason than EINTR.
* The two folds of `checksum` are enough for 131076 bytes and not for one more.
* Some promises hold only conditionally, and then the exact condition is proved: the threaded multiplication agrees with
  the serial one on the programs' data exactly when the number of threads divides the size (2048 rows and 12 threads leave
  eight rows zero); `simple_primegen` prints exactly the primes for limit 3 and from 6 on, and adds the number 4 for 4 and
  5; repeated `get_line` calls recover the lines of a stream exactly when each is shorter than size - 1, or fills it and has
  only empty lines after it; hex dump offsets are right below 65536; the initial count bounds the admitted clients exactly
  as long as no `sem_wait` fails, because the program reports that and goes on; after a `sem_wait` that failed too early,
  or without the semaphore, the shared fill is sure to be right exactly when no byte is given two different letters; a
  decoded URL is a C string exactly when nothing in it decodes to NUL.
* In zombies_clear_traditional.c code and comment disagree. The comment says that the handler must not wait for children
  that are still alive, but its loop runs until `wait3` returns -1, and with `WNOHANG` that is only when no child is left:
  it returns 0 as long as one lives. `Reaper.HeldUpByLiveChild` and `Reaper.HeldUpForLong` follow the code.

## Model

| member | source | states |
|---|---|---|
| `ChatServer.DueExact` | ipc/net_sockets/inet_domain/beej_newer/select_svr_chat/selectserver.c:141-142 | the calls due after a select() are one accept() if the listener is ready, one recv() on each connection behind a ready descriptor, and nothing else, for every descriptor table |
| `ChatServer.ExpectedPositions` | ipc/net_sockets/inet_domain/beej_newer/select_svr_chat/selectserver.c:190-200 | the reference deliveries to a connection are the messages at exactly those moments of the log at which somebody else was read while it was a member, in order |
| `ChatServer.Kernel.Select` | ipc/net_sockets/inet_domain/beej_newer/select_svr_chat/selectserver.c:131-134 | any subset of the descriptors asked for, below nfds, or failure; recorded with what was asked and the connections open at that moment |
| `ChatServer.Kernel.Accept` | ipc/net_sockets/inet_domain/beej_newer/select_svr_chat/selectserver.c:150-152 | failure, or a new connection on any number free at that moment, also one closed earlier in the same scan; every call is logged |
| `ChatServer.Kernel.Recv` | ipc/net_sockets/inet_domain/beej_newer/select_svr_chat/selectserver.c:170-170 | at most the buffer size, 0 or -1; every call is logged under the connection's identity, with what arrived or as hung up |
| `ChatServer.Server.AcceptClient` | ipc/net_sockets/inet_domain/beej_newer/select_svr_chat/selectserver.c:147-166 | exactly one accept(); `master` stays the listener plus the open connections, all at most `fdmax`; no open connection changes |
| `ChatServer.Server.Broadcast` | ipc/net_sockets/inet_domain/beej_newer/select_svr_chat/selectserver.c:190-200 | when every member but the sender is owed the last message and nobody else anything, afterwards nobody is |
| `ChatServer.Server.ServeClient` | ipc/net_sockets/inet_domain/beej_newer/select_svr_chat/selectserver.c:168-202 | exactly one recv(), on the connection open at that descriptor; a close directly follows the recv() that found it hung up, and only then; deliveries stay complete |
| `ChatServer.Server.Visit` | ipc/net_sockets/inet_domain/beej_newer/select_svr_chat/selectserver.c:142-203 | exactly the call due at this descriptor; no connection at another descriptor is disturbed |
| `ChatServer.Server.Scan` | ipc/net_sockets/inet_domain/beej_newer/select_svr_chat/selectserver.c:141-204 | with closes, accepts, number reuse and a growing `fdmax` during the scan, the accept() and recv() calls are exactly those due, each once, in ascending order and on the connections open when the scan began |
| `ChatServer.Server.Round` | ipc/net_sockets/inet_domain/beej_newer/select_svr_chat/selectserver.c:124-205 | one iteration asks select() about the listener and every open connection, all below nfds, and then makes exactly the calls due; it ends the program only if select() fails; deliveries are complete and the invariant kept |
| `ChatServer.Server.Run` | ipc/net_sockets/inet_domain/beej_newer/select_svr_chat/selectserver.c:113-205 | after any number of iterations the sends to every connection are the expected ones (none missed, repeated, echoed or sent to the listener), closes pair with hang-ups, every select() was about all there was, and all calls ever made are those due after them |
| `SysVSem.SemId.RSemop` | ipc/SYS_V_ipc/sem/real/sem_lib.h:70-77 | through any number of interruptions the operations are performed exactly once, or, exactly if a call failed for another reason than EINTR, not at all |
| `SysVSem.SemOpMeaning` | ipc/SYS_V_ipc/sem/real/sem1.c:142-152 | semop() as assumed, for any list of operations: all are performed if each is possible after those before it, with the sums of their effects and undo adjustments; otherwise none, and the first impossible one decides between waiting and failing |
| `SysVSem.ExitMeaning` | ipc/SYS_V_ipc/sem/real/sem1.c:143-144 | process exit as assumed: the process's own adjustments are applied within the range of values and forgotten, nobody else's are touched |
| `CrashSafeMutex.FreedInBetween` | ipc/SYS_V_ipc/sem/real/sem_lib.h:70-77 | in every history of the mutex the lock passes from one process to another only after its owner has freed it |
| `SemDemo.StepKeepsInv` | ipc/SYS_V_ipc/sem/real/beej/semdemo.c:25-120 | every system call and every exit or crash keeps the invariant of set, undo adjustments and program counters |
| `SemDemo.Exclusion` | ipc/SYS_V_ipc/sem/real/beej/semdemo.c:33-112 | in every run nobody leaves initsem() with the id before the semaphore was freed; then value + holders = 1, and the undo adjustment is 1 exactly for the holder |
| `SemDemo.LockAvailability` | ipc/SYS_V_ipc/sem/real/beej/semdemo.c:44-118 | the lock can be taken exactly when nobody is inside, and otherwise locking waits; freeing and unlocking never block or fail |
| `SemDemo.EveryEndReleases` | ipc/SYS_V_ipc/sem/real/beej/semdemo.c:105-120 | whoever is inside can unlock and can die at any moment, and either way the lock is free again |
| `SemDemo.OrphanedForever` | ipc/SYS_V_ipc/sem/real/beej/semdemo.c:35-72 | once the creator has died before freeing the semaphore, nobody is ever inside again |
| `SemDemo.OrphanReachable` | ipc/SYS_V_ipc/sem/real/beej/semdemo.c:33-50 | this happens, to any process that dies between creating the set and freeing it |
| `SemDemo.EnterableExactlyUnlessOrphaned` | ipc/SYS_V_ipc/sem/real/beej/semdemo.c:33-112 | in every reachable state somebody can still get in if and only if the set is not orphaned |
| `SemDemo.EntersExactlyWhen` | ipc/SYS_V_ipc/sem/real/beej/semdemo.c:33-120 | for every process, present or to come: it can still get in, in its present life, if and only if the set is not orphaned, it has not had its turn and it has a retry left |
| `SemDemo.PollCount` | ipc/SYS_V_ipc/sem/real/beej/semdemo.c:59-72 | a process still waiting for sem_otime has polled so often since its look-up, ten times at most |
| `SemDemo.OneTurnEach` | ipc/SYS_V_ipc/sem/real/beej/semdemo.c:105-120 | between an unlock and a later lock of the same pid lies its exit |
| `SemDemo.RefinesMutex` | ipc/SYS_V_ipc/sem/real/beej/semdemo.c:105-120 | every step of every run is a step, or none, of the crash-safe mutex, whose owner is the process inside |
| `Sem1.StepKeepsInv` | ipc/SYS_V_ipc/sem/real/sem1.c:105-209 | every system call and every exit path keeps value, undo adjustments and program counters consistent |
| `Sem1.Exclusion` | ipc/SYS_V_ipc/sem/real/sem1.c:142-207 | in every run the value is the number of holders, at most 1, and the undo adjustment is -1 exactly for the holder |
| `Sem1.LockAvailability` | ipc/SYS_V_ipc/sem/real/sem1.c:142-206 | the atomic wait-for-zero-and-add succeeds exactly when nobody holds the lock and otherwise waits; the IPC_NOWAIT unlock of a holder cannot fail, and fails at once when nobody holds the lock |
| `Sem1.EveryEndReleases` | ipc/SYS_V_ipc/sem/real/sem1.c:167-209 | however a holder ends, also through the failed open() that never unlocks, the value is 0 and nobody holds the lock |
| `Sem1.HolderMayDie` | ipc/SYS_V_ipc/sem/real/sem1.c:143-143 | a holder can die at any moment, and SEM_UNDO frees the lock |
| `Sem1.HoldsExactlyWhen` | ipc/SYS_V_ipc/sem/real/sem1.c:104-206 | for every process, present or to come, in every reachable state: it can still get the lock, in its present life, if and only if it has not had it and has not lost the race for creating the set |
| `Sem1.KeepsWaiting` | ipc/SYS_V_ipc/sem/real/sem1.c:152-155 | however often it is interrupted, a process at the lock stays there until it gets the lock or ends |
| `Sem1.OneTurnEach` | ipc/SYS_V_ipc/sem/real/sem1.c:107-206 | nobody locks after having unlocked, or after a failed creation, without exiting in between |
| `Sem1.FailedOpenNeverUnlocks` | ipc/SYS_V_ipc/sem/real/sem1.c:167-170 | after a failed open() the process holds the lock until it exits |
| `Sem1.RefinesMutex` | ipc/SYS_V_ipc/sem/real/sem1.c:152-206 | the same crash-safe mutex as semdemo.c, with the opposite encoding |
| `Admission.Conservation` | ipc/posix_ipc/more_demos/appdemo_sem_as_counting/server_sem_as_counting.c:101-130 | in every reachable state value + sending + queued + in service + lost = initial permits + failed waits; requests are served in the order sent |
| `Admission.ServedInOrder` | ipc/posix_ipc/more_demos/appdemo_sem_as_counting/server_sem_as_counting.c:103-129 | read off the actions alone: the requests served are the first ones sent, each being what its client brought, the rest is the queue; the server is dead only if it was killed, and nothing is sent before the queue exists |
| `Admission.StopsOnlyWhenServed` | ipc/posix_ipc/more_demos/appdemo_sem_as_counting/server_sem_as_counting.c:103-129 | no deadlock: while the server lives a run can stop only with every request served and nobody waiting, unless all permits died with their holders |
| `Admission.RunsEnd` | ipc/posix_ipc/more_demos/appdemo_sem_as_counting/server_sem_as_counting.c:103-129 | under every scheduler a run has at most five steps per client and two more |
| `Admission.WaitsForEver` | ipc/posix_ipc/more_demos/appdemo_sem_as_counting/client_sem_as_counting.c:80-85 | that exception is real: for every configuration there is a run in which a client waits for ever although the server lives |
| `Admission.ServerDiesWorking` | ipc/posix_ipc/more_demos/appdemo_sem_as_counting/server_sem_as_counting.c:107-129 | a server killed while it works takes a permit with it |
| `Admission.AdmissionBound` | ipc/posix_ipc/more_demos/appdemo_sem_as_counting/client_sem_as_counting.c:79-85 | at most the initial count plus the number of failed sem_wait() calls is outstanding; without a failed one sem_post() never exceeds the initial count |
| `Admission.FailedWaitAdmitsTooMany` | ipc/posix_ipc/more_demos/appdemo_sem_as_counting/client_sem_as_counting.c:80-84 | for every configuration and every number of failed sem_wait() calls a run that reaches that bound |
| `Admission.BoundExactlyWithoutFailures` | ipc/posix_ipc/more_demos/appdemo_sem_as_counting/client_sem_as_counting.c:79-85 | the initial count bounds all runs with a given number of failed waits if and only if that number is 0, for every configuration |
| `Admission.SendNeverBlocks` | ipc/posix_ipc/more_demos/appdemo_sem_as_counting/client_sem_as_counting.c:53-56 | while permits and failed waits together are at most the queue capacity, an admitted client finds room in the queue |
| `Admission.SendBlocks` | ipc/posix_ipc/more_demos/appdemo_sem_as_counting/client_sem_as_counting.c:53-56 | for every configuration and number of failed waits that exceed the capacity together there is a run in which an admitted client finds the queue full |
| `Monitor.StepKeepsInv` | pthreads/llnl-tut-prgs/pt4-condvar.c:27-74 | every step of every thread, spurious wakeups included, keeps count, mutex and wait state consistent |
| `Monitor.NoLostWakeup` | pthreads/llnl-tut-prgs/pt4-condvar.c:36-74 | with the mutex free, a watcher still asleep means count < limit; it leaves only with count >= limit |
| `Monitor.FinalCount` | pthreads/llnl-tut-prgs/pt4-condvar.c:27-43 | the count never exceeds threads * rounds and is that when all are done |
| `Monitor.StopsOnlyWhenDone` | pthreads/llnl-tut-prgs/pt4-condvar.c:27-75 | no deadlock: a run can stop only with all increments made, and with the watcher gone if and only if the limit is at most threads * rounds |
| `Monitor.RunsEnd` | pthreads/llnl-tut-prgs/pt4-condvar.c:27-75 | under every scheduler a run has at most 4 * threads * rounds + 5 steps, the watcher being woken by a signal only once, and three more per spurious wakeup |
| `Monitor.WokenInVain` | pthreads/llnl-tut-prgs/pt4-condvar.c:68-74 | for every number n a run with n spurious wakeups, each of three steps, and the watcher asleep again |
| `Reaper.LoopsForgetNoZombie` | signalling/zombies_clear_traditional.c:24-73 | with one coalescing pending bit, every reachable zombie has its signal pending or the handler looking; nothing pending and no handler means no zombie |
| `Reaper.QuietMeansReaped` | signalling/zombies_clear_traditional.c:45-46 | when nothing but forks and deaths is left to happen, the handler is out and no zombie is left |
| `Reaper.OnceForgets` | signalling/zombies_clear_traditional.c:29-44 | one wait per signal: for every set of zombies and of live children a run that leaves exactly these zombies with no signal pending and no handler running |
| `Reaper.LeavesLoopWhen` | signalling/zombies_clear_traditional.c:45-46 | of the waits in a loop the last, and only the last, finds no zombie and, for the loop until -1, no child; so every child alive at any moment of that loop has died in it |
| `Reaper.HeldUpByLiveChild` | signalling/zombies_clear_traditional.c:45-46 | once running, the handler stays in its loop as long as some child lives |
| `Reaper.HeldUpForLong` | signalling/zombies_clear_traditional.c:45-46 | for every set of live children and every number n a run with n fruitless waits in a row and the handler still in its loop |
| `Reaper.LateDeaths` | signalling/zombies_clear_traditional.c:38-43 | any children can die while the handler runs; their signals are one again |
| `Reaper.LoopReturns` | ipc/net_sockets/zero_copy_sendfile/xfer_file.c:59-67 | whoever dies meanwhile, the other loop makes at most one wait per zombie, one per death and one more, hence at most the number of children plus one; the loop until -1 does so once nobody is alive |
| `InternetChecksum.Checksum` | ipc/net_sockets/raw_sock/raw_eth_ipv4_udp_tx.c:28-38 | the loop sums the little-endian words of any stretch of a buffer, an odd byte included, and folds twice |
| `InternetChecksum.ChecksumIsComplement` | ipc/net_sockets/raw_sock/raw_eth_ipv4_udp_tx.c:28-38 | for all data up to 131076 bytes the result is the complement of the one's complement sum of section 2 of RFC 1071 |
| `InternetChecksum.TwoFoldsSuffice` | ipc/net_sockets/raw_sock/raw_eth_ipv4_udp_tx.c:35-37 | two folds give the complement of the residue for every sum below 2^32 + 65535 |
| `InternetChecksum.ChecksumGoesWrong` | ipc/net_sockets/raw_sock/raw_eth_ipv4_udp_tx.c:35-37 | for every greater length there is data on which they do not |
| `InternetChecksum.Pieces` | ipc/net_sockets/raw_sock/raw_eth_ipv4_udp_tx.c:28-38 | even-length pieces may be summed separately and in any order |
| `InternetChecksum.ZeroOnlyForZeroes` | ipc/net_sockets/raw_sock/raw_eth_ipv4_udp_tx.c:28-38 | the one's complement sum is zero only for all-zero data |
| `InternetChecksum.SumInNetworkOrder` | ipc/net_sockets/raw_sock/raw_eth_ipv4_udp_tx.c:30-33 | the big-endian sum is the byte-swapped little-endian sum |
| `InternetChecksum.StoredInNetworkOrder` | ipc/net_sockets/raw_sock/raw_eth_ipv4_udp_tx.c:97-97 | stored without htons(), the result has the bytes of the RFC's big-endian checksum |
| `InternetChecksum.VerifiesToZero` | ipc/net_sockets/raw_sock/raw_eth_ipv4_udp_tx.c:97-121 | with the checksum stored in its zeroed field the checksum of the whole is 0 |
| `UdpFrame.Assemble` | ipc/net_sockets/raw_sock/raw_eth_ipv4_udp_tx.c:74-130 | whatever `sendbuf` held, the bytes sent are the frame, for every payload that fits |
| `UdpFrame.FrameFields` | ipc/net_sockets/raw_sock/raw_eth_ipv4_udp_tx.c:74-107 | read at the offsets of RFC 791 and RFC 768, the finished frame holds the right addresses, ports, protocol and payload, and both length fields equal what is really there |
| `UdpFrame.FrameVerifies` | ipc/net_sockets/raw_sock/raw_eth_ipv4_udp_tx.c:84-121 | a receiver that has only the bytes of the frame, and makes up the pseudo-header from them, gets 0 for both checksums |
| `RestartIO.Source.Read` | restart_lib-Robbins.c:77-77 | read(2) as assumed: any 1..size next bytes, 0 only at end of file, or -1 |
| `RestartIO.Sink.Write` | restart_lib-Robbins.c:106-106 | write(2) as assumed: any number of the bytes offered, or -1 |
| `RestartIO.RRead` | restart_lib-Robbins.c:74-79 | one successful read's worth of the next bytes, nothing skipped; -1 exactly if a call failed for another reason than EINTR |
| `RestartIO.RWrite` | restart_lib-Robbins.c:96-114 | the whole buffer in order, or -1 after a proper prefix of it, exactly if a call failed for another reason than EINTR |
| `RestartIO.ReadWrite` | restart_lib-Robbins.c:202-214 | a positive result is the number of bytes both consumed and appended; 0 is end of file; -1 means exactly that a call failed, and at most one block was consumed |
| `RestartIO.CopyFile` | restart_lib-Robbins.c:132-140 | for every kernel the sink gains a prefix of the unread source; total <= appended <= consumed <= total + block size; it stops at the first failing call, and without one only at end of file with all three equal |
| `RestartIO.ReadBlock` | restart_lib-Robbins.c:142-165 | only size, 0 or -1 is returned; size means exactly the next size bytes, 0 means nothing was left, -1 a failed call or the end of the file within the block |
| `RestartIO.ReadWriteBlock` | restart_lib-Robbins.c:216-224 | nothing is written unless a whole block was read; -1 means a failed call or the end of the file within the block |
| `RestartIO.ReadLine` | restart_lib-Robbins.c:167-190 | a positive result is the next whole line, NUL-terminated; 0 is end of file; -1 without a failed call means that the line is too long or not terminated, and the buffer holds what was read of it |
| `FileTransfer.Pump` | ipc/net_sockets/zero_copy_sendfile/xfer_file.c:119-132 | the copying loop of both sides: everything left is appended and counted, or, exactly if a call failed, an in-order prefix |
| `FileTransfer.Transfer` | ipc/net_sockets/zero_copy_sendfile/xfer_file.c:268-281 | server loop then client loop: exactly if no call fails the destination is reported complete, is the file, and tsent = trecv = its length |
| `FileTransfer.StepKeepsInv` | ipc/net_sockets/zero_copy_sendfile/xfer_file.c:119-132 | every read, write or failure on either side keeps each byte in exactly one place, in order |
| `FileTransfer.EndToEnd` | ipc/net_sockets/zero_copy_sendfile/xfer_file.c:119-132 | under every interleaving the destination is a prefix of the file, and the file with both counts right when both have finished |
| `FileTransfer.FailedExactly` | ipc/net_sockets/zero_copy_sendfile/xfer_file.c:119-132 | a process ends in failure exactly if one of its calls failed |
| `FileTransfer.StuckMeansEnded` | ipc/net_sockets/zero_copy_sendfile/xfer_file.c:119-132 | no deadlock: a run can stop only with both processes ended |
| `FileTransfer.ArrivesWithoutFailure` | ipc/net_sockets/zero_copy_sendfile/xfer_file.c:119-132 | so without failing calls it stops only with the whole file at its destination and both counts right |
| `FileTransfer.RunsEnd` | ipc/net_sockets/zero_copy_sendfile/xfer_file.c:119-132 | under every scheduler a run has at most four steps per byte and two more, apart from writes that move nothing |
| `FileTransfer.FinishedClient` | ipc/net_sockets/zero_copy_sendfile/xfer_file.c:268-283 | a finished client has the file exactly if the server had read all of it and written all it read |
| `FileTransfer.UndetectedTruncation` | ipc/net_sockets/zero_copy_sendfile/xfer_file.c:272-275 | for every file, every page size and every prefix of the file there is a run in which the server fails, with any further bytes read and not written, and the client ends without error and has just that prefix |
| `FileTransfer.ClientFailure` | ipc/net_sockets/zero_copy_sendfile/xfer_file.c:268-281 | and one in which the client fails with that prefix |
| `MatMul.MultiplyRows` | pthreads/speed_thrdprcs_simple/matrixmul/thrd_matrixmul/thrd_matrixmul.c:15-18 | the triple loop leaves the product in its rows and touches no other |
| `MatMul.Serial` | pthreads/speed_thrdprcs_simple/matrixmul/prcs_matrixmul/prcs_matrixmul.c:16-19 | every element is its row times its column, accumulated from the left |
| `MatMul.DotIsSumOfProducts` | pthreads/speed_thrdprcs_simple/matrixmul/prcs_matrixmul/prcs_matrixmul.c:16-19 | in ordinary arithmetic an element is the sum of the products of its row of a and its column of b |
| `MatMul.StepKeepsInv` | pthreads/speed_thrdprcs_simple/matrixmul/thrd_matrixmul/thrd_matrixmul.c:15-18 | every load or store of every thread keeps each element at the terms its owner has added |
| `MatMul.RunsEnd` | pthreads/speed_thrdprcs_simple/matrixmul/thrd_matrixmul/thrd_matrixmul.c:10-42 | under every scheduler a run has at most the loads and stores of all innermost iterations; the threads have joined exactly when it has as many, and exactly when no thread can make a step |
| `MatMul.StepsInAllIsCube` | pthreads/speed_thrdprcs_simple/matrixmul/thrd_matrixmul/thrd_matrixmul.c:15-18 | that is 2 * (n / nthreads) * n * n per thread |
| `MatMul.ThreadedResult` | pthreads/speed_thrdprcs_simple/matrixmul/thrd_matrixmul/thrd_matrixmul.c:10-42 | under every interleaving of loads and stores, and any arithmetic: the product in rows below nthreads * (n / nthreads), zero in the rest |
| `MatMul.OneWriterPerRow` | pthreads/speed_thrdprcs_simple/matrixmul/thrd_matrixmul/thrd_matrixmul.c:35-38 | no row is written by two threads |
| `MatMul.ThreadedEqualsSerial` | pthreads/speed_thrdprcs_simple/matrixmul/thrd_matrixmul/thrd_matrixmul.c:10-42 | equal to the serial result whenever nthreads divides n |
| `MatMul.AgreeExactlyWhenDivisible` | pthreads/speed_thrdprcs_simple/matrixmul/thrd_matrixmul/thrd_matrixmul.c:27-42 | on the program's own data, only then |
| `MatMul.LastRowsMissing` | pthreads/speed_thrdprcs_simple/matrixmul/thrd_matrixmul/thrd_matrixmul.c:6-7 | with 2048 rows and 12 threads rows 2040 to 2047 stay zero |
| `SharedFill.UpdateUdata` | ipc/posix_ipc/more_demos/appdemo_shm_sem_as_mtx/appdemo_shm_sem_as_mtx.c:111-130 | chunks and remainder are one fill of [offset, offset + len), everything else unchanged |
| `SharedFill.RunsFinish` | ipc/posix_ipc/more_demos/appdemo_shm_sem_as_mtx/appdemo_shm_sem_as_mtx.c:179-222 | in either mode a run has at most one step per byte and two more, and can stop, short of a failing sem_wait(), only when both have written everything |
| `SharedFill.StepsSoFar` | ipc/posix_ipc/more_demos/appdemo_shm_sem_as_mtx/appdemo_shm_sem_as_mtx.c:185-221 | the semaphore is the posts less the waits, and every other step wrote a byte |
| `SharedFill.SemaphoreOrders` | ipc/posix_ipc/more_demos/appdemo_shm_sem_as_mtx/appdemo_shm_sem_as_mtx.c:179-222 | with the semaphore every byte-level interleaving ends in the memory of parent-then-child, unless sem_wait() failed while the parent was still writing and some byte is given two letters |
| `SharedFill.CellsInAnyRun` | ipc/posix_ipc/more_demos/appdemo_shm_sem_as_mtx/appdemo_shm_sem_as_mtx.c:197-211 | in any run, ordered or not, each byte is what one of its writers wrote, or what it was |
| `SharedFill.HarmlessRace` | ipc/posix_ipc/more_demos/appdemo_shm_sem_as_mtx/appdemo_shm_sem_as_mtx.c:197-211 | in any run of either mode the result is that of parent-then-child if no byte is given two letters |
| `SharedFill.HarmfulRace` | ipc/posix_ipc/more_demos/appdemo_shm_sem_as_mtx/appdemo_shm_sem_as_mtx.c:185-211 | otherwise there is an unordered run, in semaphore mode one with a failed sem_wait(), that ends in something else |
| `SharedFill.RaceHarmlessExactly` | ipc/posix_ipc/more_demos/appdemo_shm_sem_as_mtx/appdemo_shm_sem_as_mtx.c:179-222 | in either mode all unordered finished runs end as parent-then-child does if and only if no byte is given two letters |
| `HexDump.HexDump` | common.c:168-218 | what is printed after the ruler is a line per 16 bytes and one for the rest; all writes stay in the 128-byte buffer |
| `HexDump.LineColumns` | common.c:190-214 | every column of a line, literally: '+' and the first four hexadecimal digits of the offset, two digits with the value of each byte, the character itself or a dot, blanks; nothing stale in a short line |
| `HexDump.ReadBackIsInverse` | common.c:197-217 | there are ceil(size / 16) lines, and reading their hexadecimal columns gives back exactly the data |
| `HexDump.ReadTextOfDump` | common.c:210-213 | reading the ASCII columns gives the data with dots for what is not printable |
| `HexDump.TextIsDataIfPrintable` | common.c:210-213 | which is the data if and only if all of it is printable |
| `HexDump.OffsetRightBelow64K` | common.c:202-203 | a printed offset is right if and only if it is below 65536 |
| `UrlDecode.UrlEncodingDecode` | ipc/net_sockets/inet_domain/server_pre_threaded/svr_pre_mt.c:174-193 | decodes any C string within strlen + 1 bytes, terminator included, and reads nothing beyond its end; as a C string the result is the whole decoding if and only if nothing decodes to NUL |
| `UrlDecode.FromHexValue` | ipc/net_sockets/inet_domain/server_pre_threaded/svr_pre_mt.c:162-165 | the value of every character, of digits of either case and of what is no digit |
| `UrlDecode.HexPairHalves` | ipc/net_sockets/inet_domain/server_pre_threaded/svr_pre_mt.c:180-181 | the halves of the decoded octet, also for malformed digits |
| `UrlDecode.DecodeInvertsEncode` | ipc/net_sockets/inet_domain/server_pre_threaded/svr_pre_mt.c:162-193 | every encoding of every octet string, with either hexadecimal case and "+" or "%20" for a space, decodes to it |
| `LineFraming.GetLine` | ipc/net_sockets/inet_domain/server_pre_threaded/svr_pre_mt.c:93-116 | returns and consumes the first line as specified for every stream: CR LF dropped, bare LF kept, lone CR skipped, cut at size - 1 |
| `LineFraming.ScanShape` | ipc/net_sockets/inet_domain/server_pre_threaded/svr_pre_mt.c:93-116 | for every stream a line holds no CR, and LF only as its last byte |
| `LineFraming.ScanFramed` | ipc/net_sockets/inet_domain/server_pre_threaded/svr_pre_mt.c:99-112 | from any position of it a CR LF framed line is taken with its CR LF if it is shorter than the room, otherwise cut with everything after it left |
| `LineFraming.GetLines` | ipc/net_sockets/inet_domain/server_pre_threaded/svr_pre_mt.c:93-116 | successive calls on one socket and one buffer return the successive lines of the specification |
| `LineFraming.RecoversExactlyWhenFits` | ipc/net_sockets/inet_domain/server_pre_threaded/svr_pre_mt.c:93-116 | successive calls recover any list of lines, empty ones included, if and only if each is shorter than the room, or fills it and is followed by empty lines only |
| `PrimeGen.SimplePrimegen` | containers/podman_try/primegen/primegen.c:42-72 | prints 2, 3 and, ascending, whatever trial division below limit / 2 lets through, and counts it |
| `PrimeGen.PassesExactlyPrimes` | containers/podman_try/primegen/primegen.c:49-54 | from limit 6 on a number up to the limit passes if and only if it is prime |
| `PrimeGen.PrimesExactlyFrom6` | containers/podman_try/primegen/primegen.c:42-72 | the output is exactly the primes if and only if the limit is 3 or at least 6; for 4 and 5 it has the number 4 besides |

## Left out

- Chat server: descriptors at or above `FD_SETSIZE`, for which `FD_SET` is undefined, and SIGPIPE ending the process in `send`; what holds up to that point is covered.
- ChatServer.Server.Run: any finite number of iterations stands for the endless loop.
- ChatServer.Kernel.Send: the result of `send`, including short sends, only selects an error message and is not modelled; the messages are those attempted.
- semdemo.c: removal of the set, and with it the branch that removes it when the freeing semop() fails; `SemDemo.LockAvailability` shows that without removal this cannot happen. `initsem` with more than one semaphore.
- sem2.c: it sets the semaphore to 1 while its lock waits for 0, so nobody ever gets in.
- SysVSem.SemId.RSemop, RestartIO.RRead, RestartIO.RWrite: return only because `patience` bounds the interruptions and empty writes by some number; without such a bound the programs may loop for ever.
- Admission.Conservation: all clients send with the same priority, so the message queue is modelled as first in, first out.
- FileTransfer.Pump: tsent and trecv are unbounded here; the programs' `int` overflows at 2^31 bytes. The same holds for the totals of the restart library and for `count` in pt4-condvar.c.
- FileTransfer: the MODERN branch (one `sendfile` call, which may be short) and the single read of the file name.
- InternetChecksum.Checksum: words are read as a little-endian host does, and `unsigned long` has 64 bits; on a big-endian host the odd last byte would be added in the wrong half. RFC 768's rule that a zero UDP checksum is sent as all ones is not in the program.
- Reaper.LoopsForgetNoZombie: in xfer_file.c the second loop runs with SA_NOCLDWAIT, so there it has nothing to do; it is modelled as a handler that has.
- Reaper.LoopReturns: for the loop of zombies_clear_traditional.c only from the moment at which no child is alive; before that `Reaper.HeldUpByLiveChild` shows that it does not return.
- UrlDecode.UrlEncodingDecode: `isdigit` and `tolower` leave octets above 127 alone here; in C a negative `char` argument is undefined.
- LineFraming.GetLines: the repository defines `get_line` and does not call it; this stands for a caller.
- HexDump.HexDump: the caption and the ruler are fixed text and not modelled.
- PrimeGen.SimplePrimegen: number formatting and line wrapping.
- `waitfdtimed`, `readtimed`, `add2currenttime`, `gettimeout`: wall-clock time.
- `fd_read`/`fd_write` of cpudtl_tstsvr.c, `dec2bin`, `timeval_subtract`, bankacc_datarace.c, pt3-matrixmul.c, mutex_debugcheck.c, socket set-up, exec and fork demos, Makefiles and scripts: easier members of the families above, or fixed demonstrations.
