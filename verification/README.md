# SentinelOps: verified model of the stateful cores

This project models the parts of SentinelOps whose correctness is about whole runs and proves what they
promise: the login rate limiter and the logins that drive it, the tunnel manager under concurrency, session
bookkeeping, SSH remote forwarding, the memory, Redis and Postgres stores where they share an interface, the
forwarding policy's text formats, the OPA decision cache, and the two input validators.

Time is an integer and every clock reading is a parameter. Concurrent code is a state machine whose steps are
what runs between two lock or hook boundaries; a theorem about every sequence of steps is a theorem about every
interleaving. Code that updates objects is a class whose methods are proved against functions on values, and the
theorems are about those functions.

`dafny verify dfyconfig.toml` checks everything.

| file | contents |
|---|---|
| RateLimiter.dfy | limiter objects, step functions, the full-history reference |
| LoginProtocol.dfy, LoginConnections.dfy | throughput bound, interleaved connections, the TCP login loop |
| TunnelManager.dfy, TunnelProtocol.dfy, TunnelRuns.dfy | manager object, close rule, racing goroutines, progress |
| SessionRegistry.dfy | registry object, interleaved connections |
| RemoteForward.dfy | global requests, listener registry, replies |
| ForwardPolicy.dfy, Text.dfy | printing, parsing, policy decisions |
| RedisStore.dfy, MemoryModel.dfy, MemoryStore.dfy, Attempts.dfy, Paging.dfy | the stores |
| OpaCache.dfy | decision cache |
| Validators.dfy | Go rules, Rust guard, hybrid |
| Counting.dfy, Sequences.dfy, Words.dfy | counting goroutines that satisfy a predicate, filtering and sorting, 64-bit integers |

Where promise and code part, the code is followed and the exact condition is proved: RecordFailure can answer
"allowed" while a lock runs (`LoginProtocol.FailureAnswerExactly`, and for which configurations
`LoginProtocol.NoContradiction` and `LoginProtocol.ContradictionReached`), the tunnel gauge can be negative
(`TunnelRuns.GaugeSign`), ids repeat when the counter wraps (`TunnelRuns.IdsRepeatExactly`), CloseAll does not stop
later forwards (`RemoteForward.LateRequestsLeaveNothingIff`), the hybrid validator can differ from its guard
(`Validators.HybridDiffersExactly`), the memory store forgets a lock on rollover
(`Attempts.StoresCompared`), index and records can part in Redis (`RedisIndex.UpdateAgreesIff`), and a page can
overflow (`Paging.WindowExact`). The two silent paths of `RemoteForward.RepliesInOrder` are branches of the code
that net.Listen on "tcp" does not reach, since it returns TCP addresses with 16-bit ports.

## Model

| member | source | states |
|---|---|---|
| Text.TrimSplits | internal/forwarding/policy.go:121 | Trimming cuts spaces off both ends and nothing else |
| Text.TrimUnique | internal/forwarding/policy.go:121 | What remains is the only core without spaces at its ends |
| Text.LowerLetter | internal/forwarding/policy.go:121 | Lower-casing maps each capital letter to its small one |
| Text.LowerOther | internal/forwarding/policy.go:121 | And leaves every other character alone |
| Text.SpacesExactly | internal/forwarding/policy.go:121 | The six ASCII spaces and no other character are trimmed |
| Text.SplitInvertsJoin | internal/forwarding/policy.go:102 | Splitting a joined list of comma-free items gives the items back |
| Text.ParseInvertsPadded | internal/forwarding/manager.go:67 | Zero-padded printing can be read back |
| RateLimiting.Defaulted | internal/auth/ratelimiter.go:38-56 | Each setting that is not positive becomes 5 failures, one minute or one minute, and each positive one stays, independently of the others |
| RateLimiting.KeepRecent | internal/auth/ratelimiter.go:129-137 | Compacting in place over its own backing array leaves exactly the order-preserving filter of the original values in front and the cells behind untouched |
| RateLimiting.Append | internal/auth/ratelimiter.go:108 | Appending after compaction yields the old values followed by the new one, in the same array or in a new one |
| RateLimiting.RecentCounts | internal/auth/ratelimiter.go:129-137 | The filter keeps as many failures as the reference counts in the window by set cardinality |
| RateLimiting.RecentRecent | internal/auth/ratelimiter.go:129-137 | Filtering by an older cutoff first never changes a later filter |
| RateLimiting.PrunedTracks | internal/auth/ratelimiter.go:80 | Pruning an entry keeps it indistinguishable, from now on, from the full history |
| RateLimiting.IdleTracks | internal/auth/ratelimiter.go:88-90 | An entry that Allow deletes answers from then on like no entry at all |
| RateLimiting.FailedTracks | internal/auth/ratelimiter.go:108-111 | Recording a failure on the pruned entry and on the full history keeps the two indistinguishable |
| RateLimiting.RunTracks | internal/auth/ratelimiter.go:66-127 | After every run with a non-decreasing clock, for every key, stored entry and full history agree on every window and lock that can still matter |
| RateLimiting.DecisionsMatchHistory | internal/auth/ratelimiter.go:66-127 | Main theorem: allowed, retry-after and failure count of every call in every clocked run equal those of a limiter that keeps the whole failure history since the last success and never prunes or deletes |
| RateLimiting.AllowForgets | internal/auth/ratelimiter.go:75-91 | Allow drops a key if and only if it is not locked and has no failure in the window; of any other key exactly the failures in the window and the lock remain, and other keys are untouched |
| RateLimiting.DisabledKeepsNothing | internal/auth/ratelimiter.go:66-127 | A disabled limiter remembers nothing in any run |
| RateLimiting.RateEntry.Prune | internal/auth/ratelimiter.go:80 | The entry object holds the filtered failures, with its lock unchanged |
| RateLimiting.RateEntry.Fail | internal/auth/ratelimiter.go:107-111 | The entry object, whether or not its backing array grew, holds the value the step function gives |
| RateLimiting.RateLimiter.constructor | internal/auth/ratelimiter.go:38-56 | A new limiter is empty and has the defaulted configuration |
| RateLimiting.RateLimiter.Allow | internal/auth/ratelimiter.go:66-92 | The heap holds exactly the table of the value model after the call; entries share no objects; the decision is the model's |
| RateLimiting.RateLimiter.RecordFailure | internal/auth/ratelimiter.go:94-118 | Same, creating the entry when the key is new |
| RateLimiting.RateLimiter.RecordSuccess | internal/auth/ratelimiter.go:120-127 | Same: the key is forgotten, all others stay |
| LoginProtocol.AllowCounted | internal/auth/ratelimiter.go:80-92 | While the clock is inside a short interval, asking keeps every failure of the interval in the entry, and refuses once there are maxFailures of them |
| LoginProtocol.FailCounted | internal/auth/ratelimiter.go:94-118 | Recording keeps the same accounting; the lock then covers the rest of the interval |
| LoginProtocol.RunCounted | internal/auth/ratelimiter.go:66-127 | Induction over runs: failures in the interval plus attempts in flight stay within maxFailures + k - 1 from the moment the key is locked |
| LoginProtocol.ThroughputBound | internal/auth/ratelimiter.go:80-117 | Main theorem: an interval no longer than window and lockout, with no success between its failures, holds at most maxFailures + k - 1 failures of a key with at most k attempts in flight, whatever other keys do |
| LoginProtocol.RateBound | internal/auth/ratelimiter.go:80-117 | Over any time: n intervals of such a length hold at most n * (maxFailures + k - 1) failures |
| LoginProtocol.BoundIsAttained | internal/auth/ratelimiter.go:80-117 | For every configuration and k some run obeying the protocol reaches the bound exactly |
| LoginProtocol.FailureAnswerExactly | internal/auth/ratelimiter.go:94-118 | RecordFailure contradicts what Allow would say at that moment if and only if the key was already locked and the window holds too few failures to lock it again |
| LoginProtocol.SoleAttemptUnlocked | internal/server/tcp.go:256-283 | With one attempt at a time the key of an attempt in flight is not locked |
| LoginProtocol.FailureAnswerIsHonest | internal/server/tcp.go:277-281 | With one attempt at a time, RecordFailure says allowed if and only if an attempt at that moment would be let through |
| LoginProtocol.LockedWindowIsFull | internal/auth/ratelimiter.go:94-118 | Unless the lock can outlast the failures that caused it, the window of a locked key still holds enough failures to lock it again |
| LoginProtocol.NoContradiction | internal/auth/ratelimiter.go:94-118 | With maxFailures 1, or 2 and a lockout of at most window + 1, or a lockout of 1, no clocked run at all has RecordFailure say allowed while the key is locked |
| LoginProtocol.ContradictionReached | internal/auth/ratelimiter.go:94-118 | In every other configuration some run with two attempts in flight has it, so the condition on the configuration is exact |
| LoginConnections.CallCounts | internal/auth/ratelimiter.go:66-127 | How one limiter call moves the number of attempts in flight, and when the caller protocol permits it |
| LoginConnections.StepAccounted | internal/transport/sshserver/server.go:151-175 | Each step of a TCP or SSH connection keeps: attempts in flight are the connections waiting for a verdict, and the caller protocol is obeyed as long as no more than k wait at once |
| LoginConnections.ExecAccounted | internal/server/tcp.go:239-286 | The same after every interleaving, so the hypothesis of the throughput bound is what the servers do |
| LoginConnections.ConnectionsBound | internal/transport/sshserver/server.go:151-175 | However connections of either transport interleave, a short interval holds at most maxFailures + k - 1 failures of a key, k being the largest number that ever wait at once for a verdict on it, no matter how many come and go |
| LoginConnections.EnabledIff | internal/server/tcp.go:239-286 | A connection at its prompt can ask or hang up, one waiting for its verdict can be accepted or rejected, and no other step moves it |
| LoginConnections.CallsAreTheSteps | internal/server/tcp.go:257-278 | In every interleaving a rejected attempt records a failure and an accepted one a success, each on the key its connection asked about last, and nothing else reaches the limiter |
| LoginConnections.DoneIff | internal/transport/sshserver/server.go:151-175 | A connection is done if and only if it was accepted or hung up, or is a TCP connection that was told to wait or used its last attempt |
| LoginConnections.TcpAsksBounded | internal/server/tcp.go:232-239 | In every interleaving a TCP connection asks at most as often as it has attempts, and is at its prompt only with an attempt left |
| LoginConnections.LoggedInIff | internal/server/tcp.go:266-274 | A login succeeds if and only if the last credentials typed in were let through and accepted |
| LoginConnections.FollowedCalls | internal/server/tcp.go:257-278 | Each turn of a login is a question about the key typed in, a success for an accepted password or a failure for a rejected one |
| LoginConnections.DialogueSnoc | internal/server/tcp.go:256-283 | A dialogue that may go on stays well-formed when it asks or records once more, whatever other connections did in between, and its outcome is decided by that call |
| LoginConnections.Meanwhile | internal/auth/ratelimiter.go:66-127 | Calls of other connections leave the limiter with the replay of those calls |
| LoginConnections.Decide | internal/auth/ratelimiter.go:38-127 | A limiter object driven by any calls whose clock does not go back answers every one of them as the full history of its key does |
| LoginConnections.Take | internal/server/tcp.go:258-277 | One call of the connection is answered from the table the others left |
| LoginConnections.Attempt | internal/server/tcp.go:256-285 | One round asks about the typed credentials and records their verdict if it was let through; it logs in if and only if they were let through and accepted |
| LoginConnections.Authenticate | internal/server/tcp.go:231-289 | With any calls of other connections between its own, it logs in if and only if the last credentials let through were accepted, records a success for exactly the accepted ones and a failure for the rejected, reports limited if and only if its last answer refuses, exhausted only after all rounds (three unless configured), and disconnected only at an input error before that |
| TunnelManager.TunnelIdInjective | internal/forwarding/manager.go:67 | Ids are equal if and only if their sequence numbers are, below and above six digits |
| TunnelManager.TunnelIdText | internal/forwarding/manager.go:67 | An id is "tun-" and the decimal number, padded with zeros to six digits and no further |
| TunnelManager.CloseRule | internal/access/roles.go:14-23 | An administrator may close any tunnel, an owner their own, whatever the case or padding of names; a blank requester owns nothing, and nobody else may close one |
| TunnelManager.Manager.constructor | internal/forwarding/manager.go:49-54 | A new manager has no tunnel and has done nothing |
| TunnelManager.Manager.Add | internal/forwarding/manager.go:65-84 | The locked part: until the 64-bit counter wraps, storing a tunnel overwrites none |
| TunnelManager.Manager.Open | internal/forwarding/manager.go:64-92 | Until the counter wraps every tunnel that was open stays open and there is one more; the open hook follows |
| TunnelManager.Manager.Take | internal/forwarding/manager.go:107-112 | The locked part: finds the tunnel if and only if it is there, and removes it |
| TunnelManager.Manager.Close | internal/forwarding/manager.go:106-127 | True if and only if the tunnel was there; then it is removed, stopped and announced, in that order, and nothing else changes |
| TunnelManager.Manager.Snapshot | internal/forwarding/manager.go:135-149 | Every stored tunnel exactly once and nothing else, oldest first |
| TunnelManager.Manager.SnapshotByUsername | internal/forwarding/manager.go:151-163 | Every stored tunnel of that user exactly once, oldest first, whatever the case or padding of the name |
| TunnelProtocol.NextIdIsNew | internal/forwarding/manager.go:66-67 | While the counter has not wrapped, the next id was never issued |
| TunnelProtocol.AdvanceBase | internal/forwarding/manager.go:64-127 | Every goroutine step keeps the identity invariant: stored tunnels are the issued ones, each closer holds a tunnel its requester may close |
| TunnelProtocol.StepBase | internal/forwarding/manager.go:64-127 | The same for every step, new goroutines included |
| TunnelProtocol.AdvanceTally | internal/forwarding/manager.go:64-127 | Every goroutine step keeps the per-tunnel accounts: in the map or removed by one Close; one driver; stops, teardowns and hooks run match what goroutines have passed |
| TunnelProtocol.AdvanceConserved | internal/forwarding/manager.go:64-127 | Every goroutine step keeps the gauge equation for either direction |
| TunnelProtocol.StepKeeps | internal/forwarding/manager.go:64-127 | Every step keeps all three invariants |
| TunnelProtocol.ExecKeeps | internal/forwarding/manager.go:64-127 | All three hold after every interleaving of opens, closes, API and shell requests |
| TunnelProtocol.AtMostOnce | internal/forwarding/manager.go:106-127 | In every interleaving at most one Close of an id returns true, and its stop, hooks and teardown run at most once |
| TunnelProtocol.GaugeConservation | cmd/server/main.go:83-96 | In every reachable state, per direction: gauge = tunnels in the map - open hooks pending + close hooks pending |
| TunnelProtocol.ShellRemovesOnlyPermitted | internal/commands/tunnels.go:43-54 | Every tunnel the shell command ever removes passed the owner or role check for that requester, although the check and the removal are separate steps |
| TunnelProtocol.FinishedExactlyOnce | internal/transport/sshserver/server.go:389-407 | When all goroutines have finished no tunnel is left, gauges are zero, and for every tunnel one Close returned true and stop, both hooks and the once-guarded teardown ran exactly once although it is called from two places |
| TunnelProtocol.StopsAndHooks | internal/forwarding/manager.go:118-126 | A Close nobody interferes with ends with the teardown done, the gauge one lower and the answer true |
| TunnelProtocol.RequestsStart | internal/forwarding/manager.go:64-127 | Every forwarding, API or shell request starts its goroutine and changes nothing else |
| TunnelProtocol.ShellCloses | internal/commands/tunnels.go:43-54 | An undisturbed shell close by an administrator or the owner removes exactly its tunnel, lowers the gauge by one and reports success |
| TunnelProtocol.RequestRefused | internal/commands/tunnels.go:44-50 | A shell close by anyone else, and any request for a tunnel that is not there, ends unsuccessfully and changes nothing |
| TunnelProtocol.ApiCloses | internal/controlplane/httpapi/server.go:303-308 | An undisturbed API request removes exactly its tunnel and lowers its gauge by one |
| TunnelProtocol.GaugeCanDip | internal/forwarding/manager.go:82-89 | The close hook can overtake the open hook: some interleaving leaves the gauge at -1 |
| TunnelRuns.NthId | internal/forwarding/manager.go:66-67 | In every run the n-th open gets the id of n modulo 2^64 |
| TunnelRuns.IdsRepeatExactly | internal/forwarding/manager.go:66-67 | In every run two opens share an id if and only if the 64-bit counter came round in between |
| TunnelRuns.AdvanceProgress | internal/forwarding/manager.go:64-127 | A step moves only its own goroutine, and forward, or changes nothing |
| TunnelRuns.WorkFalls | internal/forwarding/manager.go:64-127 | Every step that changes anything uses up a bounded amount of work, so goroutines once started cannot run for ever |
| TunnelRuns.NotStuck | internal/transport/sshserver/server.go:389-407 | No deadlock: in every reachable state with an unfinished goroutine some goroutine can step, those waiting on a sync.Once included |
| TunnelRuns.CanFinish | internal/transport/sshserver/server.go:389-407 | From every reachable state the goroutines already started can be brought to an end within that amount of work |
| TunnelRuns.ExecShown | cmd/server/main.go:83-96 | In every reachable state the gauge is the number of tunnels whose open hook ran less those whose close hook ran |
| TunnelRuns.GaugeSign | cmd/server/main.go:83-96 | So it is negative if and only if the tunnels whose close hook overtook their open hook outnumber those announced open and not yet closed |
| TunnelRuns.LockedSection | internal/forwarding/manager.go:64-127 | The locked section of a goroutine step, run on the manager object, gives the map the step machine gives |
| TunnelRuns.Drive | internal/forwarding/manager.go:64-127 | A manager object driven by any interleaving holds exactly the tunnels of the state machine |
| SessionRegistry.SessionIdInjective | internal/session/session.go:23-24 | Session ids are equal if and only if their counter values agree modulo 2^64 |
| SessionRegistry.SessionIdText | internal/session/session.go:24 | An id is "sess-" and the decimal counter, padded with zeros to six digits and no further |
| SessionRegistry.ConnectionLife | internal/server/tcp.go:88-104 | A connection nobody disturbs is counted, registered, unregistered and discounted, in that order |
| SessionRegistry.Registry.constructor | internal/session/registry.go:27-29 | A new registry is empty |
| SessionRegistry.ExecLoose | internal/server/tcp.go:88-104 | After every interleaving the gauge counts the connections past the open mark, and registered ids are held by connections, pairwise different until the counter wraps |
| SessionRegistry.RegistryBounded | internal/session/registry.go:37-54 | Ids held by registered connections are at most as many as those connections |
| SessionRegistry.RegistryFull | internal/session/registry.go:37-54 | If they are pairwise different and all present, at least as many |
| SessionRegistry.RegistryWithinGauge | internal/server/tcp.go:96-104 | In every reachable state the registry never exceeds the active-sessions gauge, and equals it when no connection is on its way in or out |
| SessionRegistry.Server.Progress | internal/server/tcp.go:96-104 | A connection step on the registry object and the gauge is the step of the state machine, and every session is announced once when it enters the registry and once when it leaves |
| SessionRegistry.Server.Take | internal/session/registry.go:37-54 | Same for every step, new connections included |
| SessionRegistry.Serve | internal/server/tcp.go:88-104 | Driven by any interleaving, the registry object never holds more sessions than the gauge shows, and as many when no connection is on its way in or out |
| ForwardPolicy.TargetForm | internal/forwarding/policy.go:96-98 | A printed target is the normalized host, in brackets if and only if it has a colon, then a colon and the decimal port |
| ForwardPolicy.TailUnique | internal/forwarding/policy.go:96-98 | A port tail is recovered uniquely from the right |
| ForwardPolicy.BracketedInjective | internal/forwarding/policy.go:96-98 | Bracketing hosts with colons never confuses two hosts |
| ForwardPolicy.NormalizeTargetInjective | internal/forwarding/policy.go:96-98 | Two targets print alike if and only if hosts agree up to case and padding and ports are equal, hosts with colons included |
| ForwardPolicy.TargetNormal | internal/forwarding/policy.go:96-121 | A printed target is already a normal form, so the list parser leaves it alone |
| ForwardPolicy.ParseCsvSet | internal/forwarding/policy.go:100-110 | The loop yields exactly the non-empty normalized items |
| ForwardPolicy.ParseSetNormal | internal/forwarding/policy.go:100-110 | Members of a parsed set are normal, non-empty and comma-free |
| ForwardPolicy.ParsePrinted | internal/forwarding/policy.go:100-110 | Parsing a printed list of such items gives back exactly those items |
| ForwardPolicy.CsvRoundTrip | internal/forwarding/policy.go:100-119 | For every text, printing the parsed set in any order and parsing again gives the same set |
| ForwardPolicy.LeqExactly | internal/forwarding/policy.go:117 | The order is the dictionary's: a text comes before its continuations, and the first difference decides |
| ForwardPolicy.SortedKeys | internal/forwarding/policy.go:112-119 | Every key exactly once, in that order |
| ForwardPolicy.PrintedParses | internal/forwarding/policy.go:96-110 | A target is in the list printed from comma-free targets if and only if one of them means the same host and port |
| ForwardPolicy.ParseSetExact | internal/forwarding/policy.go:100-110 | A text lists an item if and only if some part between commas is it up to case and padding, blank parts aside |
| ForwardPolicy.PolicyExact | internal/forwarding/policy.go:19-69 | For any texts and switches, each direction admits a target if and only if it is enabled, its roles list the role or nobody, and its list has the target; without a policy nothing is admitted |
| ForwardPolicy.PolicyAdmitsExactly | internal/forwarding/policy.go:19-69 | A policy built from the printed form of comma-free targets admits exactly those targets for exactly the listed roles, in the enabled directions, whatever the case or padding |
| ForwardPolicy.CommaHostNeverAdmitted | internal/forwarding/policy.go:96-110 | No allowlist text whatever admits a host with a comma in it |
| RemoteForward.Connection.constructor | internal/transport/sshserver/server.go:51-53 | A new connection has no listener |
| RemoteForward.Connection.Remove | internal/transport/sshserver/server.go:59-65 | Returns the listener under the address if there is one, and forgets it |
| RemoteForward.Connection.CloseAll | internal/transport/sshserver/server.go:66-73 | Closes exactly the registered listeners and empties the registry |
| RemoteForward.Connection.HandleForward | internal/transport/sshserver/server.go:279-335 | State and reply are the value model's on every path; a bind the policy does not admit changes nothing and is denied |
| RemoteForward.Connection.HandleCancel | internal/transport/sshserver/server.go:337-358 | State and reply are the value model's, an unknown address included |
| RemoteForward.Connection.HandleRequest | internal/transport/sshserver/server.go:266-276 | Dispatch by request type; an unknown request changes nothing and is denied |
| RemoteForward.Connection.HandleGlobalRequests | internal/transport/sshserver/server.go:264-277 | The loop over requests extends the run of the connection by exactly those requests, and its replies are the run's |
| RemoteForward.ForwardExactly | internal/transport/sshserver/server.go:279-335 | A forward opens its listener if and only if it is well-formed, admitted by the policy and bound to a TCP port in range; the reply carries the bound port if and only if the request left it open |
| RemoteForward.CancelExactly | internal/transport/sshserver/server.go:271-358 | A cancel closes and forgets exactly its address's listener and is granted either way; malformed and unknown requests are denied and change nothing |
| RemoteForward.RegisteredIsAdmitted | internal/transport/sshserver/server.go:291-324 | In every run each registered address was bound by a forward whose requested host and port the policy admits for the peer |
| RemoteForward.StepExact | internal/transport/sshserver/server.go:46-73 | A request or CloseAll keeps live listeners and registry in bijection if net.Listen hands out free addresses |
| RemoteForward.OpenListenersAreRegistered | internal/transport/sshserver/server.go:264-358 | In every run the open listeners are exactly the registry's values, each under its own address |
| RemoteForward.PutOrphansIff | internal/transport/sshserver/server.go:54-58 | A new listener leaves an older one open and out of reach if and only if its address is already registered |
| RemoteForward.CancelUndoesForward | internal/transport/sshserver/server.go:322-353 | Forward and then cancel with the port actually bound, under any spelling of the host, restores the connection (section 7.1 of RFC 4254) |
| RemoteForward.CancelTouchesNothingElse | internal/transport/sshserver/server.go:348-353 | Cancelling leaves every listener on another host or port open and registered |
| RemoteForward.CloseAllLast | internal/transport/sshserver/server.go:66-73 | CloseAll after the last request leaves nothing open |
| RemoteForward.LateRequestsStartAfresh | internal/transport/sshserver/server.go:239-241 | Whatever is handled after CloseAll, by the goroutine that outlives it, behaves as on a new connection |
| RemoteForward.RegisteredIff | internal/transport/sshserver/server.go:264-358 | An address is registered if and only if some forward bound it and neither a cancel of it nor CloseAll followed |
| RemoteForward.LateRequestsLeaveNothingIff | internal/transport/sshserver/server.go:239-241 | Any requests handled after CloseAll leave nothing open if and only if each forward among them that binds an address is followed by a cancel of that address or by another CloseAll |
| RemoteForward.LateForwardStaysOpen | internal/transport/sshserver/server.go:239-241 | One late request leaves its listener open if and only if it binds one |
| RemoteForward.RepliesInOrder | internal/transport/sshserver/server.go:264-358 | Replies come in request order, one for each request that wants one, except if and only if a listener was opened with a non-TCP address or a port out of range (section 4 of RFC 4254) |
| Paging.WindowExact | internal/store/memory.go:431-443 | The window is the clipped slice, and panics if and only if there is something to show and offset + limit overflows 64 bits |
| Paging.OnePage | internal/store/memory.go:431-443 | A page is what lies between two prefixes of the input |
| Paging.PagesConcatenate | internal/store/memory.go:431-443 | n successive pages are the first n * limit rows, once each and in order |
| RedisKeys.KeysCollideExactly | internal/store/redis.go:335-340 | Two keys have the same name if and only if they are the same key, or a session id starts with "tunnels:" or a rate-limit name with "lock:" in the one matching way |
| RedisIndex.AgreementMeansScan | internal/store/redis.go:96-116 | Listing through the index equals a full scan for all owners and filters if and only if every record is indexed under its owner and nowhere else |
| RedisIndex.ListedIsScanned | internal/store/redis.go:96-116 | Under that agreement each listing equals its scan |
| RedisIndex.CreateAgreesIff | internal/store/redis.go:39-58 | Creating keeps the agreement if and only if no other owner's index names the id |
| RedisIndex.UpdateAgreesIff | internal/store/redis.go:75-82 | Updating keeps it if and only if the id is indexed under the record's owner and no other |
| RedisIndex.UnknownUpdateIsUnlisted | internal/store/redis.go:75-82 | Updating an id never created, on an empty store, leaves a live record that no listing finds |
| RedisIndex.RemovalAgrees | internal/store/redis.go:84-94 | Deletion and expiry always keep it |
| RedisIndex.StepFaithful | internal/store/redis.go:39-132 | Each admissible operation keeps index sets equal to the ids created and not deleted, each under its owner |
| RedisIndex.RunListsExactly | internal/store/redis.go:39-132 | After every run with fresh ids and owner-keeping updates, and records expiring at any moment, listing by owner finds exactly the live matching records |
| RedisIndex.LiveExactly | internal/store/redis.go:100-114 | A listing has a record if and only if the index names it, it is live, and it has the kind and status asked for |
| RedisIndex.ScannedExactly | internal/store/redis.go:96-116 | A scan has a record if and only if it is live, of the owner, and of the kind and status asked for |
| RedisIndex.RunHolds | internal/store/redis.go:39-225 | After every admissible run the records are exactly those of a plain map without any index that saw the same operations and expiries |
| RedisIndex.RunListsCurrent | internal/store/redis.go:96-116 | So a listing by owner shows exactly the current records of that owner with the kind and status asked for |
| RedisStore.Family.Perform | internal/store/redis.go:39-225 | Any operation or expiry, issued as Redis commands, is the step function of the index model |
| RedisStore.Store.constructor | internal/store/redis.go:36 | A new store is empty |
| RedisStore.Store.CreateSession | internal/store/redis.go:39-58 | The record with defaults filled in is stored and indexed under its user |
| RedisStore.Store.UpdateSession | internal/store/redis.go:75-82 | One SET, with no existence check: the step function for updates, and every index set is as before |
| RedisStore.Store.DeleteSession | internal/store/redis.go:84-94 | Found if and only if live; record and index entry go, tunnels stay |
| RedisStore.Store.TouchSession | internal/store/redis.go:126-132 | Rewrites a live record with a new stamp, else nothing |
| RedisStore.Store.Walk | internal/store/redis.go:100-114 | The loop over set members in any order yields exactly the live members of the kind and status asked for, once each |
| RedisStore.Store.List | internal/store/redis.go:188-211 | The page is the window of the indexed live records of the kind and status asked for; without an owner it is empty |
| RedisStore.Store.CountActiveSessions | internal/store/redis.go:118-124 | The number of indexed live sessions of the user with status "active", which under the agreement is the number of all of them |
| RedisStore.Store.DeleteTunnelsBySession | internal/store/redis.go:213-225 | Every indexed tunnel record and the index set are gone, and exactly the indexed ids are returned |
| RedisStore.ListAfter | internal/store/redis.go:39-132 | The object after any admissible run, with records expiring at any moment, lists exactly the records last written, not removed since, of that owner, kind and status |
| Attempts.MemoryCounters.constructor | internal/store/memory.go:25-32 | No counters at first |
| Attempts.MemoryCounters.IncrementAttempts | internal/store/memory.go:226-238 | The entry and the returned count are the model's, rollover included |
| Attempts.MemoryCounters.LockKey | internal/store/memory.go:270-282 | The entry is locked until the given time, and created with no attempts if missing |
| Attempts.MemoryCounters.ResetAttempts | internal/store/memory.go:251-257 | The key is forgotten, lock included |
| Attempts.MemoryCounters.IsLocked | internal/store/memory.go:259-268 | Locked if and only if a lock is set that has not run out |
| Attempts.RunSimulates | internal/store/postgres.go:365-411 | After every run memory map and rate_limits table hold the same count and first time for every key, and the same lock unless a window rolled over since, when memory has none |
| Attempts.StoresCompared | internal/store/postgres.go:390-411 | Memory locked implies Postgres locked; they differ if and only if the Postgres lock still runs and a window rolled over since it was set |
| Attempts.MemoryDropsLock | internal/store/memory.go:232-234 | A concrete run where they differ |
| Attempts.RowsAreTheHistory | internal/store/postgres.go:365-411 | After every run a row counts the attempts since its window opened, begins with that window, and carries the lock set last and not reset |
| Attempts.Drive | internal/store/memory.go:226-282 | The object after any run reports the attempts of the current window, and locked if and only if the lock set last still runs and no window rolled over since |
| OpaCache.RunReflects | internal/policy/opa.go:264-282 | After every interleaving of locked sections an entry is the latest stored evaluation of its input, and a missing one has expired or never was |
| OpaCache.HitsAreRecent | internal/policy/opa.go:264-276 | A lookup hits if and only if the latest evaluation of the same input was stored at most the time to live ago, and returns its lists |
| OpaCache.HitsAgreeWithOracle | internal/policy/opa.go:264-282 | If stored evaluations follow an oracle, so does every hit, whatever the clock |
| OpaCache.HistoryFollowsOracle | internal/policy/opa.go:204-219 | Only successful evaluations are ever stored |
| OpaCache.CheckIsItsEvents | internal/policy/opa.go:197-220 | The locked sections of one check, run in turn, leave the cache that Check leaves |
| OpaCache.CachedEqualsUncached | internal/policy/opa.go:175-226 | Against a fixed oracle, every check in every run answers the same with and without the cache |
| OpaCache.AnswerExactly | internal/policy/opa.go:197-225 | In any interleaving a check answers with the latest stored evaluation if it is young enough, whatever the sidecar says now, and else with the sidecar's answer |
| OpaCache.ChecksMatchHistory | internal/policy/opa.go:193-282 | Every check in every sequence is answered as by a runner that remembers every answer of the sidecar for ever and looks only at its age |
| OpaCache.CheckAll | internal/policy/opa.go:156-282 | A runner object taken through any checks answers every one of them so, and without the cache as the sidecar does |
| OpaCache.CloneStrings | internal/policy/opa.go:347-351 | A new slice with the same contents |
| OpaCache.HttpRunner.constructor | internal/policy/opa.go:156-173 | Empty cache; the time to live is the configured one if positive and else thirty seconds |
| OpaCache.HttpRunner.SetCached | internal/policy/opa.go:278-282 | The cache holds copies of the lists, in slices of its own |
| OpaCache.HttpRunner.GetCached | internal/policy/opa.go:264-276 | A hit if and only if an entry is there that has not expired, handing out copies of its lists; an expired entry is dropped and nothing else |
| OpaCache.HttpRunner.Check | internal/policy/opa.go:197-225 | Cache and answer are the value model's on hit, expiry, failure and success, and the slices handed out are never the cached ones |
| OpaCache.Scribble | internal/policy/opa.go:200 | Overwriting any slice a caller holds changes no cached answer |
| Validators.TokensExact | internal/security/validator.go:85-89 | The token check passes if and only if no listed token occurs anywhere |
| Validators.TokensFirst | internal/security/validator.go:85-89 | The first listed token that occurs is the one reported |
| Validators.StaticRulesExactly | internal/security/validator.go:65-91 | The static rules accept if and only if the trimmed input has 1 to 120 characters and none of six written-out sequences starts anywhere; empty and long inputs are reported as such |
| Validators.GuardExactly | rust/input-guard/src/lib.rs:1-32 | The guard accepts if and only if the trimmed input has 1 to 120 characters, all letters, digits, spaces or one of three marks; empty, long and control-character inputs are reported as such |
| Validators.ReportedToken | rust/input-guard/src/lib.rs:16-21 | Either side reports the first token, of its list written out in order, that occurs |
| Validators.RefusedExactly | internal/security/pathguard.go:56-72 | Which binary names are refused: blank, with NUL, bare and not found, or relative paths that come to nothing or cannot be made absolute |
| Validators.CleanKeeps | internal/security/pathguard.go:12 | Cleaning a path without ".." keeps its components but for empty ones and "." |
| Validators.CleanGoesBack | internal/security/pathguard.go:12 | Each ".." takes back the component before it |
| Validators.AllowedPassTokens | rust/input-guard/src/lib.rs:16-25 | Text made of allowed characters contains no token of either language's list |
| Validators.GuardAcceptsExactly | rust/input-guard/src/lib.rs:1-32 | The guard accepts if and only if the trimmed input has 1 to 120 characters, all from the allowlist |
| Validators.TokenListIsRedundant | rust/input-guard/src/lib.rs:16-29 | Dropping the guard's token list changes no accept or reject |
| Validators.GuardRefinesStaticRules | internal/security/validator.go:65-91 | Every input the Rust guard accepts passes the Go static rules |
| Validators.StaticRulesAreLaxer | internal/security/validator.go:65-91 | The converse fails, by example |
| Validators.NulIsRejected | rust/input-guard/src/lib.rs:12-14 | A NUL character survives trimming and the guard rejects it |
| Validators.HybridVerdict | internal/security/validator.go:40-151 | For every configuration, machine and input: the static rules decide without the guard; a refused binary name rejects everything; if the process cannot do its work or take the input, the static rules decide if and only if it fails open; otherwise the guard decides |
| Validators.HybridDiffersExactly | internal/security/validator.go:128-151 | While the guard can be run, the validator accepts what the guard rejects if and only if it fails open and the input holds a NUL character or is too long for an argument and passes the static rules but not the allowlist; it rejects what the guard accepts if and only if it fails closed and the input is too long |
| Validators.RejectsEverythingIff | internal/security/pathguard.go:56-72 | Nothing gets through if and only if the guard is in use and its name is refused, or it fails closed and can be run on no input |
| Validators.AbsentPathFallsBack | internal/security/pathguard.go:11-24 | A binary named by a path is not looked up: if it is absent, a fail-open validator accepts if and only if the static rules do |
| Validators.HybridDiffers | internal/transport/sshserver/server.go:536-546 | Inputs that show each difference on every machine: one with a NUL character, and ones padded with spaces beyond the argument limit |
| MemoryModel.RunIsItsSlots | internal/store/memory.go:34-179 | After every run each session and tunnel is what its own history says: created only where free, updated only where present, stamped as the operation stamps it, gone with its session |
| MemoryModel.LogSteps | internal/store/memory.go:284-355 | Appending adds exactly the stamped entry, cleanup keeps exactly the entries not too old, and nothing else touches the log |
| MemoryModel.KeepsNoOrphansIff | internal/store/memory.go:141-179 | An operation keeps the store free of orphan tunnels if and only if a tunnel it writes names an existing session |
| MemoryModel.RunHasNoOrphans | internal/store/postgres.go:38 | Under the foreign-key rule for callers no reachable state has a tunnel without its session |
| MemoryModel.DeleteSessionExact | internal/store/memory.go:77-91 | Exactly the session and its tunnels go, all else is unchanged |
| MemoryModel.CleanupConserves | internal/store/memory.go:339-355 | Kept and removed entries together are the old log, each on its side of the cutoff |
| MemoryModel.CleanupTakesPrefix | internal/store/memory.go:339-355 | On a chronological log cleanup removes a prefix |
| MemoryModel.RunIsChronological | internal/store/memory.go:284-294 | In every run whose clock does not go back the log stays chronological, cleanups included |
| MemoryModel.RunCleanupTakesPrefix | internal/store/memory.go:339-355 | So cleanup removes a prefix in every such run |
| MemoryModel.SelectExact | internal/store/memory.go:300-318 | A query selects an entry as often as the log has it if user, action, result and both time bounds match, those left empty aside, and else never |
| MemoryModel.AuditPagesAreTheLog | internal/store/memory.go:296-320 | Successive pages of a query put together are the whole selection, in append order |
| MemoryStore.CloneJsonMap | internal/store/memory.go:392-401 | A new map with the same entries, nil for nil |
| MemoryStore.Clone | internal/store/memory.go:365-390 | A new object with a new map and the same value |
| MemoryStore.Log.Query | internal/store/memory.go:296-320 | Fresh copies of exactly the rows the value model returns, or its panic |
| MemoryStore.Log.Cleanup | internal/store/memory.go:339-355 | The log holds exactly the young entries in order, and the count is of the rest |
| MemoryStore.Store.constructor | internal/store/memory.go:25-32 | A new store is empty and owns its objects |
| MemoryStore.Store.CreateSession | internal/store/memory.go:34-52 | Store and caller's object are the model's, duplicates reported; the store keeps a copy that shares nothing with the caller |
| MemoryStore.Store.GetSession | internal/store/memory.go:54-63 | A fresh copy with the stored value, or not found |
| MemoryStore.Store.UpdateSession | internal/store/memory.go:65-75 | As for creation, unknown ids reported |
| MemoryStore.Store.TouchSession | internal/store/memory.go:129-139 | The stored object is written in place, with no other session changed |
| MemoryStore.Store.DeleteSession | internal/store/memory.go:77-91 | The session and, by the loop, exactly its tunnels are gone |
| MemoryStore.Cascade | internal/store/memory.go:85-89 | Deleting from the map being walked removes exactly the session's tunnels |
| MemoryStore.Store.CreateTunnel | internal/store/memory.go:141-157 | As for sessions |
| MemoryStore.Store.GetTunnel | internal/store/memory.go:159-168 | As for sessions |
| MemoryStore.Store.UpdateTunnel | internal/store/memory.go:170-179 | As for sessions; the caller's object is not written |
| MemoryStore.Store.AppendAuditLog | internal/store/memory.go:284-294 | A stamped copy is appended and the caller's object gets the same id and stamp |
| MemoryStore.Caller.Make | internal/store/memory.go:34-52 | An object the caller makes for the store joins the caller's side, and the store does not change |
| MemoryStore.Caller.CreateSession | internal/store/memory.go:34-52 | Isolation: what the caller holds stays disjoint from what the store owns, and the store has the object's value |
| MemoryStore.Caller.UpdateSession | internal/store/memory.go:65-75 | Isolation is kept, and the store is the model's |
| MemoryStore.Caller.TouchSession | internal/store/memory.go:129-139 | Isolation is kept, and a held copy keeps its value |
| MemoryStore.Caller.DeleteSession | internal/store/memory.go:77-91 | Isolation is kept, and a held copy keeps its value |
| MemoryStore.Caller.CreateTunnel | internal/store/memory.go:141-157 | Isolation is kept, and the store has the object's value |
| MemoryStore.Caller.UpdateTunnel | internal/store/memory.go:170-179 | Isolation is kept, and the store is the model's |
| MemoryStore.Caller.AppendAuditLog | internal/store/memory.go:284-294 | Isolation is kept, and the log ends with the object's value |
| MemoryStore.Caller.GetSession | internal/store/memory.go:54-63 | What is handed out joins the caller's side and has the stored value |
| MemoryStore.Caller.GetTunnel | internal/store/memory.go:159-168 | Same for tunnels |
| MemoryStore.Caller.QueryAuditLog | internal/store/memory.go:296-320 | Every row handed out joins the caller's side and has the value of the model's row; the store does not change |
| MemoryStore.Caller.WriteFields | internal/store/memory.go:365-390 | Whatever a caller writes into the fields of an object it ever held, the store's value stays |
| MemoryStore.Caller.SetMeta | internal/store/memory.go:365-390 | Same for replacing, dropping or sharing the metadata map of a held object |
| MemoryStore.Caller.WriteMeta | internal/store/memory.go:392-401 | Same for metadata maps |

## Left out

- Sockets, the SSH handshake and its attempt limit, io.Copy pumps, TLS, HTTP routing, JSON and gRPC plumbing: input and output, or foreign code.
- Telemetry, logging and Prometheus internals: a gauge is an integer.
- The snapshot files written inside hooks, and the snapshot order of sessions.
- How auth.Key builds a key from an address and a user name: keys are opaque.
- A nil tunnel manager, session registry, stop function, hook or internal validator, and an OPA runner without a base URL: each is one early return.
- Unicode case and space tables: text functions follow the ASCII tables.
- 64-bit overflow of times and durations, and clocks before Go's zero time; clock readings are taken to be non-decreasing in the order in which the lock is taken.
- The growth factor of Go's append: any larger array will do.
- TunnelProtocol.ExecKeeps: for fewer than 2^64 opens, after which ids repeat as TunnelRuns.IdsRepeatExactly says.
- RemoteForward.OpenListenersAreRegistered: net.Listen is taken to return new sockets on addresses no live listener has; PutOrphansIff says what happens otherwise.
- OpaCache.CachedEqualsUncached: cache keys are taken to be injective, as SHA-256 cannot be shown to be; JSON encoding errors are left out.
- MemoryStore.Caller.WriteFields: targets of ClosedAt pointers and nested JSON values are values here, so sharing them is not captured.
- RedisIndex.RunListsExactly: operations run one at a time and JSON is lossless; one stamp stands for the creation and last-active times, and the members of the two tunnel operations that copy the session ones are not repeated.
- Validators.HybridVerdict: whether a bare name is found on the search path, whether the working directory is known, whether the binary runs and how long an argument may get are parameters of the machine; the validator service reached by gRPC is left out.
- Attempts.RunSimulates: one clock reading per operation, although the code reads it twice in places.
- Redis rate-limit scripts and audit stream, Postgres sessions and audit tables, SQL text: foreign engines.
- Memory ListSessions, ListTunnels, CountActiveSessions, CleanupInactiveSessions, DeleteTunnel and DeleteTunnelsBySession on objects: they would repeat the shape of the modelled ones.
- Config loading, path checks, password and key handling, audit findings, Rego, Helm and scripts, and commands other than closing a tunnel.
