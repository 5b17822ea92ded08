# A verified model of the password sync server

The server keeps, per registered user, a set of accounts that several clients edit offline and bring together
by last-writer-wins sync sessions. The model covers the parts of it that carry unbounded properties:

| module | file | what it models |
|---|---|---|
| `Accounts` | `Accounts.dfy` | account records, a replica (name to record), the last-writer-wins merge and its laws |
| `SyncDiff` | `SyncDiff.dfy` | the sync-initial diff and what one session achieves |
| `PostgresStore` | `PostgresStore.dfy` | the accounts table and its conditional multi-row upsert |
| `Replication` | `Replication.dfy` | one server and any number of clients, sessions freely interleaved |
| `Keyspace`, `KeyspaceRuns` | `Keyspace.dfy`, `KeyspaceRuns.dfy` | the Redis keys of all users, pipelines cut anywhere and retried, runs of the whole service |
| `KeyNames` | `KeyNames.dfy` | the texts of the Redis keys, and when they tell different keys apart |
| `RedisStore` | `RedisStore.dfy` | the Redis store: pool, reply alignment, every operation with its retry loop |
| `Handlers` | `Handlers.dfy` | the order in which the handlers change the in-memory cache and the store |
| `PostgresPool` | `PostgresPool.dfy` | the Postgres pool and the upsert retried over it |
| `Runs` | `Runs.dfy` | runs and reachable states of a transition system, and induction over them |
| `Pools` | `Pools.dfy` | the changes both stores make to a pool under its lock |
| `RedisPoolRuns`, `PostgresPoolRuns` | `RedisPoolRuns.dfy`, `PostgresPoolRuns.dfy` | either pool under any number of threads and the connection manager, freely interleaved |
| `ConnectionManager` | `ConnectionManager.dfy` | the manager that trims idle connections |
| `HeapList` | `HeapList.dfy` | packing rows into a chain of character chunks |
| `Decimal`, `SqlBuilder`, `SqlReader` | `Decimal.dfy`, `SqlBuilder.dfy`, `SqlReader.dfy` | building the upsert statement in a growing buffer, and reading it back |
| `VerifyEmail` | `VerifyEmail.dfy` | the e-mail scanner and the grammar it accepts |
| `SelectLoop`, `ClientLife` | `SelectLoop.dfy`, `ClientLife.dfy` | select loop, worker hand-off, control pipes and keep-alive cleaner, and the life of a client among them |
| `Workers`, `ThreadManager` | `Workers.dfy`, `ThreadManager.dfy` | worker threads, service queue, thread manager and shutdown, and when threads are added and ended |
| `Wrappers` | `Wrappers.dfy` | optional results |

Code that updates objects, maps, buffers or counters in place is modelled by classes, arrays and loops, each
method proved against a function or predicate whose own laws are proved beside it. The select loop and the
workers are several threads interleaving, so they are transition systems whose steps are the locked sections.
Names and times of the clients, the order in which sets and maps are listed, and what `select` reports are left
nondeterministic: the theorems hold for all of them. What goes wrong is a list of events ahead of the store,
refused connections, error replies and broken connections, of which every use of the server takes one: contracts
say what a failure must have met, and that without faults there is none. The pools are
modelled twice: by classes whose methods are the sections under the lock, and by runs of many threads in which
the same changes are steps.

## What the code does and a reader might not expect

- Names in step (equal update times) transfer nothing. A session therefore ends with equal records exactly
  when those names held equal records (`SyncDiff.SingleSession`), and two rounds settle the records, beyond
  the times, when name and time determine the record (`Replication.TwoRoundConvergence`).
- A name listed twice by a client is requested again, because the diff has erased the server's copy
  (`SyncDiff.Requested`); the Postgres upsert rejects an upload that writes one row twice, all or nothing.
- The Redis store writes unconditionally. It agrees with the conditional upsert exactly when every row is new,
  strictly newer, or the stored record itself (`Keyspace.OverwriteIsMerge`).
- `upsert_accounts_for_user` and `update_last_sync_for_user` of the Redis store report success for an attempt
  that got no connection: the exception is caught and the flag is still set.
- An error reply to the reading of one account is taken for an account that is gone (`RedisStore.cpp:277-285`): the
  read goes on, and sync-initial replies with a diff that lacks the account.
- A Redis deletion whose replies are all lost leaves the user cached. A later upload is accepted, and after a
  restart the user is forgotten while its accounts remain (`KeyspaceRuns.FailedDeleteThenUploadOrphans`).
- The Redis data cleaner deletes a user's index after deleting the accounts it could read; a partial read
  leaves accounts the index no longer lists (`KeyspaceRuns.PurgeGuardExact`).
- The texts of the Redis keys tell different keys apart exactly when no registered user is another one followed
  by `.account`, alone or with a dot and more behind it. Valid addresses can do that (`KeyNames.AddressesExtend`).
- The pool counters drift. The Redis store counts down once for every failed attempt to get a connection, the
  Postgres store twice for a connection whose statements could not be prepared. The pool laws carry these
  terms; open connections exceed the maximum by no more than them, and can by exactly that much
  (`RedisPoolRuns.BoundIsMet`, `PostgresPoolRuns.BoundIsMet`).
- A thread waiting for a connection waits for an idle one only. Without another thread coming to ask it gets one
  exactly when some connection is idle or some thread has a working one to give back
  (`RedisPoolRuns.ServedIffSomeGood`, `PostgresPoolRuns.ServedIffSomeGives`). When all connections turn out broken
  it still waits, though new ones could be opened; a thread that comes to ask can always help it
  (`RedisPoolRuns.WaiterCanBeServed`).
- The Redis data cleaner asks for a second connection while it holds one. Where the maximum is one it waits for
  itself for ever (`RedisPoolRuns.HolderWaitsForItself`).
- Loading the users at the start needs the last sync time of each. A registration cut between its first and its
  second command leaves a user without one, and the server does not start again
  (`KeyspaceRuns.CutRegistrationBlocksRestart`). A round of the data cleaner loads them in the same way.
- The row estimate of the SQL builder leaves the user out and the `", "` separator is written unchecked: the
  builder stays in its buffer for all account lists exactly for users of at most 34 characters.
- Values are put between quotes as they are: the statement says what was meant exactly when no value holds a quote
  (`SqlBuilder.StatementReadsBack`).
- The connection manager trims a pool with a constant number of connections in use down to the minimum exactly when
  five times that number is at most the count one or two above the minimum from which the last trimming starts
  (`ConnectionManager.ReachesMinimumIff`).
- A chunk of the heap list holds 1024 characters whatever the row needs: packing is safe for all results
  exactly when rows total at most 1018 characters (Postgres, six strings) or 1019 (Redis, five strings).
- The keep-alive cleaner is off by default (`Config.h:18`) and on in the repository's `server.config`. With it
  on, the hand-off is kept by a closing of clients exactly when no listed client is being returned by a worker
  and none was reported ready in the same round (`SelectLoop.GuardExact`). Neither is assured: a client listed
  while select reports it is handed out, served, and closed before it is put back (`SelectLoop.ListedThenServed`),
  and a client listed before select returns may be closed and then scanned (`SelectLoop.ListedAndReady`).
- The thread manager goes on during shutdown. When it counts a thread off after shutdown has queued an end for
  it, no worker is left to take the end it queues itself, and shutdown never returns. When it has counted one off
  and not yet queued its end, shutdown queues one end too few and deletes the store while a worker still serves
  a client. Both can happen exactly when the threads can exceed the configured number by two
  (`Workers.ShutdownSafeIff`, `Workers.StoreSafeIff`).
- The configured maximum of service threads is a bound only when it is at most four, or when none are ever added
  (one or none configured, or as many as the maximum): half of the current threads are added at once
  (`Workers.MaximumIsBoundIff`).
- The label limits of the e-mail scanner are the code's own: 63 for the first label, or 64 when it is also the
  last; 62 for later labels, or 63 for the last. RFC 1035 section 2.3.4 has 63 for every label.

## Model

| member | source | states |
|---|---|---|
| Accounts.MergeAllIsLatest | data_store_connection.h:34-38 | The conditional upsert of any rows yields, per name, a record no older than any row or stored record, and only records that were stored or uploaded |
| Accounts.LatestUnique | data_store_connection.h:34-38 | That description determines the result when name and time determine the record, whichever sequences hold the rows |
| Accounts.OrderIndependent | data_store_connection.h:34-38 | Uploading the same records in another order or repeatedly gives the same names and times, and the same records when name and time determine them |
| Accounts.MergeAllConcat | data_store_connection.cpp:246-259 | Two uploads one after the other equal one upload of both |
| Accounts.MergeCoveredIsIdentity | data_store_connection.h:38 | Rows that are not newer change nothing |
| SyncDiff.HandleSyncInitial | sync_handler.cpp:243-291 | The erasing diff loop replies exactly: requested names in list order, outdated records in list order, then every unlisted server record once; repeated names included |
| SyncDiff.ListRemaining | sync_handler.cpp:281-291 | What is left in the map is shipped, each record exactly once |
| SyncDiff.ResponseRequests | sync_handler.cpp:255-266 | For distinct names, a name is requested if and only if the client has it and the server lacks it or is older |
| SyncDiff.ResponseShips | sync_handler.cpp:267-291 | A record is shipped if and only if it is the server's and the client lacks the name or is older |
| SyncDiff.SyncPartition | sync_handler.cpp:243-291 | Every name of either side is in exactly one of upload, download, in step; no other name in any |
| SyncDiff.UploadReachesServer | sync_handler.cpp:324-353 | After the requested upload the server covers everything the client announced |
| SyncDiff.DownloadReachesClient | sync_handler.cpp:267-291 | After applying the download the client covers everything the server held |
| SyncDiff.SessionOutcome | sync_handler.cpp:243-353 | Which record of each name each side holds after an undisturbed session |
| SyncDiff.SingleSession | sync_handler.cpp:204-372 | An undisturbed session leaves both sides with the pointwise latest times; with equal replicas if and only if names in step held equal records |
| PostgresStore.Table.Upsert | data_store_connection.cpp:232-277 | Rejected as a whole if and only if one row would be written twice; otherwise the table is the merge of its rows and the upload |
| PostgresStore.RowStep | data_store_connection.h:35-38 | When one more row makes a statement write a row twice |
| PostgresStore.DistinctNamesAccepted | data_store_connection.h:35-38 | An upload of distinct names is never rejected |
| PostgresStore.RetryIsHarmless | data_store_connection.cpp:393-436 | A statement executed again after its reply was lost is accepted and changes nothing |
| Replication.RunGood | sync_handler.cpp:204-372 | In every run, every record held or in flight comes from the start or an edit, and the server covers what is in flight |
| Replication.RunServerMonotone | data_store_connection.h:38 | In no run does any name's time on the server fall |
| Replication.ServerIsMergeOfUploads | sync_handler.cpp:350-353 | After any run the server is the merge of its start with all committed uploads, replies lost or not |
| Replication.RunsCommute | sync_handler.cpp:350-353 | Two runs committing the same records, in any order and number, end with servers of the same names and times, and the same records when name and time determine them |
| Replication.NoResurrection | data_store_connection.h:38 | After a tombstone is stored, a live record of that name appears only with a strictly later time |
| Replication.SessionUploads | sync_handler.cpp:304-372 | A session interleaved with any others brings what its client held at the start to the server |
| Replication.SessionDownloads | sync_handler.cpp:204-299 | It brings what the server held at its sync-initial to the client |
| Replication.EverythingIsLatest | sync_handler.cpp:204-372 | A replica holding per name the latest record of any replica exists: the target of convergence |
| Replication.OneRoundSettlesServer | sync_handler.cpp:204-372 | Without edits, after every client completed one session, the server holds the latest times of all replicas |
| Replication.SecondRoundSettlesClient | sync_handler.cpp:204-372 | A client completing a session after that holds them too |
| Replication.TwoRoundConvergence | sync_handler.cpp:204-372 | From any state and under any interleaving, two rounds of sessions leave the server and every client with the latest times of all replicas; with the latest records when name and time determine them |
| Keyspace.UpsertRetryTransparent | RedisStore.cpp:396-419 | Any number of attempts, each cut after any prefix, then a full one leave the keyspace of one full attempt |
| Keyspace.UpsertOverwrites | RedisStore.cpp:404-411 | The pipeline stores the last row of each name and leaves the rest of the user and all other users alone |
| Keyspace.OverwriteIsMerge | RedisStore.cpp:404-411 | For distinct names the unconditional writes equal the conditional upsert if and only if every row is new, newer, or the stored record |
| KeyspaceRuns.ReadIsStored | RedisStore.cpp:262-334 | Reading the index and then each listed account yields exactly the stored accounts if and only if the index covers them |
| KeyspaceRuns.UpsertPrefixSound | RedisStore.cpp:404-411 | Any prefix of an upload keeps the index covering the accounts: names are indexed before they are written |
| KeyspaceRuns.UpsertRunSound | RedisStore.cpp:396-419 | So does any number of cut attempts; no user is registered or removed and no other user gets a key |
| KeyspaceRuns.DeletePrefixEffect | RedisStore.cpp:188-207 | What any prefix of a deletion has removed: accounts first, then the index, the user, the sync time |
| KeyspaceRuns.DeleteAttemptKeeps | RedisStore.cpp:181-224 | Any cut deletion keeps everyone else's data and a sound index; a full one removes the user and every account its index listed |
| KeyspaceRuns.DeleteRetryTransparent | RedisStore.cpp:181-224 | Cut attempts and then a full one, each reading the index anew, leave the keyspace without the user and the accounts listed at the start, otherwise unchanged; from a sound one, without any of its accounts |
| KeyspaceRuns.CreateRetryTransparent | RedisStore.cpp:136-169 | Cut registrations followed by a full one equal one full one; a cut one changes at most the user's own entry, sync time and index |
| KeyspaceRuns.CreateFull | RedisStore.cpp:136-169 | A full registration stores the password and the sync time and empties the user's index, and changes nothing else |
| KeyspaceRuns.RegisterKeeps | sync_handler.cpp:100-112 | Registering, successful or not, keeps the invariant: the removal of the index orphans nothing |
| KeyspaceRuns.DeleteKeeps | sync_handler.cpp:183-192 | So does deleting, whatever was cut |
| KeyspaceRuns.SyncFinalKeeps | sync_handler.cpp:350-356 | So does an upload for a user the store still registers |
| KeyspaceRuns.PurgeKeeps | RedisStore.cpp:623-642 | So does the cleaner when it read all accounts of the user |
| KeyspaceRuns.RunKeepsIndexSound | RedisStore.cpp:136-422 | Over every run of registrations, deletions, uploads, cleaner visits and restarts, cut anywhere, under these guards: every account is indexed, users neither cached nor registered own no key, and reads are exact |
| KeyspaceRuns.UploadGuardExact | sync_handler.cpp:350-353 | An upload, its attempts cut anywhere, keeps the invariant if and only if the user is still registered in the store or not a single command was executed |
| KeyspaceRuns.PurgeGuardExact | RedisStore.cpp:623-642 | A cleaner visit, cut anywhere, keeps the invariant if and only if no account was missed by the read or it was cut before the index |
| KeyspaceRuns.RestartableExact | RedisStore.cpp:72-100 | Every action keeps the server able to start, except exactly a registration that leaves a user without a last sync time |
| KeyspaceRuns.CutRegistrationBlocksRestart | RedisStore.cpp:154-158 | Any new user's registration can be cut there |
| KeyspaceRuns.FailedDeleteThenUploadOrphans | sync_handler.cpp:183-192 | A run that needs the guard: unnoticed deletion, upload, restart, and an account of a user nobody knows remains |
| KeyspaceRuns.RedisRefinesUpsert | sync_handler.cpp:255-278 | With no other write between a session's two requests, uploading exactly the requested distinct names at times no older than announced gives what the conditional upsert would have given |
| KeyNames.SameText | RedisStore.h:26-44 | Two keys with the same text are the same key, or one user extends the other |
| KeyNames.KeysApartIff | RedisStore.h:26-44 | All keys of a set of users, the users hash included, have different texts if and only if no user of the set extends another |
| KeyNames.AddressesExtend | sync_handler.cpp:602-683 | Every valid address of at most 60 characters extends to another valid one, so such users can be registered |
| RedisStore.DecodeAccount | RedisStore.cpp:280-330 | A reply listing the seven fields in any order decodes to the stored account |
| RedisStore.Store.constructor | RedisStore.cpp:20-47 | The pool law holds at the start, with as many connections as were configured less those refused |
| RedisStore.Store.TakeConnection | RedisStore.cpp:455-505 | The idle connection returned last, a new one, the exception, or what others give back after a wait; the exception if and only if the pool could grow and the connection was refused; the count, the idle and those in use agree |
| RedisStore.Store.Release | RedisStore.cpp:530-550 | A good connection is the next to be given out, a bad one is counted off, and so is none at all: the drift term |
| RedisStore.Store.EatPipelineReplies | RedisStore.cpp:571-591 | Fails if and only if the connection breaks at one of the replies; success: all commands were executed and no reply is left over; failure: some prefix was, and the connection is marked bad |
| RedisStore.Store.TestConnection | RedisStore.cpp:510-527 | The same connection after a good ping; otherwise another one free of outstanding replies, or none when a new one was refused, and the failed one given back; reads only |
| RedisStore.Store.GetConnection | RedisStore.cpp:455-507 | Unless the wait would never end, a connection without outstanding replies, perhaps after a wait; none only when the pool can grow and something failed, and untested if and only if a new one was refused |
| RedisStore.Store.CreateUser | RedisStore.cpp:136-169 | Fails only after three faults; success: the registration's effect exactly once, through all retries; failure: only cut attempts; the pool gets its connections back |
| RedisStore.Store.DeleteUser | RedisStore.cpp:172-227 | Fails only after four faults; success: the user and every account its index listed are gone, nothing else; failure: a run of cut deletions |
| RedisStore.Store.GetAccountsForUser | RedisStore.cpp:230-356 | Exactly the accounts the index lists, unless four faults or an error reply were met; some of them otherwise; never others; nothing is written |
| RedisStore.Store.UpdateLastSync | RedisStore.cpp:359-385 | As for the upload: without faults one attempt that writes; the first attempt's end is fixed by what it meets, and every attempt that does not write has met a fault; the time is set when the last one wrote |
| RedisStore.Store.UpsertAccounts | RedisStore.cpp:388-422 | Without faults one attempt, which writes; the first attempt lacks a connection if and only if the pool could grow and a new one was refused, and breaks if and only if a reply of its pipeline does; every attempt that does not write has met a fault of its own; four at most; success is reported if and only if the last one did not break, and when it wrote, exactly one full upload's effect is stored; in any case a run of cut uploads |
| RedisStore.Store.ReadIndex | RedisStore.cpp:262-266 | The index's names, each once, in some order; or none after a failure, the connection then bad or clean |
| RedisStore.Store.ReadAccounts | RedisStore.cpp:267-334 | Reading every listed account without an error yields the index's view of the user; an error yields a part of it |
| RedisStore.Store.PurgeUser | RedisStore.cpp:623-642 | What the cleaner executed is a prefix of deleting the accounts it read, all listed ones after a read without faults, then the index; the connections are given back |
| Handlers.Service.constructor | sync_handler.cpp:19-28 | A cache loaded from a sound store satisfies the invariant |
| Handlers.Service.HandleRegister | sync_handler.cpp:61-135 | Replies and new cache for every case: invalid address, known user, store failure, which takes three faults, success, after which the store has the password, the first sync time and no account; each an allowed step of the runs above |
| Handlers.Service.AddUser | sync_handler.cpp:100-112 | Caching before the store and taking back after a failure is a registration step, and keeps the invariant |
| Handlers.Service.HandleDelete | sync_handler.cpp:155-201 | 403 and no change for a user not cached or cached with another password; otherwise the user leaves the cache exactly when the store has removed everything, so that nothing of it is left there; four faults are needed to prevent that |
| Handlers.Service.HandleSyncInitial | sync_handler.cpp:204-299 | Nothing is sent unless the user is cached with that password; nothing is changed; the reply is the diff against exactly the stored accounts unless there are four faults or an error reply ahead, and otherwise against some of them |
| Handlers.Service.HandleSyncFinal | sync_handler.cpp:304-372 | 403 and no change for a user not cached or cached with another password; without faults 200, with the rows over those stored and the time set; otherwise 200 if and only if the last attempts of both writes did not break; the invariant is kept under the upload guard |
| Handlers.RegisterThenSync | sync_handler.cpp:581-599 | After a registration a request is let in with the registered password and with no other |
| PostgresPool.ConnectionPool.constructor | data_store_connection.cpp:33-63 | After start the count is the number of idle connections: those configured less those that failed |
| PostgresPool.ConnectionPool.GetConnection | data_store_connection.cpp:448-497 | The idle connection returned last, a new one, or one given back after a wait; none if and only if the pool could grow and opening failed, with the count given back: once too often if and only if the preparation failed |
| PostgresPool.ConnectionPool.Release | data_store_connection.cpp:439-445 | The connection is the next to be given out; the pool law is kept |
| Pools.ReturnedIsNext | data_store_connection.cpp:439-457 | The connection given back last is given out next, and the pool is then as before |
| PostgresPool.UpsertAccounts | data_store_connection.cpp:393-436 | How the first attempt ends, from what it meets; three attempts at most, and exactly as many faults met as attempts that failed by one; without faults one attempt, or three when the table rejects the upload; success: merged once in effect; failure: merged or untouched; no connection leaks |
| RedisPoolRuns.PoolConserved | RedisStore.cpp:455-550 | In every reachable state of any number of threads and the connection manager: the count and the throws so far are the connections idle and in use and the throws not yet released; every connection given out has no reply outstanding; open connections exceed the maximum by at most the throws, and not at all without any |
| RedisPoolRuns.OpenedWhenNeeded | RedisStore.cpp:455-550 | A connection is opened only when none is idle and the count is below the maximum, and closed only when broken, or idle and trimmed |
| RedisPoolRuns.ManagerTrims | IDataStore.h:144-167 | A cycle takes the connections given back last out of the pool, as many as the manager's test says in whole numbers, and touches no thread |
| RedisPoolRuns.CyclesAlone | IDataStore.h:141-182 | While only the manager moves, the pool is what its cycles make of a pool of constant use, so the law for its minimum holds of it |
| RedisPoolRuns.BoundIsMet | RedisStore.cpp:477-485 | After any number of throws, that many connections more than the maximum can be open |
| RedisPoolRuns.ServedIffSomeGood | RedisStore.cpp:487-500 | From any state, a waiting thread can get a connection without another thread asking for one if and only if one is idle or one in use is not broken |
| RedisPoolRuns.BrokenConnectionStrandsWaiter | RedisStore.cpp:487-500 | For every maximum, a run after which a thread waits, the pool is empty and counted empty, and it cannot be served so |
| RedisPoolRuns.WaiterCanBeServed | RedisStore.cpp:455-550 | No deadlock: from every reachable state, with any number of threads and a positive maximum, some run gives a waiting thread a connection |
| RedisPoolRuns.HolderWaitsForItself | RedisStore.cpp:619-630 | While a thread holds the only connection the maximum allows and does nothing with it, no other request for one is ever served |
| PostgresPoolRuns.PoolConserved | data_store_connection.cpp:345-497 | In every reachable state of any number of threads and the connection manager: the count and the failed preparations so far are the connections idle, in use and being opened and the failures counted off once yet; open connections exceed the maximum by at most the failures |
| PostgresPoolRuns.OpenedWhenNeeded | data_store_connection.cpp:393-497 | A connection is opened only when none is idle and the count is below the maximum, and closed only when it could not be opened or prepared, was found broken, or is idle and trimmed |
| PostgresPoolRuns.ManagerTrims | IDataStore.h:144-167 | A cycle takes the connections given back last out of the pool, as many as the manager's test says in whole numbers, and touches no thread |
| PostgresPoolRuns.CyclesAlone | IDataStore.h:141-182 | While only the manager moves, the pool is what its cycles make of a pool of constant use, so the law for its minimum holds of it |
| PostgresPoolRuns.BoundIsMet | data_store_connection.cpp:464-483 | After any number of failed preparations, that many connections more than the maximum can be open |
| PostgresPoolRuns.ServedIffSomeGives | data_store_connection.cpp:484-493 | From any state, a waiting thread can get a connection without another thread asking for one if and only if one is idle, being opened, working, or about to be given back |
| PostgresPoolRuns.FailedConnectionStrandsWaiter | data_store_connection.cpp:484-493 | For every maximum, a run after which a thread waits, the pool is empty and counted empty, and it cannot be served so |
| PostgresPoolRuns.WaiterCanBeServed | data_store_connection.cpp:393-497 | No deadlock: from every reachable state, with any number of threads and a positive maximum, some run gives a waiting thread a connection |
| ConnectionManager.Closing | IDataStore.h:144-166 | What a cycle closes is never more than is idle, and never takes the count below the minimum |
| ConnectionManager.Manager.Cycle | IDataStore.h:141-182 | Closes something if and only if the count is above the minimum, at most a fifth of it is in use and the cycle before was quiet, too: then all of an excess of one or two, else two fifths of it rounded down; those are the last idle connections, and otherwise nothing leaves the pool |
| ConnectionManager.ClosingExact | IDataStore.h:150-159 | The same in whole numbers for the cycles of the pool runs, with the count of quiet cycles |
| ConnectionManager.EnoughIdle | IDataStore.h:150-165 | With at most a fifth in use, no empty pool is popped |
| ConnectionManager.TrimmedQuickly | IDataStore.h:156-159 | At most three quarters of an excess of three or more are left, nothing of a smaller one |
| ConnectionManager.RoundsLogarithmic | IDataStore.h:156-165 | The trimmings needed are logarithmic in the excess |
| ConnectionManager.RunIdle | IDataStore.h:141-182 | An idle pool reaches exactly its minimum in that many trimmings, two cycles each |
| ConnectionManager.HoldFor | IDataStore.h:141-182 | After any number of cycles with as many connections in use, the pool is what the cycles of the next row make of it |
| ConnectionManager.ReachesMinimumIff | IDataStore.h:148-167 | While the number in use stays the same, the pool reaches its minimum in some cycle if and only if it is there or five times that number is at most the count before the last trimming, which is one or two above the minimum |
| HeapList.IncreaseListBuffer | IDataStore.h:108-121 | The current chunk when the estimate fits, else a fresh chunk linked behind it |
| HeapList.PackRow | data_store_connection.cpp:210-214 | One row's strings lie behind one another, each with its terminator, nothing before them touched |
| HeapList.HeldStringReadsBack | data_store_connection.cpp:218-219 | A pointer to a stored string reads back that string |
| HeapList.PackRows | data_store_connection.cpp:189-220 | All writes in bounds, all chunks reachable from the head, and every returned pointer still reads its row's field after all rows are packed |
| HeapList.ShortRowsFit | RedisStore.cpp:267-322 | Rows that fit a chunk with their terminators are packed in bounds from any state of the chain |
| HeapList.RowLimit | IDataStore.h:108-121 | Safe for all results if and only if the longest row and its terminators fit 1024 |
| Decimal.IntRoundTrip | RedisStore.cpp:407-409 | The decimal text of a time reads back as that time |
| Decimal.Int64Length | data_store_connection.cpp:257-258 | A 64-bit time takes at most 20 characters, and the bound is met |
| SqlBuilder.IncreaseBuffer | data_store_connection.h:83-93 | Room as computed, the text moved along |
| SqlBuilder.WriteRow | data_store_connection.cpp:246-259 | Separator and row behind the text so far, in bounds through the reallocation |
| SqlBuilder.BuildStatement | data_store_connection.cpp:241-262 | The buffer ends as prefix, rows joined by commas, and suffix, terminated; for values without a quote it reads back as the user and all accounts, each value in its column, in order |
| SqlBuilder.StatementReadsBack | data_store_connection.cpp:257-258 | Read as a list of rows in brackets, of values up to the next quote, a decimal time and a boolean, the statement gives back exactly the user and the accounts if and only if no value holds a quote |
| SqlBuilder.UpsertReadsBack | data_store_connection.h:34-38 | So it is for the very statement the store sends |
| SqlReader.ReadRowsQuoteFree | data_store_connection.cpp:257-258 | Whatever the text, no value read from it holds a quote |
| SqlBuilder.ShortUserFits | data_store_connection.cpp:241-262 | With a user of at most 34 characters every write fits, for any account list for which no buffer size computed on the way exceeds 32 bits |
| SqlBuilder.LongUserDoesNotFit | data_store_connection.cpp:247-258 | For a longer user two rows exist that overrun |
| SqlBuilder.UserLimit | data_store_connection.cpp:252-253 | The builder is safe for all account lists if and only if the user has at most 34 characters |
| SqlBuilder.UpsertUserLimit | data_store_connection.h:34-38 | So it is for the very statement the store sends |
| VerifyEmail.VerifyEmail | sync_handler.cpp:602-683 | Accepts exactly the grammar local@domain |
| VerifyEmail.ScanLocal | sync_handler.cpp:613-640 | The first phase stops at the first at sign behind a valid local part, or rejects rightly |
| VerifyEmail.ScanDomain | sync_handler.cpp:641-683 | The second phase accepts exactly the domains |
| VerifyEmail.SplitJoin | sync_handler.cpp:650-660 | Cutting joined labels at the dots gives the labels back |
| VerifyEmail.JoinSplit | sync_handler.cpp:650-660 | Joining the pieces of a string gives the string back |
| VerifyEmail.DomainIffSplit | sync_handler.cpp:641-683 | A domain is one whose dot-separated pieces are labels within the limits |
| VerifyEmail.Round | sync_handler.cpp:645-678 | One round of the scanner rejects only non-domains and otherwise keeps its flags true of the text read |
| VerifyEmail.EndOfScan | sync_handler.cpp:679-683 | At the end the two flags say exactly whether the text is a domain |
| VerifyEmail.AllowedIs | sync_handler.cpp:621-622 | The characters taken are the printable ones without the space, quotation mark, brackets, comma, colon, semicolon, angle brackets and backslash |
| SelectLoop.GuardExact | server.cpp:165-175 | A step of loop, workers or cleaner keeps the hand-off invariant if and only if it does not close a listed client that is being returned or was reported ready in the same round; every other step does |
| SelectLoop.UnguardedFaults | server.cpp:165-243 | After every closing that does, some continuation uses a client after it is gone: the guard is exact for that, too |
| SelectLoop.RunInv | server.cpp:121-247 | Every run guarded so keeps it, with the cleaner on or off |
| SelectLoop.CleanerOffGuarded | Config.h:18 | With the cleaner off every run is guarded |
| SelectLoop.ExclusiveHandOff | server.cpp:575-719 | In every state of a guarded run, with the cleaner on or off, every open client is in exactly one of watched, queued, held or being returned, within the limit, and nothing is used after it is closed |
| SelectLoop.HandOffWithoutCleaner | server.cpp:575-719 | With the cleaner off that holds in every reachable state |
| SelectLoop.ScanSkipsNone | server.cpp:206-243 | In every guarded run the scan ends, early or not, only with every ready client handled, and never meets an active one |
| SelectLoop.NoLostWakeUp | server.cpp:711-719 | In every reachable state, with the cleaner on or off, the flag is set exactly when one byte is unread; a watched client missing from select's copy, and a client listed for closing, imply a byte that lets select return |
| SelectLoop.NextCopySees | server.cpp:126-131 | A client put back is in the loop's next copy unless the scan or the closing took it first |
| SelectLoop.ListedThenServed | server.cpp:365-387 | With the cleaner on and no thread held up, a run in which a worker puts back a client that was listed before it was handed out and closed while being returned |
| SelectLoop.ListedAndReady | server.cpp:165-243 | A run in which a client is closed and then scanned in the same round |
| SelectLoop.SafeIffCleanerOff | server.cpp:706-719 | All runs are free of uses after closing if and only if the cleaner is off |
| ClientLife.LifeCycle | server.cpp:121-719 | In any step of a guarded run a client passes from one place to another in exactly these ways: accepted into the queue, taken by a worker, closed by it or put back, and from the watched set queued by a scan that finds bytes, or closed by one that finds none or as a listed client |
| ClientLife.RunLifeCycle | server.cpp:121-719 | The same at every moment of every guarded run from the start |
| ClientLife.ReportedIsQueuedOrClosed | server.cpp:215-239 | In every guarded run a reported client with bytes to read stays open and is queued last with an active entry, the count unchanged; one without is closed, forgotten and counted off |
| ClientLife.AcceptedWhileRoom | server.cpp:177-202 | Below the limit a new connection is open, queued last, active, counted and fresh; at the limit nothing of it is kept |
| ClientLife.ClosedByAnEnding | server.cpp:224-227 | In any run, guarded or not, a client that is open at one time and not later was closed in between by its own worker, as a listed inactive client, or by a scan that found it had hung up |
| ClientLife.TakenInOrder | server.cpp:575-593 | In any run clients leave the queue in the order they came into it |
| ClientLife.QueuedCanBeServed | server.cpp:572-593 | From every state of the invariant with any worker, some run that keeps it has a worker serve a given queued client |
| ClientLife.WatchedCanBeServed | server.cpp:125-243 | When the loop is about to copy the set, the same for a watched client, that is one waiting with its next request |
| ClientLife.ListedWasOld | server.cpp:395-422 | In every run a client listed for closing was inactive when listed and had grown old without being used in between |
| Workers.StepKeeps | server.cpp:437-525 | Every step of loop, workers, manager and shutdown keeps the accounting, the manager's steps after shutdown has begun included |
| Workers.ThreadAccounting | server.cpp:491-522 | In every reachable state the live workers, less the ends shutdown has queued for them, are those counted plus the ends queued or owed; the count stays between the configured number and an upper bound; the active count exceeds the busy workers by one per ended worker |
| Workers.Grow | server.cpp:137-143 | From any settled state below the maximum, a run that raises the count by half at once |
| Workers.CapIsMet | server.cpp:137-143 | For all settings some run reaches the upper bound above: it is the least one |
| Workers.MaximumIsBoundIff | server.cpp:137-143 | The count never exceeds the configured maximum if and only if no more threads are configured to begin with, and at most one is, or as many as the maximum, or the maximum is at most four |
| ThreadManager.TrimsAfterLongQuiet | server.cpp:500-520 | At each look of every run the manager decides to end threads if and only if, over some stretch of its looks since it last did, quiet ones (fewer than five items a thread) are ahead of busy ones by more than 20; then it ends half of those beyond the configured number |
| ThreadManager.TwentyFirstDecides | server.cpp:502-503 | Of quiet looks in a row, the twenty-first decides and none before it |
| ThreadManager.AddsWhenBusy | server.cpp:137-143 | Threads are added if and only if more clients are queued than there are threads, more than half of these are active and the maximum is not reached; half of their number then |
| Workers.EmptyQueueMeansDone | server.cpp:448-463 | When shutdown deletes the store, all clients were taken in order, and all workers have ended if and only if the manager owes an end exactly when it has counted a thread off since shutdown counted its ends |
| Workers.DrainProgress | server.cpp:437-459 | Unless the manager has counted off more threads than one it still owes an end, shutdown or a worker can go on: no client and no end is stuck |
| Workers.DrainBounded | server.cpp:437-459 | While the manager stands still draining takes at most a bounded number of steps |
| Workers.FinishesIffNoSurplus | server.cpp:448-459 | From any state of a shutdown, its end can be reached if and only if the manager has counted off no thread since the ends were counted, or one whose end it still owes |
| Workers.HangsForever | server.cpp:448-459 | Otherwise no step of any thread leads out |
| Workers.LateTrimHangs | server.cpp:502-517 | Whenever two threads more than configured are possible, a run that gets there |
| Workers.ShutdownSafeIff | server.cpp:437-459 | For which settings every shutdown can end, at any point of it: if and only if a thread is configured and never two more than configured are possible |
| Workers.OwedEndDeletesStore | server.cpp:502-517 | Whenever two threads more than configured are possible, a run in which shutdown deletes the store while a worker serves a client |
| Workers.StoreSafeIff | server.cpp:448-463 | The store is never deleted before all workers have ended if and only if that is not possible |

## Left out

- TestConnection: the faults ahead are finitely many, so a server that fails pings for ever is not modelled.
- KeysApartIff: the Redis modules keep keys as pairs of user and name, which is exact under its condition; runs with users extending one another are not modelled.
- GetConnection: a wait that never ends has no result and is excluded by `Serviceable`; which states those are is the matter of the pool runs. Fairness among waiting threads is not modelled, nor what other threads write to Redis during a wait.
- HandleSyncFinal: what an upload leaves after a reply of failure is stated as a run of cut pipelines, as the code promises no more.
- GetAccountsForUser: the heap cursor that is not reset between attempts; packing is modelled for one attempt.
- Sockets, OpenSSL, libpq, hiredis and JSON parsing: their results are nondeterministic outcomes.
- The client program, which is not in the repository: it answers with the requested records and applies received records that are newer.
- `lock_user`, `relock_user`, `unlock_user`: deprecated and never called.
- `parse_header`, `verify_request`, `read_incoming_bytes`, `build_reply`, `e_strtok`: string plumbing with little state.
- `hash_password`: the hashed password is a value given to the handlers.
- Configuration parsing, debug output and start scripts.
- Purging of Postgres rows by age, which breaks the monotonicity of the table by design.
- Registration through the Postgres store, whose `createUser` throws where the handler expects `false`.
- The order in which remaining map entries are shipped: any order is allowed.
- Error replies of Redis to well-formed write commands, which are taken for executed ones, and failures to append a command to a pipeline.
- Two requests of one user, or the cleaner's visit and a request, at the same time over Redis: they are taken one at a time.
- A thread holding two connections: in the pool runs it counts as two threads.
- `accept` failing, and `accept` returning a descriptor that is still open.
- Data races: each read and write of a counter is taken as atomic, and so are the loop's and the cleaner's uses of `conn_map`, which the cleaner reads without a lock while the loop inserts and erases.
- The time the cleaner compares: a client grows old by a step of its own, at any moment after its last use.
- Clients accepted after shutdown has begun: its signal handler is taken to run on the loop's own thread. Immediate shutdown, which waits for nothing, is not modelled.
- Overflow of `atol`.
- The ten tries of the Postgres store at opening one connection, and the waits between them: they are one event.
- What the database makes of a statement whose values hold quotes.
