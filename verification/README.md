# Header fetcher model

This project models the Ethereum header fetcher of darwinia-proof-tools
(`cmd-tools/bin/fetcher.ts`). The fetcher keeps a sqlite table `blocks` with
two unique columns, `height` and `block` (the serialized header). Opening the
table at a start height deletes every row below that height. The fetcher then
walks a height cursor forward, one `fetch(h, loop)` call at a time:

- a height that is already stored is skipped, and the next call is `fetch(h+1, true)`;
- otherwise the source is asked for block `h`;
- a block is serialized and inserted, and the fetcher moves on to `h+1` only when `loop` is set;
- a `null` block, a thrown error, or an insert the unique constraints reject
  all go through `restart(h)`, which calls `fetch(h, true)` again after a delay.

The model is pure and functional, in two modules:

- `HeaderStore` (`store.dfy`). The table is a `map<nat, string>` from height to
  payload. `UniquePayloads` is the unique `block` column; the map itself gives
  one row per height. The file also defines the insert with its unique
  constraints, the prune, and `CheckTable`. `CheckTable` takes an abstract
  `Table` that is either `Missing` or `Present(rows)`.
- `Fetcher` (`fetcher.dfy`). The source's answer is `Outcome<B>`: `Block(header)`,
  `Null` or `Error`. The composition of `parseHeader` and `JSON.stringify` is a
  function parameter `ser: B -> string`, deterministic because it is a function.
  `Attempt` is one `fetch` call after a failed exists check, and `Step` is one
  whole `fetch` call. `Run` is the recursive reference definition of the fetcher
  driven by a finite sequence of answers. It consumes an answer only when the
  source is actually asked. `FetchLoop` is the same computation written as an
  explicit `while` loop, and it is proved equal to `Run`. `Loop` is
  `loop(start)`: open the store, then run from `start` with looping on.

Three behaviours of the code are easy to misread, and the model follows them as written:

- A rejected insert throws, so the `catch` retries the same height through
  `restart(h)`; it does not advance (fetcher.ts:63-66, 74-77). `Attempt`
  models this as a retry of `h` with the store unchanged.
- Every error raised inside the `try` is retried, storage failures of the
  insert included; none of them ends the fetcher.
- `fetch(h, false)` on a stored height continues with `fetch(h+1, true)`, and
  after a `null` or an error it continues with `fetch(h, true)`. Only a
  successful insert honours `loop = false`. `Step` models this as written.

## Model

| member | source | states |
|---|---|---|
| HeaderStore.Insert | cmd-tools/bin/fetcher.ts:20-22 | an insert succeeds exactly when neither the height nor the payload is already present; it then adds exactly that one row, leaves every other row unchanged, and keeps payloads unique |
| HeaderStore.Prune | cmd-tools/bin/fetcher.ts:24-29 | after deleting rows below `start`, no row has height below `start`, every row at or above `start` survives with its payload, no row is invented, and payloads stay unique |
| HeaderStore.CheckTable | cmd-tools/bin/fetcher.ts:17-30 | opening a missing table yields an empty store; opening an existing one prunes it below `start` and keeps every row at or above `start` unchanged |
| HeaderStore.CheckTableIdempotent | cmd-tools/bin/fetcher.ts:24-29 | opening the store a second time at the same start height changes nothing |
| HeaderStore.CheckTableMonotone | cmd-tools/bin/fetcher.ts:24-29 | opening at a lower start and then at a higher one equals opening at the higher one |
| Fetcher.Attempt | cmd-tools/bin/fetcher.ts:56-77 | for a height not stored: the cursor advances to `h+1` exactly when the source returns a block whose payload is new, and then exactly that row is added and the run continues iff `loop`; on `null`, an error or a rejected insert the store is unchanged and `h` is retried with looping on |
| Fetcher.Step | cmd-tools/bin/fetcher.ts:45-78 | one `fetch(h, loop)`: a stored height inserts nothing and moves to `h+1` with looping forced on; the cursor is always `h` or `h+1`; a fetcher stops only after inserting `h` with `loop` false; old rows are kept and payloads stay unique |
| Fetcher.Run | cmd-tools/bin/fetcher.ts:32-78 | the reference definition of `fetch` with its `restart` continuation, driven by a finite sequence of source answers; its own contract states only that the cursor never ends below the start and that a run that has not halted waits on a height it does not hold; the other properties are the lemmas below |
| Fetcher.Loop | cmd-tools/bin/fetcher.ts:81-89 | `loop(start)` is `CheckTable` at `start` followed by `Run` from `start` with looping on: every stored height is at least `start`, the heights from `start` up to the cursor are all stored, the run never halts by itself, and a table whose payloads were unique keeps them unique |
| Fetcher.FetchLoop | cmd-tools/bin/fetcher.ts:32-78 | the iterative fetcher (each retry or advance is a loop iteration, not a nested call) computes exactly what the recursive definition `Run` computes |
| Fetcher.RunKeeps | cmd-tools/bin/fetcher.ts:45-77 | a run never changes or deletes a stored row; it only adds rows |
| Fetcher.RunPreservesUnique | cmd-tools/bin/fetcher.ts:46-66 | over any sequence of source answers, no two stored rows ever share a payload |
| Fetcher.RunProgress | cmd-tools/bin/fetcher.ts:45-78 | every height from the start to the cursor is stored (no gaps), and every row a run adds lies in that range |
| Fetcher.ReplaySkips | cmd-tools/bin/fetcher.ts:46-54 | when every height in `[h, k)` is stored, the run from `h` is the run from `k`: nothing is fetched or written for those heights |
| Fetcher.ReplayAfterRun | cmd-tools/bin/fetcher.ts:46-54 | a second fetcher started at the same height on the store a first one left behind skips every height up to the first one's cursor |
| Fetcher.RunKeepsLooping | cmd-tools/bin/fetcher.ts:32-78 | a fetcher started with looping on never stops by itself |
| Fetcher.TipWaitConverges | cmd-tools/bin/fetcher.ts:32-77 | if the source answers `null` or fails any number of times and then returns a block with a new payload, that block ends up stored at the height the fetcher was waiting on |
| Fetcher.RunFollowsStep | cmd-tools/bin/fetcher.ts:45-78 | the run is `Step` iterated: a stored height consumes no answer, any other height consumes exactly one |
| Fetcher.ThreeBlocksFromHundred | cmd-tools/bin/fetcher.ts:81-89 | from an empty store at 100, three blocks give rows 100, 101, 102 and cursor 103; a second fetcher from 100 on that store goes straight to 103 |

## Left out

- The relay submission queue. `cmd-tools/src/bin/tools/relay.ts` only sets
  fields of an `API` object whose module is not part of this model, then
  polls them. No queue logic is visible, so there is nothing to state.
- `src/ethereum/API.ts`: the static type registry, the WebSocket connection,
  keyring loading and the 20-second reconnect loop. All of these are I/O or
  foreign library calls.
- The knex/sqlite setup and SQL text, the Web3 HTTP provider, and logging.
  The exists query (`whereExists` on `blocks.height = h`) is modelled as
  membership of `h` in the store.
- The 10-second delay in `restart`. Only "retry the same height" is modelled,
  not wall-clock time. There is no cancellation: the code has none.
- `createTable` is not awaited in the code. The model treats a missing table as
  yielding an empty store at once.
- The internals of `parseHeader` and `JSON.stringify`. They are the opaque
  parameter `ser`.
- `main`: argv parsing and `parseInt`. Start heights are natural numbers.
  JavaScript numbers lose precision above 2^53; that is not modelled, and
  heights are unbounded.
- Error propagation through nested awaited calls, and failures of the exists
  query itself. The exists query (fetcher.ts:46-48) runs outside the `try`, so
  its failure rejects that `fetch` call, and where the rejection lands depends
  on the chain of callers:
  - a caller that skipped awaits at fetcher.ts:52, outside its `try`, and
    passes the rejection further up;
  - a caller that inserted awaits at fetcher.ts:69, inside its `try`, so it
    catches the rejection and restarts at its own, older height;
  - a chain started by `restart`'s timer (fetcher.ts:34-37) has no caller, so
    its rejection is unhandled and never reaches `loop`'s `.catch`
    (fetcher.ts:86-88); only the first chain, started by `loop`, can log
    "got broken".
  All three depend on the async call stack, which the model replaces with an
  explicit iteration, and the model's exists check cannot fail.
- Concurrent writers from another process. `Insert` rejects any collision, but
  interleavings are not modelled.
- The source is a finite sequence of answers. A run that exhausts it stops
  in a waiting state (`halted` false). The unbounded loop of the code is every
  finite prefix of such a run.
