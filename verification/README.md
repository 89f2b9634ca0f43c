# rgo redirect server: the key->URL store

rgo is a small URL-shortener. The server keeps an in-memory map from short keys
to target URLs. `GET /:key` redirects to the stored URL, or to `/404` when the
key is unknown. `GET /priv/list` returns the whole map. The server reads
MessagePack-encoded commands from a named pipe: `Add{key,value}`,
`Remove{key}` and `Persist`. A background task reads that pipe in a loop and
applies each command to the map. `Persist` writes a snapshot of the map to a
file. The client, `rgo/src/main.rs`, sends only `Add` and `Remove` through
the pipe (lines 34-41). Its `List` subcommand calls `GET /priv/list`
(lines 28-33), and it never sends `Persist`.

This Dafny project models that store and every operation on it:

- `store_spec.dfy` (module `StoreSpec`) gives the semantics on values:
  - the `Command` enum;
  - `Apply`, the effect of one command on the map;
  - `ApplyAll`, the left fold of commands in arrival order;
  - `Resolve`, the redirect lookup;
  - `Event`, `Step`, `Commands` and `Writes`, which describe the consumer loop;
  - `NetValue`, an independent reference for the net effect of a command sequence on one key.
- `store_lemmas.dfy` (module `StoreLemmas`) proves the properties of those functions.
- `server.dfy` (module `RgoServer`) models the shared map as the class `SharedStore`, with a `map` field:
  - the constructor seeds the map, as `main` does;
  - `Redirect` and `List` are the two HTTP handlers;
  - `ExecuteCommand` and `Persist` are the command processor;
  - `ConsumeOne` is one iteration of the background loop;
  - `ConsumeAll` runs that loop over a finite sequence of read events.

  Each method is proved against the `StoreSpec` functions.

Environment inputs are method parameters:
- The outcome of each pipe read is an `Event`: either `Received(cmd, writeOk)` or `ReadFailed`.
- The outcome of the persistence write is the boolean `writeOk`, which only matters for `Persist`.

The persistence file itself is not state in the model. Instead, the methods return the snapshot that a successful write puts in the file.

## Model

| member | source | states |
|---|---|---|
| StoreSpec.Apply | rgo-server/src/main.rs:69-82 | `Add` makes the key map to the value, overwriting any old value. `Remove` deletes the key and is a no-op on a missing key. `Persist` leaves the map as it is. In every case, every other key keeps its entry or its absence. |
| RgoServer.SharedStore.constructor | rgo-server/src/main.rs:21-26 | The store starts as an empty map plus one insert, so it holds exactly `google -> https://google.com`. |
| RgoServer.SharedStore.Redirect | rgo-server/src/main.rs:41-49 | A hit yields the stored URL. A miss yields `/404`. The result agrees with `Resolve`. |
| RgoServer.SharedStore.List | rgo-server/src/main.rs:51-55 | The response is a copy equal to the whole current map. |
| RgoServer.SharedStore.Persist | rgo-server/src/main.rs:73-80 | Returns the snapshot exactly when the write succeeds. That snapshot equals the current map. The method has no `modifies` clause, so the map is unchanged whatever the write outcome. |
| RgoServer.SharedStore.ExecuteCommand | rgo-server/src/main.rs:69-82 | The new map is `Apply(command, old map)`. A snapshot is written only for a `Persist` whose write succeeds, and it is the map as it was. |
| RgoServer.SharedStore.ConsumeOne | rgo-server/src/main.rs:89-97 | A successful read executes the command. A read error leaves the map unchanged and writes nothing. |
| RgoServer.SharedStore.ConsumeAll | rgo-server/src/main.rs:84-99 | After a run of reads, the map is the left fold of the successfully read commands, in arrival order. The snapshots written are exactly those of the successful `Persist`s. |
| StoreLemmas.StepExtendsFold | rgo-server/src/main.rs:89-97 | One more loop iteration turns the fold of the commands read so far into the fold that also includes this event's command. A read error adds no command. |
| StoreLemmas.ApplyAllSnoc | rgo-server/src/main.rs:86-98 | Folding one more command applies it to the store that the earlier commands produced. |
| StoreLemmas.ApplyAllAppend | rgo-server/src/main.rs:86-98 | Processing two batches one after the other gives the same store as processing their concatenation. |
| StoreLemmas.ApplyAllNetEffect | rgo-server/src/main.rs:86-98 | For every key, the store after a command sequence holds exactly the net effect given by `NetValue`: the value of the last `Add` naming the key, absence after a last `Remove`, or the starting entry if no command names it. Both directions of the membership are proved. |
| StoreLemmas.RedirectAfterAdd | rgo-server/src/main.rs:71 | After `Add{key,value}`, the key redirects to exactly `value`. Every other key redirects where it did before. |
| StoreLemmas.RedirectAfterRemove | rgo-server/src/main.rs:72 | After `Remove{key}`, the key redirects to `/404`. Every other key redirects where it did before. |
| StoreLemmas.AddThenRemove | rgo-server/src/main.rs:71-72 | `Add{k,v}` followed by `Remove{k}` makes `k` redirect to `/404`, and the resulting map is the old map without `k`. |
| StoreLemmas.ApplyIdempotent | rgo-server/src/main.rs:71-72 | Running the same command twice in a row has the same effect as running it once. |
| StoreLemmas.ApplyCommutes | rgo-server/src/main.rs:71-72 | Two commands that name different keys, or where one is `Persist`, give the same store in either order. |
| StoreLemmas.PersistOnlyKeepsStore | rgo-server/src/main.rs:73-80 | A sequence made only of `Persist` commands leaves the store unchanged. |
| StoreLemmas.UntouchedKeyKept | rgo-server/src/main.rs:69-82 | A key that no command in a sequence names keeps its entry, or its absence. |
| StoreLemmas.InitialStoreIsSeed | rgo-server/src/main.rs:23-26 | The initial store has exactly one key, `google`, and it redirects to `https://google.com`. |
| StoreLemmas.SeedSurvives | rgo-server/src/main.rs:23-26 | The listing still holds `google -> https://google.com` after any command sequence that never names `google`. |
| StoreLemmas.WritesAreSnapshots | rgo-server/src/main.rs:75-76 | Every snapshot the loop writes equals the store just before some successful `Persist`, that is, the fold of the commands read before it. No other complete snapshot is written. |
| StoreLemmas.WritesAt | rgo-server/src/main.rs:75-76 | Conversely, the successful `Persist` at position `i` writes one snapshot. It sits at index `|Writes(m, evs[..i])|`, right after the writes of the earlier events. `WritesCount` shows that this index is the number of successful `Persist`s before `i`, so the n-th write belongs to the n-th successful `Persist`. That snapshot is the store as it stood when that `Persist` was read. |
| StoreLemmas.WritesCount | rgo-server/src/main.rs:75-78 | The loop writes exactly one snapshot per successful `Persist`: the number of writes equals the number of `Persist` commands read whose write succeeded. |
| StoreLemmas.FallbackRedirectsToItself | rgo-server/src/main.rs:30 | The fallback `/404` is itself matched by the `/:key` route with key `404`. Unless `404` is stored, following the fallback redirects to `/404` again. |
| StoreLemmas.ExampleSession | rgo-server/src/main.rs:41-49 | Starting from the seed: after `Add{a, http://example.com}`, `a` redirects to `http://example.com`. After a following `Remove{a}`, `a` redirects to `/404` and the listing is `{google: https://google.com}`. |

## Left out

- Locking and concurrency: the `Arc<Mutex<…>>`, `tokio::spawn`, and the panics from `.lock().unwrap()` on a poisoned lock. Each handler call and each command is one atomic step on the map.
- The race between spawning the consumer (line 22) and inserting the seed (lines 23-26). The seed is the initial state instead.
- HTTP transport: axum routing, `Extension`, binding the listener, and serving. `Redirect` models only the URL chosen, not the HTTP status code of the response.
- Pipe setup: `setup_pipe` and `mkfifo` (lines 58-67) are file-system I/O.
- The pipe read (line 89) is I/O. Its outcome is the `Event` parameter.
- The persistence write to `/tmp/rgo-client` (line 76) is I/O. Its outcome is the `writeOk` parameter.
- A failed persistence write may still have truncated `/tmp/rgo-client` or left part of the encoding in it. `writeOk = false` records only that no complete snapshot was written.
- MessagePack encoding and decoding (`rmp_serde`, lines 75 and 92) come from a foreign library, so a codec round-trip is not modelled.
  - The source decodes with `unwrap()`, so a malformed payload aborts the task. The model assumes every successful read carries a well-formed command.
- `RgoServer.SharedStore.ConsumeAll`: the source loop never ends. The model runs it over any finite sequence of read events, so it describes every finite prefix of a run.
- The values that `insert`, `remove` and the `Persist` arm return inside `execute_command` are discarded by the source, so they are not modelled.
- Logging: all `println!` output.
- The command-line client (`rgo/src/main.rs`) is not part of this model. Its `Command` enum (`List`, `Add`, `Remove`) differs from the server's (`Add`, `Remove`, `Persist`), and neither crate fixes the MessagePack encoding of its enum, so agreement on the wire is not established.
- The server's `Command` has no `List` variant (rgo-server/src/main.rs:12-16). Listing is served only by `GET /priv/list` (line 29).
- A payload that fails to decode panics the consumer task at `unwrap()` (line 92), and no later command is applied. The model has no such event.
- RgoServer.SharedStore.Redirect: returns the stored URL for every stored string. In the source, `Redirect::to(x)` runs while the lock guard from line 45 is still alive, and axum turns the URL into an HTTP header value, panicking on characters a header cannot hold (a control character such as a newline). That panic poisons the mutex, after which every `.lock().unwrap()` panics: redirect, list and `execute_command`. Header validity, the panic and the poisoned lock are not modelled.
