/**
 The value-level semantics of the rgo redirect server's key->URL store: the
 commands the background consumer reads from the pipe, what one command does
 to the map, the redirect lookup, and what the consumer loop does with a
 sequence of read events.
 */
module StoreSpec {

  datatype Option<T> = None | Some(value: T)

  /** The shared `HashMap<String, String>`: short key -> target URL. */
  type Store = map<string, string>

  /** Where `redirect` sends a key that is not in the store. */
  const Fallback: string := "/404"

  /** The one entry `main` inserts before serving. */
  const SeedKey: string := "google"
  const SeedUrl: string := "https://google.com"

  /** The server's command enum: the payload of one pipe message. */
  datatype Command =
    | Add(key: string, value: string)
    | Remove(key: string)
    | Persist

  /** One iteration of the consumer loop sees either a read payload or a read error.
      `writeOk` is the outcome the file system gives the persistence write; it is
      consulted only when `cmd` is `Persist`. */
  datatype Event =
    | Received(cmd: Command, writeOk: bool)
    | ReadFailed

  /** m and m' hold the same entries for every key other than `key`. */
  ghost predicate AgreeExcept(m: Store, m': Store, key: string)
  {
    forall k :: k != key ==> (k in m <==> k in m') && (k in m ==> m[k] == m'[k])
  }

  /** The map-level effect of `execute_command`: insert overwrites, remove deletes
      (a no-op on a missing key), persist only reads. */
  function Apply(c: Command, m: Store): (r: Store)
    ensures c.Add? ==> r.Keys == m.Keys + {c.key} && r[c.key] == c.value && AgreeExcept(m, r, c.key)
    ensures c.Remove? ==> r.Keys == m.Keys - {c.key} && AgreeExcept(m, r, c.key)
    ensures c.Remove? && c.key !in m ==> r == m
    ensures c.Persist? ==> r == m
  {
    match c
    case Add(key, value) => m[key := value]
    case Remove(key) => m - {key}
    case Persist => m
  }

  /** Applying commands one after the other, in arrival order (a left fold). */
  function ApplyAll(m: Store, cmds: seq<Command>): (r: Store)
    decreases |cmds|
  {
    if cmds == [] then m else ApplyAll(Apply(cmds[0], m), cmds[1..])
  }

  /** The URL the `redirect` handler sends `key` to. */
  function Resolve(m: Store, key: string): (url: string)
  {
    if key in m then m[key] else Fallback
  }

  /** The store the server starts serving with: an empty map plus the seed. */
  function InitialStore(): (m: Store)
  {
    map[][SeedKey := SeedUrl]
  }

  /** One iteration of the consumer loop: a read payload is executed, a read error
      leaves the store as it was. */
  function Step(m: Store, e: Event): (r: Store)
  {
    match e
    case Received(c, _) => Apply(c, m)
    case ReadFailed => m
  }

  /** The commands the loop executes, in order: the payloads of the successful reads. */
  function Commands(evs: seq<Event>): (cmds: seq<Command>)
  {
    if evs == [] then []
    else Commands(evs[..|evs| - 1]) + (if evs[|evs| - 1].Received? then [evs[|evs| - 1].cmd] else [])
  }

  /** Whether processing `e` writes a snapshot to the persistence file. */
  predicate WritesSnapshot(e: Event)
  {
    e.Received? && e.cmd.Persist? && e.writeOk
  }

  /** How many events in `evs` are successful `Persist`s, counted independently of
      what is written. */
  function PersistCount(evs: seq<Event>): (n: nat)
  {
    if evs == [] then 0
    else (if WritesSnapshot(evs[0]) then 1 else 0) + PersistCount(evs[1..])
  }

  /** The snapshots the loop writes to the persistence file, in order, when started
      on store `m`: each is the store at the moment its `Persist` is processed. */
  function Writes(m: Store, evs: seq<Event>): (snapshots: seq<Store>)
  {
    if evs == [] then []
    else
      var prefix := evs[..|evs| - 1];
      Writes(m, prefix) + (if WritesSnapshot(evs[|evs| - 1]) then [ApplyAll(m, Commands(prefix))] else [])
  }

  /** Whether `c` names `key` (a `Persist` names no key). */
  predicate Touches(c: Command, key: string)
  {
    (c.Add? || c.Remove?) && c.key == key
  }

  /** An independent reading of the net effect of a command sequence on one key:
      the last command that names the key decides; if none does, the starting store does. */
  function NetValue(m: Store, cmds: seq<Command>, key: string): (v: Option<string>)
  {
    if cmds == [] then (if key in m then Some(m[key]) else None)
    else
      var c := cmds[|cmds| - 1];
      if Touches(c, key) then (if c.Add? then Some(c.value) else None)
      else NetValue(m, cmds[..|cmds| - 1], key)
  }
}
