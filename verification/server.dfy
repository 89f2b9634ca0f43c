/**
 The server's shared state: the key->URL map that the background consumer
 mutates and the HTTP handlers read. Each method is one critical section on
 the map; the lock itself is not modelled.
 */
module RgoServer {
  import opened StoreSpec
  import StoreLemmas

  class SharedStore {
    /** The contents of the shared `HashMap<String, String>`. */
    var entries: Store

    /** A fresh empty map, then the seed entry inserted by `main`. */
    constructor ()
      ensures entries.Keys == {SeedKey} && entries[SeedKey] == SeedUrl
      ensures entries == InitialStore()
    {
      entries := map[];
      new;
      entries := entries[SeedKey := SeedUrl];
    }

    /** The `GET /:key` handler: the stored URL on a hit, the fallback on a miss. */
    method Redirect(key: string) returns (url: string)
      ensures key in entries ==> url == entries[key]
      ensures key !in entries ==> url == Fallback
      ensures url == Resolve(entries, key)
    {
      if key in entries {
        url := entries[key];
      } else {
        url := Fallback;
      }
    }

    /** The `GET /priv/list` handler: a copy of the whole map. */
    method List() returns (snapshot: Store)
      ensures snapshot == entries
    {
      snapshot := entries;
    }

    /** The `Persist` arm: takes a snapshot of the map and hands it to the file write,
        whose outcome is `writeOk`. The map is only read, whatever the outcome. The
        result is the snapshot the persistence file now holds, or `None` if the
        write failed. */
    method Persist(writeOk: bool) returns (written: Option<Store>)
      ensures written.Some? <==> writeOk
      ensures written.Some? ==> written.value == entries
    {
      var serialized := entries;
      if writeOk {
        written := Some(serialized);
      } else {
        written := None;
      }
    }

    /** `execute_command`: insert, remove, or persist. */
    method ExecuteCommand(command: Command, writeOk: bool) returns (written: Option<Store>)
      modifies this
      ensures entries == Apply(command, old(entries))
      ensures written == if command.Persist? && writeOk then Some(old(entries)) else None
    {
      match command
      case Add(key, value) =>
        entries := entries[key := value];
        written := None;
      case Remove(key) =>
        entries := entries - {key};
        written := None;
      case Persist =>
        written := Persist(writeOk);
    }

    /** One iteration of the background loop: execute what was read, or skip a
        read error. */
    method ConsumeOne(e: Event) returns (written: Option<Store>)
      modifies this
      ensures entries == Step(old(entries), e)
      ensures e.ReadFailed? ==> entries == old(entries)
      ensures written == if WritesSnapshot(e) then Some(old(entries)) else None
    {
      match e
      case Received(command, writeOk) =>
        written := ExecuteCommand(command, writeOk);
      case ReadFailed =>
        written := None;
    }

    /** The background loop run over a finite sequence of read events: the map ends
        as the left fold of the commands read, in arrival order, and the snapshots
        written are those of each successful `Persist`. */
    method ConsumeAll(events: seq<Event>) returns (written: seq<Store>)
      modifies this
      ensures entries == ApplyAll(old(entries), Commands(events))
      ensures written == Writes(old(entries), events)
    {
      ghost var start := entries;
      written := [];
      var i := 0;
      while i < |events|
        invariant 0 <= i <= |events|
        invariant entries == ApplyAll(start, Commands(events[..i]))
        invariant written == Writes(start, events[..i])
      {
        var w := ConsumeOne(events[i]);
        StoreLemmas.StepExtendsFold(start, events[..i], events[i]);
        assert events[..i + 1] == events[..i] + [events[i]];
        assert events[..i + 1][..i] == events[..i];
        if w.Some? {
          written := written + [w.value];
        }
        i := i + 1;
      }
      assert events[..|events|] == events;
    }
  }
}
