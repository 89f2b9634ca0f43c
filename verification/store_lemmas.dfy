/**
 Properties of the store semantics: what a redirect sees after each command,
 how a sequence of commands composes, which entries a sequence leaves alone,
 and what the consumer loop writes when it persists.
 */
module StoreLemmas {
  import opened StoreSpec

  /** Folding one more command onto a sequence applies it to the folded store. */
  lemma {:induction false} ApplyAllSnoc(m: Store, cmds: seq<Command>, c: Command)
    ensures ApplyAll(m, cmds + [c]) == Apply(c, ApplyAll(m, cmds))
    decreases |cmds|
  {
    if cmds != [] {
      assert (cmds + [c])[1..] == cmds[1..] + [c];
      ApplyAllSnoc(Apply(cmds[0], m), cmds[1..], c);
    }
  }

  /** Running two batches one after the other is running their concatenation. */
  lemma {:induction false} ApplyAllAppend(m: Store, a: seq<Command>, b: seq<Command>)
    ensures ApplyAll(m, a + b) == ApplyAll(ApplyAll(m, a), b)
    decreases |a|
  {
    if a == [] {
      assert a + b == b;
    } else {
      assert (a + b)[1..] == a[1..] + b;
      ApplyAllAppend(Apply(a[0], m), a[1..], b);
    }
  }

  /** After `Add{key, value}` the key redirects to exactly `value`, whatever it held
      before, and every other key redirects where it did before. */
  lemma RedirectAfterAdd(m: Store, key: string, value: string, other: string)
    ensures Resolve(Apply(Add(key, value), m), key) == value
    ensures other != key ==> Resolve(Apply(Add(key, value), m), other) == Resolve(m, other)
  {
  }

  /** After `Remove{key}` the key redirects to the fallback, and every other key
      redirects where it did before. */
  lemma RedirectAfterRemove(m: Store, key: string, other: string)
    ensures Resolve(Apply(Remove(key), m), key) == Fallback
    ensures other != key ==> Resolve(Apply(Remove(key), m), other) == Resolve(m, other)
  {
  }

  /** `Add{key, value}` followed by `Remove{key}` sends the key to the fallback
      again, and leaves every other key as it was. */
  lemma AddThenRemove(m: Store, key: string, value: string)
    ensures Resolve(ApplyAll(m, [Add(key, value), Remove(key)]), key) == Fallback
    ensures ApplyAll(m, [Add(key, value), Remove(key)]) == m - {key}
  {
    ApplyAllSnoc(m, [Add(key, value)], Remove(key));
    assert [Add(key, value)] + [Remove(key)] == [Add(key, value), Remove(key)];
    ApplyAllSnoc(m, [], Add(key, value));
    assert [] + [Add(key, value)] == [Add(key, value)];
  }

  /** Executing the same command twice in a row is the same as executing it once. */
  lemma ApplyIdempotent(c: Command, m: Store)
    ensures Apply(c, Apply(c, m)) == Apply(c, m)
  {
  }

  /** Commands that name different keys (or where one is `Persist`) commute, so the
      relative order of unrelated mutations does not matter. */
  lemma ApplyCommutes(c1: Command, c2: Command, m: Store)
    requires forall k :: !(Touches(c1, k) && Touches(c2, k))
    ensures Apply(c1, Apply(c2, m)) == Apply(c2, Apply(c1, m))
  {
    if (c1.Add? || c1.Remove?) && (c2.Add? || c2.Remove?) {
      assert !(Touches(c1, c1.key) && Touches(c2, c1.key));
    }
  }

  /** A sequence made only of `Persist` commands leaves the store as it was. */
  lemma {:induction false} PersistOnlyKeepsStore(m: Store, cmds: seq<Command>)
    requires forall i :: 0 <= i < |cmds| ==> cmds[i].Persist?
    ensures ApplyAll(m, cmds) == m
    decreases |cmds|
  {
    if cmds != [] {
      PersistOnlyKeepsStore(m, cmds[1..]);
    }
  }

  /** The store after a sequence of commands holds, for every key, exactly the net
      effect of that sequence on the key: the value of the last `Add` naming it,
      absent after a last `Remove`, the starting entry if no command names it. */
  lemma {:induction false} ApplyAllNetEffect(m: Store, cmds: seq<Command>, key: string)
    ensures key in ApplyAll(m, cmds) <==> NetValue(m, cmds, key).Some?
    ensures key in ApplyAll(m, cmds) ==> ApplyAll(m, cmds)[key] == NetValue(m, cmds, key).value
  {
    if cmds != [] {
      var prefix, c := cmds[..|cmds| - 1], cmds[|cmds| - 1];
      assert cmds == prefix + [c];
      ApplyAllSnoc(m, prefix, c);
      ApplyAllNetEffect(m, prefix, key);
    }
  }

  /** A key that no command in the sequence names keeps its entry (or its absence). */
  lemma {:induction false} UntouchedKeyKept(m: Store, cmds: seq<Command>, key: string)
    requires forall i :: 0 <= i < |cmds| ==> !Touches(cmds[i], key)
    ensures key in ApplyAll(m, cmds) <==> key in m
    ensures key in m ==> ApplyAll(m, cmds)[key] == m[key]
    decreases |cmds|
  {
    if cmds != [] {
      UntouchedKeyKept(Apply(cmds[0], m), cmds[1..], key);
    }
  }

  /** The initial store holds exactly the seed entry. */
  lemma InitialStoreIsSeed()
    ensures InitialStore().Keys == {SeedKey}
    ensures InitialStore()[SeedKey] == SeedUrl
    ensures Resolve(InitialStore(), SeedKey) == SeedUrl
  {
  }

  /** The listing always contains `google -> https://google.com` unless a command
      named the key `google`. */
  lemma {:induction false} SeedSurvives(cmds: seq<Command>)
    requires forall i :: 0 <= i < |cmds| ==> !Touches(cmds[i], SeedKey)
    ensures SeedKey in ApplyAll(InitialStore(), cmds)
    ensures ApplyAll(InitialStore(), cmds)[SeedKey] == SeedUrl
  {
    UntouchedKeyKept(InitialStore(), cmds, SeedKey);
  }

  /** One more loop iteration takes the store from the fold of the commands read so
      far to the fold of the commands read including this event's; a read error adds
      no command. */
  lemma StepExtendsFold(m: Store, evs: seq<Event>, e: Event)
    ensures Step(ApplyAll(m, Commands(evs)), e) == ApplyAll(m, Commands(evs + [e]))
    ensures e.ReadFailed? ==> Commands(evs + [e]) == Commands(evs)
  {
    assert (evs + [e])[..|evs + [e]| - 1] == evs;
    if e.Received? {
      ApplyAllSnoc(m, Commands(evs), e.cmd);
    } else {
      assert Commands(evs + [e]) == Commands(evs) + [];
      assert Commands(evs) + [] == Commands(evs);
    }
  }

  /** Every snapshot the loop writes is the store as it stood just before some
      successful `Persist`, i.e. the fold of the commands read before it. */
  lemma {:induction false} WritesAreSnapshots(m: Store, evs: seq<Event>, j: nat)
    requires j < |Writes(m, evs)|
    ensures exists i :: 0 <= i < |evs| && WritesSnapshot(evs[i]) && Writes(m, evs)[j] == ApplyAll(m, Commands(evs[..i]))
  {
    var prefix := evs[..|evs| - 1];
    if j < |Writes(m, prefix)| {
      WritesAreSnapshots(m, prefix, j);
      var i :| 0 <= i < |prefix| && WritesSnapshot(prefix[i]) && Writes(m, prefix)[j] == ApplyAll(m, Commands(prefix[..i]));
      assert prefix[..i] == evs[..i];
      assert evs[i] == prefix[i];
    } else {
      var i := |evs| - 1;
      assert evs[..i] == prefix;
      assert WritesSnapshot(evs[i]);
    }
  }

  /** Each successful `Persist` writes exactly one snapshot, in order: the `Persist` at
      position `i` produces the write that follows the writes of the events before
      it, and that write is the store as it stood when the `Persist` was read. */
  lemma {:induction false} WritesAt(m: Store, evs: seq<Event>, i: nat)
    requires i < |evs| && WritesSnapshot(evs[i])
    ensures |Writes(m, evs[..i])| < |Writes(m, evs)|
    ensures Writes(m, evs)[|Writes(m, evs[..i])|] == ApplyAll(m, Commands(evs[..i]))
    decreases |evs|
  {
    var prefix := evs[..|evs| - 1];
    if i == |evs| - 1 {
      assert evs[..i] == prefix;
    } else {
      assert prefix[..i] == evs[..i];
      WritesAt(m, prefix, i);
    }
  }

  /** Counting from the front and from the back agree: one more event adds one to the
      count exactly when it is a successful `Persist`. */
  lemma {:induction false} PersistCountSnoc(evs: seq<Event>, e: Event)
    ensures PersistCount(evs + [e]) == PersistCount(evs) + (if WritesSnapshot(e) then 1 else 0)
    decreases |evs|
  {
    if evs == [] {
      assert [] + [e] == [e];
      assert [e][1..] == [];
    } else {
      assert (evs + [e])[1..] == evs[1..] + [e];
      PersistCountSnoc(evs[1..], e);
    }
  }

  /** The loop writes exactly one snapshot per successful `Persist`. */
  lemma {:induction false} WritesCount(m: Store, evs: seq<Event>)
    ensures |Writes(m, evs)| == PersistCount(evs)
    decreases |evs|
  {
    if evs != [] {
      var prefix := evs[..|evs| - 1];
      assert evs == prefix + [evs[|evs| - 1]];
      WritesCount(m, prefix);
      PersistCountSnoc(prefix, evs[|evs| - 1]);
    }
  }

  /** The fallback path `/404` is itself matched by the `/:key` route with key `404`,
      so unless `404` is stored, following the fallback redirects to the fallback again. */
  lemma FallbackRedirectsToItself(m: Store)
    requires "404" !in m
    ensures Fallback == "/" + "404"
    ensures Resolve(m, Fallback[1..]) == Fallback
  {
  }

  /** The example session: add `a`, follow it, remove it, follow it again, list. */
  lemma ExampleSession()
    ensures Resolve(ApplyAll(InitialStore(), [Add("a", "http://example.com")]), "a") == "http://example.com"
    ensures Resolve(ApplyAll(InitialStore(), [Add("a", "http://example.com"), Remove("a")]), "a") == Fallback
    ensures ApplyAll(InitialStore(), [Add("a", "http://example.com"), Remove("a")]) == map[SeedKey := SeedUrl]
  {
  }
}
