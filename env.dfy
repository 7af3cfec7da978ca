/**
 The script scripts/env.ts as a whole: the reconciler holds the local
 dictionary (mutated in place) and the remote one (built once from the
 listed secrets), and the menu choice dispatches to Sync, Pull or Push.

 The secrets service, the `.env` file and the console are outside the model:
 the listed secrets come in as a sequence, the create/update calls come out
 as a sequence of actions in the order they are issued, the pull phase's
 console lines come out as a log, and the file write comes out as its text.
 */
module Env {
  import opened Records
  import opened Reconcile
  import opened EnvFile

  /** The options of the menu. */
  datatype Choice = Sync | Pull | Push

  /** What one run leaves behind: the local dictionary, the pull phase's
      console lines, the calls issued, and the text written to `.env` if the
      file is written at all. */
  datatype Outcome = Outcome(local: Record, log: seq<LogEntry>, calls: seq<Action>, file: Option<string>)

  /** The `switch` on the menu choice. */
  function Dispatch(choice: Choice, local: Record, remote: Record, leq: (string, string) -> bool): (o: Outcome)
    requires WellFormed(local) && WellFormed(remote)
    ensures WellFormed(o.local)
  {
    match choice
    case Sync =>
      var pulled := Pulled(local, remote);
      Outcome(pulled, PullLog(local, remote), PushPlan(pulled, remote), Some(EnvFileText(pulled, leq)))
    case Pull =>
      var pulled := Pulled(local, remote);
      Outcome(pulled, PullLog(local, remote), [], Some(EnvFileText(pulled, leq)))
    case Push =>
      Outcome(local, [], PushPlan(local, remote), None)
  }

  /** Sync and Pull rewrite `.env` with the pulled dictionary, which is the
      local one overridden by the remote one; Push leaves the local
      dictionary as it is and never writes the file; Pull issues no call; and
      the calls of a Sync are creates only. */
  lemma DispatchOutcome(choice: Choice, local: Record, remote: Record, leq: (string, string) -> bool)
    requires WellFormed(local) && WellFormed(remote)
    ensures Dispatch(choice, local, remote, leq).file.Some? <==> choice != Push
    ensures choice != Push ==>
              && Dispatch(choice, local, remote, leq).local.values == local.values + remote.values
              && Dispatch(choice, local, remote, leq).file == Some(EnvFileText(Dispatch(choice, local, remote, leq).local, leq))
    ensures choice == Push ==> Dispatch(choice, local, remote, leq).local == local
    ensures choice == Pull ==> Dispatch(choice, local, remote, leq).calls == []
    ensures choice == Sync ==> forall k, v :: Update(k, v) !in Dispatch(choice, local, remote, leq).calls
  {
    match choice {
      case Sync =>
        PullMerges(local, remote);
        SyncPushCreatesOnly(local, remote);
      case Pull =>
        PullMerges(local, remote);
      case Push =>
    }
  }

  /** The script's state: the two dictionaries loaded at start-up. */
  class Reconciler {
    var local: Record
    const remote: Record

    ghost predicate Valid()
      reads this
    {
      WellFormed(local) && WellFormed(remote)
    }

    /** `parsed` is what the `.env` file parsed to, `listed` what the secrets
        service listed. */
    constructor (parsed: Record, listed: seq<Secret>)
      requires WellFormed(parsed)
      ensures Valid()
      ensures local == parsed && remote == FromList(listed)
    {
      var built := BuildRemote(listed);
      local := parsed;
      remote := built;
    }

    /** `pullSecrets`. */
    method PullSecrets() returns (log: seq<LogEntry>)
      requires Valid()
      modifies this
      ensures Valid()
      ensures local == Pulled(old(local), remote)
      ensures log == PullLog(old(local), remote)
    {
      ghost var start := local;
      log := [];
      var i := 0;
      while i < |remote.keys|
        invariant 0 <= i <= |remote.keys|
        invariant WellFormed(local)
        invariant local == PullKeys(start, remote, remote.keys[..i])
        invariant log == PullKeysLog(start, remote, remote.keys[..i])
      {
        var key := remote.keys[i];
        var infisicalValue := remote.values[key];
        var localValue := Get(local, key);
        assert remote.keys[..i + 1] == remote.keys[..i] + [key];
        PullKeysSnoc(start, remote, remote.keys[..i], key);
        if !Truthy(localValue) {
          log := log + [CreatingLocal(key)];
          local := Put(local, key, infisicalValue);
        } else if infisicalValue != localValue.value {
          log := log + [UpdatingLocal(key)];
          local := Put(local, key, infisicalValue);
        }
        i := i + 1;
      }
      assert remote.keys[..i] == remote.keys;
    }

    /** `pushSecrets`: returns the calls it issues; neither dictionary
        changes. */
    method PushSecrets() returns (calls: seq<Action>)
      requires Valid()
      ensures calls == PushPlan(local, remote)
    {
      calls := [];
      var i := 0;
      while i < |local.keys|
        invariant 0 <= i <= |local.keys|
        invariant calls == PushKeys(local, remote, local.keys[..i])
      {
        var key := local.keys[i];
        var localValue := local.values[key];
        var infisicalValue := Get(remote, key);
        assert local.keys[..i + 1] == local.keys[..i] + [key];
        PushKeysSnoc(local, remote, local.keys[..i], key);
        if !Truthy(infisicalValue) {
          calls := calls + [Create(key, localValue)];
        } else if localValue != infisicalValue.value {
          calls := calls + [Update(key, localValue)];
        }
        i := i + 1;
      }
      assert local.keys[..i] == local.keys;
    }

    /** One run of the script for the menu choice `choice`. */
    method Run(choice: Choice, leq: (string, string) -> bool) returns (log: seq<LogEntry>, calls: seq<Action>, file: Option<string>)
      requires Valid()
      modifies this
      ensures Valid()
      ensures Outcome(local, log, calls, file) == Dispatch(choice, old(local), remote, leq)
    {
      log, calls, file := [], [], None;
      match choice {
        case Sync =>
          log := PullSecrets();
          calls := PushSecrets();
          file := Some(EnvFileText(local, leq));
        case Pull =>
          log := PullSecrets();
          file := Some(EnvFileText(local, leq));
        case Push =>
          calls := PushSecrets();
      }
    }
  }

  // ---------------------------------------------------------------------------
  // Worked runs

  /** A Sync of `a=x` against the listing `a=y, b=z`, with `y` different from
      `x` and no value empty: the local value of `a` is updated, `b`
      is created locally, no call is issued, and with `a` sorting before `b`
      the file holds `a='y'` then `b='z'`. */
  lemma SyncExample(a: string, b: string, x: string, y: string, z: string, leq: (string, string) -> bool)
    requires a != b && x != y && x != "" && y != "" && z != "" && leq(a, b)
    ensures Dispatch(Sync, Record([a], map[a := x]), FromList([Secret(a, y), Secret(b, z)]), leq)
            == Outcome(Record([a, b], map[a := y, b := z]),
                       [UpdatingLocal(a), CreatingLocal(b)], [], Some(Line(a, y) + "\n" + Line(b, z)))
  {
    ExampleListing(a, b, y, z);
    ExamplePull(a, b, x, y, z);
    ExamplePush(a, b, y, z);
    ExampleFile(a, b, y, z, leq);
  }

  lemma ExampleListing(a: string, b: string, y: string, z: string)
    requires a != b
    ensures FromList([Secret(a, y), Secret(b, z)]) == Record([a, b], map[a := y, b := z])
  {
    var list := [Secret(a, y), Secret(b, z)];
    var one := Record([a], map[a := y]);
    assert list[..1] == [Secret(a, y)] && list[..1][..0] == [];
    assert [] + [a] == [a];
    assert Put(Empty, a, y) == one;
    assert FromList(list[..1]) == one;
    assert b !in one.values;
    assert [a] + [b] == [a, b];
    assert Put(one, b, z) == Record([a, b], map[a := y, b := z]);
  }

  lemma ExamplePull(a: string, b: string, x: string, y: string, z: string)
    requires a != b && x != y && x != ""
    ensures Pulled(Record([a], map[a := x]), Record([a, b], map[a := y, b := z])) == Record([a, b], map[a := y, b := z])
    ensures PullLog(Record([a], map[a := x]), Record([a, b], map[a := y, b := z])) == [UpdatingLocal(a), CreatingLocal(b)]
  {
    var local, remote := Record([a], map[a := x]), Record([a, b], map[a := y, b := z]);
    var half := Record([a], map[a := y]);
    PullKeysSnoc(local, remote, [], a);
    assert [] + [a] == [a];
    PullKeysSnoc(local, remote, [a], b);
    assert [a] + [b] == remote.keys;
    assert PullStep(local, remote, a) == half;
    assert PullStep(half, remote, b) == remote;
  }

  lemma ExamplePush(a: string, b: string, y: string, z: string)
    requires a != b && y != "" && z != ""
    ensures PushPlan(Record([a, b], map[a := y, b := z]), Record([a, b], map[a := y, b := z])) == []
  {
    var ab := Record([a, b], map[a := y, b := z]);
    PushKeysSnoc(ab, ab, [], a);
    assert [] + [a] == [a];
    PushKeysSnoc(ab, ab, [a], b);
    assert [a] + [b] == ab.keys;
  }

  lemma ExampleFile(a: string, b: string, y: string, z: string, leq: (string, string) -> bool)
    requires a != b && leq(a, b)
    ensures EnvFileText(Record([a, b], map[a := y, b := z]), leq) == Line(a, y) + "\n" + Line(b, z)
  {
    var ab := Record([a, b], map[a := y, b := z]);
    assert [a, b][1..] == [b] && [b][1..] == [];
    assert Sort([b], leq) == Insert(b, [], leq) == [b];
    assert SortedKeys(ab, leq) == Insert(a, [b], leq) == [a, b];
    var lines := Lines([a, b], ab.values);
    assert lines == [Line(a, y), Line(b, z)];
    assert lines[1..] == [Line(b, z)];
    assert Join(lines) == lines[0] + "\n" + Join(lines[1..]);
  }

  /** A Push of `k=v` against an empty listing creates `k`; a Pull against
      the store that leaves changes nothing and logs nothing. */
  lemma PushThenPullExample(k: string, v: string, leq: (string, string) -> bool)
    requires v != ""
    ensures Dispatch(Push, Record([k], map[k := v]), FromList([]), leq).calls == [Create(k, v)]
    ensures Apply(map[], [Create(k, v)]) == map[k := v]
    ensures Dispatch(Pull, Record([k], map[k := v]), FromList([Secret(k, v)]), leq).local == Record([k], map[k := v])
    ensures Dispatch(Pull, Record([k], map[k := v]), FromList([Secret(k, v)]), leq).log == []
  {
    ExamplePushOne(k, v);
    ExamplePullOne(k, v);
  }

  lemma ExamplePushOne(k: string, v: string)
    ensures PushPlan(Record([k], map[k := v]), Empty) == [Create(k, v)]
    ensures Apply(map[], [Create(k, v)]) == map[k := v]
  {
    var local := Record([k], map[k := v]);
    PushKeysSnoc(local, Empty, [], k);
    assert [] + [k] == [k];
    assert [Create(k, v)][..0] == [];
  }

  lemma ExamplePullOne(k: string, v: string)
    requires v != ""
    ensures FromList([Secret(k, v)]) == Record([k], map[k := v])
    ensures Pulled(Record([k], map[k := v]), Record([k], map[k := v])) == Record([k], map[k := v])
    ensures PullLog(Record([k], map[k := v]), Record([k], map[k := v])) == []
  {
    var local := Record([k], map[k := v]);
    var list := [Secret(k, v)];
    assert list[..0] == [];
    assert FromList(list) == Put(Empty, k, v) == local;
    PullKeysSnoc(local, local, [], k);
    assert [] + [k] == [k];
  }
}
