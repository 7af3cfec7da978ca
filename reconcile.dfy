/**
 The two directions of the secret reconciler of scripts/env.ts: building the
 remote dictionary from the listed secrets, pulling remote values into the
 local dictionary, and planning the create/update calls that push local
 values to the remote store.

 Every fold below is defined on the last element of its key sequence, so that
 a loop over `keys[..i]` keeps `x == F(keys[..i])` as its invariant.
 */
module Reconcile {
  import opened Records

  /** One element of the list the secrets service returns. */
  datatype Secret = Secret(secretKey: string, secretValue: string)

  /** A line the pull phase writes to the console. */
  datatype LogEntry = CreatingLocal(key: string) | UpdatingLocal(key: string)

  /** A call the push phase issues to the secrets service. */
  datatype Action = Create(key: string, value: string) | Update(key: string, value: string)

  // ---------------------------------------------------------------------------
  // The list-to-dictionary reduce

  function ListedKeys(list: seq<Secret>): set<string> {
    set s | s in list :: s.secretKey
  }

  /** The reduce: each secret in turn is assigned into the accumulator. */
  function FromList(list: seq<Secret>): (r: Record)
    ensures WellFormed(r)
    decreases |list|
  {
    if list == [] then Empty
    else
      var last := list[|list| - 1];
      Put(FromList(list[..|list| - 1]), last.secretKey, last.secretValue)
  }

  /** The remote dictionary holds exactly the listed names, and for each name
      the value of its LAST occurrence in the list. */
  lemma FromListContents(list: seq<Secret>)
    ensures forall k :: k in FromList(list).values <==> k in ListedKeys(list)
    ensures forall i :: 0 <= i < |list| && (forall j :: i < j < |list| ==> list[j].secretKey != list[i].secretKey) ==>
              FromList(list).values[list[i].secretKey] == list[i].secretValue
  {
    FromListKeys(list);
    forall i | 0 <= i < |list| && (forall j :: i < j < |list| ==> list[j].secretKey != list[i].secretKey)
      ensures FromList(list).values[list[i].secretKey] == list[i].secretValue
    {
      FromListLastWins(list, i);
    }
  }

  lemma {:induction false} FromListKeys(list: seq<Secret>)
    ensures forall k :: k in FromList(list).values <==> k in ListedKeys(list)
    decreases |list|
  {
    if list != [] {
      var init, last := list[..|list| - 1], list[|list| - 1];
      FromListKeys(init);
      assert list == init + [last];
      assert ListedKeys(list) == ListedKeys(init) + {last.secretKey};
    }
  }

  lemma {:induction false} FromListLastWins(list: seq<Secret>, i: nat)
    requires i < |list|
    requires forall j :: i < j < |list| ==> list[j].secretKey != list[i].secretKey
    ensures list[i].secretKey in FromList(list).values
    ensures FromList(list).values[list[i].secretKey] == list[i].secretValue
    decreases |list|
  {
    var init, last := list[..|list| - 1], list[|list| - 1];
    if i < |list| - 1 {
      assert list[i] == init[i];
      assert last.secretKey != init[i].secretKey;
      assert forall j :: i < j < |init| ==> init[j] == list[j];
      FromListLastWins(init, i);
    }
  }

  /** The reduce as the loop it is. */
  method BuildRemote(list: seq<Secret>) returns (acc: Record)
    ensures acc == FromList(list)
    ensures WellFormed(acc)
  {
    acc := Empty;
    var i := 0;
    while i < |list|
      invariant 0 <= i <= |list|
      invariant acc == FromList(list[..i])
    {
      assert list[..i + 1][..i] == list[..i];
      acc := Put(acc, list[i].secretKey, list[i].secretValue);
      i := i + 1;
    }
    assert list[..i] == list;
  }

  // ---------------------------------------------------------------------------
  // Pull: remote -> local

  /** One iteration of the pull loop, for the remote key `k`. */
  function PullStep(local: Record, remote: Record, k: string): (r: Record)
    requires WellFormed(local) && k in remote.values
  {
    var localValue := Get(local, k);
    if !Truthy(localValue) then Put(local, k, remote.values[k])
    else if remote.values[k] != localValue.value then Put(local, k, remote.values[k])
    else local
  }

  /** Whichever branch it takes, the iteration leaves `k` with the remote
      value; only a key new to the local dictionary is appended to the
      enumeration order. */
  lemma PullStepEffect(local: Record, remote: Record, k: string)
    requires WellFormed(local) && k in remote.values
    ensures PullStep(local, remote, k).values == local.values[k := remote.values[k]]
    ensures PullStep(local, remote, k).keys == local.keys + (if k in local.values then [] else [k])
  {
    if k in local.values && local.values[k] == remote.values[k] {
      assert local.values[k := remote.values[k]] == local.values;
    }
  }

  /** What that iteration writes to the console. */
  function PullStepLog(local: Record, remote: Record, k: string): seq<LogEntry>
    requires k in remote.values
  {
    var localValue := Get(local, k);
    if !Truthy(localValue) then [CreatingLocal(k)]
    else if remote.values[k] != localValue.value then [UpdatingLocal(k)]
    else []
  }

  /** The pull loop run over the remote keys `ks`, in order. */
  function PullKeys(local: Record, remote: Record, ks: seq<string>): (r: Record)
    requires WellFormed(local)
    requires forall k :: k in ks ==> k in remote.values
    ensures WellFormed(r)
    decreases |ks|
  {
    if ks == [] then local
    else PullStep(PullKeys(local, remote, ks[..|ks| - 1]), remote, ks[|ks| - 1])
  }

  function PullKeysLog(local: Record, remote: Record, ks: seq<string>): seq<LogEntry>
    requires WellFormed(local)
    requires forall k :: k in ks ==> k in remote.values
    decreases |ks|
  {
    if ks == [] then []
    else
      var init := ks[..|ks| - 1];
      PullKeysLog(local, remote, init) + PullStepLog(PullKeys(local, remote, init), remote, ks[|ks| - 1])
  }

  /** The pull loop one iteration further. */
  lemma PullKeysSnoc(local: Record, remote: Record, ks: seq<string>, k: string)
    requires WellFormed(local)
    requires (forall x :: x in ks ==> x in remote.values) && k in remote.values
    ensures PullKeys(local, remote, ks + [k]) == PullStep(PullKeys(local, remote, ks), remote, k)
    ensures PullKeysLog(local, remote, ks + [k]) ==
              PullKeysLog(local, remote, ks) + PullStepLog(PullKeys(local, remote, ks), remote, k)
  {
    assert (ks + [k])[..|ks|] == ks;
  }

  /** `pullSecrets`: the loop over every remote entry. */
  function Pulled(local: Record, remote: Record): Record
    requires WellFormed(local) && WellFormed(remote)
  {
    PullKeys(local, remote, remote.keys)
  }

  function PullLog(local: Record, remote: Record): seq<LogEntry>
    requires WellFormed(local) && WellFormed(remote)
  {
    PullKeysLog(local, remote, remote.keys)
  }

  /** The keys of `ks` that `known` lacks, in the order of `ks`. */
  function NewKeys(known: map<string, string>, ks: seq<string>): (r: seq<string>)
    decreases |ks|
  {
    if ks == [] then []
    else NewKeys(known, ks[..|ks| - 1]) + (if ks[|ks| - 1] in known then [] else [ks[|ks| - 1]])
  }

  lemma {:induction false} PullKeysEffect(local: Record, remote: Record, ks: seq<string>)
    requires WellFormed(local) && Distinct(ks)
    requires forall k :: k in ks ==> k in remote.values
    ensures forall k :: k in PullKeys(local, remote, ks).values <==> k in local.values || k in ks
    ensures forall k :: k in ks ==> PullKeys(local, remote, ks).values[k] == remote.values[k]
    ensures forall k :: k in local.values && k !in ks ==> PullKeys(local, remote, ks).values[k] == local.values[k]
    ensures PullKeys(local, remote, ks).keys == local.keys + NewKeys(local.values, ks)
    decreases |ks|
  {
    if ks != [] {
      var init, k := ks[..|ks| - 1], ks[|ks| - 1];
      var mid := PullKeys(local, remote, init);
      DistinctInit(ks);
      PullKeysEffect(local, remote, init);
      PullStepEffect(mid, remote, k);
      var r := PullKeys(local, remote, ks);
      assert r == PullStep(mid, remote, k);
      assert r.values == mid.values[k := remote.values[k]];
      assert forall x :: x in ks <==> x in init || x == k;
      assert r.keys == local.keys + NewKeys(local.values, ks) by {
        assert k in mid.values <==> k in local.values;
      }
    }
  }

  /** Pull merges the remote dictionary over the local one: every remote key
      ends up with the remote value, every other key keeps its value, and the
      newly inserted keys follow the existing ones in remote order. */
  lemma PullMerges(local: Record, remote: Record)
    requires WellFormed(local) && WellFormed(remote)
    ensures Pulled(local, remote).values == local.values + remote.values
    ensures Pulled(local, remote).keys == local.keys + NewKeys(local.values, remote.keys)
  {
    var pulled, merged := Pulled(local, remote), local.values + remote.values;
    PullKeysEffect(local, remote, remote.keys);
    forall k ensures k in pulled.values <==> k in merged {
      assert k in remote.keys <==> k in remote.values;
    }
    forall k | k in merged ensures pulled.values[k] == merged[k] {
      assert k in remote.keys <==> k in remote.values;
    }
    MapExt(pulled.values, merged);
  }

  lemma MapExt(m: map<string, string>, n: map<string, string>)
    requires forall k :: k in m <==> k in n
    requires forall k :: k in m ==> m[k] == n[k]
    ensures m == n
  {
  }

  /** After pull every remote key is local, with the remote value. */
  lemma PullCopiesRemote(local: Record, remote: Record)
    requires WellFormed(local) && WellFormed(remote)
    ensures forall k :: k in remote.values ==> Get(Pulled(local, remote), k) == Get(remote, k)
  {
    PullMerges(local, remote);
  }

  /** Pull never removes a key nor moves one in the enumeration order, and
      leaves the value of every key the remote lacks as it was. */
  lemma PullKeepsLocal(local: Record, remote: Record)
    requires WellFormed(local) && WellFormed(remote)
    ensures forall k :: k in local.values ==> k in Pulled(local, remote).values
    ensures forall k :: k !in remote.values ==> Get(Pulled(local, remote), k) == Get(local, k)
    ensures local.keys <= Pulled(local, remote).keys
  {
    PullMerges(local, remote);
  }

  lemma {:induction false} NewKeysOfKnown(known: map<string, string>, ks: seq<string>)
    requires forall k :: k in ks ==> k in known
    ensures NewKeys(known, ks) == []
    decreases |ks|
  {
    if ks != [] {
      NewKeysOfKnown(known, ks[..|ks| - 1]);
    }
  }

  /** A second pull against the same remote dictionary changes nothing. */
  lemma PullIdempotent(local: Record, remote: Record)
    requires WellFormed(local) && WellFormed(remote)
    ensures Pulled(Pulled(local, remote), remote) == Pulled(local, remote)
  {
    var once := Pulled(local, remote);
    var twice := Pulled(once, remote);
    PullMerges(local, remote);
    PullMerges(once, remote);
    assert forall k :: k in remote.keys ==> k in once.values;
    NewKeysOfKnown(once.values, remote.keys);
    assert twice.keys == once.keys;
    MapExt(once.values + remote.values, once.values);
    assert twice.values == once.values;
  }

  lemma {:induction false} PullKeysLogEntries(local: Record, remote: Record, ks: seq<string>)
    requires WellFormed(local) && Distinct(ks)
    requires forall k :: k in ks ==> k in remote.values
    ensures forall k :: CreatingLocal(k) in PullKeysLog(local, remote, ks) <==> k in ks && !Truthy(Get(local, k))
    ensures forall k :: UpdatingLocal(k) in PullKeysLog(local, remote, ks) <==>
              k in ks && Truthy(Get(local, k)) && local.values[k] != remote.values[k]
    decreases |ks|
  {
    if ks != [] {
      var init, k := ks[..|ks| - 1], ks[|ks| - 1];
      DistinctInit(ks);
      PullKeysLogEntries(local, remote, init);
      PullKeysEffect(local, remote, init);
      assert Get(PullKeys(local, remote, init), k) == Get(local, k);
      assert forall x :: x in ks <==> x in init || x == k;
    }
  }

  /** The console trace of pull: "Creating" for a remote key whose local value
      is missing OR EMPTY, "Updating" for one whose non-empty local value
      differs, judged against the local dictionary as it was before pull. */
  lemma PullLogEntries(local: Record, remote: Record)
    requires WellFormed(local) && WellFormed(remote)
    ensures forall k :: CreatingLocal(k) in PullLog(local, remote) <==> k in remote.values && !Truthy(Get(local, k))
    ensures forall k :: UpdatingLocal(k) in PullLog(local, remote) <==>
              k in remote.values && Truthy(Get(local, k)) && local.values[k] != remote.values[k]
  {
    PullKeysLogEntries(local, remote, remote.keys);
  }

  // ---------------------------------------------------------------------------
  // Push: local -> remote

  /** One iteration of the push loop, for the local key `k`. */
  function PushStep(local: Record, remote: Record, k: string): seq<Action>
    requires k in local.values
  {
    var infisicalValue := Get(remote, k);
    if !Truthy(infisicalValue) then [Create(k, local.values[k])]
    else if local.values[k] != infisicalValue.value then [Update(k, local.values[k])]
    else []
  }

  /** The push loop run over the local keys `ks`, in order. */
  function PushKeys(local: Record, remote: Record, ks: seq<string>): seq<Action>
    requires forall k :: k in ks ==> k in local.values
    decreases |ks|
  {
    if ks == [] then []
    else PushKeys(local, remote, ks[..|ks| - 1]) + PushStep(local, remote, ks[|ks| - 1])
  }

  /** The push loop one iteration further. */
  lemma PushKeysSnoc(local: Record, remote: Record, ks: seq<string>, k: string)
    requires (forall x :: x in ks ==> x in local.values) && k in local.values
    ensures PushKeys(local, remote, ks + [k]) == PushKeys(local, remote, ks) + PushStep(local, remote, k)
  {
    assert (ks + [k])[..|ks|] == ks;
  }

  /** `pushSecrets`: the calls issued, in the order they are issued. */
  function PushPlan(local: Record, remote: Record): seq<Action>
    requires WellFormed(local)
  {
    PushKeys(local, remote, local.keys)
  }

  lemma {:induction false} PushKeysActions(local: Record, remote: Record, ks: seq<string>)
    requires Distinct(ks)
    requires forall k :: k in ks ==> k in local.values
    ensures forall k, v :: Create(k, v) in PushKeys(local, remote, ks) <==>
              k in ks && v == local.values[k] && !Truthy(Get(remote, k))
    ensures forall k, v :: Update(k, v) in PushKeys(local, remote, ks) <==>
              k in ks && v == local.values[k] && Truthy(Get(remote, k)) && remote.values[k] != v
    ensures forall a :: a in PushKeys(local, remote, ks) ==> a.key in ks
    ensures Distinct(KeysOf(PushKeys(local, remote, ks)))
    decreases |ks|
  {
    if ks != [] {
      var init, k := ks[..|ks| - 1], ks[|ks| - 1];
      DistinctInit(ks);
      PushKeysActions(local, remote, init);
      assert forall x :: x in ks <==> x in init || x == k;
      var before, step := PushKeys(local, remote, init), PushStep(local, remote, k);
      KeysOfAppend(before, step);
      forall i | 0 <= i < |KeysOf(before)| ensures KeysOf(before)[i] != k {
        assert before[i] in before;
      }
    }
  }

  /** The key each call names, in order. */
  function KeysOf(acts: seq<Action>): seq<string> {
    seq(|acts|, i requires 0 <= i < |acts| => acts[i].key)
  }

  lemma KeysOfAppend(a: seq<Action>, b: seq<Action>)
    ensures KeysOf(a + b) == KeysOf(a) + KeysOf(b)
  {
  }

  /** Push issues exactly: a create with the local value for each local key
      whose remote value is missing OR EMPTY; an update with the local value
      for each key whose non-empty remote value differs; nothing for a key
      whose non-empty remote value is the local one; at most one call per
      key, and none for a key that is not local. */
  lemma PushPlanActions(local: Record, remote: Record)
    requires WellFormed(local)
    ensures forall k, v :: Create(k, v) in PushPlan(local, remote) <==>
              k in local.values && v == local.values[k] && !Truthy(Get(remote, k))
    ensures forall k, v :: Update(k, v) in PushPlan(local, remote) <==>
              k in local.values && v == local.values[k] && Truthy(Get(remote, k)) && remote.values[k] != v
    ensures forall a :: a in PushPlan(local, remote) ==> a.key in local.values
    ensures Distinct(KeysOf(PushPlan(local, remote)))
  {
    PushKeysActions(local, remote, local.keys);
  }

  // ---------------------------------------------------------------------------
  // The remote store as the calls leave it

  /** The remote store after the calls `acts`, both kinds of call setting the
      named secret to the given value. */
  function Apply(store: map<string, string>, acts: seq<Action>): map<string, string>
    decreases |acts|
  {
    if acts == [] then store
    else
      var last := acts[|acts| - 1];
      Apply(store, acts[..|acts| - 1])[last.key := last.value]
  }

  lemma {:induction false} ApplyPushKeys(local: Record, remote: Record, ks: seq<string>)
    requires forall k :: k in ks ==> k in local.values
    ensures forall k :: k in Apply(remote.values, PushKeys(local, remote, ks)) <==> k in remote.values || k in ks
    ensures forall k :: k in ks ==> Apply(remote.values, PushKeys(local, remote, ks))[k] == local.values[k]
    ensures forall k :: k in remote.values && k !in ks ==> Apply(remote.values, PushKeys(local, remote, ks))[k] == remote.values[k]
    decreases |ks|
  {
    if ks != [] {
      var init, k := ks[..|ks| - 1], ks[|ks| - 1];
      ApplyPushKeys(local, remote, init);
      var before, step := PushKeys(local, remote, init), PushStep(local, remote, k);
      ApplyAppend(remote.values, before, step);
      var mid := Apply(remote.values, before);
      ApplyPushStep(mid, local, remote, k, k in init);
      assert forall x :: x in ks <==> x in init || x == k;
    }
  }

  /** One iteration's call leaves the store holding the local value, which
      it already held when no call is issued. */
  lemma ApplyPushStep(mid: map<string, string>, local: Record, remote: Record, k: string, seen: bool)
    requires k in local.values
    requires seen ==> k in mid && mid[k] == local.values[k]
    requires !seen ==> (k in mid <==> k in remote.values) && (k in remote.values ==> mid[k] == remote.values[k])
    ensures Apply(mid, PushStep(local, remote, k)) == mid[k := local.values[k]]
  {
    var step := PushStep(local, remote, k);
    if step == [] {
      assert mid[k := local.values[k]] == mid;
    } else {
      assert step[..0] == [];
    }
  }

  lemma {:induction false} ApplyAppend(store: map<string, string>, a: seq<Action>, b: seq<Action>)
    ensures Apply(store, a + b) == Apply(Apply(store, a), b)
    decreases |b|
  {
    if b == [] {
      assert a + b == a;
    } else {
      assert (a + b)[..|a + b| - 1] == a + b[..|b| - 1];
      ApplyAppend(store, a, b[..|b| - 1]);
    }
  }

  /** Once push's calls have gone through, the remote store agrees with the
      local dictionary on every local key and is otherwise untouched. */
  lemma PushReconciles(local: Record, remote: Record)
    requires WellFormed(local)
    ensures Apply(remote.values, PushPlan(local, remote)) == remote.values + local.values
  {
    ApplyPushKeys(local, remote, local.keys);
    assert Apply(remote.values, PushPlan(local, remote)).Keys == (remote.values + local.values).Keys;
  }

  /** Push issues no call at all exactly when every local value is already
      the remote one and is not empty. */
  lemma PushPlanEmpty(local: Record, remote: Record)
    requires WellFormed(local)
    ensures PushPlan(local, remote) == [] <==>
              forall k :: k in local.values ==> Truthy(Get(remote, k)) && remote.values[k] == local.values[k]
  {
    PushKeysEmpty(local, remote, local.keys);
  }

  lemma {:induction false} PushKeysEmpty(local: Record, remote: Record, ks: seq<string>)
    requires forall k :: k in ks ==> k in local.values
    ensures PushKeys(local, remote, ks) == [] <==>
              forall k :: k in ks ==> Truthy(Get(remote, k)) && remote.values[k] == local.values[k]
    decreases |ks|
  {
    if ks != [] {
      var init, k := ks[..|ks| - 1], ks[|ks| - 1];
      PushKeysEmpty(local, remote, init);
      assert forall x :: x in ks <==> x in init || x == k;
    }
  }

  // ---------------------------------------------------------------------------
  // Sync: pull, then push

  /** In a sync, push runs against the pulled dictionary, so it issues no
      update at all: only a create for each key that was local-only, with its
      local value, and a create with the empty value for each key whose
      remote value is empty. Conflicts are thus resolved for the remote. */
  lemma SyncPushCreatesOnly(local: Record, remote: Record)
    requires WellFormed(local) && WellFormed(remote)
    ensures forall k, v :: Update(k, v) !in PushPlan(Pulled(local, remote), remote)
    ensures forall k, v :: Create(k, v) in PushPlan(Pulled(local, remote), remote) <==>
              (k in local.values && k !in remote.values && v == local.values[k]) ||
              (k in remote.values && remote.values[k] == "" && v == "")
  {
    var pulled := Pulled(local, remote);
    PullMerges(local, remote);
    PushPlanActions(pulled, remote);
  }

  /** After a sync whose calls went through, both sides hold the local
      dictionary overridden by the remote one. */
  lemma SyncConverges(local: Record, remote: Record)
    requires WellFormed(local) && WellFormed(remote)
    ensures Pulled(local, remote).values == local.values + remote.values
    ensures Apply(remote.values, PushPlan(Pulled(local, remote), remote)) == local.values + remote.values
  {
    var pulled := Pulled(local, remote);
    PullMerges(local, remote);
    PushReconciles(pulled, remote);
    var merged := local.values + remote.values;
    MapExt(remote.values + merged, merged);
  }

  /** Reconciling a local dictionary with a remote one that holds the same
      values: pull changes nothing, but logs "Creating Local Secret" again
      for each empty value and never "Updating"; push issues no update, and
      it issues a create (with the empty value) exactly for the empty
      values. */
  lemma ReconcileEqual(local: Record, remote: Record)
    requires WellFormed(local) && WellFormed(remote)
    requires remote.values == local.values
    ensures Pulled(local, remote) == local
    ensures forall k :: CreatingLocal(k) in PullLog(local, remote) <==> k in local.values && local.values[k] == ""
    ensures forall k :: UpdatingLocal(k) !in PullLog(local, remote)
    ensures forall k, v :: Update(k, v) !in PushPlan(local, remote)
    ensures forall k, v :: Create(k, v) in PushPlan(local, remote) <==> k in local.values && local.values[k] == "" && v == ""
    ensures PushPlan(local, remote) == [] <==> forall k :: k in local.values ==> local.values[k] != ""
  {
    PullMerges(local, remote);
    NewKeysOfKnown(local.values, remote.keys);
    assert local.values + remote.values == local.values;
    PullLogEntries(local, remote);
    PushPlanActions(local, remote);
    PushPlanEmpty(local, remote);
  }

  /** A second sync against the store the first one left behind changes no
      local value and issues no update; for each secret whose value is empty
      it logs "Creating Local Secret" again and issues a create again, so it
      issues no call exactly when no value is empty. */
  lemma SyncAgain(local: Record, remote: Record, relisted: Record)
    requires WellFormed(local) && WellFormed(remote) && WellFormed(relisted)
    requires relisted.values == Apply(remote.values, PushPlan(Pulled(local, remote), remote))
    ensures Pulled(Pulled(local, remote), relisted) == Pulled(local, remote)
    ensures forall k :: CreatingLocal(k) in PullLog(Pulled(local, remote), relisted) <==>
              k in Pulled(local, remote).values && Pulled(local, remote).values[k] == ""
    ensures forall k :: UpdatingLocal(k) !in PullLog(Pulled(local, remote), relisted)
    ensures forall k, v :: Update(k, v) !in PushPlan(Pulled(local, remote), relisted)
    ensures forall k, v :: Create(k, v) in PushPlan(Pulled(local, remote), relisted) <==>
              k in Pulled(local, remote).values && Pulled(local, remote).values[k] == "" && v == ""
    ensures PushPlan(Pulled(local, remote), relisted) == [] <==>
              forall k :: k in Pulled(local, remote).values ==> Pulled(local, remote).values[k] != ""
  {
    SyncConverges(local, remote);
    ReconcileEqual(Pulled(local, remote), relisted);
  }
}
