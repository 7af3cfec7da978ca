# env.ts secret reconciliation, modelled in Dafny

The script `scripts/env.ts` keeps a project's `.env` file in step with the
secrets stored in an Infisical project. It does three things:

- parses the local file into a dictionary (`localSecrets`);
- lists the remote secrets and folds them into a second dictionary (`infisicalSecrets`);
- performs one of three menu choices:
  - **Pull** copies every remote secret into the local dictionary and rewrites `.env`;
  - **Push** creates or updates each local secret on the remote side;
  - **Sync** pulls, then pushes, then rewrites `.env`.

The model has four modules:

- `Records` describes a JavaScript object used as a string dictionary. A
  `Record` holds its values together with the order in which
  `Object.entries` lists them: first assignment order, where re-assigning
  an existing key keeps its place. It defines:
  - `Get`, the read `obj[key]` (env.ts:27, 44);
  - `Put`, the assignment `obj[key] = value` (env.ts:19, 31, 37);
  - `Truthy`, the `if (!value)` tests at env.ts:29 and 46, under which
    `undefined` and `""` are both falsy.
- `Reconcile` holds the fold of the listing, the two loops and the
  properties of a whole reconciliation.
  - `FromList` is the `reduce` at env.ts:17-23.
  - `Pulled` is `pullSecrets` (env.ts:25-40): the dictionary it leaves.
    `PullLog` is the lines that function logs. Both are built from
    `PullStep` and `PullStepLog`, one iteration of env.ts:27-38.
    `PullKeys` and `PullKeysLog` repeat that iteration over a run of keys.
  - `PushPlan` is `pushSecrets` (env.ts:42-57): the create/update calls it
    issues, in order. It is built from `PushStep`, one iteration of
    env.ts:44-55, and `PushKeys` repeats that step over a run of keys.
  - `Apply` is the effect of those calls on an ideal remote store.
  - `KeysOf` lists the key each call names.
- `EnvFile` describes how the file is rendered. `EnvFileText` is the
  argument `updateEnvFile` passes to `writeFileSync` (env.ts:59-67). It is
  made of:
  - `SortedKeys` (env.ts:62-63), a stable insertion sort (`Sort`,
    `Insert`) by an abstract comparator, which stands for
    `a.localeCompare(b) <= 0`;
  - `Line` and `Lines` (env.ts:64), one `KEY='value'` line per entry;
  - `Join` (env.ts:65), joining the lines with `'\n'`.
- `Env` holds the menu. `Choice` is the option list (env.ts:6-7) and
  `Dispatch` is the `switch` (env.ts:71-84). It also has a class
  `Reconciler` whose `local` field the pull method updates in place, as
  `localSecrets` is updated in the script. Its methods are proved equal to
  the functions above.

The script has two quirks, and the model keeps both:

- **Empty counts as missing.** An empty local value makes the pull
  "create" the key again. An empty remote value makes the push issue a
  `createSecret`, not an `updateSecret`.
- **Sync takes the remote value.** In a Sync the pull runs first, so a key
  present on both sides with different values takes the remote value. The
  push that follows then never issues an update (`SyncPushCreatesOnly`).

"A second Sync issues no calls" holds only when no value is empty.
`ReconcileEqual` and `SyncAgain` prove exactly what happens. After a
Sync, the second run changes no local value. It logs no "Updating Local
Secret" line, but logs "Creating Local Secret k" again for every key whose
value is the empty string. Its push issues no update, and it re-issues
`Create(k, "")` for every key whose value is empty. It issues no calls at
all exactly when no value is empty.
This second Sync starts from the dictionary the first one left in memory.
It does not re-read `.env`. So these lemmas assume that `dotenv.parse`
reads back exactly the values written.

## Model

| member | source | states |
|---|---|---|
| Records.Put | scripts/env.ts:31 | assigning a property sets exactly that value and keeps the dictionary well-formed (every key listed once) |
| Reconcile.FromList | scripts/env.ts:17-23 | the reduce over the listing yields a well-formed dictionary |
| Reconcile.FromListContents | scripts/env.ts:17-23 | the dictionary holds exactly the listed names, and a name repeated in the listing takes its last value |
| Reconcile.FromListKeys | scripts/env.ts:17-23 | a name is a key of the folded dictionary if and only if it is listed |
| Reconcile.FromListLastWins | scripts/env.ts:19 | an occurrence that no later occurrence overrides gives the stored value |
| Reconcile.BuildRemote | scripts/env.ts:17-23 | the loop that builds the accumulator computes the fold |
| Reconcile.PullStepEffect | scripts/env.ts:27-38 | one iteration of the pull sets the key to the remote value, and appends the key to the enumeration order only when it was absent |
| Reconcile.PullKeys | scripts/env.ts:26-39 | the pull over any run of keys keeps the local dictionary well-formed |
| Reconcile.PullKeysSnoc | scripts/env.ts:26-39 | the pull over `ks + [k]` is the pull over `ks` followed by one step for `k`, for the dictionary and the log |
| Reconcile.PullKeysEffect | scripts/env.ts:26-39 | after the pull over distinct keys, the pulled keys take the remote value, other local keys keep theirs, no key is lost, and new keys are appended in listing order |
| Reconcile.PullMerges | scripts/env.ts:25-40 | `pullSecrets` turns the local values into the local values overridden by the remote ones, and appends new keys in remote order |
| Reconcile.PullCopiesRemote | scripts/env.ts:25-40 | after a pull every remote key reads back the remote value |
| Reconcile.PullKeepsLocal | scripts/env.ts:25-40 | a pull never removes a local key, keeps the value of keys the remote lacks, and keeps the existing enumeration order as a prefix |
| Reconcile.NewKeysOfKnown | scripts/env.ts:26-31 | no key is appended when every listed key is already present |
| Reconcile.PullIdempotent | scripts/env.ts:25-40 | pulling twice from the same remote is the same as pulling once |
| Reconcile.PullKeysLogEntries | scripts/env.ts:29-37 | over distinct keys, "Creating Local Secret k" is logged exactly when the local value was missing or empty, and "Updating Local Secret k" exactly when it was present, truthy and different |
| Reconcile.PullLogEntries | scripts/env.ts:25-40 | the same, for the whole pull over the remote dictionary |
| Reconcile.PushKeysSnoc | scripts/env.ts:43-56 | the push over `ks + [k]` is the push over `ks` followed by one step for `k` |
| Reconcile.PushKeysActions | scripts/env.ts:43-56 | over distinct local keys, `createSecret(k, v)` is issued exactly when the remote value is missing or empty and `v` is the local value, `updateSecret(k, v)` exactly when it is truthy and different; every call names one of the keys, and no key gets two calls |
| Reconcile.PushPlanActions | scripts/env.ts:42-57 | the same, for the whole push over the local dictionary |
| Reconcile.KeysOfAppend | scripts/env.ts:43-56 | the keys named by two call sequences in a row are the keys of each, concatenated |
| Reconcile.ApplyPushKeys | scripts/env.ts:43-56 | applying the calls of a push over some keys to the remote store gives those keys their local value and leaves every other remote key alone |
| Reconcile.ApplyPushStep | scripts/env.ts:46-55 | the calls of one push iteration set that key to its local value in the store, whether or not a call is issued |
| Reconcile.ApplyAppend | scripts/env.ts:43-56 | calls issued one after another compose |
| Reconcile.PushReconciles | scripts/env.ts:42-57 | after the calls of `pushSecrets`, the remote store holds the remote values overridden by the local ones |
| Reconcile.PushPlanEmpty | scripts/env.ts:42-57 | `pushSecrets` issues no call if and only if every local key has a truthy remote value equal to the local value |
| Reconcile.PushKeysEmpty | scripts/env.ts:43-56 | the same, for the push over any run of local keys |
| Reconcile.SyncPushCreatesOnly | scripts/env.ts:72-75 | in a Sync the push after the pull issues no update; it creates a key (with its local value) exactly when the key was local-only, or when its remote value was empty and the value created is empty |
| Reconcile.SyncConverges | scripts/env.ts:72-75 | after a Sync the local dictionary and the remote store both hold the local values overridden by the remote ones |
| Reconcile.ReconcileEqual | scripts/env.ts:25-57 | when both sides hold the same values, a pull changes nothing but logs "Creating Local Secret" exactly for the keys whose value is empty and never "Updating"; a push issues no update, creates exactly the keys whose value is empty, and issues nothing exactly when no value is empty |
| Reconcile.SyncAgain | scripts/env.ts:72-75 | a second Sync, starting from the dictionary the first one left (so assuming `.env` reads back as written) and the store it left, changes no local value, logs "Creating Local Secret" exactly for the keys whose value is empty and never "Updating", updates nothing, re-creates only keys whose value is empty, and issues no call exactly when no value is empty |
| EnvFile.Insert | scripts/env.ts:63 | inserting a key into the sorted prefix adds exactly that key and nothing else |
| EnvFile.Sort | scripts/env.ts:63 | sorting permutes the entries (same multiset, same length, same members) |
| EnvFile.InsertSorted | scripts/env.ts:63 | for a total preorder, insertion into a sorted sequence keeps it sorted |
| EnvFile.InsertDistinct | scripts/env.ts:63 | insertion of a new key keeps the keys duplicate-free |
| EnvFile.SortSpec | scripts/env.ts:63 | for a total preorder the sort's output is sorted, and a duplicate-free input stays duplicate-free |
| EnvFile.SortKeepsOrder | scripts/env.ts:63 | the sort is stable: a key that does not exceed a later key of the input, such as one the collation ties with it, stays ahead of it in the output |
| EnvFile.InsertBefore | scripts/env.ts:63 | inserting a key ahead of a member it does not exceed places it before that member |
| EnvFile.InsertKeeps | scripts/env.ts:63 | insertion keeps the relative order of the members already placed |
| EnvFile.SortedUnique | scripts/env.ts:63 | under a total order, two sorted duplicate-free sequences with the same members are equal |
| EnvFile.SortedLeast | scripts/env.ts:63 | the head of a sorted sequence is below every one of its members |
| EnvFile.SortedTail | scripts/env.ts:63 | the tail of a sorted duplicate-free sequence is sorted, duplicate-free and loses only the head |
| EnvFile.EnvFileKeys | scripts/env.ts:62-63 | the keys written are each dictionary key exactly once, sorted for a total preorder |
| EnvFile.DistinctCard | scripts/env.ts:62 | a duplicate-free key sequence has as many members as positions |
| EnvFile.SplitLines | scripts/env.ts:65 | splitting on `'\n'` always gives at least one piece |
| EnvFile.SplitNoNewline | scripts/env.ts:65 | a prefix without a newline joins the first piece of the split |
| EnvFile.SplitJoin | scripts/env.ts:65 | splitting a join of newline-free lines on `'\n'` gives the lines back |
| EnvFile.EnvFileLines | scripts/env.ts:59-67 | an empty dictionary writes an empty file; otherwise, with no newline in keys or values, the file splits into exactly the rendered lines in sorted key order |
| EnvFile.JoinEnds | scripts/env.ts:65 | the join ends with the last character of the last line, so nothing follows it |
| EnvFile.EnvFileNoTrailingNewline | scripts/env.ts:59-67 | a non-empty file ends in the closing quote of its last line, not in a newline |
| EnvFile.EnvFileDeterministic | scripts/env.ts:59-67 | under a total order, the file depends only on the values, not on enumeration order |
| EnvFile.IndexOf | scripts/env.ts:64 | the first position of a character, or none when it does not occur |
| EnvFile.LineVerbatim | scripts/env.ts:64 | a line of a key without `=` reads back as exactly that key and value |
| EnvFile.LexTotal | scripts/env.ts:63 | code-point order on keys is total |
| EnvFile.LexTransitive | scripts/env.ts:63 | code-point order on keys is transitive |
| EnvFile.LexAntisymmetric | scripts/env.ts:63 | code-point order on keys is antisymmetric |
| EnvFile.LexLeqTotalOrder | scripts/env.ts:63 | code-point order meets the comparator requirements of the sort lemmas |
| Env.Dispatch | scripts/env.ts:71-84 | every menu choice leaves a well-formed local dictionary |
| Env.DispatchOutcome | scripts/env.ts:71-84 | only Sync and Pull write `.env`, and then with the pulled dictionary, which is local overridden by remote; Push leaves the local dictionary as it was; Pull issues no call; Sync issues no update |
| Env.Reconciler.constructor | scripts/env.ts:9-23 | the reconciler starts from the parsed file and the folded listing |
| Env.Reconciler.PullSecrets | scripts/env.ts:25-40 | the in-place loop leaves `local` equal to the pull of the old local dictionary, and logs the pull's lines |
| Env.Reconciler.PushSecrets | scripts/env.ts:42-57 | the loop issues exactly the push plan and changes neither dictionary |
| Env.Reconciler.Run | scripts/env.ts:71-84 | one run of the script has the outcome `Dispatch` describes |
| Env.SyncExample | scripts/env.ts:71-76 | a Sync of `a=x` against `a=y, b=z` updates `a`, creates `b` locally, issues no call, and writes `a='y'` then `b='z'` |
| Env.ExampleListing | scripts/env.ts:17-23 | a listing of two distinct names folds to those two entries |
| Env.ExamplePull | scripts/env.ts:25-40 | the pull of that Sync logs "Updating" for `a`, then "Creating" for `b` |
| Env.ExamplePush | scripts/env.ts:42-57 | the push after it finds both sides equal and issues nothing |
| Env.ExampleFile | scripts/env.ts:59-67 | two entries render as two lines joined by one newline |
| Env.PushThenPullExample | scripts/env.ts:77-83 | a Push of `k=v` to an empty store creates `k`; a Pull from the resulting store changes and logs nothing |
| Env.ExamplePushOne | scripts/env.ts:42-57 | a push of one key to an empty store is one `createSecret` |
| Env.ExamplePullOne | scripts/env.ts:25-40 | a pull from a store equal to the local dictionary does nothing |

## Left out

- Reading and parsing `.env` (`dotenv.parse`) is not modelled. The
  constructor takes the parsed dictionary as a parameter.
- Writing the file is not modelled. The model produces the file's text.
- `SplitLines` and `ReadLine` are reference readers used to state the
  format. They are not dotenv's parser: quoting and escaping rules are
  left out.
- The Infisical SDK and the network are not modelled. The listing is an
  input sequence. The calls are an output sequence of actions.
- `Apply` is an ideal store in which both call kinds set the named key.
  Service-side failures, and the rejection of an existing name by
  `createSecret`, are not modelled.
- A failed or rejected `await` is not modelled. In the script such a
  failure aborts the remaining calls and, in a Sync, the file write as
  well. `Dispatch` always writes the file for Sync and Pull.
- The asynchrony of the SDK calls is not modelled. They are awaited one at
  a time, so the model issues them in sequence.
- The credential prompts (`env(...)`) and the menu prompt (`arg(...)`)
  are not modelled. The menu choice is an input.
- The push's console lines are not modelled. They mirror the issued
  actions one for one.
- `localeCompare` is locale-dependent and is not modelled. The order is an
  abstract comparator. The sort lemmas hold for any total preorder, and
  `LexLeq` is one concrete total order.
- Keys inherited from `Object.prototype` (`constructor`, `toString`,
  `valueOf`, `hasOwnProperty`, ...) are not modelled. `Get` reads them as
  absent, but in the script `obj[key]` returns the inherited member, which
  is truthy. For such a key missing from the remote side, `pushSecrets`
  calls `updateSecret` and logs "Updating Infisical Secret", not
  `createSecret`. For such a key missing locally, `pullSecrets` logs
  "Updating Local Secret", not "Creating Local Secret". The final values
  are the same. Every statement about the pull log or the push calls
  holds only for keys that are not inherited names. This covers the
  lemmas and examples, and the logs and calls of the `Reconciler`
  methods.
- The key `__proto__` is not modelled. On a plain `{}`, assigning
  `obj['__proto__'] = value` with a string value goes to the inherited
  setter and is dropped. So in the script a listed or parsed `__proto__`
  secret never becomes a key: it is never pulled, pushed or written to
  `.env`. The model's `Put` stores it as an ordinary key, so
  `FromListContents`, `PullCopiesRemote`, `SyncConverges` and
  `EnvFileText` all include it.
- JavaScript's special enumeration order for integer-like keys is not
  modelled. Integer-like keys come first in ascending numeric order there.
  Enumeration order here is plain insertion order.
- Other files of the repository are not part of this model.
