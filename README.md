# Secret-permissions backfill migration, modelled in Dafny

This project models the database migration that backfills the `readValue` secret
permission. It runs over the three tables that hold authorization rules: project
roles, identity additional privileges and user additional privileges. The `up`
direction adds the action "readValue" to every rule on the subject "secrets" that can
already "read". The `down` direction takes "readValue" away from every such rule
again.

The model has four modules:

- `Wrappers` holds `Option` and `Result`. `Result` supports `:-`.
- `PermissionRules` (rules.dfy) holds the rule shapes. A raw rule is what the rule
  unpacker hands over. A canonical rule is what the validation schema produces: at
  most one subject and a list of actions. `Decode` turns a record's `permissions`
  column into canonical rules. `Encode` stands for packing the rules and unpacking
  them again. Its raw form is this model's convention for the round trip: subject and
  action as lists, and an optional field with no value absent.
- `PermissionRewrite` (rewrite.dfy) holds the per-record rewrites. The two methods
  `UpdatePermissionsUp` and `UpdatePermissionsDown` are the source's loops. Each is
  proved equal to a specification function (`Upgrade`, `Downgrade`). The lemmas
  about those functions state what the rewrites promise.
- `SecretPermissionsMigration` (migration.dfy) holds the run over the three tables.
  `StageRecords` is the reduce that collects the rows to write back. `Upsert` is the
  insert-on-conflict-merge of the `permissions` column. `Migrate` is `up` or `down`
  as a whole. The database is a value, and each table is the sequence of rows a full
  select returns.

Three behaviours of the code that the model keeps as written:

- The schema accepts an empty list of actions. The action is a non-empty string or
  any array of strings, so `[]` passes.
- `down` is not idempotent. A "secrets" rule that holds "readValue" twice loses one
  occurrence per run (`PermissionRewrite.DowngradeNotIdempotent`). A second `down`
  is a no-op exactly when each such rule held "readValue" at most once
  (`PermissionRewrite.DowngradeSettlesSingleReadValue`).
- A row that fails to decode aborts the run before any write. All three batches are
  staged before the first upsert is issued (`SecretPermissionsMigration.Migration`).

## Model

All source cells refer to
`backend/src/db/migrations/20250218020306_backfill-secret-permissions-with-readvalue.ts`.

| member | source | states |
|---|---|---|
| PermissionRules.NormaliseRuleFields | backend/src/db/migrations/20250218020306_backfill-secret-permissions-with-readvalue.ts:19-27 | A raw rule is accepted exactly when its subject is absent, a list, or a non-empty string, its action is a list or a non-empty string, and its inverted flag is absent or a boolean. The subject list keeps its first element, and an empty list gives no subject. A string action becomes a one-element list. Conditions pass through unchanged. |
| PermissionRules.NormaliseAllSpec | backend/src/db/migrations/20250218020306_backfill-secret-permissions-with-readvalue.ts:29-30 | The array schema is all-or-nothing. It succeeds exactly when every rule is accepted, and it then keeps the list's length and order, rule by rule. |
| PermissionRules.AbsentPermissionsDecodeEmpty | backend/src/db/migrations/20250218020306_backfill-secret-permissions-with-readvalue.ts:30 | A null or empty `permissions` column decodes to the empty rule list. |
| PermissionRules.DecodeEncode | backend/src/db/migrations/20250218020306_backfill-secret-permissions-with-readvalue.ts:29-30 | Packing canonical rules and decoding them again returns the same rules. |
| PermissionRules.NormaliseCanonical | backend/src/db/migrations/20250218020306_backfill-secret-permissions-with-readvalue.ts:19-27 | Validation is idempotent. A rule that passed once passes again unchanged after re-encoding. |
| PermissionRewrite.IndexOf | backend/src/db/migrations/20250218020306_backfill-secret-permissions-with-readvalue.ts:65 | Returns -1 exactly when the action is absent. Otherwise it returns the first position holding it. |
| PermissionRewrite.RemoveAt | backend/src/db/migrations/20250218020306_backfill-secret-permissions-with-readvalue.ts:68 | Removing one element shortens the list by one and keeps the others in order. The multiset of elements loses exactly that element. |
| PermissionRewrite.UpdatePermissionsUp | backend/src/db/migrations/20250218020306_backfill-secret-permissions-with-readvalue.ts:32-53 | A decode failure is returned as it is. Otherwise the loop's result equals `Upgrade` of the decoded rules: each rule is upgraded in place, and the flag is raised exactly when some rule was due. |
| PermissionRewrite.UpdatePermissionsDown | backend/src/db/migrations/20250218020306_backfill-secret-permissions-with-readvalue.ts:55-82 | A decode failure is returned as it is. Otherwise the loop's result equals `Downgrade` of the decoded rules: each rule is downgraded in place, and the flag is raised exactly when some "secrets" rule held "readValue". |
| PermissionRewrite.UpgradeAppendsReadValue | backend/src/db/migrations/20250218020306_backfill-secret-permissions-with-readvalue.ts:40-45 | A due rule gets "readValue" appended once, at the end. Its earlier actions keep their order, and its subject, conditions and inverted flag are unchanged. |
| PermissionRewrite.UpgradeChangesOnlyDueRules | backend/src/db/migrations/20250218020306_backfill-secret-permissions-with-readvalue.ts:40-41 | The upgrade changes a rule exactly when the rule is on "secrets", has "read" and lacks "readValue". |
| PermissionRewrite.UpgradeFlagIffChanged | backend/src/db/migrations/20250218020306_backfill-secret-permissions-with-readvalue.ts:36-52 | The upgrade keeps the list's length and order. Its flag is raised exactly when the rule list changed. |
| PermissionRewrite.UpgradeIdempotent | backend/src/db/migrations/20250218020306_backfill-secret-permissions-with-readvalue.ts:41 | Upgrading an upgraded list changes nothing and leaves the flag down. |
| PermissionRewrite.DowngradeRemovesFirstReadValue | backend/src/db/migrations/20250218020306_backfill-secret-permissions-with-readvalue.ts:64-72 | The downgrade removes the first "readValue" of a "secrets" rule and nothing else. The other actions keep their order, and the other fields are unchanged. |
| PermissionRewrite.DowngradeChangesOnlyHolders | backend/src/db/migrations/20250218020306_backfill-secret-permissions-with-readvalue.ts:64-67 | The downgrade changes a rule exactly when the rule is on "secrets" and holds "readValue". Every other rule is left as it is. |
| PermissionRewrite.DowngradeFlagIffChanged | backend/src/db/migrations/20250218020306_backfill-secret-permissions-with-readvalue.ts:59-74 | The downgrade keeps the list's length and order. Its flag is raised exactly when the rule list changed. |
| PermissionRewrite.DowngradeUndoesUpgrade | backend/src/db/migrations/20250218020306_backfill-secret-permissions-with-readvalue.ts:40-72 | When no "secrets" rule holds "readValue" beforehand, the downgrade exactly undoes the upgrade. |
| PermissionRewrite.DowngradeSettlesSingleReadValue | backend/src/db/migrations/20250218020306_backfill-secret-permissions-with-readvalue.ts:64-72 | A second downgrade finds nothing to do exactly when every "secrets" rule held "readValue" at most once before the first. |
| PermissionRewrite.DowngradeNotIdempotent | backend/src/db/migrations/20250218020306_backfill-secret-permissions-with-readvalue.ts:65-68 | A "secrets" rule holding "readValue" twice is rewritten by a first downgrade and again by a second one. |
| PermissionRewrite.UpgradeDoesNotUndoDowngrade | backend/src/db/migrations/20250218020306_backfill-secret-permissions-with-readvalue.ts:41-42 | A rule granting "readValue" before "read" comes back from down-then-up with the actions reordered. |
| SecretPermissionsMigration.StagedFailureIsFinal | backend/src/db/migrations/20250218020306_backfill-secret-permissions-with-readvalue.ts:93-103 | Once some row fails to decode, staging the whole table fails with that row's error. |
| SecretPermissionsMigration.StageRecords | backend/src/db/migrations/20250218020306_backfill-secret-permissions-with-readvalue.ts:93-131 | The reduce over a table equals the staging fold `Staged`. |
| SecretPermissionsMigration.StagedRowsDecode | backend/src/db/migrations/20250218020306_backfill-secret-permissions-with-readvalue.ts:93-103 | When staging succeeds, every row of the table decoded. |
| SecretPermissionsMigration.SelectedIndicesOrdered | backend/src/db/migrations/20250218020306_backfill-secret-permissions-with-readvalue.ts:96-101 | The selected positions are valid positions, strictly ascending, and they include every selected row. |
| SecretPermissionsMigration.StagedSelection | backend/src/db/migrations/20250218020306_backfill-secret-permissions-with-readvalue.ts:93-103 | The staged batch is exactly the rows whose flag is raised, each restaged, in table order. |
| SecretPermissionsMigration.StagedChangesOnlyPermissions | backend/src/db/migrations/20250218020306_backfill-secret-permissions-with-readvalue.ts:97-100 | A staged row keeps its id and other columns. Its new `permissions` decodes to the rewritten rules, which differ from the old ones. |
| SecretPermissionsMigration.AbsentPermissionsNeverStaged | backend/src/db/migrations/20250218020306_backfill-secret-permissions-with-readvalue.ts:30 | A row with null or empty `permissions` rewrites to no rules with the flag down, so it is never staged. |
| SecretPermissionsMigration.FindById | backend/src/db/migrations/20250218020306_backfill-secret-permissions-with-readvalue.ts:134 | Returns nothing exactly when no staged row has the id. Otherwise it returns a staged row with that id. |
| SecretPermissionsMigration.Inserted | backend/src/db/migrations/20250218020306_backfill-secret-permissions-with-readvalue.ts:134 | Inserts exactly the staged rows whose id is not in the table: each of them is inserted, and nothing else is. It inserts nothing when every staged id is already present. |
| SecretPermissionsMigration.UpsertMergesPermissionsOnly | backend/src/db/migrations/20250218020306_backfill-secret-permissions-with-readvalue.ts:134 | The upsert keeps every existing row with its id and other columns. With unique staged ids, a row a staged record names takes that record's `permissions`. A row no staged record names is unchanged. Appended rows are staged records with new ids, and nothing is appended when all staged ids exist. |
| SecretPermissionsMigration.Migrate | backend/src/db/migrations/20250218020306_backfill-secret-permissions-with-readvalue.ts:84-149 | `up`/`down` as a whole equals `Migration`. The first decode failure aborts the run before any write. |
| SecretPermissionsMigration.WriteAppliesRewrite | backend/src/db/migrations/20250218020306_backfill-secret-permissions-with-readvalue.ts:133-135 | Writing a table's batch back gives each selected row its rewritten rules and leaves every other row as it was. No row is added or removed. |
| SecretPermissionsMigration.MergedRowApplied | backend/src/db/migrations/20250218020306_backfill-secret-permissions-with-readvalue.ts:134 | With unique ids, merging the batch into a row yields the rewritten row when the row was selected, and the row itself otherwise. |
| SecretPermissionsMigration.MigrationChangesOnlyPermissions | backend/src/db/migrations/20250218020306_backfill-secret-permissions-with-readvalue.ts:84-219 | A run writes exactly to the tables with a non-empty batch. Each table keeps its rows, and only the selected rows' `permissions` change. |
| SecretPermissionsMigration.SettledRowsStageNothing | backend/src/db/migrations/20250218020306_backfill-secret-permissions-with-readvalue.ts:93-103 | A table whose rows all decode with the flag down stages nothing. |
| SecretPermissionsMigration.UpgradedRowSettled | backend/src/db/migrations/20250218020306_backfill-secret-permissions-with-readvalue.ts:94-100 | A row as `up` writes it back decodes and has its flag down for `up`. |
| SecretPermissionsMigration.TableSettledAfterUp | backend/src/db/migrations/20250218020306_backfill-secret-permissions-with-readvalue.ts:93-135 | After `up` has written a table back, `up` stages nothing from it. |
| SecretPermissionsMigration.NothingStagedNothingWritten | backend/src/db/migrations/20250218020306_backfill-secret-permissions-with-readvalue.ts:133-149 | A run that stages nothing writes nothing and leaves the database as it was. |
| SecretPermissionsMigration.UpIsIdempotent | backend/src/db/migrations/20250218020306_backfill-secret-permissions-with-readvalue.ts:84-150 | A second `up` over the database the first one left issues no write and changes nothing. |
| SecretPermissionsMigration.SecretsReadScenario | backend/src/db/migrations/20250218020306_backfill-secret-permissions-with-readvalue.ts:93-103 | A role granting "read" on "secrets" is staged by `up` with "readValue" added. A second `up` over the written row stages nothing. |
| SecretPermissionsMigration.FoldersScenario | backend/src/db/migrations/20250218020306_backfill-secret-permissions-with-readvalue.ts:40-41 | A rule on "folders" is staged by neither `up` nor `down`. |

## Left out

- Store I/O is not modelled: the selects, the upserts and their failures. A run is a
  function from a database value to a result. The partial state a failed upsert on a
  later table would leave is not captured.
- The rule packer and unpacker are not part of this model. A column value is the
  list of raw rules it unpacks to, and `Encode` assumes that packing then unpacking
  returns each rule with its subject and action in list form and an optional field
  with no value absent. The rule library's unpacker sets `inverted` on every rule it
  returns, so that part of the round trip is a convention of this model. Whether the
  packer round-trips every rule is not proved here.
- Exceptions thrown by the unpacker itself, such as for a column that is not an
  array, are not modelled.
- The JSON serialisation of the packed rules is not modelled.
- Zod's error messages are not modelled. Every rejected rule yields the same
  `InvalidRule`.
- Unknown keys are not modelled. The schema drops keys of a rule other than
  subject, action, conditions and inverted, and a raw rule here has only those four.
  In the source, the rule keys `fields` and `reason` are therefore dropped from every
  rule of a staged row, so a rule limited to certain fields is widened when it is
  written back. The model does not show this loss.
- A rule with several subjects keeps only its first subject after validation. The
  model keeps this (`NormaliseSubject`), and the other subjects are lost when the
  row is written back.
- Raw field values the schema rejects wholesale (numbers, objects, lists holding a
  non-string) are one `OtherValue` case.
- The `conditions` payload is never inspected. It is a type parameter.
- `down` packs the rules inside its helper, while `up` packs them in the caller.
  Both are modelled as `Restage`, which packs when a row is staged.
- The six reduce callbacks of `up` and `down` are one `StageRecords` method with a
  direction parameter.
- Inserting a staged row whose id is absent from the table is modelled
  (`Inserted`). The staged rows of a run always come from the table, so this never
  happens in a run.
- The TURN credentials helper and the frontend files are not part of this model.
