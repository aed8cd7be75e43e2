/**
 * The backfill migration itself: for each of the three tables holding permission rules
 * (project roles, identity additional privileges, user additional privileges) it rewrites
 * every row's rules, stages the rows whose flag is raised, and writes the staged rows back
 * with an upsert that merges only the `permissions` column.
 *
 * The database is a value: each table is the sequence of rows a full select returns.
 */
module SecretPermissionsMigration {
  import opened Wrappers
  import opened PermissionRules
  import opened PermissionRewrite

  /** A row: its primary key, its `permissions` column (`None` when null) and all
      its other columns. */
  datatype Record<C, O> = Record(id: string, permissions: Option<seq<RawRule<C>>>, other: O)

  /** `up` grants "readValue", `down` revokes it. */
  datatype Direction = Up | Down

  datatype TableName = ProjectRoles | IdentityProjectAdditionalPrivilege | ProjectUserAdditionalPrivilege

  datatype Database<C, R, I, U> = Database(
    roles: seq<Record<C, R>>,
    identityPrivileges: seq<Record<C, I>>,
    userPrivileges: seq<Record<C, U>>)

  /** The database after a run, and the tables an upsert was issued to, in order. */
  datatype Outcome<C, R, I, U> = Outcome(db: Database<C, R, I, U>, writes: seq<TableName>)

  /** The per-row callback of the staging fold: decode one `permissions` column and
      rewrite its rules. */
  type RowRewrite<!C> = Option<seq<RawRule<C>>> -> Result<Update<C>, DecodeError>

  /** The rewrite of one `permissions` column in the given direction. */
  function Rewrite<C>(dir: Direction, permissions: Option<seq<RawRule<C>>>): Result<Update<C>, DecodeError> {
    match Decode(permissions)
    case Failure(e) => Failure(e)
    case Success(rules) => Success(if dir == Up then Upgrade(rules) else Downgrade(rules))
  }

  function RewriteFor<C>(dir: Direction): RowRewrite<C> {
    permissions => Rewrite(dir, permissions)
  }

  /** The row as staged for writing: everything kept but the re-encoded rules. */
  function Restage<C, O>(row: Record<C, O>, u: Update<C>): Record<C, O> {
    row.(permissions := Some(Encode(u.rules)))
  }

  /** The staging fold over a table: the rows whose flag is raised, restaged, in table
      order; the first row that does not decode aborts it. */
  function Staged<C, O>(rewrite: RowRewrite<C>, rows: seq<Record<C, O>>): Result<seq<Record<C, O>>, DecodeError>
    decreases |rows|
  {
    if rows == [] then Success([])
    else
      match Staged(rewrite, rows[..|rows| - 1])
      case Failure(e) => Failure(e)
      case Success(acc) =>
        var last := rows[|rows| - 1];
        match rewrite(last.permissions)
        case Failure(e) => Failure(e)
        case Success(u) => Success(if u.shouldUpdate then acc + [Restage(last, u)] else acc)
  }

  /** Once a prefix of the table fails to stage, the whole table fails with the same error. */
  lemma {:induction false} StagedFailureIsFinal<C, O>(rewrite: RowRewrite<C>, rows: seq<Record<C, O>>, n: nat)
    requires n <= |rows|
    requires Staged(rewrite, rows[..n]).Failure?
    ensures Staged(rewrite, rows) == Staged(rewrite, rows[..n])
    decreases |rows| - n
  {
    if n == |rows| {
      assert rows[..n] == rows;
    } else {
      var init := rows[..|rows| - 1];
      assert init[..n] == rows[..n];
      StagedFailureIsFinal(rewrite, init, n);
    }
  }

  /** The staging loop: one rewrite per row, in table order, pushing the rows whose
      flag is raised. */
  method StageRecords<C, O>(dir: Direction, rows: seq<Record<C, O>>) returns (r: Result<seq<Record<C, O>>, DecodeError>)
    ensures r == Staged(RewriteFor(dir), rows)
  {
    var acc := [];
    var i := 0;
    while i < |rows|
      invariant 0 <= i <= |rows|
      invariant Staged(RewriteFor(dir), rows[..i]) == Success(acc)
    {
      var row := rows[i];
      var u: Result<Update<C>, DecodeError>;
      if dir == Up {
        u := UpdatePermissionsUp(row.permissions);
      } else {
        u := UpdatePermissionsDown(row.permissions);
      }
      assert u == Rewrite(dir, row.permissions);
      assert rows[..i + 1][..i] == rows[..i];
      if u.Failure? {
        StagedFailureIsFinal(RewriteFor(dir), rows, i + 1);
        return Failure(u.error);
      }
      if u.value.shouldUpdate {
        acc := acc + [Restage(row, u.value)];
      }
      i := i + 1;
    }
    assert rows[..i] == rows;
    r := Success(acc);
  }

  /** The row would be staged: it decodes and its flag is raised. */
  ghost predicate Selected<C, O>(rewrite: RowRewrite<C>, row: Record<C, O>) {
    rewrite(row.permissions).Success? && rewrite(row.permissions).value.shouldUpdate
  }

  /** The positions of the selected rows, ascending. */
  ghost function SelectedIndices<C, O>(rewrite: RowRewrite<C>, rows: seq<Record<C, O>>): seq<nat>
    decreases |rows|
  {
    if rows == [] then []
    else SelectedIndices(rewrite, rows[..|rows| - 1]) + (if Selected(rewrite, rows[|rows| - 1]) then [|rows| - 1] else [])
  }

  /** When staging succeeds, every row of the table decoded. */
  lemma {:induction false} StagedRowsDecode<C, O>(rewrite: RowRewrite<C>, rows: seq<Record<C, O>>)
    requires Staged(rewrite, rows).Success?
    ensures forall k :: 0 <= k < |rows| ==> rewrite(rows[k].permissions).Success?
    decreases |rows|
  {
    if rows != [] {
      var n := |rows| - 1;
      var init := rows[..n];
      StagedRowsDecode(rewrite, init);
      assert forall k :: 0 <= k < n ==> rows[k] == init[k];
    }
  }

  /** The selected positions are positions of the table, strictly ascending, and
      every selected row has its position among them. */
  lemma {:induction false} SelectedIndicesOrdered<C, O>(rewrite: RowRewrite<C>, rows: seq<Record<C, O>>)
    ensures var idx := SelectedIndices(rewrite, rows);
      && (forall j :: 0 <= j < |idx| ==> idx[j] < |rows| && Selected(rewrite, rows[idx[j]]))
      && (forall i, j :: 0 <= i < j < |idx| ==> idx[i] < idx[j])
      && (forall k :: 0 <= k < |rows| && Selected(rewrite, rows[k]) ==> k in idx)
    decreases |rows|
  {
    if rows != [] {
      var n := |rows| - 1;
      var init := rows[..n];
      SelectedIndicesOrdered(rewrite, init);
      assert forall k :: 0 <= k < n ==> rows[k] == init[k];
    }
  }

  /** Exact selection: the staged batch is the selected rows, each restaged, in table
      order, and nothing else. */
  lemma {:induction false} StagedSelection<C, O>(rewrite: RowRewrite<C>, rows: seq<Record<C, O>>)
    requires Staged(rewrite, rows).Success?
    ensures var staged, idx := Staged(rewrite, rows).value, SelectedIndices(rewrite, rows);
      && |staged| == |idx|
      && (forall j :: 0 <= j < |idx| ==>
            && idx[j] < |rows| && Selected(rewrite, rows[idx[j]])
            && staged[j] == Restage(rows[idx[j]], rewrite(rows[idx[j]].permissions).value))
    decreases |rows|
  {
    if rows != [] {
      var n := |rows| - 1;
      var init, last := rows[..n], rows[n];
      StagedSelection(rewrite, init);
      assert forall k :: 0 <= k < n ==> rows[k] == init[k];
      var acc, idx := Staged(rewrite, init).value, SelectedIndices(rewrite, init);
      var u := rewrite(last.permissions).value;
      var staged, idx' := Staged(rewrite, rows).value, SelectedIndices(rewrite, rows);
      if u.shouldUpdate {
        assert staged == acc + [Restage(last, u)];
        assert idx' == idx + [n];
      } else {
        assert staged == acc;
        assert idx' == idx;
      }
      forall j | 0 <= j < |idx'|
        ensures idx'[j] < |rows| && Selected(rewrite, rows[idx'[j]])
        ensures staged[j] == Restage(rows[idx'[j]], rewrite(rows[idx'[j]].permissions).value)
      {
        if j < |idx| {
          assert idx'[j] == idx[j] && staged[j] == acc[j];
          assert rows[idx[j]] == init[idx[j]];
        }
      }
    }
  }

  /** A staged row differs from the row it came from in its `permissions` and only
      there: the new column decodes to different rules than the old one. */
  lemma StagedChangesOnlyPermissions<C, O>(dir: Direction, row: Record<C, O>)
    requires Selected(RewriteFor(dir), row)
    ensures var u := Rewrite(dir, row.permissions).value;
      var staged := Restage(row, u);
      && staged.id == row.id && staged.other == row.other
      && Decode(staged.permissions) == Success(u.rules)
      && Decode(staged.permissions) != Decode(row.permissions)
  {
    var rules := Decode(row.permissions).value;
    var u := Rewrite(dir, row.permissions).value;
    DecodeEncode(u.rules);
    if dir == Up {
      UpgradeFlagIffChanged(rules);
    } else {
      DowngradeFlagIffChanged(rules);
    }
  }

  /** A row whose `permissions` is null or empty decodes to no rules and is never staged. */
  lemma AbsentPermissionsNeverStaged<C, O>(dir: Direction, row: Record<C, O>)
    requires row.permissions.None? || row.permissions == Some([])
    ensures Rewrite(dir, row.permissions) == Success(Update([], false))
    ensures Staged(RewriteFor(dir), [row]) == Success([])
  {
    AbsentPermissionsDecodeEmpty(row.permissions);
    assert UpgradeAll<C>([]) == [] && DowngradeAll<C>([]) == [];
    assert [row][..0] == [];
  }

  /** The first staged row with the given id, if any. */
  function FindById<C, O>(batch: seq<Record<C, O>>, id: string): (r: Option<Record<C, O>>)
    ensures r.None? <==> forall j :: 0 <= j < |batch| ==> batch[j].id != id
    ensures r.Some? ==> r.value in batch && r.value.id == id
  {
    if batch == [] then None
    else if batch[0].id == id then Some(batch[0])
    else FindById(batch[1..], id)
  }

  predicate HasId<C, O>(rows: seq<Record<C, O>>, id: string) {
    exists k :: 0 <= k < |rows| && rows[k].id == id
  }

  /** On an id conflict the row takes the staged `permissions`; its other columns stay. */
  function MergeRow<C, O>(row: Record<C, O>, batch: seq<Record<C, O>>): Record<C, O> {
    match FindById(batch, row.id)
    case None => row
    case Some(staged) => row.(permissions := staged.permissions)
  }

  /** The staged rows whose id matches no row of the table; the upsert inserts them. */
  function Inserted<C, O>(rows: seq<Record<C, O>>, batch: seq<Record<C, O>>): (r: seq<Record<C, O>>)
    ensures forall x :: x in r ==> x in batch && !HasId(rows, x.id)
    ensures forall j :: 0 <= j < |batch| && !HasId(rows, batch[j].id) ==> batch[j] in r
    ensures (forall j :: 0 <= j < |batch| ==> HasId(rows, batch[j].id)) ==> r == []
  {
    if batch == [] then []
    else
      assert forall j :: 1 <= j < |batch| ==> batch[j] == batch[1..][j - 1];
      (if HasId(rows, batch[0].id) then [] else [batch[0]]) + Inserted(rows, batch[1..])
  }

  /** Insert the batch, on an `id` conflict merging `permissions` only. */
  function Upsert<C, O>(rows: seq<Record<C, O>>, batch: seq<Record<C, O>>): seq<Record<C, O>> {
    seq(|rows|, k requires 0 <= k < |rows| => MergeRow(rows[k], batch)) + Inserted(rows, batch)
  }

  /** The upsert keeps every row and its id and other columns; a row no staged record
      names is left as it is; what it appends are staged records with new ids, and
      nothing when every staged id is already in the table. */
  lemma UpsertMergesPermissionsOnly<C, O>(rows: seq<Record<C, O>>, batch: seq<Record<C, O>>)
    ensures var r := Upsert(rows, batch);
      && |r| >= |rows|
      && (forall k :: 0 <= k < |rows| ==> r[k].id == rows[k].id && r[k].other == rows[k].other)
      && (forall k :: 0 <= k < |rows| && !HasId(batch, rows[k].id) ==> r[k] == rows[k])
      && (UniqueIds(batch) ==> forall k, j :: 0 <= k < |rows| && 0 <= j < |batch| && batch[j].id == rows[k].id ==>
            r[k].permissions == batch[j].permissions)
      && (forall k :: |rows| <= k < |r| ==> r[k] in batch && !HasId(rows, r[k].id))
      && ((forall j :: 0 <= j < |batch| ==> HasId(rows, batch[j].id)) ==> |r| == |rows|)
  {
    var r := Upsert(rows, batch);
    forall k | 0 <= k < |rows| && !HasId(batch, rows[k].id) ensures r[k] == rows[k] {
      assert FindById(batch, rows[k].id).None?;
    }
    if UniqueIds(batch) {
      forall k, j | 0 <= k < |rows| && 0 <= j < |batch| && batch[j].id == rows[k].id
        ensures r[k].permissions == batch[j].permissions
      {
        var staged := FindById(batch, rows[k].id).value;
        var i :| 0 <= i < |batch| && batch[i] == staged;
        assert i == j;
      }
    }
    forall k | |rows| <= k < |r| ensures r[k] in batch && !HasId(rows, r[k].id) {
      assert r[k] in Inserted(rows, batch);
    }
  }

  /** What a table looks like after its batch is written: no statement at all for an
      empty batch. */
  function Write<C, O>(rows: seq<Record<C, O>>, batch: seq<Record<C, O>>): seq<Record<C, O>> {
    if batch == [] then rows else Upsert(rows, batch)
  }

  function Written<C, O>(name: TableName, batch: seq<Record<C, O>>): seq<TableName> {
    if batch == [] then [] else [name]
  }

  /** A full run: all three batches are staged before the first write, so a row that
      does not decode aborts the run with nothing written. */
  function Migration<C, R, I, U>(dir: Direction, db: Database<C, R, I, U>): Result<Outcome<C, R, I, U>, DecodeError> {
    var roles := Staged(RewriteFor(dir), db.roles);
    var identities := Staged(RewriteFor(dir), db.identityPrivileges);
    var users := Staged(RewriteFor(dir), db.userPrivileges);
    if roles.Failure? then Failure(roles.error)
    else if identities.Failure? then Failure(identities.error)
    else if users.Failure? then Failure(users.error)
    else
      Success(Outcome(
        Database(
          Write(db.roles, roles.value),
          Write(db.identityPrivileges, identities.value),
          Write(db.userPrivileges, users.value)),
        Written(ProjectRoles, roles.value)
        + Written(IdentityProjectAdditionalPrivilege, identities.value)
        + Written(ProjectUserAdditionalPrivilege, users.value)))
  }

  /** Once all three tables have staged, the run writes each non-empty batch and nothing
      else. */
  lemma MigrationWritesStagedBatches<C, R, I, U>(dir: Direction, db: Database<C, R, I, U>,
      roles: seq<Record<C, R>>, identities: seq<Record<C, I>>, users: seq<Record<C, U>>)
    requires Staged(RewriteFor(dir), db.roles) == Success(roles)
    requires Staged(RewriteFor(dir), db.identityPrivileges) == Success(identities)
    requires Staged(RewriteFor(dir), db.userPrivileges) == Success(users)
    ensures Migration(dir, db).Success?
    ensures Migration(dir, db).value.db ==
      Database(Write(db.roles, roles), Write(db.identityPrivileges, identities), Write(db.userPrivileges, users))
    ensures Migration(dir, db).value.writes ==
      Written(ProjectRoles, roles) + Written(IdentityProjectAdditionalPrivilege, identities)
      + Written(ProjectUserAdditionalPrivilege, users)
  {
  }

  /** `up` (dir = Up) and `down` (dir = Down): stage the three tables, then upsert each
      non-empty batch. */
  method Migrate<C, R, I, U>(dir: Direction, db: Database<C, R, I, U>) returns (r: Result<Outcome<C, R, I, U>, DecodeError>)
    ensures r == Migration(dir, db)
  {
    var roles :- StageRecords(dir, db.roles);
    var identities :- StageRecords(dir, db.identityPrivileges);
    var users :- StageRecords(dir, db.userPrivileges);
    MigrationWritesStagedBatches(dir, db, roles, identities, users);
    var after := db;
    var writes := [];
    if |roles| > 0 {
      after := after.(roles := Upsert(after.roles, roles));
      writes := writes + [ProjectRoles];
    }
    assert after.roles == Write(db.roles, roles) && writes == Written(ProjectRoles, roles);
    if |identities| > 0 {
      after := after.(identityPrivileges := Upsert(after.identityPrivileges, identities));
      writes := writes + [IdentityProjectAdditionalPrivilege];
    }
    assert after.identityPrivileges == Write(db.identityPrivileges, identities);
    if |users| > 0 {
      after := after.(userPrivileges := Upsert(after.userPrivileges, users));
      writes := writes + [ProjectUserAdditionalPrivilege];
    }
    assert after.userPrivileges == Write(db.userPrivileges, users);
    assert after == Migration(dir, db).value.db;
    assert writes == Migration(dir, db).value.writes;
    r := Success(Outcome(after, writes));
  }

  /** `id` is the tables' primary key. */
  ghost predicate UniqueIds<C, O>(rows: seq<Record<C, O>>) {
    forall i, j :: 0 <= i < j < |rows| ==> rows[i].id != rows[j].id
  }

  /** The row as a run leaves it: restaged when selected, untouched otherwise. */
  ghost function Applied<C, O>(rewrite: RowRewrite<C>, row: Record<C, O>): Record<C, O> {
    if Selected(rewrite, row) then Restage(row, rewrite(row.permissions).value) else row
  }

  /** Writing a table's batch back gives every selected row its rewritten rules and
      leaves every other row exactly as it was; no row is added or removed. */
  lemma WriteAppliesRewrite<C, O>(rewrite: RowRewrite<C>, rows: seq<Record<C, O>>)
    requires UniqueIds(rows)
    requires Staged(rewrite, rows).Success?
    ensures var after := Write(rows, Staged(rewrite, rows).value);
      |after| == |rows| && forall k :: 0 <= k < |rows| ==> after[k] == Applied(rewrite, rows[k])
  {
    var batch := Staged(rewrite, rows).value;
    var idx := SelectedIndices(rewrite, rows);
    StagedSelection(rewrite, rows);
    SelectedIndicesOrdered(rewrite, rows);
    if batch == [] {
      forall k | 0 <= k < |rows| ensures !Selected(rewrite, rows[k]) {
      }
    } else {
      forall j | 0 <= j < |batch| ensures HasId(rows, batch[j].id) {
        assert rows[idx[j]].id == batch[j].id;
      }
      UpsertMergesPermissionsOnly(rows, batch);
      forall k | 0 <= k < |rows| ensures Upsert(rows, batch)[k] == Applied(rewrite, rows[k]) {
        MergedRowApplied(rewrite, rows, k);
      }
    }
  }

  lemma MergedRowApplied<C, O>(rewrite: RowRewrite<C>, rows: seq<Record<C, O>>, k: nat)
    requires UniqueIds(rows)
    requires Staged(rewrite, rows).Success?
    requires k < |rows|
    ensures MergeRow(rows[k], Staged(rewrite, rows).value) == Applied(rewrite, rows[k])
  {
    var batch := Staged(rewrite, rows).value;
    var idx := SelectedIndices(rewrite, rows);
    StagedSelection(rewrite, rows);
    SelectedIndicesOrdered(rewrite, rows);
    match FindById(batch, rows[k].id)
    case None =>
    case Some(staged) =>
      var j :| 0 <= j < |batch| && batch[j] == staged;
      assert rows[idx[j]].id == rows[k].id;
      assert idx[j] == k;
  }

  /** A run changes only the `permissions` of the rows it selects, issues an upsert
      exactly to the tables with a non-empty batch, and keeps every table's rows. */
  lemma MigrationChangesOnlyPermissions<C, R, I, U>(dir: Direction, db: Database<C, R, I, U>)
    requires UniqueIds(db.roles) && UniqueIds(db.identityPrivileges) && UniqueIds(db.userPrivileges)
    requires Migration(dir, db).Success?
    ensures var out := Migration(dir, db).value;
      var f := RewriteFor(dir);
      && (ProjectRoles in out.writes <==> Staged(f, db.roles).value != [])
      && (IdentityProjectAdditionalPrivilege in out.writes <==> Staged(f, db.identityPrivileges).value != [])
      && (ProjectUserAdditionalPrivilege in out.writes <==> Staged(f, db.userPrivileges).value != [])
      && |out.db.roles| == |db.roles|
      && (forall k :: 0 <= k < |db.roles| ==> out.db.roles[k] == Applied(f, db.roles[k]))
      && |out.db.identityPrivileges| == |db.identityPrivileges|
      && (forall k :: 0 <= k < |db.identityPrivileges| ==>
            out.db.identityPrivileges[k] == Applied(f, db.identityPrivileges[k]))
      && |out.db.userPrivileges| == |db.userPrivileges|
      && (forall k :: 0 <= k < |db.userPrivileges| ==>
            out.db.userPrivileges[k] == Applied(f, db.userPrivileges[k]))
  {
    var f := RewriteFor(dir);
    MigrationWritesStagedBatches(dir, db,
      Staged(f, db.roles).value, Staged(f, db.identityPrivileges).value, Staged(f, db.userPrivileges).value);
    WriteAppliesRewrite(RewriteFor(dir), db.roles);
    WriteAppliesRewrite(RewriteFor(dir), db.identityPrivileges);
    WriteAppliesRewrite(RewriteFor(dir), db.userPrivileges);
  }

  /** The row decodes and its flag is not raised: a run leaves it alone. */
  ghost predicate Settled<C, O>(rewrite: RowRewrite<C>, row: Record<C, O>) {
    rewrite(row.permissions).Success? && !rewrite(row.permissions).value.shouldUpdate
  }

  /** A table whose rows are all settled stages nothing. */
  lemma {:induction false} SettledRowsStageNothing<C, O>(rewrite: RowRewrite<C>, rows: seq<Record<C, O>>)
    requires forall k :: 0 <= k < |rows| ==> Settled(rewrite, rows[k])
    ensures Staged(rewrite, rows) == Success([])
    decreases |rows|
  {
    if rows != [] {
      var init := rows[..|rows| - 1];
      assert forall k :: 0 <= k < |init| ==> init[k] == rows[k];
      SettledRowsStageNothing(rewrite, init);
    }
  }

  /** A row as the upgrade stages it is settled for the upgrade. */
  lemma UpgradedRowSettled<C, O>(row: Record<C, O>)
    requires Rewrite(Up, row.permissions).Success?
    ensures Settled(RewriteFor(Up), Restage(row, Rewrite(Up, row.permissions).value))
  {
    var rules := Decode(row.permissions).value;
    DecodeEncode(UpgradeAll(rules));
    UpgradeIdempotent(rules);
  }

  /** After `up` has written a table back, every row of it is settled for `up`. */
  lemma TableSettledAfterUp<C, O>(rows: seq<Record<C, O>>)
    requires UniqueIds(rows)
    requires Staged(RewriteFor(Up), rows).Success?
    ensures Staged(RewriteFor(Up), Write(rows, Staged(RewriteFor(Up), rows).value)) == Success([])
  {
    var f := RewriteFor(Up);
    var after := Write(rows, Staged(f, rows).value);
    WriteAppliesRewrite(f, rows);
    StagedRowsDecode(f, rows);
    forall k | 0 <= k < |after| ensures Settled(f, after[k]) {
      if Selected(f, rows[k]) {
        UpgradedRowSettled(rows[k]);
      }
    }
    SettledRowsStageNothing(f, after);
  }

  /** A run that stages nothing in any table writes nothing and leaves the database
      as it was. */
  lemma NothingStagedNothingWritten<C, R, I, U>(dir: Direction, db: Database<C, R, I, U>)
    requires Staged(RewriteFor(dir), db.roles) == Success([])
    requires Staged(RewriteFor(dir), db.identityPrivileges) == Success([])
    requires Staged(RewriteFor(dir), db.userPrivileges) == Success([])
    ensures Migration(dir, db) == Success(Outcome(db, []))
  {
    assert Write(db.roles, []) == db.roles;
    assert Written<C, R>(ProjectRoles, []) == [];
    assert Database(db.roles, db.identityPrivileges, db.userPrivileges) == db;
    var m := Migration(dir, db);
    assert m.Success?;
    assert m.value.db == db;
    assert m.value.writes == [];
  }

  /** `up` is idempotent: a second run over the database the first one left stages no
      row in any table and issues no write. */
  lemma UpIsIdempotent<C, R, I, U>(db: Database<C, R, I, U>)
    requires UniqueIds(db.roles) && UniqueIds(db.identityPrivileges) && UniqueIds(db.userPrivileges)
    requires Migration(Up, db).Success?
    ensures var after := Migration(Up, db).value.db;
      Migration(Up, after) == Success(Outcome(after, []))
  {
    var f := RewriteFor(Up);
    var after := Migration(Up, db).value.db;
    assert after == Database(
      Write(db.roles, Staged(f, db.roles).value),
      Write(db.identityPrivileges, Staged(f, db.identityPrivileges).value),
      Write(db.userPrivileges, Staged(f, db.userPrivileges).value));
    TableSettledAfterUp(db.roles);
    TableSettledAfterUp(db.identityPrivileges);
    TableSettledAfterUp(db.userPrivileges);
    NothingStagedNothingWritten(Up, after);
  }

  /** A role granting "read" on "secrets" is staged by `up` with "readValue" added,
      and a second `up` over the written row stages nothing. */
  lemma SecretsReadScenario<C, O>(id: string, other: O)
    ensures var row: Record<C, O> := Record(id, Some([RawRule(Str(Secrets), Str(Read), None, Missing)]), other);
      var staged: Record<C, O> := Record(id, Some([RawRule(StrList([Secrets]), StrList([Read, ReadValue]), None, Missing)]), other);
      && Staged(RewriteFor(Up), [row]) == Success([staged])
      && Staged(RewriteFor(Up), Write([row], [staged])) == Success([])
  {
    var raw: RawRule<C> := RawRule(Str(Secrets), Str(Read), None, Missing);
    var row: Record<C, O> := Record(id, Some([raw]), other);
    var rule: Rule<C> := Rule(Some(Secrets), [Read], None, None);
    var upgraded: Rule<C> := Rule(Some(Secrets), [Read, ReadValue], None, None);
    assert NormaliseRule(raw) == Success(rule);
    var column := [raw];
    assert column[0] == raw && column[1..] == [];
    assert NormaliseAll(column[1..]) == Success([]);
    assert Decode(row.permissions) == Success([rule] + []);
    assert [rule] + [] == [rule];
    assert NeedsUpgrade(rule);
    assert UpgradeRule(rule) == upgraded by {
      assert [Read] + [ReadValue] == [Read, ReadValue];
    }
    var upgradedAll := UpgradeAll([rule]);
    assert |upgradedAll| == 1 && upgradedAll[0] == upgraded;
    assert upgradedAll == [upgraded];
    assert Encode([upgraded]) == [RawRule(StrList([Secrets]), StrList([Read, ReadValue]), None, Missing)];
    assert [row][..0] == [];
    assert Rewrite(Up, row.permissions) == Success(Upgrade([rule]));
    assert RewriteFor<C>(Up)(row.permissions) == Rewrite(Up, row.permissions);
    assert Upgrade([rule]).shouldUpdate by {
      assert [rule][0] == rule;
    }
    var stagedRow := Restage(row, Upgrade([rule]));
    assert Staged(RewriteFor(Up), [row]) == Success([] + [stagedRow]);
    assert [] + [stagedRow] == [stagedRow];
    assert stagedRow.permissions == Some(Encode([upgraded]));
    assert UniqueIds([row]);
    TableSettledAfterUp([row]);
  }

  /** A privilege on "folders" is staged neither by `up` nor by `down`. */
  lemma FoldersScenario<C, O>(id: string, other: O)
    ensures var row: Record<C, O> := Record(id, Some([RawRule(Str("folders"), StrList(["list"]), None, Missing)]), other);
      Staged(RewriteFor(Up), [row]) == Success([]) && Staged(RewriteFor(Down), [row]) == Success([])
  {
    var raw: RawRule<C> := RawRule(Str("folders"), StrList(["list"]), None, Missing);
    var row: Record<C, O> := Record(id, Some([raw]), other);
    var rule: Rule<C> := Rule(Some("folders"), ["list"], None, None);
    assert NormaliseRule(raw) == Success(rule);
    var column := [raw];
    assert column[0] == raw && column[1..] == [];
    assert NormaliseAll(column[1..]) == Success([]);
    assert Decode(row.permissions) == Success([rule] + []);
    assert [rule] + [] == [rule];
    assert !NeedsUpgrade(rule) && !HoldsReadValue(rule);
    assert [row][..0] == [];
  }
}
