/** Aligning a provider's model pricing rows with the models visible on the main site. */
module PricingSync {
  import opened Text
  import opened NameLists
  import opened Sequences

  datatype Pricing = Pricing(kind: string, ratio: real)
  datatype Row = Row(id: int, publicName: string, baseName: string, enabled: bool, syncDisabled: bool, pricing: Pricing)
  datatype Update = Update(id: int, baseName: string, enabled: bool, syncDisabled: bool)
  datatype Plan = Plan(reenable: seq<Update>, disable: seq<Update>, creates: seq<Row>, skipped: seq<string>)

  const DEFAULT_PRICING := Pricing("ratio", 1.5)

  function Base(row: Row): string {
    TrimSpace(row.baseName)
  }

  function Public(row: Row): string {
    TrimSpace(row.publicName)
  }

  function NewRow(id: int, name: string): Row {
    Row(id, name, name, true, false, DEFAULT_PRICING)
  }

  // ----- The plan in closed form -----

  /** The updates for the selected rows, in row order. */
  function Flagged(rows: seq<Row>, select: Row -> bool, enabled: bool, syncDisabled: bool): seq<Update> {
    if rows == [] then []
    else
      var row := rows[|rows| - 1];
      Flagged(rows[..|rows| - 1], select, enabled, syncDisabled)
      + if select(row) then [Update(row.id, Base(row), enabled, syncDisabled)] else []
  }

  function Returned(visible: set<string>): Row -> bool {
    (row: Row) => Base(row) in visible && row.syncDisabled
  }

  function Withdrawn(visible: set<string>): Row -> bool {
    (row: Row) => Base(row) !in visible && row.enabled
  }

  function Visible(mainModels: seq<string>): set<string> {
    Elems(Trimmed(mainModels))
  }

  /** The non-empty names of the rows, under either reading of a name. */
  function NamesOf(rows: seq<Row>, name: Row -> string): set<string> {
    set row | row in rows && name(row) != "" :: name(row)
  }

  function Bases(rows: seq<Row>): set<string> {
    NamesOf(rows, Base)
  }

  function Publics(rows: seq<Row>): set<string> {
    NamesOf(rows, Public)
  }

  function NewRows(names: seq<string>): seq<Row> {
    if names == [] then [] else NewRows(names[..|names| - 1]) + [NewRow(0, names[|names| - 1])]
  }

  /** The names that no row knows yet, each once, in order. */
  function Missing(mainModels: seq<string>, rows: seq<Row>): seq<string> {
    Drop(Normalize(mainModels), Bases(rows) + Publics(rows))
  }

  /** The names that some row only shows publicly, with repetitions. */
  function Skipped(mainModels: seq<string>, rows: seq<Row>): seq<string> {
    Keep(Trimmed(mainModels), Publics(rows) - Bases(rows))
  }

  function PlanOf(mainModels: seq<string>, rows: seq<Row>): Plan {
    var visible := Visible(mainModels);
    Plan(Flagged(rows, Returned(visible), true, false), Flagged(rows, Withdrawn(visible), false, true),
         NewRows(Missing(mainModels, rows)), Skipped(mainModels, rows))
  }

  // ----- The planner's loops -----

  lemma NextTrimmed(xs: seq<string>, i: nat)
    requires i < |xs|
    ensures
      var past, name := Trimmed(xs[..i]), TrimSpace(xs[i]);
      Trimmed(xs[..i + 1]) == if name == "" then past else past + [name]
  {
    PrefixNext(xs, i);
    assert Trimmed(xs[..i]) + [] == Trimmed(xs[..i]);
  }

  lemma NextFlagged(rows: seq<Row>, i: nat, select: Row -> bool, enabled: bool, syncDisabled: bool)
    requires i < |rows|
    ensures Flagged(rows[..i + 1], select, enabled, syncDisabled) ==
      Flagged(rows[..i], select, enabled, syncDisabled)
      + if select(rows[i]) then [Update(rows[i].id, Base(rows[i]), enabled, syncDisabled)] else []
  {
    PrefixNext(rows, i);
  }

  lemma NextNames(rows: seq<Row>, i: nat)
    requires i < |rows|
    ensures Bases(rows[..i + 1]) == Bases(rows[..i]) + if Base(rows[i]) == "" then {} else {Base(rows[i])}
    ensures Publics(rows[..i + 1]) == Publics(rows[..i]) + if Public(rows[i]) == "" then {} else {Public(rows[i])}
  {
    PrefixNext(rows, i);
  }

  lemma NextSkipped(past: seq<string>, name: string, keep: set<string>)
    ensures Keep(past + [name], keep) == Keep(past, keep) + if name in keep then [name] else []
  {
    DropLastConcat(past, [name]);
    assert past + [] == past;
  }

  lemma NextMissing(past: seq<string>, name: string, known: set<string>)
    ensures
      var missing := Drop(Uniq(past), known);
      Drop(Uniq(past + [name]), known) == if name in known || name in missing then missing else missing + [name]
  {
    DropLastConcat(past, [name]);
    assert past + [] == past;
    if name !in Uniq(past) {
      assert (Uniq(past) + [name])[..|Uniq(past)|] == Uniq(past);
    }
  }

  lemma NewRowsNext(names: seq<string>, name: string)
    ensures NewRows(names + [name]) == NewRows(names) + [NewRow(0, name)]
  {
    assert (names + [name])[..|names|] == names;
  }

  method VisibleSet(mainModels: seq<string>) returns (mainSet: set<string>)
    ensures mainSet == Visible(mainModels)
  {
    mainSet := {};
    for i := 0 to |mainModels|
      invariant mainSet == Visible(mainModels[..i])
    {
      NextTrimmed(mainModels, i);
      var name := TrimSpace(mainModels[i]);
      if name != "" {
        mainSet := mainSet + {name};
      }
    }
    assert mainModels[..|mainModels|] == mainModels;
  }

  method PlanRows(rows: seq<Row>, mainSet: set<string>)
    returns (reenable: seq<Update>, disable: seq<Update>, bases: set<string>, publics: set<string>)
    ensures reenable == Flagged(rows, Returned(mainSet), true, false)
    ensures disable == Flagged(rows, Withdrawn(mainSet), false, true)
    ensures bases == Bases(rows) && publics == Publics(rows)
  {
    reenable, disable, bases, publics := [], [], {}, {};
    for i := 0 to |rows|
      invariant reenable == Flagged(rows[..i], Returned(mainSet), true, false)
      invariant disable == Flagged(rows[..i], Withdrawn(mainSet), false, true)
      invariant bases == Bases(rows[..i]) && publics == Publics(rows[..i])
    {
      NextFlagged(rows, i, Returned(mainSet), true, false);
      NextFlagged(rows, i, Withdrawn(mainSet), false, true);
      NextNames(rows, i);
      var row := rows[i];
      var base, public := TrimSpace(row.baseName), TrimSpace(row.publicName);
      if base != "" {
        bases := bases + {base};
      }
      if public != "" {
        publics := publics + {public};
      }
      var visible := base in mainSet;
      if visible && row.syncDisabled {
        reenable := reenable + [Update(row.id, base, true, false)];
      } else if !visible && row.enabled {
        disable := disable + [Update(row.id, base, false, true)];
      }
    }
    assert rows[..|rows|] == rows;
  }

  method PlanCreates(mainModels: seq<string>, bases0: set<string>, publics0: set<string>)
    returns (creates: seq<Row>, skipped: seq<string>)
    ensures creates == NewRows(Drop(Normalize(mainModels), bases0 + publics0))
    ensures skipped == Keep(Trimmed(mainModels), publics0 - bases0)
  {
    creates, skipped := [], [];
    var bases, publics := bases0, publics0;
    ghost var names := [];
    for i := 0 to |mainModels|
      invariant names == Drop(Uniq(Trimmed(mainModels[..i])), bases0 + publics0)
      invariant creates == NewRows(names)
      invariant skipped == Keep(Trimmed(mainModels[..i]), publics0 - bases0)
      invariant forall x :: x in bases <==> x in bases0 || x in names
      invariant forall x :: x in publics <==> x in publics0 || x in names
    {
      NextTrimmed(mainModels, i);
      var name := TrimSpace(mainModels[i]);
      if name == "" {
        continue;
      }
      NextSkipped(Trimmed(mainModels[..i]), name, publics0 - bases0);
      NextMissing(Trimmed(mainModels[..i]), name, bases0 + publics0);
      if name in bases {
        continue;
      }
      if name in publics {
        skipped := skipped + [name];
        continue;
      }
      NewRowsNext(names, name);
      creates := creates + [NewRow(0, name)];
      names := names + [name];
      bases, publics := bases + {name}, publics + {name};
    }
    assert mainModels[..|mainModels|] == mainModels;
  }

  method PlanSync(mainModels: seq<string>, rows: seq<Row>) returns (plan: Plan)
    ensures plan == PlanOf(mainModels, rows)
  {
    var mainSet := VisibleSet(mainModels);
    var reenable, disable, bases, publics := PlanRows(rows, mainSet);
    var creates, skipped := PlanCreates(mainModels, bases, publics);
    plan := Plan(reenable, disable, creates, skipped);
  }

  // ----- Applying a plan to the stored rows -----

  datatype Table = Table(rows: seq<Row>, nextId: int)

  ghost predicate Keyed(t: Table) {
    && (forall i, j | 0 <= i < j < |t.rows| :: t.rows[i].id != t.rows[j].id)
    && (forall i | 0 <= i < |t.rows| :: t.rows[i].id < t.nextId)
  }

  /** `UPDATE ... WHERE id = ?` */
  function UpdateById(rows: seq<Row>, u: Update): (r: seq<Row>)
    ensures |r| == |rows|
    ensures forall i | 0 <= i < |r| ::
      r[i] == if rows[i].id == u.id then rows[i].(enabled := u.enabled, syncDisabled := u.syncDisabled) else rows[i]
  {
    seq(|rows|, i requires 0 <= i < |rows| =>
      if rows[i].id == u.id then rows[i].(enabled := u.enabled, syncDisabled := u.syncDisabled) else rows[i])
  }

  function UpdateAll(rows: seq<Row>, us: seq<Update>): (r: seq<Row>)
    ensures |r| == |rows|
  {
    if us == [] then rows else UpdateById(UpdateAll(rows, us[..|us| - 1]), us[|us| - 1])
  }

  function InsertAll(t: Table, creates: seq<Row>): Table {
    if creates == [] then t
    else
      var t' := InsertAll(t, creates[..|creates| - 1]);
      Table(t'.rows + [creates[|creates| - 1].(id := t'.nextId)], t'.nextId + 1)
  }

  function Applied(t: Table, plan: Plan): Table {
    InsertAll(Table(UpdateAll(UpdateAll(t.rows, plan.reenable), plan.disable), t.nextId), plan.creates)
  }

  // ----- The same in closed form -----

  function SyncRow(row: Row, visible: set<string>): Row {
    if Returned(visible)(row) then row.(enabled := true, syncDisabled := false)
    else if Withdrawn(visible)(row) then row.(enabled := false, syncDisabled := true)
    else row
  }

  function SyncRows(rows: seq<Row>, visible: set<string>): (r: seq<Row>)
    ensures |r| == |rows| && forall i | 0 <= i < |r| :: r[i] == SyncRow(rows[i], visible)
  {
    seq(|rows|, i requires 0 <= i < |rows| => SyncRow(rows[i], visible))
  }

  function Numbered(names: seq<string>, id: int): (r: seq<Row>)
    ensures |r| == |names| && forall i | 0 <= i < |r| :: r[i] == NewRow(id + i, names[i])
  {
    seq(|names|, i requires 0 <= i < |names| => NewRow(id + i, names[i]))
  }

  function Sync(t: Table, mainModels: seq<string>): Table {
    var names := Missing(mainModels, t.rows);
    Table(SyncRows(t.rows, Visible(mainModels)) + Numbered(names, t.nextId), t.nextId + |names|)
  }

  /** Updating the selected rows one id at a time touches exactly those rows. */
  lemma {:induction false} UpdateFlagged(table: seq<Row>, rows: seq<Row>, k: nat, select: Row -> bool, e: bool, d: bool,
                                         i: nat)
    requires i < |rows| == |table| && k <= |rows| && table[i].id == rows[i].id
    requires forall j | 0 <= j < |rows| && j != i :: rows[j].id != rows[i].id
    ensures UpdateAll(table, Flagged(rows[..k], select, e, d))[i] ==
      if i < k && select(rows[i]) then table[i].(enabled := e, syncDisabled := d) else table[i]
  {
    if k > 0 {
      UpdateFlagged(table, rows, k - 1, select, e, d, i);
      NextFlagged(rows, k - 1, select, e, d);
      var us := Flagged(rows[..k - 1], select, e, d);
      if select(rows[k - 1]) {
        UpdateLast(table, us, Update(rows[k - 1].id, Base(rows[k - 1]), e, d), i);
      } else {
        assert us + [] == us;
      }
    }
  }

  lemma UpdateLast(table: seq<Row>, us: seq<Update>, u: Update, i: nat)
    requires i < |table|
    ensures UpdateAll(table, us + [u])[i] == UpdateById(UpdateAll(table, us), u)[i]
  {
    assert (us + [u])[..|us|] == us;
  }

  lemma {:induction false} UpdateKeepsIds(rows: seq<Row>, us: seq<Update>, i: nat)
    requires i < |rows|
    ensures UpdateAll(rows, us)[i].id == rows[i].id
  {
    if us != [] {
      UpdateKeepsIds(rows, us[..|us| - 1], i);
    }
  }

  lemma {:induction false} InsertNumbered(t: Table, names: seq<string>)
    ensures InsertAll(t, NewRows(names)) == Table(t.rows + Numbered(names, t.nextId), t.nextId + |names|)
  {
    if names == [] {
      assert t.rows + Numbered(names, t.nextId) == t.rows;
    } else {
      var past, name := names[..|names| - 1], names[|names| - 1];
      InsertNumbered(t, past);
      InsertLast(t, NewRows(past), NewRow(0, name));
      NumberedLast(t.rows, past, name, t.nextId);
      assert past + [name] == names;
    }
  }

  lemma InsertLast(t: Table, creates: seq<Row>, row: Row)
    ensures
      var t' := InsertAll(t, creates);
      InsertAll(t, creates + [row]) == Table(t'.rows + [row.(id := t'.nextId)], t'.nextId + 1)
  {
    assert (creates + [row])[..|creates|] == creates;
  }

  lemma NumberedLast(rows: seq<Row>, past: seq<string>, name: string, id: int)
    ensures rows + Numbered(past + [name], id) == (rows + Numbered(past, id)) + [NewRow(id + |past|, name)]
  {
    assert Numbered(past + [name], id) == Numbered(past, id) + [NewRow(id + |past|, name)];
  }

  lemma AppliedIsSync(t: Table, mainModels: seq<string>)
    requires Keyed(t)
    ensures Applied(t, PlanOf(mainModels, t.rows)) == Sync(t, mainModels)
  {
    var visible, rows := Visible(mainModels), t.rows;
    var reenable := Flagged(rows, Returned(visible), true, false);
    var disable := Flagged(rows, Withdrawn(visible), false, true);
    var reenabled := UpdateAll(rows, reenable);
    var updated := UpdateAll(reenabled, disable);
    forall i | 0 <= i < |rows| ensures updated[i] == SyncRow(rows[i], visible) {
      assert rows[..|rows|] == rows;
      UpdateFlagged(rows, rows, |rows|, Returned(visible), true, false, i);
      UpdateKeepsIds(rows, reenable, i);
      UpdateFlagged(reenabled, rows, |rows|, Withdrawn(visible), false, true, i);
    }
    assert updated == SyncRows(rows, visible);
    InsertNumbered(Table(updated, t.nextId), Missing(mainModels, rows));
  }

  /** The summary names the base model of every update, in order. */
  ghost predicate NamesOfUpdates(us: seq<Update>, names: seq<string>) {
    |names| == |us| && forall i | 0 <= i < |us| :: names[i] == us[i].baseName
  }

  /** One provider's pricing rows, as the sync transaction sees them. */
  class ProviderPricing {
    var table: Table

    constructor (table: Table)
      ensures this.table == table
    {
      this.table := table;
    }

    method UpdateRows(us: seq<Update>) returns (names: seq<string>)
      modifies this
      ensures table == old(table).(rows := UpdateAll(old(table).rows, us))
      ensures NamesOfUpdates(us, names)
    {
      names := [];
      ghost var rows := table.rows;
      for i := 0 to |us|
        invariant table == old(table).(rows := UpdateAll(rows, us[..i]))
        invariant |names| == i && forall j | 0 <= j < i :: names[j] == us[j].baseName
      {
        PrefixNext(us, i);
        table := table.(rows := UpdateById(table.rows, us[i]));
        names := names + [us[i].baseName];
      }
      assert us[..|us|] == us;
    }

    method InsertRows(creates: seq<Row>)
      modifies this
      ensures table == InsertAll(old(table), creates)
    {
      for i := 0 to |creates|
        invariant table == InsertAll(old(table), creates[..i])
      {
        PrefixNext(creates, i);
        table := Table(table.rows + [creates[i].(id := table.nextId)], table.nextId + 1);
      }
      assert creates[..|creates|] == creates;
    }

    method SyncNow(mainModels: seq<string>) returns (plan: Plan, reenabled: seq<string>, disabled: seq<string>)
      requires Keyed(table)
      modifies this
      ensures table == Sync(old(table), mainModels)
      ensures plan == PlanOf(mainModels, old(table).rows)
      ensures NamesOfUpdates(plan.reenable, reenabled) && NamesOfUpdates(plan.disable, disabled)
    {
      AppliedIsSync(table, mainModels);
      plan := PlanSync(mainModels, table.rows);
      reenabled := UpdateRows(plan.reenable);
      disabled := UpdateRows(plan.disable);
      InsertRows(plan.creates);
    }
  }

  // ----- What one sync achieves -----

  lemma MissingNames(mainModels: seq<string>, rows: seq<Row>)
    ensures
      var names := Missing(mainModels, rows);
      && NoDup(names)
      && forall n :: n in names <==> n in Visible(mainModels) && n !in Bases(rows) && n !in Publics(rows)
    ensures forall n | n in Visible(mainModels) :: IsName(n) && TrimSpace(n) == n
  {
    UniqMembers(Trimmed(mainModels));
    TrimmedAreNames(mainModels);
  }

  /** The old rows keep their places, with their flags settled ... */
  lemma KeptRow(t: Table, mainModels: seq<string>, i: nat)
    requires i < |t.rows|
    ensures
      var rows' := Sync(t, mainModels).rows;
      i < |rows'| && rows'[i] == SyncRow(t.rows[i], Visible(mainModels))
  {
  }

  /** ... and behind them come the new, enabled rows. */
  lemma AddedRow(t: Table, mainModels: seq<string>, i: nat)
    requires |t.rows| <= i < |Sync(t, mainModels).rows|
    ensures
      var names, k := Missing(mainModels, t.rows), i - |t.rows|;
      k < |names| && Sync(t, mainModels).rows[i] == NewRow(t.nextId + k, names[k])
  {
  }

  /** A created row carries the name of a visible model under both names, is enabled, and has the default markup. */
  lemma CreatedRow(t: Table, mainModels: seq<string>, i: nat)
    requires |t.rows| <= i < |Sync(t, mainModels).rows|
    ensures
      var row := Sync(t, mainModels).rows[i];
      && row == Row(row.id, row.baseName, row.baseName, true, false, Pricing("ratio", 1.5))
      && row.baseName in Visible(mainModels)
  {
    var k := i - |t.rows|;
    AddedRow(t, mainModels, i);
    assert Missing(mainModels, t.rows)[k] in Visible(mainModels) by {
      AddedName(t.rows, mainModels, k);
    }
  }

  /** Some main model has this name, up to white space. */
  ghost predicate Names(mainModels: seq<string>, name: string) {
    name != "" && exists m | m in mainModels :: TrimSpace(m) == name
  }

  lemma VisibleMeans(mainModels: seq<string>, name: string)
    ensures name in Visible(mainModels) <==> Names(mainModels, name)
  {
    FlatMapMembers(TrimmedName, mainModels);
    if name in Visible(mainModels) {
      var m :| m in mainModels && name in TrimmedName(m);
    }
    if Names(mainModels, name) {
      var m :| m in mainModels && TrimSpace(m) == name;
      assert name in TrimmedName(m);
    }
  }

  /** A row follows the main models by its base name: one that sync had switched off comes back with its model, and an
      enabled one goes with it. */
  lemma SyncedRow(t: Table, mainModels: seq<string>, i: nat)
    requires i < |t.rows|
    ensures
      var row := t.rows[i];
      var named := Names(mainModels, TrimSpace(row.baseName));
      Sync(t, mainModels).rows[i] ==
        if named && row.syncDisabled then row.(enabled := true, syncDisabled := false)
        else if !named && row.enabled then row.(enabled := false, syncDisabled := true)
        else row
  {
    VisibleMeans(mainModels, TrimSpace(t.rows[i].baseName));
  }

  /** A model gets a new row if no row has its name in either place, and is skipped if a row only shows its name. */
  lemma SyncedName(t: Table, mainModels: seq<string>, name: string)
    ensures
      var based := exists row | row in t.rows :: TrimSpace(row.baseName) == name;
      var shown := exists row | row in t.rows :: TrimSpace(row.publicName) == name;
      && (name in Missing(mainModels, t.rows) <==> Names(mainModels, name) && !based && !shown)
      && (name in Skipped(mainModels, t.rows) <==> Names(mainModels, name) && !based && shown)
  {
    VisibleMeans(mainModels, name);
    MissingNames(mainModels, t.rows);
  }

  lemma AddedName(rows: seq<Row>, mainModels: seq<string>, k: nat)
    requires k < |Missing(mainModels, rows)|
    ensures
      var name := Missing(mainModels, rows)[k];
      && TrimSpace(name) == name && name != "" && name in Visible(mainModels)
      && name !in Bases(rows) && name !in Publics(rows)
  {
    MissingNames(mainModels, rows);
    assert Missing(mainModels, rows)[k] in Missing(mainModels, rows);
  }

  lemma NamesConcat(a: seq<Row>, b: seq<Row>, name: Row -> string)
    ensures NamesOf(a + b, name) == NamesOf(a, name) + NamesOf(b, name)
  {
  }

  lemma NamesKept(rows: seq<Row>, visible: set<string>, name: Row -> string)
    requires forall row :: name(SyncRow(row, visible)) == name(row)
    ensures NamesOf(SyncRows(rows, visible), name) == NamesOf(rows, name)
  {
    var rows' := SyncRows(rows, visible);
    forall row | row in rows ensures exists row' :: row' in rows' && name(row') == name(row) {
      var i :| 0 <= i < |rows| && rows[i] == row;
      assert rows'[i] in rows';
    }
    forall row' | row' in rows' ensures exists row :: row in rows && name(row) == name(row') {
      var i :| 0 <= i < |rows'| && rows'[i] == row';
      assert rows[i] in rows;
    }
  }

  lemma NamesNew(names: seq<string>, id: int, name: Row -> string)
    requires forall i, n | n in names :: n != "" && name(NewRow(i, n)) == n
    ensures NamesOf(Numbered(names, id), name) == Elems(names)
  {
    var rows := Numbered(names, id);
    forall n | n in names ensures exists row :: row in rows && name(row) == n {
      var k :| 0 <= k < |names| && names[k] == n;
      assert rows[k] in rows;
    }
    forall row | row in rows ensures name(row) in names {
      var k :| 0 <= k < |rows| && rows[k] == row;
      assert names[k] in names;
    }
  }

  lemma SyncedNamesOf(t: Table, mainModels: seq<string>, name: Row -> string)
    requires forall row, visible :: name(SyncRow(row, visible)) == name(row)
    requires forall i, n | n in Missing(mainModels, t.rows) :: n != "" && name(NewRow(i, n)) == n
    ensures NamesOf(Sync(t, mainModels).rows, name) == NamesOf(t.rows, name) + Elems(Missing(mainModels, t.rows))
  {
    var names, visible := Missing(mainModels, t.rows), Visible(mainModels);
    NamesConcat(SyncRows(t.rows, visible), Numbered(names, t.nextId), name);
    NamesKept(t.rows, visible, name);
    NamesNew(names, t.nextId, name);
  }

  lemma SyncedNames(t: Table, mainModels: seq<string>)
    ensures
      var names, rows' := Elems(Missing(mainModels, t.rows)), Sync(t, mainModels).rows;
      Bases(rows') == Bases(t.rows) + names && Publics(rows') == Publics(t.rows) + names
  {
    MissingNames(mainModels, t.rows);
    SyncedNamesOf(t, mainModels, Base);
    SyncedNamesOf(t, mainModels, Public);
  }

  /** After a sync every visible model has a row of its own or is reported skipped, never both. */
  lemma SyncCovers(t: Table, mainModels: seq<string>, name: string)
    requires name in Visible(mainModels)
    ensures (name in Bases(Sync(t, mainModels).rows)) != (name in Skipped(mainModels, t.rows))
  {
    SyncedNames(t, mainModels);
    MissingNames(mainModels, t.rows);
  }

  /** Nothing is selected for an update by the models it was just synced with. */
  lemma SettledRows(t: Table, mainModels: seq<string>, i: nat)
    requires i < |Sync(t, mainModels).rows|
    ensures
      var row, visible := Sync(t, mainModels).rows[i], Visible(mainModels);
      && !Returned(visible)(row) && !Withdrawn(visible)(row)
      && SyncRow(row, visible) == row
      && !(row.enabled && row.syncDisabled)
  {
    if i < |t.rows| {
      KeptRow(t, mainModels, i);
    } else {
      AddedRow(t, mainModels, i);
      AddedName(t.rows, mainModels, i - |t.rows|);
    }
  }

  lemma {:induction false} NothingFlagged(rows: seq<Row>, select: Row -> bool, e: bool, d: bool)
    requires forall i | 0 <= i < |rows| :: !select(rows[i])
    ensures Flagged(rows, select, e, d) == []
  {
    if rows != [] {
      NothingFlagged(rows[..|rows| - 1], select, e, d);
    }
  }

  lemma NothingPlanned(t: Table, mainModels: seq<string>)
    ensures
      var t' := Sync(t, mainModels);
      PlanOf(mainModels, t'.rows) == Plan([], [], [], PlanOf(mainModels, t.rows).skipped)
  {
    var t', visible := Sync(t, mainModels), Visible(mainModels);
    forall i | 0 <= i < |t'.rows| ensures !Returned(visible)(t'.rows[i]) && !Withdrawn(visible)(t'.rows[i]) {
      SettledRows(t, mainModels, i);
    }
    NothingFlagged(t'.rows, Returned(visible), true, false);
    NothingFlagged(t'.rows, Withdrawn(visible), false, true);
    NothingMissing(t, mainModels);
  }

  lemma NothingChanged(t: Table, mainModels: seq<string>)
    ensures SyncRows(Sync(t, mainModels).rows, Visible(mainModels)) == Sync(t, mainModels).rows
  {
    var rows', visible := Sync(t, mainModels).rows, Visible(mainModels);
    forall i | 0 <= i < |rows'| ensures SyncRow(rows'[i], visible) == rows'[i] {
      SettledRows(t, mainModels, i);
    }
  }

  /** A second sync with the same models plans nothing, skips the same names and changes nothing. */
  lemma SyncIdempotent(t: Table, mainModels: seq<string>)
    ensures
      var t' := Sync(t, mainModels);
      && PlanOf(mainModels, t'.rows) == Plan([], [], [], PlanOf(mainModels, t.rows).skipped)
      && Sync(t', mainModels) == t'
  {
    var t' := Sync(t, mainModels);
    NothingPlanned(t, mainModels);
    NothingMissing(t, mainModels);
    NothingChanged(t, mainModels);
    assert t'.rows + Numbered([], t'.nextId) == t'.rows;
  }

  lemma NothingMissing(t: Table, mainModels: seq<string>)
    ensures
      var rows' := Sync(t, mainModels).rows;
      Missing(mainModels, rows') == [] && Skipped(mainModels, rows') == Skipped(mainModels, t.rows)
  {
    var rows' := Sync(t, mainModels).rows;
    SyncedNames(t, mainModels);
    MissingNames(mainModels, t.rows);
    MissingNames(mainModels, rows');
    assert Publics(rows') - Bases(rows') == Publics(t.rows) - Bases(t.rows);
    Empty(Missing(mainModels, rows'));
  }

  ghost predicate UniqueNames(rows: seq<Row>) {
    forall i, j | 0 <= i < j < |rows| ::
      && rows[i].publicName != rows[j].publicName
      && (Public(rows[i]) == Public(rows[j]) ==> Public(rows[i]) == "")
      && (Base(rows[i]) == Base(rows[j]) ==> Base(rows[i]) == "")
  }

  ghost predicate Apart(a: Row, b: Row) {
    && a.id != b.id && a.publicName != b.publicName
    && (Public(a) == Public(b) ==> Public(a) == "")
    && (Base(a) == Base(b) ==> Base(a) == "")
  }

  lemma SyncedApart(a: Row, b: Row, visible: set<string>)
    requires Apart(a, b)
    ensures Apart(SyncRow(a, visible), SyncRow(b, visible))
  {
  }

  lemma NewApart(rows: seq<Row>, i: nat, visible: set<string>, id: int, name: string)
    requires i < |rows| && rows[i].id < id && name != "" && TrimSpace(name) == name
    requires name !in Bases(rows) && name !in Publics(rows)
    ensures Apart(SyncRow(rows[i], visible), NewRow(id, name))
  {
    assert rows[i] in rows;
  }

  lemma AddedApart(kept: seq<Row>, names: seq<string>, id: int, i: nat, j: nat)
    requires NoDup(names) && forall n | n in names :: TrimSpace(n) == n
    requires |kept| <= i < j < |kept| + |names|
    ensures
      var rows := kept + Numbered(names, id);
      Apart(rows[i], rows[j])
  {
    var k, l := i - |kept|, j - |kept|;
    assert names[k] in names && names[l] in names && names[k] != names[l];
  }

  lemma OldRowsApart(t: Table, mainModels: seq<string>, i: nat, j: nat)
    requires Keyed(t) && UniqueNames(t.rows) && i < j < |t.rows|
    ensures Apart(Sync(t, mainModels).rows[i], Sync(t, mainModels).rows[j])
  {
    KeptRow(t, mainModels, i);
    KeptRow(t, mainModels, j);
    SyncedApart(t.rows[i], t.rows[j], Visible(mainModels));
  }

  lemma OldAndNewApart(t: Table, mainModels: seq<string>, i: nat, j: nat)
    requires Keyed(t) && i < |t.rows| <= j < |Sync(t, mainModels).rows|
    ensures Apart(Sync(t, mainModels).rows[i], Sync(t, mainModels).rows[j])
  {
    var k := j - |t.rows|;
    KeptRow(t, mainModels, i);
    AddedRow(t, mainModels, j);
    AddedName(t.rows, mainModels, k);
    NewApart(t.rows, i, Visible(mainModels), t.nextId + k, Missing(mainModels, t.rows)[k]);
  }

  lemma NewRowsApart(t: Table, mainModels: seq<string>, i: nat, j: nat)
    requires |t.rows| <= i < j < |Sync(t, mainModels).rows|
    ensures Apart(Sync(t, mainModels).rows[i], Sync(t, mainModels).rows[j])
  {
    MissingNames(mainModels, t.rows);
    AddedApart(SyncRows(t.rows, Visible(mainModels)), Missing(mainModels, t.rows), t.nextId, i, j);
  }

  lemma RowsApart(t: Table, mainModels: seq<string>, i: nat, j: nat)
    requires Keyed(t) && UniqueNames(t.rows) && i < j < |Sync(t, mainModels).rows|
    ensures Apart(Sync(t, mainModels).rows[i], Sync(t, mainModels).rows[j])
  {
    if j < |t.rows| {
      OldRowsApart(t, mainModels, i, j);
    } else if i < |t.rows| {
      OldAndNewApart(t, mainModels, i, j);
    } else {
      NewRowsApart(t, mainModels, i, j);
    }
  }

  /** Ids, public names and base names stay unique, so no insert ever violates the unique index. */
  lemma SyncKeepsUnique(t: Table, mainModels: seq<string>)
    requires Keyed(t) && UniqueNames(t.rows)
    ensures Keyed(Sync(t, mainModels)) && UniqueNames(Sync(t, mainModels).rows)
  {
    var rows' := Sync(t, mainModels).rows;
    forall i, j | 0 <= i < j < |rows'| ensures Apart(rows'[i], rows'[j]) {
      RowsApart(t, mainModels, i, j);
    }
    forall i | 0 <= i < |rows'| ensures rows'[i].id < Sync(t, mainModels).nextId {
      if i < |t.rows| {
        KeptRow(t, mainModels, i);
      } else {
        AddedRow(t, mainModels, i);
      }
    }
  }

  // ----- Many syncs -----

  function SyncMany(t: Table, history: seq<seq<string>>): Table {
    if history == [] then t else Sync(SyncMany(t, history[..|history| - 1]), history[|history| - 1])
  }

  /** The flags a row must end with: manual disabling is kept, otherwise the row follows its model. */
  function Settled(row: Row, visible: set<string>): Row {
    if !row.enabled && !row.syncDisabled then row
    else if Base(row) in visible then row.(enabled := true, syncDisabled := false)
    else row.(enabled := false, syncDisabled := true)
  }

  lemma SettledTwice(row: Row, before: set<string>, last: set<string>)
    ensures SyncRow(row, last) == Settled(row, last)
    ensures SyncRow(Settled(row, before), last) == Settled(row, last)
  {
  }

  /** After any non-empty history the state of an original row depends only on that row and the last model set. */
  lemma {:induction false} HistoryIndependent(t: Table, history: seq<seq<string>>, i: nat)
    requires history != [] && i < |t.rows|
    ensures
      var t' := SyncMany(t, history);
      i < |t'.rows| && t'.rows[i] == Settled(t.rows[i], Visible(history[|history| - 1]))
  {
    var past, last := history[..|history| - 1], history[|history| - 1];
    if past == [] {
      SettledTwice(t.rows[i], {}, Visible(last));
    } else {
      HistoryIndependent(t, past, i);
      SettledTwice(t.rows[i], Visible(past[|past| - 1]), Visible(last));
    }
    KeptRow(SyncMany(t, past), last, i);
  }

  /** A row that was created during the history is enabled exactly when the last model set has its model, and otherwise
      disabled by sync: nothing else about the history shows. */
  lemma {:induction false} CreatedFollowLast(t: Table, history: seq<seq<string>>, i: nat)
    requires history != [] && |t.rows| <= i < |SyncMany(t, history).rows|
    ensures
      var row := SyncMany(t, history).rows[i];
      row.enabled == (Base(row) in Visible(history[|history| - 1])) && row.syncDisabled == !row.enabled
  {
    var past, last := history[..|history| - 1], history[|history| - 1];
    var before := SyncMany(t, past);
    if i < |before.rows| {
      assert past != [];
      CreatedFollowLast(t, past, i);
      KeptRow(before, last, i);
    } else {
      AddedRow(before, last, i);
      AddedName(before.rows, last, i - |before.rows|);
    }
  }
}
