/** The write side of the entity manager of src/orm/interface.ts: `insert`,
    `insertBulk`, `update` and `delete`. The database is not modelled: the rows
    that `INSERT ... RETURNING` hands back and the `changes` count of a run
    statement are inputs. */
module Write {
  import opened Base
  import opened Schema
  import opened Serde
  import opened Clauses

  // ---------------------------------------------------------------------------
  // insertBulk: columns, tuples and echoed records

  /** `Object.keys(entity).filter(f => f !== primaryKey)`: every schema field
      except the primary key, in schema order. */
  function InsertColumns(s: Schema, pk: string): (r: seq<string>)
    ensures forall f :: f in r <==> (exists i :: 0 <= i < |s| && s[i].0 == f) && f != pk
    ensures |r| <= |s|
    decreases |s|
  {
    if s == [] then []
    else
      var init := s[..|s| - 1];
      assert forall i :: 0 <= i < |init| ==> init[i] == s[i];
      InsertColumns(init, pk) + (if Last(s).0 != pk then [Last(s).0] else [])
  }

  /** The column list of an `INSERT` for manager `m`. */
  function Columns(m: Manager): seq<string> {
    InsertColumns(m.entity, m.primaryKey)
  }

  /** Every name in `fs` is a field of `m`. */
  predicate KnownFields(m: Manager, fs: seq<string>) {
    forall k :: 0 <= k < |fs| ==> HasField(m, fs[k])
  }

  lemma ColumnsKnown(m: Manager)
    ensures KnownFields(m, Columns(m))
    ensures m.primaryKey !in Columns(m)
  {
    forall k | 0 <= k < |Columns(m)| ensures HasField(m, Columns(m)[k]) {
      var f := Columns(m)[k];
      assert f in Columns(m);
      var i :| 0 <= i < |m.entity| && m.entity[i].0 == f;
    }
  }

  /** The column list is exactly the schema's fields other than the primary key. */
  lemma ColumnsExact(m: Manager)
    ensures forall f :: f in Columns(m) <==> HasField(m, f) && f != m.primaryKey
  {
    forall f ensures f in Columns(m) <==> HasField(m, f) && f != m.primaryKey {
      if HasField(m, f) {
        var k := FieldIndex(m.entity, f).value;
        assert m.entity[k].0 == f;
      }
    }
  }

  /** `data[field]`: undefined when the record does not carry the field. */
  function FieldValue(data: Record, f: string): Value {
    if f in data then data[f] else Undefined
  }

  /** `value ?? null`. */
  function OrNull(v: Value): Value {
    if IsAbsent(v) then Null else v
  }

  /** One column of one record: a missing value on a non-nullable field throws,
      otherwise `toDb(field, data[field] ?? null)`. */
  function Cell(codec: Codec, m: Manager, data: Record, f: string): Result<string>
    requires HasField(m, f)
  {
    if !Field(m, f).isNullable && IsAbsent(FieldValue(data, f)) then Err(NotNullable(f))
    else ToDb(codec, m, f, OrNull(FieldValue(data, f)))
  }

  /** The VALUES tuple of one record: the cells of its columns, in column
      order; the first column that fails throws. */
  function Tuple(codec: Codec, m: Manager, data: Record, fs: seq<string>): Result<seq<string>>
    requires KnownFields(m, fs)
    decreases |fs|
  {
    if fs == [] then Ok([])
    else
      match Tuple(codec, m, data, fs[..|fs| - 1])
      case Err(e) => Err(e)
      case Ok(vs) =>
        match Cell(codec, m, data, Last(fs))
        case Err(e) => Err(e)
        case Ok(v) => Ok(vs + [v])
  }

  /** A tuple is written exactly when every cell is. */
  lemma {:induction false} TupleOk(codec: Codec, m: Manager, data: Record, fs: seq<string>)
    requires KnownFields(m, fs)
    ensures Tuple(codec, m, data, fs).Ok? <==> forall k :: 0 <= k < |fs| ==> Cell(codec, m, data, fs[k]).Ok?
    decreases |fs|
  {
    if fs != [] {
      var init := fs[..|fs| - 1];
      assert forall k :: 0 <= k < |init| ==> init[k] == fs[k];
      TupleOk(codec, m, data, init);
    }
  }

  /** A written tuple holds one literal per column, the column's cell. */
  lemma {:induction false} TupleCells(codec: Codec, m: Manager, data: Record, fs: seq<string>)
    requires KnownFields(m, fs) && Tuple(codec, m, data, fs).Ok?
    ensures var t := Tuple(codec, m, data, fs).value;
      |t| == |fs| && forall k :: 0 <= k < |fs| ==> Cell(codec, m, data, fs[k]) == Ok(t[k])
    decreases |fs|
  {
    if fs != [] {
      var init := fs[..|fs| - 1];
      assert forall k :: 0 <= k < |init| ==> init[k] == fs[k];
      TupleCells(codec, m, data, init);
    }
  }

  /** The VALUES tuples of all records, in record order; the first record that
      fails throws. */
  function Tuples(codec: Codec, m: Manager, bulk: seq<Record>, fs: seq<string>): Result<seq<seq<string>>>
    requires KnownFields(m, fs)
    decreases |bulk|
  {
    if bulk == [] then Ok([])
    else
      match Tuples(codec, m, bulk[..|bulk| - 1], fs)
      case Err(e) => Err(e)
      case Ok(ts) =>
        match Tuple(codec, m, Last(bulk), fs)
        case Err(e) => Err(e)
        case Ok(t) => Ok(ts + [t])
  }

  /** The records are written exactly when every record's tuple is. */
  lemma {:induction false} TuplesOk(codec: Codec, m: Manager, bulk: seq<Record>, fs: seq<string>)
    requires KnownFields(m, fs)
    ensures Tuples(codec, m, bulk, fs).Ok? <==> forall i :: 0 <= i < |bulk| ==> Tuple(codec, m, bulk[i], fs).Ok?
    decreases |bulk|
  {
    if bulk != [] {
      var init := bulk[..|bulk| - 1];
      assert forall i :: 0 <= i < |init| ==> init[i] == bulk[i];
      TuplesOk(codec, m, init, fs);
    }
  }

  /** Written records give one tuple per record, that record's tuple. */
  lemma {:induction false} TuplesEach(codec: Codec, m: Manager, bulk: seq<Record>, fs: seq<string>)
    requires KnownFields(m, fs) && Tuples(codec, m, bulk, fs).Ok?
    ensures var ts := Tuples(codec, m, bulk, fs).value;
      |ts| == |bulk| && forall i :: 0 <= i < |bulk| ==> Tuple(codec, m, bulk[i], fs) == Ok(ts[i])
    decreases |bulk|
  {
    if bulk != [] {
      var init := bulk[..|bulk| - 1];
      assert forall i :: 0 <= i < |init| ==> init[i] == bulk[i];
      TuplesEach(codec, m, init, fs);
    }
  }

  /** The record `tss` keeps for `data` while the tuple is built: the caller's
      value of each column, `null` where it is missing. */
  function Echo(data: Record, fs: seq<string>): Record {
    map f | f in fs :: OrNull(FieldValue(data, f))
  }

  /** The record handed back for `data`, once the primary key of the matching
      returned row has been copied into it. */
  function Echoed(m: Manager, data: Record, row: Record): Record {
    Echo(data, Columns(m))[m.primaryKey := FieldValue(row, m.primaryKey)]
  }

  /** `values.map(v => v.join(','))`. */
  function TupleTexts(tuples: seq<seq<string>>): seq<string> {
    seq(|tuples|, i requires 0 <= i < |tuples| => JoinWith(tuples[i], ","))
  }

  function InsertQuery(m: Manager, fs: seq<string>, tuples: seq<seq<string>>): string {
    "INSERT INTO " + m.tableName + "(" + JoinWith(fs, ",") + ")"
      + " VALUES (" + JoinWith(TupleTexts(tuples), "),(") + ")"
      + " RETURNING " + m.primaryKey
  }

  datatype InsertOutcome = InsertOutcome(query: string, records: seq<Record>)

  /** `insertBulk(bulk)`, given the rows the database returns for the statement.
      A record that cannot be written throws before the statement is built;
      otherwise there is one echoed record per returned row, and a returned row
      beyond the last record throws. */
  method InsertBulk(codec: Codec, m: Manager, bulk: seq<Record>, returned: seq<Record>)
    returns (r: Result<InsertOutcome>)
    ensures KnownFields(m, Columns(m))
    ensures var t := Tuples(codec, m, bulk, Columns(m));
      && (t.Err? ==> r == Err(t.error))
      && (t.Ok? && |returned| > |bulk| ==> r == Err(NoEchoRecord(|bulk|)))
      && (t.Ok? && |returned| <= |bulk| ==> r.Ok? && r.value.query == InsertQuery(m, Columns(m), t.value))
    ensures r.Ok? ==> |r.value.records| == |returned|
    ensures r.Ok? ==> forall i :: 0 <= i < |returned| ==> r.value.records[i] == Echoed(m, bulk[i], returned[i])
  {
    ColumnsKnown(m);
    var fields := Columns(m);
    var values, tss := RecordTuples(codec, m, bulk, fields);
    if values.Err? {
      return Err(values.error);
    }
    var query := InsertQuery(m, fields, values.value);
    var records := EchoKeys(m, bulk, tss, returned);
    if records.Err? {
      return Err(records.error);
    }
    r := Ok(InsertOutcome(query, records.value));
  }

  /** The `reduce` over the records: one tuple per record, and the record `tss`
      keeps for each. */
  method RecordTuples(codec: Codec, m: Manager, bulk: seq<Record>, fs: seq<string>)
    returns (r: Result<seq<seq<string>>>, tss: seq<Record>)
    requires KnownFields(m, fs)
    ensures r == Tuples(codec, m, bulk, fs)
    ensures r.Ok? ==> Kept(bulk, fs, tss)
  {
    var values: seq<seq<string>> := [];
    tss := [];
    for i := 0 to |bulk|
      invariant Tuples(codec, m, bulk[..i], fs) == Ok(values)
      invariant Kept(bulk[..i], fs, tss)
    {
      TuplesStep(codec, m, bulk, fs, i, values);
      var tuple, ts := RecordTuple(codec, m, bulk[i], fs);
      if tuple.Err? {
        TuplesStopsAtError(codec, m, bulk, fs, i + 1);
        return Err(tuple.error), tss;
      }
      KeptStep(bulk, fs, tss, i);
      tss := tss + [ts];
      values := values + [tuple.value];
    }
    assert bulk[..|bulk|] == bulk;
    r := Ok(values);
  }

  /** `tss` holds, for each record, the record kept while its tuple was built. */
  predicate Kept(bulk: seq<Record>, fs: seq<string>, tss: seq<Record>) {
    |tss| == |bulk| && forall j :: 0 <= j < |bulk| ==> tss[j] == Echo(bulk[j], fs)
  }

  lemma KeptStep(bulk: seq<Record>, fs: seq<string>, tss: seq<Record>, i: nat)
    requires i < |bulk| && Kept(bulk[..i], fs, tss)
    ensures Kept(bulk[..i + 1], fs, tss + [Echo(bulk[i], fs)])
  {
  }

  /** `results.map(...)`: the primary key of each returned row is copied into
      the record kept for the same position; a row with no such record throws. */
  method EchoKeys(m: Manager, bulk: seq<Record>, tss: seq<Record>, returned: seq<Record>)
    returns (r: Result<seq<Record>>)
    requires Kept(bulk, Columns(m), tss)
    ensures r.Err? <==> |returned| > |bulk|
    ensures r.Err? ==> r.error == NoEchoRecord(|bulk|)
    ensures r.Ok? ==> |r.value| == |returned|
    ensures r.Ok? ==> forall i :: 0 <= i < |returned| ==> r.value[i] == Echoed(m, bulk[i], returned[i])
  {
    var records: seq<Record> := [];
    for i := 0 to |returned|
      invariant i <= |bulk|
      invariant |records| == i
      invariant forall j :: 0 <= j < i ==> records[j] == Echoed(m, bulk[j], returned[j])
    {
      if i == |tss| {
        return Err(NoEchoRecord(i));
      }
      records := records + [tss[i][m.primaryKey := FieldValue(returned[i], m.primaryKey)]];
    }
    r := Ok(records);
  }

  /** The loop over the columns of one record, filling the record `tss` keeps
      and the record's tuple. */
  method RecordTuple(codec: Codec, m: Manager, data: Record, fs: seq<string>)
    returns (r: Result<seq<string>>, ts: Record)
    requires KnownFields(m, fs)
    ensures r == Tuple(codec, m, data, fs)
    ensures r.Ok? ==> ts == Echo(data, fs)
  {
    var values: seq<string> := [];
    ts := map[];
    for k := 0 to |fs|
      invariant Tuple(codec, m, data, fs[..k]) == Ok(values)
      invariant ts == Echo(data, fs[..k])
    {
      var field := fs[k];
      TupleStep(codec, m, data, fs, k, values);
      var v := FieldValue(data, field);
      if !Field(m, field).isNullable && IsAbsent(v) {
        TupleStopsAtError(codec, m, data, fs, k + 1);
        return Err(NotNullable(field)), ts;
      }
      var value := OrNull(v);
      ts := ts[field := value];
      var lit := ToDb(codec, m, field, value);
      if lit.Err? {
        TupleStopsAtError(codec, m, data, fs, k + 1);
        return Err(lit.error), ts;
      }
      values := values + [lit.value];
    }
    assert fs[..|fs|] == fs;
    r := Ok(values);
  }

  /** One more column: the tuple grows by the column's cell, and the kept
      record by the column's value. */
  lemma TupleStep(codec: Codec, m: Manager, data: Record, fs: seq<string>, k: nat, vs: seq<string>)
    requires KnownFields(m, fs) && k < |fs|
    requires Tuple(codec, m, data, fs[..k]) == Ok(vs)
    ensures Tuple(codec, m, data, fs[..k + 1]) ==
      match Cell(codec, m, data, fs[k])
      case Err(e) => Err(e)
      case Ok(v) => Ok(vs + [v])
    ensures Echo(data, fs[..k + 1]) == Echo(data, fs[..k])[fs[k] := OrNull(FieldValue(data, fs[k]))]
  {
    assert fs[..k + 1][..k] == fs[..k];
    assert fs[..k + 1] == fs[..k] + [fs[k]];
    EchoSnoc(data, fs[..k], fs[k]);
  }

  /** One more record: the tuples grow by the record's tuple. */
  lemma TuplesStep(codec: Codec, m: Manager, bulk: seq<Record>, fs: seq<string>, i: nat, ts: seq<seq<string>>)
    requires KnownFields(m, fs) && i < |bulk|
    requires Tuples(codec, m, bulk[..i], fs) == Ok(ts)
    ensures Tuples(codec, m, bulk[..i + 1], fs) ==
      match Tuple(codec, m, bulk[i], fs)
      case Err(e) => Err(e)
      case Ok(t) => Ok(ts + [t])
  {
    assert bulk[..i + 1][..i] == bulk[..i];
    assert Last(bulk[..i + 1]) == bulk[i];
  }

  lemma EchoSnoc(data: Record, fs: seq<string>, f: string)
    ensures Echo(data, fs + [f]) == Echo(data, fs)[f := OrNull(FieldValue(data, f))]
  {
  }

  /** Once a column has thrown, later columns do not matter. */
  lemma {:induction false} TupleStopsAtError(codec: Codec, m: Manager, data: Record, fs: seq<string>, i: nat)
    requires KnownFields(m, fs)
    requires i <= |fs| && Tuple(codec, m, data, fs[..i]).Err?
    ensures Tuple(codec, m, data, fs) == Tuple(codec, m, data, fs[..i])
    decreases |fs| - i
  {
    if i < |fs| {
      assert fs[..i + 1][..i] == fs[..i];
      TupleStopsAtError(codec, m, data, fs, i + 1);
    } else {
      assert fs[..i] == fs;
    }
  }

  /** Once a record has thrown, later records do not matter. */
  lemma {:induction false} TuplesStopsAtError(codec: Codec, m: Manager, bulk: seq<Record>, fs: seq<string>, i: nat)
    requires KnownFields(m, fs)
    requires i <= |bulk| && Tuples(codec, m, bulk[..i], fs).Err?
    ensures Tuples(codec, m, bulk, fs) == Tuples(codec, m, bulk[..i], fs)
    decreases |bulk| - i
  {
    if i < |bulk| {
      assert bulk[..i + 1][..i] == bulk[..i];
      TuplesStopsAtError(codec, m, bulk, fs, i + 1);
    } else {
      assert bulk[..i] == bulk;
    }
  }

  // ---------------------------------------------------------------------------
  // insertBulk: properties

  /** A record that lacks a non-nullable field other than the primary key makes
      `insertBulk` throw, so no statement is issued. */
  lemma MissingRequiredFieldRejected(codec: Codec, m: Manager, bulk: seq<Record>, i: nat, f: string)
    requires i < |bulk| && HasField(m, f) && f != m.primaryKey
    requires !Field(m, f).isNullable && IsAbsent(FieldValue(bulk[i], f))
    ensures KnownFields(m, Columns(m))
    ensures Tuples(codec, m, bulk, Columns(m)).Err?
  {
    ColumnsKnown(m);
    var k := FieldIndex(m.entity, f).value;
    assert f in Columns(m);
    var n :| 0 <= n < |Columns(m)| && Columns(m)[n] == f;
    assert Cell(codec, m, bulk[i], Columns(m)[n]).Err?;
    TupleOk(codec, m, bulk[i], Columns(m));
    TuplesOk(codec, m, bulk, Columns(m));
  }

  /** The statement names every field except the primary key, and carries one
      tuple per record with one literal per column. */
  lemma InsertShape(codec: Codec, m: Manager, bulk: seq<Record>)
    requires KnownFields(m, Columns(m))
    requires Tuples(codec, m, bulk, Columns(m)).Ok?
    ensures forall f :: f in Columns(m) <==> HasField(m, f) && f != m.primaryKey
    ensures var t := Tuples(codec, m, bulk, Columns(m)).value;
      |t| == |bulk| && forall i :: 0 <= i < |t| ==> |t[i]| == |Columns(m)|
  {
    ColumnsExact(m);
    TuplesOk(codec, m, bulk, Columns(m));
    TuplesEach(codec, m, bulk, Columns(m));
    forall i | 0 <= i < |bulk| ensures |Tuples(codec, m, bulk, Columns(m)).value[i]| == |Columns(m)| {
      TupleCells(codec, m, bulk[i], Columns(m));
    }
  }

  /** An echoed record holds every field of the schema and the primary key: the
      primary key comes from the returned row, every other field is the
      caller's value, or `null` where the caller gave none. */
  lemma EchoedRecord(m: Manager, data: Record, row: Record)
    ensures forall f :: f in Echoed(m, data, row) <==> HasField(m, f) || f == m.primaryKey
    ensures Echoed(m, data, row)[m.primaryKey] == FieldValue(row, m.primaryKey)
    ensures forall f :: f in data && f != m.primaryKey && HasField(m, f) && !IsAbsent(data[f]) ==>
      Echoed(m, data, row)[f] == data[f]
    ensures forall f :: f != m.primaryKey && HasField(m, f) && IsAbsent(FieldValue(data, f)) ==>
      Echoed(m, data, row)[f] == Null
  {
    ColumnsExact(m);
  }

  // ---------------------------------------------------------------------------
  // insert

  datatype InsertOneOutcome = InsertOneOutcome(query: string, record: Option<Record>)

  /** `insert(data)`: `insertBulk([data])[0]`, undefined when the database hands
      back no row. */
  method Insert(codec: Codec, m: Manager, data: Record, returned: seq<Record>)
    returns (r: Result<InsertOneOutcome>)
    ensures KnownFields(m, Columns(m))
    ensures var t := Tuple(codec, m, data, Columns(m));
      && (t.Err? ==> r == Err(t.error))
      && (t.Ok? && |returned| > 1 ==> r == Err(NoEchoRecord(1)))
      && (t.Ok? && |returned| <= 1 ==> r.Ok? && r.value.query == InsertQuery(m, Columns(m), [t.value]))
    ensures r.Ok? && |returned| == 0 ==> r.value.record == None
    ensures r.Ok? && |returned| == 1 ==> r.value.record == Some(Echoed(m, data, returned[0]))
  {
    var results := InsertBulk(codec, m, [data], returned);
    assert [data][..0] == [];
    if results.Err? {
      return Err(results.error);
    }
    var out := results.value;
    r := Ok(InsertOneOutcome(out.query, if |out.records| > 0 then Some(out.records[0]) else None));
  }

  // ---------------------------------------------------------------------------
  // update

  /** The entries `update` writes: those naming a schema field other than the
      primary key, in entry order. */
  function Assignable(m: Manager, data: Entries): (r: Entries)
    ensures forall e :: e in r <==> e in data && HasField(m, e.0) && e.0 != m.primaryKey
    ensures |r| <= |data|
    decreases |data|
  {
    if data == [] then []
    else if HasField(m, data[0].0) && data[0].0 != m.primaryKey then [data[0]] + Assignable(m, data[1..])
    else Assignable(m, data[1..])
  }

  /** The `reduce` over `Object.entries(data)`: entries naming no field, or the
      primary key, are skipped; every other one becomes `field = toDb(field,
      value)`, and the first one `toDb` refuses throws. */
  function Assignments(codec: Codec, m: Manager, data: Entries): Result<seq<string>>
    decreases |data|
  {
    if data == [] then Ok([])
    else
      var (field, value) := data[0];
      if !HasField(m, field) || field == m.primaryKey then Assignments(codec, m, data[1..])
      else
        match ToDb(codec, m, field, value)
        case Err(e) => Err(e)
        case Ok(lit) =>
          match Assignments(codec, m, data[1..])
          case Err(e) => Err(e)
          case Ok(rest) => Ok([field + " = " + lit] + rest)
  }

  /** The assignments of a list of entries, none skipped: one per entry, in
      entry order; the first entry `toDb` refuses throws. */
  function AssignAll(codec: Codec, m: Manager, a: Entries): (r: Result<seq<string>>)
    ensures r.Ok? <==> forall k :: 0 <= k < |a| ==> ToDb(codec, m, a[k].0, a[k].1).Ok?
    ensures r.Ok? ==> |r.value| == |a|
    ensures r.Ok? ==> forall k :: 0 <= k < |a| ==> r.value[k] == a[k].0 + " = " + ToDb(codec, m, a[k].0, a[k].1).value
    decreases |a|
  {
    if a == [] then Ok([])
    else
      match ToDb(codec, m, a[0].0, a[0].1)
      case Err(e) => Err(e)
      case Ok(lit) =>
        match AssignAll(codec, m, a[1..])
        case Err(e) => Err(e)
        case Ok(rest) => Ok([a[0].0 + " = " + lit] + rest)
  }

  /** Skipping while reducing is filtering first: the assignments of `data` are
      those of its assignable entries. */
  lemma {:induction false} AssignmentsFilterMap(codec: Codec, m: Manager, data: Entries)
    ensures Assignments(codec, m, data) == AssignAll(codec, m, Assignable(m, data))
    decreases |data|
  {
    if data != [] {
      AssignmentsFilterMap(codec, m, data[1..]);
      var tail := Assignable(m, data[1..]);
      if HasField(m, data[0].0) && data[0].0 != m.primaryKey {
        assert ([data[0]] + tail)[1..] == tail;
      }
    }
  }

  /** What `update` / `delete` issued (no statement at all when `update` has
      nothing to assign) and the number it returns. */
  datatype WriteOutcome = WriteOutcome(statement: Option<string>, affected: int)

  /** `update({data, where})`, given the `changes` count the database reports.
      With nothing to assign it returns 0 without building the `where` clause
      or issuing a statement. */
  function Update(codec: Codec, m: Manager, data: Entries, where: Entries, changes: Option<int>): (r: Result<WriteOutcome>)
    ensures var a := Assignable(m, data);
      a == [] ==> r == Ok(WriteOutcome(None, 0))
    ensures var a := Assignable(m, data);
      a != [] ==> (r.Ok? <==> (forall k :: 0 <= k < |a| ==> ToDb(codec, m, a[k].0, a[k].1).Ok?) && Where(codec, m, where).Ok?)
    ensures var a := Assignable(m, data);
      a != [] && r.Ok? ==>
        r.value == WriteOutcome(
          Some("UPDATE " + m.tableName + " SET " + JoinWith(AssignAll(codec, m, a).value, ",")
               + " " + Where(codec, m, where).value),
          changes.GetOr(0))
  {
    AssignmentsFilterMap(codec, m, data);
    match Assignments(codec, m, data)
    case Err(e) => Err(e)
    case Ok(updates) =>
      if |updates| == 0 then Ok(WriteOutcome(None, 0))
      else
        match Where(codec, m, where)
        case Err(e) => Err(e)
        case Ok(w) =>
          Ok(WriteOutcome(Some("UPDATE " + m.tableName + " SET " + JoinWith(updates, ",") + " " + w), changes.GetOr(0)))
  }

  lemma {:induction false} AssignableIdempotent(m: Manager, data: Entries)
    ensures Assignable(m, Assignable(m, data)) == Assignable(m, data)
    decreases |data|
  {
    if data != [] {
      AssignableIdempotent(m, data[1..]);
      var rest := Assignable(m, data[1..]);
      if HasField(m, data[0].0) && data[0].0 != m.primaryKey {
        assert ([data[0]] + rest)[1..] == rest;
      }
    }
  }

  /** Entries naming no schema field, or naming the primary key, make no
      difference to `update`: it behaves as if only the assignable entries had
      been passed. */
  lemma UpdateIgnoresSkipped(codec: Codec, m: Manager, data: Entries, where: Entries, changes: Option<int>)
    ensures Update(codec, m, data, where, changes) == Update(codec, m, Assignable(m, data), where, changes)
  {
    AssignmentsFilterMap(codec, m, data);
    AssignmentsFilterMap(codec, m, Assignable(m, data));
    AssignableIdempotent(m, data);
  }

  // ---------------------------------------------------------------------------
  // delete

  /** `delete({where})`, given the `changes` count the database reports. */
  function Delete(codec: Codec, m: Manager, where: Entries, changes: Option<int>): (r: Result<WriteOutcome>)
    ensures r.Ok? <==> forall i :: 0 <= i < |where| ==> ToDb(codec, m, where[i].0, where[i].1).Ok?
    ensures r.Ok? ==> r.value.statement.Some? && r.value.affected == changes.GetOr(0)
  {
    match Where(codec, m, where)
    case Err(e) => Err(e)
    case Ok(w) => Ok(WriteOutcome(Some("DELETE FROM " + m.tableName + " " + w), changes.GetOr(0)))
  }

  /** With an empty `where` mapping the statement has no WHERE clause, so it
      removes every row of the table; otherwise it is restricted by the
      conjuncts of the mapping. */
  lemma DeleteScope(codec: Codec, m: Manager, where: Entries, changes: Option<int>)
    ensures where == [] ==>
      Delete(codec, m, where, changes) == Ok(WriteOutcome(Some("DELETE FROM " + m.tableName + " "), changes.GetOr(0)))
    ensures where != [] && Delete(codec, m, where, changes).Ok? ==>
      Delete(codec, m, where, changes).value.statement ==
        Some("DELETE FROM " + m.tableName + " WHERE " + JoinWith(Conjuncts(codec, m, where).value, " and "))
  {
    var head := "DELETE FROM " + m.tableName + " ";
    if where == [] {
      assert head + "" == head;
    } else if Delete(codec, m, where, changes).Ok? {
      var j := JoinWith(Conjuncts(codec, m, where).value, " and ");
      assert head + ("WHERE " + j) == "DELETE FROM " + m.tableName + " WHERE " + j;
    }
  }
}
