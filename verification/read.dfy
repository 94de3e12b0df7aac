/** `getAll` of src/orm/interface.ts: the column list, the `SELECT` statement,
    and the assembly of each returned row into a result tree. */
module Read {
  import opened Base
  import opened Schema
  import opened Serde
  import opened Clauses
  import opened JoinGraph

  /** `GetAll`: an optional field subset, an optional `where` mapping (as its
      entries), an optional `limit` and an optional `join` mapping. */
  datatype GetAllProps = GetAllProps(fields: Option<seq<string>>, where: Option<Entries>, limit: Option<int>, join: Nested)

  // ---------------------------------------------------------------------------
  // The column list

  /** `table.f` for every field `f`, in order. */
  function Qualified(table: string, fields: seq<string>): (r: seq<string>)
    ensures |r| == |fields|
    ensures forall i :: 0 <= i < |fields| ==> r[i] == Qualify(table, fields[i])
  {
    seq(|fields|, i requires 0 <= i < |fields| => Qualify(table, fields[i]))
  }

  /** The root table's columns: the requested fields, or all of its fields. */
  function RootColumns(m: Manager, fields: Option<seq<string>>): seq<string> {
    Qualified(m.tableName, fields.GetOr(FieldNames(m.entity)))
  }

  /** The joined tables' columns, descriptor by descriptor. */
  function SelectColumns(sels: seq<SelectDesc>): seq<string>
    decreases |sels|
  {
    if sels == [] then [] else SelectColumns(sels[..|sels| - 1]) + Qualified(Last(sels).tableName, Last(sels).fields)
  }

  predicate NoDup<T(==)>(s: seq<T>) {
    forall i, j :: 0 <= i < j < |s| ==> s[i] != s[j]
  }

  /** `Set.prototype.add` on a set kept in insertion order. */
  function Insert(d: seq<string>, x: string): seq<string> {
    if x in d then d else d + [x]
  }

  /** The insertion-ordered contents of a `Set` built from `s`: every element
      once, at its first occurrence. */
  function Dedup(s: seq<string>): (r: seq<string>)
    ensures NoDup(r)
    ensures forall x :: x in r <==> x in s
    decreases |s|
  {
    if s == [] then []
    else
      var d := Dedup(s[..|s| - 1]);
      assert forall x :: x in s <==> x in s[..|s| - 1] || x == Last(s) by {
        assert s == s[..|s| - 1] + [Last(s)];
      }
      Insert(d, Last(s))
  }

  lemma DedupSnoc(s: seq<string>, x: string)
    ensures Dedup(s + [x]) == Insert(Dedup(s), x)
  {
    assert (s + [x])[..|s|] == s;
  }

  /** A `Set` built from `a` and then added to keeps `a`'s distinct elements
      first, in their order: the root table's columns lead the `SELECT` list,
      whether or not the requested fields repeat a name. */
  lemma {:induction false} DedupKeepsPrefix(a: seq<string>, b: seq<string>)
    ensures |Dedup(a + b)| >= |Dedup(a)| && Dedup(a + b)[..|Dedup(a)|] == Dedup(a)
    decreases |b|
  {
    if b == [] {
      assert a + b == a;
    } else {
      var b' := b[..|b| - 1];
      DedupKeepsPrefix(a, b');
      assert a + b == (a + b') + [Last(b)];
      DedupSnoc(a + b', Last(b));
    }
  }

  lemma {:induction false} DedupOfDistinct(a: seq<string>)
    requires NoDup(a)
    ensures Dedup(a) == a
    decreases |a|
  {
    if a != [] {
      var a' := a[..|a| - 1];
      assert NoDup(a');
      DedupOfDistinct(a');
      assert Last(a) !in a' by {
        forall i | 0 <= i < |a'| ensures a'[i] != Last(a) { assert a'[i] == a[i]; }
      }
      assert a' + [Last(a)] == a;
    }
  }

  /** The `fields` set of `getAll`: the root columns, then every descriptor's
      columns, each column once. */
  method SelectList(m: Manager, fields: Option<seq<string>>, sels: seq<SelectDesc>) returns (cols: seq<string>)
    ensures cols == Dedup(RootColumns(m, fields) + SelectColumns(sels))
    ensures |cols| >= |Dedup(RootColumns(m, fields))|
    ensures cols[..|Dedup(RootColumns(m, fields))|] == Dedup(RootColumns(m, fields))
    ensures NoDup(RootColumns(m, fields)) ==>
      |cols| >= |RootColumns(m, fields)| && cols[..|RootColumns(m, fields)|] == RootColumns(m, fields)
  {
    var root := RootColumns(m, fields);
    cols := [];
    for i := 0 to |root|
      invariant cols == Dedup(root[..i])
    {
      AddColumn(root[..i], root[i]);
      assert root[..i + 1] == root[..i] + [root[i]];
      if root[i] !in cols {
        cols := cols + [root[i]];
      }
    }
    assert root[..|root|] == root + SelectColumns(sels[..0]);
    for k := 0 to |sels|
      invariant cols == Dedup(root + SelectColumns(sels[..k]))
    {
      cols := AddTableColumns(root + SelectColumns(sels[..k]), cols, sels[k].tableName, sels[k].fields);
      SelectColumnsStep(root, sels, k);
    }
    assert sels[..|sels|] == sels;
    DedupKeepsPrefix(root, SelectColumns(sels));
    if NoDup(root) {
      DedupOfDistinct(root);
    }
  }

  /** The inner loop: every field of one descriptor, qualified by its table,
      added to the set built so far. */
  method AddTableColumns(ghost before: seq<string>, cols0: seq<string>, table: string, fs: seq<string>)
    returns (cols: seq<string>)
    requires cols0 == Dedup(before)
    ensures cols == Dedup(before + Qualified(table, fs))
  {
    cols := cols0;
    assert before + Qualified(table, fs[..0]) == before;
    for j := 0 to |fs|
      invariant cols == Dedup(before + Qualified(table, fs[..j]))
    {
      var c := Qualify(table, fs[j]);
      AddQualified(before, table, fs, j);
      if c !in cols {
        cols := cols + [c];
      }
    }
    assert fs[..|fs|] == fs;
  }

  /** Adding a column to the set built so far. */
  lemma AddColumn(s: seq<string>, c: string)
    ensures Dedup(s + [c]) == if c in Dedup(s) then Dedup(s) else Dedup(s) + [c]
  {
    DedupSnoc(s, c);
  }

  lemma AddQualified(before: seq<string>, table: string, fs: seq<string>, j: nat)
    requires j < |fs|
    ensures var c := Qualify(table, fs[j]);
      var d := Dedup(before + Qualified(table, fs[..j]));
      Dedup(before + Qualified(table, fs[..j + 1])) == if c in d then d else d + [c]
  {
    var c := Qualify(table, fs[j]);
    assert Qualified(table, fs[..j + 1]) == Qualified(table, fs[..j]) + [c];
    assert before + Qualified(table, fs[..j + 1]) == before + Qualified(table, fs[..j]) + [c];
    AddColumn(before + Qualified(table, fs[..j]), c);
  }

  lemma SelectColumnsStep(root: seq<string>, sels: seq<SelectDesc>, k: nat)
    requires k < |sels|
    ensures root + SelectColumns(sels[..k + 1])
         == root + SelectColumns(sels[..k]) + Qualified(sels[k].tableName, sels[k].fields)
  {
    assert sels[..k + 1][..k] == sels[..k];
  }

  // ---------------------------------------------------------------------------
  // The statement

  /** `props.limit ? \`LIMIT ${props.limit}\` : ""`: a zero limit is falsy and
      asks for no limit. The number after `LIMIT ` reads back as the limit. */
  function LimitClause(limit: Option<int>): (r: string)
    ensures r != "" <==> limit.Some? && limit.value != 0
    ensures r != "" ==> |r| > 6 && r[..6] == "LIMIT " && ParseDecimal(r[6..]) == Some(limit.value)
  {
    if limit.Some? && limit.value != 0 then
      var n := limit.value;
      DecimalRoundTrip(n);
      var r := "LIMIT " + DecimalString(n);
      assert r[6..] == DecimalString(n);
      assert r[..6] == "LIMIT ";
      r
    else ""
  }

  /** The `SELECT` statement `getAll` sends. */
  function SelectQuery(m: Manager, cols: seq<string>, joins: seq<string>, whereClause: string, limit: Option<int>): string {
    "SELECT " + JoinWith(cols, ",") + " FROM " + m.tableName + " " + JoinWith(joins, " ")
      + " " + whereClause + " " + LimitClause(limit)
  }

  // ---------------------------------------------------------------------------
  // Rows

  /** The per-row `entities` object: one record per table name. */
  type Entities = map<string, Record>

  /** A slot of a `joined` object: a node `{current, joined}` created on the
      way down a path, or a record stored by `j.current = ...`. The node's own
      `current` is the value it was created with; nothing assigns it. */
  datatype Slot = Node(current: Option<Record>, joined: map<string, Slot>) | Stored(record: Record)

  type Joined = map<string, Slot>

  datatype RowResult = RowResult(current: Record, joined: Joined)

  function SelectTables(sels: seq<SelectDesc>): set<string> {
    set k | 0 <= k < |sels| :: sels[k].tableName
  }

  /** `entities` before the row is read: an empty record for the root table and
      for every joined table. */
  function InitEntities(table: string, sels: seq<SelectDesc>): (r: Entities)
    ensures r.Keys == {table} + SelectTables(sels)
    ensures forall t :: t in r ==> r[t] == map[]
    decreases |sels|
  {
    if sels == [] then map[table := map[]]
    else
      var init := sels[..|sels| - 1];
      assert SelectTables(sels) == SelectTables(init) + {Last(sels).tableName} by {
        forall t | t in SelectTables(sels) ensures t in SelectTables(init) + {Last(sels).tableName} {
          var k :| 0 <= k < |sels| && sels[k].tableName == t;
          if k < |init| { assert init[k] == sels[k]; }
        }
        forall t | t in SelectTables(init) ensures t in SelectTables(sels) {
          var k :| 0 <= k < |init| && init[k].tableName == t;
          assert sels[k] == init[k];
        }
      }
      InitEntities(table, init)[Last(sels).tableName := map[]]
  }

  /** `entities[table][field] = value` for every column `table.field` of the
      row, in order; a column whose table has no record throws. */
  function SplitRow(ents: Entities, row: Entries): (r: Result<Entities>)
    ensures r.Ok? <==> forall i :: 0 <= i < |row| ==> SplitKey(row[i].0).0 in ents
    ensures r.Ok? ==> r.value.Keys == ents.Keys
    decreases |row|
  {
    if row == [] then Ok(ents)
    else
      match SplitRow(ents, row[..|row| - 1])
      case Err(e) =>
        assert forall i :: 0 <= i < |row| - 1 ==> row[..|row| - 1][i] == row[i];
        Err(e)
      case Ok(es) =>
        var (t, f) := SplitKey(Last(row).0);
        if t in es then Ok(es[t := es[t][f := Last(row).1]]) else Err(UnroutedColumn(t))
  }

  /** One more column: its value lands in its table's record. */
  lemma SplitRowSnoc(ents: Entities, row: Entries)
    requires row != [] && SplitRow(ents, row).Ok?
    ensures var (t, f) := SplitKey(Last(row).0);
      var r0 := SplitRow(ents, row[..|row| - 1]);
      && r0.Ok? && t in r0.value
      && SplitRow(ents, row).value == r0.value[t := r0.value[t][f := Last(row).1]]
  {
  }

  /** Row splitting writes each column's value into its table's record: the
      last column naming a `(table, field)` pair decides its value. */
  lemma {:induction false} SplitRowLastWrite(ents: Entities, row: Entries, i: nat)
    requires SplitRow(ents, row).Ok? && i < |row|
    requires forall j :: i < j < |row| ==> SplitKey(row[j].0) != SplitKey(row[i].0)
    ensures var (t, f) := SplitKey(row[i].0);
      t in SplitRow(ents, row).value && f in SplitRow(ents, row).value[t]
      && SplitRow(ents, row).value[t][f] == row[i].1
    decreases |row|
  {
    var init := row[..|row| - 1];
    SplitRowSnoc(ents, row);
    if i < |row| - 1 {
      assert init[i] == row[i];
      forall j | i < j < |init| ensures SplitKey(init[j].0) != SplitKey(init[i].0) {
        assert init[j] == row[j];
      }
      SplitRowLastWrite(ents, init, i);
    }
  }

  /** A `(table, field)` pair that no column names keeps what the record had. */
  lemma {:induction false} SplitRowUntouched(ents: Entities, row: Entries, t: string, f: string)
    requires SplitRow(ents, row).Ok? && t in ents
    requires forall i :: 0 <= i < |row| ==> SplitKey(row[i].0) != (t, f)
    ensures var r := SplitRow(ents, row).value;
      (f in r[t] <==> f in ents[t]) && (f in ents[t] ==> r[t][f] == ents[t][f])
    decreases |row|
  {
    if row != [] {
      var init := row[..|row| - 1];
      SplitRowSnoc(ents, row);
      forall i | 0 <= i < |init| ensures SplitKey(init[i].0) != (t, f) {
        assert init[i] == row[i];
      }
      SplitRowUntouched(ents, init, t, f);
    }
  }

  /** Walks `path` down from `j`, creating a node `{current: undefined,
      joined: {}}` where none is, and stores `rec` under the key "current" of
      the innermost `joined` object. Stepping into a stored record throws. */
  function Place(j: Joined, path: seq<string>, rec: Record): Result<Joined>
    decreases |path|
  {
    if path == [] then Ok(j["current" := Stored(rec)])
    else
      var p := path[0];
      match if p in j then j[p] else Node(None, map[])
      case Stored(_) => Err(NotANode(p))
      case Node(cur, sub) =>
        match Place(sub, path[1..], rec)
        case Err(e) => Err(e)
        case Ok(sub') => Ok(j[p := Node(cur, sub')])
  }

  /** The `joined` object after the given descriptors. */
  function BuildJoined(sels: seq<SelectDesc>, ents: Entities): Result<Joined>
    requires forall k :: 0 <= k < |sels| ==> sels[k].tableName in ents
    decreases |sels|
  {
    if sels == [] then Ok(map[])
    else
      match BuildJoined(sels[..|sels| - 1], ents)
      case Err(e) => Err(e)
      case Ok(j) => Place(j, Last(sels).joinedPath, ents[Last(sels).tableName])
  }

  /** What the callback of `results.map` returns for one row. */
  function RowOf(table: string, sels: seq<SelectDesc>, row: Entries): Result<RowResult> {
    match SplitRow(InitEntities(table, sels), row)
    case Err(e) => Err(e)
    case Ok(ents) =>
      match BuildJoined(sels, ents)
      case Err(e) => Err(e)
      case Ok(j) => Ok(RowResult(ents[table], j))
  }

  /** The callback of `results.map`: the row's `entities`, then its `joined`
      tree. */
  method AssembleRow(table: string, sels: seq<SelectDesc>, row: Entries) returns (r: Result<RowResult>)
    ensures r == RowOf(table, sels, row)
  {
    var entities := NewEntities(table, sels);
    var split := ReadColumns(entities, row);
    if split.Err? {
      return Err(split.error);
    }
    entities := split.value;
    var joined := NestRecords(sels, entities);
    if joined.Err? {
      return Err(joined.error);
    }
    r := Ok(RowResult(entities[table], joined.value));
  }

  method NewEntities(table: string, sels: seq<SelectDesc>) returns (entities: Entities)
    ensures entities == InitEntities(table, sels)
  {
    entities := map[table := map[]];
    for k := 0 to |sels|
      invariant entities == InitEntities(table, sels[..k])
    {
      assert sels[..k + 1][..k] == sels[..k];
      entities := entities[sels[k].tableName := map[]];
    }
    assert sels[..|sels|] == sels;
  }

  method ReadColumns(init: Entities, row: Entries) returns (r: Result<Entities>)
    ensures r == SplitRow(init, row)
  {
    var entities := init;
    for i := 0 to |row|
      invariant SplitRow(init, row[..i]) == Ok(entities)
    {
      var (key, value) := row[i];
      var (t, f) := SplitKey(key);
      SplitRowStep(init, row, i);
      if t !in entities {
        SplitRowStopsAtError(init, row, i + 1);
        return Err(UnroutedColumn(t));
      }
      entities := entities[t := entities[t][f := value]];
    }
    assert row[..|row|] == row;
    r := Ok(entities);
  }

  method NestRecords(sels: seq<SelectDesc>, entities: Entities) returns (r: Result<Joined>)
    requires forall k :: 0 <= k < |sels| ==> sels[k].tableName in entities
    ensures r == BuildJoined(sels, entities)
  {
    var joined: Joined := map[];
    for k := 0 to |sels|
      invariant BuildJoined(sels[..k], entities) == Ok(joined)
    {
      BuildJoinedStep(sels, entities, k);
      var next := Place(joined, sels[k].joinedPath, entities[sels[k].tableName]);
      if next.Err? {
        BuildJoinedStopsAtError(sels, entities, k + 1);
        return Err(next.error);
      }
      joined := next.value;
    }
    assert sels[..|sels|] == sels;
    r := Ok(joined);
  }

  lemma SplitRowStep(ents: Entities, row: Entries, i: nat)
    requires i < |row|
    ensures SplitRow(ents, row[..i + 1]) == match SplitRow(ents, row[..i])
      case Err(e) => Err(e)
      case Ok(es) =>
        var (t, f) := SplitKey(row[i].0);
        if t in es then Ok(es[t := es[t][f := row[i].1]]) else Err(UnroutedColumn(t))
  {
    assert row[..i + 1][..i] == row[..i];
  }

  lemma BuildJoinedStep(sels: seq<SelectDesc>, ents: Entities, k: nat)
    requires forall k :: 0 <= k < |sels| ==> sels[k].tableName in ents
    requires k < |sels|
    ensures BuildJoined(sels[..k + 1], ents) == match BuildJoined(sels[..k], ents)
      case Err(e) => Err(e)
      case Ok(j) => Place(j, sels[k].joinedPath, ents[sels[k].tableName])
  {
    assert sels[..k + 1][..k] == sels[..k];
  }

  lemma {:induction false} SplitRowStopsAtError(ents: Entities, row: Entries, i: nat)
    requires i <= |row| && SplitRow(ents, row[..i]).Err?
    ensures SplitRow(ents, row) == SplitRow(ents, row[..i])
    decreases |row| - i
  {
    if i < |row| {
      assert row[..i + 1][..i] == row[..i];
      SplitRowStopsAtError(ents, row, i + 1);
    } else {
      assert row[..i] == row;
    }
  }

  lemma {:induction false} BuildJoinedStopsAtError(sels: seq<SelectDesc>, ents: Entities, i: nat)
    requires forall k :: 0 <= k < |sels| ==> sels[k].tableName in ents
    requires i <= |sels| && BuildJoined(sels[..i], ents).Err?
    ensures BuildJoined(sels, ents) == BuildJoined(sels[..i], ents)
    decreases |sels| - i
  {
    if i < |sels| {
      assert sels[..i + 1][..i] == sels[..i];
      BuildJoinedStopsAtError(sels, ents, i + 1);
    } else {
      assert sels[..i] == sels;
    }
  }

  // ---------------------------------------------------------------------------
  // The shape of the result tree

  /** Stored records sit exactly under the key "current", and every node keeps
      the `current: undefined` it was created with. */
  predicate GoodSlot(s: Slot) {
    match s
    case Stored(_) => true
    case Node(cur, j) => cur == None && forall k :: k in j ==> (k == "current" <==> j[k].Stored?) && GoodSlot(j[k])
  }

  predicate GoodJoined(j: Joined) {
    GoodSlot(Node(None, j))
  }

  /** The record found by following `q` through nodes and then the key
      "current". */
  function Lookup(j: Joined, q: seq<string>): Option<Record>
    decreases |q|
  {
    if q == [] then
      if "current" in j && j["current"].Stored? then Some(j["current"].record) else None
    else if q[0] in j && j[q[0]].Node? then Lookup(j[q[0]].joined, q[1..])
    else None
  }

  /** Placing a record along a path without a "current" segment succeeds, keeps
      the tree's shape, puts the record at that path and changes nothing found
      along any other path. */
  lemma {:induction false} PlaceFrame(j: Joined, path: seq<string>, rec: Record)
    requires GoodJoined(j) && "current" !in path
    ensures Place(j, path, rec).Ok?
    ensures GoodJoined(Place(j, path, rec).value)
    ensures forall q :: Lookup(Place(j, path, rec).value, q) == if q == path then Some(rec) else Lookup(j, q)
    decreases |path|
  {
    if path == [] {
      var j' := Place(j, path, rec).value;
      forall q ensures Lookup(j', q) == if q == path then Some(rec) else Lookup(j, q) {
        if q != [] && q[0] == "current" {
          assert j'[q[0]].Stored?;
        }
      }
    } else {
      var p := path[0];
      var slot := if p in j then j[p] else Node(None, map[]);
      SubtreeGood(j, p);
      PlaceFrame(slot.joined, path[1..], rec);
      var sub' := Place(slot.joined, path[1..], rec).value;
      var j' := Place(j, path, rec).value;
      assert j' == j[p := Node(None, sub')];
      forall q ensures Lookup(j', q) == if q == path then Some(rec) else Lookup(j, q) {
        if q != [] && q[0] == p {
          assert q == path <==> q[1..] == path[1..] by {
            if q[1..] == path[1..] { assert q == [p] + q[1..] && path == [p] + path[1..]; }
          }
          if p !in j {
            LookupEmpty(q[1..]);
          }
        }
      }
      assert GoodJoined(j') by {
        assert GoodSlot(Node(None, sub'));
      }
    }
  }

  /** Below a key other than "current", a good tree holds a good node. */
  lemma SubtreeGood(j: Joined, p: string)
    requires GoodJoined(j) && p != "current"
    ensures var slot := if p in j then j[p] else Node(None, map[]);
      slot.Node? && slot.current == None && GoodJoined(slot.joined)
  {
    if p in j {
      assert GoodSlot(j[p]);
    }
  }

  lemma LookupEmpty(q: seq<string>)
    ensures Lookup(map[], q) == None
  {
  }

  /** The record of the last descriptor with path `q`, if any. */
  function LastRecord(sels: seq<SelectDesc>, ents: Entities, q: seq<string>): Option<Record>
    requires forall k :: 0 <= k < |sels| ==> sels[k].tableName in ents
    decreases |sels|
  {
    if sels == [] then None
    else if Last(sels).joinedPath == q then Some(ents[Last(sels).tableName])
    else LastRecord(sels[..|sels| - 1], ents, q)
  }

  lemma {:induction false} BuildJoinedLookup(sels: seq<SelectDesc>, ents: Entities)
    requires forall k :: 0 <= k < |sels| ==> sels[k].tableName in ents
    requires forall k :: 0 <= k < |sels| ==> "current" !in sels[k].joinedPath
    ensures BuildJoined(sels, ents).Ok?
    ensures GoodJoined(BuildJoined(sels, ents).value)
    ensures forall q :: Lookup(BuildJoined(sels, ents).value, q) == LastRecord(sels, ents, q)
    decreases |sels|
  {
    if sels == [] {
      forall q ensures Lookup(map[], q) == None { LookupEmpty(q); }
    } else {
      var init := sels[..|sels| - 1];
      BuildJoinedLookup(init, ents);
      PlaceFrame(BuildJoined(init, ents).value, Last(sels).joinedPath, ents[Last(sels).tableName]);
    }
  }

  lemma {:induction false} LastRecordNone(sels: seq<SelectDesc>, ents: Entities, q: seq<string>)
    requires forall k :: 0 <= k < |sels| ==> sels[k].tableName in ents
    requires forall k :: 0 <= k < |sels| ==> sels[k].joinedPath != q
    ensures LastRecord(sels, ents, q) == None
    decreases |sels|
  {
    if sels != [] {
      var init := sels[..|sels| - 1];
      assert Last(sels).joinedPath != q;
      forall k | 0 <= k < |init| ensures init[k].joinedPath != q { assert init[k] == sels[k]; }
      LastRecordNone(init, ents, q);
    }
  }

  lemma {:induction false} LastRecordFound(sels: seq<SelectDesc>, ents: Entities, k: nat)
    requires forall k :: 0 <= k < |sels| ==> sels[k].tableName in ents
    requires k < |sels| && forall k' :: k < k' < |sels| ==> sels[k'].joinedPath != sels[k].joinedPath
    ensures LastRecord(sels, ents, sels[k].joinedPath) == Some(ents[sels[k].tableName])
    decreases |sels|
  {
    var init := sels[..|sels| - 1];
    if k < |init| {
      assert init[k] == sels[k];
      assert Last(sels).joinedPath != sels[k].joinedPath;
      forall k' | k < k' < |init| ensures init[k'].joinedPath != init[k].joinedPath { assert init[k'] == sels[k']; }
      LastRecordFound(init, ents, k);
    }
  }

  /** When no descriptor's path has a "current" segment, the tree is built; a
      path no descriptor has leads to no record; and the last descriptor with a
      given path finds its table's record there. Nodes never hold a record in
      their own `current`. */
  lemma JoinedHoldsRecords(sels: seq<SelectDesc>, ents: Entities)
    requires forall k :: 0 <= k < |sels| ==> sels[k].tableName in ents
    requires forall k :: 0 <= k < |sels| ==> "current" !in sels[k].joinedPath
    ensures BuildJoined(sels, ents).Ok?
    ensures GoodJoined(BuildJoined(sels, ents).value)
    ensures forall q :: (forall k :: 0 <= k < |sels| ==> sels[k].joinedPath != q) ==>
      Lookup(BuildJoined(sels, ents).value, q) == None
    ensures forall k :: 0 <= k < |sels| && (forall k' :: k < k' < |sels| ==> sels[k'].joinedPath != sels[k].joinedPath) ==>
      Lookup(BuildJoined(sels, ents).value, sels[k].joinedPath) == Some(ents[sels[k].tableName])
  {
    BuildJoinedLookup(sels, ents);
    forall q | (forall k :: 0 <= k < |sels| ==> sels[k].joinedPath != q)
      ensures Lookup(BuildJoined(sels, ents).value, q) == None
    {
      LastRecordNone(sels, ents, q);
    }
    forall k | 0 <= k < |sels| && (forall k' :: k < k' < |sels| ==> sels[k'].joinedPath != sels[k].joinedPath)
      ensures Lookup(BuildJoined(sels, ents).value, sels[k].joinedPath) == Some(ents[sels[k].tableName])
    {
      LastRecordFound(sels, ents, k);
    }
  }

  /** The records end up in the nested `joined` objects under "current", so a
      nested join through a foreign key named "current" walks into a stored
      record and throws. */
  lemma CurrentKeyThrows(ents: Entities, t: string, a: string, fs: seq<string>)
    requires t in ents
    ensures BuildJoined([SelectDesc(t, [a], fs), SelectDesc(t, [a, "current"], fs)], ents) == Err(NotANode("current"))
  {
    var sels := [SelectDesc(t, [a], fs), SelectDesc(t, [a, "current"], fs)];
    assert sels[..1][..0] == [];
    var j1 := map[a := Node(None, map["current" := Stored(ents[t])])];
    assert Place(map[], [a], ents[t]) == Ok(j1) by {
      assert [a][1..] == [];
    }
    assert BuildJoined(sels[..1], ents) == Ok(j1);
    assert sels[..|sels| - 1] == sels[..1];
    assert [a, "current"][1..] == ["current"];
    assert Place(map["current" := Stored(ents[t])], ["current"], ents[t]) == Err(NotANode("current"));
    assert Place(j1, [a, "current"], ents[t]) == Err(NotANode("current"));
  }

  /** A row whose every column names a table of the query, with no descriptor
      path through a key "current", gives the root table's record as `current`
      and each joined table's record at its path. */
  lemma RowAssembled(table: string, sels: seq<SelectDesc>, row: Entries)
    requires forall i :: 0 <= i < |row| ==> SplitKey(row[i].0).0 in {table} + SelectTables(sels)
    requires forall k :: 0 <= k < |sels| ==> "current" !in sels[k].joinedPath
    ensures var ents := SplitRow(InitEntities(table, sels), row);
      && ents.Ok?
      && RowOf(table, sels, row).Ok?
      && RowOf(table, sels, row).value.current == ents.value[table]
      && GoodJoined(RowOf(table, sels, row).value.joined)
      && forall k :: 0 <= k < |sels| && (forall k' :: k < k' < |sels| ==> sels[k'].joinedPath != sels[k].joinedPath) ==>
           Lookup(RowOf(table, sels, row).value.joined, sels[k].joinedPath) == Some(ents.value[sels[k].tableName])
  {
    var ents := SplitRow(InitEntities(table, sels), row).value;
    assert forall k :: 0 <= k < |sels| ==> sels[k].tableName in SelectTables(sels);
    JoinedHoldsRecords(sels, ents);
  }

  // ---------------------------------------------------------------------------
  // getAll

  datatype GetAllOutcome = GetAllOutcome(query: string, results: seq<RowResult>)

  /** The statement selects the combined column list of the root table and the
      traversal's descriptors from the root table and its joins, and each row
      is assembled against the descriptors. */
  ghost predicate Answers(codec: Codec, m: Manager, props: GetAllProps, rows: seq<Entries>, t: Traversal, out: GetAllOutcome)
    requires Where(codec, m, props.where.GetOr([])).Ok?
  {
    && out.query == SelectQuery(m, Dedup(RootColumns(m, props.fields) + SelectColumns(t.selects)), t.joins,
                                Where(codec, m, props.where.GetOr([])).value, props.limit)
    && |out.results| == |rows|
    && forall i :: 0 <= i < |rows| ==> RowOf(m.tableName, t.selects, rows[i]) == Ok(out.results[i])
  }

  /** `getAll(props)`, given the rows the database returns for the statement.
      The traversal `t` is computed first and its failure throws before the
      `where` clause is built; once the traversal and the `where` clause are
      built, `getAll` succeeds exactly when every row can be assembled against
      the traversal's descriptors, and then the statement selects the combined
      column list from the root table and its joins and each row is assembled. */
  method GetAll(reg: seq<Manager>, codec: Codec, m: Manager, props: GetAllProps, rows: seq<Entries>)
    returns (r: Result<GetAllOutcome>, ghost t: Traversal)
    ensures !AllResolve(reg, m, props.join) ==> r.Err?
    ensures AllResolve(reg, m, props.join) ==> Traverses(reg, m, props.join, t)
    ensures AllResolve(reg, m, props.join) && Where(codec, m, props.where.GetOr([])).Err? ==>
      r == Err(Where(codec, m, props.where.GetOr([])).error)
    ensures AllResolve(reg, m, props.join) && Where(codec, m, props.where.GetOr([])).Ok? ==>
      (r.Ok? <==> forall i :: 0 <= i < |rows| ==> RowOf(m.tableName, t.selects, rows[i]).Ok?)
    ensures r.Ok? ==> Where(codec, m, props.where.GetOr([])).Ok? && |r.value.results| == |rows|
    ensures r.Ok? ==> Answers(codec, m, props, rows, t, r.value)
  {
    var joinInfo := Join(reg, m, props.join);
    if joinInfo.Err? {
      return Err(joinInfo.error), Traversal([], []);
    }
    var trav := joinInfo.value;
    t := trav;
    var fields := SelectList(m, props.fields, trav.selects);
    var where := Where(codec, m, props.where.GetOr([]));
    if where.Err? {
      return Err(where.error), t;
    }
    var query := SelectQuery(m, fields, trav.joins, where.value, props.limit);
    var results := AssembleRows(m.tableName, trav.selects, rows);
    if results.Err? {
      return Err(results.error), t;
    }
    r := Ok(GetAllOutcome(query, results.value));
  }

  /** `results.map(...)`: every row assembled, in order; the first row that
      cannot be assembled throws. */
  method AssembleRows(table: string, sels: seq<SelectDesc>, rows: seq<Entries>) returns (r: Result<seq<RowResult>>)
    ensures r.Ok? <==> forall i :: 0 <= i < |rows| ==> RowOf(table, sels, rows[i]).Ok?
    ensures r.Ok? ==> |r.value| == |rows| && forall i :: 0 <= i < |rows| ==> RowOf(table, sels, rows[i]) == Ok(r.value[i])
  {
    var results: seq<RowResult> := [];
    for i := 0 to |rows|
      invariant |results| == i
      invariant forall n :: 0 <= n < i ==> RowOf(table, sels, rows[n]) == Ok(results[n])
    {
      var row := AssembleRow(table, sels, rows[i]);
      if row.Err? {
        return Err(row.error);
      }
      results := results + [row.value];
    }
    r := Ok(results);
  }
}
