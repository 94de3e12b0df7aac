/** Field descriptors, entity schemas and the construction of an entity
    manager (src/orm/interface.ts, `IDBField` and the `DBEntityManager`
    constructor). */
module Schema {
  import opened Base

  /** `EDBFieldTypes`. */
  datatype DbType = String | Integer | Date

  /** A custom `serializeWith` / `deserializeWith` closure; it may throw. */
  type Transform = Value -> Result<Value>

  /** `IDBField`. A foreign key is the index of the target manager in a registry
      of managers, standing for the lazy `() => DBEntityManager` accessor. */
  datatype FieldDesc = FieldDesc(
    dbType: DbType,
    isNullable: bool,
    isPrimaryKey: bool,
    foreignKey: Option<nat>,
    deserializeWith: Option<Transform>,
    serializeWith: Option<Transform>)

  /** An entity schema: its fields in the order `Object.keys` enumerates them. */
  type Schema = seq<(string, FieldDesc)>

  /** A constructed `DBEntityManager`: table name, schema and the name of its
      primary key. It is never changed after construction. */
  datatype Manager = Manager(tableName: string, entity: Schema, primaryKey: string)

  /** `Object.keys(entity)`. */
  function FieldNames(s: Schema): seq<string> {
    seq(|s|, i requires 0 <= i < |s| => s[i].0)
  }

  /** The position of `entity[field]`, if the schema has that field. */
  function FieldIndex(s: Schema, field: string): (r: Option<nat>)
    ensures r.Some? ==> r.value < |s| && s[r.value].0 == field
    ensures r.None? <==> forall i :: 0 <= i < |s| ==> s[i].0 != field
    decreases |s|
  {
    if s == [] then None
    else if s[0].0 == field then Some(0)
    else
      match FieldIndex(s[1..], field)
      case None => None
      case Some(k) => Some(k + 1)
  }

  predicate HasField(m: Manager, field: string) {
    FieldIndex(m.entity, field).Some?
  }

  function Field(m: Manager, field: string): FieldDesc
    requires HasField(m, field)
  {
    m.entity[FieldIndex(m.entity, field).value].1
  }

  // ---------------------------------------------------------------------------
  // Construction, as the constructor's loop computes it

  /** JavaScript truthiness of the loop variable `primaryKey: string | null`. */
  predicate Truthy(pk: Option<string>) {
    pk.Some? && pk.value != ""
  }

  /** One iteration of the constructor's loop over the fields. */
  function ScanStep(table: string, pk: Option<string>, name: string, fd: FieldDesc): Result<Option<string>> {
    if !fd.isPrimaryKey then Ok(pk)
    else if Truthy(pk) then Err(DuplicatePrimaryKey(table, pk.value, name))
    else if fd.isNullable then Err(NullablePrimaryKey(table, name))
    else Ok(Some(name))
  }

  /** The loop's state after the given fields. */
  function Scan(table: string, s: Schema): Result<Option<string>>
    decreases |s|
  {
    if s == [] then Ok(None)
    else
      match Scan(table, s[..|s| - 1])
      case Err(e) => Err(e)
      case Ok(pk) => ScanStep(table, pk, Last(s).0, Last(s).1)
  }

  /** What `new DBEntityManager(table, entity)` produces or throws. */
  function Construct(table: string, s: Schema): Result<Manager> {
    match Scan(table, s)
    case Err(e) => Err(e)
    case Ok(pk) => if Truthy(pk) then Ok(Manager(table, s, pk.value)) else Err(MissingPrimaryKey(table))
  }

  method NewManager(table: string, entity: Schema) returns (r: Result<Manager>)
    ensures r == Construct(table, entity)
  {
    var primaryKey: Option<string> := None;
    for i := 0 to |entity|
      invariant Scan(table, entity[..i]) == Ok(primaryKey)
    {
      var (name, fd) := entity[i];
      assert entity[..i + 1][..i] == entity[..i];
      if fd.isPrimaryKey {
        if primaryKey.Some? && primaryKey.value != "" {
          ScanStopsAtError(table, entity, i + 1);
          return Err(DuplicatePrimaryKey(table, primaryKey.value, name));
        }
        if fd.isNullable {
          ScanStopsAtError(table, entity, i + 1);
          return Err(NullablePrimaryKey(table, name));
        }
        primaryKey := Some(name);
      }
    }
    assert entity[..|entity|] == entity;
    if primaryKey.None? || primaryKey.value == "" {
      return Err(MissingPrimaryKey(table));
    }
    r := Ok(Manager(table, entity, primaryKey.value));
  }

  /** Once the loop has thrown, later fields do not matter. */
  lemma {:induction false} ScanStopsAtError(table: string, s: Schema, i: nat)
    requires i <= |s| && Scan(table, s[..i]).Err?
    ensures Scan(table, s) == Scan(table, s[..i])
    decreases |s| - i
  {
    if i < |s| {
      assert s[..i + 1][..i] == s[..i];
      ScanStopsAtError(table, s, i + 1);
    } else {
      assert s[..i] == s;
    }
  }

  // ---------------------------------------------------------------------------
  // Construction, stated without the loop

  /** The positions of the fields marked `isPrimaryKey`, in order. */
  function PrimaryKeyIndices(s: Schema): (ks: seq<nat>)
    ensures forall j :: 0 <= j < |ks| ==> ks[j] < |s| && s[ks[j]].1.isPrimaryKey
    decreases |s|
  {
    if s == [] then []
    else PrimaryKeyIndices(s[..|s| - 1]) + (if Last(s).1.isPrimaryKey then [|s| - 1] else [])
  }

  /** The list holds every primary-key position, in increasing order. */
  lemma {:induction false} PrimaryKeyIndicesExact(s: Schema)
    ensures forall i :: 0 <= i < |s| && s[i].1.isPrimaryKey ==> i in PrimaryKeyIndices(s)
    ensures forall a, b :: 0 <= a < b < |PrimaryKeyIndices(s)| ==> PrimaryKeyIndices(s)[a] < PrimaryKeyIndices(s)[b]
    decreases |s|
  {
    if s != [] {
      var init := s[..|s| - 1];
      PrimaryKeyIndicesExact(init);
      var ks0 := PrimaryKeyIndices(init);
      var ks := PrimaryKeyIndices(s);
      forall i | 0 <= i < |s| && s[i].1.isPrimaryKey ensures i in ks {
        if i < |s| - 1 {
          assert init[i] == s[i];
        }
      }
    }
  }

  predicate NonEmptyNames(s: Schema) {
    forall i :: 0 <= i < |s| ==> |s[i].0| > 0
  }

  /** A manager whose schema has exactly one primary key, named by `primaryKey`
      and not nullable. */
  predicate ValidManager(m: Manager) {
    var ks := PrimaryKeyIndices(m.entity);
    |ks| == 1 && m.entity[ks[0]].0 == m.primaryKey && !m.entity[ks[0]].1.isNullable
  }

  /** Construction decided by the primary-key fields alone: the first one must
      not be nullable, and there must be exactly one. */
  function ExpectedScan(table: string, s: Schema): Result<Option<string>> {
    ExpectedFrom(table, s, PrimaryKeyIndices(s))
  }

  /** The decision of `ExpectedScan`, given the primary-key positions `ks`. */
  function ExpectedFrom(table: string, s: Schema, ks: seq<nat>): Result<Option<string>>
    requires forall j :: 0 <= j < |ks| ==> ks[j] < |s|
  {
    if |ks| == 0 then Ok(None)
    else if s[ks[0]].1.isNullable then Err(NullablePrimaryKey(table, s[ks[0]].0))
    else if |ks| >= 2 then Err(DuplicatePrimaryKey(table, s[ks[0]].0, s[ks[1]].0))
    else Ok(Some(s[ks[0]].0))
  }

  lemma {:induction false} ScanMatchesExpected(table: string, s: Schema)
    requires NonEmptyNames(s)
    ensures Scan(table, s) == ExpectedScan(table, s)
    decreases |s|
  {
    if s != [] {
      var init := s[..|s| - 1];
      assert NonEmptyNames(init) by {
        forall i | 0 <= i < |init| ensures |init[i].0| > 0 { assert init[i] == s[i]; }
      }
      ScanMatchesExpected(table, init);
      var ks0 := PrimaryKeyIndices(init);
      assert PrimaryKeyIndices(s) == ks0 + (if Last(s).1.isPrimaryKey then [|s| - 1] else []);
      assert forall j :: 0 <= j < |ks0| ==> s[ks0[j]] == init[ks0[j]];
      ExpectedFromSnoc(table, s, ks0);
    }
  }

  /** How the expected outcome changes when one field is appended. */
  lemma ExpectedFromSnoc(table: string, s: Schema, ks0: seq<nat>)
    requires s != []
    requires forall j :: 0 <= j < |ks0| ==> ks0[j] < |s| - 1 && |s[ks0[j]].0| > 0
    requires forall j :: 0 <= j < |ks0| ==> s[ks0[j]] == s[..|s| - 1][ks0[j]]
    ensures var ks := ks0 + (if Last(s).1.isPrimaryKey then [|s| - 1] else []);
      ExpectedFrom(table, s, ks) == match ExpectedFrom(table, s[..|s| - 1], ks0)
        case Err(e) => Err(e)
        case Ok(pk) => ScanStep(table, pk, Last(s).0, Last(s).1)
  {
    var ks := ks0 + (if Last(s).1.isPrimaryKey then [|s| - 1] else []);
    if |ks0| >= 1 {
      assert ks[0] == ks0[0];
    }
    if |ks0| >= 2 {
      assert ks[1] == ks0[1];
    }
  }

  /** Construction fails with MissingPrimaryKey when no field is a primary key,
      with NullablePrimaryKey when the first primary key is nullable, with
      DuplicatePrimaryKey naming the first two primary keys when there are more,
      and otherwise succeeds with a valid manager naming the unique primary key
      (field names non-empty). */
  lemma ConstructionOutcome(table: string, s: Schema)
    requires NonEmptyNames(s)
    ensures var ks := PrimaryKeyIndices(s);
      Construct(table, s) ==
        if |ks| == 0 then Err(MissingPrimaryKey(table))
        else if s[ks[0]].1.isNullable then Err(NullablePrimaryKey(table, s[ks[0]].0))
        else if |ks| >= 2 then Err(DuplicatePrimaryKey(table, s[ks[0]].0, s[ks[1]].0))
        else Ok(Manager(table, s, s[ks[0]].0))
    ensures Construct(table, s).Ok? <==>
      |PrimaryKeyIndices(s)| == 1 && !s[PrimaryKeyIndices(s)[0]].1.isNullable
    ensures Construct(table, s).Ok? ==> ValidManager(Construct(table, s).value)
  {
    ScanMatchesExpected(table, s);
  }

  /** Because the loop tests `primaryKey` for truthiness, a primary key named ""
      is invisible to it: a schema whose only primary key is "" is rejected as
      having none, and a second primary key after it is accepted. */
  lemma EmptyNamedPrimaryKey(fd: FieldDesc)
    requires fd.isPrimaryKey && !fd.isNullable
    ensures Construct("t", [("", fd)]) == Err(MissingPrimaryKey("t"))
    ensures Construct("t", [("", fd), ("id", fd)]) == Ok(Manager("t", [("", fd), ("id", fd)], "id"))
  {
    var one := [("", fd)];
    assert one[..0] == [];
    assert Scan("t", one) == Ok(Some(""));
    var two := [("", fd), ("id", fd)];
    assert two[..1] == one;
    assert Scan("t", two) == Ok(Some("id"));
  }
}
