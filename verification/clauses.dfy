/** The `WHERE` clause builder of src/orm/interface.ts (`where`). */
module Clauses {
  import opened Base
  import opened Schema
  import opened Serde

  /** `${tableName}.${field} = ${toDb(field, value)}`. */
  function Conjunct(codec: Codec, m: Manager, field: string, v: Value): Result<string> {
    match ToDb(codec, m, field, v)
    case Err(e) => Err(e)
    case Ok(lit) => Ok(Qualify(m.tableName, field) + " = " + lit)
  }

  /** Entry `i` is the first whose value `toDb` refuses, with error `e`. */
  predicate FirstFailure(codec: Codec, m: Manager, w: Entries, i: int, e: DbError) {
    && 0 <= i < |w|
    && ToDb(codec, m, w[i].0, w[i].1) == Err(e)
    && forall j :: 0 <= j < i ==> ToDb(codec, m, w[j].0, w[j].1).Ok?
  }

  /** `entries.map(...)`: one conjunct per entry, in entry order; the first entry
      whose value cannot be written throws. */
  function Conjuncts(codec: Codec, m: Manager, w: Entries): (r: Result<seq<string>>)
    ensures r.Ok? <==> forall i :: 0 <= i < |w| ==> ToDb(codec, m, w[i].0, w[i].1).Ok?
    ensures r.Ok? ==> |r.value| == |w|
    ensures r.Ok? ==> forall i :: 0 <= i < |w| ==>
      r.value[i] == Qualify(m.tableName, w[i].0) + " = " + ToDb(codec, m, w[i].0, w[i].1).value
    ensures r.Err? ==> exists i :: FirstFailure(codec, m, w, i, r.error)
    decreases |w|
  {
    if w == [] then Ok([])
    else
      match Conjunct(codec, m, w[0].0, w[0].1)
      case Err(e) =>
        assert FirstFailure(codec, m, w, 0, e);
        Err(e)
      case Ok(c) =>
        match Conjuncts(codec, m, w[1..])
        case Err(e) =>
          assert exists i :: FirstFailure(codec, m, w, i, e) by {
            var i :| FirstFailure(codec, m, w[1..], i, e);
            assert FirstFailure(codec, m, w, i + 1, e);
          }
          Err(e)
        case Ok(cs) => Ok([c] + cs)
  }

  /** `where(where)`: empty for an empty mapping, otherwise `WHERE ` and the
      conjuncts joined by ` and `. */
  function Where(codec: Codec, m: Manager, w: Entries): (r: Result<string>)
    ensures |w| == 0 ==> r == Ok("")
    ensures r.Ok? <==> forall i :: 0 <= i < |w| ==> ToDb(codec, m, w[i].0, w[i].1).Ok?
    ensures r.Err? ==> exists i :: FirstFailure(codec, m, w, i, r.error)
    ensures r.Ok? && |w| > 0 ==> r.value == "WHERE " + JoinWith(Conjuncts(codec, m, w).value, " and ")
  {
    if |w| == 0 then Ok("")
    else
      match Conjuncts(codec, m, w)
      case Err(e) => Err(e)
      case Ok(cs) => Ok("WHERE " + JoinWith(cs, " and "))
  }
}
