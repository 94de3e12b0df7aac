/** The value pipeline between application values and SQL text: `toDb` and
    `fromDb` of src/orm/interface.ts. */
module Serde {
  import opened Base
  import opened Schema

  /** The text-escaping utilities `escapeSqlString` / `unescapeSqlString`,
      whose definitions are not part of this model. Nothing is assumed about
      them. */
  datatype Codec = Codec(escape: string -> string, unescape: string -> string)

  /** `[null, undefined].includes(value)`. */
  predicate IsAbsent(v: Value) {
    v == Null || v == Undefined
  }

  /** Applies `serializeWith` when the field has one. */
  function Serialize(fd: FieldDesc, v: Value): Result<Value> {
    match fd.serializeWith
    case None => Ok(v)
    case Some(f) => f(v)
  }

  /** Applies `deserializeWith` when the field has one. */
  function Deserialize(fd: FieldDesc, v: Value): Result<Value> {
    match fd.deserializeWith
    case None => Ok(v)
    case Some(f) => f(v)
  }

  /** The runtime value a `dbType` stands for: string, number or Date. */
  predicate HasType(t: DbType, v: Value) {
    match t
    case String => v.Text?
    case Integer => v.Number?
    case Date => v.Timestamp?
  }

  /** The type-directed conversion of `toDb`: escaped text for String, `String(n)`
      for Integer and `String(d.getTime())` for Date. */
  function Literal(codec: Codec, t: DbType, field: string, w: Value): (r: Result<string>)
    ensures r.Ok? <==> HasType(t, w)
  {
    match t
    case String => if w.Text? then Ok(codec.escape(w.s)) else Err(WrongRuntimeType(field))
    case Integer => if w.Number? then Ok(DecimalString(w.n)) else Err(WrongRuntimeType(field))
    case Date => if w.Timestamp? then Ok(DecimalString(w.ms)) else Err(WrongRuntimeType(field))
  }

  /** `toDb(field, value)`: the SQL text that stands for `value` in a statement. */
  function ToDb(codec: Codec, m: Manager, field: string, v: Value): Result<string> {
    if !HasField(m, field) then Err(UnknownField(field))
    else
      var fd := Field(m, field);
      if !fd.isNullable && IsAbsent(v) then Err(NotNullable(field))
      else if IsAbsent(v) then Ok("NULL")
      else
        match Serialize(fd, v)
        case Err(e) => Err(e)
        case Ok(w) => Literal(codec, fd.dbType, field, w)
  }

  /** The type-directed conversion of `fromDb`: text is unescaped, an integer is
      kept as it is, and a Date is built from a number (or copied from a Date). */
  function ReadPrimitive(codec: Codec, t: DbType, field: string, raw: Value): Result<Value> {
    match t
    case String => if raw.Text? then Ok(Text(codec.unescape(raw.s))) else Err(WrongRuntimeType(field))
    case Integer => Ok(raw)
    case Date =>
      if raw.Number? then Ok(Timestamp(raw.n))
      else if raw.Timestamp? then Ok(raw)
      else Err(WrongRuntimeType(field))
  }

  /** `fromDb(field, value)`: the application value for a raw database value. */
  function FromDb(codec: Codec, m: Manager, field: string, raw: Value): Result<Value> {
    if raw == Null then Ok(Null)
    else if !HasField(m, field) then Err(UnknownField(field))
    else
      var fd := Field(m, field);
      match ReadPrimitive(codec, fd.dbType, field, raw)
      case Err(e) => Err(e)
      case Ok(p) => Deserialize(fd, p)
  }

  // ---------------------------------------------------------------------------
  // Properties

  /** An absent value is refused on a non-nullable field and written as exactly
      `NULL` on a nullable one; a present value is serialized and converted by
      type, and on a numeric column its literal is never `NULL`. */
  lemma ToDbCases(codec: Codec, m: Manager, field: string, v: Value)
    requires HasField(m, field)
    ensures var fd := Field(m, field);
      && (IsAbsent(v) && !fd.isNullable ==> ToDb(codec, m, field, v) == Err(NotNullable(field)))
      && (IsAbsent(v) && fd.isNullable ==> ToDb(codec, m, field, v) == Ok("NULL"))
      && (!IsAbsent(v) ==>
            (ToDb(codec, m, field, v).Ok? <==>
               Serialize(fd, v).Ok? && HasType(fd.dbType, Serialize(fd, v).value)))
      && (!IsAbsent(v) && fd.dbType != String && ToDb(codec, m, field, v).Ok? ==>
            ToDb(codec, m, field, v).value != "NULL")
  {
    var fd := Field(m, field);
    if !IsAbsent(v) && fd.dbType != String && ToDb(codec, m, field, v).Ok? {
      var w := Serialize(fd, v).value;
      var lit := ToDb(codec, m, field, v).value;
      var n := if fd.dbType == Integer then w.n else w.ms;
      assert lit == DecimalString(n);
      if n >= 0 {
        assert IsDigit(Digits(n)[0]);
      }
      assert lit[0] != "NULL"[0];
    }
  }

  /** How the database stores a literal the manager wrote: text columns through
      `storeText` (the engine's reading of an escaped literal), numeric columns
      as the integer the literal denotes. */
  function Stored(t: DbType, lit: string, storeText: string -> string): Value {
    match t
    case String => Text(storeText(lit))
    case _ =>
      match ParseDecimal(lit)
      case Some(n) => Number(n)
      case None => Text(lit)
  }

  /** `fromDb` undoes `toDb` for every present value whose field transforms are
      inverse at that value, provided unescaping undoes what the database
      stored for an escaped text. */
  lemma ToDbFromDbRoundTrip(codec: Codec, storeText: string -> string, m: Manager, field: string, v: Value)
    requires HasField(m, field) && !IsAbsent(v)
    requires var fd := Field(m, field);
      && Serialize(fd, v).Ok?
      && HasType(fd.dbType, Serialize(fd, v).value)
      && Deserialize(fd, Serialize(fd, v).value) == Ok(v)
    requires var w := Serialize(Field(m, field), v).value;
      w.Text? ==> codec.unescape(storeText(codec.escape(w.s))) == w.s
    ensures ToDb(codec, m, field, v).Ok?
    ensures FromDb(codec, m, field, Stored(Field(m, field).dbType, ToDb(codec, m, field, v).value, storeText)) == Ok(v)
  {
    var fd := Field(m, field);
    var w := Serialize(fd, v).value;
    match fd.dbType
    case String =>
    case Integer => DecimalRoundTrip(w.n);
    case Date => DecimalRoundTrip(w.ms);
  }
}
