/** Values, errors and the small string operations (Number to text, Array.join,
    String.split) that the entity manager relies on. */
module Base {

  datatype Option<+T> = None | Some(value: T) {
    /** The `??` operator: the value when present, otherwise the default. */
    function GetOr(default: T): T {
      match this
      case Some(v) => v
      case None => default
    }
  }

  /** A JavaScript value as it reaches or leaves the entity manager. Numbers are
      integral; a Date is represented by its getTime() in milliseconds. */
  datatype Value =
    | Null
    | Undefined
    | Text(s: string)
    | Number(n: int)
    | Timestamp(ms: int)

  /** Everything the entity manager can throw. */
  datatype DbError =
    | DuplicatePrimaryKey(table: string, first: string, second: string)
    | NullablePrimaryKey(table: string, field: string)
    | MissingPrimaryKey(table: string)
    | NotNullable(field: string)
    | UnknownField(field: string)        // `entity[field]` is undefined
    | NotForeignKey(field: string)       // `foreignKey!()` on a field without one
    | WrongRuntimeType(field: string)    // a value the TypeScript types rule out
    | Thrown(message: string)            // raised by a custom serializeWith / deserializeWith
    | UnroutedColumn(table: string)      // a row column whose table has no record
    | NotANode(segment: string)          // a join path steps into a stored record
    | NoEchoRecord(index: nat)           // more rows came back than records were sent

  datatype Result<+T> = Ok(value: T) | Err(error: DbError)

  /** A plain object of column values; the key order of objects is not modelled. */
  type Record = map<string, Value>

  /** The result of `Object.entries` on a mapping: its keys in insertion order. */
  type Entries = seq<(string, Value)>

  function Last<T>(s: seq<T>): T
    requires |s| > 0
  {
    s[|s| - 1]
  }

  // ---------------------------------------------------------------------------
  // String(n) for an integral number, and the database's reading of it back

  function DigitChar(d: nat): char
    requires d < 10
  {
    "0123456789"[d]
  }

  predicate IsDigit(c: char) {
    '0' <= c <= '9'
  }

  function DigitValue(c: char): nat
    requires IsDigit(c)
  {
    c as int - '0' as int
  }

  /** The decimal digits of a natural number, most significant first, without
      leading zeros. */
  function Digits(n: nat): (s: string)
    ensures |s| > 0
    ensures forall i :: 0 <= i < |s| ==> IsDigit(s[i])
    decreases n
  {
    if n < 10 then [DigitChar(n)] else Digits(n / 10) + [DigitChar(n % 10)]
  }

  /** JavaScript's `String(n)` for an integral number. */
  function DecimalString(n: int): string {
    if n < 0 then "-" + Digits(-n) else Digits(n)
  }

  /** Reads a non-empty run of decimal digits. */
  function ParseDigits(s: string): Option<nat>
    decreases |s|
  {
    if s == [] || !IsDigit(Last(s)) then None
    else if |s| == 1 then Some(DigitValue(s[0]))
    else
      match ParseDigits(s[..|s| - 1])
      case None => None
      case Some(v) => Some(10 * v + DigitValue(Last(s)))
  }

  /** An integer literal with an optional leading minus sign, as a SQL engine
      reads it. */
  function ParseDecimal(s: string): Option<int> {
    if |s| > 0 && s[0] == '-' then
      match ParseDigits(s[1..])
      case None => None
      case Some(v) => Some(0 - v as int)
    else ParseDigits(s)
  }

  lemma {:induction false} DigitsRoundTrip(n: nat)
    ensures ParseDigits(Digits(n)) == Some(n)
    decreases n
  {
    var s := Digits(n);
    if n >= 10 {
      DigitsRoundTrip(n / 10);
      assert s[..|s| - 1] == Digits(n / 10);
    }
  }

  /** Every integer literal the manager writes is read back as the same integer. */
  lemma DecimalRoundTrip(n: int)
    ensures ParseDecimal(DecimalString(n)) == Some(n)
  {
    if n < 0 {
      var d := Digits(-n);
      DigitsRoundTrip(-n);
      assert DecimalString(n) == "-" + d;
      assert ("-" + d)[1..] == d;
    } else {
      var d := Digits(n);
      DigitsRoundTrip(n);
      assert DecimalString(n) == d;
      assert d[0] != '-' by { assert IsDigit(d[0]); }
    }
  }

  // ---------------------------------------------------------------------------
  // Array.prototype.join

  function JoinWith(parts: seq<string>, sep: string): string
    decreases |parts|
  {
    if |parts| == 0 then ""
    else if |parts| == 1 then parts[0]
    else parts[0] + sep + JoinWith(parts[1..], sep)
  }

  // ---------------------------------------------------------------------------
  // `table.field` column names and `key.split('.')`

  function Qualify(table: string, field: string): string {
    table + "." + field
  }

  predicate NoDot(s: string) {
    forall i :: 0 <= i < |s| ==> s[i] != '.'
  }

  /** The index of the first '.', or |s| when there is none. */
  function DotIndex(s: string): (k: nat)
    ensures k <= |s|
    ensures forall i :: 0 <= i < k ==> s[i] != '.'
    ensures k < |s| ==> s[k] == '.'
    decreases |s|
  {
    if s == [] || s[0] == '.' then 0 else 1 + DotIndex(s[1..])
  }

  /** `const [table, field] = key.split('.')`: the first two pieces; when the key
      has no '.', `field` is undefined and is used as the property name
      "undefined". */
  function SplitKey(key: string): (string, string) {
    var k := DotIndex(key);
    if k == |key| then (key, "undefined")
    else
      var rest := key[k + 1..];
      (key[..k], rest[..DotIndex(rest)])
  }

  /** Splitting a qualified column name gives back its table and field, as long
      as neither contains a '.'. */
  lemma SplitQualified(table: string, field: string)
    requires NoDot(table) && NoDot(field)
    ensures SplitKey(Qualify(table, field)) == (table, field)
  {
    var key := Qualify(table, field);
    DotIndexOf(table, "." + field);
    assert key == table + ("." + field);
    assert key[|table| + 1..] == field;
    DotIndexOf(field, "");
    assert field + "" == field;
  }

  lemma {:induction false} DotIndexOf(a: string, b: string)
    requires NoDot(a)
    requires |b| == 0 || b[0] == '.'
    ensures DotIndex(a + b) == |a|
    decreases |a|
  {
    if a != [] {
      assert (a + b)[1..] == a[1..] + b;
      DotIndexOf(a[1..], b);
    } else {
      assert a + b == b;
    }
  }
}
