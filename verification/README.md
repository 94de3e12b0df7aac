# Entity manager of a small TypeScript ORM, modelled in Dafny

This project models `DBEntityManager` of `src/orm/interface.ts`. It is the class that maps
one database table to application values for a small SQLite ORM. The model covers:

- **Construction** (`Schema`). The constructor's loop over the fields checks that there is
  exactly one primary key and that it is not nullable. It is modelled as the method
  `NewManager`, proved equal to a prefix-recursive function `Construct`. `Construct` is
  then characterised without the loop by the primary-key positions of the schema. The
  loop tests the running `primaryKey` for JavaScript truthiness, so a primary key named `""`
  is invisible to it. The model keeps that behaviour and proves it with a concrete lemma.
- **The value pipeline** (`Serde`). `toDb` checks for null, then applies the optional
  `serializeWith`, then converts by column type. `fromDb` passes null through, then
  converts by type, then applies the optional `deserializeWith`. The text-escaping
  utilities are uninterpreted functions in a `Codec`. Custom transforms are arbitrary
  arrows that may fail.
- **Statement text** (`Clauses`, `JoinGraph`, `Read`, `Write`):
  - the `WHERE` builder;
  - the worklist traversal of the requested joins, which emits one select descriptor
    and one `INNER JOIN` clause per foreign-key edge;
  - the `SELECT` column set and the `LIMIT` clause of `getAll`;
  - the `INSERT`, `UPDATE` and `DELETE` statements.
- **Result assembly** in `getAll` (`Read`). Each flat row is split into per-table records
  by `table.field` keys. The nested `joined` tree is then built along each descriptor's
  path. This is modelled exactly as written: every record lands under the key `"current"`
  of the innermost `joined` object, and a node's own `current` stays `undefined`.
- **Write rules** (`Write`):
  - `insertBulk` leaves the primary key out of the column list, rejects missing
    non-nullable values, and echoes records back with the returned primary key.
  - `insert` takes the first of those records.
  - `update` skips unknown fields and the primary key, and issues nothing when no
    assignment is left.
  - `delete` has no WHERE clause when its mapping is empty.

The database gateway is not modelled. Its outputs become inputs to the model: the rows a
`SELECT` returns, the rows `INSERT ... RETURNING` hands back, and the `changes` count of a
run statement. A foreign key's lazy `() => DBEntityManager` accessor is an index into a
registry `seq<Manager>`. The statement loops of the source (the constructor's field loop,
the join worklist, the two loops building the column set, the per-row loops of `getAll`,
the `reduce`, the column loop and the final `map` of `insertBulk`) are Dafny methods with loop
invariants, each proved equal to a specification function whose properties are proved as
lemmas. Four loops are modelled as recursive functions instead, because they compute one
value without other effects: the `.map` of `where` (`Clauses.Conjuncts`), the `reduce` of
`update` (`Write.Assignments`), the walk along a descriptor's path in `getAll`
(`Read.Place`) and the `Object.keys(...).filter` of `insertBulk` (`Write.InsertColumns`).

Files:
- `base.dfy`: values, errors, `String(n)` and its reading back, `join`, `split('.')`.
- `schema.dfy`: field descriptors, schemas and construction.
- `serde.dfy`: `toDb` and `fromDb`.
- `clauses.dfy`: `where`.
- `join.dfy`: `join`.
- `read.dfy`: `getAll`.
- `write.dfy`: `insert`, `insertBulk`, `update` and `delete`.

## Model

| member | source | states |
|---|---|---|
| Schema.Construct | src/orm/interface.ts:127-142 | The constructor's decision as a function of the schema; characterised without the loop by `ConstructionOutcome` and `EmptyNamedPrimaryKey` |
| Schema.NewManager | src/orm/interface.ts:123-143 | The constructor's loop: the outcome is exactly the prefix-recursive `Construct` (first duplicate or nullable primary key throws; none throws MissingPrimaryKey) |
| Schema.ScanStopsAtError | src/orm/interface.ts:128-138 | Once the loop has thrown, later fields do not change the outcome |
| Schema.PrimaryKeyIndicesExact | src/orm/interface.ts:128-129 | The primary-key positions list every field marked `isPrimaryKey`, in increasing order |
| Schema.ScanMatchesExpected | src/orm/interface.ts:127-138 | With non-empty field names, the loop's result is decided by the primary-key fields alone: the first must not be nullable and there must be only one |
| Schema.ExpectedFromSnoc | src/orm/interface.ts:129-136 | Appending one field changes the loop-free decision exactly as one loop iteration changes the loop's state |
| Schema.ConstructionOutcome | src/orm/interface.ts:127-142 | Construction fails with MissingPrimaryKey, NullablePrimaryKey or DuplicatePrimaryKey (naming the first two primary keys) in exactly those cases; otherwise the manager names the unique, non-nullable primary key |
| Schema.EmptyNamedPrimaryKey | src/orm/interface.ts:130-141 | Truthiness quirk: a lone primary key named "" is rejected as missing, and a second primary key after it is accepted |
| Schema.FieldIndex | src/orm/interface.ts:150 | `entity[field]` lookup: finds a position holding the field, and finds none exactly when no field has that name |
| Serde.Literal | src/orm/interface.ts:189-202 | The type conversion succeeds exactly when the value has the runtime type of the column |
| Serde.ToDbCases | src/orm/interface.ts:178-205 | An absent value throws on a non-nullable field and is exactly `NULL` on a nullable one; a present value succeeds exactly when `serializeWith` succeeds and yields the column's type; a numeric literal is never `NULL` |
| Serde.ToDbFromDbRoundTrip | src/orm/interface.ts:145-208 | `fromDb` undoes `toDb` for a present value when its transforms are inverse there and unescaping undoes the stored escaped text |
| Serde.ToDb | src/orm/interface.ts:174-208 | `toDb(field, value)`; characterised by `ToDbCases` and, with `fromDb`, by `ToDbFromDbRoundTrip` |
| Serde.FromDb | src/orm/interface.ts:145-173 | `fromDb(field, value)`: null passes through, otherwise type conversion then `deserializeWith`; its partner property is `ToDbFromDbRoundTrip`, which shows it undoes `toDb` |
| Base.DecimalRoundTrip | src/orm/interface.ts:194-200 | The decimal text written for an integer or a Date's milliseconds reads back as the same integer |
| Base.SplitQualified | src/orm/interface.ts:320 | Splitting a `table.field` column name at '.' gives back the table and the field when neither contains a '.' |
| Clauses.Conjuncts | src/orm/interface.ts:217-220 | One `table.field = literal` conjunct per entry, in entry order; succeeds exactly when every value can be written, and otherwise fails with the first failing entry's error |
| Clauses.Where | src/orm/interface.ts:210-223 | Empty mapping gives ""; otherwise "WHERE " and the conjuncts joined by " and "; any `toDb` error propagates, the first one winning |
| JoinGraph.Join | src/orm/interface.ts:225-284 | Fails exactly when some requested edge does not lead to a manager; otherwise one descriptor and one clause per requested edge (paths are exactly the request's edges, each once), each naming the target table, the requested fields or all target fields, and `INNER JOIN to on to.pk = parent.field`, with every parent edge before its children |
| JoinGraph.Step | src/orm/interface.ts:257 | `entity[field].foreignKey!()`: the manager an edge leads to; `Join` fails exactly when it fails on some requested edge (`FailedEdge`, `AllResolve`) |
| JoinGraph.JoinClause | src/orm/interface.ts:266-268 | The `INNER JOIN to on to.pk = parent.field` text; `NewEdge` and `Join` state that each emitted clause is this text for its edge |
| JoinGraph.JoinEntries | src/orm/interface.ts:254-277 | One popped queue entry: every entry of its mapping emits its descriptor and clause and queues its nested join, keeping the traversal invariant and moving its edges from pending to emitted; it fails only on an edge that does not resolve |
| JoinGraph.PopQueue | src/orm/interface.ts:252-253 | Popping the last queued entry keeps the invariant, and the popped entry is consistent with the request tree |
| JoinGraph.NewEdge | src/orm/interface.ts:257-268 | A resolved entry's descriptor and clause describe its edge |
| JoinGraph.NewEdgeParentFirst | src/orm/interface.ts:259-276 | The parent of a newly emitted edge was emitted before it |
| JoinGraph.VisitAccounts | src/orm/interface.ts:259-276 | Visiting an entry moves its subtree's paths from the pending part to the emitted part and the queue |
| JoinGraph.FailedEdge | src/orm/interface.ts:257 | An entry whose field does not lead to a manager means some requested edge does not resolve |
| JoinGraph.CompleteTraversal | src/orm/interface.ts:252-283 | An empty queue with the invariant means the output traverses the whole request |
| Read.Dedup | src/orm/interface.ts:294-302 | The insertion-ordered `Set`: no element twice, and the same elements as its input |
| Read.DedupKeepsPrefix | src/orm/interface.ts:294-302 | Adding columns to a set keeps the set's columns first, in their order, whether or not its input repeated a name |
| Read.DedupOfDistinct | src/orm/interface.ts:294-297 | Distinct root columns are kept as they are |
| Read.SelectList | src/orm/interface.ts:294-302 | The column set is the deduplicated root columns (all root fields when `fields` is omitted) followed by every descriptor's qualified columns; it starts with the distinct root columns in their order, and with the root columns exactly when they have no repeats |
| Read.AddTableColumns | src/orm/interface.ts:299-301 | The inner loop adds one descriptor's qualified fields to the set: the result is the deduplication of the columns so far followed by those fields |
| Read.SelectQuery | src/orm/interface.ts:304-308 | `SELECT cols FROM table joins where limit`; `GetAll` states the statement is this text over the column set, the traversal's clauses, `where` and `LimitClause` |
| Read.LimitClause | src/orm/interface.ts:308 | A clause appears exactly when the limit is given and non-zero (a zero limit is falsy); it is "LIMIT " followed by text reading back as the limit |
| Read.InitEntities | src/orm/interface.ts:313-318 | One empty record for the root table and for every joined table |
| Read.NewEntities | src/orm/interface.ts:313-318 | The loop creating an empty record per table equals `InitEntities` |
| Read.ReadColumns | src/orm/interface.ts:319-322 | The loop routing each column into its table's record equals `SplitRow`, stopping at the first unrouted column |
| Base.SplitKey | src/orm/interface.ts:320 | `key.split('.')` destructured into two parts; `SplitQualified` shows it inverts `table.field` |
| Read.SplitRow | src/orm/interface.ts:319-322 | Succeeds exactly when every column's table has a record; keeps the set of tables |
| Read.SplitRowLastWrite | src/orm/interface.ts:319-322 | The last column naming a (table, field) pair decides that field of that table's record |
| Read.SplitRowUntouched | src/orm/interface.ts:319-322 | A (table, field) pair no column names keeps what it had |
| Read.AssembleRow | src/orm/interface.ts:311-344 | The per-row callback (entities, column routing, tree nesting) equals the specification `RowOf` |
| Read.NestRecords | src/orm/interface.ts:325-338 | The loop over descriptors building the `joined` tree equals `BuildJoined`, stopping at the first failed placement |
| Read.Place | src/orm/interface.ts:327-337 | The walk along one descriptor's path; characterised by `PlaceFrame` and `CurrentKeyThrows` |
| Read.BuildJoined | src/orm/interface.ts:325-338 | The `joined` tree after the descriptors; characterised by `BuildJoinedLookup` and `JoinedHoldsRecords` |
| Read.PlaceFrame | src/orm/interface.ts:327-337 | Placing a record along a path without a "current" segment succeeds, keeps the tree's shape, puts the record at that path and changes nothing at any other path |
| Read.BuildJoinedLookup | src/orm/interface.ts:326-338 | With no "current" segment in any path, the tree is built, well shaped, and holds at each path the record of the last descriptor with that path |
| Read.JoinedHoldsRecords | src/orm/interface.ts:326-338 | A path no descriptor has finds nothing; the last descriptor with a path finds its table's record there; nodes never hold a record in their own `current` |
| Read.CurrentKeyThrows | src/orm/interface.ts:329-337 | Since records are stored under "current", a nested join through a foreign key named "current" steps into a record and throws |
| Read.RowAssembled | src/orm/interface.ts:311-344 | A row whose columns all name tables of the query gives the root record as `current` and each joined table's record at its path |
| Read.GetAll | src/orm/interface.ts:286-345 | A failing traversal or `where` throws; otherwise, for the traversal `t` it computes (which traverses the request), it succeeds exactly when every returned row can be assembled against `t`, and then the statement is SELECT of the column set FROM the table, the join clauses, the `where` clause and the limit clause, with exactly one result per returned row, each the assembly of that row |
| Read.AssembleRows | src/orm/interface.ts:311-344 | One result per row, in order; fails exactly when some row cannot be assembled |
| Write.InsertColumns | src/orm/interface.ts:361-362 | The column list holds exactly the schema's fields other than the primary key |
| Write.ColumnsExact | src/orm/interface.ts:361-362 | A name is a column exactly when it is a field of the schema and not the primary key |
| Write.Cell | src/orm/interface.ts:369-378 | One column of one record: the not-nullable check, then `toDb(field, data[field] ?? null)`; `TupleOk`, `TupleCells` and `MissingRequiredFieldRejected` state what it contributes |
| Write.TupleOk | src/orm/interface.ts:369-379 | A record's tuple is written exactly when every column's cell is |
| Write.TupleCells | src/orm/interface.ts:369-379 | A written tuple holds one literal per column, that column's cell |
| Write.TuplesOk | src/orm/interface.ts:364-383 | The records are written exactly when every record's tuple is |
| Write.TuplesEach | src/orm/interface.ts:364-383 | Written records give one tuple per record, that record's tuple |
| Write.InsertQuery | src/orm/interface.ts:385-388 | The `INSERT INTO table(cols) VALUES (...),(...) RETURNING pk` text; `InsertBulk` states the statement is this text over `InsertColumns` and the tuples, and `InsertShape` its shape |
| Write.Echoed | src/orm/interface.ts:373-395 | The record handed back for one input record and returned row; characterised by `EchoedRecord` |
| Write.RecordTuple | src/orm/interface.ts:366-379 | The loop over one record's columns computes its tuple and the record kept for it |
| Write.RecordTuples | src/orm/interface.ts:364-383 | The `reduce` over the records computes all tuples and keeps one record per input record |
| Write.EchoKeys | src/orm/interface.ts:391-398 | One echoed record per returned row, carrying that row's primary key; a returned row beyond the last record throws |
| Write.InsertBulk | src/orm/interface.ts:354-399 | A record that cannot be written throws before any statement; otherwise the statement is INSERT INTO the table with the non-key columns, one VALUES tuple per record and RETURNING the primary key, and each returned row gives the matching record echoed with its primary key |
| Write.MissingRequiredFieldRejected | src/orm/interface.ts:370-372 | A record lacking a non-nullable field other than the primary key makes `insertBulk` throw |
| Write.InsertShape | src/orm/interface.ts:361-387 | The columns are every field except the primary key; there is one tuple per record and one literal per column in each |
| Write.EchoedRecord | src/orm/interface.ts:373-395 | An echoed record holds every schema field: the caller's value, `null` where it was missing, and the primary key copied from the returned row |
| Write.Insert | src/orm/interface.ts:347-352 | `insertBulk([data])[0]`: the same errors and statement as for one record, the echoed record when one row comes back, and undefined when none does |
| Write.Assignable | src/orm/interface.ts:409-414 | The entries kept are exactly those naming a schema field other than the primary key |
| Write.AssignAll | src/orm/interface.ts:416 | One `field = literal` per entry, in order; succeeds exactly when every value can be written |
| Write.Assignments | src/orm/interface.ts:407-418 | The `reduce` of `update`; `AssignmentsFilterMap` shows it equals `AssignAll` of the `Assignable` entries |
| Write.AssignmentsFilterMap | src/orm/interface.ts:407-418 | Skipping inside the `reduce` is filtering first: the assignments are those of the assignable entries |
| Write.UpdateIgnoresSkipped | src/orm/interface.ts:409-414 | Entries naming unknown fields or the primary key make no difference to `update` |
| Write.Update | src/orm/interface.ts:401-429 | With nothing assignable it returns 0 and issues no statement, without evaluating `where`; otherwise it fails exactly when an assignment or the `where` fails, and issues UPDATE table SET the assignments and the `where` clause, returning `changes ?? 0` |
| Write.Delete | src/orm/interface.ts:431-441 | Fails exactly when a `where` value cannot be written; otherwise issues a statement and returns `changes ?? 0` |
| Write.DeleteScope | src/orm/interface.ts:436-437 | An empty mapping gives "DELETE FROM table " with no WHERE clause, so every row is targeted; a non-empty one gives the WHERE conjuncts |

## Left out

- The database connection (`getDB`, `db.all`, `db.run`), `async`/`await` and one connection per call. The rows and counts these produce are parameters.
- The implementations of `escapeSqlString` and `unescapeSqlString`. They are uninterpreted functions, and nothing is assumed about them; the round-trip lemma takes the needed inverse property as a precondition.
- Custom `serializeWith` and `deserializeWith` closures. They are arbitrary functions that may throw (`Thrown`).
- JavaScript `Date` parsing. A Date is its integer milliseconds. `new Date(value)` is modelled for numbers and Dates; any other raw value gives `WrongRuntimeType`.
- Numbers are integers. Floating-point formatting of `String(n)` is not modelled.
- Values of a runtime type that the TypeScript types exclude give `WrongRuntimeType` instead of whatever JavaScript would do with them.
- Object key order in the records `getAll` and `insertBulk` return. Records are finite maps.
- Property lookups that reach `Object.prototype` (for example a field named `toString`). Schemas, mappings and records contain only their own keys.
- Read.Place: the model throws `NotANode` when a path steps into a stored record. It does not model the case where that record has a column named `joined`, in which case JavaScript would walk into that column's value.
- JoinGraph.Join: a foreign key that points outside the registry is reported as `NotForeignKey`. In the source, every accessor returns a manager.
- Read.GetAll: raw column values are not passed through `fromDb`, because the source does not do this either (the todo at line 321).
- The in-place mutation of nested `joined` objects and of `tss[i]` is modelled as functional map updates. No object is shared between results.
- Write.EchoKeys: `tss[i]` is not updated in place. The record with the copied primary key goes straight into the result.
- The TypeScript type-level machinery (`DBFieldToTs`, `JoinableKeys`, `GetAllRes`) and the unused `variants` field. They have no runtime behaviour.
- A join entry whose value is `undefined` (for example `join: {movie_id: undefined}`, which the optional mapped type admits). The source resolves the target manager and then fails with a TypeError reading `options.fields` (line 263); `JoinRequest` always holds a value, so the model cannot express that input.
- Nested `where` and `limit` inside a join request. `join` never reads them.
- The CLI command tables and the example schemas.
