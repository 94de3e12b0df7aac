/** The join-graph traversal of src/orm/interface.ts (`join`): a worklist over
    the requested foreign keys that emits one select descriptor and one
    `INNER JOIN` clause per traversed edge. */
module JoinGraph {
  import opened Base
  import opened Schema

  /** The nested `GetAll` request under a joined foreign key: an optional field
      subset and an optional further join (nested `where` and `limit` are never
      read). */
  datatype JoinRequest = JoinRequest(fields: Option<seq<string>>, join: Nested)

  /** An optional `join` mapping, from foreign-key field name to nested request,
      in `Object.entries` order. */
  datatype Nested = NoJoin | JoinOf(entries: seq<(string, JoinRequest)>)

  /** One entry of `selects`: the joined table, the foreign-key path from the
      root to it, and the fields to fetch from it. */
  datatype SelectDesc = SelectDesc(tableName: string, joinedPath: seq<string>, fields: seq<string>)

  datatype Traversal = Traversal(selects: seq<SelectDesc>, joins: seq<string>)

  /** An entry of `joinQueue`. */
  datatype WorkItem = WorkItem(joinedPath: seq<string>, parent: Manager, joinInfo: seq<(string, JoinRequest)>)

  // ---------------------------------------------------------------------------
  // Following foreign keys

  /** `parentManager.entity[field].foreignKey!()`: the manager a field refers to. */
  function Step(reg: seq<Manager>, m: Manager, field: string): Result<Manager> {
    match FieldIndex(m.entity, field)
    case None => Err(UnknownField(field))
    case Some(i) =>
      match m.entity[i].1.foreignKey
      case None => Err(NotForeignKey(field))
      case Some(k) => if k < |reg| then Ok(reg[k]) else Err(NotForeignKey(field))
  }

  /** The manager reached from `root` along a path of foreign-key fields. */
  function Resolve(reg: seq<Manager>, root: Manager, path: seq<string>): Result<Manager>
    decreases |path|
  {
    if path == [] then Ok(root)
    else
      match Resolve(reg, root, path[..|path| - 1])
      case Err(e) => Err(e)
      case Ok(p) => Step(reg, p, Last(path))
  }

  /** `INNER JOIN to on to.pk = parent.field`. */
  function JoinClause(to: Manager, parent: Manager, field: string): string {
    "INNER JOIN " + to.tableName + " on " + Qualify(to.tableName, to.primaryKey)
      + " = " + Qualify(parent.tableName, field)
  }

  // ---------------------------------------------------------------------------
  // The request tree

  /** The paths of the edges in entries `i..` of `n` and below them, each
      prefixed by `prefix`. */
  function Paths(prefix: seq<string>, n: Nested, i: nat): multiset<seq<string>>
    decreases n, if n.JoinOf? then |n.entries| - i else 0
  {
    if n.NoJoin? || i >= |n.entries| then multiset{}
    else
      var (f, req) := n.entries[i];
      multiset{prefix + [f]} + Paths(prefix + [f], req.join, 0) + Paths(prefix, n, i + 1)
  }

  /** Every foreign-key edge a join request asks for, by its path from the root. */
  function TreePaths(join: Nested): multiset<seq<string>> {
    Paths([], join, 0)
  }

  /** The number of edges in entries `i..` of `n` and below them. */
  function Size(n: Nested, i: nat): nat
    decreases n, if n.JoinOf? then |n.entries| - i else 0
  {
    if n.NoJoin? || i >= |n.entries| then 0
    else 1 + Size(n.entries[i].1.join, 0) + Size(n, i + 1)
  }

  ghost predicate HasEntry(es: seq<(string, JoinRequest)>, field: string, req: JoinRequest) {
    exists i :: 0 <= i < |es| && es[i] == (field, req)
  }

  /** Following `path` through the request tree leads to the join mapping `es`. */
  ghost predicate Reaches(join: Nested, path: seq<string>, es: seq<(string, JoinRequest)>)
    decreases |path|
  {
    if path == [] then join == JoinOf(es)
    else exists mid, req ::
      Reaches(join, path[..|path| - 1], mid) && HasEntry(mid, Last(path), req) && req.join == JoinOf(es)
  }

  /** `req` is the nested request the tree holds for the edge at `path`. */
  ghost predicate Requested(join: Nested, path: seq<string>, req: JoinRequest) {
    |path| > 0 && exists mid :: Reaches(join, path[..|path| - 1], mid) && HasEntry(mid, Last(path), req)
  }

  /** A descriptor and its clause describe the edge at the descriptor's path:
      the target table, the requested fields (all fields of the target when the
      request names none) and the clause joining the target's primary key to
      the parent's foreign-key column. */
  ghost predicate EdgeOk(reg: seq<Manager>, root: Manager, join: Nested, s: SelectDesc, clause: string)
  {
    && |s.joinedPath| > 0
    && var parent := Resolve(reg, root, s.joinedPath[..|s.joinedPath| - 1]);
    && var to := Resolve(reg, root, s.joinedPath);
    && parent.Ok? && to.Ok?
    && s.tableName == to.value.tableName
    && clause == JoinClause(to.value, parent.value, Last(s.joinedPath))
    && exists req :: Requested(join, s.joinedPath, req) && s.fields == req.fields.GetOr(FieldNames(to.value.entity))
  }

  /** The descriptor at `k` is a root edge or its parent edge comes earlier. */
  ghost predicate ParentFirst(sels: seq<SelectDesc>, k: int)
    requires 0 <= k < |sels|
  {
    var p := sels[k].joinedPath;
    |p| > 1 ==> exists k' :: 0 <= k' < k && sels[k'].joinedPath == p[..|p| - 1]
  }

  function SelPaths(sels: seq<SelectDesc>): multiset<seq<string>>
    decreases |sels|
  {
    if sels == [] then multiset{} else SelPaths(sels[..|sels| - 1]) + multiset{Last(sels).joinedPath}
  }

  /** Every requested edge leads to a manager. */
  ghost predicate AllResolve(reg: seq<Manager>, root: Manager, join: Nested)
  {
    forall p :: p in TreePaths(join) ==> Resolve(reg, root, p).Ok?
  }

  // ---------------------------------------------------------------------------
  // The worklist

  function ItemPaths(item: WorkItem): multiset<seq<string>> {
    Paths(item.joinedPath, JoinOf(item.joinInfo), 0)
  }

  function StackPaths(q: seq<WorkItem>): multiset<seq<string>>
    decreases |q|
  {
    if q == [] then multiset{} else StackPaths(q[..|q| - 1]) + ItemPaths(Last(q))
  }

  function StackSize(q: seq<WorkItem>): nat
    decreases |q|
  {
    if q == [] then 0 else StackSize(q[..|q| - 1]) + 1 + Size(JoinOf(Last(q).joinInfo), 0)
  }

  /** The edge at `p` has been emitted. */
  ghost predicate Emitted(sels: seq<SelectDesc>, p: seq<string>) {
    exists k :: 0 <= k < |sels| && sels[k].joinedPath == p
  }

  /** A queued entry: its manager is the one its path leads to, its mapping is
      the one the tree holds at that path, and the edge into it was emitted. */
  ghost predicate ItemOk(reg: seq<Manager>, root: Manager, join: Nested, sels: seq<SelectDesc>, item: WorkItem)
  {
    && Resolve(reg, root, item.joinedPath) == Ok(item.parent)
    && Reaches(join, item.joinedPath, item.joinInfo)
    && (item.joinedPath == [] || Emitted(sels, item.joinedPath))
  }

  /** The descriptors and clauses match one to one, each describing its edge. */
  ghost predicate EdgesOk(reg: seq<Manager>, root: Manager, join: Nested, sels: seq<SelectDesc>, joins: seq<string>) {
    && |sels| == |joins|
    && forall k :: 0 <= k < |sels| ==> EdgeOk(reg, root, join, sels[k], joins[k])
  }

  /** Every descriptor comes after its parent's. */
  ghost predicate Ordered(sels: seq<SelectDesc>) {
    forall k :: 0 <= k < |sels| ==> ParentFirst(sels, k)
  }

  ghost predicate QueueOk(reg: seq<Manager>, root: Manager, join: Nested, sels: seq<SelectDesc>, queue: seq<WorkItem>) {
    forall q :: 0 <= q < |queue| ==> ItemOk(reg, root, join, sels, queue[q])
  }

  /** What the traversal keeps true of its output and its queue. */
  ghost predicate TraversalInv(reg: seq<Manager>, root: Manager, join: Nested,
                               sels: seq<SelectDesc>, joins: seq<string>, queue: seq<WorkItem>)
  {
    EdgesOk(reg, root, join, sels, joins) && Ordered(sels) && QueueOk(reg, root, join, sels, queue)
  }

  /** The descriptor emitted for entry `i` of a queued entry. */
  function Descriptor(data: WorkItem, i: nat, to: Manager): SelectDesc
    requires i < |data.joinInfo|
  {
    var (field, options) := data.joinInfo[i];
    SelectDesc(to.tableName, data.joinedPath + [field], options.fields.GetOr(FieldNames(to.entity)))
  }

  /** The queue after entry `i` of a queued entry: a nested join is pushed. */
  function Pushed(queue: seq<WorkItem>, data: WorkItem, i: nat, to: Manager): seq<WorkItem>
    requires i < |data.joinInfo|
  {
    var (field, options) := data.joinInfo[i];
    if options.join.JoinOf? then queue + [WorkItem(data.joinedPath + [field], to, options.join.entries)]
    else queue
  }

  /** The descriptors and clauses match one to one; each describes the edge at
      its path; every parent edge comes before its children; and the
      descriptors' paths are exactly the request's edges, each once. */
  ghost predicate Traverses(reg: seq<Manager>, root: Manager, join: Nested, t: Traversal) {
    && |t.selects| == |t.joins|
    && (forall k :: 0 <= k < |t.selects| ==> EdgeOk(reg, root, join, t.selects[k], t.joins[k]))
    && (forall k :: 0 <= k < |t.selects| ==> ParentFirst(t.selects, k))
    && SelPaths(t.selects) == TreePaths(join)
  }

  /** `join(join)`: it fails exactly when some requested edge does not lead to
      a manager, and otherwise returns a traversal of the request. */
  method Join(reg: seq<Manager>, root: Manager, join: Nested) returns (r: Result<Traversal>)
    ensures r.Ok? <==> AllResolve(reg, root, join)
    ensures r.Ok? ==> Traverses(reg, root, join, r.value)
  {
    if join.NoJoin? {
      return Ok(Traversal([], []));
    }
    var selects: seq<SelectDesc> := [];
    var joins: seq<string> := [];
    var joinQueue := [WorkItem([], root, join.entries)];
    StartQueue(reg, root, join);
    while |joinQueue| > 0
      invariant TraversalInv(reg, root, join, selects, joins, joinQueue)
      invariant SelPaths(selects) + StackPaths(joinQueue) == TreePaths(join)
      decreases StackSize(joinQueue)
    {
      var data := Last(joinQueue);
      PopQueue(reg, root, join, selects, joins, joinQueue);
      joinQueue := joinQueue[..|joinQueue| - 1];
      var next := JoinEntries(reg, root, join, selects, joins, joinQueue, data);
      if next.Err? {
        return Err(next.error);
      }
      selects, joins, joinQueue := next.value.0, next.value.1, next.value.2;
    }
    r := Ok(Traversal(selects, joins));
    CompleteTraversal(reg, root, join, selects, joins);
  }

  /** The queue holding only the root mapping satisfies the invariant. */
  lemma StartQueue(reg: seq<Manager>, root: Manager, join: Nested)
    requires join.JoinOf?
    ensures TraversalInv(reg, root, join, [], [], [WorkItem([], root, join.entries)])
    ensures SelPaths([]) + StackPaths([WorkItem([], root, join.entries)]) == TreePaths(join)
  {
    var q := [WorkItem([], root, join.entries)];
    assert q[..0] == [];
  }

  /** Popping the last queued entry keeps the invariant for the rest. */
  lemma PopQueue(reg: seq<Manager>, root: Manager, join: Nested,
                 sels: seq<SelectDesc>, joins: seq<string>, queue: seq<WorkItem>)
    requires |queue| > 0
    requires TraversalInv(reg, root, join, sels, joins, queue)
    ensures TraversalInv(reg, root, join, sels, joins, queue[..|queue| - 1])
    ensures ItemOk(reg, root, join, sels, Last(queue))
    ensures StackPaths(queue) == StackPaths(queue[..|queue| - 1]) + ItemPaths(Last(queue))
    ensures StackSize(queue) == StackSize(queue[..|queue| - 1]) + 1 + Size(JoinOf(Last(queue).joinInfo), 0)
  {
    var rest := queue[..|queue| - 1];
    forall q | 0 <= q < |rest| ensures ItemOk(reg, root, join, sels, rest[q]) {
      assert rest[q] == queue[q];
    }
  }

  /** The state of the traversal after entries `..i` of a popped entry. */
  ghost predicate EntriesInv(reg: seq<Manager>, root: Manager, join: Nested, sels: seq<SelectDesc>,
                             joins: seq<string>, queue: seq<WorkItem>, data: WorkItem, i: nat, bound: nat)
  {
    && i <= |data.joinInfo|
    && TraversalInv(reg, root, join, sels, joins, queue)
    && ItemOk(reg, root, join, sels, data)
    && SelPaths(sels) + StackPaths(queue) + Paths(data.joinedPath, JoinOf(data.joinInfo), i) == TreePaths(join)
    && StackSize(queue) + Size(JoinOf(data.joinInfo), i) <= bound
  }

  /** The body of the worklist loop for one popped entry: every entry of its
      join mapping, in order, emits its descriptor and clause and queues its
      nested join. Its edges move from the pending paths to the emitted ones;
      it fails only on a requested edge that does not resolve. */
  method JoinEntries(reg: seq<Manager>, root: Manager, join: Nested, selects0: seq<SelectDesc>,
                     joins0: seq<string>, joinQueue0: seq<WorkItem>, data: WorkItem)
    returns (r: Result<(seq<SelectDesc>, seq<string>, seq<WorkItem>)>)
    requires TraversalInv(reg, root, join, selects0, joins0, joinQueue0)
    requires ItemOk(reg, root, join, selects0, data)
    requires SelPaths(selects0) + StackPaths(joinQueue0) + ItemPaths(data) == TreePaths(join)
    ensures r.Err? ==> !AllResolve(reg, root, join)
    ensures r.Ok? ==> TraversalInv(reg, root, join, r.value.0, r.value.1, r.value.2)
    ensures r.Ok? ==> SelPaths(r.value.0) + StackPaths(r.value.2) == TreePaths(join)
    ensures r.Ok? ==> StackSize(r.value.2) <= StackSize(joinQueue0) + Size(JoinOf(data.joinInfo), 0)
  {
    var selects, joins, joinQueue := selects0, joins0, joinQueue0;
    var es := data.joinInfo;
    ghost var bound := StackSize(joinQueue0) + Size(JoinOf(es), 0);
    for i := 0 to |es|
      invariant EntriesInv(reg, root, join, selects, joins, joinQueue, data, i, bound)
    {
      var (field, options) := es[i];
      var to := Step(reg, data.parent, field);
      if to.Err? {
        FailedEdge(reg, root, join, selects, joins, joinQueue, data, i, bound);
        return Err(to.error);
      }
      var path := data.joinedPath + [field];
      VisitEntry(reg, root, join, selects, joins, joinQueue, data, i, bound, to.value);
      ghost var pushed := Pushed(joinQueue, data, i, to.value);
      selects := selects + [SelectDesc(to.value.tableName, path, options.fields.GetOr(FieldNames(to.value.entity)))];
      joins := joins + [JoinClause(to.value, data.parent, field)];
      if options.join.JoinOf? {
        joinQueue := joinQueue + [WorkItem(path, to.value, options.join.entries)];
      }
      assert joinQueue == pushed;
    }
    assert Paths(data.joinedPath, JoinOf(es), |es|) == multiset{};
    r := Ok((selects, joins, joinQueue));
  }

  /** Handling entry `i` of a popped entry advances the loop's state. */
  lemma VisitEntry(reg: seq<Manager>, root: Manager, join: Nested, sels: seq<SelectDesc>, joins: seq<string>,
                   queue: seq<WorkItem>, data: WorkItem, i: nat, bound: nat, to: Manager)
    requires EntriesInv(reg, root, join, sels, joins, queue, data, i, bound)
    requires i < |data.joinInfo| && Step(reg, data.parent, data.joinInfo[i].0) == Ok(to)
    ensures EntriesInv(reg, root, join, sels + [Descriptor(data, i, to)],
                       joins + [JoinClause(to, data.parent, data.joinInfo[i].0)],
                       Pushed(queue, data, i, to), data, i + 1, bound)
  {
    VisitKeepsInvariant(reg, root, join, sels, joins, queue, data, i, to);
    VisitAccounts(sels, queue, data, i, to);
  }

  /** Handling entry `i` of a queued entry keeps the traversal invariant. */
  lemma VisitKeepsInvariant(reg: seq<Manager>, root: Manager, join: Nested, sels: seq<SelectDesc>,
                            joins: seq<string>, queue: seq<WorkItem>, data: WorkItem, i: nat, to: Manager)
    requires TraversalInv(reg, root, join, sels, joins, queue) && ItemOk(reg, root, join, sels, data)
    requires i < |data.joinInfo| && Step(reg, data.parent, data.joinInfo[i].0) == Ok(to)
    ensures var sels' := sels + [Descriptor(data, i, to)];
      && TraversalInv(reg, root, join, sels', joins + [JoinClause(to, data.parent, data.joinInfo[i].0)],
                      Pushed(queue, data, i, to))
      && ItemOk(reg, root, join, sels', data)
  {
    var s := Descriptor(data, i, to);
    var c := JoinClause(to, data.parent, data.joinInfo[i].0);
    NewEdge(reg, root, join, data, i, to);
    NewEdgeParentFirst(sels, data, i, to);
    EdgesExtended(reg, root, join, sels, joins, s, c);
    OrderedExtended(sels, s);
    QueueExtended(reg, root, join, sels, queue, s);
    ItemExtended(reg, root, join, sels, data, s);
    if data.joinInfo[i].1.join.JoinOf? {
      var item := WorkItem(s.joinedPath, to, data.joinInfo[i].1.join.entries);
      assert Emitted(sels + [s], s.joinedPath) by {
        assert (sels + [s])[|sels|].joinedPath == s.joinedPath;
      }
      QueuePushed(reg, root, join, sels + [s], queue, item);
    }
  }

  lemma EdgesExtended(reg: seq<Manager>, root: Manager, join: Nested, sels: seq<SelectDesc>, joins: seq<string>,
                      s: SelectDesc, c: string)
    requires EdgesOk(reg, root, join, sels, joins) && EdgeOk(reg, root, join, s, c)
    ensures EdgesOk(reg, root, join, sels + [s], joins + [c])
  {
    forall k | 0 <= k < |sels| + 1 ensures EdgeOk(reg, root, join, (sels + [s])[k], (joins + [c])[k]) {
      if k < |sels| {
        assert (sels + [s])[k] == sels[k] && (joins + [c])[k] == joins[k];
      }
    }
  }

  lemma OrderedExtended(sels: seq<SelectDesc>, s: SelectDesc)
    requires Ordered(sels) && ParentFirst(sels + [s], |sels|)
    ensures Ordered(sels + [s])
  {
    EmittedStaysEmitted(sels, s);
  }

  lemma ItemExtended(reg: seq<Manager>, root: Manager, join: Nested, sels: seq<SelectDesc>, item: WorkItem, s: SelectDesc)
    requires ItemOk(reg, root, join, sels, item)
    ensures ItemOk(reg, root, join, sels + [s], item)
  {
    EmittedStaysEmitted(sels, s);
  }

  lemma QueueExtended(reg: seq<Manager>, root: Manager, join: Nested, sels: seq<SelectDesc>,
                      queue: seq<WorkItem>, s: SelectDesc)
    requires QueueOk(reg, root, join, sels, queue)
    ensures QueueOk(reg, root, join, sels + [s], queue)
  {
    EmittedStaysEmitted(sels, s);
  }

  lemma QueuePushed(reg: seq<Manager>, root: Manager, join: Nested, sels: seq<SelectDesc>,
                    queue: seq<WorkItem>, item: WorkItem)
    requires QueueOk(reg, root, join, sels, queue) && ItemOk(reg, root, join, sels, item)
    ensures QueueOk(reg, root, join, sels, queue + [item])
  {
    forall q | 0 <= q < |queue| + 1 ensures ItemOk(reg, root, join, sels, (queue + [item])[q]) {
      if q < |queue| {
        assert (queue + [item])[q] == queue[q];
      }
    }
  }

  /** The edge for entry `i` of a queued entry resolves to the step's target,
      its descriptor and clause describe it, and a nested join under it is the
      mapping the tree holds there. */
  lemma NewEdge(reg: seq<Manager>, root: Manager, join: Nested, data: WorkItem, i: nat, to: Manager)
    requires Resolve(reg, root, data.joinedPath) == Ok(data.parent)
    requires Reaches(join, data.joinedPath, data.joinInfo)
    requires i < |data.joinInfo| && Step(reg, data.parent, data.joinInfo[i].0) == Ok(to)
    ensures var (field, options) := data.joinInfo[i];
      && Resolve(reg, root, data.joinedPath + [field]) == Ok(to)
      && EdgeOk(reg, root, join, Descriptor(data, i, to), JoinClause(to, data.parent, field))
      && (options.join.JoinOf? ==> Reaches(join, data.joinedPath + [field], options.join.entries))
  {
    var (field, options) := data.joinInfo[i];
    var path := data.joinedPath + [field];
    assert path[..|path| - 1] == data.joinedPath;
    assert data.joinInfo[i] == (field, options);
    assert HasEntry(data.joinInfo, field, options);
    assert Reaches(join, path[..|path| - 1], data.joinInfo);
    assert Last(path) == field;
    assert Requested(join, path, options);
  }

  /** The descriptor for entry `i` comes after its parent's. */
  lemma NewEdgeParentFirst(sels: seq<SelectDesc>, data: WorkItem, i: nat, to: Manager)
    requires i < |data.joinInfo|
    requires data.joinedPath == [] || Emitted(sels, data.joinedPath)
    ensures ParentFirst(sels + [Descriptor(data, i, to)], |sels|)
  {
    var sels' := sels + [Descriptor(data, i, to)];
    var path := data.joinedPath + [data.joinInfo[i].0];
    assert path[..|path| - 1] == data.joinedPath;
    if |path| > 1 {
      var k' :| 0 <= k' < |sels| && sels[k'].joinedPath == data.joinedPath;
      assert sels'[k'] == sels[k'];
    }
  }

  /** Handling entry `i` moves its edge from the pending paths to the emitted
      ones, and shrinks the pending work. */
  lemma VisitAccounts(sels: seq<SelectDesc>, queue: seq<WorkItem>, data: WorkItem, i: nat, to: Manager)
    requires i < |data.joinInfo|
    ensures var es := JoinOf(data.joinInfo);
      && SelPaths(sels + [Descriptor(data, i, to)]) + StackPaths(Pushed(queue, data, i, to)) + Paths(data.joinedPath, es, i + 1)
         == SelPaths(sels) + StackPaths(queue) + Paths(data.joinedPath, es, i)
      && StackSize(Pushed(queue, data, i, to)) + Size(es, i + 1) <= StackSize(queue) + Size(es, i)
  {
    var (field, req) := data.joinInfo[i];
    var path := data.joinedPath + [field];
    var sels' := sels + [Descriptor(data, i, to)];
    assert sels'[..|sels'| - 1] == sels;
    assert Size(JoinOf(data.joinInfo), i) == 1 + Size(req.join, 0) + Size(JoinOf(data.joinInfo), i + 1);
    var queue' := Pushed(queue, data, i, to);
    if req.join.JoinOf? {
      assert queue'[..|queue'| - 1] == queue;
      assert ItemPaths(Last(queue')) == Paths(path, req.join, 0);
    } else {
      assert Paths(path, req.join, 0) == multiset{};
      assert Size(req.join, 0) == 0;
    }
  }

  /** A failing foreign-key step is a requested edge that does not resolve. */
  lemma FailedEdge(reg: seq<Manager>, root: Manager, join: Nested, sels: seq<SelectDesc>, joins: seq<string>,
                   queue: seq<WorkItem>, data: WorkItem, i: nat, bound: nat)
    requires EntriesInv(reg, root, join, sels, joins, queue, data, i, bound)
    requires i < |data.joinInfo| && Step(reg, data.parent, data.joinInfo[i].0).Err?
    ensures !AllResolve(reg, root, join)
  {
    var path := data.joinedPath + [data.joinInfo[i].0];
    assert path[..|path| - 1] == data.joinedPath;
    assert path in Paths(data.joinedPath, JoinOf(data.joinInfo), i);
    assert path in TreePaths(join);
    assert Resolve(reg, root, path).Err?;
  }

  /** When the queue is empty, every requested edge has been emitted and so
      resolves. */
  lemma CompleteTraversal(reg: seq<Manager>, root: Manager, join: Nested, sels: seq<SelectDesc>, joins: seq<string>)
    requires TraversalInv(reg, root, join, sels, joins, [])
    requires SelPaths(sels) + StackPaths([]) == TreePaths(join)
    ensures AllResolve(reg, root, join)
    ensures Traverses(reg, root, join, Traversal(sels, joins))
  {
    forall p | p in TreePaths(join) ensures Resolve(reg, root, p).Ok? {
      var k := InSelPaths(sels, p);
      assert EdgeOk(reg, root, join, sels[k], joins[k]);
    }
  }

  /** What was emitted stays emitted when a descriptor is appended. */
  lemma EmittedStaysEmitted(sels: seq<SelectDesc>, s: SelectDesc)
    ensures forall p :: Emitted(sels, p) ==> Emitted(sels + [s], p)
    ensures forall k :: 0 <= k < |sels| && ParentFirst(sels, k) ==> ParentFirst(sels + [s], k)
  {
    forall p | Emitted(sels, p) ensures Emitted(sels + [s], p) {
      var k :| 0 <= k < |sels| && sels[k].joinedPath == p;
      assert (sels + [s])[k] == sels[k];
    }
    forall k | 0 <= k < |sels| && ParentFirst(sels, k) ensures ParentFirst(sels + [s], k) {
      var q := sels[k].joinedPath;
      if |q| > 1 {
        var k' :| 0 <= k' < k && sels[k'].joinedPath == q[..|q| - 1];
        assert (sels + [s])[k'] == sels[k'];
      }
    }
  }

  lemma {:induction false} InSelPaths(sels: seq<SelectDesc>, p: seq<string>) returns (k: nat)
    requires p in SelPaths(sels)
    ensures k < |sels| && sels[k].joinedPath == p
    decreases |sels|
  {
    if Last(sels).joinedPath == p {
      k := |sels| - 1;
    } else {
      k := InSelPaths(sels[..|sels| - 1], p);
    }
  }
}
