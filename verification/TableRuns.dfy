/**
  Whole runs of a uthash table against what it stands for: a map from keys to elements
  and the sequence of the elements in application order.
 */
module TableRuns {
  import opened Element
  import opened StableSort
  import opened Segments
  import opened Buckets
  import opened UtHash
  import opened HashTables

  datatype Model = Model(m: map<Key, Elem>, order: seq<Elem>)

  /** The map and the sequence hold the same elements, one for each key. */
  ghost predicate Coherent(model: Model) {
    && NoDup(model.order)
    && (forall x | x in model.order :: x.key in model.m && model.m[x.key] == x)
    && (forall k | k in model.m :: model.m[k] in model.order && model.m[k].key == k)
  }

  datatype TableOp =
    | AddOp(add: Elem)
    | AddInOrderOp(add: Elem)
    | ReplaceOp(add: Elem)
    | ReplaceInOrderOp(add: Elem)
    | DeleteOp(del: Elem)
    | FindOp(key: Key)
    | SortOp

  /** What the macros demand of their caller: a key that is added is new, an element that is deleted is there. */
  ghost predicate Legal(model: Model, op: TableOp) {
    match op
    case AddOp(add) => add.key !in model.m
    case AddInOrderOp(add) => add.key !in model.m
    case ReplaceOp(_) => true
    case ReplaceInOrderOp(_) => true
    case DeleteOp(del) => del.key in model.m && model.m[del.key] == del
    case FindOp(_) => true
    case SortOp => true
  }

  ghost function Lookup(model: Model, key: Key): Elem? {
    if key in model.m then model.m[key] else null
  }

  /** The order without the element that has this key. */
  ghost function Rest(model: Model, key: Key): seq<Elem>
    requires Coherent(model)
  {
    if key in model.m then Without(model.order, model.m[key]) else model.order
  }

  /** The operation on the map and on the sequence. */
  ghost function Step(model: Model, op: TableOp, cmp: Comparison<Elem>): Model
    requires Coherent(model) && Legal(model, op)
  {
    match op
    case AddOp(add) => Model(model.m[add.key := add], model.order + [add])
    case AddInOrderOp(add) =>
      Model(model.m[add.key := add], InsertAt(model.order, UpperBound(model.order, add, cmp), add))
    case ReplaceOp(add) => Model(model.m[add.key := add], Rest(model, add.key) + [add])
    case ReplaceInOrderOp(add) =>
      var rest := Rest(model, add.key);
      Model(model.m[add.key := add], InsertAt(rest, UpperBound(rest, add, cmp), add))
    case DeleteOp(del) => Model(model.m - {del.key}, Without(model.order, del))
    case FindOp(_) => model
    case SortOp => Model(model.m, Sort(model.order, cmp))
  }

  /** What the macro hands back: the element found or replaced. */
  ghost function Answer(model: Model, op: TableOp): Elem? {
    match op
    case FindOp(key) => Lookup(model, key)
    case ReplaceOp(add) => Lookup(model, add.key)
    case ReplaceInOrderOp(add) => Lookup(model, add.key)
    case _ => null
  }

  lemma CoherentUnique(model: Model)
    requires Coherent(model)
    ensures UniqueKeys(model.order)
  {
  }

  lemma AppendCoherent(model: Model, add: Elem, order: seq<Elem>)
    requires Coherent(model) && add.key !in model.m
    requires NoDup(order) && forall x :: x in order <==> x in model.order || x == add
    ensures Coherent(Model(model.m[add.key := add], order))
  {
  }

  lemma InsertCoherent(model: Model, add: Elem, i: nat)
    requires Coherent(model) && add.key !in model.m && i <= |model.order|
    ensures Coherent(Model(model.m[add.key := add], InsertAt(model.order, i, add)))
  {
    var s, t := model.order, InsertAt(model.order, i, add);
    assert add !in s;
    AppendNoDup(s, add);
    InsertPermutes(s, i, add);
    PermutationNoDup(s + [add], t);
    SameElements(s + [add], t);
    AppendMembers(s, add);
    AppendCoherent(model, add, t);
  }

  lemma RestCoherent(model: Model, key: Key)
    requires Coherent(model)
    ensures Coherent(Model(model.m - {key}, Rest(model, key)))
  {
    if key in model.m {
      RemovedMembers(model.order, model.m[key]);
    } else {
      assert model.m - {key} == model.m;
    }
  }

  /** The map and the sequence stay in step through every legal operation. */
  lemma StepCoherent(model: Model, op: TableOp, cmp: Comparison<Elem>)
    requires Coherent(model) && Legal(model, op)
    ensures Coherent(Step(model, op, cmp))
  {
    hide NoDup, Coherent, InsertAt, Without, UpperBound, Sort;
    match op
    case AddOp(add) =>
      InsertedAtEnds(model.order, add);
      InsertCoherent(model, add, |model.order|);
    case AddInOrderOp(add) =>
      InsertCoherent(model, add, UpperBound(model.order, add, cmp));
    case ReplaceOp(add) =>
      RestCoherent(model, add.key);
      var rest := Model(model.m - {add.key}, Rest(model, add.key));
      InsertedAtEnds(rest.order, add);
      InsertCoherent(rest, add, |rest.order|);
      assert rest.m[add.key := add] == model.m[add.key := add];
    case ReplaceInOrderOp(add) =>
      RestCoherent(model, add.key);
      var rest := Model(model.m - {add.key}, Rest(model, add.key));
      InsertCoherent(rest, add, UpperBound(rest.order, add, cmp));
      assert rest.m[add.key := add] == model.m[add.key := add];
    case DeleteOp(del) =>
      RestCoherent(model, del.key);
    case FindOp(_) =>
    case SortOp =>
      SortCoherent(model, cmp);
  }

  lemma SortCoherent(model: Model, cmp: Comparison<Elem>)
    requires Coherent(model)
    ensures Coherent(Model(model.m, Sort(model.order, cmp)))
  {
    hide Sort;
    SortPermutes(model.order, cmp);
    PermutationNoDup(model.order, Sort(model.order, cmp));
    SameElements(model.order, Sort(model.order, cmp));
  }

  /** Adding in order to a sorted table gives the stable sort of the old order and the new element. */
  lemma AddInOrderSorts(s: seq<Elem>, x: Elem, cmp: Comparison<Elem>)
    requires TotalPreorder(s + [x], cmp) && Sorted(s, cmp)
    ensures InsertAt(s, UpperBound(s, x, cmp), x) == Sort(s + [x], cmp)
    ensures Sorted(InsertAt(s, UpperBound(s, x, cmp), x), cmp)
  {
    hide Sort, Sorted, TotalPreorder, UpperBound;
    var n := UpperBound(s, x, cmp);
    var a, b := s[..n], s[n..];
    assert a + b == s;
    forall y | y in b
      ensures cmp(x, y) <= 0 && !(cmp(y, x) <= 0)
    {
      var j :| 0 <= j < |b| && b[j] == y;
      AboveTheBound(s, x, cmp, n + j);
    }
    InsertLast(a, x, b, cmp);
    SortIsStable(s + [x], cmp);
  }

  lemma AboveTheBound(s: seq<Elem>, x: Elem, cmp: Comparison<Elem>, j: nat)
    requires TotalPreorder(s + [x], cmp) && Sorted(s, cmp)
    requires UpperBound(s, x, cmp) <= j < |s|
    ensures cmp(x, s[j]) <= 0 && !(cmp(s[j], x) <= 0)
  {
    hide UpperBound;
    var n := UpperBound(s, x, cmp);
    assert s[n] in s && s[j] in s && x in [x];
    InConcat(s, [x], s[n]);
    InConcat(s, [x], s[j]);
    InConcat(s, [x], x);
    assert n < j ==> cmp(s[n], s[j]) <= 0;
  }

  // --- runs ---

  ghost predicate Uses(op: TableOp, nodes: set<Elem>) {
    match op
    case AddOp(add) => add in nodes
    case AddInOrderOp(add) => add in nodes
    case ReplaceOp(add) => add in nodes
    case ReplaceInOrderOp(add) => add in nodes
    case DeleteOp(_) => true
    case FindOp(_) => true
    case SortOp => true
  }

  /** The element with this key, as the search of the table and the map name it. */
  lemma FoundIsLookup(model: Model, key: Key, out: Elem?)
    requires Coherent(model)
    requires if out == null then (forall x | x in model.order :: x.key != key)
             else out in model.order && out.key == key
    ensures out == Lookup(model, key)
    ensures Rest(model, key) == if out == null then model.order else Without(model.order, out)
  {
    hide Without, NoDup;
  }

  /** The operation takes out the only element; a replacement then starts with a new table. */
  ghost predicate Empties(model: Model, op: TableOp) {
    && |model.order| == 1
    && match op
       case DeleteOp(_) => true
       case ReplaceOp(add) => add.key in model.m
       case ReplaceInOrderOp(add) => add.key in model.m
       case _ => false
  }

  method Perform(table: HashTable, op: TableOp, cmp: Comparison<Elem>, ghost model: Model, ghost nodes: set<Elem>)
    returns (answer: Elem?)
    requires table.Valid() && Coherent(model) && model.order == table.order && Legal(model, op)
    requires Within(table.order, nodes) && Uses(op, nodes)
    modifies table, table.tbl.buckets, table.tbl.bloomBv, nodes
    ensures table.Valid() && table.order == Step(model, op, cmp).order
    ensures answer == Answer(model, op)
    ensures Within(table.order, nodes)
    ensures table.tbl.buckets == old(table.tbl.buckets) || fresh(table.tbl.buckets)
    ensures table.tbl.bloomBv == old(table.tbl.bloomBv) || fresh(table.tbl.bloomBv)
    ensures old(table.order != [] && table.tbl.noexpand) && !Empties(model, op) ==>
              table.tbl.noexpand && table.tbl.numBuckets == old(table.tbl.numBuckets)
  {
    hide NoDup, InsertAt, UpperBound, IndexOf, RemoveAt, Sort;
    answer := null;
    StepWithin(model, op, cmp, nodes);
    match op
    case AddOp(add) =>
      table.Add(add);
    case AddInOrderOp(add) =>
      table.AddInOrder(add, cmp);
    case ReplaceOp(add) =>
      CoherentUnique(model);
      answer := table.Replace(add);
      FoundIsLookup(model, add.key, answer);
    case ReplaceInOrderOp(add) =>
      CoherentUnique(model);
      answer := table.ReplaceInOrder(add, cmp);
      FoundIsLookup(model, add.key, answer);
    case DeleteOp(del) =>
      table.Delete(del);
    case FindOp(key) =>
      answer := table.Find(key);
      FoundIsLookup(model, key, answer);
    case SortOp =>
      table.Sort(cmp);
  }

  lemma StepWithin(model: Model, op: TableOp, cmp: Comparison<Elem>, nodes: set<Elem>)
    requires Coherent(model) && Legal(model, op)
    requires Within(model.order, nodes) && Uses(op, nodes)
    ensures Within(Step(model, op, cmp).order, nodes)
  {
    var after := Step(model, op, cmp);
    StepCoherent(model, op, cmp);
    forall x | x in after.order
      ensures x in nodes
    {
      assert after.m[x.key] == x;
      match op
      case SortOp => SortPermutes(model.order, cmp); SameElements(model.order, after.order);
      case _ => assert x in model.order || (x.key in after.m && after.m[x.key] in nodes);
    }
  }

  ghost predicate LegalRun(model: Model, ops: seq<TableOp>, cmp: Comparison<Elem>)
    requires Coherent(model)
    decreases |ops|
  {
    ops == [] ||
    (Legal(model, ops[0]) &&
     (StepCoherent(model, ops[0], cmp); LegalRun(Step(model, ops[0], cmp), ops[1..], cmp)))
  }

  ghost function StepAll(model: Model, ops: seq<TableOp>, cmp: Comparison<Elem>): Model
    requires Coherent(model) && LegalRun(model, ops, cmp)
    decreases |ops|
  {
    if ops == [] then model
    else
      StepCoherent(model, ops[0], cmp);
      StepAll(Step(model, ops[0], cmp), ops[1..], cmp)
  }

  ghost function Answers(model: Model, ops: seq<TableOp>, cmp: Comparison<Elem>): seq<Elem?>
    requires Coherent(model) && LegalRun(model, ops, cmp)
    decreases |ops|
  {
    if ops == [] then []
    else
      StepCoherent(model, ops[0], cmp);
      [Answer(model, ops[0])] + Answers(Step(model, ops[0], cmp), ops[1..], cmp)
  }

  lemma Unroll(model: Model, ops: seq<TableOp>, i: nat, cmp: Comparison<Elem>)
    requires Coherent(model) && i < |ops| && LegalRun(model, ops[i..], cmp)
    ensures Legal(model, ops[i]) && Coherent(Step(model, ops[i], cmp))
    ensures LegalRun(Step(model, ops[i], cmp), ops[i + 1..], cmp)
    ensures StepAll(model, ops[i..], cmp) == StepAll(Step(model, ops[i], cmp), ops[i + 1..], cmp)
    ensures Answers(model, ops[i..], cmp)
         == [Answer(model, ops[i])] + Answers(Step(model, ops[i], cmp), ops[i + 1..], cmp)
  {
    assert ops[i..][0] == ops[i] && ops[i..][1..] == ops[i + 1..];
    StepCoherent(model, ops[i], cmp);
  }

  lemma RunEnd(model: Model, cmp: Comparison<Elem>)
    requires Coherent(model)
    ensures LegalRun(model, [], cmp) && StepAll(model, [], cmp) == model && Answers(model, [], cmp) == []
  {
  }

  /** No operation of the run takes out an only element. */
  ghost predicate NeverEmpties(model: Model, ops: seq<TableOp>, cmp: Comparison<Elem>)
    requires Coherent(model) && LegalRun(model, ops, cmp)
    decreases |ops|
  {
    ops == [] ||
    (!Empties(model, ops[0]) &&
     (StepCoherent(model, ops[0], cmp); NeverEmpties(Step(model, ops[0], cmp), ops[1..], cmp)))
  }

  lemma UnrollNever(model: Model, ops: seq<TableOp>, i: nat, cmp: Comparison<Elem>)
    requires Coherent(model) && i < |ops| && LegalRun(model, ops[i..], cmp) && Legal(model, ops[i])
    requires Coherent(Step(model, ops[i], cmp)) && LegalRun(Step(model, ops[i], cmp), ops[i + 1..], cmp)
    ensures NeverEmpties(model, ops[i..], cmp) ==>
              !Empties(model, ops[i]) && NeverEmpties(Step(model, ops[i], cmp), ops[i + 1..], cmp)
  {
    assert ops[i..][0] == ops[i] && ops[i..][1..] == ops[i + 1..];
  }

  lemma StaysFilled(model: Model, op: TableOp, cmp: Comparison<Elem>)
    requires Coherent(model) && Legal(model, op) && model.order != [] && !Empties(model, op)
    ensures Step(model, op, cmp).order != []
  {
    match op
    case SortOp => SortPermutes(model.order, cmp);
    case _ =>
  }

  /** Any table driven through any legal run gives the answers of the map, and ends in its order.  Once expansion
      is inhibited, the number of buckets stays until the run empties the table. */
  method RunOn(table: HashTable, ops: seq<TableOp>, cmp: Comparison<Elem>, ghost start: Model, ghost nodes: set<Elem>)
    returns (answers: seq<Elem?>)
    requires table.Valid() && Coherent(start) && start.order == table.order && Within(table.order, nodes)
    requires LegalRun(start, ops, cmp) && forall op | op in ops :: Uses(op, nodes)
    modifies table, table.tbl.buckets, table.tbl.bloomBv, nodes
    ensures table.Valid() && table.order == StepAll(start, ops, cmp).order
    ensures answers == Answers(start, ops, cmp)
    ensures old(table.order != [] && table.tbl.noexpand) && NeverEmpties(start, ops, cmp) ==>
              table.tbl.noexpand && table.tbl.numBuckets == old(table.tbl.numBuckets)
  {
    hide StepAll, Answers, LegalRun, Step, Answer, NeverEmpties, Empties, Coherent, HashTable.Valid, Uses;
    answers := [];
    ghost var model := start;
    assert ops[0..] == ops && ops[|ops|..] == [];
    for i := 0 to |ops|
      invariant table.Valid() && Coherent(model) && model.order == table.order
      invariant table.tbl.buckets == old(table.tbl.buckets) || fresh(table.tbl.buckets)
      invariant table.tbl.bloomBv == old(table.tbl.bloomBv) || fresh(table.tbl.bloomBv)
      invariant Within(table.order, nodes)
      invariant LegalRun(model, ops[i..], cmp)
      invariant StepAll(model, ops[i..], cmp) == StepAll(start, ops, cmp)
      invariant answers + Answers(model, ops[i..], cmp) == Answers(start, ops, cmp)
      invariant NeverEmpties(start, ops, cmp) ==> NeverEmpties(model, ops[i..], cmp)
      invariant old(table.order != [] && table.tbl.noexpand) && NeverEmpties(start, ops, cmp) ==>
                  model.order != [] && table.tbl.noexpand && table.tbl.numBuckets == old(table.tbl.numBuckets)
    {
      Unroll(model, ops, i, cmp);
      UnrollNever(model, ops, i, cmp);
      if model.order != [] && !Empties(model, ops[i]) {
        StaysFilled(model, ops[i], cmp);
      }
      var answer := Perform(table, ops[i], cmp, model, nodes);
      answers := answers + [answer];
      model := Step(model, ops[i], cmp);
    }
    RunEnd(model, cmp);
  }

  /** A fresh table driven through any legal run gives the answers of the map, and ends in its order. */
  method Run(hash: HashFunction, bloom: Bloom, ops: seq<TableOp>, cmp: Comparison<Elem>, ghost nodes: set<Elem>)
    returns (table: HashTable, answers: seq<Elem?>)
    requires LegalRun(Model(map[], []), ops, cmp)
    requires forall op | op in ops :: Uses(op, nodes)
    modifies nodes
    ensures table.Valid() && table.order == StepAll(Model(map[], []), ops, cmp).order
    ensures answers == Answers(Model(map[], []), ops, cmp)
  {
    hide StepAll, Answers, LegalRun;
    table := new HashTable(hash, bloom);
    answers := RunOn(table, ops, cmp, Model(map[], []), nodes);
  }
}
