/**
 Whole runs of operations on a table, against an abstract machine that only
 knows the list of stored pairs and the capacity.
 */
module HashmapRun {
  import opened Common
  import opened HashOps
  import opened Table
  import opened Removal
  import opened State
  import opened Growth
  import opened Hashmap
  import opened HashmapIterate

  /** An operation, with what its environment supplies: a hash key for new storage, and whether memory can be had. */
  datatype Op =
    | Put(key: Ptr, value: Ptr, newKey: Seed, memory: bool)
    | Get(key: Ptr)
    | Contains(key: Ptr)
    | Remove(key: Ptr)
    | StealFirst
    | Clear

  datatype Answer = Code(r: int) | Value(v: Ptr) | Truth(b: bool) | Done

  datatype Machine = Machine(items: seq<Pair>, room: Room)

  /** The value bound to a key, if any: what the list of pairs means as a map. */
  function Binding(ops: Ops, items: seq<Pair>, key: Ptr): Option<Ptr> {
    var k := Lookup(ops, items, key);
    if k < |items| then Some(items[k].value) else None
  }

  /** A set stores keys only. */
  function NewPair(kind: HashmapType, key: Ptr, value: Ptr): Pair {
    Pair(key, if kind == SET then NULL else value)
  }

  /** hashmap_put or set_put: a key that is bound stays as it is; otherwise the table may have to grow first. */
  ghost predicate StepPut(ops: Ops, kind: HashmapType, w: nat, s: Machine, key: Ptr, value: Ptr, memory: bool, a: Answer, s': Machine)
    requires WordSize(w)
  {
    match Binding(ops, s.items, key)
    case Some(v) => a == Code(if kind == SET || v == value then 0 else -EEXIST) && s' == s
    case None =>
      var plan := PlanResize(kind, w, s.room.indirect, s.room.nBuckets, |s.items|, 1);
      && a == Code(PutResult(plan, memory))
      && s' == if a.r == 1 then Machine(s.items + [NewPair(kind, key, value)], Resized(kind, w, s.room, plan)) else s
  }

  /** One operation of the abstract machine of a table: hashmap_put or set_put, get, contains, remove, steal_first, clear. */
  ghost predicate Step(ops: Ops, kind: HashmapType, w: nat, s: Machine, op: Op, a: Answer, s': Machine) {
    WordSize(w) &&
    match op
    case Put(key, value, newKey, memory) => StepPut(ops, kind, w, s, key, value, memory, a, s')
    case Get(key) => a == Value(ValueAt(kind, s.items, Lookup(ops, s.items, key))) && s' == s
    case Contains(key) => a == Truth(Binding(ops, s.items, key).Some?) && s' == s
    case Remove(key) =>
      var k := Lookup(ops, s.items, key);
      && a == Value(ValueAt(kind, s.items, k))
      && s' == if k < |s.items| then s.(items := Without(s.items, k)) else s
    case StealFirst =>
      if s.items == [] then a == Value(NULL) && s' == s
      else exists k :: 0 <= k < |s.items| && (kind == ORDERED ==> k == 0)
             && a == Value(EntryValue(kind, s.items[k])) && s' == s.(items := Without(s.items, k))
    case Clear => a == Done && s' == Machine([], Room(false, DirectBuckets(kind, w)))
  }

  /** Putting the key does not make the source shift by 32 or more. */
  ghost predicate PutDefined(ops: Ops, kind: HashmapType, w: nat, s: Machine, key: Ptr) {
    WordSize(w) &&
    var plan := PlanResize(kind, w, s.room.indirect, s.room.nBuckets, |s.items|, 1);
    Binding(ops, s.items, key).None? && plan.Grow? ==> plan.shift < 32
  }

  ghost function Abstract(h: HashmapBase): Machine
    requires h.Valid()
    reads h, h.buckets, h.dibs
  {
    Machine(h.Items(), h.StorageRoom())
  }

  method ExecutePut(h: HashmapBase, key: Ptr, value: Ptr, newKey: Seed, memory: bool) returns (a: Answer)
    requires h.Valid() && PutDefined(h.ops, h.kind, h.wordSize, Abstract(h), key)
    modifies h, h.buckets, h.dibs
    ensures h.Valid() && StepPut(h.ops, h.kind, h.wordSize, old(Abstract(h)), key, value, memory, a, Abstract(h))
    ensures (h.buckets == old(h.buckets) || fresh(h.buckets)) && (h.dibs == old(h.dibs) || fresh(h.dibs))
    ensures |h.Items()| <= |old(h.Items())| + 1
  {
    hide Quiet, CapacityOk, LowestOk, Contents, PlanResize, Resized, Lookup;
    var r;
    if h.kind == SET {
      r := h.SetPut(key, newKey, memory);
    } else {
      r := h.HashmapPut(key, value, newKey, memory);
    }
    a := Code(r);
  }

  method Execute(h: HashmapBase, op: Op) returns (a: Answer)
    requires h.Valid()
    requires op.Put? ==> PutDefined(h.ops, h.kind, h.wordSize, Abstract(h), op.key)
    modifies h, h.buckets, h.dibs
    ensures h.Valid() && Step(h.ops, h.kind, h.wordSize, old(Abstract(h)), op, a, Abstract(h))
    ensures (h.buckets == old(h.buckets) || fresh(h.buckets)) && (h.dibs == old(h.dibs) || fresh(h.dibs))
    ensures |h.Items()| <= |old(h.Items())| + 1
  {
    hide Quiet, CapacityOk, LowestOk, Contents, Removed, StepPut, PutDefined, NotTheLast, PlanResize, Resized, Lookup;
    ghost var s := Abstract(h);
    match op
    case Put(key, value, newKey, memory) =>
      a := ExecutePut(h, key, value, newKey, memory);
    case Get(key) =>
      var v := h.Get(key);
      a := Value(v);
    case Contains(key) =>
      LookupFound(h.ops, s.items, key);
      var b := h.Contains(key);
      a := Truth(b);
    case Remove(key) =>
      var v, p := h.Remove(key);
      a := Value(v);
    case StealFirst =>
      var v, key, k := FirstKeyAndValue(h, true);
      a := Value(v);
    case Clear =>
      h.Clear();
      a := Done;
  }

  /** A run of the abstract machine. */
  ghost predicate IsRun(ops: Ops, kind: HashmapType, w: nat, trace: seq<Machine>, run: seq<Op>, answers: seq<Answer>): (r: bool)
    ensures r ==> |trace| == |run| + 1 && |answers| == |run|
  {
    && |trace| == |run| + 1 && |answers| == |run|
    && forall j {:trigger StepAt(ops, kind, w, trace, run, answers, j)} :: 0 <= j < |run| ==> StepAt(ops, kind, w, trace, run, answers, j)
  }

  ghost predicate StepAt(ops: Ops, kind: HashmapType, w: nat, trace: seq<Machine>, run: seq<Op>, answers: seq<Answer>, j: nat)
    requires |trace| == |run| + 1 && |answers| == |run| && j < |run|
  {
    Step(ops, kind, w, trace[j], run[j], answers[j], trace[j + 1])
  }

  lemma ExtendRun(ops: Ops, kind: HashmapType, w: nat, trace: seq<Machine>, run: seq<Op>, answers: seq<Answer>, op: Op, a: Answer, s: Machine)
    requires IsRun(ops, kind, w, trace, run, answers) && Step(ops, kind, w, trace[|run|], op, a, s)
    ensures IsRun(ops, kind, w, trace + [s], run + [op], answers + [a])
  {
    forall j | 0 <= j < |run| + 1 ensures StepAt(ops, kind, w, trace + [s], run + [op], answers + [a], j) {
      if j < |run| {
        assert StepAt(ops, kind, w, trace, run, answers, j);
      }
    }
  }

  /** In whatever state the abstract machine comes to a put, the put is defined. */
  ghost predicate PutsDefined(ops: Ops, kind: HashmapType, w: nat, s: Machine, run: seq<Op>) {
    forall n: nat, trace: seq<Machine>, answers: seq<Answer> {:trigger IsRun(ops, kind, w, trace, run[..n], answers)} ::
      n < |run| && IsRun(ops, kind, w, trace, run[..n], answers) && trace[0] == s && run[n].Put? ==>
        PutDefined(ops, kind, w, trace[n], run[n].key)
  }

  /** Refinement: every run of operations on a table is a run of its abstract machine, with the same answers. */
  method Run(h: HashmapBase, run: seq<Op>) returns (answers: seq<Answer>, ghost trace: seq<Machine>)
    requires h.Valid() && PutsDefined(h.ops, h.kind, h.wordSize, Abstract(h), run)
    modifies h, h.buckets, h.dibs
    ensures h.Valid() && IsRun(h.ops, h.kind, h.wordSize, trace, run, answers)
    ensures trace[0] == old(Abstract(h)) && trace[|run|] == Abstract(h)
  {
    hide Quiet, CapacityOk, LowestOk, Contents, Step;
    answers, trace := [], [Abstract(h)];
    var n := 0;
    while n < |run|
      invariant 0 <= n <= |run| && h.Valid()
      invariant h.buckets == old(h.buckets) || fresh(h.buckets)
      invariant h.dibs == old(h.dibs) || fresh(h.dibs)
      invariant IsRun(h.ops, h.kind, h.wordSize, trace, run[..n], answers)
      invariant trace[0] == old(Abstract(h)) && trace[n] == Abstract(h)
    {
      var a := Execute(h, run[n]);
      ExtendRun(h.ops, h.kind, h.wordSize, trace, run[..n], answers, run[n], a, Abstract(h));
      assert run[..n + 1] == run[..n] + [run[n]];
      answers, trace := answers + [a], trace + [Abstract(h)];
      n := n + 1;
    }
    assert run[..n] == run;
  }

  function PutCount(run: seq<Op>): nat {
    if run == [] then 0 else PutCount(run[..|run| - 1]) + if run[|run| - 1].Put? then 1 else 0
  }

  lemma {:induction false} PutCountMonotonic(run: seq<Op>, n: nat)
    requires n < |run| && run[n].Put?
    ensures PutCount(run[..n]) < PutCount(run)
    decreases |run|
  {
    var k := |run| - 1;
    if n < k {
      assert run[..k][..n] == run[..n];
      PutCountMonotonic(run[..k], n);
    }
  }

  lemma StepGrowsByPuts(ops: Ops, kind: HashmapType, w: nat, s: Machine, op: Op, a: Answer, s': Machine)
    requires Step(ops, kind, w, s, op, a, s')
    ensures |s'.items| <= |s.items| + if op.Put? then 1 else 0
  {
    hide PlanResize, Resized, Lookup;
  }

  lemma {:induction false} RunGrowsByPuts(ops: Ops, kind: HashmapType, w: nat, trace: seq<Machine>, run: seq<Op>, answers: seq<Answer>, n: nat)
    requires IsRun(ops, kind, w, trace, run, answers) && n <= |run|
    ensures |trace[n].items| <= |trace[0].items| + PutCount(run[..n])
  {
    hide Step;
    if n > 0 {
      RunGrowsByPuts(ops, kind, w, trace, run, answers, n - 1);
      assert StepAt(ops, kind, w, trace, run, answers, n - 1);
      StepGrowsByPuts(ops, kind, w, trace[n - 1], run[n - 1], answers[n - 1], trace[n]);
      assert run[..n][..n - 1] == run[..n - 1];
    }
  }

  /** As long as the entries stored and the puts to come are addressable, all puts are defined. */
  lemma FewPutsDefined(ops: Ops, kind: HashmapType, w: nat, s: Machine, run: seq<Op>)
    requires WordSize(w) && EntriesAddressable(kind, w, |s.items| + PutCount(run))
    ensures PutsDefined(ops, kind, w, s, run)
  {
    hide EntriesAddressable, IsRun, PutDefined;
    forall n: nat, trace: seq<Machine>, answers: seq<Answer> {:trigger IsRun(ops, kind, w, trace, run[..n], answers)}
      | n < |run| && IsRun(ops, kind, w, trace, run[..n], answers) && trace[0] == s && run[n].Put?
      ensures PutDefined(ops, kind, w, trace[n], run[n].key)
    {
      RunGrowsByPuts(ops, kind, w, trace, run[..n], answers, n);
      assert run[..n][..n] == run[..n];
      PutCountMonotonic(run, n);
      AddressableMonotonic(kind, w, |trace[n].items| + 1, |s.items| + PutCount(run));
      AddressablePutDefined(ops, kind, w, trace[n], run[n].key);
    }
  }

  lemma AddressablePutDefined(ops: Ops, kind: HashmapType, w: nat, s: Machine, key: Ptr)
    requires WordSize(w) && EntriesAddressable(kind, w, |s.items| + 1)
    ensures PutDefined(ops, kind, w, s, key)
  {
    hide PlanResize, CellSize;
    FewBytes(kind, w, |s.items| + 1 + (|s.items| + 1) / LOAD_DIVISOR);
    UndefinedShiftJustWhen(kind, w, s.room.indirect, s.room.nBuckets, |s.items|, 1);
  }

  // ----- what runs of the abstract machine are like

  ghost predicate Sound(ops: Ops, s: Machine) {
    ops.Lawful() && UniqueKeys(ops, s.items)
  }

  lemma NoKeysAreUnique(ops: Ops)
    ensures UniqueKeys(ops, [])
  {
  }

  lemma StepKeepsSound(ops: Ops, kind: HashmapType, w: nat, s: Machine, op: Op, a: Answer, s': Machine)
    requires Sound(ops, s) && Step(ops, kind, w, s, op, a, s')
    ensures Sound(ops, s')
  {
    hide UniqueKeys, PlanResize, Resized, Lookup, Without;
    NoKeysAreUnique(ops);
    if s'.items != s.items {
      match op
      case Put(key, value, _, _) =>
        AppendKeepsUnique(ops, s.items, NewPair(kind, key, value));
      case Remove(key) =>
        WithoutKeepsUnique(ops, s.items, Lookup(ops, s.items, key));
      case StealFirst =>
        var k :| 0 <= k < |s.items| && s' == s.(items := Without(s.items, k));
        WithoutKeepsUnique(ops, s.items, k);
      case _ =>
    }
  }

  /** A put that succeeds binds its key, under all keys that compare equal, and leaves all other keys alone. */
  lemma PutBinds(ops: Ops, kind: HashmapType, w: nat, s: Machine, op: Op, s': Machine, key: Ptr)
    requires Sound(ops, s) && op.Put? && Step(ops, kind, w, s, op, Code(1), s')
    ensures Binding(ops, s'.items, key) == if ops.Same(op.key, key) then Some(NewPair(kind, op.key, op.value).value) else Binding(ops, s.items, key)
  {
    var items := s'.items;
    StepKeepsSound(ops, kind, w, s, op, Code(1), s');
    if ops.Same(op.key, key) {
      LookupIs(ops, items, key, |items| - 1);
    } else if Lookup(ops, s.items, key) < |s.items| {
      assert items[Lookup(ops, s.items, key)] == s.items[Lookup(ops, s.items, key)];
      LookupIs(ops, items, key, Lookup(ops, s.items, key));
    } else {
      LookupNone(ops, items, key);
    }
  }

  /** The bindings decide what every get and every remove answers; for a set the answer is the key as stored. */
  lemma BindingDecides(ops: Ops, kind: HashmapType, w: nat, s: Machine, op: Op, a: Answer, s': Machine)
    requires Sound(ops, s) && (op.Get? || op.Remove?) && Step(ops, kind, w, s, op, a, s')
    ensures match Binding(ops, s.items, op.key)
            case None => a == Value(NULL)
            case Some(v) => if kind == SET then a.Value? && ops.Same(a.v, op.key) && Pair(a.v, v) in s.items else a == Value(v)
  {
    LookupAnswers(ops, kind, s.items, op.key);
    var k := Lookup(ops, s.items, op.key);
    assert k < |s.items| ==> s.items[k] == Pair(s.items[k].key, s.items[k].value);
  }

  /** After a put that succeeds, a get of any equal key gives the value that was put, or for a set the key. */
  lemma PutThenGet(ops: Ops, kind: HashmapType, w: nat, s: Machine, key: Ptr, value: Ptr, newKey: Seed, memory: bool, s': Machine,
                   other: Ptr, a: Answer, s'': Machine)
    requires Sound(ops, s) && Step(ops, kind, w, s, Op.Put(key, value, newKey, memory), Code(1), s')
    requires ops.Same(key, other) && Step(ops, kind, w, s', Op.Get(other), a, s'')
    ensures a == Value(match kind case PLAIN => value case ORDERED => value case SET => key)
  {
    StepKeepsSound(ops, kind, w, s, Op.Put(key, value, newKey, memory), Code(1), s');
    LookupAnswers(ops, kind, s'.items, other);
    assert s'.items[|s.items|].key == key;
  }

  /** What a run may do without undoing a binding: anything but removing that key, stealing, and clearing. */
  predicate Spares(ops: Ops, op: Op, key: Ptr) {
    !(op.Remove? && ops.Same(op.key, key)) && !op.StealFirst? && !op.Clear?
  }

  lemma StepKeepsBinding(ops: Ops, kind: HashmapType, w: nat, s: Machine, op: Op, a: Answer, s': Machine, key: Ptr)
    requires Sound(ops, s) && Step(ops, kind, w, s, op, a, s') && Spares(ops, op, key) && Binding(ops, s.items, key).Some?
    ensures Sound(ops, s') && Binding(ops, s'.items, key) == Binding(ops, s.items, key)
  {
    StepKeepsSound(ops, kind, w, s, op, a, s');
    if op.Put? && a == Code(1) {
      PutBinds(ops, kind, w, s, op, s', key);
      if ops.Same(op.key, key) {
        EqualKeysBound(ops, s.items, op.key, key);
      }
    } else if op.Remove? {
      RemoveUnbinds(ops, kind, w, s, op, a, s', key);
    }
  }

  lemma EqualKeysBound(ops: Ops, items: seq<Pair>, a: Ptr, b: Ptr)
    requires ops.Lawful() && UniqueKeys(ops, items) && ops.Same(a, b)
    ensures Binding(ops, items, a) == Binding(ops, items, b)
  {
    var k, m := Lookup(ops, items, a), Lookup(ops, items, b);
    if k < |items| {
      LookupIs(ops, items, b, k);
    } else if m < |items| {
      assert ops.Same(items[m].key, a);
    }
  }

  /** A binding lasts over every run that spares it. */
  lemma {:induction false} BindingLasts(ops: Ops, kind: HashmapType, w: nat, trace: seq<Machine>, run: seq<Op>, answers: seq<Answer>, n: nat, key: Ptr)
    requires IsRun(ops, kind, w, trace, run, answers) && Sound(ops, trace[0]) && n <= |run|
    requires Binding(ops, trace[0].items, key).Some? && forall j :: 0 <= j < n ==> Spares(ops, run[j], key)
    ensures Sound(ops, trace[n]) && Binding(ops, trace[n].items, key) == Binding(ops, trace[0].items, key)
  {
    hide Step, Binding, Sound;
    if n > 0 {
      BindingLasts(ops, kind, w, trace, run, answers, n - 1, key);
      assert StepAt(ops, kind, w, trace, run, answers, n - 1);
      StepKeepsBinding(ops, kind, w, trace[n - 1], run[n - 1], answers[n - 1], trace[n], key);
    }
  }

  lemma SameJoins(ops: Ops, x: Ptr, a: Ptr, b: Ptr)
    requires ops.Lawful()
    ensures ops.Same(x, a) && ops.Same(x, b) ==> ops.Same(a, b)
  {
  }

  lemma OthersDiffer(ops: Ops, items: seq<Pair>, key: Ptr, i: nat)
    requires ops.Lawful() && UniqueKeys(ops, items) && i < |items| && i != Lookup(ops, items, key)
    ensures !ops.Same(items[i].key, key)
  {
    if ops.Same(items[i].key, key) {
      LookupIs(ops, items, key, i);
    }
  }

  /** A remove unbinds its key, under all keys that compare equal, and leaves all other keys alone. */
  lemma RemoveUnbinds(ops: Ops, kind: HashmapType, w: nat, s: Machine, op: Op, a: Answer, s': Machine, key: Ptr)
    requires Sound(ops, s) && op.Remove? && Step(ops, kind, w, s, op, a, s')
    ensures Binding(ops, s'.items, key) == if ops.Same(op.key, key) then None else Binding(ops, s.items, key)
  {
    var k, m := Lookup(ops, s.items, op.key), Lookup(ops, s.items, key);
    StepKeepsSound(ops, kind, w, s, op, a, s');
    if ops.Same(op.key, key) {
      forall j | 0 <= j < |s'.items| ensures !ops.Same(s'.items[j].key, key) {
        var i := if k < |s.items| && j >= k then j + 1 else j;
        assert s'.items[j] == s.items[i];
        OthersDiffer(ops, s.items, op.key, i);
        assert ops.Same(key, op.key);
      }
      LookupNone(ops, s'.items, key);
    } else if m < |s.items| {
      SameJoins(ops, s.items[m].key, op.key, key);
      var i := if k < m then m - 1 else m;
      assert s'.items[i] == s.items[m];
      LookupIs(ops, s'.items, key, i);
    } else {
      forall j | 0 <= j < |s'.items| ensures !ops.Same(s'.items[j].key, key) {
        assert s'.items[j] == s.items[if k < |s.items| && j >= k then j + 1 else j];
      }
      LookupNone(ops, s'.items, key);
    }
  }

  /** p is stored, and was put before q, which is stored too. */
  ghost predicate Before(items: seq<Pair>, p: Pair, q: Pair) {
    exists i, j :: 0 <= i < j < |items| && items[i] == p && items[j] == q
  }

  lemma StepKeepsOrder(ops: Ops, kind: HashmapType, w: nat, s: Machine, op: Op, a: Answer, s': Machine, p: Pair, q: Pair)
    requires Sound(ops, s) && Step(ops, kind, w, s, op, a, s')
    requires Before(s.items, p, q) && p in s'.items && q in s'.items
    ensures Before(s'.items, p, q)
  {
    forall i, j | 0 <= i < j < |s.items| ensures s.items[i] != s.items[j] {
      assert ops.Same(s.items[i].key, s.items[i].key);
    }
    if |s'.items| < |s.items| {
      var k :| 0 <= k < |s.items| && s'.items == Without(s.items, k);
      OrderWithout(s.items, k, p, q);
    } else {
      var i, j :| 0 <= i < j < |s.items| && s.items[i] == p && s.items[j] == q;
      assert s'.items[i] == p && s'.items[j] == q;
    }
  }

  lemma OrderWithout(items: seq<Pair>, k: nat, p: Pair, q: Pair)
    requires k < |items| && Before(items, p, q) && p in Without(items, k) && q in Without(items, k)
    requires forall i, j :: 0 <= i < j < |items| ==> items[i] != items[j]
    ensures Before(Without(items, k), p, q)
  {
    var i, j :| 0 <= i < j < |items| && items[i] == p && items[j] == q;
    var x :| 0 <= x < |Without(items, k)| && Without(items, k)[x] == p;
    var y :| 0 <= y < |Without(items, k)| && Without(items, k)[y] == q;
    assert items[if x < k then x else x + 1] == p && items[if y < k then y else y + 1] == q;
  }

  /** Insertion order: two pairs that stay in the table keep their order over any run, whatever is put, removed or resized. */
  lemma {:induction false} RunKeepsOrder(ops: Ops, kind: HashmapType, w: nat, trace: seq<Machine>, run: seq<Op>, answers: seq<Answer>, n: nat, p: Pair, q: Pair)
    requires IsRun(ops, kind, w, trace, run, answers) && Sound(ops, trace[0]) && n <= |run|
    requires Before(trace[0].items, p, q)
    requires forall j :: 0 <= j <= n ==> p in trace[j].items && q in trace[j].items
    ensures Sound(ops, trace[n]) && Before(trace[n].items, p, q)
  {
    if n > 0 {
      RunKeepsOrder(ops, kind, w, trace, run, answers, n - 1, p, q);
      assert StepAt(ops, kind, w, trace, run, answers, n - 1);
      StepKeepsSound(ops, kind, w, trace[n - 1], run[n - 1], answers[n - 1], trace[n]);
      StepKeepsOrder(ops, kind, w, trace[n - 1], run[n - 1], answers[n - 1], trace[n], p, q);
    }
  }
}
