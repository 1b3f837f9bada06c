/** The snapshot of object graphs in packages/identity/src/canonical-json.ts. */
module JsonSnapshots {
  import opened Wrappers
  import opened Utf8
  import opened Json
  import opened CanonicalJson

  // A graph of JavaScript objects, shared or cyclic, becomes plain JSON data. `JsonSnapshot` walks it as
  // the source does, with index loops and an `ancestors` set it adds to and deletes from; `Unfold` is
  // the plain recursion.

  type ObjectId = nat

  /** A JavaScript value; `OtherValue` is undefined, a function, a symbol or a bigint. */
  datatype Value<N> =
    | NullValue
    | BoolValue(value: bool)
    | NumberValue(number: N)
    | StringValue(text: Text)
    | ObjectValue(id: ObjectId)
    | OtherValue

  /** An own property: enumerable data, or an accessor, a hole or a hidden property. */
  datatype Property<N> = Data(value: Value<N>) | NotData

  datatype Key = StringKey(text: Text) | SymbolKey

  datatype NamedProperty<N> = Named(key: Key, property: Property<N>)

  datatype Object<N> =
    | ArrayObject(ownKeys: nat, slots: seq<Property<N>>)
    | RecordObject(properties: seq<NamedProperty<N>>)
    | ProxyObject
    | OtherObject  // another prototype: a class instance, a Map, a Date

  type Heap<N> = map<ObjectId, Object<N>>

  /** Every reference leads to an object. */
  ghost predicate Closed<N>(h: Heap<N>) {
    forall id :: id in h ==>
      match h[id]
      case ArrayObject(_, slots) => forall i :: 0 <= i < |slots| ==> InHeap(h, slots[i])
      case RecordObject(ps) => forall i :: 0 <= i < |ps| ==> InHeap(h, ps[i].property)
      case _ => true
  }

  ghost predicate InHeap<N>(h: Heap<N>, p: Property<N>) {
    p.Data? && p.value.ObjectValue? ==> p.value.id in h
  }

  // ------------------------------------------------------- plain recursion

  /** The tree `v` unfolds to below `depth` containers, without looking at ancestors. */
  function Unfold<N>(f: NumberFormat<N>, h: Heap<N>, v: Value<N>, depth: nat): Option<Json<N>>
    requires depth <= MAXIMUM_CONTAINER_DEPTH
    decreases MAXIMUM_CONTAINER_DEPTH - depth, 0
  {
    match v
    case NullValue => Some(Null)
    case BoolValue(b) => Some(Bool(b))
    case NumberValue(n) => if f.finite(n) then Some(Num(n)) else None
    case StringValue(t) => if WellFormed(t) then Some(Str(t)) else None
    case OtherValue => None
    case ObjectValue(id) =>
      if depth >= MAXIMUM_CONTAINER_DEPTH || id !in h then None
      else
        match h[id]
        case ArrayObject(ownKeys, slots) => (
          if ownKeys != |slots| + 1 then None
          else
            match UnfoldSlots(f, h, slots, depth + 1)
            case None => None
            case Some(items) => Some(Arr(items)))
        case RecordObject(properties) => (
          match UnfoldProperties(f, h, properties, depth + 1)
          case None => None
          case Some(members) => Some(Obj(members)))
        case _ => None
  }

  function UnfoldSlots<N>(f: NumberFormat<N>, h: Heap<N>, slots: seq<Property<N>>,
                          depth: nat): (r: Option<seq<Json<N>>>)
    requires depth <= MAXIMUM_CONTAINER_DEPTH
    ensures r.Some? ==> |r.value| == |slots|
    decreases MAXIMUM_CONTAINER_DEPTH - depth, 1 + |slots|
  {
    if slots == [] then Some([])
    else if slots[0].NotData? then None
    else
      match Unfold(f, h, slots[0].value, depth)
      case None => None
      case Some(item) =>
        match UnfoldSlots(f, h, slots[1..], depth)
        case None => None
        case Some(items) => Some([item] + items)
  }

  function UnfoldProperty<N>(f: NumberFormat<N>, h: Heap<N>, p: NamedProperty<N>, depth: nat): Option<Member<N>>
    requires depth <= MAXIMUM_CONTAINER_DEPTH
    decreases MAXIMUM_CONTAINER_DEPTH - depth, 1
  {
    if p.key.SymbolKey? || !WellFormed(p.key.text) || p.property.NotData? then None
    else
      match Unfold(f, h, p.property.value, depth)
      case None => None
      case Some(v) => Some(Member(p.key.text, v))
  }

  function UnfoldProperties<N>(f: NumberFormat<N>, h: Heap<N>, ps: seq<NamedProperty<N>>, depth: nat)
    : (r: Option<seq<Member<N>>>)
    requires depth <= MAXIMUM_CONTAINER_DEPTH
    ensures r.Some? ==> |r.value| == |ps|
    decreases MAXIMUM_CONTAINER_DEPTH - depth, 2 + |ps|
  {
    if ps == [] then Some([])
    else
      match UnfoldProperty(f, h, ps[0], depth)
      case None => None
      case Some(member) =>
        match UnfoldProperties(f, h, ps[1..], depth)
        case None => None
        case Some(members) => Some([member] + members)
  }

  // ------------------------------------------------ what a tree of a graph is

  /** `tree` has the shape of the graph below `v`. */
  ghost predicate UnfoldsTo<N>(h: Heap<N>, v: Value<N>, tree: Json<N>)
    decreases tree, 0
  {
    match tree
    case Null => v == NullValue
    case Bool(b) => v == BoolValue(b)
    case Num(n) => v == NumberValue(n)
    case Str(t) => v == StringValue(t)
    case Arr(items) =>
      && v.ObjectValue? && v.id in h && h[v.id].ArrayObject?
      && h[v.id].ownKeys == |items| + 1 && |h[v.id].slots| == |items|
      && forall i :: 0 <= i < |items| ==> SlotUnfoldsTo(h, h[v.id].slots[i], items[i])
    case Obj(members) =>
      && v.ObjectValue? && v.id in h && h[v.id].RecordObject?
      && |h[v.id].properties| == |members|
      && forall i :: 0 <= i < |members| ==>
        h[v.id].properties[i].key == StringKey(members[i].key)
        && SlotUnfoldsTo(h, h[v.id].properties[i].property, members[i].value)
  }

  ghost predicate SlotUnfoldsTo<N>(h: Heap<N>, p: Property<N>, tree: Json<N>)
    decreases tree, 1
  {
    p.Data? && UnfoldsTo(h, p.value, tree)
  }

  lemma {:induction false} UnfoldGivesTree<N>(f: NumberFormat<N>, h: Heap<N>, v: Value<N>, depth: nat)
    requires depth <= MAXIMUM_CONTAINER_DEPTH
    ensures var r := Unfold(f, h, v, depth);
      r.Some? ==> UnfoldsTo(h, v, r.value) && ValidAt(f, r.value, depth)
    decreases MAXIMUM_CONTAINER_DEPTH - depth, 0
  {
    if v.ObjectValue? && depth < MAXIMUM_CONTAINER_DEPTH && v.id in h {
      match h[v.id] {
        case ArrayObject(_, slots) => UnfoldSlotsGiveTrees(f, h, slots, depth + 1);
        case RecordObject(ps) => UnfoldPropertiesGiveTrees(f, h, ps, depth + 1);
        case _ =>
      }
    }
  }

  lemma {:induction false} UnfoldSlotsGiveTrees<N>(f: NumberFormat<N>, h: Heap<N>, slots: seq<Property<N>>, depth: nat)
    requires depth <= MAXIMUM_CONTAINER_DEPTH
    ensures var r := UnfoldSlots(f, h, slots, depth);
      r.Some? ==> forall i :: 0 <= i < |slots| ==>
        SlotUnfoldsTo(h, slots[i], r.value[i]) && ValidAt(f, r.value[i], depth)
    decreases MAXIMUM_CONTAINER_DEPTH - depth, 1 + |slots|
  {
    if slots != [] && slots[0].Data? {
      UnfoldGivesTree(f, h, slots[0].value, depth);
      UnfoldSlotsGiveTrees(f, h, slots[1..], depth);
    }
  }

  lemma {:induction false} UnfoldPropertiesGiveTrees<N>(f: NumberFormat<N>, h: Heap<N>, ps: seq<NamedProperty<N>>,
                                                        depth: nat)
    requires depth <= MAXIMUM_CONTAINER_DEPTH
    ensures var r := UnfoldProperties(f, h, ps, depth);
      r.Some? ==> forall i :: 0 <= i < |ps| ==>
        ps[i].key == StringKey(r.value[i].key) && WellFormed(r.value[i].key)
        && SlotUnfoldsTo(h, ps[i].property, r.value[i].value) && ValidAt(f, r.value[i].value, depth)
    decreases MAXIMUM_CONTAINER_DEPTH - depth, 2 + |ps|
  {
    if ps != [] {
      if ps[0].property.Data? { UnfoldGivesTree(f, h, ps[0].property.value, depth); }
      UnfoldPropertiesGiveTrees(f, h, ps[1..], depth);
    }
  }

  lemma {:induction false} TreeIsUnfolded<N>(f: NumberFormat<N>, h: Heap<N>, v: Value<N>, tree: Json<N>, depth: nat)
    requires depth <= MAXIMUM_CONTAINER_DEPTH && UnfoldsTo(h, v, tree) && ValidAt(f, tree, depth)
    ensures Unfold(f, h, v, depth) == Some(tree)
    decreases tree, 0
  {
    match tree {
      case Arr(items) => TreesAreUnfoldedSlots(f, h, h[v.id].slots, items, depth + 1);
      case Obj(members) => TreesAreUnfoldedProperties(f, h, h[v.id].properties, members, depth + 1);
      case _ =>
    }
  }

  lemma {:induction false} TreesAreUnfoldedSlots<N>(f: NumberFormat<N>, h: Heap<N>, slots: seq<Property<N>>,
                                                    items: seq<Json<N>>, depth: nat)
    requires depth <= MAXIMUM_CONTAINER_DEPTH && |slots| == |items|
    requires forall i :: 0 <= i < |items| ==> SlotUnfoldsTo(h, slots[i], items[i]) && ValidAt(f, items[i], depth)
    ensures UnfoldSlots(f, h, slots, depth) == Some(items)
    decreases items, 1
  {
    if items != [] {
      TreeIsUnfolded(f, h, slots[0].value, items[0], depth);
      TreesAreUnfoldedSlots(f, h, slots[1..], items[1..], depth);
      assert items == [items[0]] + items[1..];
    }
  }

  lemma {:induction false} TreesAreUnfoldedProperties<N>(f: NumberFormat<N>, h: Heap<N>, ps: seq<NamedProperty<N>>,
                                                         members: seq<Member<N>>, depth: nat)
    requires depth <= MAXIMUM_CONTAINER_DEPTH && |ps| == |members|
    requires forall i :: 0 <= i < |members| ==>
      ps[i].key == StringKey(members[i].key) && WellFormed(members[i].key)
      && SlotUnfoldsTo(h, ps[i].property, members[i].value) && ValidAt(f, members[i].value, depth)
    ensures UnfoldProperties(f, h, ps, depth) == Some(members)
    decreases members, 1
  {
    if members != [] {
      TreeIsUnfolded(f, h, ps[0].property.value, members[0].value, depth);
      TreesAreUnfoldedProperties(f, h, ps[1..], members[1..], depth);
      assert members == [members[0]] + members[1..];
    }
  }

  /**
   * The snapshot succeeds exactly when the graph unfolds to a tree of valid JSON data, of container
   * depth at most 16 below `depth`, and then it is that tree.
   */
  lemma UnfoldIffTree<N>(f: NumberFormat<N>, h: Heap<N>, v: Value<N>, tree: Json<N>, depth: nat)
    requires depth <= MAXIMUM_CONTAINER_DEPTH
    ensures Unfold(f, h, v, depth) == Some(tree) <==> UnfoldsTo(h, v, tree) && ValidAt(f, tree, depth)
  {
    UnfoldGivesTree(f, h, v, depth);
    if UnfoldsTo(h, v, tree) && ValidAt(f, tree, depth) { TreeIsUnfolded(f, h, v, tree, depth); }
  }

  // ------------------------------------------------------------ cycles

  /** `a` holds `b` in an enumerable data property. */
  ghost predicate Holds<N>(h: Heap<N>, a: ObjectId, b: ObjectId) {
    a in h &&
    match h[a]
    case ArrayObject(_, slots) => Data(ObjectValue(b)) in slots
    case RecordObject(ps) => exists i :: 0 <= i < |ps| && ps[i].property == Data(ObjectValue(b))
    case _ => false
  }

  ghost predicate Path<N>(h: Heap<N>, p: seq<ObjectId>) {
    |p| < 2 || (Holds(h, p[0], p[1]) && Path(h, p[1..]))
  }

  ghost predicate Reaches<N>(h: Heap<N>, a: ObjectId, b: ObjectId) {
    exists p :: |p| >= 2 && p[0] == a && p[|p| - 1] == b && Path(h, p)
  }

  lemma {:induction false} PathSnoc<N>(h: Heap<N>, p: seq<ObjectId>, b: ObjectId)
    requires p != [] && Path(h, p) && Holds(h, p[|p| - 1], b)
    ensures Path(h, p + [b])
  {
    if |p| == 1 {
      assert (p + [b])[1..] == [b];
    } else {
      PathSnoc(h, p[1..], b);
      assert (p + [b])[1..] == p[1..] + [b];
    }
  }

  lemma ReachesNext<N>(h: Heap<N>, a: ObjectId, b: ObjectId, c: ObjectId)
    requires (a == b || Reaches(h, a, b)) && Holds(h, b, c)
    ensures Reaches(h, a, c)
  {
    var p := [a];
    if a != b {
      p :| |p| >= 2 && p[0] == a && p[|p| - 1] == b && Path(h, p);
    }
    PathSnoc(h, p, c);
    assert |p + [c]| >= 2 && (p + [c])[0] == a;
  }

  lemma {:induction false} UnfoldedSlotUnfolds<N>(f: NumberFormat<N>, h: Heap<N>, slots: seq<Property<N>>, depth: nat,
                                                  b: ObjectId)
    requires depth <= MAXIMUM_CONTAINER_DEPTH && UnfoldSlots(f, h, slots, depth).Some?
    requires Data(ObjectValue(b)) in slots
    ensures Unfold(f, h, ObjectValue(b), depth).Some?
  {
    if slots[0] != Data(ObjectValue(b)) {
      assert slots == [slots[0]] + slots[1..];
      UnfoldedSlotUnfolds(f, h, slots[1..], depth, b);
    }
  }

  lemma {:induction false} UnfoldedPropertyUnfolds<N>(f: NumberFormat<N>, h: Heap<N>, ps: seq<NamedProperty<N>>,
                                                      depth: nat, i: nat)
    requires depth <= MAXIMUM_CONTAINER_DEPTH && UnfoldProperties(f, h, ps, depth).Some?
    requires i < |ps|
    ensures ps[i].property.Data? && Unfold(f, h, ps[i].property.value, depth).Some?
  {
    if i > 0 { UnfoldedPropertyUnfolds(f, h, ps[1..], depth, i - 1); }
  }

  /** Whatever an unfolding object holds unfolds one container deeper. */
  lemma HeldUnfolds<N>(f: NumberFormat<N>, h: Heap<N>, a: ObjectId, b: ObjectId, depth: nat)
    requires depth <= MAXIMUM_CONTAINER_DEPTH && Holds(h, a, b) && Unfold(f, h, ObjectValue(a), depth).Some?
    ensures depth < MAXIMUM_CONTAINER_DEPTH && Unfold(f, h, ObjectValue(b), depth + 1).Some?
  {
    match h[a] {
      case ArrayObject(_, slots) => UnfoldedSlotUnfolds(f, h, slots, depth + 1, b);
      case RecordObject(ps) =>
        var i :| 0 <= i < |ps| && ps[i].property == Data(ObjectValue(b));
        UnfoldedPropertyUnfolds(f, h, ps, depth + 1, i);
    }
  }

  lemma {:induction false} PathUnfolds<N>(f: NumberFormat<N>, h: Heap<N>, p: seq<ObjectId>, depth: nat)
    requires depth <= MAXIMUM_CONTAINER_DEPTH && p != [] && Path(h, p)
    requires Unfold(f, h, ObjectValue(p[0]), depth).Some?
    ensures depth + |p| - 1 <= MAXIMUM_CONTAINER_DEPTH
    ensures Unfold(f, h, ObjectValue(p[|p| - 1]), depth + |p| - 1).Some?
    decreases |p|
  {
    if |p| >= 2 {
      HeldUnfolds(f, h, p[0], p[1], depth);
      PathUnfolds(f, h, p[1..], depth + 1);
    }
  }

  /** An object on a cycle never unfolds, at any depth: the ancestor check only answers sooner. */
  lemma {:induction false} CycleNeverUnfolds<N>(f: NumberFormat<N>, h: Heap<N>, a: ObjectId, depth: nat)
    requires depth <= MAXIMUM_CONTAINER_DEPTH && Reaches(h, a, a)
    ensures Unfold(f, h, ObjectValue(a), depth) == None
    decreases MAXIMUM_CONTAINER_DEPTH - depth
  {
    var p :| |p| >= 2 && p[0] == a && p[|p| - 1] == a && Path(h, p);
    if Unfold(f, h, ObjectValue(a), depth).Some? {
      PathUnfolds(f, h, p, depth);
      CycleNeverUnfolds(f, h, a, depth + |p| - 1);
    }
  }

  // --------------------------------------------------------- the walk itself

  lemma JoinedFromStart<T>(r: Option<seq<T>>)
    ensures Joined([], r) == r
  {
    if r.Some? { assert [] + r.value == r.value; }
  }

  /** A loop's finished elements before those still to come. */
  ghost function Joined<T>(done: seq<T>, rest: Option<seq<T>>): Option<seq<T>> {
    match rest
    case None => None
    case Some(more) => Some(done + more)
  }

  class JsonSnapshot<N> {
    const format: NumberFormat<N>
    const heap: Heap<N>
    var ancestors: set<ObjectId>

    constructor (format: NumberFormat<N>, heap: Heap<N>)
      ensures this.format == format && this.heap == heap && ancestors == {}
    {
      this.format := format;
      this.heap := heap;
      ancestors := {};
    }

    /** Every ancestor leads to the object about to be visited. */
    ghost predicate AncestorsReach(id: ObjectId)
      reads this
    {
      forall a :: a in ancestors ==> Reaches(heap, a, id)
    }

    method VisitJsonValue(value: Value<N>, containerDepth: nat) returns (snapshot: Option<Json<N>>)
      requires Closed(heap) && containerDepth <= MAXIMUM_CONTAINER_DEPTH
      requires value.ObjectValue? ==> value.id in heap && AncestorsReach(value.id)
      modifies this`ancestors
      ensures snapshot == Unfold(format, heap, value, containerDepth)
      ensures ancestors == old(ancestors)
      decreases MAXIMUM_CONTAINER_DEPTH - containerDepth, 1
    {
      match value {
        case NullValue => snapshot := Some(Null);
        case BoolValue(b) => snapshot := Some(Bool(b));
        case NumberValue(n) => snapshot := if format.finite(n) then Some(Num(n)) else None;
        case StringValue(t) => snapshot := if WellFormed(t) then Some(Str(t)) else None;
        case ObjectValue(id) => snapshot := SnapshotJsonContainer(id, containerDepth);
        case OtherValue => snapshot := None;
      }
    }

    method SnapshotJsonContainer(id: ObjectId, containerDepth: nat) returns (snapshot: Option<Json<N>>)
      requires Closed(heap) && containerDepth <= MAXIMUM_CONTAINER_DEPTH
      requires id in heap && AncestorsReach(id)
      modifies this`ancestors
      ensures snapshot == Unfold(format, heap, ObjectValue(id), containerDepth)
      ensures ancestors == old(ancestors)
      decreases MAXIMUM_CONTAINER_DEPTH - containerDepth, 0
    {
      var nextDepth := containerDepth + 1;
      if nextDepth > MAXIMUM_CONTAINER_DEPTH || id in ancestors || heap[id].ProxyObject? {
        if id in ancestors { CycleNeverUnfolds(format, heap, id, containerDepth); }
        return None;
      }
      ancestors := ancestors + {id};
      match heap[id] {
        case ArrayObject(ownKeys, slots) =>
          var items := SnapshotJsonArray(id, ownKeys, slots, nextDepth);
          snapshot := if items.Some? then Some(Arr(items.value)) else None;
        case RecordObject(properties) =>
          var members := SnapshotJsonRecord(id, properties, nextDepth);
          snapshot := if members.Some? then Some(Obj(members.value)) else None;
        case OtherObject =>
          snapshot := None;
      }
      ancestors := ancestors - {id};
    }

    method SnapshotJsonArray(id: ObjectId, ownKeys: nat, slots: seq<Property<N>>, depth: nat)
      returns (snapshot: Option<seq<Json<N>>>)
      requires Closed(heap) && depth <= MAXIMUM_CONTAINER_DEPTH
      requires id in heap && heap[id] == ArrayObject(ownKeys, slots)
      requires forall a :: a in ancestors ==> a == id || Reaches(heap, a, id)
      modifies this`ancestors
      ensures snapshot == if ownKeys == |slots| + 1 then UnfoldSlots(format, heap, slots, depth) else None
      ensures ancestors == old(ancestors)
      decreases MAXIMUM_CONTAINER_DEPTH - depth, 2
    {
      if ownKeys != |slots| + 1 {
        return None;
      }
      var items: seq<Json<N>> := [];
      assert slots[0..] == slots;
      JoinedFromStart(UnfoldSlots(format, heap, slots, depth));
      for index := 0 to |slots|
        invariant ancestors == old(ancestors)
        invariant UnfoldSlots(format, heap, slots, depth)
          == Joined(items, UnfoldSlots(format, heap, slots[index..], depth))
      {
        if slots[index].NotData? {
          return None;
        }
        if slots[index].value.ObjectValue? {
          assert InHeap(heap, slots[index]) && Holds(heap, id, slots[index].value.id);
          forall a | a in ancestors ensures Reaches(heap, a, slots[index].value.id) {
            ReachesNext(heap, a, id, slots[index].value.id);
          }
        }
        var item := VisitJsonValue(slots[index].value, depth);
        if item.None? {
          return None;
        }
        assert slots[index..][1..] == slots[index + 1..];
        ghost var rest := UnfoldSlots(format, heap, slots[index + 1..], depth);
        assert rest.Some? ==> items + ([item.value] + rest.value) == items + [item.value] + rest.value;
        items := items + [item.value];
      }
      assert slots[|slots|..] == [];
      assert items + [] == items;
      snapshot := Some(items);
    }

    method SnapshotJsonRecord(id: ObjectId, properties: seq<NamedProperty<N>>, depth: nat)
      returns (snapshot: Option<seq<Member<N>>>)
      requires Closed(heap) && depth <= MAXIMUM_CONTAINER_DEPTH
      requires id in heap && heap[id] == RecordObject(properties)
      requires forall a :: a in ancestors ==> a == id || Reaches(heap, a, id)
      modifies this`ancestors
      ensures snapshot == UnfoldProperties(format, heap, properties, depth)
      ensures ancestors == old(ancestors)
      decreases MAXIMUM_CONTAINER_DEPTH - depth, 2
    {
      var members: seq<Member<N>> := [];
      var index := 0;
      assert properties[0..] == properties;
      JoinedFromStart(UnfoldProperties(format, heap, properties, depth));
      while index < |properties|
        invariant 0 <= index <= |properties|
        invariant ancestors == old(ancestors)
        invariant UnfoldProperties(format, heap, properties, depth)
          == Joined(members, UnfoldProperties(format, heap, properties[index..], depth))
      {
        var p := properties[index];
        if p.key.SymbolKey? || !WellFormed(p.key.text) || p.property.NotData? {
          return None;
        }
        if p.property.value.ObjectValue? {
          assert InHeap(heap, p.property) && Holds(heap, id, p.property.value.id);
          forall a | a in ancestors ensures Reaches(heap, a, p.property.value.id) {
            ReachesNext(heap, a, id, p.property.value.id);
          }
        }
        var value := VisitJsonValue(p.property.value, depth);
        if value.None? {
          return None;
        }
        var member := Member(p.key.text, value.value);
        assert properties[index..][1..] == properties[index + 1..];
        ghost var rest := UnfoldProperties(format, heap, properties[index + 1..], depth);
        assert rest.Some? ==> members + ([member] + rest.value) == members + [member] + rest.value;
        members := members + [member];
        index := index + 1;
      }
      assert properties[|properties|..] == [];
      assert members + [] == members;
      snapshot := Some(members);
    }

    /** `snapshotJsonValue`. */
    method Snapshot(root: Value<N>) returns (snapshot: Option<Json<N>>)
      requires Closed(heap) && ancestors == {}
      requires root.ObjectValue? ==> root.id in heap
      modifies this`ancestors
      ensures snapshot == Unfold(format, heap, root, 0)
      ensures ancestors == {}
    {
      snapshot := VisitJsonValue(root, 0);
    }
  }

  // -------------------------------------------------- records have distinct keys

  ghost predicate DistinctNames<N>(ps: seq<NamedProperty<N>>) {
    forall i, j :: 0 <= i < j < |ps| ==> ps[i].key != ps[j].key || ps[i].key == SymbolKey
  }

  /** No object has two own properties of one name. */
  ghost predicate NamesDistinct<N>(h: Heap<N>) {
    forall id :: id in h && h[id].RecordObject? ==> DistinctNames(h[id].properties)
  }

  lemma {:induction false} DistinctNamesGiveKeys<N>(h: Heap<N>, ps: seq<NamedProperty<N>>, members: seq<Member<N>>)
    requires DistinctNames(ps) && |ps| == |members|
    requires forall i :: 0 <= i < |members| ==> ps[i].key == StringKey(members[i].key)
    ensures DistinctKeys(members)
  {
    if members != [] {
      DistinctNamesGiveKeys(h, ps[1..], members[1..]);
      HasKeyIsMembership(members[1..], members[0].key);
    }
  }

  lemma {:induction false} TreeKeysUnique<N>(h: Heap<N>, v: Value<N>, tree: Json<N>)
    requires NamesDistinct(h) && UnfoldsTo(h, v, tree)
    ensures KeysUnique(tree)
    decreases tree
  {
    match tree {
      case Arr(items) =>
        forall i | 0 <= i < |items| ensures KeysUnique(items[i]) {
          assert SlotUnfoldsTo(h, h[v.id].slots[i], items[i]);
          TreeKeysUnique(h, h[v.id].slots[i].value, items[i]);
        }
      case Obj(members) =>
        var ps := h[v.id].properties;
        DistinctNamesGiveKeys(h, ps, members);
        forall i | 0 <= i < |members| ensures KeysUnique(members[i].value) {
          assert SlotUnfoldsTo(h, ps[i].property, members[i].value);
          TreeKeysUnique(h, ps[i].property.value, members[i].value);
        }
      case _ =>
    }
  }

  /**
   * Encoding a JavaScript value and parsing the bytes gives back the tree the value unfolds to, for
   * every finite object graph that has one.
   */
  lemma EncodedGraphParses<N(!new)>(f: NumberFormat<N>, h: Heap<N>, root: Value<N>)
    requires StableFormat(f) && NamesDistinct(h) && Unfold(f, h, root, 0).Some?
    ensures var tree := Unfold(f, h, root, 0).value;
      EncodeCanonicalJson(f, tree).Some?
      && ParseCanonicalJson(f, EncodeCanonicalJson(f, tree).value) == Some(Reread(f, Sorted(tree)))
  {
    UnfoldGivesTree(f, h, root, 0);
    TreeKeysUnique(h, root, Unfold(f, h, root, 0).value);
    ParseOfEncode(f, Unfold(f, h, root, 0).value);
  }
}
