/**
 * The value held by a model node: one variant out of a closed set, and the
 * node cell (a protection flag plus a value) that structural variants own as
 * children. Deep copy, recursive protection and value equality live here.
 */
module Values {
  import opened Wrappers

  /** Java `int` and `long`. */
  type Int32 = x: int | -0x8000_0000 <= x < 0x8000_0000
  type Int64 = x: int | -0x8000_0000_0000_0000 <= x < 0x8000_0000_0000_0000

  const MaxInt: Int32 := 0x7fff_ffff

  /** The type tags of the value variants. */
  datatype ModelType =
    | BigDecimalType | BigIntegerType | BooleanType | BytesType | DoubleType
    | ExpressionType | IntType | ListType | LongType | ObjectType
    | PropertyType | StringType | TypeType | UndefinedType

  /**
   * One variant per type tag. Double and big-number payloads are kept opaque:
   * a double is its IEEE-754 bit pattern, a big integer its two's-complement
   * bytes, a big decimal its unscaled bytes and its scale.
   */
  datatype Value =
    | UndefinedValue
    | BooleanValue(b: bool)
    | IntValue(i: Int32)
    | LongValue(l: Int64)
    | DoubleValue(bits: bv64)
    | BigIntegerValue(magnitude: seq<bv8>)
    | BigDecimalValue(unscaled: seq<bv8>, scale: Int32)
    | BytesValue(bytes: seq<bv8>)
    | StringValue(str: string)
    | ExpressionValue(expr: string)
    | TypeValue(t: ModelType)
    | ListValue(items: seq<Node>)
    | ObjectValue(entries: seq<Entry>)
    | PropertyValue(name: string, child: Node)
  {
    function Type(): ModelType {
      match this
      case UndefinedValue => UndefinedType
      case BooleanValue(_) => BooleanType
      case IntValue(_) => IntType
      case LongValue(_) => LongType
      case DoubleValue(_) => DoubleType
      case BigIntegerValue(_) => BigIntegerType
      case BigDecimalValue(_, _) => BigDecimalType
      case BytesValue(_) => BytesType
      case StringValue(_) => StringType
      case ExpressionValue(_) => ExpressionType
      case TypeValue(_) => TypeType
      case ListValue(_) => ListType
      case ObjectValue(_) => ObjectType
      case PropertyValue(_, _) => PropertyType
    }

    /** `isDefined()`: the type is not UNDEFINED. */
    predicate IsDefined()
      ensures IsDefined() <==> !UndefinedValue?
    {
      Type() != UndefinedType
    }

    /** List, object and property are the collection types. */
    predicate IsCollection() { ListValue? || ObjectValue? || PropertyValue? }

    /** The values a plain `set(x)` can store. */
    predicate IsScalar() { IsDefined() && !IsCollection() }
  }

  /** A model node cell: its own protection latch and its current value. */
  datatype Node = Node(prot: bool, value: Value)

  /** One name/child mapping of an object, in insertion order. */
  datatype Entry = Entry(key: string, node: Node)

  /** The standalone name/value pair returned by `asProperty()`. */
  datatype Property = Property(name: string, value: Node)

  /** A freshly created child: undefined and unprotected. */
  const Fresh := Node(false, UndefinedValue)

  type ScalarValue = v: Value | v.IsScalar() witness BooleanValue(false)

  // ---------------------------------------------------------------------------
  // Insertion-ordered entries with map semantics
  // ---------------------------------------------------------------------------

  predicate UniqueKeys(es: seq<Entry>) {
    forall i, j :: 0 <= i < j < |es| ==> es[i].key != es[j].key
  }

  /** `map.get(key)`: the child of the first entry with that key. */
  function Lookup(es: seq<Entry>, key: string): (r: Option<Node>)
    ensures r.None? <==> forall i :: 0 <= i < |es| ==> es[i].key != key
    ensures r.Some? ==> exists i :: 0 <= i < |es| && es[i] == Entry(key, r.value)
  {
    if es == [] then None
    else if es[0].key == key then Some(es[0].node)
    else
      var r := Lookup(es[1..], key);
      assert r.Some? ==> exists i :: 0 <= i < |es[1..]| && es[1..][i] == Entry(key, r.value);
      r
  }

  /**
   * `map.put(key, node)` on a linked hash map: an existing key keeps its
   * position and takes the new child, a new key is appended.
   */
  function Put(es: seq<Entry>, key: string, node: Node): (r: seq<Entry>)
    ensures Lookup(r, key) == Some(node)
    ensures |r| == if Lookup(es, key).Some? then |es| else |es| + 1
  {
    if es == [] then [Entry(key, node)]
    else if es[0].key == key then [Entry(key, node)] + es[1..]
    else
      var tail := Put(es[1..], key, node);
      assert ([es[0]] + tail)[1..] == tail;
      [es[0]] + tail
  }

  /** `put` leaves every other key alone, keeps keys unique and adds only its own entry. */
  lemma PutFrame(es: seq<Entry>, key: string, node: Node)
    ensures forall k :: k != key ==> Lookup(Put(es, key, node), k) == Lookup(es, k)
    ensures forall e :: e in Put(es, key, node) ==> e in es || e == Entry(key, node)
    ensures UniqueKeys(es) ==> UniqueKeys(Put(es, key, node))
  {
    forall k | k != key ensures Lookup(Put(es, key, node), k) == Lookup(es, k) {
      PutOther(es, key, node, k);
    }
    PutMembers(es, key, node);
    if UniqueKeys(es) {
      PutUnique(es, key, node);
    }
  }

  lemma {:induction false} PutOther(es: seq<Entry>, key: string, node: Node, k: string)
    requires k != key
    ensures Lookup(Put(es, key, node), k) == Lookup(es, k)
  {
    if es != [] && es[0].key != key {
      PutOther(es[1..], key, node, k);
      var tail := Put(es[1..], key, node);
      assert Put(es, key, node) == [es[0]] + tail;
      assert ([es[0]] + tail)[1..] == tail;
    } else if es != [] {
      assert ([Entry(key, node)] + es[1..])[1..] == es[1..];
    }
  }

  lemma {:induction false} PutMembers(es: seq<Entry>, key: string, node: Node)
    ensures forall e :: e in Put(es, key, node) ==> e in es || e == Entry(key, node)
  {
    if es != [] && es[0].key != key {
      PutMembers(es[1..], key, node);
      var tail := Put(es[1..], key, node);
      assert Put(es, key, node) == [es[0]] + tail;
      forall e | e in [es[0]] + tail ensures e in es || e == Entry(key, node) {
        if e != es[0] {
          assert e in tail;
        }
      }
    } else if es != [] {
      forall e | e in [Entry(key, node)] + es[1..] ensures e in es || e == Entry(key, node) {
        if e != Entry(key, node) {
          assert e in es[1..];
        }
      }
    }
  }

  lemma {:induction false} PutUnique(es: seq<Entry>, key: string, node: Node)
    requires UniqueKeys(es)
    ensures UniqueKeys(Put(es, key, node))
  {
    if es != [] {
      UniqueTail(es);
      if es[0].key != key {
        var tail := Put(es[1..], key, node);
        PutUnique(es[1..], key, node);
        PutOther(es[1..], key, node, es[0].key);
        assert Put(es, key, node) == [es[0]] + tail;
        ConsUnique(es[0], tail);
      } else {
        ConsUnique(Entry(key, node), es[1..]);
      }
    }
  }

  /** Past the first entry of a map with unique keys: still unique, and without the first key. */
  lemma UniqueTail(es: seq<Entry>)
    requires es != [] && UniqueKeys(es)
    ensures UniqueKeys(es[1..]) && Lookup(es[1..], es[0].key).None?
  {
    forall i | 0 <= i < |es[1..]| ensures es[1..][i].key != es[0].key {
      assert es[1..][i] == es[i + 1];
    }
    forall i, j | 0 <= i < j < |es[1..]| ensures es[1..][i].key != es[1..][j].key {
      assert es[1..][i] == es[i + 1] && es[1..][j] == es[j + 1];
    }
  }

  /** An entry whose key the map lacks goes in front without a clash. */
  lemma ConsUnique(e: Entry, es: seq<Entry>)
    requires UniqueKeys(es) && Lookup(es, e.key).None?
    ensures UniqueKeys([e] + es)
  {
    var r := [e] + es;
    forall i, j | 0 <= i < j < |r| ensures r[i].key != r[j].key {
      assert r[j] == es[j - 1];
      if i > 0 {
        assert r[i] == es[i - 1];
      }
    }
  }

  /** A new key goes to the end. */
  lemma {:induction false} PutAppends(es: seq<Entry>, key: string, node: Node)
    requires Lookup(es, key).None?
    ensures Put(es, key, node) == es + [Entry(key, node)]
  {
    if es != [] {
      assert es[0].key != key;
      PutAppends(es[1..], key, node);
      calc {
        Put(es, key, node);
        [es[0]] + Put(es[1..], key, node);
        [es[0]] + (es[1..] + [Entry(key, node)]);
        { Regroup([es[0]], es[1..], [Entry(key, node)]); }
        ([es[0]] + es[1..]) + [Entry(key, node)];
        { assert [es[0]] + es[1..] == es; }
        es + [Entry(key, node)];
      }
    }
  }

  /** Concatenation regroups. */
  lemma Regroup<T>(a: seq<T>, b: seq<T>, c: seq<T>)
    ensures (a + b) + c == a + (b + c)
  {
  }

  /** `map.remove(key)`: drops the first entry with that key. */
  function RemoveKey(es: seq<Entry>, key: string): (r: seq<Entry>)
    ensures |r| == if Lookup(es, key).Some? then |es| - 1 else |es|
    ensures forall e :: e in r ==> e in es
  {
    if es == [] then []
    else if es[0].key == key then es[1..]
    else
      var tail := RemoveKey(es[1..], key);
      [es[0]] + tail
  }

  /** `remove` takes the key away (when keys are unique) and leaves every other key alone. */
  lemma {:induction false} RemoveFrame(es: seq<Entry>, key: string)
    ensures UniqueKeys(es) ==> Lookup(RemoveKey(es, key), key).None? && UniqueKeys(RemoveKey(es, key))
    ensures forall k :: k != key ==> Lookup(RemoveKey(es, key), k) == Lookup(es, k)
  {
    if es != [] && es[0].key != key {
      var tail := RemoveKey(es[1..], key);
      RemoveFrame(es[1..], key);
      assert ([es[0]] + tail)[1..] == tail;
      if UniqueKeys(es) {
        forall i | 0 <= i < |tail| ensures tail[i].key != es[0].key {
          assert tail[i] in tail;
        }
      }
    }
  }

  lemma {:induction false} LookupUnique(es: seq<Entry>, i: int)
    requires UniqueKeys(es) && 0 <= i < |es|
    ensures Lookup(es, es[i].key) == Some(es[i].node)
  {
    if i > 0 {
      assert es[1..][i - 1] == es[i];
      LookupUnique(es[1..], i - 1);
    }
  }

  /** Putting back the child a key already maps to changes nothing. */
  lemma {:induction false} PutSame(es: seq<Entry>, key: string)
    requires Lookup(es, key).Some?
    ensures Put(es, key, Lookup(es, key).value) == es
  {
    if es[0].key != key {
      PutSame(es[1..], key);
    }
  }

  // ---------------------------------------------------------------------------
  // Structural invariants
  // ---------------------------------------------------------------------------

  /** Every object in the tree has unique keys. */
  ghost predicate WellFormed(v: Value) {
    match v
    case ListValue(items) => forall i :: 0 <= i < |items| ==> WellFormed(items[i].value)
    case ObjectValue(es) => UniqueKeys(es) && forall i :: 0 <= i < |es| ==> WellFormed(es[i].node.value)
    case PropertyValue(_, c) => WellFormed(c.value)
    case _ => true
  }

  /**
   * Protection is transitive: below a protected owner every child is
   * protected. `p` is the flag of the node that owns `v`.
   */
  ghost predicate Sealed(v: Value, p: bool) {
    match v
    case ListValue(items) =>
      forall i :: 0 <= i < |items| ==> (p ==> items[i].prot) && Sealed(items[i].value, items[i].prot)
    case ObjectValue(es) =>
      forall i :: 0 <= i < |es| ==> (p ==> es[i].node.prot) && Sealed(es[i].node.value, es[i].node.prot)
    case PropertyValue(_, c) => (p ==> c.prot) && Sealed(c.value, c.prot)
    case _ => true
  }

  /** No node below `v` is protected. */
  ghost predicate Unprotected(v: Value) {
    match v
    case ListValue(items) => forall i :: 0 <= i < |items| ==> !items[i].prot && Unprotected(items[i].value)
    case ObjectValue(es) => forall i :: 0 <= i < |es| ==> !es[i].node.prot && Unprotected(es[i].node.value)
    case PropertyValue(_, c) => !c.prot && Unprotected(c.value)
    case _ => true
  }

  lemma {:induction false} UnprotectedIsSealed(v: Value)
    requires Unprotected(v)
    ensures Sealed(v, false)
  {
    match v
    case ListValue(items) =>
      forall i | 0 <= i < |items| ensures Sealed(items[i].value, false) { UnprotectedIsSealed(items[i].value); }
    case ObjectValue(es) =>
      forall i | 0 <= i < |es| ensures Sealed(es[i].node.value, false) { UnprotectedIsSealed(es[i].node.value); }
    case PropertyValue(_, c) => UnprotectedIsSealed(c.value);
    case _ =>
  }

  /** Storing a well-formed child under a key keeps an object well-formed and sealed. */
  lemma PutPreserves(es: seq<Entry>, key: string, node: Node, p: bool)
    requires WellFormed(ObjectValue(es)) && Sealed(ObjectValue(es), p)
    requires WellFormed(node.value) && Sealed(node.value, node.prot) && (p ==> node.prot)
    ensures WellFormed(ObjectValue(Put(es, key, node))) && Sealed(ObjectValue(Put(es, key, node)), p)
  {
    PutFrame(es, key, node);
    var r := Put(es, key, node);
    forall i | 0 <= i < |r|
      ensures WellFormed(r[i].node.value) && (p ==> r[i].node.prot) && Sealed(r[i].node.value, r[i].node.prot)
    {
      assert r[i] in r;
    }
  }

  /** Dropping a key keeps an object well-formed and sealed. */
  lemma RemoveKeyPreserves(es: seq<Entry>, key: string, p: bool)
    requires WellFormed(ObjectValue(es)) && Sealed(ObjectValue(es), p)
    ensures WellFormed(ObjectValue(RemoveKey(es, key))) && Sealed(ObjectValue(RemoveKey(es, key)), p)
  {
    RemoveFrame(es, key);
    var r := RemoveKey(es, key);
    forall i | 0 <= i < |r|
      ensures WellFormed(r[i].node.value) && (p ==> r[i].node.prot) && Sealed(r[i].node.value, r[i].node.prot)
    {
      assert r[i] in r;
    }
  }

  // ---------------------------------------------------------------------------
  // copy() and protect()
  // ---------------------------------------------------------------------------

  /** `ModelValue.copy()`: every child is cloned into a fresh, unprotected node. */
  function Copy(v: Value): (r: Value)
    ensures r.Type() == v.Type()
  {
    match v
    case ListValue(items) =>
      ListValue(seq(|items|, i requires 0 <= i < |items| => Node(false, Copy(items[i].value))))
    case ObjectValue(es) =>
      ObjectValue(seq(|es|, i requires 0 <= i < |es| => Entry(es[i].key, Node(false, Copy(es[i].node.value)))))
    case PropertyValue(k, c) => PropertyValue(k, Node(false, Copy(c.value)))
    case _ => v
  }

  /** `clone()` of a node: a fresh unprotected node holding a copy. */
  function Clone(n: Node): Node {
    Node(false, Copy(n.value))
  }

  /** A copy is unprotected all the way down, and an object copy keeps its keys. */
  lemma {:induction false} CopyUnprotected(v: Value)
    ensures Unprotected(Copy(v))
    ensures WellFormed(v) ==> WellFormed(Copy(v))
  {
    match v
    case ListValue(items) =>
      forall i | 0 <= i < |items| ensures Unprotected(Copy(items[i].value)) && (WellFormed(items[i].value) ==> WellFormed(Copy(items[i].value))) {
        CopyUnprotected(items[i].value);
      }
    case ObjectValue(es) =>
      var cs := Copy(v).entries;
      forall i | 0 <= i < |es| ensures Unprotected(Copy(es[i].node.value)) && (WellFormed(es[i].node.value) ==> WellFormed(Copy(es[i].node.value))) {
        CopyUnprotected(es[i].node.value);
      }
      assert forall i :: 0 <= i < |es| ==> cs[i].key == es[i].key;
    case PropertyValue(_, c) => CopyUnprotected(c.value);
    case _ =>
  }

  /** Copying a copy changes nothing. */
  lemma {:induction false} CopyIdempotent(v: Value)
    ensures Copy(Copy(v)) == Copy(v)
  {
    match v
    case ListValue(items) =>
      var c := Copy(v).items;
      forall i | 0 <= i < |items| ensures Copy(c[i].value) == c[i].value { CopyIdempotent(items[i].value); }
      assert Copy(Copy(v)).items == c;
    case ObjectValue(es) =>
      var c := Copy(v).entries;
      forall i | 0 <= i < |es| ensures Copy(c[i].node.value) == c[i].node.value { CopyIdempotent(es[i].node.value); }
      assert Copy(Copy(v)).entries == c;
    case PropertyValue(_, c) => CopyIdempotent(c.value);
    case _ =>
  }

  /**
   * `ModelNode.protect()` on a child: a node already protected is left as it
   * is, otherwise it is latched and its value protected in turn.
   */
  function ProtectNode(n: Node): (r: Node)
    ensures r.prot
  {
    if n.prot then n else Node(true, ProtectValue(n.value))
  }

  /** `ModelValue.protect()`: scalars are returned as they are, children are protected. */
  function ProtectValue(v: Value): (r: Value)
    ensures r.Type() == v.Type()
  {
    match v
    case ListValue(items) =>
      ListValue(seq(|items|, i requires 0 <= i < |items| => ProtectNode(items[i])))
    case ObjectValue(es) =>
      ObjectValue(seq(|es|, i requires 0 <= i < |es| => Entry(es[i].key, ProtectNode(es[i].node))))
    case PropertyValue(k, c) => PropertyValue(k, ProtectNode(c))
    case _ => v
  }

  /** Protecting twice is protecting once. */
  lemma ProtectIdempotent(v: Value)
    ensures ProtectValue(ProtectValue(v)) == ProtectValue(v)
  {
    match v
    case ListValue(items) =>
      assert ProtectValue(ProtectValue(v)).items == ProtectValue(v).items;
    case ObjectValue(es) =>
      assert ProtectValue(ProtectValue(v)).entries == ProtectValue(v).entries;
    case _ =>
  }

  /**
   * Protection reaches every node of the tree, and it does not change the
   * content: the protected tree copies to the same value as the original.
   */
  lemma ProtectSeals(v: Value, p: bool)
    requires Sealed(v, p)
    ensures Sealed(ProtectValue(v), true)
    ensures WellFormed(v) ==> WellFormed(ProtectValue(v))
    ensures Copy(ProtectValue(v)) == Copy(v)
  {
    ProtectSealed(v, p);
    if WellFormed(v) {
      ProtectWellFormed(v);
    }
    ProtectCopy(v);
  }

  /** After protection every node below is protected. */
  lemma {:induction false} ProtectSealed(v: Value, p: bool)
    requires Sealed(v, p)
    ensures Sealed(ProtectValue(v), true)
  {
    match v
    case ListValue(items) =>
      var ps := ProtectValue(v).items;
      forall i | 0 <= i < |items| ensures Sealed(ps[i].value, true) {
        assert ps[i] == ProtectNode(items[i]);
        if !items[i].prot { ProtectSealed(items[i].value, false); }
      }
    case ObjectValue(es) =>
      var ps := ProtectValue(v).entries;
      forall i | 0 <= i < |es| ensures Sealed(ps[i].node.value, true) {
        assert ps[i].node == ProtectNode(es[i].node);
        if !es[i].node.prot { ProtectSealed(es[i].node.value, false); }
      }
    case PropertyValue(_, c) =>
      if !c.prot { ProtectSealed(c.value, false); }
    case _ =>
  }

  /** Protection keeps the keys of every object. */
  lemma {:induction false} ProtectWellFormed(v: Value)
    requires WellFormed(v)
    ensures WellFormed(ProtectValue(v))
  {
    match v
    case ListValue(items) =>
      var ps := ProtectValue(v).items;
      forall i | 0 <= i < |items| ensures WellFormed(ps[i].value) {
        assert ps[i] == ProtectNode(items[i]);
        if !items[i].prot { ProtectWellFormed(items[i].value); }
      }
    case ObjectValue(es) =>
      var ps := ProtectValue(v).entries;
      forall i | 0 <= i < |es| ensures WellFormed(ps[i].node.value) {
        assert ps[i].node == ProtectNode(es[i].node);
        if !es[i].node.prot { ProtectWellFormed(es[i].node.value); }
      }
      assert forall i :: 0 <= i < |es| ==> ps[i].key == es[i].key;
    case PropertyValue(_, c) =>
      if !c.prot { ProtectWellFormed(c.value); }
    case _ =>
  }

  /** Protection changes no content: a copy cannot tell the difference. */
  lemma {:induction false} ProtectCopy(v: Value)
    ensures Copy(ProtectValue(v)) == Copy(v)
  {
    match v
    case ListValue(items) =>
      var ps := ProtectValue(v).items;
      forall i | 0 <= i < |items| ensures Copy(ps[i].value) == Copy(items[i].value) {
        assert ps[i] == ProtectNode(items[i]);
        if !items[i].prot { ProtectCopy(items[i].value); }
      }
      assert Copy(ProtectValue(v)).items == Copy(v).items;
    case ObjectValue(es) =>
      var ps := ProtectValue(v).entries;
      forall i | 0 <= i < |es| ensures Copy(ps[i].node.value) == Copy(es[i].node.value) {
        assert ps[i].node == ProtectNode(es[i].node);
        if !es[i].node.prot { ProtectCopy(es[i].node.value); }
      }
      assert Copy(ProtectValue(v)).entries == Copy(v).entries;
    case PropertyValue(_, c) =>
      if !c.prot { ProtectCopy(c.value); }
    case _ =>
  }

  // ---------------------------------------------------------------------------
  // equals()
  // ---------------------------------------------------------------------------

  /**
   * `ModelNode.equals`: the variants are equal. Lists compare element by
   * element, objects as maps (same size, and every key of `a` maps in `b` to an
   * equal child, whatever the order), properties by name and child; scalars by
   * value. Protection flags play no part.
   */
  predicate Equal(a: Value, b: Value) {
    match a
    case ListValue(xs) =>
      b.ListValue? && |xs| == |b.items| &&
      forall i :: 0 <= i < |xs| ==> Equal(xs[i].value, b.items[i].value)
    case ObjectValue(es) =>
      b.ObjectValue? && |es| == |b.entries| &&
      forall i :: 0 <= i < |es| ==>
        Lookup(b.entries, es[i].key).Some? && Equal(es[i].node.value, Lookup(b.entries, es[i].key).value.value)
    case PropertyValue(k, c) =>
      b.PropertyValue? && b.name == k && Equal(c.value, b.child.value)
    case _ => a == b
  }

  /** Every well-formed value equals itself. */
  lemma {:induction false} EqualReflexive(v: Value)
    requires WellFormed(v)
    ensures Equal(v, v)
  {
    match v
    case ListValue(items) =>
      forall i | 0 <= i < |items| ensures Equal(items[i].value, items[i].value) { EqualReflexive(items[i].value); }
    case ObjectValue(es) =>
      forall i | 0 <= i < |es|
        ensures Lookup(es, es[i].key) == Some(es[i].node) && Equal(es[i].node.value, es[i].node.value)
      {
        LookupUnique(es, i);
        EqualReflexive(es[i].node.value);
      }
    case PropertyValue(_, c) => EqualReflexive(c.value);
    case _ =>
  }

  /** A copy equals its source, in both directions. */
  lemma {:induction false} CopyEqual(v: Value)
    requires WellFormed(v)
    ensures Equal(Copy(v), v) && Equal(v, Copy(v))
  {
    match v
    case ListValue(items) =>
      var cs := Copy(v).items;
      forall i | 0 <= i < |items|
        ensures Equal(cs[i].value, items[i].value) && Equal(items[i].value, cs[i].value)
      {
        CopyEqual(items[i].value);
      }
    case ObjectValue(es) =>
      var cs := Copy(v).entries;
      CopyUnprotected(v);
      forall i | 0 <= i < |es|
        ensures Lookup(es, cs[i].key) == Some(es[i].node) && Equal(cs[i].node.value, es[i].node.value)
        ensures Lookup(cs, es[i].key) == Some(cs[i].node) && Equal(es[i].node.value, cs[i].node.value)
      {
        LookupUnique(es, i);
        LookupUnique(cs, i);
        CopyEqual(es[i].node.value);
      }
    case PropertyValue(_, c) => CopyEqual(c.value);
    case _ =>
  }
}
