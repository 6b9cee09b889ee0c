/**
 * The `as*` readers of a node and `as(ModelType)`, which dispatches to them.
 * Conversions that belong to the individual value variants and are not
 * documented on the node itself (parsing a string as a number, formatting a
 * number or a byte array as text, anything involving doubles or big numbers)
 * are supplied by a `Conversions` record; `None` from one of them means that
 * no conversion is possible.
 */
module Coercion {
  import opened Wrappers
  import opened Values
  import opened Children

  /** Variant-level conversions the node only delegates to. */
  datatype Conversions = Conversions(
    toLong: Value -> Option<Int64>,
    toInt: Value -> Option<Int32>,
    toBoolean: Value -> Option<bool>,
    text: Value -> string,
    other: (Value, ModelType) -> Option<Value>)

  /** A collection reports its size as a Java `int`: sizes beyond the `int` range read as the largest `int`. */
  function SizeAsInt(v: Value): (r: Int32)
    ensures 0 <= r <= Size(v) && (Size(v) <= MaxInt ==> r == Size(v))
  {
    if Size(v) <= MaxInt then Size(v) else MaxInt
  }

  function FromOption<T>(o: Option<T>): (r: Result<T>)
    ensures r.Ok? <==> o.Some?
    ensures r.Err? ==> r.error == IllegalArgument
  {
    match o
    case Some(x) => Ok(x)
    case None => Err(IllegalArgument)
  }

  /** `asLong()`: undefined fails, integers are themselves, collections give their size. */
  function AsLong(v: Value, conv: Conversions): (r: Result<Int64>)
    ensures !v.IsDefined() ==> r == Err(IllegalArgument)
    ensures v.IsCollection() ==> r == Ok(SizeAsInt(v))
    ensures v.IntValue? ==> r == Ok(v.i)
    ensures v.LongValue? ==> r == Ok(v.l)
    ensures r.Err? ==> r.error == IllegalArgument
  {
    match v
    case UndefinedValue => Err(IllegalArgument)
    case IntValue(i) => Ok(i)
    case LongValue(l) => Ok(l)
    case _ => if v.IsCollection() then Ok(SizeAsInt(v)) else FromOption(conv.toLong(v))
  }

  /** `asInt()`: undefined fails, an int is itself, collections give their size. */
  function AsInt(v: Value, conv: Conversions): (r: Result<Int32>)
    ensures !v.IsDefined() ==> r == Err(IllegalArgument)
    ensures v.IsCollection() ==> r == Ok(SizeAsInt(v))
    ensures v.IntValue? ==> r == Ok(v.i)
    ensures r.Err? ==> r.error == IllegalArgument
  {
    match v
    case UndefinedValue => Err(IllegalArgument)
    case IntValue(i) => Ok(i)
    case _ => if v.IsCollection() then Ok(SizeAsInt(v)) else FromOption(conv.toInt(v))
  }

  /** `asBoolean()`: non-empty collections and non-zero integers are true; undefined fails. */
  function AsBoolean(v: Value, conv: Conversions): (r: Result<bool>)
    ensures !v.IsDefined() ==> r == Err(IllegalArgument)
    ensures v.IsCollection() ==> r == Ok(Size(v) != 0)
    ensures v.IntValue? ==> r == Ok(v.i != 0)
    ensures v.LongValue? ==> r == Ok(v.l != 0)
    ensures v.BooleanValue? ==> r == Ok(v.b)
    ensures r.Err? ==> r.error == IllegalArgument
  {
    match v
    case UndefinedValue => Err(IllegalArgument)
    case BooleanValue(b) => Ok(b)
    case IntValue(i) => Ok(i != 0)
    case LongValue(l) => Ok(l != 0)
    case _ => if v.IsCollection() then Ok(Size(v) != 0) else FromOption(conv.toBoolean(v))
  }

  /** `asString()`: the literal `undefined` for an undefined node; strings and expressions give their own text. */
  function AsString(v: Value, conv: Conversions): (r: string)
    ensures !v.IsDefined() ==> r == "undefined"
    ensures v.StringValue? ==> r == v.str
    ensures v.ExpressionValue? ==> r == v.expr
  {
    match v
    case UndefinedValue => "undefined"
    case StringValue(s) => s
    case ExpressionValue(e) => e
    case _ => conv.text(v)
  }

  /** `asString(defVal)`: the default for an undefined node, the node's own text otherwise. */
  function AsStringOr(v: Value, defVal: string, conv: Conversions): (r: string)
    ensures !v.IsDefined() ==> r == defVal
    ensures v.IsDefined() ==> r == AsString(v, conv)
  {
    if v.IsDefined() then AsString(v, conv) else defVal
  }

  /** `asLong(defVal)`: the default for an undefined node, `asLong()` otherwise. */
  function AsLongOr(v: Value, defVal: Int64, conv: Conversions): (r: Result<Int64>)
    ensures !v.IsDefined() ==> r == Ok(defVal)
    ensures v.IsDefined() ==> r == AsLong(v, conv)
  {
    if v.IsDefined() then AsLong(v, conv) else Ok(defVal)
  }

  /** `asInt(defVal)`: the default for an undefined node, `asInt()` otherwise. */
  function AsIntOr(v: Value, defVal: Int32, conv: Conversions): (r: Result<Int32>)
    ensures !v.IsDefined() ==> r == Ok(defVal)
    ensures v.IsDefined() ==> r == AsInt(v, conv)
  {
    if v.IsDefined() then AsInt(v, conv) else Ok(defVal)
  }

  /** `asBoolean(defVal)`: the default for an undefined node, `asBoolean()` otherwise. */
  function AsBooleanOr(v: Value, defVal: bool, conv: Conversions): (r: Result<bool>)
    ensures !v.IsDefined() ==> r == Ok(defVal)
    ensures v.IsDefined() ==> r == AsBoolean(v, conv)
  {
    if v.IsDefined() then AsBoolean(v, conv) else Ok(defVal)
  }

  /**
   * `asDouble()`, `asBigDecimal()`, `asBigInteger()`, `asBytes()` and
   * `asType()`: undefined fails, a value of the requested type is itself, and
   * everything else is the variant's own conversion.
   */
  function AsForeign(v: Value, t: ModelType, conv: Conversions): (r: Result<Value>)
    ensures !v.IsDefined() ==> r == Err(IllegalArgument)
    ensures v.IsDefined() && v.Type() == t ==> r == Ok(v)
    ensures r.Err? ==> r.error == IllegalArgument
  {
    if !v.IsDefined() then Err(IllegalArgument)
    else if v.Type() == t then Ok(v)
    else FromOption(conv.other(v, t))
  }

  /** The property a node holds for one object entry. */
  function EntryProperty(e: Entry): Node {
    Node(false, PropertyValue(e.key, e.node))
  }

  /**
   * `asList()`: a list gives its items, an object one property node per entry
   * in order, a property the node itself; other defined variants give an
   * empty list and undefined fails.
   */
  function AsList(n: Node): (r: Result<seq<Node>>)
    ensures r.Ok? <==> n.value.IsDefined()
    ensures r.Err? ==> r.error == IllegalArgument
    ensures r.Ok? ==> |r.value| == Size(n.value)
    ensures r.Ok? && n.value.ListValue? ==> r.value == n.value.items
    ensures r.Ok? && n.value.ObjectValue? ==>
      forall i :: 0 <= i < |r.value| ==> r.value[i].value == PropertyValue(n.value.entries[i].key, n.value.entries[i].node)
    ensures r.Ok? && n.value.PropertyValue? ==> r.value == [n]
  {
    match n.value
    case UndefinedValue => Err(IllegalArgument)
    case ListValue(items) => Ok(items)
    case ObjectValue(es) => Ok(seq(|es|, i requires 0 <= i < |es| => EntryProperty(es[i])))
    case PropertyValue(_, _) => Ok([n])
    case _ => Ok([])
  }

  /**
   * `asProperty()`: an object with exactly one entry, a list of exactly two
   * items whose first gives the name as a string, or a property itself.
   */
  function AsProperty(n: Node, conv: Conversions): (r: Result<Property>)
    ensures r.Ok? <==>
      (n.value.ObjectValue? && |n.value.entries| == 1) ||
      (n.value.ListValue? && |n.value.items| == 2) ||
      n.value.PropertyValue?
    ensures r.Err? ==> r.error == IllegalArgument
    ensures n.value.ListValue? && r.Ok? ==>
      r.value == Property(AsString(n.value.items[0].value, conv), n.value.items[1])
    ensures n.value.ObjectValue? && r.Ok? ==> ChildNamed(n.value, r.value.name) == Some(r.value.value)
    ensures n.value.PropertyValue? ==> r == Ok(Property(n.value.name, n.value.child))
  {
    match n.value
    case ObjectValue(es) =>
      if |es| == 1 then Ok(Property(es[0].key, es[0].node)) else Err(IllegalArgument)
    case ListValue(items) =>
      if |items| == 2 then Ok(Property(AsString(items[0].value, conv), items[1])) else Err(IllegalArgument)
    case PropertyValue(k, c) => Ok(Property(k, c))
    case _ => Err(IllegalArgument)
  }

  /** `asProperty()` of every item, failing on the first item that is not a property. */
  function ItemProperties(items: seq<Node>, conv: Conversions): (r: Result<seq<Property>>)
    ensures r.Ok? <==> forall i :: 0 <= i < |items| ==> AsProperty(items[i], conv).Ok?
    ensures r.Ok? ==> |r.value| == |items| && forall i :: 0 <= i < |items| ==> r.value[i] == AsProperty(items[i], conv).value
    ensures r.Err? ==> r.error == IllegalArgument
  {
    if |items| == 0 then Ok([])
    else match AsProperty(items[0], conv)
      case Err(e) => Err(e)
      case Ok(p) =>
        match ItemProperties(items[1..], conv)
        case Err(e) => Err(e)
        case Ok(ps) =>
          assert forall i :: 1 <= i < |items| ==> items[i] == items[1..][i - 1];
          Ok([p] + ps)
  }

  /**
   * `asPropertyList()`: an object gives one property per entry in order, a
   * list the property of each item (failing if any item has none), a property
   * itself; anything else fails.
   */
  function AsPropertyList(n: Node, conv: Conversions): (r: Result<seq<Property>>)
    ensures r.Ok? ==> n.value.IsCollection()
    ensures n.value.ObjectValue? ==> r.Ok? && |r.value| == |n.value.entries|
    ensures n.value.ObjectValue? ==>
      forall i :: 0 <= i < |r.value| ==> r.value[i] == Property(n.value.entries[i].key, n.value.entries[i].node)
    ensures n.value.ListValue? ==> r == ItemProperties(n.value.items, conv)
    ensures n.value.PropertyValue? ==> r == Ok([Property(n.value.name, n.value.child)])
    ensures r.Err? ==> r.error == IllegalArgument
  {
    match n.value
    case ObjectValue(es) => Ok(seq(|es|, i requires 0 <= i < |es| => Property(es[i].key, es[i].node)))
    case ListValue(items) => ItemProperties(items, conv)
    case PropertyValue(k, c) => Ok([Property(k, c)])
    case _ => Err(IllegalArgument)
  }

  /**
   * The key/value pairs a list stands for: a property item is one pair;
   * otherwise an item and the one after it form a pair, the first giving the
   * key as a string. A lone trailing item that is not a property has no partner
   * and is dropped.
   */
  function Pairs(items: seq<Node>, conv: Conversions): (r: seq<Entry>)
    ensures |r| <= |items|
    decreases |items|
  {
    if |items| == 0 then []
    else if items[0].value.PropertyValue? then
      [Entry(items[0].value.name, items[0].value.child)] + Pairs(items[1..], conv)
    else if |items| == 1 then []
    else [Entry(AsString(items[0].value, conv), items[1])] + Pairs(items[2..], conv)
  }

  /** Store the pairs one after another into a new object, each value copied: a later pair overwrites an earlier one in place. */
  function Collapse(ps: seq<Entry>): seq<Entry>
    decreases |ps|
  {
    if |ps| == 0 then []
    else Put(Collapse(ps[..|ps| - 1]), ps[|ps| - 1].key, Clone(ps[|ps| - 1].node))
  }

  /** The copied value of the last pair with key `k`, if any. */
  function LastValue(ps: seq<Entry>, k: string): Option<Node>
    decreases |ps|
  {
    if |ps| == 0 then None
    else if ps[|ps| - 1].key == k then Some(Clone(ps[|ps| - 1].node))
    else LastValue(ps[..|ps| - 1], k)
  }

  /**
   * `asObject()`: an object copies itself, a property becomes a one-entry
   * object, and a list becomes the object its pairs collapse to. Anything
   * else fails.
   */
  function AsObject(n: Node, conv: Conversions): (r: Result<Value>)
    ensures r.Ok? <==> n.value.ObjectValue? || n.value.PropertyValue? || n.value.ListValue?
    ensures r.Ok? ==> r.value.ObjectValue?
    ensures r.Err? ==> r.error == IllegalArgument
    ensures n.value.ObjectValue? ==> r == Ok(Copy(n.value))
    ensures n.value.PropertyValue? ==> r == Ok(ObjectValue([Entry(n.value.name, Clone(n.value.child))]))
  {
    match n.value
    case ObjectValue(_) => Ok(Copy(n.value))
    case PropertyValue(k, c) => Ok(ObjectValue([Entry(k, Clone(c))]))
    case ListValue(items) => Ok(ObjectValue(Collapse(Pairs(items, conv))))
    case _ => Err(IllegalArgument)
  }

  /** What `as(ModelType)` returns: `null`, or the result of one of the `as*` readers. */
  datatype Converted =
    | Null
    | Bool(b: bool)
    | Int(i: Int32)
    | Long(l: Int64)
    | Text(s: string)
    | Nodes(items: seq<Node>)
    | Object(obj: Value)
    | Prop(p: Property)
    | Other(v: Value)

  function Lift<T>(r: Result<T>, f: T -> Converted): Result<Converted> {
    match r
    case Ok(x) => Ok(f(x))
    case Err(e) => Err(e)
  }

  /** `as(ModelType)`: dispatch to the reader for `t`. */
  function As(n: Node, t: ModelType, conv: Conversions): (r: Result<Converted>)
    ensures t == UndefinedType ==> r == Ok(Null)
    ensures t == StringType || t == ExpressionType ==> r == Ok(Text(AsString(n.value, conv)))
    ensures t == LongType ==> r == Lift(AsLong(n.value, conv), x => Long(x))
    ensures t == IntType ==> r == Lift(AsInt(n.value, conv), x => Int(x))
    ensures t == BooleanType ==> r == Lift(AsBoolean(n.value, conv), x => Bool(x))
    ensures t == ListType ==> r == Lift(AsList(n), x => Nodes(x))
    ensures t == ObjectType ==> r == Lift(AsObject(n, conv), x => Object(x))
    ensures t == PropertyType ==> r == Lift(AsProperty(n, conv), x => Prop(x))
    ensures r.Err? ==> r.error == IllegalArgument
    ensures !n.value.IsDefined() ==> (r.Ok? <==> t in {UndefinedType, StringType, ExpressionType})
  {
    match t
    case UndefinedType => Ok(Null)
    case StringType => Ok(Text(AsString(n.value, conv)))
    case ExpressionType => Ok(Text(AsString(n.value, conv)))
    case BooleanType => Lift(AsBoolean(n.value, conv), x => Bool(x))
    case IntType => Lift(AsInt(n.value, conv), x => Int(x))
    case LongType => Lift(AsLong(n.value, conv), x => Long(x))
    case ListType => Lift(AsList(n), x => Nodes(x))
    case ObjectType => Lift(AsObject(n, conv), x => Object(x))
    case PropertyType => Lift(AsProperty(n, conv), x => Prop(x))
    case _ => Lift(AsForeign(n.value, t, conv), x => Other(x))
  }

  // ---------------------------------------------------------------------------
  // Properties of the readers
  // ---------------------------------------------------------------------------

  /** When a list collapses to an object, each key holds the copy of the value of its last pair. */
  lemma {:induction false} LastKeyWins(ps: seq<Entry>, k: string)
    ensures Lookup(Collapse(ps), k) == LastValue(ps, k)
    decreases |ps|
  {
    if |ps| > 0 {
      LastKeyWins(ps[..|ps| - 1], k);
      PutFrame(Collapse(ps[..|ps| - 1]), ps[|ps| - 1].key, Clone(ps[|ps| - 1].node));
    }
  }

  /** A collapsed list never repeats a key. */
  lemma {:induction false} CollapseUnique(ps: seq<Entry>)
    ensures UniqueKeys(Collapse(ps))
    decreases |ps|
  {
    if |ps| > 0 {
      CollapseUnique(ps[..|ps| - 1]);
      PutFrame(Collapse(ps[..|ps| - 1]), ps[|ps| - 1].key, Clone(ps[|ps| - 1].node));
    }
  }

  /** Every pair with its value copied. */
  function Clones(ps: seq<Entry>): (r: seq<Entry>)
    ensures |r| == |ps| && forall i :: 0 <= i < |ps| ==> r[i] == Entry(ps[i].key, Clone(ps[i].node))
  {
    seq(|ps|, i requires 0 <= i < |ps| => Entry(ps[i].key, Node(false, Copy(ps[i].node.value))))
  }

  /** Pairs whose keys are already distinct collapse to their copies, in the same order. */
  lemma {:induction false} CollapseDistinct(ps: seq<Entry>)
    requires UniqueKeys(ps)
    ensures Collapse(ps) == Clones(ps)
    decreases |ps|
  {
    if |ps| > 0 {
      var init := ps[..|ps| - 1];
      var last := ps[|ps| - 1];
      CollapseDistinct(init);
      assert Lookup(Clones(init), last.key).None? by {
        forall i | 0 <= i < |init| ensures Clones(init)[i].key != last.key {
          assert init[i] == ps[i];
        }
      }
      PutAppends(Clones(init), last.key, Clone(last.node));
      assert Clones(init) + [Entry(last.key, Clone(last.node))] == Clones(ps);
    }
  }

  /** The pairs of an object's property list are exactly its entries. */
  lemma {:induction false} PairsOfProperties(es: seq<Entry>, conv: Conversions)
    ensures Pairs(seq(|es|, i requires 0 <= i < |es| => EntryProperty(es[i])), conv) == es
    decreases |es|
  {
    var props := seq(|es|, i requires 0 <= i < |es| => EntryProperty(es[i]));
    if |es| > 0 {
      PairsOfProperties(es[1..], conv);
      assert props[1..] == seq(|es[1..]|, i requires 0 <= i < |es[1..]| => EntryProperty(es[1..][i]));
      assert es == [es[0]] + es[1..];
    }
  }

  /**
   * Turning an object into its list of properties and that list back into an
   * object gives the object's copy.
   */
  lemma ObjectListRoundTrip(n: Node, conv: Conversions)
    requires n.value.ObjectValue? && WellFormed(n.value)
    ensures AsList(n).Ok?
    ensures AsObject(Node(false, ListValue(AsList(n).value)), conv) == Ok(Copy(n.value))
  {
    var es := n.value.entries;
    PairsOfProperties(es, conv);
    CollapseDistinct(es);
    assert Copy(n.value) == ObjectValue(Clones(es));
  }

  /** For every collection the `int` and `long` readers agree, and both report the size. */
  lemma CollectionReadersAgree(v: Value, conv: Conversions)
    requires v.IsCollection()
    ensures AsInt(v, conv) == AsLong(v, conv) == Ok(SizeAsInt(v))
    ensures AsBoolean(v, conv) == Ok(AsLong(v, conv).value != 0)
  {
  }

  /** `add()` on a list below the `int` limit raises its `asLong()` by exactly one. */
  lemma AddCountsOne(n: Node, conv: Conversions)
    requires n.value.ListValue? && !n.prot && Size(n.value) < MaxInt
    ensures Add(n).result.Ok?
    ensures AsLong(Add(n).node.value, conv) == Ok(AsLong(n.value, conv).value + 1)
  {
  }
}
