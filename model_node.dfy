/**
 * The `ModelNode` object itself: a protection flag and a value that its
 * mutators replace in place. Every mutator first refuses on a protected node
 * (`checkProtect`) and otherwise replaces the value by the one the functions
 * of `Children`, `Paths` and `Wire` compute, so each method below is proved
 * against those functions and their lemmas.
 *
 * A child handle returned by `get` is modelled by a snapshot of the child
 * (a `Node` value), and the handle returned by `add()`/`insert(int)` by the
 * index of the new item; writes through such a handle are the `Add...` and
 * `Insert...` methods, which fill the new item themselves.
 */
module Nodes {
  import opened Wrappers
  import opened Values
  import opened Children
  import opened Paths
  import opened Wire

  /** The items of a list value; none for any other variant (an undefined node becomes an empty list first). */
  function ListItems(v: Value): seq<Node> {
    if v.ListValue? then v.items else []
  }

  /** The outcome of a mutator that ends with the step whose result is `r`. */
  function Done<T>(r: Result<T>): Outcome {
    if r.Ok? then Pass else Fail(r.error)
  }

  /** Filling the slot `add()` appended. */
  lemma FillLast(items: seq<Node>, child: Node)
    ensures (items + [Fresh])[|items| := child] == items + [child]
  {
  }

  /** Filling the slot `insert(int)` opened. */
  lemma FillInserted(items: seq<Node>, index: nat, child: Node)
    requires index <= |items|
    ensures (items[..index] + [Fresh] + items[index..])[index := child] == items[..index] + [child] + items[index..]
  {
  }

  class ModelNode {
    var protect: bool
    var value: Value

    /** Keys are unique in every object, and everything below a protected node is protected. */
    ghost predicate Valid()
      reads this
    {
      WellFormed(value) && Sealed(value, protect)
    }

    /** This node as a cell value. */
    function Cell(): Node
      reads this
    {
      Node(protect, value)
    }

    /** `new ModelNode()`: undefined and unprotected. */
    constructor ()
      ensures Valid() && !protect && value == UndefinedValue
    {
      protect := false;
      value := UndefinedValue;
    }

    /** `new ModelNode(x)` for each scalar `x` the constructors accept. */
    constructor OfScalar(s: ScalarValue)
      ensures Valid() && !protect && value == s
    {
      protect := false;
      value := s;
    }

    /**
     * The scalar constructors with a possibly null argument: `None` is a null
     * string, byte array, type or big number, which is refused.
     */
    static method FromScalar(s: Option<ScalarValue>) returns (r: Result<ModelNode>)
      ensures s.None? <==> r.Err?
      ensures r.Err? ==> r.error == IllegalArgument
      ensures r.Ok? ==> fresh(r.value) && r.value.Valid() && !r.value.protect && r.value.value == s.value
    {
      if s.None? {
        return Err(IllegalArgument);
      }
      var n := new ModelNode.OfScalar(s.value);
      return Ok(n);
    }

    /**
     * `protect()`: the first call protects the node and every node below it;
     * later calls change nothing. The content a copy sees is unchanged.
     */
    method Protect()
      requires Valid()
      modifies this
      ensures Valid() && protect
      ensures old(protect) ==> value == old(value)
      ensures !old(protect) ==> value == ProtectValue(old(value))
      ensures Copy(value) == Copy(old(value))
    {
      if !protect {
        ProtectSeals(value, protect);
        protect := true;
        value := ProtectValue(value);
      }
    }

    /** `checkProtect()` followed by the assignment of `v`, the shape of every setter. */
    method Replace(v: Value) returns (r: Outcome)
      requires Valid() && WellFormed(v) && Unprotected(v)
      modifies this
      ensures Valid() && protect == old(protect)
      ensures old(protect) ==> r == Fail(Unsupported) && value == old(value)
      ensures !old(protect) ==> r == Pass && value == v
    {
      if protect {
        return Fail(Unsupported);
      }
      UnprotectedIsSealed(v);
      value := v;
      return Pass;
    }

    /**
     * `set(x)` for every scalar `x`: int, long, double, boolean, string,
     * expression, bytes, type, big numbers. `None` is a null argument, which
     * only the setters of reference types can receive; it is refused before
     * the protection check.
     */
    method Set(s: Option<ScalarValue>) returns (r: Outcome)
      requires Valid()
      modifies this
      ensures Valid() && protect == old(protect)
      ensures s.None? ==> r == Fail(IllegalArgument) && value == old(value)
      ensures s.Some? && old(protect) ==> r == Fail(Unsupported) && value == old(value)
      ensures s.Some? && !old(protect) ==> r == Pass && value == s.value
    {
      if s.None? {
        return Fail(IllegalArgument);
      }
      r := Replace(s.value);
    }

    /**
     * `set(ModelNode)`: a null argument is refused before the protection
     * check; otherwise this node takes an unprotected deep copy of the
     * other's value (of its own value, read before the assignment, when
     * `other` is this node).
     */
    method SetNode(other: ModelNode?) returns (r: Outcome)
      requires Valid() && (other != null ==> other.Valid())
      modifies this
      ensures Valid() && protect == old(protect)
      ensures other == null ==> r == Fail(IllegalArgument) && value == old(value)
      ensures other != null && old(protect) ==> r == Fail(Unsupported) && value == old(value)
      ensures other != null && !old(protect) ==> r == Pass && value == Copy(old(other.value))
      ensures other != null && !old(protect) ==> Equal(value, old(other.value)) && Unprotected(value)
    {
      if other == null {
        return Fail(IllegalArgument);
      }
      var v := Copy(other.value);
      CopyUnprotected(other.value);
      CopyEqual(other.value);
      r := Replace(v);
    }

    /** `set(String, ModelNode)`: this node becomes a property whose value is a clone of `other`. */
    method SetPropertyNode(name: string, other: ModelNode) returns (r: Outcome)
      requires Valid() && other.Valid()
      modifies this
      ensures Valid() && protect == old(protect)
      ensures old(protect) ==> r == Fail(Unsupported) && value == old(value)
      ensures !old(protect) ==> r == Pass && value == PropertyValue(name, Values.Clone(old(other.Cell())))
    {
      var v := PropertyValue(name, Values.Clone(other.Cell()));
      CopyUnprotected(other.value);
      r := Replace(v);
    }

    /**
     * `set(String, x)` for every scalar `x`: this node becomes a property
     * whose value is a new node holding `x`. Here the protection check comes
     * first; a null `x` (`None`) is then refused by the new node's setter and
     * this node keeps its value.
     */
    method SetPropertyScalar(name: string, s: Option<ScalarValue>) returns (r: Outcome)
      requires Valid()
      modifies this
      ensures Valid() && protect == old(protect)
      ensures old(protect) ==> r == Fail(Unsupported) && value == old(value)
      ensures !old(protect) && s.None? ==> r == Fail(IllegalArgument) && value == old(value)
      ensures !old(protect) && s.Some? ==> r == Pass && value == PropertyValue(name, Node(false, s.value))
    {
      if protect {
        return Fail(Unsupported);
      }
      if s.None? {
        return Fail(IllegalArgument);
      }
      r := Replace(PropertyValue(name, Node(false, s.value)));
    }

    /**
     * `set(Property)`: `set(name, value)` with the property's name and a
     * clone of its value. A null property (`None`) is refused before the
     * protection check.
     */
    method SetProperty(p: Option<Property>) returns (r: Outcome)
      requires Valid() && (p.Some? ==> WellFormed(p.value.value.value))
      modifies this
      ensures Valid() && protect == old(protect)
      ensures p.None? ==> r == Fail(IllegalArgument) && value == old(value)
      ensures p.Some? && old(protect) ==> r == Fail(Unsupported) && value == old(value)
      ensures p.Some? && !old(protect) ==> r == Pass && value == PropertyValue(p.value.name, Values.Clone(p.value.value))
    {
      if p.None? {
        return Fail(IllegalArgument);
      }
      CopyUnprotected(p.value.value.value);
      r := Replace(PropertyValue(p.value.name, Values.Clone(p.value.value)));
    }

    /**
     * `set(Collection<ModelNode>)`: this node becomes a list holding, in
     * order, a new undefined node for each null element and a clone of each
     * other element. A null collection (`None`) is refused before the
     * protection check.
     */
    method SetList(collection: Option<seq<ModelNode?>>) returns (r: Outcome)
      requires Valid()
      requires collection.Some? ==> forall i :: 0 <= i < |collection.value| && collection.value[i] != null ==> collection.value[i].Valid()
      modifies this
      ensures Valid() && protect == old(protect)
      ensures collection.None? ==> r == Fail(IllegalArgument) && value == old(value)
      ensures collection.Some? && old(protect) ==> r == Fail(Unsupported) && value == old(value)
      ensures collection.Some? && !old(protect) ==> r == Pass && value.ListValue? && |value.items| == |collection.value|
      ensures collection.Some? && !old(protect) ==> forall i :: 0 <= i < |collection.value| ==>
        value.items[i] == if collection.value[i] == null then Fresh else Values.Clone(old(collection.value[i].Cell()))
    {
      if collection.None? {
        return Fail(IllegalArgument);
      }
      if protect {
        return Fail(Unsupported);
      }
      var nodes := collection.value;
      var list: seq<Node> := [];
      var i := 0;
      while i < |nodes|
        modifies {}
        invariant 0 <= i <= |nodes| && |list| == i
        invariant forall j :: 0 <= j < i ==> list[j] == if nodes[j] == null then Fresh else Values.Clone(nodes[j].Cell())
        invariant forall j :: 0 <= j < i ==> WellFormed(list[j].value) && Unprotected(list[j].value) && !list[j].prot
      {
        if nodes[i] == null {
          list := list + [Fresh];
        } else {
          CopyUnprotected(nodes[i].value);
          list := list + [Values.Clone(nodes[i].Cell())];
        }
        i := i + 1;
      }
      r := Replace(ListValue(list));
    }

    /** `setEmptyList()`. */
    method SetEmptyList() returns (r: Outcome)
      requires Valid()
      modifies this
      ensures Valid() && protect == old(protect)
      ensures old(protect) ==> r == Fail(Unsupported) && value == old(value)
      ensures !old(protect) ==> r == Pass && value == ListValue([])
    {
      r := Replace(ListValue([]));
    }

    /** `setEmptyObject()`. */
    method SetEmptyObject() returns (r: Outcome)
      requires Valid()
      modifies this
      ensures Valid() && protect == old(protect)
      ensures old(protect) ==> r == Fail(Unsupported) && value == old(value)
      ensures !old(protect) ==> r == Pass && value == ObjectValue([])
    {
      r := Replace(ObjectValue([]));
    }

    /** `clear()`: back to undefined. */
    method Clear() returns (r: Outcome)
      requires Valid()
      modifies this
      ensures Valid() && protect == old(protect)
      ensures old(protect) ==> r == Fail(Unsupported) && value == old(value)
      ensures !old(protect) ==> r == Pass && !value.IsDefined()
    {
      r := Replace(UndefinedValue);
    }

    // -------------------------------------------------------------------------
    // Children
    // -------------------------------------------------------------------------

    /** `get(String)`: the child named `name`, created (and this node turned into an object) when allowed. */
    method Get(name: string) returns (r: Result<Node>)
      requires Valid()
      modifies this
      ensures Valid() && protect == old(protect)
      ensures Children.Get(old(Cell()), name).Ok? ==>
        Cell() == Children.Get(old(Cell()), name).value.node && r == Ok(Children.Get(old(Cell()), name).value.child)
      ensures Children.Get(old(Cell()), name).Err? ==>
        value == old(value) && r == Err(Children.Get(old(Cell()), name).error)
    {
      var g := Children.Get(Cell(), name);
      if g.Err? {
        return Err(g.error);
      }
      GetPreserves(Cell(), name);
      value := g.value.node.value;
      return Ok(g.value.child);
    }

    /** `get(int)`: the item at `index`, padding the list with undefined items when allowed. */
    method GetAt(index: int) returns (r: Result<Node>)
      requires Valid()
      modifies this
      ensures Valid() && protect == old(protect)
      ensures Cell() == Children.GetAt(old(Cell()), index).node
      ensures r == Children.GetAt(old(Cell()), index).result
    {
      var c := Children.GetAt(Cell(), index);
      GetAtPreserves(Cell(), index);
      value := c.node.value;
      r := c.result;
    }

    /** `remove(String)`: the removed child, if there was one. */
    method Remove(name: string) returns (r: Result<Option<Node>>)
      requires Valid()
      modifies this
      ensures Valid() && protect == old(protect)
      ensures Cell() == RemoveChild(old(Cell()), name).node
      ensures r == RemoveChild(old(Cell()), name).result
    {
      var c := RemoveChild(Cell(), name);
      RemoveChildPreserves(Cell(), name);
      value := c.node.value;
      r := c.result;
    }

    /** `remove(int)`: the removed item. */
    method RemoveAt(index: int) returns (r: Result<Node>)
      requires Valid()
      modifies this
      ensures Valid() && protect == old(protect)
      ensures Cell() == RemoveChildAt(old(Cell()), index).node
      ensures r == RemoveChildAt(old(Cell()), index).result
    {
      var c := RemoveChildAt(Cell(), index);
      RemoveChildAtPreserves(Cell(), index);
      value := c.node.value;
      r := c.result;
    }

    /** `add()`: appends an undefined item; the result is its index. */
    method Add() returns (r: Result<nat>)
      requires Valid()
      modifies this
      ensures Valid() && protect == old(protect)
      ensures Cell() == Children.Add(old(Cell())).node
      ensures Done(r) == Done(Children.Add(old(Cell())).result)
      ensures r.Ok? ==> !protect && value.ListValue? && value.items == ListItems(old(value)) + [Fresh]
      ensures r.Ok? ==> r.value == |value.items| - 1
    {
      var c := Children.Add(Cell());
      AddPreserves(Cell());
      value := c.node.value;
      if c.result.Err? {
        return Err(c.result.error);
      }
      return Ok(|value.items| - 1);
    }

    /**
     * `insert(int)`: puts an undefined item at `index`; the result is that
     * index. An undefined node becomes an empty list first, and stays one
     * when the index is then refused.
     */
    method Insert(index: int) returns (r: Result<nat>)
      requires Valid()
      modifies this
      ensures Valid() && protect == old(protect)
      ensures Cell() == Children.Insert(old(Cell()), index).node
      ensures Done(r) == Done(Children.Insert(old(Cell()), index).result)
      ensures r.Ok? ==> !protect && value.ListValue? && 0 <= index <= |ListItems(old(value))|
      ensures r.Ok? ==> r.value == index && value.items == ListItems(old(value))[..index] + [Fresh] + ListItems(old(value))[index..]
    {
      var c := Children.Insert(Cell(), index);
      InsertPreserves(Cell(), index);
      value := c.node.value;
      if c.result.Err? {
        return Err(c.result.error);
      }
      return Ok(index);
    }

    /** Overwrite the new item at `i`: what a write through the handle `add()` or `insert(int)` returned does. */
    method Fill(i: nat, child: Node)
      requires Valid() && !protect && value.ListValue? && i < |value.items|
      requires !child.prot && WellFormed(child.value) && Unprotected(child.value)
      modifies this
      ensures Valid() && !protect
      ensures value == ListValue(old(value).items[i := child])
    {
      UnprotectedIsSealed(child.value);
      value := ListValue(value.items[i := child]);
    }

    /** `add().set(...)` with a child fixed in advance: the list grows by that child. */
    method Append(child: Node) returns (r: Outcome)
      requires Valid() && !child.prot && WellFormed(child.value) && Unprotected(child.value)
      modifies this
      ensures Valid() && protect == old(protect)
      ensures r == Done(Children.Add(old(Cell())).result)
      ensures r.Fail? ==> value == old(value)
      ensures r.Pass? ==> value == ListValue(ListItems(old(value)) + [child])
    {
      var g := Add();
      if g.Err? {
        return Fail(g.error);
      }
      FillLast(ListItems(old(value)), child);
      Fill(g.value, child);
      return Pass;
    }

    /**
     * `add().set(null)`: the list has already grown by an undefined item when
     * the null argument is refused.
     */
    method AppendNull() returns (r: Outcome)
      requires Valid()
      modifies this
      ensures Valid() && protect == old(protect)
      ensures Children.Add(old(Cell())).result.Err? ==>
        r == Fail(Children.Add(old(Cell())).result.error) && value == old(value)
      ensures Children.Add(old(Cell())).result.Ok? ==>
        r == Fail(IllegalArgument) && value == ListValue(ListItems(old(value)) + [Fresh])
    {
      var g := Add();
      if g.Err? {
        return Fail(g.error);
      }
      return Fail(IllegalArgument);
    }

    /** `add(x)` for every scalar `x`: `add().set(x)`; `None` is a null argument. */
    method AddScalar(s: Option<ScalarValue>) returns (r: Outcome)
      requires Valid()
      modifies this
      ensures Valid() && protect == old(protect)
      ensures Children.Add(old(Cell())).result.Err? ==>
        r == Fail(Children.Add(old(Cell())).result.error) && value == old(value)
      ensures Children.Add(old(Cell())).result.Ok? && s.None? ==>
        r == Fail(IllegalArgument) && value == ListValue(ListItems(old(value)) + [Fresh])
      ensures Children.Add(old(Cell())).result.Ok? && s.Some? ==>
        r == Pass && value == ListValue(ListItems(old(value)) + [Node(false, s.value)])
    {
      if s.None? {
        r := AppendNull();
      } else {
        r := Append(Node(false, s.value));
      }
    }

    /**
     * `add(ModelNode)`: `add().set(other)`. The list has already grown when a
     * null `other` is refused; a node added to itself copies the list that
     * already holds the new, undefined item.
     */
    method AddNode(other: ModelNode?) returns (r: Outcome)
      requires Valid() && (other != null ==> other.Valid())
      modifies this
      ensures Valid() && protect == old(protect)
      ensures Children.Add(old(Cell())).result.Err? ==>
        r == Fail(Children.Add(old(Cell())).result.error) && value == old(value)
      ensures Children.Add(old(Cell())).result.Ok? && other == null ==>
        r == Fail(IllegalArgument) && value == ListValue(ListItems(old(value)) + [Fresh])
      ensures Children.Add(old(Cell())).result.Ok? && other != null && other != this ==>
        r == Pass && value == ListValue(ListItems(old(value)) + [Values.Clone(old(other.Cell()))])
      ensures Children.Add(old(Cell())).result.Ok? && other == this ==>
        r == Pass && value == ListValue(ListItems(old(value)) + [Node(false, Copy(ListValue(ListItems(old(value)) + [Fresh])))])
    {
      if other != null && other != this {
        CopyUnprotected(other.value);
        r := Append(Values.Clone(other.Cell()));
        return;
      }
      if other == null {
        r := AppendNull();
        return;
      }
      var g := Add();
      if g.Err? {
        return Fail(g.error);
      }
      CopyUnprotected(value);
      var child := Values.Clone(Cell());
      FillLast(ListItems(old(value)), child);
      Fill(g.value, child);
      return Pass;
    }

    /** `insert(ModelNode, int)`: `insert(index).set(other)`. */
    method InsertNode(other: ModelNode?, index: int) returns (r: Outcome)
      requires Valid() && (other != null ==> other.Valid())
      modifies this
      ensures Valid() && protect == old(protect)
      ensures Children.Insert(old(Cell()), index).result.Err? ==>
        r == Fail(Children.Insert(old(Cell()), index).result.error) && Cell() == Children.Insert(old(Cell()), index).node
      ensures Children.Insert(old(Cell()), index).result.Ok? && other == null ==>
        r == Fail(IllegalArgument) && Cell() == Children.Insert(old(Cell()), index).node
      ensures Children.Insert(old(Cell()), index).result.Ok? && other != null && other != this ==>
        r == Pass &&
        value == ListValue(ListItems(old(value))[..index] + [Values.Clone(old(other.Cell()))] + ListItems(old(value))[index..])
    {
      var g := Insert(index);
      if g.Err? {
        return Fail(g.error);
      }
      if other == null {
        return Fail(IllegalArgument);
      }
      CopyUnprotected(other.value);
      var child := Values.Clone(other.Cell());
      FillInserted(ListItems(old(value)), index, child);
      Fill(g.value, child);
      return Pass;
    }

    /** `add(String, ModelNode)`: `add().set(name, other)`, a new property item holding a clone of `other`. */
    method AddPropertyNode(name: string, other: ModelNode) returns (r: Outcome)
      requires Valid() && other.Valid()
      modifies this
      ensures Valid() && protect == old(protect)
      ensures r == Done(Children.Add(old(Cell())).result)
      ensures r.Fail? ==> value == old(value)
      ensures r.Pass? && other != this ==>
        value == ListValue(ListItems(old(value)) + [Node(false, PropertyValue(name, Values.Clone(old(other.Cell()))))])
      ensures r.Pass? && other == this ==>
        value == ListValue(ListItems(old(value)) + [Node(false, PropertyValue(name, Node(false, Copy(ListValue(ListItems(old(value)) + [Fresh])))))])
    {
      if other != this {
        CopyUnprotected(other.value);
        r := Append(Node(false, PropertyValue(name, Values.Clone(other.Cell()))));
        return;
      }
      var g := Add();
      if g.Err? {
        return Fail(g.error);
      }
      CopyUnprotected(value);
      var child := Node(false, PropertyValue(name, Values.Clone(Cell())));
      FillLast(ListItems(old(value)), child);
      Fill(g.value, child);
      return Pass;
    }

    /**
     * `add(String, x)` for every scalar `x`: `add().set(name, x)`. A null `x`
     * (`None`) is refused by the new item's own new child, so the new item
     * stays undefined.
     */
    method AddPropertyScalar(name: string, s: Option<ScalarValue>) returns (r: Outcome)
      requires Valid()
      modifies this
      ensures Valid() && protect == old(protect)
      ensures Children.Add(old(Cell())).result.Err? ==>
        r == Fail(Children.Add(old(Cell())).result.error) && value == old(value)
      ensures Children.Add(old(Cell())).result.Ok? && s.None? ==>
        r == Fail(IllegalArgument) && value == ListValue(ListItems(old(value)) + [Fresh])
      ensures Children.Add(old(Cell())).result.Ok? && s.Some? ==>
        r == Pass && value == ListValue(ListItems(old(value)) + [Node(false, PropertyValue(name, Node(false, s.value)))])
    {
      if s.None? {
        r := AppendNull();
      } else {
        r := Append(Node(false, PropertyValue(name, Node(false, s.value))));
      }
    }

    /** `add(Property)`: `add().set(property)`; a null property (`None`) is refused once the list has grown. */
    method AddProperty(p: Option<Property>) returns (r: Outcome)
      requires Valid() && (p.Some? ==> WellFormed(p.value.value.value))
      modifies this
      ensures Valid() && protect == old(protect)
      ensures Children.Add(old(Cell())).result.Err? ==>
        r == Fail(Children.Add(old(Cell())).result.error) && value == old(value)
      ensures Children.Add(old(Cell())).result.Ok? && p.None? ==>
        r == Fail(IllegalArgument) && value == ListValue(ListItems(old(value)) + [Fresh])
      ensures Children.Add(old(Cell())).result.Ok? && p.Some? ==>
        r == Pass && value == ListValue(ListItems(old(value)) + [Node(false, PropertyValue(p.value.name, Values.Clone(p.value.value)))])
    {
      if p.None? {
        r := AppendNull();
        return;
      }
      CopyUnprotected(p.value.value.value);
      r := Append(Node(false, PropertyValue(p.value.name, Values.Clone(p.value.value))));
    }

    /** `addEmptyList()`: appends an empty list; the result is its index. */
    method AddEmptyList() returns (r: Result<nat>)
      requires Valid()
      modifies this
      ensures Valid() && protect == old(protect)
      ensures Done(r) == Done(Children.Add(old(Cell())).result)
      ensures r.Err? ==> value == old(value)
      ensures r.Ok? ==> value == ListValue(ListItems(old(value)) + [Node(false, ListValue([]))]) && r.value == |ListItems(old(value))|
    {
      var n := |ListItems(value)|;
      var o := Append(Node(false, ListValue([])));
      r := if o.Pass? then Ok(n) else Err(o.error);
    }

    /** `addEmptyObject()`: appends an empty object; the result is its index. */
    method AddEmptyObject() returns (r: Result<nat>)
      requires Valid()
      modifies this
      ensures Valid() && protect == old(protect)
      ensures Done(r) == Done(Children.Add(old(Cell())).result)
      ensures r.Err? ==> value == old(value)
      ensures r.Ok? ==> value == ListValue(ListItems(old(value)) + [Node(false, ObjectValue([]))]) && r.value == |ListItems(old(value))|
    {
      var n := |ListItems(value)|;
      var o := Append(Node(false, ObjectValue([])));
      r := if o.Pass? then Ok(n) else Err(o.error);
    }

    // -------------------------------------------------------------------------
    // Paths
    // -------------------------------------------------------------------------

    /** `has(String...)`: walks the existing children named along `names`, creating nothing. */
    method HasPath(names: seq<string>) returns (b: bool)
      ensures b == Find(Cell(), names).Some?
      ensures b <==> WalkPath(Cell(), names).Ok? && !WalkPath(Cell(), names).value.created
    {
      HasIffWalkWithoutCreating(Cell(), names);
      var current := Cell();
      var i := 0;
      while i < |names|
        invariant 0 <= i <= |names|
        invariant Find(Cell(), names) == Find(current, names[i..])
      {
        if !Children.Has(current.value, names[i]) {
          return false;
        }
        var g := Children.Get(current, names[i]);
        current := g.value.child;
        assert names[i..][1..] == names[i + 1..];
        i := i + 1;
      }
      return true;
    }

    /** `hasDefined(String...)`: like `has(String...)`, but every child on the way must be defined. */
    method HasDefinedPath(names: seq<string>) returns (b: bool)
      ensures b == FindDefined(Cell(), names).Some?
      ensures b ==> Find(Cell(), names) == FindDefined(Cell(), names)
    {
      var current := Cell();
      var i := 0;
      while i < |names|
        invariant 0 <= i <= |names|
        invariant FindDefined(Cell(), names) == FindDefined(current, names[i..])
      {
        if !HasDefined(current.value, names[i]) {
          return false;
        }
        var g := Children.Get(current, names[i]);
        current := g.value.child;
        assert names[i..][1..] == names[i + 1..];
        i := i + 1;
      }
      FindDefinedFinds(Cell(), names);
      return true;
    }

    /**
     * `get(String...)`: `get(name)` on each name in turn. Each step's change
     * (a child created, an undefined node turned into an object) is made in
     * the tree as the walk goes, and stays when a later step fails.
     */
    method GetPath(names: seq<string>) returns (r: Result<Node>)
      requires Valid()
      modifies this
      ensures Valid() && protect == old(protect)
      ensures Cell() == PathTree(old(Cell()), names)
      ensures WalkPath(old(Cell()), names).Ok? ==> r == Ok(WalkPath(old(Cell()), names).value.cursor)
      ensures WalkPath(old(Cell()), names).Err? ==> r == Err(WalkPath(old(Cell()), names).error)
    {
      ghost var start := Cell();
      var cursor := Cell();
      var i := 0;
      while i < |names|
        invariant 0 <= i <= |names|
        invariant WalkPath(start, names[..i]).Ok?
        invariant Cell() == WalkPath(start, names[..i]).value.root
        invariant cursor == WalkPath(start, names[..i]).value.cursor
        invariant Valid() && protect == start.prot
      {
        var g := Children.Get(cursor, names[i]);
        if g.Err? {
          PathTreeAt(start, names, i);
          return Err(g.error);
        }
        WalkStep(start, names, i);
        value := Graft(Cell(), names[..i], g.value.node).value;
        cursor := g.value.child;
        i := i + 1;
      }
      assert names[..i] == names;
      return Ok(cursor);
    }

    // -------------------------------------------------------------------------
    // Copies, equality and the binary form
    // -------------------------------------------------------------------------

    /** `clone()`: a new, unprotected node holding a deep copy, equal to this one. */
    method Clone() returns (c: ModelNode)
      requires Valid()
      ensures fresh(c) && c.Valid() && !c.protect
      ensures c.value == Copy(value) && Equal(c.value, value)
    {
      c := new ModelNode();
      CopyUnprotected(value);
      UnprotectedIsSealed(Copy(value));
      CopyEqual(value);
      c.value := Copy(value);
    }

    /** `equals(ModelNode)`: the same object, or a non-null node with an equal value. Protection does not matter. */
    method Equals(other: ModelNode?) returns (b: bool)
      requires Valid()
      ensures b == (other != null && Equal(other.value, value))
    {
      if other == this {
        EqualReflexive(value);
        return true;
      }
      return other != null && Equal(other.value, value);
    }

    /** `writeExternal`: the tag byte of the type, then the payload. */
    method WriteExternal() returns (out: seq<Datum>)
      requires Valid()
      ensures out == Encode(value)
      ensures DecodeValue(out) == Ok(Decoded(Copy(value), []))
    {
      out := Encode(value);
      RoundTrip(value, []);
      assert out + [] == out;
    }

    /**
     * `readExternal`: a protected node refuses before reading anything;
     * otherwise one value is decoded from the front of `input`, and only a
     * complete decode replaces the value. The result is the unread rest.
     */
    method ReadExternal(input: seq<Datum>) returns (r: Result<seq<Datum>>)
      requires Valid()
      modifies this
      ensures Valid() && protect == old(protect)
      ensures old(protect) ==> r == Err(Unsupported) && value == old(value)
      ensures !old(protect) && DecodeValue(input).Err? ==> r == Err(Malformed) && value == old(value)
      ensures !old(protect) && DecodeValue(input).Ok? ==>
        r == Ok(DecodeValue(input).value.rest) && value == DecodeValue(input).value.value
    {
      if protect {
        return Err(Unsupported);
      }
      match DecodeValue(input)
      case Err(e) =>
        return Err(e);
      case Ok(d) =>
        UnprotectedIsSealed(d.value);
        value := d.value;
        return Ok(d.rest);
    }

    /** `fromBase64`: `readExternal` into a new node. */
    static method FromBase64(encoded: seq<Datum>) returns (r: Result<ModelNode>)
      ensures r.Ok? <==> Wire.FromBase64(encoded).Ok?
      ensures r.Ok? ==> fresh(r.value) && r.value.Valid() && !r.value.protect && r.value.value == Wire.FromBase64(encoded).value
      ensures r.Err? ==> r.error == Malformed
    {
      var n := new ModelNode();
      var read := n.ReadExternal(encoded);
      if read.Err? {
        return Err(read.error);
      }
      return Ok(n);
    }

    /** `toBase64`: the binary form of the value. */
    method ToBase64() returns (encoded: seq<Datum>)
      requires Valid()
      ensures Wire.FromBase64(encoded) == Ok(Copy(value))
      ensures Equal(Wire.FromBase64(encoded).value, value)
    {
      encoded := WriteExternal();
      Base64RoundTrip(value);
    }
  }
}
