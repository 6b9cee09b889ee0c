/**
 * Structural access to a node's children: the lookups behind `has`,
 * `require` and `hasDefined`, and the auto-vivifying `get`, `add`, `insert`
 * and `remove` of a single node. Each function takes the node cell (its
 * protection flag matters) and returns the cell as it stands afterwards
 * together with what the Java method returns or throws.
 */
module Children {
  import opened Wrappers
  import opened Values

  /** The number of children: list items, object entries, or the one child of a property. */
  function Size(v: Value): nat {
    match v
    case ListValue(items) => |items|
    case ObjectValue(es) => |es|
    case PropertyValue(_, _) => 1
    case _ => 0
  }

  /** The existing child under `name`: an object key, or the name of a property. */
  function ChildNamed(v: Value, name: string): Option<Node> {
    match v
    case ObjectValue(es) => Lookup(es, name)
    case PropertyValue(k, c) => if k == name then Some(c) else None
    case _ => None
  }

  /** The existing child at `index`: a list position, or index 0 of a property. */
  function ChildAt(v: Value, index: int): Option<Node> {
    match v
    case ListValue(items) => if 0 <= index < |items| then Some(items[index]) else None
    case PropertyValue(_, c) => if index == 0 then Some(c) else None
    case _ => None
  }

  /** `has(String)`: there is a (possibly undefined) child with this name. */
  predicate Has(v: Value, name: string)
    ensures Has(v, name) ==> v.ObjectValue? || (v.PropertyValue? && v.name == name)
  {
    ChildNamed(v, name).Some?
  }

  /** `has(int)`: there is a (possibly undefined) child at this index. */
  predicate HasAt(v: Value, index: int)
    ensures HasAt(v, index) <==> (v.ListValue? || v.PropertyValue?) && 0 <= index < Size(v)
  {
    ChildAt(v, index).Some?
  }

  /** `hasDefined(String)`: `has(key) && get(key).isDefined()`. */
  predicate HasDefined(v: Value, name: string)
    ensures HasDefined(v, name) <==> Require(v, name).Ok? && Require(v, name).value.value.IsDefined()
  {
    Has(v, name) && ChildNamed(v, name).value.value.IsDefined()
  }

  /** `hasDefined(int)`: `has(index) && get(index).isDefined()`. */
  predicate HasDefinedAt(v: Value, index: int)
    ensures HasDefinedAt(v, index) <==> RequireAt(v, index).Ok? && RequireAt(v, index).value.value.IsDefined()
  {
    HasAt(v, index) && ChildAt(v, index).value.value.IsDefined()
  }

  /** `require(String)`: the child, or NoSuchElement; never creates anything. */
  function Require(v: Value, name: string): (r: Result<Node>)
    ensures r.Ok? <==> Has(v, name)
    ensures r.Err? ==> r.error == NoSuchElement
  {
    match ChildNamed(v, name)
    case Some(c) => Ok(c)
    case None => Err(NoSuchElement)
  }

  /** `require(int)`: the child, or NoSuchElement; never creates anything. */
  function RequireAt(v: Value, index: int): (r: Result<Node>)
    ensures r.Ok? <==> HasAt(v, index)
    ensures r.Err? ==> r.error == NoSuchElement
  {
    match ChildAt(v, index)
    case Some(c) => Ok(c)
    case None => Err(NoSuchElement)
  }

  /** The node after `get(name)`, the child it returned, and whether it had to create one. */
  datatype Reached = Reached(node: Node, child: Node, created: bool)

  /** The node after an operation, and what the operation returned or threw. */
  datatype Changed<T> = Changed(node: Node, result: Result<T>)

  /**
   * `get(String)`. An undefined node first becomes an object (failing if it is
   * protected). An object returns the child under `name`, creating an
   * undefined one at the end if there is none; a protected object cannot grow.
   * A property returns its child when `name` is its name. Every other variant
   * has no named children.
   */
  function Get(n: Node, name: string): (r: Result<Reached>)
    ensures r.Ok? ==> ChildNamed(r.value.node.value, name) == Some(r.value.child)
    ensures r.Ok? ==> r.value.node.prot == n.prot
    ensures r.Ok? && !r.value.created ==> r.value.node == n
    ensures r.Ok? && r.value.created ==> !n.prot && r.value.child == Fresh && !Has(n.value, name)
    ensures Has(n.value, name) ==> r == Ok(Reached(n, ChildNamed(n.value, name).value, false))
    ensures !n.value.IsDefined() ==> (r.Ok? <==> !n.prot)
    ensures !n.value.IsDefined() && r.Ok? ==> r.value.node.value == ObjectValue([Entry(name, Fresh)])
    ensures n.value.IsDefined() && r.Ok? ==> r.value.node.value.Type() == n.value.Type()
    ensures n.value.ObjectValue? && !n.prot ==> r.Ok?
    ensures r.Err? ==> !Has(n.value, name) && (n.prot || !(n.value.UndefinedValue? || n.value.ObjectValue?))
    ensures r.Err? ==> r.error == if n.prot && (n.value.UndefinedValue? || n.value.ObjectValue?) then Unsupported else IllegalArgument
  {
    match n.value
    case UndefinedValue =>
      if n.prot then Err(Unsupported)
      else Ok(Reached(Node(false, ObjectValue([Entry(name, Fresh)])), Fresh, true))
    case ObjectValue(es) =>
      (match Lookup(es, name)
       case Some(c) => Ok(Reached(n, c, false))
       case None =>
         if n.prot then Err(Unsupported)
         else Ok(Reached(Node(n.prot, ObjectValue(Put(es, name, Fresh))), Fresh, true)))
    case PropertyValue(k, c) =>
      if k == name then Ok(Reached(n, c, false)) else Err(IllegalArgument)
    case _ => Err(IllegalArgument)
  }

  /** `get(String)` keeps a node well-formed and sealed. */
  lemma GetPreserves(n: Node, name: string)
    requires WellFormed(n.value) && Sealed(n.value, n.prot)
    requires Get(n, name).Ok?
    ensures WellFormed(Get(n, name).value.node.value) && Sealed(Get(n, name).value.node.value, n.prot)
    ensures WellFormed(Get(n, name).value.child.value) && Sealed(Get(n, name).value.child.value, Get(n, name).value.child.prot)
  {
    var r := Get(n, name).value;
    if !r.created {
      match n.value
      case ObjectValue(es) =>
        var i :| 0 <= i < |es| && es[i] == Entry(name, r.child);
      case _ =>
    } else if n.value.ObjectValue? {
      PutPreserves(n.value.entries, name, Fresh, false);
    }
  }

  /** A `get(name)` that creates a child leaves every other name as it was and grows the node by one. */
  lemma GetFrame(n: Node, name: string)
    requires Get(n, name).Ok? && Get(n, name).value.created
    ensures Size(Get(n, name).value.node.value) == Size(n.value) + 1
    ensures forall k :: k != name ==> ChildNamed(Get(n, name).value.node.value, k) == ChildNamed(n.value, k)
  {
    if n.value.ObjectValue? {
      PutFrame(n.value.entries, name, Fresh);
    }
  }

  /** Ask for a list position that does not exist yet: pad with undefined nodes up to it. */
  function Pad(count: nat): (r: seq<Node>)
    ensures |r| == count && forall i :: 0 <= i < count ==> r[i] == Fresh
  {
    seq(count, _ => Fresh)
  }

  /**
   * `get(int)`. An undefined node first becomes an empty list (failing if it
   * is protected); that assignment stands even when the index then proves
   * invalid. A list returns the item at `index`, padding itself with
   * undefined items up to `index` when it is too short (a protected list cannot
   * grow). A property returns its child for index 0.
   */
  function GetAt(n: Node, index: int): (c: Changed<Node>)
    ensures c.node.prot == n.prot
    ensures n.prot ==> c.node == n
    ensures c.result.Ok? ==> ChildAt(c.node.value, index) == Some(c.result.value)
    ensures HasAt(n.value, index) ==> c == Changed(n, Ok(ChildAt(n.value, index).value))
    ensures !n.value.IsDefined() && !n.prot ==> c.node.value.ListValue?
    ensures !n.value.IsDefined() && !n.prot && index >= 0 ==> c.node.value.items == Pad(index + 1) && c.result == Ok(Fresh)
    ensures !n.value.IsDefined() && !n.prot && index < 0 ==> c == Changed(Node(false, ListValue([])), Err(IndexOutOfBounds))
    ensures n.value.IsDefined() ==> c.node.value.Type() == n.value.Type()
    ensures n.value.ListValue? && c.result.Ok? ==>
      Size(c.node.value) == (if index < Size(n.value) then Size(n.value) else index + 1) &&
      forall j :: 0 <= j < Size(n.value) ==> ChildAt(c.node.value, j) == ChildAt(n.value, j)
    ensures c.result.Err? && n.value.IsDefined() ==> c.node == n
  {
    match n.value
    case UndefinedValue =>
      if n.prot then Changed(n, Err(Unsupported))
      else if index < 0 then Changed(Node(false, ListValue([])), Err(IndexOutOfBounds))
      else Changed(Node(false, ListValue(Pad(index + 1))), Ok(Fresh))
    case ListValue(items) =>
      if 0 <= index < |items| then Changed(n, Ok(items[index]))
      else if index < 0 then Changed(n, Err(IndexOutOfBounds))
      else if n.prot then Changed(n, Err(Unsupported))
      else Changed(Node(n.prot, ListValue(items + Pad(index + 1 - |items|))), Ok(Fresh))
    case PropertyValue(_, child) =>
      if index == 0 then Changed(n, Ok(child)) else Changed(n, Err(IllegalArgument))
    case _ => Changed(n, Err(IllegalArgument))
  }

  /**
   * `add()`. Protected nodes refuse first. An undefined node becomes a list
   * holding one new undefined item; a list gains one at its end; any other
   * variant refuses.
   */
  function Add(n: Node): (c: Changed<Node>)
    ensures c.node.prot == n.prot
    ensures c.result.Ok? <==> !n.prot && (n.value.UndefinedValue? || n.value.ListValue?)
    ensures c.result.Err? ==> c.node == n
    ensures c.result.Err? ==> c.result.error == if n.prot then Unsupported else IllegalArgument
    ensures c.result.Ok? ==> c.node.value.ListValue? && c.result.value == Fresh
    ensures c.result.Ok? ==> Size(c.node.value) == Size(n.value) + 1
    ensures c.result.Ok? ==> ChildAt(c.node.value, Size(n.value)) == Some(c.result.value)
    ensures c.result.Ok? ==> forall j :: 0 <= j < Size(n.value) ==> ChildAt(c.node.value, j) == ChildAt(n.value, j)
  {
    if n.prot then Changed(n, Err(Unsupported))
    else match n.value
      case UndefinedValue => Changed(Node(false, ListValue([Fresh])), Ok(Fresh))
      case ListValue(items) => Changed(Node(false, ListValue(items + [Fresh])), Ok(Fresh))
      case _ => Changed(n, Err(IllegalArgument))
  }

  /** Put a new undefined item at `index` of `items`, when `0 <= index <= |items|`. */
  function InsertItem(n: Node, items: seq<Node>, index: int): Changed<Node> {
    if 0 <= index <= |items| then
      Changed(Node(n.prot, ListValue(items[..index] + [Fresh] + items[index..])), Ok(Fresh))
    else
      Changed(Node(n.prot, ListValue(items)), Err(IndexOutOfBounds))
  }

  /**
   * `insert(int)`. Protected nodes refuse first. An undefined node becomes an
   * empty list (and stays one even if the index is then refused). A list
   * accepts `0 <= index <= size` and shifts the later items up by one.
   */
  function Insert(n: Node, index: int): (c: Changed<Node>)
    ensures c.node.prot == n.prot
    ensures c.result.Ok? <==>
      !n.prot && ((n.value.UndefinedValue? && index == 0) || (n.value.ListValue? && 0 <= index <= Size(n.value)))
    ensures n.prot ==> c == Changed(n, Err(Unsupported))
    ensures c.result.Err? && !n.prot ==>
      c.result.error == (if n.value.UndefinedValue? || n.value.ListValue? then IndexOutOfBounds else IllegalArgument)
    ensures c.result.Err? ==> c.node == if n.value.UndefinedValue? && !n.prot then Node(false, ListValue([])) else n
    ensures c.result.Ok? ==> c.node.value.ListValue? && c.result.value == Fresh
    ensures c.result.Ok? ==> Size(c.node.value) == Size(n.value) + 1
    ensures c.result.Ok? ==> ChildAt(c.node.value, index) == Some(Fresh)
    ensures c.result.Ok? ==> forall j :: 0 <= j < index ==> ChildAt(c.node.value, j) == ChildAt(n.value, j)
    ensures c.result.Ok? ==> forall j :: index < j <= Size(n.value) ==> ChildAt(c.node.value, j) == ChildAt(n.value, j - 1)
  {
    if n.prot then Changed(n, Err(Unsupported))
    else match n.value
      case UndefinedValue => InsertItem(Node(false, ListValue([])), [], index)
      case ListValue(items) => InsertItem(n, items, index)
      case _ => Changed(n, Err(IllegalArgument))
  }

  /**
   * `remove(String)`. An object drops the entry and returns its child, or
   * returns nothing when the key is absent; a protected object refuses. Other
   * variants hold no removable named child and return nothing.
   */
  function RemoveChild(n: Node, name: string): (c: Changed<Option<Node>>)
    ensures c.node.prot == n.prot
    ensures !n.value.ObjectValue? ==> c == Changed(n, Ok(None))
    ensures n.value.ObjectValue? && n.prot ==> c == Changed(n, Err(Unsupported))
    ensures n.value.ObjectValue? && !n.prot ==> c.result == Ok(ChildNamed(n.value, name)) && c.node.value.ObjectValue?
    ensures n.value.ObjectValue? && !n.prot && WellFormed(n.value) ==> !Has(c.node.value, name)
    ensures n.value.ObjectValue? && !n.prot ==> forall k :: k != name ==> ChildNamed(c.node.value, k) == ChildNamed(n.value, k)
  {
    match n.value
    case ObjectValue(es) =>
      if n.prot then Changed(n, Err(Unsupported))
      else
        RemoveFrame(es, name);
        Changed(Node(n.prot, ObjectValue(RemoveKey(es, name))), Ok(Lookup(es, name)))
    case _ => Changed(n, Ok(None))
  }

  /**
   * `remove(int)`. A list drops the item at `index` and returns it, closing
   * the gap; a protected list refuses; an absent index, or any other variant,
   * is NoSuchElement.
   */
  function RemoveChildAt(n: Node, index: int): (c: Changed<Node>)
    ensures c.node.prot == n.prot
    ensures c.result.Err? ==> c.node == n
    ensures c.result.Ok? <==> !n.prot && n.value.ListValue? && HasAt(n.value, index)
    ensures c.result.Err? ==> c.result.error == if n.prot && n.value.ListValue? then Unsupported else NoSuchElement
    ensures c.result.Ok? ==> ChildAt(n.value, index) == Some(c.result.value) && c.node.value.ListValue?
    ensures c.result.Ok? ==> Size(c.node.value) == Size(n.value) - 1
    ensures c.result.Ok? ==> forall j :: 0 <= j < index ==> ChildAt(c.node.value, j) == ChildAt(n.value, j)
    ensures c.result.Ok? ==> forall j :: index <= j < Size(c.node.value) ==> ChildAt(c.node.value, j) == ChildAt(n.value, j + 1)
  {
    match n.value
    case ListValue(items) =>
      if n.prot then Changed(n, Err(Unsupported))
      else if 0 <= index < |items| then Changed(Node(n.prot, ListValue(items[..index] + items[index + 1..])), Ok(items[index]))
      else Changed(n, Err(NoSuchElement))
    case _ => Changed(n, Err(NoSuchElement))
  }

  /** Every node of `items` is well-formed and sealed, and protected when `p` is. */
  ghost predicate GoodItems(items: seq<Node>, p: bool) {
    forall i :: 0 <= i < |items| ==> (p ==> items[i].prot) && WellFormed(items[i].value) && Sealed(items[i].value, items[i].prot)
  }

  /** Slicing and joining lists of good items gives good items. */
  lemma GoodJoin(a: seq<Node>, b: seq<Node>, p: bool)
    requires GoodItems(a, p) && GoodItems(b, p)
    ensures GoodItems(a + b, p)
  {
    assert forall i :: 0 <= i < |a| ==> (a + b)[i] == a[i];
    assert forall i :: |a| <= i < |a + b| ==> (a + b)[i] == b[i - |a|];
  }

  /** `get(int)` keeps a node well-formed and sealed. */
  lemma GetAtPreserves(n: Node, index: int)
    requires WellFormed(n.value) && Sealed(n.value, n.prot)
    ensures WellFormed(GetAt(n, index).node.value) && Sealed(GetAt(n, index).node.value, n.prot)
  {
    var c := GetAt(n, index);
    if c.node != n && n.value.ListValue? {
      var items := n.value.items;
      assert GoodItems(items, n.prot);
      assert GoodItems(Pad(index + 1 - |items|), n.prot);
      GoodJoin(items, Pad(index + 1 - |items|), n.prot);
    }
  }

  /** `add()` keeps a node well-formed and sealed. */
  lemma AddPreserves(n: Node)
    requires WellFormed(n.value) && Sealed(n.value, n.prot)
    ensures WellFormed(Add(n).node.value) && Sealed(Add(n).node.value, n.prot)
  {
    if Add(n).result.Ok? && n.value.ListValue? {
      assert GoodItems(n.value.items, n.prot);
      GoodJoin(n.value.items, [Fresh], n.prot);
    }
  }

  /** `insert(int)` keeps a node well-formed and sealed. */
  lemma InsertPreserves(n: Node, index: int)
    requires WellFormed(n.value) && Sealed(n.value, n.prot)
    ensures WellFormed(Insert(n, index).node.value) && Sealed(Insert(n, index).node.value, n.prot)
  {
    if Insert(n, index).result.Ok? && n.value.ListValue? {
      var items := n.value.items;
      assert GoodItems(items, n.prot);
      assert GoodItems(items[..index], n.prot);
      assert GoodItems(items[index..], n.prot);
      GoodJoin(items[..index], [Fresh], n.prot);
      GoodJoin(items[..index] + [Fresh], items[index..], n.prot);
    }
  }

  /** `remove(String)` keeps a node well-formed and sealed. */
  lemma RemoveChildPreserves(n: Node, name: string)
    requires WellFormed(n.value) && Sealed(n.value, n.prot)
    ensures WellFormed(RemoveChild(n, name).node.value) && Sealed(RemoveChild(n, name).node.value, n.prot)
  {
    if n.value.ObjectValue? && !n.prot {
      RemoveKeyPreserves(n.value.entries, name, n.prot);
    }
  }

  /** `remove(int)` keeps a node well-formed and sealed. */
  lemma RemoveChildAtPreserves(n: Node, index: int)
    requires WellFormed(n.value) && Sealed(n.value, n.prot)
    ensures WellFormed(RemoveChildAt(n, index).node.value) && Sealed(RemoveChildAt(n, index).node.value, n.prot)
  {
    if RemoveChildAt(n, index).result.Ok? {
      var items := n.value.items;
      assert GoodItems(items, n.prot);
      assert GoodItems(items[..index], n.prot);
      assert GoodItems(items[index + 1..], n.prot);
      GoodJoin(items[..index], items[index + 1..], n.prot);
    }
  }

  /** `require` succeeds exactly where `get` would succeed without creating, with the same child. */
  lemma RequireIsGetWithoutCreating(n: Node, name: string)
    ensures Require(n.value, name).Ok? <==> Get(n, name).Ok? && !Get(n, name).value.created
    ensures Require(n.value, name).Ok? ==> Get(n, name).value.child == Require(n.value, name).value
  {
  }

  /** On a protected node no structural operation changes anything. */
  lemma ProtectedUnchanged(n: Node, name: string, index: int)
    requires n.prot
    ensures Get(n, name).Ok? ==> Get(n, name).value.node == n
    ensures GetAt(n, index).node == n && Add(n).node == n && Insert(n, index).node == n
    ensures RemoveChild(n, name).node == n && RemoveChildAt(n, index).node == n
  {
  }
}
