# ModelNode, modelled in Dafny

`ModelNode` is the dynamic model type of the JBoss/WildFly management
protocol as HAL uses it: a node holds one value of a fixed set of variants.
The variants are undefined, the scalars (int, long, double, boolean,
string, expression, bytes, type, big decimal, big integer), lists, objects
(an insertion-ordered map from names to child nodes) and properties (a name
and one child node). A node can be protected, after which every mutator
refuses. Children are reached by name or index, and the lenient `get`
creates what is missing. A node converts to the Java types with the `as*`
readers, has a binary form (`writeExternal`/`readExternal`, Base64 around it)
and answers the two questions asked of an operation response:
`isFailure()` and `getFailureDescription()`.

The project has one module per concern:

- `Wrappers` (`wrappers.dfy`): `Option`, `Result`, `Outcome` and the exceptions
  the node throws, as an `Error` datatype.
- `Values` (`values.dfy`):
  - the value variants, the node cell `Node(prot, value)` and the object entries;
  - the linked-hash-map operations an object performs (`Lookup`, `Put`, `RemoveKey`);
  - the two tree invariants: keys are unique in every object (`WellFormed`), and
    below a protected node every node is protected (`Sealed`);
  - deep copy (`Copy`/`Clone`), `protect()` on a tree (`ProtectValue`) and `equals`.
- `Children` (`children.dfy`): child access by name and by index. Each of
  `get`, `get(int)`, `add()`, `insert(int)` and `remove` is a function that
  returns the changed node together with the result or the error.
- `Paths` (`paths.dfy`): `has(String...)`, `hasDefined(String...)` and
  `get(String...)` over name paths. `Find` walks without creating,
  `WalkPath` creates as it goes and `PathTree` is the tree it leaves.
- `Coercion` (`coercion.dfy`): `asLong`, `asInt`, `asBoolean`, `asString`,
  the `defVal` variants, `asList`, `asProperty`, `asPropertyList`, `asObject`
  and `as(ModelType)`.
- `Response` (`response.dfy`): `isFailure()` and `getFailureDescription()`.
- `Wire` (`wire.dfy`): the binary form. It is one type tag byte, then the
  payload: counts, then items or key/child pairs for collections. It includes
  the decoder that `readExternal` performs.
- `Nodes` (`model_node.dfy`): the `ModelNode` class itself. It has the fields
  `protect` and `value`. Every mutator is a method proved against the
  functions above, and every method keeps `Valid()`, meaning both tree
  invariants hold.

## Model

All source paths are in `dmr/src/main/java/org/jboss/hal/dmr/`; the table gives them in full.

| member | source | states |
|---|---|---|
| Nodes.ModelNode.constructor | dmr/src/main/java/org/jboss/hal/dmr/ModelNode.java:66-67 | a new node is undefined and unprotected |
| Nodes.ModelNode.OfScalar | dmr/src/main/java/org/jboss/hal/dmr/ModelNode.java:77-182 | the scalar constructors give an unprotected node holding that scalar |
| Nodes.ModelNode.FromScalar | dmr/src/main/java/org/jboss/hal/dmr/ModelNode.java:77-182 | a null string, byte array, type or big number is refused with IllegalArgument; any other argument gives a new unprotected node holding it |
| Nodes.ModelNode.Protect | dmr/src/main/java/org/jboss/hal/dmr/ModelNode.java:193-198 | afterwards the node and every node below it are protected; a second call changes nothing; the content a copy sees is unchanged |
| Values.ProtectIdempotent | dmr/src/main/java/org/jboss/hal/dmr/ModelNode.java:193-198 | protecting a protected tree leaves it as it is |
| Values.ProtectSeals | dmr/src/main/java/org/jboss/hal/dmr/ModelNode.java:193-198 | protection reaches every node, keeps object keys unique and changes no content |
| Children.ProtectedUnchanged | dmr/src/main/java/org/jboss/hal/dmr/ModelNode.java:1948-1952 | on a protected node, get, get(int), add(), insert(int) and both removes leave the node as it was |
| Nodes.ModelNode.Replace | dmr/src/main/java/org/jboss/hal/dmr/ModelNode.java:1948-1952 | checkProtect then assign: a protected node fails with Unsupported and keeps its value; otherwise the value is replaced |
| Nodes.ModelNode.Set | dmr/src/main/java/org/jboss/hal/dmr/ModelNode.java:515-698 | a null argument fails with IllegalArgument before the protection check; otherwise a protected node refuses and an unprotected one holds exactly that scalar |
| Nodes.ModelNode.SetNode | dmr/src/main/java/org/jboss/hal/dmr/ModelNode.java:657-664 | null is refused before the protection check; otherwise the node holds an unprotected copy equal to the other's value |
| Nodes.ModelNode.SetPropertyNode | dmr/src/main/java/org/jboss/hal/dmr/ModelNode.java:725-729 | the node becomes a property with that name and a clone of the other node |
| Nodes.ModelNode.SetPropertyScalar | dmr/src/main/java/org/jboss/hal/dmr/ModelNode.java:740-919 | a protected node refuses first; then a null value fails with IllegalArgument and the node is unchanged; otherwise the node becomes a property whose child is a new node holding the scalar |
| Nodes.ModelNode.SetProperty | dmr/src/main/java/org/jboss/hal/dmr/ModelNode.java:708-714 | a null property fails with IllegalArgument before the protection check; otherwise the node becomes the property's name with a clone of its value |
| Nodes.ModelNode.SetList | dmr/src/main/java/org/jboss/hal/dmr/ModelNode.java:929-944 | a null collection fails with IllegalArgument before the protection check; otherwise the node becomes a list of the same length, where a null element becomes an undefined node and any other element a clone |
| Nodes.ModelNode.SetEmptyList | dmr/src/main/java/org/jboss/hal/dmr/ModelNode.java:951-955 | the node becomes an empty list unless protected |
| Nodes.ModelNode.SetEmptyObject | dmr/src/main/java/org/jboss/hal/dmr/ModelNode.java:962-966 | the node becomes an empty object unless protected |
| Nodes.ModelNode.Clear | dmr/src/main/java/org/jboss/hal/dmr/ModelNode.java:973-977 | the node becomes undefined unless protected |
| Children.Get | dmr/src/main/java/org/jboss/hal/dmr/ModelNode.java:991-998 | an existing child is returned and nothing changes; an undefined unprotected node becomes an object holding one new undefined child; a missing key is created only on an unprotected object, with every other key unchanged; the errors are Unsupported (protected) and IllegalArgument (other variants) |
| Children.GetFrame | dmr/src/main/java/org/jboss/hal/dmr/ModelNode.java:991-998 | creating a child adds exactly one key and leaves every other key's child as it was |
| Nodes.ModelNode.Get | dmr/src/main/java/org/jboss/hal/dmr/ModelNode.java:991-998 | the node becomes what Children.Get computes, or stays unchanged on error, and keeps both tree invariants |
| Children.Require | dmr/src/main/java/org/jboss/hal/dmr/ModelNode.java:1013-1015 | succeeds exactly when the child exists; otherwise NoSuchElement |
| Children.RequireIsGetWithoutCreating | dmr/src/main/java/org/jboss/hal/dmr/ModelNode.java:1013-1015 | require(name) succeeds exactly when get(name) succeeds without creating, and gives the same child |
| Children.RequireAt | dmr/src/main/java/org/jboss/hal/dmr/ModelNode.java:1086-1088 | succeeds exactly when the index exists; otherwise NoSuchElement |
| Children.Has | dmr/src/main/java/org/jboss/hal/dmr/ModelNode.java:1595-1597 | only an object or a property whose name is the key has a child of that name |
| Children.HasAt | dmr/src/main/java/org/jboss/hal/dmr/ModelNode.java:1583-1585 | an index exists exactly in a list or a property, from 0 to below the size |
| Children.HasDefined | dmr/src/main/java/org/jboss/hal/dmr/ModelNode.java:1646-1648 | exactly when require(key) succeeds and the child is defined |
| Children.HasDefinedAt | dmr/src/main/java/org/jboss/hal/dmr/ModelNode.java:1632-1634 | exactly when require(index) succeeds and the item is defined |
| Values.Value.IsDefined | dmr/src/main/java/org/jboss/hal/dmr/ModelNode.java:503-505 | a value is defined exactly when it is not the undefined variant |
| Children.RemoveChild | dmr/src/main/java/org/jboss/hal/dmr/ModelNode.java:1028-1030 | on an unprotected object the key is gone, the old child is the result and every other key is unchanged; a protected object fails; any other variant is unchanged with no result |
| Nodes.ModelNode.Remove | dmr/src/main/java/org/jboss/hal/dmr/ModelNode.java:1028-1030 | the node becomes what Children.RemoveChild computes, keeping both tree invariants |
| Children.RemoveChildAt | dmr/src/main/java/org/jboss/hal/dmr/ModelNode.java:1045-1047 | an existing index of an unprotected list is removed and later items shift down by one; otherwise the node is unchanged and the error is NoSuchElement or Unsupported |
| Nodes.ModelNode.RemoveAt | dmr/src/main/java/org/jboss/hal/dmr/ModelNode.java:1045-1047 | the node becomes what Children.RemoveChildAt computes, keeping both tree invariants |
| Children.GetAt | dmr/src/main/java/org/jboss/hal/dmr/ModelNode.java:1063-1070 | an existing item is returned unchanged; an undefined unprotected node becomes a list padded with undefined items up to the index, or an empty list for a negative index; a list grows to index + 1 keeping its items |
| Nodes.ModelNode.GetAt | dmr/src/main/java/org/jboss/hal/dmr/ModelNode.java:1063-1070 | the node becomes what Children.GetAt computes, keeping both tree invariants |
| Children.Add | dmr/src/main/java/org/jboss/hal/dmr/ModelNode.java:1510-1517 | succeeds exactly on an unprotected undefined node or list; the list grows by one undefined item at the end and keeps the others |
| Coercion.AddCountsOne | dmr/src/main/java/org/jboss/hal/dmr/ModelNode.java:1510-1517 | add() on a list below the int limit raises asLong() by one |
| Nodes.ModelNode.Add | dmr/src/main/java/org/jboss/hal/dmr/ModelNode.java:1510-1517 | the list becomes the old items plus one undefined item, and the result is its index |
| Children.Insert | dmr/src/main/java/org/jboss/hal/dmr/ModelNode.java:1535-1542 | succeeds exactly for 0 <= index <= size on an unprotected list (index 0 on an undefined node); items before the index keep their place and those after shift up by one |
| Nodes.ModelNode.Insert | dmr/src/main/java/org/jboss/hal/dmr/ModelNode.java:1535-1542 | the list becomes the items before the index, one undefined item, then the rest |
| Nodes.ModelNode.Append | dmr/src/main/java/org/jboss/hal/dmr/ModelNode.java:1102-1244 | add().set(x): the list becomes the old items plus the given child; it fails as add() fails and then leaves the value unchanged |
| Nodes.ModelNode.AppendNull | dmr/src/main/java/org/jboss/hal/dmr/ModelNode.java:1207-1210 | add().set(null): fails as add() fails and leaves the node unchanged; otherwise the list has grown by an undefined item and the result is IllegalArgument |
| Nodes.ModelNode.AddScalar | dmr/src/main/java/org/jboss/hal/dmr/ModelNode.java:1102-1301 | add(x) for a scalar x appends a node holding x; a null x fails with IllegalArgument after the list has grown by an undefined item |
| Nodes.ModelNode.AddNode | dmr/src/main/java/org/jboss/hal/dmr/ModelNode.java:1259-1262 | appends a clone of the other node; null fails with IllegalArgument after the list has grown by an undefined item; a node added to itself gets a copy of the list that already holds the new item |
| Nodes.ModelNode.InsertNode | dmr/src/main/java/org/jboss/hal/dmr/ModelNode.java:1281-1284 | puts a clone of the other node at the index; null fails after the undefined item is in place |
| Nodes.ModelNode.AddProperty | dmr/src/main/java/org/jboss/hal/dmr/ModelNode.java:1315-1318 | appends a property item with the property's name and a clone of its value; a null property fails with IllegalArgument after the list has grown by an undefined item |
| Nodes.ModelNode.AddPropertyScalar | dmr/src/main/java/org/jboss/hal/dmr/ModelNode.java:1333-1498 | appends a property item with that name whose child holds the scalar; a null value fails with IllegalArgument and leaves the new item undefined |
| Nodes.ModelNode.AddPropertyNode | dmr/src/main/java/org/jboss/hal/dmr/ModelNode.java:1477-1480 | appends a property item with that name and a clone of the other node |
| Nodes.ModelNode.AddEmptyList | dmr/src/main/java/org/jboss/hal/dmr/ModelNode.java:1553-1557 | appends an empty list and returns its index |
| Nodes.ModelNode.AddEmptyObject | dmr/src/main/java/org/jboss/hal/dmr/ModelNode.java:1568-1572 | appends an empty object and returns its index |
| Paths.FindFirstMissing | dmr/src/main/java/org/jboss/hal/dmr/ModelNode.java:1609-1619 | when has(names) is false there is a first segment whose parent exists and lacks that name |
| Paths.HasIffWalkWithoutCreating | dmr/src/main/java/org/jboss/hal/dmr/ModelNode.java:1609-1619 | has(names) is true exactly when get(names...) succeeds without creating anything, and then it returns the node found and leaves the tree as it was |
| Nodes.ModelNode.HasPath | dmr/src/main/java/org/jboss/hal/dmr/ModelNode.java:1609-1619 | the loop answers whether the whole path exists (true for the empty path) and agrees with a get(names...) that creates nothing |
| Paths.FindDefinedFinds | dmr/src/main/java/org/jboss/hal/dmr/ModelNode.java:1661-1671 | a path with defined nodes all the way exists and leads to the same node |
| Nodes.ModelNode.HasDefinedPath | dmr/src/main/java/org/jboss/hal/dmr/ModelNode.java:1661-1671 | the loop answers whether every node on the path is defined; true implies has(names) finds the same node |
| Paths.WalkReaches | dmr/src/main/java/org/jboss/hal/dmr/ModelNode.java:1714-1720 | after a successful get(names...), following the names in the new tree reaches the returned node, and the root keeps its protection |
| Paths.WalkWithoutCreating | dmr/src/main/java/org/jboss/hal/dmr/ModelNode.java:1714-1720 | a walk that created nothing leaves the tree unchanged |
| Paths.WalkCreatedEndsFresh | dmr/src/main/java/org/jboss/hal/dmr/ModelNode.java:1714-1720 | a walk that created something ends on a new undefined node |
| Paths.ProtectedWalkCreatesNothing | dmr/src/main/java/org/jboss/hal/dmr/ModelNode.java:1714-1720 | on a protected tree get(names...) only succeeds on an existing path and changes nothing |
| Paths.WalkPreserves | dmr/src/main/java/org/jboss/hal/dmr/ModelNode.java:1714-1720 | a successful walk keeps keys unique and protection sealed |
| Paths.WalkStep | dmr/src/main/java/org/jboss/hal/dmr/ModelNode.java:1714-1720 | one more successful step grafts that step's changed node back into the tree and moves the cursor to the child |
| Paths.PathTreeAt | dmr/src/main/java/org/jboss/hal/dmr/ModelNode.java:1714-1720 | when a step fails, the whole walk fails with that step's error and the tree keeps what the earlier steps created |
| Paths.ProtectedPathTree | dmr/src/main/java/org/jboss/hal/dmr/ModelNode.java:1714-1720 | get(names...) on a protected tree never changes it, whether or not it succeeds |
| Paths.PathTreePreserves | dmr/src/main/java/org/jboss/hal/dmr/ModelNode.java:1714-1720 | the tree left by get(names...) keeps both invariants and the root's protection |
| Nodes.ModelNode.GetPath | dmr/src/main/java/org/jboss/hal/dmr/ModelNode.java:1714-1720 | the loop leaves exactly the tree PathTree describes and returns the node the walk reached, or the first step's error |
| Coercion.AsLong | dmr/src/main/java/org/jboss/hal/dmr/ModelNode.java:209-211 | undefined fails; int and long read as themselves; a collection reads as its size |
| Coercion.AsInt | dmr/src/main/java/org/jboss/hal/dmr/ModelNode.java:239-241 | undefined fails; an int reads as itself; a collection reads as its size |
| Coercion.CollectionReadersAgree | dmr/src/main/java/org/jboss/hal/dmr/ModelNode.java:209-270 | on any collection asInt and asLong both give the size, and asBoolean is true exactly when the size is not zero |
| Coercion.AsBoolean | dmr/src/main/java/org/jboss/hal/dmr/ModelNode.java:268-270 | undefined fails; numbers are true when not zero; a collection is true when not empty |
| Coercion.AsString | dmr/src/main/java/org/jboss/hal/dmr/ModelNode.java:295-297 | undefined reads as "undefined"; strings and expressions read as their text |
| Coercion.AsStringOr | dmr/src/main/java/org/jboss/hal/dmr/ModelNode.java:307-309 | an undefined node gives the default; a defined one gives asString() |
| Coercion.AsLongOr | dmr/src/main/java/org/jboss/hal/dmr/ModelNode.java:227-229 | an undefined node gives the default; a defined one gives asLong() |
| Coercion.AsIntOr | dmr/src/main/java/org/jboss/hal/dmr/ModelNode.java:256-258 | an undefined node gives the default; a defined one gives asInt() |
| Coercion.AsBooleanOr | dmr/src/main/java/org/jboss/hal/dmr/ModelNode.java:284-286 | an undefined node gives the default; a defined one gives asBoolean() |
| Coercion.AsForeign | dmr/src/main/java/org/jboss/hal/dmr/ModelNode.java:319-390 | asDouble, asType, asBigDecimal, asBigInteger and asBytes: undefined fails, and a value already of the asked type is returned as it is |
| Coercion.AsList | dmr/src/main/java/org/jboss/hal/dmr/ModelNode.java:1699-1701 | defined nodes only; a list gives its items, an object one property per entry in order, a property itself, a scalar nothing |
| Coercion.AsProperty | dmr/src/main/java/org/jboss/hal/dmr/ModelNode.java:401-403 | succeeds exactly for a property, a one-entry object or a two-item list; the list's first item gives the name and the second the value |
| Coercion.ItemProperties | dmr/src/main/java/org/jboss/hal/dmr/ModelNode.java:414-416 | a list converts when every item converts to a property, item by item |
| Coercion.AsPropertyList | dmr/src/main/java/org/jboss/hal/dmr/ModelNode.java:414-416 | collections only; an object gives its entries in order, a property itself |
| Coercion.AsObject | dmr/src/main/java/org/jboss/hal/dmr/ModelNode.java:433-435 | an object gives its copy, a property a one-entry object, a list the object collapsed from its pairs; other variants fail |
| Coercion.LastKeyWins | dmr/src/main/java/org/jboss/hal/dmr/ModelNode.java:433-435 | when a list collapses to an object, each key holds a copy of the value of its last pair |
| Coercion.CollapseUnique | dmr/src/main/java/org/jboss/hal/dmr/ModelNode.java:433-435 | the collapsed object has unique keys |
| Coercion.CollapseDistinct | dmr/src/main/java/org/jboss/hal/dmr/ModelNode.java:433-435 | pairs with distinct keys collapse to their copies in the same order |
| Coercion.ObjectListRoundTrip | dmr/src/main/java/org/jboss/hal/dmr/ModelNode.java:433-435 | asObject of the list asList makes from an object gives back that object's copy |
| Coercion.As | dmr/src/main/java/org/jboss/hal/dmr/ModelNode.java:446-496 | UNDEFINED gives null; STRING and EXPRESSION give asString(); every other type dispatches to its reader; on an undefined node only those three succeed |
| Values.EqualReflexive | dmr/src/main/java/org/jboss/hal/dmr/ModelNode.java:1812-1826 | every well-formed value equals itself |
| Values.CopyEqual | dmr/src/main/java/org/jboss/hal/dmr/ModelNode.java:1847-1851 | a copy equals the original in both directions |
| Values.CopyUnprotected | dmr/src/main/java/org/jboss/hal/dmr/ModelNode.java:1847-1851 | a copy is unprotected all the way down and keeps object keys unique |
| Values.CopyIdempotent | dmr/src/main/java/org/jboss/hal/dmr/ModelNode.java:1847-1851 | copying a copy changes nothing |
| Nodes.ModelNode.Clone | dmr/src/main/java/org/jboss/hal/dmr/ModelNode.java:1847-1851 | a new unprotected node whose value is a copy equal to this one |
| Nodes.ModelNode.Equals | dmr/src/main/java/org/jboss/hal/dmr/ModelNode.java:1812-1826 | true exactly for a non-null node with an equal value; protection does not matter |
| Values.PutFrame | dmr/src/main/java/org/jboss/hal/dmr/ModelNode.java:991-998 | a map put leaves every other key alone, adds no entry except its own and keeps keys unique |
| Values.PutAppends | dmr/src/main/java/org/jboss/hal/dmr/ModelNode.java:991-998 | a put of a new key appends it at the end, as a linked hash map does |
| Values.RemoveFrame | dmr/src/main/java/org/jboss/hal/dmr/ModelNode.java:1028-1030 | after a remove the key is absent and every other key is unchanged |
| Wire.RoundTrip | dmr/src/main/java/org/jboss/hal/dmr/ModelNode.java:1879-1938 | reading back what writeExternal wrote gives a copy of the value and leaves the rest of the stream unread |
| Wire.Encode | dmr/src/main/java/org/jboss/hal/dmr/ModelNode.java:1879-1881 | writeExternal writes the type tag byte first, then the variant's payload |
| Wire.DecodeValue | dmr/src/main/java/org/jboss/hal/dmr/ModelNode.java:1888-1938 | readExternal consumes part of the stream and gives a fresh tree with unique keys and nothing protected; an unknown tag or a short stream is Malformed |
| Wire.TagSelectsVariant | dmr/src/main/java/org/jboss/hal/dmr/ModelNode.java:1888-1938 | a successful read gives the variant the tag byte names; an unknown tag fails |
| Wire.UndefinedPayload | dmr/src/main/java/org/jboss/hal/dmr/ModelNode.java:1893-1895 | the undefined tag reads nothing more |
| Wire.TypePayload | dmr/src/main/java/org/jboss/hal/dmr/ModelNode.java:1932-1934 | the type tag reads exactly one more byte, the type it names |
| Wire.ForCharTypeChar | dmr/src/main/java/org/jboss/hal/dmr/ModelNode.java:1890-1891 | every type's tag character maps back to that type |
| Nodes.ModelNode.WriteExternal | dmr/src/main/java/org/jboss/hal/dmr/ModelNode.java:1879-1881 | writes the encoding of the value, which decodes back to a copy with nothing left over |
| Nodes.ModelNode.ReadExternal | dmr/src/main/java/org/jboss/hal/dmr/ModelNode.java:1888-1938 | a protected node fails before reading; a malformed stream fails and keeps the value; otherwise the decoded value replaces it and the unread rest is returned |
| Wire.Base64RoundTrip | dmr/src/main/java/org/jboss/hal/dmr/ModelNode.java:1795-1801 | fromBase64 of what toBase64 produced gives an unprotected value equal to the original |
| Nodes.ModelNode.FromBase64 | dmr/src/main/java/org/jboss/hal/dmr/ModelNode.java:1795-1801 | succeeds exactly when the input decodes, giving a new unprotected node with the decoded value |
| Nodes.ModelNode.ToBase64 | dmr/src/main/java/org/jboss/hal/dmr/ModelNode.java:1941-1945 | the output reads back to a value equal to this one |
| Response.FailureDescription | dmr/src/main/java/org/jboss/hal/dmr/ModelNode.java:1962-1968 | the JSON of a defined failure-description, otherwise "No failure-description provided" |
| Response.IsFailure | dmr/src/main/java/org/jboss/hal/dmr/ModelNode.java:1956-1958 | only an object, or a property named outcome, can be a failure; with SuccessIsNotFailure and OtherOutcomeIsFailure, an outcome string other than success is a failure and success, an undefined outcome or no outcome is not |
| Response.SuccessIsNotFailure | dmr/src/main/java/org/jboss/hal/dmr/ModelNode.java:1956-1958 | an outcome of "success", or no outcome at all, is not a failure |
| Response.OtherOutcomeIsFailure | dmr/src/main/java/org/jboss/hal/dmr/ModelNode.java:1956-1958 | any other outcome string is a failure, wherever its entry sits |
| Response.NoChildrenNoFailure | dmr/src/main/java/org/jboss/hal/dmr/ModelNode.java:1956-1968 | a scalar or a list is never a failure and has the fixed description |

## Left out

- Child handles: `get` hands out the child node itself, and writes through it
  change the parent. Here a child is returned as a snapshot value. The
  handle that `add()` and `insert(int)` return is the index of the new item;
  the `Add...`/`Insert...` methods perform the write through it. Aliasing
  between handles and the tree is therefore not modelled.
- Null arguments are modelled as `None` (or as a null `ModelNode?`) for the
  scalar constructors (`FromScalar`), `set(x)`, `set(String, x)`, `add(x)` and
  `add(String, x)` for reference-typed scalars, `set(ModelNode)`,
  `add(ModelNode)`, `insert(ModelNode, int)`, `set(Property)`, `add(Property)`,
  `set(Collection)` with its null elements, and `equals`. Every other null
  reference is left out: a null key, property name or path, and a null node
  given to `set(String, ModelNode)` or `add(String, ModelNode)`. What those
  two do with a null node is decided by `PropertyModelValue`, which is not
  part of this model.
- SetPropertyScalar: a null string given to `setExpression(String, String)`
  is wrapped in a `ValueExpression` before anything refuses it;
  `ValueExpression` is not part of this model, and the model refuses that
  null like the other null values.
- The value variant classes and `ModelType` are not part of this model. Some
  conversions belong to the variants and are not documented on the node:
  parsing strings as numbers, the text of numbers and byte arrays, doubles
  and big numbers. These come in as the `Conversions` parameter.
- Floating point, `BigDecimal` and `BigInteger` are opaque scalars. Their
  arithmetic and text forms are not modelled.
- `toString`, `writeString`, `toJSONString` and `writeJSONString` are left out.
  `getFailureDescription` takes the JSON writer as a parameter.
- `hashCode` and `keys()` are left out; the entry sequence of an object is its key order.
- The byte-level `DataInput`/`DataOutput` encodings are abstracted:
  - every written field is one `Datum`: a tag byte, an int, a long, a UTF string or a count;
  - the Base64 envelope is the identity on that sequence.
- The string tag: any string is written with the `s` tag. The reader's
  acceptance of other string tags belongs to the string variant and is not modelled.
- Sizes are unbounded. `asInt`/`asLong` of a collection saturate at the
  largest `int`, which matters only past 2^31-1 items.
- Nodes.ModelNode.InsertNode: states no result for `insert(this, index)`.
  That case copies a list that already holds the new item, as `AddNode` states for `add(this)`.
- Nodes.ModelNode.Equals: models `equals(ModelNode)`. An argument of another class, for `equals(Object)`, is not modelled.
- Coercion.AsList, Coercion.AsPropertyList: each object entry becomes a
  property around the entry's own child node, protection flag included. The
  object variant class that builds these is not part of this model, so
  whether it copies the child is not captured.
- Coercion.AsForeign: gives only the undefined and same-type cases; every other result comes from `Conversions`.
- Children.GetAt, Children.Insert: a refused index does not undo the first
  step. On an unprotected undefined node, `get(int)` and `insert(int)` first
  make the node an empty list (ModelNode.java:1067, 1539), and the node stays
  an empty list when the index is then refused.
