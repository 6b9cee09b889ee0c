/**
 * The binary form of a node: `writeExternal` and `readExternal`. The byte
 * stream is modelled one write at a time (`Datum`): a tag byte, then the
 * payload the tagged variant writes. A list or an object writes its count
 * and then its children; a property its name and then its child.
 */
module Wire {
  import opened Wrappers
  import opened Values

  /** An unsigned byte value as read by `readByte() & 0xff`. */
  type Octet = x: int | 0 <= x < 256

  /** One primitive write to, or read from, the binary stream. */
  datatype Datum =
    | Byte(b: Octet)           // writeByte / readByte, unsigned
    | Flag(f: bool)            // writeBoolean / readBoolean
    | Int32Data(i: Int32)      // writeInt / readInt
    | Int64Data(l: Int64)      // writeLong / readLong
    | Float64(bits: bv64)      // writeDouble / readDouble
    | Utf(s: string)           // writeUTF / readUTF
    | Blob(bytes: seq<bv8>)    // a length-prefixed byte array
    | Count(n: nat)            // the number of children that follow

  /** The tag character of each type. */
  function TypeChar(t: ModelType): char {
    match t
    case BigDecimalType => 'd'
    case BigIntegerType => 'i'
    case BooleanType => 'Z'
    case BytesType => 'b'
    case DoubleType => 'D'
    case ExpressionType => 'e'
    case IntType => 'I'
    case ListType => 'l'
    case LongType => 'J'
    case ObjectType => 'o'
    case PropertyType => 'p'
    case StringType => 's'
    case TypeType => 't'
    case UndefinedType => 'u'
  }

  /** `ModelType.forChar`: the type a tag character stands for, if any. */
  function ForChar(c: char): (r: Option<ModelType>)
    ensures r.Some? ==> TypeChar(r.value) == c
  {
    match c
    case 'd' => Some(BigDecimalType)
    case 'i' => Some(BigIntegerType)
    case 'Z' => Some(BooleanType)
    case 'b' => Some(BytesType)
    case 'D' => Some(DoubleType)
    case 'e' => Some(ExpressionType)
    case 'I' => Some(IntType)
    case 'l' => Some(ListType)
    case 'J' => Some(LongType)
    case 'o' => Some(ObjectType)
    case 'p' => Some(PropertyType)
    case 's' => Some(StringType)
    case 't' => Some(TypeType)
    case 'u' => Some(UndefinedType)
    case _ => None
  }

  /** Every type's tag character is read back as that type. */
  lemma ForCharTypeChar(t: ModelType)
    ensures ForChar(TypeChar(t)) == Some(t)
  {
  }

  /** The tag byte written for a type. */
  function TagByte(t: ModelType): Octet {
    TypeChar(t) as int
  }

  /** The character a tag byte is read as: `(char) (b & 0xff)`. */
  function ByteChar(b: Octet): char {
    b as char
  }

  function Flatten(parts: seq<seq<Datum>>): seq<Datum>
    decreases |parts|
  {
    if |parts| == 0 then [] else parts[0] + Flatten(parts[1..])
  }

  /** `writeExternal`: the tag byte, then the variant's payload. */
  function Encode(v: Value): (r: seq<Datum>)
    ensures |r| > 0 && r[0] == Byte(TagByte(v.Type())) && r[1..] == Payload(v)
    decreases v, 1
  {
    [Byte(TagByte(v.Type()))] + Payload(v)
  }

  /** What each variant writes after its tag byte. */
  function Payload(v: Value): seq<Datum>
    decreases v, 0
  {
    match v
    case UndefinedValue => []
    case BooleanValue(b) => [Flag(b)]
    case IntValue(i) => [Int32Data(i)]
    case LongValue(l) => [Int64Data(l)]
    case DoubleValue(bits) => [Float64(bits)]
    case BigIntegerValue(m) => [Blob(m)]
    case BigDecimalValue(u, scale) => [Blob(u), Int32Data(scale)]
    case BytesValue(bs) => [Blob(bs)]
    case StringValue(s) => [Utf(s)]
    case ExpressionValue(e) => [Utf(e)]
    case TypeValue(t) => [Byte(TagByte(t))]
    case ListValue(items) =>
      [Count(|items|)] + Flatten(seq(|items|, i requires 0 <= i < |items| => Encode(items[i].value)))
    case ObjectValue(es) =>
      [Count(|es|)] + Flatten(seq(|es|, i requires 0 <= i < |es| => [Utf(es[i].key)] + Encode(es[i].node.value)))
    case PropertyValue(name, c) => [Utf(name)] + Encode(c.value)
  }

  /** Children as a decoder creates them: unprotected, well-formed, with nothing protected below. */
  ghost predicate FreshNodes(items: seq<Node>) {
    forall i :: 0 <= i < |items| ==> !items[i].prot && WellFormed(items[i].value) && Unprotected(items[i].value)
  }

  /** Entries as a decoder creates them: distinct keys, children as in `FreshNodes`. */
  ghost predicate FreshEntries(es: seq<Entry>) {
    UniqueKeys(es) &&
    forall i :: 0 <= i < |es| ==> !es[i].node.prot && WellFormed(es[i].node.value) && Unprotected(es[i].node.value)
  }

  lemma FreshPut(es: seq<Entry>, key: string, node: Node)
    requires !node.prot && WellFormed(node.value) && Unprotected(node.value)
    ensures FreshEntries(es) ==> FreshEntries(Put(es, key, node))
  {
    PutFrame(es, key, node);
    var r := Put(es, key, node);
    if FreshEntries(es) {
      forall i | 0 <= i < |r| ensures !r[i].node.prot && WellFormed(r[i].node.value) && Unprotected(r[i].node.value) {
        assert r[i] in r;
      }
    }
  }

  /** A decoded value (or children) and the part of the stream not yet read. */
  datatype Decoded<T> = Decoded(value: T, rest: seq<Datum>)

  /**
   * `readExternal` on a fresh node: read the tag byte, dispatch on its type
   * and read that variant's payload. An unknown tag, or a payload that is not
   * what the tag announces, is malformed.
   */
  function DecodeValue(s: seq<Datum>): (r: Result<Decoded<Value>>)
    ensures r.Ok? ==> |r.value.rest| < |s|
    ensures r.Ok? ==> WellFormed(r.value.value) && Unprotected(r.value.value)
    ensures r.Err? ==> r.error == Malformed
    decreases |s|, 0
  {
    if |s| == 0 || !s[0].Byte? then Err(Malformed)
    else match ForChar(ByteChar(s[0].b))
      case None => Err(Malformed)
      case Some(t) => DecodePayload(t, s[1..])
  }

  /** The payload for type `t`, read from `s`. */
  function DecodePayload(t: ModelType, s: seq<Datum>): (r: Result<Decoded<Value>>)
    ensures r.Ok? ==> |r.value.rest| <= |s|
    ensures r.Ok? ==> r.value.value.Type() == t
    ensures r.Ok? ==> WellFormed(r.value.value) && Unprotected(r.value.value)
    ensures r.Err? ==> r.error == Malformed
    decreases |s|, 2
  {
    match t
    case UndefinedType => Ok(Decoded(UndefinedValue, s))
    case BooleanType => if |s| > 0 && s[0].Flag? then Ok(Decoded(BooleanValue(s[0].f), s[1..])) else Err(Malformed)
    case IntType => if |s| > 0 && s[0].Int32Data? then Ok(Decoded(IntValue(s[0].i), s[1..])) else Err(Malformed)
    case LongType => if |s| > 0 && s[0].Int64Data? then Ok(Decoded(LongValue(s[0].l), s[1..])) else Err(Malformed)
    case DoubleType => if |s| > 0 && s[0].Float64? then Ok(Decoded(DoubleValue(s[0].bits), s[1..])) else Err(Malformed)
    case BigIntegerType => if |s| > 0 && s[0].Blob? then Ok(Decoded(BigIntegerValue(s[0].bytes), s[1..])) else Err(Malformed)
    case BigDecimalType =>
      if |s| > 1 && s[0].Blob? && s[1].Int32Data? then Ok(Decoded(BigDecimalValue(s[0].bytes, s[1].i), s[2..]))
      else Err(Malformed)
    case BytesType => if |s| > 0 && s[0].Blob? then Ok(Decoded(BytesValue(s[0].bytes), s[1..])) else Err(Malformed)
    case StringType => if |s| > 0 && s[0].Utf? then Ok(Decoded(StringValue(s[0].s), s[1..])) else Err(Malformed)
    case ExpressionType => if |s| > 0 && s[0].Utf? then Ok(Decoded(ExpressionValue(s[0].s), s[1..])) else Err(Malformed)
    case TypeType =>
      if |s| > 0 && s[0].Byte? && ForChar(ByteChar(s[0].b)).Some? then
        Ok(Decoded(TypeValue(ForChar(ByteChar(s[0].b)).value), s[1..]))
      else Err(Malformed)
    case ListType =>
      if |s| > 0 && s[0].Count? then
        match DecodeItems(s[1..], s[0].n)
        case Ok(d) => Ok(Decoded(ListValue(d.value), d.rest))
        case Err(e) => Err(e)
      else Err(Malformed)
    case ObjectType =>
      if |s| > 0 && s[0].Count? then
        match DecodeEntries(s[1..], s[0].n, [])
        case Ok(d) => Ok(Decoded(ObjectValue(d.value), d.rest))
        case Err(e) => Err(e)
      else Err(Malformed)
    case PropertyType =>
      if |s| > 0 && s[0].Utf? then
        match DecodeValue(s[1..])
        case Ok(d) => Ok(Decoded(PropertyValue(s[0].s, Node(false, d.value)), d.rest))
        case Err(e) => Err(e)
      else Err(Malformed)
  }

  /** `count` nodes, one after another, each a fresh unprotected node. */
  function DecodeItems(s: seq<Datum>, count: nat): (r: Result<Decoded<seq<Node>>>)
    ensures r.Ok? ==> |r.value.rest| <= |s| && |r.value.value| == count
    ensures r.Ok? ==> FreshNodes(r.value.value)
    ensures r.Err? ==> r.error == Malformed
    decreases |s|, 1, count
  {
    if count == 0 then Ok(Decoded([], s))
    else match DecodeValue(s)
      case Err(e) => Err(e)
      case Ok(d) =>
        match DecodeItems(d.rest, count - 1)
        case Err(e) => Err(e)
        case Ok(ds) => Ok(Decoded([Node(false, d.value)] + ds.value, ds.rest))
  }

  /** `count` key/node pairs, each stored into `acc` as a map `put` does. */
  function DecodeEntries(s: seq<Datum>, count: nat, acc: seq<Entry>): (r: Result<Decoded<seq<Entry>>>)
    ensures r.Ok? ==> |r.value.rest| <= |s|
    ensures r.Ok? && FreshEntries(acc) ==> FreshEntries(r.value.value)
    ensures r.Err? ==> r.error == Malformed
    decreases |s|, 1, count
  {
    if count == 0 then Ok(Decoded(acc, s))
    else if |s| == 0 || !s[0].Utf? then Err(Malformed)
    else match DecodeValue(s[1..])
      case Err(e) => Err(e)
      case Ok(d) =>
        FreshPut(acc, s[0].s, Node(false, d.value));
        DecodeEntries(d.rest, count - 1, Put(acc, s[0].s, Node(false, d.value)))
  }

  // ---------------------------------------------------------------------------
  // Round trip
  // ---------------------------------------------------------------------------

  /** The encodings of list items, one after another. */
  function EncodeNodes(items: seq<Node>): seq<Datum> {
    Flatten(seq(|items|, i requires 0 <= i < |items| => Encode(items[i].value)))
  }

  /** The encodings of object entries, each key before its child. */
  function EncodeEntries(es: seq<Entry>): seq<Datum> {
    Flatten(seq(|es|, i requires 0 <= i < |es| => [Utf(es[i].key)] + Encode(es[i].node.value)))
  }

  /** The children a copy has in place of `items`. */
  function CopyNodes(items: seq<Node>): seq<Node> {
    seq(|items|, i requires 0 <= i < |items| => Node(false, Copy(items[i].value)))
  }

  /** The entries a copy has in place of `es`. */
  function CopyEntries(es: seq<Entry>): seq<Entry> {
    seq(|es|, i requires 0 <= i < |es| => Entry(es[i].key, Node(false, Copy(es[i].node.value))))
  }

  lemma EncodeNodesCons(items: seq<Node>)
    requires |items| > 0
    ensures EncodeNodes(items) == Encode(items[0].value) + EncodeNodes(items[1..])
    ensures CopyNodes(items) == [Node(false, Copy(items[0].value))] + CopyNodes(items[1..])
  {
    var parts := seq(|items|, i requires 0 <= i < |items| => Encode(items[i].value));
    assert parts[1..] == seq(|items[1..]|, i requires 0 <= i < |items[1..]| => Encode(items[1..][i].value));
  }

  lemma EncodeEntriesCons(es: seq<Entry>)
    requires |es| > 0
    ensures EncodeEntries(es) == [Utf(es[0].key)] + Encode(es[0].node.value) + EncodeEntries(es[1..])
    ensures CopyEntries(es) == [Entry(es[0].key, Node(false, Copy(es[0].node.value)))] + CopyEntries(es[1..])
  {
    var parts := seq(|es|, i requires 0 <= i < |es| => [Utf(es[i].key)] + Encode(es[i].node.value));
    assert parts[1..] == seq(|es[1..]|, i requires 0 <= i < |es[1..]| => [Utf(es[1..][i].key)] + Encode(es[1..][i].node.value));
  }

  /** One step of reading object entries: a key, a child, and the child stored under the key. */
  lemma DecodeEntriesStep(e: Entry, tail: seq<Datum>, count: nat, acc: seq<Entry>)
    requires count > 0
    requires DecodeValue(Encode(e.node.value) + tail) == Ok(Decoded(Copy(e.node.value), tail))
    ensures DecodeEntries([Utf(e.key)] + (Encode(e.node.value) + tail), count, acc) ==
      DecodeEntries(tail, count - 1, Put(acc, e.key, Node(false, Copy(e.node.value))))
  {
    var s := [Utf(e.key)] + (Encode(e.node.value) + tail);
    assert s[1..] == Encode(e.node.value) + tail;
  }

  /** No key of `acc` is a key of `es`. */
  ghost predicate KeysApart(acc: seq<Entry>, es: seq<Entry>) {
    forall i, j :: 0 <= i < |acc| && 0 <= j < |es| ==> acc[i].key != es[j].key
  }

  /** Distinct keys, none in `acc`, carry over from `es` to its tail once its head is in `acc`. */
  lemma KeysTail(es: seq<Entry>, acc: seq<Entry>, copied: Entry)
    requires |es| > 0 && UniqueKeys(es) && copied.key == es[0].key && KeysApart(acc, es)
    ensures UniqueKeys(es[1..]) && KeysApart(acc + [copied], es[1..])
    ensures forall i :: 0 <= i < |acc| ==> acc[i].key != es[0].key
  {
    var acc' := acc + [copied];
    forall i, j | 0 <= i < |acc'| && 0 <= j < |es[1..]| ensures acc'[i].key != es[1..][j].key {
      assert es[1..][j] == es[j + 1];
    }
  }

  /** Reading the first entry of `es` appends its copy to `acc`, whose keys are all different from it. */
  lemma {:induction false} EntriesHead(es: seq<Entry>, acc: seq<Entry>, rest: seq<Datum>)
    requires |es| > 0
    requires forall i :: 0 <= i < |acc| ==> acc[i].key != es[0].key
    requires DecodeValue(Encode(es[0].node.value) + (EncodeEntries(es[1..]) + rest)) ==
      Ok(Decoded(Copy(es[0].node.value), EncodeEntries(es[1..]) + rest))
    ensures DecodeEntries(EncodeEntries(es) + rest, |es|, acc) ==
      DecodeEntries(EncodeEntries(es[1..]) + rest, |es[1..]|, acc + [Entry(es[0].key, Node(false, Copy(es[0].node.value)))])
  {
    var e := es[0];
    var node := Node(false, Copy(e.node.value));
    var tail := EncodeEntries(es[1..]) + rest;
    EncodeSplit(es, rest);
    DecodeEntriesStep(e, tail, |es|, acc);
    assert Lookup(acc, e.key).None?;
    PutAppends(acc, e.key, node);
  }

  /** The copies of `es` are the copy of its first entry, then the copies of the rest. */
  lemma AccStep(es: seq<Entry>, acc: seq<Entry>)
    requires |es| > 0
    ensures (acc + [Entry(es[0].key, Node(false, Copy(es[0].node.value)))]) + CopyEntries(es[1..]) == acc + CopyEntries(es)
  {
    var c := Entry(es[0].key, Node(false, Copy(es[0].node.value)));
    EncodeEntriesCons(es);
    assert acc + ([c] + CopyEntries(es[1..])) == (acc + [c]) + CopyEntries(es[1..]);
  }

  /** The encoding of entries, followed by `rest`, starts with the first key and child. */
  lemma EncodeSplit(es: seq<Entry>, rest: seq<Datum>)
    requires |es| > 0
    ensures EncodeEntries(es) + rest == [Utf(es[0].key)] + (Encode(es[0].node.value) + (EncodeEntries(es[1..]) + rest))
    ensures CopyEntries(es) == [Entry(es[0].key, Node(false, Copy(es[0].node.value)))] + CopyEntries(es[1..])
  {
    EncodeEntriesCons(es);
  }

  /** The tag byte of an encoding dispatches to the payload reader of the value's own type. */
  lemma Dispatch(v: Value, rest: seq<Datum>)
    ensures DecodeValue(Encode(v) + rest) == DecodePayload(v.Type(), Payload(v) + rest)
  {
    var s := Encode(v) + rest;
    ForCharTypeChar(v.Type());
    assert s[1..] == Payload(v) + rest;
  }

  lemma ScalarPayloadRoundTrip(v: Value, rest: seq<Datum>)
    requires !v.IsCollection()
    ensures DecodePayload(v.Type(), Payload(v) + rest) == Ok(Decoded(Copy(v), rest))
  {
    var s := Payload(v) + rest;
    if |Payload(v)| == 1 {
      assert s[0] == Payload(v)[0] && s[1..] == rest;
      if v.TypeValue? {
        ForCharTypeChar(v.t);
      }
    } else if |Payload(v)| == 2 {
      assert s[0] == Payload(v)[0] && s[1] == Payload(v)[1] && s[2..] == rest;
    } else {
      assert s == rest;
    }
  }

  /** Reading back what was written gives a copy of the written value and leaves the rest of the stream. */
  lemma {:induction false} RoundTrip(v: Value, rest: seq<Datum>)
    requires WellFormed(v)
    ensures DecodeValue(Encode(v) + rest) == Ok(Decoded(Copy(v), rest))
    decreases v, 2
  {
    Dispatch(v, rest);
    if v.ListValue? {
      ListRoundTrip(v, rest);
    } else if v.ObjectValue? {
      ObjectRoundTrip(v, rest);
    } else if v.PropertyValue? {
      PropertyRoundTrip(v, rest);
    } else {
      ScalarPayloadRoundTrip(v, rest);
    }
  }

  lemma {:induction false} ListRoundTrip(v: Value, rest: seq<Datum>)
    requires v.ListValue? && WellFormed(v)
    ensures DecodePayload(ListType, Payload(v) + rest) == Ok(Decoded(Copy(v), rest))
    decreases v, 1
  {
    assert v.items[|v.items| - |v.items|..] == v.items;
    ItemsRoundTrip(v, v.items, rest);
    assert Payload(v) + rest == [Count(|v.items|)] + (EncodeNodes(v.items) + rest);
    assert Copy(v) == ListValue(CopyNodes(v.items));
  }

  /** The items `items` that end the list `v` read back, one after another, as their copies. */
  lemma {:induction false} ItemsRoundTrip(v: Value, items: seq<Node>, rest: seq<Datum>)
    requires v.ListValue? && WellFormed(v) && |items| <= |v.items| && items == v.items[|v.items| - |items|..]
    ensures DecodeItems(EncodeNodes(items) + rest, |items|) == Ok(Decoded(CopyNodes(items), rest))
    decreases v, 0, |items|
  {
    if |items| == 0 {
      assert EncodeNodes(items) + rest == rest;
      assert CopyNodes(items) == [];
    } else {
      assert items[0] == v.items[|v.items| - |items|];
      RoundTrip(items[0].value, EncodeNodes(items[1..]) + rest);
      assert items[1..] == v.items[|v.items| - |items[1..]|..];
      ItemsRoundTrip(v, items[1..], rest);
      ItemsStep(items, rest);
    }
  }

  /** Reading one item: the head decodes back, and so does the tail after it. */
  lemma ItemsStep(items: seq<Node>, rest: seq<Datum>)
    requires |items| > 0
    requires DecodeValue(Encode(items[0].value) + (EncodeNodes(items[1..]) + rest)) ==
      Ok(Decoded(Copy(items[0].value), EncodeNodes(items[1..]) + rest))
    requires DecodeItems(EncodeNodes(items[1..]) + rest, |items[1..]|) == Ok(Decoded(CopyNodes(items[1..]), rest))
    ensures DecodeItems(EncodeNodes(items) + rest, |items|) == Ok(Decoded(CopyNodes(items), rest))
  {
    EncodeNodesCons(items);
    var tail := EncodeNodes(items[1..]) + rest;
    var s := EncodeNodes(items) + rest;
    Regroup(Encode(items[0].value), EncodeNodes(items[1..]), rest);
    assert DecodeValue(s) == Ok(Decoded(Copy(items[0].value), tail));
    assert DecodeItems(tail, |items| - 1) == Ok(Decoded(CopyNodes(items[1..]), rest));
    assert DecodeItems(s, |items|) == Ok(Decoded([Node(false, Copy(items[0].value))] + CopyNodes(items[1..]), rest));
  }

  lemma {:induction false} PropertyRoundTrip(v: Value, rest: seq<Datum>)
    requires v.PropertyValue? && WellFormed(v)
    ensures DecodePayload(PropertyType, Payload(v) + rest) == Ok(Decoded(Copy(v), rest))
    decreases v, 0
  {
    RoundTrip(v.child.value, rest);
    assert Payload(v) + rest == [Utf(v.name)] + (Encode(v.child.value) + rest);
  }

  lemma {:induction false} ObjectRoundTrip(v: Value, rest: seq<Datum>)
    requires v.ObjectValue? && WellFormed(v)
    ensures DecodePayload(ObjectType, Payload(v) + rest) == Ok(Decoded(Copy(v), rest))
    decreases v, 1
  {
    var es := v.entries;
    assert es[|es| - |es|..] == es;
    EntriesRoundTrip(v, es, [], rest);
    assert Payload(v) + rest == [Count(|es|)] + (EncodeEntries(es) + rest);
    assert [] + CopyEntries(es) == CopyEntries(es);
    assert Copy(v) == ObjectValue(CopyEntries(es));
  }

  /**
   * The entries `es` that end the object `v` read back, one after another,
   * as copies appended to `acc`, which holds none of their keys.
   */
  lemma {:induction false} EntriesRoundTrip(v: Value, es: seq<Entry>, acc: seq<Entry>, rest: seq<Datum>)
    requires v.ObjectValue? && WellFormed(v) && |es| <= |v.entries| && es == v.entries[|v.entries| - |es|..]
    requires UniqueKeys(es) && KeysApart(acc, es)
    ensures DecodeEntries(EncodeEntries(es) + rest, |es|, acc) == Ok(Decoded(acc + CopyEntries(es), rest))
    decreases v, 0, |es|
  {
    if |es| == 0 {
      assert EncodeEntries(es) + rest == rest;
      assert acc + CopyEntries(es) == acc;
    } else {
      var x := es[0].node.value;
      var acc' := acc + [Entry(es[0].key, Node(false, Copy(x)))];
      assert es[0] == v.entries[|v.entries| - |es|];
      RoundTrip(x, EncodeEntries(es[1..]) + rest);
      EntriesStep(es, acc, rest);
      assert es[1..] == v.entries[|v.entries| - |es[1..]|..];
      EntriesRoundTrip(v, es[1..], acc', rest);
    }
  }

  /** Reading one entry moves the stream and the accumulator past the first entry of `es`. */
  lemma EntriesStep(es: seq<Entry>, acc: seq<Entry>, rest: seq<Datum>)
    requires |es| > 0 && UniqueKeys(es) && KeysApart(acc, es)
    requires DecodeValue(Encode(es[0].node.value) + (EncodeEntries(es[1..]) + rest)) ==
      Ok(Decoded(Copy(es[0].node.value), EncodeEntries(es[1..]) + rest))
    ensures DecodeEntries(EncodeEntries(es) + rest, |es|, acc) ==
      DecodeEntries(EncodeEntries(es[1..]) + rest, |es[1..]|, acc + [Entry(es[0].key, Node(false, Copy(es[0].node.value)))])
    ensures (acc + [Entry(es[0].key, Node(false, Copy(es[0].node.value)))]) + CopyEntries(es[1..]) == acc + CopyEntries(es)
    ensures UniqueKeys(es[1..]) && KeysApart(acc + [Entry(es[0].key, Node(false, Copy(es[0].node.value)))], es[1..])
  {
    KeysTail(es, acc, Entry(es[0].key, Node(false, Copy(es[0].node.value))));
    EntriesHead(es, acc, rest);
    AccStep(es, acc);
  }

  // ---------------------------------------------------------------------------
  // The tag byte
  // ---------------------------------------------------------------------------

  /**
   * The first byte alone decides the variant: a successful read started with a
   * known tag byte and produced a value of that tag's type; an unknown tag is
   * malformed whatever follows.
   */
  lemma TagSelectsVariant(s: seq<Datum>)
    ensures DecodeValue(s).Ok? ==>
      s[0].Byte? && ForChar(ByteChar(s[0].b)).Some? && DecodeValue(s).value.value.Type() == ForChar(ByteChar(s[0].b)).value
    ensures |s| > 0 && s[0].Byte? && ForChar(ByteChar(s[0].b)).None? ==> DecodeValue(s) == Err(Malformed)
  {
  }

  /** The undefined tag reads nothing more. */
  lemma UndefinedPayload(rest: seq<Datum>)
    ensures DecodeValue([Byte(TagByte(UndefinedType))] + rest) == Ok(Decoded(UndefinedValue, rest))
  {
    var s := [Byte(TagByte(UndefinedType))] + rest;
    assert s[0] == Byte('u' as int) && s[1..] == rest;
    assert ForChar(ByteChar(s[0].b)) == Some(UndefinedType);
  }

  /** The type tag reads exactly one more tag byte, the type it names. */
  lemma TypePayload(b: Octet, rest: seq<Datum>)
    ensures DecodeValue([Byte(TagByte(TypeType)), Byte(b)] + rest) ==
      if ForChar(ByteChar(b)).Some? then Ok(Decoded(TypeValue(ForChar(ByteChar(b)).value), rest)) else Err(Malformed)
  {
    var s := [Byte(TagByte(TypeType)), Byte(b)] + rest;
    assert s[0] == Byte('t' as int) && s[1..] == [Byte(b)] + rest;
    assert ForChar(ByteChar(s[0].b)) == Some(TypeType);
    assert ([Byte(b)] + rest)[1..] == rest;
  }

  // ---------------------------------------------------------------------------
  // Base64
  // ---------------------------------------------------------------------------

  /** `fromBase64`: a new node read from the front of the stream; whatever follows is ignored. */
  function FromBase64(s: seq<Datum>): (r: Result<Value>)
    ensures r.Ok? ==> WellFormed(r.value) && Unprotected(r.value)
    ensures r.Ok? <==> DecodeValue(s).Ok?
  {
    match DecodeValue(s)
    case Ok(d) => Ok(d.value)
    case Err(e) => Err(e)
  }

  /** `fromBase64(toBase64())` gives back an unprotected node equal to the original. */
  lemma Base64RoundTrip(v: Value)
    requires WellFormed(v)
    ensures FromBase64(Encode(v)) == Ok(Copy(v))
    ensures Equal(FromBase64(Encode(v)).value, v) && Unprotected(FromBase64(Encode(v)).value)
  {
    RoundTrip(v, []);
    assert Encode(v) + [] == Encode(v);
    CopyEqual(v);
  }
}
