/** Data trees and the extraction of their buffers (modules 9 and 11). */
module BinaryTree {
  import opened Js

  type Buffer = seq<Byte>

  datatype Field = Field(key: JsString, value: Value)

  datatype Value =
    | Undefined
    | Null
    | Boolean(b: bool)
    | Number(r: real)
    | String(s: JsString)
    | BufferValue(buffer: Buffer)
    | Array(items: seq<Value>)
    | Object(fields: seq<Field>)

  predicate Truthy(v: Value) {
    match v
    case Undefined => false
    case Null => false
    case Boolean(b) => b
    case Number(r) => r != 0.0
    case String(s) => s != []
    case _ => true
  }

  /** The values that are not truthy. */
  lemma FalsyValues(v: Value)
    ensures Truthy(v) <==> v !in {Undefined, Null, Boolean(false), Number(0.0), String([])}
  {
  }

  const PLACEHOLDER: JsString :=
    ['_' as int, 'p' as int, 'l' as int, 'a' as int, 'c' as int, 'e' as int,
     'h' as int, 'o' as int, 'l' as int, 'd' as int, 'e' as int, 'r' as int]

  const NUM: JsString := ['n' as int, 'u' as int, 'm' as int]

  /** `o[key]` */
  function Get(fields: seq<Field>, key: JsString): Value {
    if fields == [] then Undefined
    else if fields[0].key == key then fields[0].value
    else Get(fields[1..], key)
  }

  /** `hasBinary`: is there a buffer in the tree? */
  predicate HasBinary(v: Value) {
    match v
    case BufferValue(_) => true
    case Array(items) => exists i | 0 <= i < |items| :: HasBinary(items[i])
    case Object(fields) => exists i | 0 <= i < |fields| :: HasBinary(fields[i].value)
    case _ => false
  }

  function Placeholder(num: nat): Value {
    Object([Field(PLACEHOLDER, Boolean(true)), Field(NUM, Number(num as real))])
  }

  lemma PlaceholderFormat(num: nat)
    ensures Placeholder(num) ==
            Object([Field(Ascii("_placeholder"), Boolean(true)), Field(Ascii("num"), Number(num as real))])
  {
    assert PLACEHOLDER == Ascii("_placeholder");
    assert NUM == Ascii("num");
  }

  /** Replaces each buffer by a numbered placeholder and collects the buffers
      behind those already in `buffers`, in the order of the traversal. */
  function Deconstruct(v: Value, buffers: seq<Buffer>): (Value, seq<Buffer>) {
    match v
    case BufferValue(b) => (Placeholder(|buffers|), buffers + [b])
    case Array(items) =>
      var (items', buffers') := DeconstructItems(items, buffers);
      (Array(items'), buffers')
    case Object(fields) =>
      var (fields', buffers') := DeconstructFields(fields, buffers);
      (Object(fields'), buffers')
    case _ => (v, buffers)
  }

  function DeconstructItems(items: seq<Value>, buffers: seq<Buffer>): (seq<Value>, seq<Buffer>) {
    if items == [] then ([], buffers) else
      var (head, buffers') := Deconstruct(items[0], buffers);
      var (tail, buffers'') := DeconstructItems(items[1..], buffers');
      ([head] + tail, buffers'')
  }

  function DeconstructFields(fields: seq<Field>, buffers: seq<Buffer>): (seq<Field>, seq<Buffer>) {
    if fields == [] then ([], buffers) else
      var (head, buffers') := Deconstruct(fields[0].value, buffers);
      var (tail, buffers'') := DeconstructFields(fields[1..], buffers');
      ([Field(fields[0].key, head)] + tail, buffers'')
  }

  /** `buffers[num]` */
  function BufferAt(buffers: seq<Buffer>, num: Value): Value {
    if num.Number? && num.r.Floor as real == num.r && 0 <= num.r.Floor < |buffers| then
      BufferValue(buffers[num.r.Floor])
    else Undefined
  }

  /** Puts the buffers back where the placeholders are. */
  function Reconstruct(v: Value, buffers: seq<Buffer>): Value {
    match v
    case Array(items) =>
      Array(seq(|items|, i requires 0 <= i < |items| => Reconstruct(items[i], buffers)))
    case Object(fields) =>
      if Truthy(Get(fields, PLACEHOLDER)) then BufferAt(buffers, Get(fields, NUM))
      else Object(seq(|fields|, i requires 0 <= i < |fields| =>
                        Field(fields[i].key, Reconstruct(fields[i].value, buffers))))
    case _ => v
  }

  /** No object of the tree passes for a placeholder. */
  predicate PlaceholderFree(v: Value) {
    match v
    case Array(items) => forall i | 0 <= i < |items| :: PlaceholderFree(items[i])
    case Object(fields) =>
      !Truthy(Get(fields, PLACEHOLDER)) &&
      forall i | 0 <= i < |fields| :: PlaceholderFree(fields[i].value)
    case _ => true
  }

  // ---------- deconstruction and reconstruction ----------

  lemma {:induction false} DeconstructKeepsBuffers(v: Value, buffers: seq<Buffer>)
    ensures buffers <= Deconstruct(v, buffers).1
    ensures |Deconstruct(v, buffers).1| > |buffers| <==> HasBinary(v)
    decreases v, 0
  {
    match v
    case Array(items) => DeconstructItemsKeepsBuffers(items, buffers);
    case Object(fields) => DeconstructFieldsKeepsBuffers(fields, buffers);
    case _ =>
  }

  lemma {:induction false} DeconstructItemsKeepsBuffers(items: seq<Value>, buffers: seq<Buffer>)
    ensures buffers <= DeconstructItems(items, buffers).1
    ensures |DeconstructItems(items, buffers).1| > |buffers| <==> exists i | 0 <= i < |items| :: HasBinary(items[i])
    decreases items, 1
  {
    if items != [] {
      DeconstructKeepsBuffers(items[0], buffers);
      DeconstructItemsKeepsBuffers(items[1..], Deconstruct(items[0], buffers).1);
      assert forall i | 1 <= i < |items| :: items[i] == items[1..][i - 1];
    }
  }

  lemma {:induction false} DeconstructFieldsKeepsBuffers(fields: seq<Field>, buffers: seq<Buffer>)
    ensures buffers <= DeconstructFields(fields, buffers).1
    ensures |DeconstructFields(fields, buffers).1| > |buffers| <==>
            exists i | 0 <= i < |fields| :: HasBinary(fields[i].value)
    decreases fields, 1
  {
    if fields != [] {
      DeconstructKeepsBuffers(fields[0].value, buffers);
      DeconstructFieldsKeepsBuffers(fields[1..], Deconstruct(fields[0].value, buffers).1);
      assert forall i | 1 <= i < |fields| :: fields[i] == fields[1..][i - 1];
    }
  }

  lemma DeconstructKeepsTruth(v: Value, buffers: seq<Buffer>)
    ensures Truthy(Deconstruct(v, buffers).0) == Truthy(v)
  {
  }

  /** Deconstructing a field list leaves its keys, and the truth of its values. */
  lemma {:induction false} DeconstructFieldsGet(fields: seq<Field>, buffers: seq<Buffer>, key: JsString)
    ensures Truthy(Get(DeconstructFields(fields, buffers).0, key)) == Truthy(Get(fields, key))
  {
    if fields != [] {
      var (head, buffers') := Deconstruct(fields[0].value, buffers);
      DeconstructKeepsTruth(fields[0].value, buffers);
      DeconstructFieldsGet(fields[1..], buffers', key);
      var r := DeconstructFields(fields, buffers).0;
      assert r[0] == Field(fields[0].key, head) && r[1..] == DeconstructFields(fields[1..], buffers').0;
    }
  }

  /** What is sent as text holds no buffer. */
  lemma {:induction false} DeconstructLeavesNoBuffer(v: Value, buffers: seq<Buffer>)
    ensures !HasBinary(Deconstruct(v, buffers).0)
    decreases v, 0
  {
    match v
    case Array(items) => DeconstructItemsLeaveNoBuffer(items, buffers);
    case Object(fields) => DeconstructFieldsLeaveNoBuffer(fields, buffers);
    case _ =>
  }

  lemma {:induction false} DeconstructItemsLeaveNoBuffer(items: seq<Value>, buffers: seq<Buffer>)
    ensures forall w | w in DeconstructItems(items, buffers).0 :: !HasBinary(w)
    decreases items, 1
  {
    if items != [] {
      DeconstructLeavesNoBuffer(items[0], buffers);
      DeconstructItemsLeaveNoBuffer(items[1..], Deconstruct(items[0], buffers).1);
    }
  }

  lemma {:induction false} DeconstructFieldsLeaveNoBuffer(fields: seq<Field>, buffers: seq<Buffer>)
    ensures forall f | f in DeconstructFields(fields, buffers).0 :: !HasBinary(f.value)
    decreases fields, 1
  {
    if fields != [] {
      DeconstructLeavesNoBuffer(fields[0].value, buffers);
      DeconstructFieldsLeaveNoBuffer(fields[1..], Deconstruct(fields[0].value, buffers).1);
    }
  }

  /** Once all buffers have arrived, the tree is the original one exactly when
      no object in it passes for a placeholder. */
  lemma {:induction false} ReconstructOfDeconstruct(v: Value, before: seq<Buffer>, all: seq<Buffer>)
    requires Deconstruct(v, before).1 <= all
    ensures Reconstruct(Deconstruct(v, before).0, all) == v <==> PlaceholderFree(v)
    decreases v, 0
  {
    match v
    case BufferValue(b) => ReconstructPlaceholder(|before|, all);
    case Array(items) => ReconstructItems(items, before, all);
    case Object(fields) =>
      DeconstructFieldsGet(fields, before, PLACEHOLDER);
      if !Truthy(Get(fields, PLACEHOLDER)) {
        ReconstructFields(fields, before, all);
      }
    case _ =>
  }

  lemma ReconstructPlaceholder(num: nat, all: seq<Buffer>)
    requires num < |all|
    ensures Reconstruct(Placeholder(num), all) == BufferValue(all[num])
  {
    var fields := Placeholder(num).fields;
    assert PLACEHOLDER[0] != NUM[0];
    assert Get(fields, PLACEHOLDER) == Boolean(true);
    assert fields[1..][0] == Field(NUM, Number(num as real));
    assert Get(fields, NUM) == Number(num as real);
  }

  function ReconstructAll(items: seq<Value>, all: seq<Buffer>): (r: seq<Value>)
    ensures |r| == |items|
  {
    seq(|items|, i requires 0 <= i < |items| => Reconstruct(items[i], all))
  }

  function ReconstructAllFields(fields: seq<Field>, all: seq<Buffer>): (r: seq<Field>)
    ensures |r| == |fields|
  {
    seq(|fields|, i requires 0 <= i < |fields| => Field(fields[i].key, Reconstruct(fields[i].value, all)))
  }

  lemma {:induction false} ReconstructItems(items: seq<Value>, before: seq<Buffer>, all: seq<Buffer>)
    requires DeconstructItems(items, before).1 <= all
    ensures ReconstructAll(DeconstructItems(items, before).0, all) == items <==>
            forall i | 0 <= i < |items| :: PlaceholderFree(items[i])
    decreases items, 1
  {
    if items != [] {
      var (head, before') := Deconstruct(items[0], before);
      DeconstructItemsKeepsBuffers(items[1..], before');
      ReconstructOfDeconstruct(items[0], before, all);
      ReconstructItems(items[1..], before', all);
      var tail := DeconstructItems(items[1..], before').0;
      assert ReconstructAll([head] + tail, all) == [Reconstruct(head, all)] + ReconstructAll(tail, all);
      assert items == [items[0]] + items[1..];
      assert forall i | 1 <= i < |items| :: items[i] == items[1..][i - 1];
      assert forall i | 0 <= i < |items[1..]| :: items[1..][i] == items[i + 1];
    }
  }

  lemma {:induction false} ReconstructFields(fields: seq<Field>, before: seq<Buffer>, all: seq<Buffer>)
    requires DeconstructFields(fields, before).1 <= all
    ensures ReconstructAllFields(DeconstructFields(fields, before).0, all) == fields <==>
            forall i | 0 <= i < |fields| :: PlaceholderFree(fields[i].value)
    decreases fields, 1
  {
    if fields != [] {
      var (head, before') := Deconstruct(fields[0].value, before);
      DeconstructFieldsKeepsBuffers(fields[1..], before');
      ReconstructOfDeconstruct(fields[0].value, before, all);
      ReconstructFields(fields[1..], before', all);
      var tail := DeconstructFields(fields[1..], before').0;
      var first := Field(fields[0].key, head);
      assert ReconstructAllFields([first] + tail, all) ==
             [Field(fields[0].key, Reconstruct(head, all))] + ReconstructAllFields(tail, all);
      assert fields == [fields[0]] + fields[1..];
      assert forall i | 1 <= i < |fields| :: fields[i] == fields[1..][i - 1];
      assert forall i | 0 <= i < |fields[1..]| :: fields[1..][i] == fields[i + 1];
    }
  }
}
