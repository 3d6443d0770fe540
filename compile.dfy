/** `compile_step`: a step is rebuilt property by property, its strings
    rendered as templates against the flattened context. */
module Compile {
  import opened Values
  import opened Flattening
  import opened Template

  /** No array anywhere inside the value. */
  predicate ArrayFree(v: Value)
    decreases v
  {
    match v
    case Arr(_) => false
    case Obj(fields) => forall i :: 0 <= i < |fields| ==> ArrayFree(fields[i].val)
    case _ => true
  }

  predicate AllArrayFree(f: Fields)
  {
    forall p :: p in f ==> ArrayFree(p.val)
  }

  /** The keys `String(index)`, …, `String(index + n - 1)`. */
  function IndexKeys(index: nat, n: nat): set<string>
    decreases n
  {
    if n == 0 then {} else {NatToString(index)} + IndexKeys(index + 1, n - 1)
  }

  /** The reducer's callback for one property value: a string is rendered
      against `object_flatten(object_flatten(this.context))`; any other
      value whose `typeof` is "object" and that is not null (objects and
      arrays alike) goes through `compile_step` again; numbers, booleans
      and null are copied. */
  function CompileField(value: Value, context: Fields): (r: Value)
    ensures value.Str? ==> r.Str?
    ensures value.Obj? ==> r.Obj? && KeySet(r.fields) == KeySet(value.fields)
    ensures value.Arr? ==> r.Obj? && KeySet(r.fields) == IndexKeys(0, |value.items|)
    ensures !value.Str? && !value.Obj? && !value.Arr? ==> r == value
    decreases value
  {
    match value
    case Str(s) => Str(Render(s, Flatten(Flatten(context))))
    case Obj(fields) => Obj(CompileEntries([], fields, context))
    case Arr(items) => Obj(CompileItems([], items, 0, context))
    case _ => value
  }

  /** `Object.entries(obj).reduce(…, acc)` over an object's properties. */
  function CompileEntries(acc: Fields, entries: Fields, context: Fields): (r: Fields)
    ensures KeySet(r) == KeySet(acc) + KeySet(entries)
    ensures DistinctKeys(acc) ==> DistinctKeys(r)
    decreases entries
  {
    if entries == [] then acc
    else
      var compiled := CompileField(entries[0].val, context);
      CompileEntries(Put(acc, entries[0].key, compiled), entries[1..], context)
  }

  /** The same reduction over an array: `Object.entries` lists the element
      at index i under the key `String(i)`. */
  function CompileItems(acc: Fields, items: seq<Value>, index: nat, context: Fields): (r: Fields)
    ensures KeySet(r) == KeySet(acc) + IndexKeys(index, |items|)
    ensures DistinctKeys(acc) ==> DistinctKeys(r)
    decreases items
  {
    if items == [] then acc
    else
      var compiled := CompileField(items[0], context);
      CompileItems(Put(acc, NatToString(index), compiled), items[1..], index + 1, context)
  }

  /** `compile_step(step)` with `this.context` given as `context`. It
      builds a fresh object and changes neither the step nor the context. */
  function CompileStep(step: Fields, context: Fields): (r: Fields)
    ensures KeySet(r) == KeySet(step)
    ensures DistinctKeys(r)
  {
    CompileEntries([], step, context)
  }

  /** Compilation leaves no array anywhere: every array met on the way,
      at any depth, is rebuilt into an object. */
  lemma {:induction false} CompileFieldArrayFree(value: Value, context: Fields)
    ensures ArrayFree(CompileField(value, context))
    decreases value
  {
    match value
    case Obj(fields) => CompileEntriesArrayFree([], fields, context);
    case Arr(items) => CompileItemsArrayFree([], items, 0, context);
    case _ =>
  }

  lemma {:induction false} CompileEntriesArrayFree(acc: Fields, entries: Fields, context: Fields)
    requires AllArrayFree(acc)
    ensures AllArrayFree(CompileEntries(acc, entries, context))
    decreases entries
  {
    if entries != [] {
      CompileFieldArrayFree(entries[0].val, context);
      CompileEntriesArrayFree(Put(acc, entries[0].key, CompileField(entries[0].val, context)), entries[1..], context);
    }
  }

  lemma {:induction false} CompileItemsArrayFree(acc: Fields, items: seq<Value>, index: nat, context: Fields)
    requires AllArrayFree(acc)
    ensures AllArrayFree(CompileItems(acc, items, index, context))
    decreases items
  {
    if items != [] {
      CompileFieldArrayFree(items[0], context);
      CompileItemsArrayFree(Put(acc, NatToString(index), CompileField(items[0], context)), items[1..], index + 1, context);
    }
  }

  /** A compiled step holds no array at any depth. */
  lemma CompileStepArrayFree(step: Fields, context: Fields)
    ensures AllArrayFree(CompileStep(step, context))
  {
    CompileEntriesArrayFree([], step, context);
  }

  // ---------------------------------------------------------------------

  /** The compiled entries of `entries`, in order, as the reduction writes them. */
  function CompiledEntries(entries: Fields, context: Fields): (r: Fields)
    ensures |r| == |entries|
    ensures forall i :: 0 <= i < |entries| ==> r[i] == Property(entries[i].key, CompileField(entries[i].val, context))
  {
    if entries == [] then []
    else [Property(entries[0].key, CompileField(entries[0].val, context))] + CompiledEntries(entries[1..], context)
  }

  /** For distinct keys, the reduction appends each entry, in order, with
      its compiled value. */
  lemma {:induction false} CompileEntriesPointwise(acc: Fields, entries: Fields, context: Fields)
    requires DistinctKeys(entries) && KeySet(acc) !! KeySet(entries)
    ensures CompileEntries(acc, entries, context) == acc + CompiledEntries(entries, context)
    decreases entries
  {
    if entries != [] {
      var e := entries[0];
      var g := CompiledEntries(entries, context);
      var acc' := acc + [g[0]];
      assert Put(acc, e.key, CompileField(e.val, context)) == acc';
      KeySetAppend(acc, [g[0]]);
      CompileEntriesPointwise(acc', entries[1..], context);
      assert g == [g[0]] + CompiledEntries(entries[1..], context);
    }
  }

  /** For a step whose keys are distinct, as in every JavaScript object,
      the compiled step has the same keys in the same order, and each value
      is the compiled original value. */
  lemma CompileStepPointwise(step: Fields, context: Fields)
    requires DistinctKeys(step)
    ensures var r := CompileStep(step, context);
      && |r| == |step|
      && forall i :: 0 <= i < |step| ==> r[i] == Property(step[i].key, CompileField(step[i].val, context))
  {
    var empty: Fields := [];
    assert KeySet(empty) == {};
    CompileEntriesPointwise(empty, step, context);
    assert empty + CompiledEntries(step, context) == CompiledEntries(step, context);
  }

  /** The elements of `items` under the keys `String(index)`,
      `String(index + 1)`, …, as the reduction over an array writes them. */
  function IndexedItems(items: seq<Value>, index: nat, context: Fields): (r: Fields)
    ensures |r| == |items|
    decreases items
  {
    if items == [] then []
    else [Property(NatToString(index), CompileField(items[0], context))] + IndexedItems(items[1..], index + 1, context)
  }

  /** No key "index", "index+1", … is taken yet. */
  ghost predicate IndexKeysFree(acc: Fields, index: nat)
  {
    forall j: nat {:trigger NatToString(j)} :: index <= j ==> NatToString(j) !in KeySet(acc)
  }

  /** Adding the element at `index` appends it under a fresh key, and
      leaves the later keys free. */
  lemma CompileItemsStep(acc: Fields, items: seq<Value>, index: nat, context: Fields)
    requires IndexKeysFree(acc, index) && items != []
    ensures var next := Property(NatToString(index), CompileField(items[0], context));
      && CompileItems(acc, items, index, context) == CompileItems(acc + [next], items[1..], index + 1, context)
      && IndexKeysFree(acc + [next], index + 1)
      && acc + IndexedItems(items, index, context) == acc + [next] + IndexedItems(items[1..], index + 1, context)
  {
    var next := Property(NatToString(index), CompileField(items[0], context));
    var rest := IndexedItems(items[1..], index + 1, context);
    assert IndexedItems(items, index, context) == [next] + rest;
    assert acc + ([next] + rest) == acc + [next] + rest;
    assert NatToString(index) !in KeySet(acc);
    KeySetAppend(acc, [next]);
    assert KeySet([next]) == {next.key};
    forall j: nat | index + 1 <= j ensures NatToString(j) !in KeySet(acc + [next]) {
      NatToStringInjective(j, index);
      assert NatToString(j) !in KeySet(acc);
    }
  }

  /** The reduction over an array appends the element at index i under
      the key `String(i)`, in index order. */
  lemma {:induction false} CompileItemsIndexed(acc: Fields, items: seq<Value>, index: nat, context: Fields)
    requires IndexKeysFree(acc, index)
    ensures CompileItems(acc, items, index, context) == acc + IndexedItems(items, index, context)
    decreases items
  {
    if items != [] {
      var next := Property(NatToString(index), CompileField(items[0], context));
      CompileItemsStep(acc, items, index, context);
      CompileItemsIndexed(acc + [next], items[1..], index + 1, context);
    }
  }

  lemma {:induction false} IndexedItemAt(items: seq<Value>, index: nat, context: Fields, i: nat)
    requires i < |items|
    ensures IndexedItems(items, index, context)[i] == Property(NatToString(index + i), CompileField(items[i], context))
    decreases i
  {
    if i > 0 {
      IndexedItemAt(items[1..], index + 1, context, i - 1);
    }
  }

  lemma IndexedItemsPointwise(items: seq<Value>, context: Fields)
    ensures forall i :: 0 <= i < |items| ==>
              IndexedItems(items, 0, context)[i] == Property(NatToString(i), CompileField(items[i], context))
  {
    forall i | 0 <= i < |items|
      ensures IndexedItems(items, 0, context)[i] == Property(NatToString(i), CompileField(items[i], context))
    {
      IndexedItemAt(items, 0, context, i);
    }
  }

  /** An array inside a step becomes a plain object whose keys are "0",
      "1", … in index order and whose values are the compiled elements. */
  lemma CompileArray(items: seq<Value>, context: Fields)
    ensures var r := CompileField(Arr(items), context);
      && r.Obj?
      && |r.fields| == |items|
      && forall i :: 0 <= i < |items| ==>
           r.fields[i] == Property(NatToString(i), CompileField(items[i], context))
  {
    var empty: Fields := [];
    assert KeySet(empty) == {};
    CompileItemsIndexed(empty, items, 0, context);
    var g := IndexedItems(items, 0, context);
    assert empty + g == g;
    IndexedItemsPointwise(items, context);
  }

  /** Data without strings or arrays, its objects with distinct keys. */
  predicate Plain(v: Value)
    decreases v
  {
    match v
    case Str(_) => false
    case Arr(_) => false
    case Obj(fields) => DistinctKeys(fields) && forall i :: 0 <= i < |fields| ==> Plain(fields[i].val)
    case _ => true
  }

  /** Numbers, booleans and null, and objects built only from them, come
      out of compilation unchanged. */
  lemma {:induction false} CompilePlainUnchanged(v: Value, context: Fields)
    requires Plain(v)
    ensures CompileField(v, context) == v
    decreases v
  {
    if v.Obj? {
      var fields := v.fields;
      CompileStepPointwise(fields, context);
      var r := CompileStep(fields, context);
      forall i | 0 <= i < |fields| ensures r[i] == fields[i] {
        CompilePlainUnchanged(fields[i].val, context);
      }
      assert r == fields;
    }
  }

  /** A string field is rendered against the context flattened once: the
      second flattening in `compile_step` changes nothing. */
  lemma CompileString(s: string, context: Fields)
    ensures CompileField(Str(s), context) == Str(Render(s, Flatten(context)))
  {
    FlattenIdempotent(context);
  }
}
