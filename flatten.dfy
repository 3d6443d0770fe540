/** `object_flatten`: a nested object becomes a single-level object whose
    keys are the underscore-joined property paths of its leaves. */
module Flattening {
  import opened Values

  /** Flattening descends only into objects: null, arrays, strings,
      numbers and booleans are written out as they are. */
  predicate IsLeaf(v: Value)
  {
    !v.Obj?
  }

  predicate Leaves(f: Fields)
  {
    forall p :: p in f ==> IsLeaf(p.val)
  }

  /** `recurse(current, prefix)` writing into the shared `flattened`
      object, given here as `acc`: each property of `current`, in order,
      is either descended into with the prefix extended by `key + "_"`, or
      assigned to `flattened[prefix + key]`. */
  function FlattenInto(acc: Fields, prefix: string, current: Fields): (r: Fields)
    ensures Leaves(acc) ==> Leaves(r)
    ensures DistinctKeys(acc) ==> DistinctKeys(r)
    decreases current
  {
    if current == [] then acc
    else
      var key := current[0].key;
      var acc' :=
        if current[0].val.Obj? then FlattenInto(acc, prefix + key + "_", current[0].val.fields)
        else Put(acc, prefix + key, current[0].val);
      FlattenInto(acc', prefix, current[1..])
  }

  /** `object_flatten(obj)`. */
  function Flatten(obj: Fields): (r: Fields)
    ensures Leaves(r) && DistinctKeys(r)
  {
    FlattenInto([], "", obj)
  }

  // ---------------------------------------------------------------------
  // An independent description: the sequence of assignments the traversal
  // performs, and "the last assignment to a key wins".

  /** The assignments `flattened[key] = leaf` made by `recurse(f, prefix)`,
      in the order they are made. */
  function Writes(prefix: string, f: Fields): seq<Property>
    decreases f
  {
    if f == [] then []
    else
      (if f[0].val.Obj? then Writes(prefix + f[0].key + "_", f[0].val.fields)
       else [Property(prefix + f[0].key, f[0].val)])
      + Writes(prefix, f[1..])
  }

  function PutAll(acc: Fields, ws: seq<Property>): Fields
    decreases ws
  {
    if ws == [] then acc else PutAll(Put(acc, ws[0].key, ws[0].val), ws[1..])
  }

  /** The value of the last assignment to `k` among `ws`, if any. */
  function LastWrite(ws: seq<Property>, k: string): Option<Value>
  {
    if ws == [] then None
    else
      var later := LastWrite(ws[1..], k);
      if later.Some? then later
      else if ws[0].key == k then Some(ws[0].val)
      else None
  }

  lemma {:induction false} WritesAppend(prefix: string, a: Fields, b: Fields)
    ensures Writes(prefix, a + b) == Writes(prefix, a) + Writes(prefix, b)
  {
    if a == [] {
      assert a + b == b;
    } else {
      assert (a + b)[0] == a[0] && (a + b)[1..] == a[1..] + b;
      WritesAppend(prefix, a[1..], b);
    }
  }

  lemma {:induction false} PutAllAppend(acc: Fields, a: seq<Property>, b: seq<Property>)
    ensures PutAll(acc, a + b) == PutAll(PutAll(acc, a), b)
    decreases a
  {
    if a == [] {
      assert a + b == b;
    } else {
      assert (a + b)[0] == a[0] && (a + b)[1..] == a[1..] + b;
      PutAllAppend(Put(acc, a[0].key, a[0].val), a[1..], b);
    }
  }

  lemma {:induction false} LastWriteAppend(a: seq<Property>, b: seq<Property>, k: string)
    ensures LastWrite(a + b, k) == if LastWrite(b, k).Some? then LastWrite(b, k) else LastWrite(a, k)
  {
    if a == [] {
      assert a + b == b;
    } else {
      assert (a + b)[0] == a[0] && (a + b)[1..] == a[1..] + b;
      LastWriteAppend(a[1..], b, k);
    }
  }

  lemma {:induction false} LastWriteFound(ws: seq<Property>, k: string)
    ensures LastWrite(ws, k).Some? ==> Property(k, LastWrite(ws, k).value) in ws
    ensures (exists v :: Property(k, v) in ws) ==> LastWrite(ws, k).Some?
  {
    if ws != [] {
      LastWriteFound(ws[1..], k);
      if exists v :: Property(k, v) in ws {
        var v :| Property(k, v) in ws;
        if ws[0] != Property(k, v) {
          assert Property(k, v) in ws[1..];
        }
      }
    }
  }

  /** The traversal performs exactly the assignments listed by `Writes`. */
  lemma {:induction false} FlattenIntoIsPutAll(acc: Fields, prefix: string, f: Fields)
    ensures FlattenInto(acc, prefix, f) == PutAll(acc, Writes(prefix, f))
    decreases f
  {
    if f != [] {
      var key := f[0].key;
      if f[0].val.Obj? {
        var inner := prefix + key + "_";
        FlattenIntoIsPutAll(acc, inner, f[0].val.fields);
        FlattenIntoIsPutAll(FlattenInto(acc, inner, f[0].val.fields), prefix, f[1..]);
        PutAllAppend(acc, Writes(inner, f[0].val.fields), Writes(prefix, f[1..]));
      } else {
        FlattenIntoIsPutAll(Put(acc, prefix + key, f[0].val), prefix, f[1..]);
        PutAllAppend(acc, [Property(prefix + key, f[0].val)], Writes(prefix, f[1..]));
      }
    }
  }

  lemma {:induction false} LookupPutAll(acc: Fields, ws: seq<Property>, k: string)
    ensures Lookup(PutAll(acc, ws), k) ==
            if LastWrite(ws, k).Some? then LastWrite(ws, k) else Lookup(acc, k)
    decreases ws
  {
    if ws != [] {
      LookupPutAll(Put(acc, ws[0].key, ws[0].val), ws[1..], k);
    }
  }

  /** Every key of the flattened object holds the value of the last leaf
      written under it; a later colliding path overwrites an earlier one. */
  lemma FlattenLookup(obj: Fields, k: string)
    ensures Lookup(Flatten(obj), k) == LastWrite(Writes("", obj), k)
  {
    FlattenIntoIsPutAll([], "", obj);
    LookupPutAll([], Writes("", obj), k);
  }

  // ---------------------------------------------------------------------
  // Leaf paths.

  /** `k1_k2_…_kn` */
  function JoinPath(path: seq<string>): string
    requires |path| >= 1
  {
    if |path| == 1 then path[0] else path[0] + "_" + JoinPath(path[1..])
  }

  /** Following the properties `path` from `f` reaches the leaf `v`,
      passing only through objects. */
  ghost predicate LeafAt(f: Fields, path: seq<string>, v: Value)
    decreases f, 1
  {
    |path| >= 1 && exists i :: 0 <= i < |f| && LeafVia(f, i, path, v)
  }

  /** The first step of `path` is the property `f[i]`. */
  ghost predicate LeafVia(f: Fields, i: nat, path: seq<string>, v: Value)
    requires i < |f| && |path| >= 1
    decreases f, 0
  {
    f[i].key == path[0] &&
    if |path| == 1 then IsLeaf(f[i].val) && f[i].val == v
    else f[i].val.Obj? && LeafAt(f[i].val.fields, path[1..], v)
  }

  lemma {:induction false} WritesSplit(prefix: string, f: Fields, i: nat)
    requires i < |f|
    ensures Writes(prefix, f) ==
            Writes(prefix, f[..i]) + Writes(prefix, [f[i]]) + Writes(prefix, f[i + 1..])
  {
    assert f == f[..i] + [f[i]] + f[i + 1..];
    WritesAppend(prefix, f[..i] + [f[i]], f[i + 1..]);
    WritesAppend(prefix, f[..i], [f[i]]);
  }

  lemma WritesOne(prefix: string, p: Property)
    ensures Writes(prefix, [p]) ==
            if p.val.Obj? then Writes(prefix + p.key + "_", p.val.fields) else [Property(prefix + p.key, p.val)]
  {
    assert [p][1..] == [];
  }

  lemma WrittenViaOne(prefix: string, f: Fields, i: nat, w: Property)
    requires i < |f| && w in Writes(prefix, [f[i]])
    ensures w in Writes(prefix, f)
  {
    WritesSplit(prefix, f, i);
  }

  lemma JoinPathCons(prefix: string, path: seq<string>)
    requires |path| >= 2
    ensures prefix + path[0] + "_" + JoinPath(path[1..]) == prefix + JoinPath(path)
  {
  }

  /** Every leaf is written, under the joined path of its keys. */
  lemma {:induction false} LeafIsWritten(prefix: string, f: Fields, path: seq<string>, v: Value)
    requires LeafAt(f, path, v)
    ensures Property(prefix + JoinPath(path), v) in Writes(prefix, f)
    decreases f
  {
    var i :| 0 <= i < |f| && LeafVia(f, i, path, v);
    var p := f[i];
    WritesOne(prefix, p);
    if |path| != 1 {
      var inner := prefix + path[0] + "_";
      LeafIsWritten(inner, p.val.fields, path[1..], v);
      JoinPathCons(prefix, path);
    }
    WrittenViaOne(prefix, f, i, Property(prefix + JoinPath(path), v));
  }

  /** Every write is of a leaf, under the joined path of its keys. */
  lemma {:induction false} WrittenIsLeaf(prefix: string, f: Fields, w: Property)
    requires w in Writes(prefix, f)
    ensures exists path :: LeafAt(f, path, w.val) && w.key == prefix + JoinPath(path)
    decreases f, 1
  {
    assert [f[0]] + f[1..] == f;
    WritesAppend(prefix, [f[0]], f[1..]);
    if w in Writes(prefix, [f[0]]) {
      WrittenIsLeafHead(prefix, f, w);
    } else {
      WrittenIsLeaf(prefix, f[1..], w);
      var path :| LeafAt(f[1..], path, w.val) && w.key == prefix + JoinPath(path);
      LeafAtTail(f, path, w.val);
    }
  }

  lemma {:induction false} WrittenIsLeafHead(prefix: string, f: Fields, w: Property)
    requires f != [] && w in Writes(prefix, [f[0]])
    ensures exists path :: LeafAt(f, path, w.val) && w.key == prefix + JoinPath(path)
    decreases f, 0
  {
    WritesOne(prefix, f[0]);
    if f[0].val.Obj? {
      var inner := prefix + f[0].key + "_";
      WrittenIsLeaf(inner, f[0].val.fields, w);
      var rest :| LeafAt(f[0].val.fields, rest, w.val) && w.key == inner + JoinPath(rest);
      var path := [f[0].key] + rest;
      assert path[1..] == rest;
      assert LeafVia(f, 0, path, w.val);
      JoinPathCons(prefix, path);
    } else {
      assert LeafVia(f, 0, [f[0].key], w.val);
      assert w.key == prefix + JoinPath([f[0].key]);
    }
  }

  /** A leaf path of the later properties is a leaf path of the object. */
  lemma LeafAtTail(f: Fields, path: seq<string>, v: Value)
    requires f != [] && LeafAt(f[1..], path, v)
    ensures LeafAt(f, path, v)
  {
    var tail := f[1..];
    var j :| 0 <= j < |tail| && LeafVia(tail, j, path, v);
    assert f[j + 1] == tail[j];
    assert LeafVia(f, j + 1, path, v);
  }

  lemma {:induction false} LastWriteAbsent(ws: seq<Property>, k: string)
    requires forall w :: w in ws ==> w.key != k
    ensures LastWrite(ws, k) == None
  {
    if ws != [] {
      assert ws[0] in ws;
      LastWriteAbsent(ws[1..], k);
    }
  }

  /** An assignment to `k` that no later assignment to `k` follows is the
      one that wins. */
  lemma {:induction false} LastWriteAt(ws: seq<Property>, p: nat, k: string)
    requires p < |ws| && ws[p].key == k
    requires forall q :: p < q < |ws| ==> ws[q].key != k
    ensures LastWrite(ws, k) == Some(ws[p].val)
  {
    if p == 0 {
      forall w | w in ws[1..] ensures w.key != k {
        var q :| 0 <= q < |ws[1..]| && ws[1..][q] == w;
        assert ws[q + 1] == w;
      }
      LastWriteAbsent(ws[1..], k);
    } else {
      assert forall q :: p - 1 < q < |ws[1..]| ==> ws[1..][q] == ws[q + 1];
      LastWriteAt(ws[1..], p - 1, k);
    }
  }

  /** A leaf at path k1, …, kn appears in the flattened object under
      `k1_…_kn` when its assignment, the p-th of the traversal, is not
      followed by another assignment to the same key; paths visited
      earlier may collide with it. */
  lemma FlattenedLeaf(obj: Fields, path: seq<string>, v: Value, p: nat)
    requires LeafAt(obj, path, v)
    requires p < |Writes("", obj)| && Writes("", obj)[p] == Property(JoinPath(path), v)
    requires forall q :: p < q < |Writes("", obj)| ==> Writes("", obj)[q].key != JoinPath(path)
    ensures Lookup(Flatten(obj), JoinPath(path)) == Some(v)
  {
    LastWriteAt(Writes("", obj), p, JoinPath(path));
    FlattenLookup(obj, JoinPath(path));
  }

  /** Every leaf path has an assignment in the traversal, so `FlattenedLeaf`
      applies to the last leaf written under a key. */
  lemma LeafWriteIndex(obj: Fields, path: seq<string>, v: Value) returns (p: nat)
    requires LeafAt(obj, path, v)
    ensures p < |Writes("", obj)| && Writes("", obj)[p] == Property(JoinPath(path), v)
  {
    LeafIsWritten("", obj, path, v);
    assert "" + JoinPath(path) == JoinPath(path);
    var ws := Writes("", obj);
    p :| 0 <= p < |ws| && ws[p] == Property(JoinPath(path), v);
  }

  /** The example of a collision: `{a_b: 1, a: {b: 2}}` flattens to
      `{a_b: 2}`. */
  lemma CollisionExample()
    ensures Flatten([Property("a_b", Num(1)), Property("a", Obj([Property("b", Num(2))]))]) == [Property("a_b", Num(2))]
  {
    var inner := [Property("b", Num(2))];
    var nested := [Property("a", Obj(inner))];
    var first := [Property("a_b", Num(1))];
    assert [Property("a_b", Num(1)), Property("a", Obj(inner))] == first + nested;
    FlattenTopLeaf("a_b", Num(1), nested);
    FlattenNested(first, "a", inner);
    FlattenOneLeaf(first, "a_", "b", Num(2));
    assert "a_" + "b" == "a_b";
    PutOverwrite("a_b", Num(1), Num(2));
  }

  lemma FlattenTopLeaf(k: string, v: Value, rest: Fields)
    requires IsLeaf(v)
    ensures FlattenInto([], "", [Property(k, v)] + rest) == FlattenInto([Property(k, v)], "", rest)
  {
    assert ([Property(k, v)] + rest)[1..] == rest;
    assert "" + k == k;
  }

  lemma FlattenNested(acc: Fields, k: string, inner: Fields)
    ensures FlattenInto(acc, "", [Property(k, Obj(inner))]) == FlattenInto(acc, k + "_", inner)
  {
    assert [Property(k, Obj(inner))][1..] == [];
    assert "" + k + "_" == k + "_";
  }

  lemma FlattenOneLeaf(acc: Fields, prefix: string, k: string, v: Value)
    requires IsLeaf(v)
    ensures FlattenInto(acc, prefix, [Property(k, v)]) == Put(acc, prefix + k, v)
  {
    assert [Property(k, v)][1..] == [];
  }

  lemma PutOverwrite(k: string, v: Value, w: Value)
    ensures Put([Property(k, v)], k, w) == [Property(k, w)]
  {
    assert [Property(k, v)][1..] == [];
  }

  // ---------------------------------------------------------------------
  // Idempotence.

  lemma AppendHead(a: Fields, b: Fields)
    requires b != []
    ensures a + [b[0]] + b[1..] == a + b
  {
    assert [b[0]] + b[1..] == b;
  }

  lemma FlattenLeafStep(acc: Fields, flat: Fields)
    requires flat != [] && IsLeaf(flat[0].val)
    requires flat[0].key !in KeySet(acc)
    ensures FlattenInto(acc, "", flat) == FlattenInto(acc + [flat[0]], "", flat[1..])
  {
    assert "" + flat[0].key == flat[0].key;
  }

  lemma {:induction false} FlattenFlatInto(acc: Fields, flat: Fields)
    requires Leaves(flat) && DistinctKeys(flat) && DistinctKeys(acc)
    requires KeySet(acc) !! KeySet(flat)
    ensures FlattenInto(acc, "", flat) == acc + flat
    decreases flat
  {
    if flat == [] {
      assert acc + flat == acc;
    } else {
      assert flat[0] in flat;
      FlattenLeafStep(acc, flat);
      KeySetAppend(acc, [flat[0]]);
      DistinctAppendOne(acc, flat[0].key, flat[0].val);
      assert Leaves(flat[1..]) by {
        forall p | p in flat[1..] ensures IsLeaf(p.val) { assert p in flat; }
      }
      FlattenFlatInto(acc + [flat[0]], flat[1..]);
      AppendHead(acc, flat);
    }
  }

  /** Flattening an already flat object gives it back unchanged. */
  lemma FlattenOfFlat(flat: Fields)
    requires Leaves(flat) && DistinctKeys(flat)
    ensures Flatten(flat) == flat
  {
    FlattenFlatInto([], flat);
    assert [] + flat == flat;
  }

  /** `object_flatten` is idempotent, so the double flattening in
      `compile_step` equals a single one. */
  lemma FlattenIdempotent(obj: Fields)
    ensures Flatten(Flatten(obj)) == Flatten(obj)
  {
    FlattenOfFlat(Flatten(obj));
  }

  // ---------------------------------------------------------------------
  // The traversal written as the source writes it: a loop over the
  // properties of `current`, descending into objects.

  method Recurse(flattened: Fields, current: Fields, prefix: string) returns (out: Fields)
    ensures out == FlattenInto(flattened, prefix, current)
    decreases current
  {
    out := flattened;
    var i := 0;
    while i < |current|
      invariant 0 <= i <= |current|
      invariant FlattenInto(out, prefix, current[i..]) == FlattenInto(flattened, prefix, current)
    {
      var key := current[i].key;
      var value := current[i].val;
      assert current[i..][0] == current[i] && current[i..][1..] == current[i + 1..];
      if value.Obj? {
        assert current[i] in current;
        out := Recurse(out, value.fields, prefix + key + "_");
      } else {
        out := Put(out, prefix + key, value);
      }
      i := i + 1;
    }
  }

  method ObjectFlatten(obj: Fields) returns (flattened: Fields)
    ensures flattened == Flatten(obj)
    ensures Leaves(flattened) && DistinctKeys(flattened)
  {
    flattened := Recurse([], obj, "");
  }
}
