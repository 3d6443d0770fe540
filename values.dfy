/** JavaScript values as they occur in a configuration, in a step and in the
    engine's context, and the few pieces of JavaScript object semantics the
    engine relies on: property lookup, property assignment, and the
    conversion of a value to a string (for property keys and for rendering). */
module Values {

  datatype Option<+T> = None | Some(value: T)

  /** A JSON-like value. Numbers are integers here. An object keeps its
      properties in insertion order, which is the order in which `for…in`
      and `Object.entries` visit them. */
  datatype Value =
    | Null
    | Bool(b: bool)
    | Num(n: int)
    | Str(s: string)
    | Arr(items: seq<Value>)
    | Obj(fields: seq<Property>)

  /** One property of an object. */
  datatype Property = Property(key: string, val: Value)

  /** The properties of an object, in insertion order. */
  type Fields = seq<Property>

  /** `obj[k]` on a plain object: the value of property `k`, if present. */
  function Lookup(f: Fields, k: string): (r: Option<Value>)
    ensures r.None? <==> k !in KeySet(f)
  {
    if f == [] then None
    else if f[0].key == k then Some(f[0].val)
    else Lookup(f[1..], k)
  }

  function KeySet(f: Fields): set<string>
  {
    if f == [] then {} else {f[0].key} + KeySet(f[1..])
  }

  /** No property name occurs twice, as in every JavaScript object. */
  predicate DistinctKeys(f: Fields)
  {
    f == [] || (f[0].key !in KeySet(f[1..]) && DistinctKeys(f[1..]))
  }

  /** `obj[k]` reads the property named `k`, wherever it stands, when the
      keys are distinct. */
  lemma {:induction false} LookupAt(f: Fields, i: nat)
    requires DistinctKeys(f) && i < |f|
    ensures Lookup(f, f[i].key) == Some(f[i].val)
  {
    if i > 0 {
      if f[0].key == f[i].key {
        KeySetMember(f[1..], f[i].key);
        assert f[1..][i - 1] == f[i];
      }
      LookupAt(f[1..], i - 1);
    }
  }

  lemma {:induction false} KeySetMember(f: Fields, k: string)
    ensures k in KeySet(f) <==> exists j :: 0 <= j < |f| && f[j].key == k
  {
    if f != [] {
      KeySetMember(f[1..], k);
      if exists j :: 0 <= j < |f| && f[j].key == k {
        var j :| 0 <= j < |f| && f[j].key == k;
        if j > 0 { assert f[1..][j - 1].key == k; }
      }
      if exists j :: 0 <= j < |f[1..]| && f[1..][j].key == k {
        var j :| 0 <= j < |f[1..]| && f[1..][j].key == k;
        assert f[j + 1].key == k;
      }
    }
  }

  lemma {:induction false} KeysInKeySet(f: Fields)
    ensures forall i :: 0 <= i < |f| ==> f[i].key in KeySet(f)
  {
    if f != [] {
      KeysInKeySet(f[1..]);
      assert forall i :: 1 <= i < |f| ==> f[i] == f[1..][i - 1];
    }
  }

  lemma {:induction false} KeySetAppend(f: Fields, g: Fields)
    ensures KeySet(f + g) == KeySet(f) + KeySet(g)
  {
    if f != [] {
      assert (f + g)[1..] == f[1..] + g;
      KeySetAppend(f[1..], g);
    } else {
      assert f + g == g;
    }
  }

  lemma {:induction false} DistinctAppendOne(f: Fields, k: string, v: Value)
    requires DistinctKeys(f) && k !in KeySet(f)
    ensures DistinctKeys(f + [Property(k, v)])
  {
    if f != [] {
      assert (f + [Property(k, v)])[1..] == f[1..] + [Property(k, v)];
      KeySetAppend(f[1..], [Property(k, v)]);
      DistinctAppendOne(f[1..], k, v);
    }
  }

  /** `obj[k] = v` on a plain object: an existing property keeps its place
      and takes the new value, a new property is appended at the end. */
  function Put(f: Fields, k: string, v: Value): (r: Fields)
    ensures Lookup(r, k) == Some(v)
    ensures forall k' :: k' != k ==> Lookup(r, k') == Lookup(f, k')
    ensures KeySet(r) == KeySet(f) + {k}
    ensures k !in KeySet(f) ==> r == f + [Property(k, v)]
    ensures DistinctKeys(f) ==> DistinctKeys(r)
    ensures forall p :: p in r ==> p in f || p == Property(k, v)
    ensures DistinctKeys(f) && k in KeySet(f) ==>
      |r| == |f| && forall i :: 0 <= i < |f| ==> r[i] == (if f[i].key == k then Property(k, v) else f[i])
  {
    if f == [] then [Property(k, v)]
    else if f[0].key == k then
      KeysInKeySet(f[1..]);
      [Property(k, v)] + f[1..]
    else [f[0]] + Put(f[1..], k, v)
  }

  function Digit(d: nat): char
    requires d < 10
  {
    ('0' as int + d) as char
  }

  predicate IsDigit(c: char)
  {
    '0' <= c <= '9'
  }

  /** The decimal numeral of `n`, without leading zeros. */
  function NatToString(n: nat): (s: string)
    ensures 1 <= |s|
    ensures n < 10 <==> |s| == 1
    ensures forall i :: 0 <= i < |s| ==> IsDigit(s[i])
  {
    if n < 10 then [Digit(n)] else NatToString(n / 10) + [Digit(n % 10)]
  }

  /** Distinct numbers have distinct numerals, so the keys "0", "1", …
      that `Object.entries` gives an array's elements never collide. */
  lemma {:induction false} NatToStringInjective(a: nat, b: nat)
    ensures NatToString(a) == NatToString(b) <==> a == b
    decreases a
  {
    var sa, sb := NatToString(a), NatToString(b);
    if sa == sb {
      if a < 10 {
        assert Digit(a) == sa[0] == sb[0] == Digit(b);
      } else {
        assert sa[|sa| - 1] == Digit(a % 10) && sb[|sb| - 1] == Digit(b % 10);
        assert sa[..|sa| - 1] == NatToString(a / 10);
        assert sb[..|sb| - 1] == NatToString(b / 10);
        NatToStringInjective(a / 10, b / 10);
      }
    }
  }

  /** `String(i)` for an integer: a minus sign marks exactly the
      negative numbers. */
  function IntToString(i: int): (s: string)
    ensures 1 <= |s|
    ensures s[0] == '-' <==> i < 0
  {
    if i < 0 then "-" + NatToString(-i) else NatToString(i)
  }

  /** Distinct integers print as distinct strings. */
  lemma IntToStringInjective(a: int, b: int)
    ensures IntToString(a) == IntToString(b) <==> a == b
  {
    var sa, sb := IntToString(a), IntToString(b);
    if sa == sb {
      if a < 0 {
        assert sa[1..] == NatToString(-a) && sb[1..] == NatToString(-b);
        NatToStringInjective(-a, -b);
      } else {
        NatToStringInjective(a, b);
      }
    }
  }

  /** `String(v)` for the values modelled here. */
  function JsString(v: Value): (s: string)
    ensures v.Str? ==> s == v.s
    ensures v.Num? ==> 1 <= |s| && (s[0] == '-' <==> v.n < 0)
    ensures v.Null? || v.Bool? || v.Obj? ==> forall i :: 0 <= i < |s| ==> !IsDigit(s[i]) && s[i] != '-'
  {
    match v
    case Null => "null"
    case Bool(b) => if b then "true" else "false"
    case Num(n) => IntToString(n)
    case Str(s) => s
    case Arr(items) => JoinItems(items)
    case Obj(_) => "[object Object]"
  }

  /** `items.join(",")`: null elements print as the empty string. */
  function JoinItems(items: seq<Value>): string
  {
    if items == [] then ""
    else
      var first := if items[0].Null? then "" else JsString(items[0]);
      if |items| == 1 then first else first + "," + JoinItems(items[1..])
  }

  /** The property name a value is converted to when it is used as a key,
      as in `operations[compiled.type]`; a missing property reads as
      `undefined`. */
  function PropertyKey(v: Option<Value>): (k: string)
    ensures v.None? ==> k == "undefined"
    ensures v.Some? && v.value.Str? ==> k == v.value.s
    ensures v.Some? && v.value.Num? ==> k == IntToString(v.value.n)
  {
    match v
    case None => "undefined"
    case Some(x) => JsString(x)
  }
}
