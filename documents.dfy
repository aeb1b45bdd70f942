/**
 * Documents as the JavaScript code sees them: ordered lists of named fields
 * holding flat values, with JavaScript's property lookup (`doc.name`),
 * truthiness, `String(v)` and `JSON.stringify`, and MongoDB's field-level
 * `$set`.
 */
module Documents {
  import opened Wrappers

  /** A BSON ObjectId, identified by its hexadecimal text. */
  datatype ObjectId = ObjectId(hex: string)

  /**
   * A flat field value. `Undefined` is what a property lookup yields for a
   * missing property; numbers are integers (floating point is not modelled).
   */
  datatype Value = Undefined | Null | Bool(b: bool) | Num(n: int) | Str(s: string) | Oid(id: ObjectId)

  datatype Field = Field(name: string, value: Value)

  /** A document or any other plain object: its fields in property order. */
  type Doc = seq<Field>

  /** The object has a property called `n`. */
  predicate Has(d: Doc, n: string) {
    exists i | 0 <= i < |d| :: d[i].name == n
  }

  /** Property names are distinct, as they are in every JavaScript object. */
  predicate UniqueNames(d: Doc) {
    forall i, j | 0 <= i < j < |d| :: d[i].name != d[j].name
  }

  /** The object has a property `n`, and every property called `n` holds `v`. */
  predicate Holds(d: Doc, n: string, v: Value) {
    Has(d, n) && forall i | 0 <= i < |d| :: d[i].name == n ==> d[i].value == v
  }

  /** A name occurs in a non-empty object when it is the first name or occurs in the rest. */
  lemma HasCons(d: Doc, m: string)
    requires d != []
    ensures Has(d, m) <==> d[0].name == m || Has(d[1..], m)
  {
    if Has(d, m) && d[0].name != m {
      var i :| 0 <= i < |d| && d[i].name == m;
      assert d[1..][i - 1].name == m;
    }
    if Has(d[1..], m) {
      var i :| 0 <= i < |d| - 1 && d[1..][i].name == m;
      assert d[i + 1].name == m;
    }
  }

  /** Dropping the first field keeps the names distinct. */
  lemma UniqueTail(d: Doc)
    requires d != [] && UniqueNames(d)
    ensures UniqueNames(d[1..]) && !Has(d[1..], d[0].name)
  {
    forall a, b | 0 <= a < b < |d| - 1 ensures d[1..][a].name != d[1..][b].name {
      assert d[1..][a] == d[a + 1] && d[1..][b] == d[b + 1];
    }
    forall i | 0 <= i < |d| - 1 ensures d[1..][i].name != d[0].name {
      assert d[1..][i] == d[i + 1];
    }
  }

  /** Property lookup `d.n`: the first field called `n`, or `Undefined`. */
  function Get(d: Doc, n: string): (v: Value)
    ensures !Has(d, n) ==> v == Undefined
    ensures Has(d, n) ==> exists i | 0 <= i < |d| :: d[i] == Field(n, v)
  {
    if d == [] then Undefined
    else if d[0].name == n then d[0].value
    else
      var v := Get(d[1..], n);
      assert Has(d[1..], n) ==> exists i | 0 <= i < |d| :: d[i] == Field(n, v) by {
        if Has(d[1..], n) {
          var i :| 0 <= i < |d| - 1 && d[1..][i] == Field(n, v);
          assert d[i + 1] == Field(n, v);
        }
      }
      v
  }

  /** A lookup finds the value of the first field with that name. */
  lemma {:induction false} GetFirst(d: Doc, i: nat)
    requires i < |d|
    requires forall j | 0 <= j < i :: d[j].name != d[i].name
    ensures Get(d, d[i].name) == d[i].value
  {
    if i > 0 {
      GetFirst(d[1..], i - 1);
    }
  }

  /** When every field called `n` holds `v`, the lookup yields `v`. */
  lemma {:induction false} GetHolds(d: Doc, n: string, v: Value)
    requires Holds(d, n, v)
    ensures Get(d, n) == v
  {
    if d[0].name != n {
      var i :| 0 <= i < |d| && d[i].name == n;
      assert d[1..][i - 1].name == n;
      GetHolds(d[1..], n, v);
    }
  }

  /** In an object with distinct property names, the lookup yields the field's value. */
  lemma GetUnique(d: Doc, i: nat)
    requires UniqueNames(d) && i < |d|
    ensures Get(d, d[i].name) == d[i].value
  {
    GetFirst(d, i);
  }

  /** JavaScript truthiness: `undefined`, `null`, `false`, `0` and `""` are falsy. */
  predicate Truthy(v: Value) {
    match v
    case Undefined => false
    case Null => false
    case Bool(b) => b
    case Num(n) => n != 0
    case Str(s) => s != ""
    case Oid(_) => true
  }

  // ---------------------------------------------------------------------
  // Field-level $set
  // ---------------------------------------------------------------------

  /** Every field called `n` gets value `v`; every other field stays as it is. */
  function Replace(d: Doc, n: string, v: Value): (r: Doc)
    ensures |r| == |d|
    ensures forall i | 0 <= i < |d| :: r[i].name == d[i].name
    ensures forall i | 0 <= i < |d| :: r[i] == if d[i].name == n then Field(n, v) else d[i]
  {
    seq(|d|, i requires 0 <= i < |d| => if d[i].name == n then Field(n, v) else d[i])
  }

  /**
   * `$set` of one field: an existing field keeps its position and takes the
   * new value; a new field is appended at the end.
   */
  function SetField(d: Doc, n: string, v: Value): (r: Doc)
    ensures Holds(r, n, v)
    ensures |r| == if Has(d, n) then |d| else |d| + 1
    ensures forall i | 0 <= i < |d| :: r[i].name == d[i].name
    ensures forall i | 0 <= i < |d| && d[i].name != n :: r[i] == d[i]
    ensures forall m :: Has(r, m) <==> Has(d, m) || m == n
  {
    if Has(d, n) then
      var r := Replace(d, n, v);
      assert forall m :: Has(r, m) ==> Has(d, m) by {
        forall m | Has(r, m) ensures Has(d, m) {
          var i :| 0 <= i < |r| && r[i].name == m;
          assert d[i].name == m;
        }
      }
      assert forall m :: Has(d, m) ==> Has(r, m) by {
        forall m | Has(d, m) ensures Has(r, m) {
          var i :| 0 <= i < |d| && d[i].name == m;
          assert r[i].name == m;
        }
      }
      r
    else
      var r := d + [Field(n, v)];
      assert r[|d|].name == n;
      assert forall m :: Has(d, m) ==> Has(r, m) by {
        forall m | Has(d, m) ensures Has(r, m) {
          var i :| 0 <= i < |d| && d[i].name == m;
          assert r[i].name == m;
        }
      }
      r
  }

  /** `$set` of a whole object of fields, one field after another. */
  function SetFields(d: Doc, fs: Doc): Doc
    decreases |fs|
  {
    if fs == [] then d else SetFields(SetField(d, fs[0].name, fs[0].value), fs[1..])
  }

  /** A field JavaScript would look up after `$set`: the new value if the set names it, else the old one. */
  lemma GetSetField(d: Doc, n: string, v: Value, m: string)
    ensures Get(SetField(d, n, v), m) == if m == n then v else Get(d, m)
  {
    var r := SetField(d, n, v);
    if m == n {
      GetHolds(r, n, v);
    } else if Has(d, m) {
      var i :| 0 <= i < |d| && d[i].name == m && forall j | 0 <= j < i :: d[j].name != m by {
        FirstIndex(d, m);
      }
      GetFirst(d, i);
      GetFirst(r, i);
    } else {
      assert !Has(r, m);
    }
  }

  /** Every name that occurs has a first occurrence. */
  lemma FirstIndex(d: Doc, n: string)
    requires Has(d, n)
    ensures exists i | 0 <= i < |d| :: d[i].name == n && forall j | 0 <= j < i :: d[j].name != n
  {
    var k :| 0 <= k < |d| && d[k].name == n;
    var i := 0;
    while d[i].name != n
      invariant 0 <= i <= k
      invariant forall j | 0 <= j < i :: d[j].name != n
      decreases k - i
    {
      i := i + 1;
    }
  }

  /** The names present after `$set` are the old names and the names set. */
  lemma {:induction false} SetFieldsNames(d: Doc, fs: Doc, m: string)
    ensures Has(SetFields(d, fs), m) <==> Has(d, m) || Has(fs, m)
    decreases |fs|
  {
    if fs != [] {
      SetFieldsNames(SetField(d, fs[0].name, fs[0].value), fs[1..], m);
      HasCons(fs, m);
    }
  }

  /**
   * After `$set` of `fs`, a field that `fs` does not name is looked up as
   * before, and a field that `fs` gives the single value `v` is looked up as `v`.
   */
  lemma {:induction false} GetSetFields(d: Doc, fs: Doc, m: string, v: Value)
    ensures !Has(fs, m) ==> Get(SetFields(d, fs), m) == Get(d, m)
    ensures Holds(fs, m, v) ==> Get(SetFields(d, fs), m) == v
    decreases |fs|
  {
    if fs != [] {
      var d1 := SetField(d, fs[0].name, fs[0].value);
      var rest := fs[1..];
      GetSetField(d, fs[0].name, fs[0].value, m);
      GetSetFields(d1, rest, m, v);
      HasCons(fs, m);
      if Holds(fs, m, v) && Has(rest, m) {
        assert Holds(rest, m, v) by {
          forall i | 0 <= i < |rest| && rest[i].name == m ensures rest[i].value == v {
            assert fs[i + 1] == rest[i];
          }
        }
      }
      if Holds(fs, m, v) && !Has(rest, m) {
        assert fs[0].name == m;
      }
    }
  }

  /** A `$set` of fields that already hold their values changes nothing. */
  lemma {:induction false} SetFieldsNoop(d: Doc, fs: Doc)
    requires forall j | 0 <= j < |fs| :: Holds(d, fs[j].name, fs[j].value)
    ensures SetFields(d, fs) == d
    decreases |fs|
  {
    if fs != [] {
      var d1 := SetField(d, fs[0].name, fs[0].value);
      assert Holds(d, fs[0].name, fs[0].value);
      assert d1 == d by {
        assert |d1| == |d|;
        forall i | 0 <= i < |d| ensures d1[i] == d[i] {
          if d[i].name == fs[0].name {
            assert d1[i] == Field(fs[0].name, fs[0].value);
          }
        }
      }
      assert forall j | 0 <= j < |fs[1..]| :: fs[1..][j] == fs[j + 1];
      SetFieldsNoop(d, fs[1..]);
    }
  }

  /** A `$set` of fields other than `n` leaves every field called `n` as it was. */
  lemma {:induction false} SetFieldsKeepsHolds(d: Doc, fs: Doc, n: string, v: Value)
    requires Holds(d, n, v) && !Has(fs, n)
    ensures Holds(SetFields(d, fs), n, v)
    decreases |fs|
  {
    if fs != [] {
      var d1 := SetField(d, fs[0].name, fs[0].value);
      assert fs[0].name != n;
      assert Holds(d1, n, v) by {
        var i :| 0 <= i < |d| && d[i].name == n;
        assert d1[i].name == n;
      }
      HasCons(fs, n);
      SetFieldsKeepsHolds(d1, fs[1..], n, v);
    }
  }

  /** After `$set` of an object, every field it names holds the value it gives. */
  lemma {:induction false} SetFieldsEstablishes(d: Doc, fs: Doc)
    requires UniqueNames(fs)
    ensures forall j | 0 <= j < |fs| :: Holds(SetFields(d, fs), fs[j].name, fs[j].value)
    decreases |fs|
  {
    if fs != [] {
      var d1 := SetField(d, fs[0].name, fs[0].value);
      var rest := fs[1..];
      UniqueTail(fs);
      SetFieldsEstablishes(d1, rest);
      UniqueTail(fs);
      SetFieldsKeepsHolds(d1, rest, fs[0].name, fs[0].value);
      forall j | 1 <= j < |fs| ensures Holds(SetFields(d, fs), fs[j].name, fs[j].value) {
        assert fs[j] == rest[j - 1];
      }
    }
  }

  /** `$set` is idempotent: setting the same fields twice is setting them once. */
  lemma SetFieldsIdempotent(d: Doc, fs: Doc)
    requires UniqueNames(fs)
    ensures SetFields(SetFields(d, fs), fs) == SetFields(d, fs)
  {
    SetFieldsEstablishes(d, fs);
    SetFieldsNoop(SetFields(d, fs), fs);
  }

  // ---------------------------------------------------------------------
  // Removing a property (`const { n, ...rest } = d`)
  // ---------------------------------------------------------------------

  /** The object rest `rest` of `const { n, ...rest } = d`: `d` without its `n` fields, in order. */
  function RemoveField(d: Doc, n: string): (r: Doc)
    ensures !Has(r, n)
    ensures |r| <= |d|
    ensures forall m | m != n :: Has(r, m) <==> Has(d, m)
    ensures !Has(d, n) ==> r == d
    ensures forall m | m != n :: Get(r, m) == Get(d, m)
    decreases |d|
  {
    if d == [] then []
    else
      var tail := RemoveField(d[1..], n);
      var r := if d[0].name == n then tail else [d[0]] + tail;
      assert forall m :: Has(d, m) <==> d[0].name == m || Has(d[1..], m) by {
        forall m { HasCons(d, m); }
      }
      assert forall m :: Has(r, m) <==> (d[0].name == m && m != n) || Has(tail, m) by {
        if d[0].name != n {
          forall m ensures Has(r, m) <==> (d[0].name == m && m != n) || Has(tail, m) {
            HasCons(r, m);
            assert r[1..] == tail;
          }
        }
      }
      r
  }

  /** One step of `RemoveField`: the first field is dropped or kept, the rest is filtered. */
  lemma RemoveFieldCons(d: Doc, n: string)
    requires d != []
    ensures RemoveField(d, n) == (if d[0].name == n then [] else [d[0]]) + RemoveField(d[1..], n)
  {
  }

  /** In an object with distinct names, removing `n` cuts out exactly its one field. */
  lemma {:induction false} RemoveFieldSplice(d: Doc, j: nat)
    requires UniqueNames(d) && j < |d|
    ensures RemoveField(d, d[j].name) == d[..j] + d[j + 1..]
    decreases |d|
  {
    var n := d[j].name;
    UniqueTail(d);
    RemoveFieldCons(d, n);
    if j == 0 {
      assert d[..0] + d[1..] == d[1..];
    } else {
      var tail := d[1..];
      assert tail[j - 1] == d[j];
      assert d[0].name != n;
      RemoveFieldSplice(tail, j - 1);
      assert RemoveField(d, n) == [d[0]] + (tail[..j - 1] + tail[j..]);
      assert [d[0]] + (tail[..j - 1] + tail[j..]) == d[..j] + d[j + 1..];
    }
  }

  /** `$unset` of a list of names: every field with one of those names is removed, the rest kept in order. */
  function RemoveFields(d: Doc, names: seq<string>): (r: Doc)
    ensures |r| <= |d|
    ensures forall m :: Has(r, m) <==> Has(d, m) && m !in names
    ensures forall m | m !in names :: Get(r, m) == Get(d, m)
    ensures names == [] ==> r == d
    decreases |names|
  {
    if names == [] then d
    else
      var r := RemoveFields(RemoveField(d, names[0]), names[1..]);
      assert forall m :: m in names <==> m == names[0] || m in names[1..];
      r
  }

  // ---------------------------------------------------------------------
  // String(v) and JSON.stringify
  // ---------------------------------------------------------------------

  function DigitChar(d: nat): char
    requires d < 10
  {
    "0123456789"[d]
  }

  /** Decimal digits of a natural number. */
  function NatToString(n: nat): (s: string)
    ensures |s| >= 1
  {
    if n < 10 then [DigitChar(n)] else NatToString(n / 10) + [DigitChar(n % 10)]
  }

  /** JavaScript's `String(v)`; an ObjectId turns into its hexadecimal text. */
  function KeyString(v: Value): string {
    match v
    case Undefined => "undefined"
    case Null => "null"
    case Bool(b) => if b then "true" else "false"
    case Num(n) => if n < 0 then "-" + NatToString(-n) else NatToString(n)
    case Str(s) => s
    case Oid(id) => id.hex
  }

  /** A JSON scalar, as JSON.stringify writes a field's value. */
  datatype Json = JNull | JBool(b: bool) | JNum(n: int) | JStr(s: string)

  /**
   * How JSON.stringify writes a value: an ObjectId through its `toJSON`,
   * which is its hexadecimal text; `undefined` is not written at all.
   */
  function ToJson(v: Value): Option<Json> {
    match v
    case Undefined => None
    case Null => Some(JNull)
    case Bool(b) => Some(JBool(b))
    case Num(n) => Some(JNum(n))
    case Str(s) => Some(JStr(s))
    case Oid(id) => Some(JStr(id.hex))
  }

  /** The members JSON.stringify writes for a document, in property order. */
  function Stringify(d: Doc): (r: seq<(string, Json)>)
    ensures |r| <= |d|
  {
    if d == [] then []
    else
      (match ToJson(d[0].value)
       case None => []
       case Some(j) => [(d[0].name, j)])
      + Stringify(d[1..])
  }

  /** No field holds `undefined` (MongoDB never returns one). */
  predicate Defined(d: Doc) {
    forall i | 0 <= i < |d| :: d[i].value != Undefined
  }

  /**
   * Two defined values serialize alike exactly when they are equal or one is
   * an ObjectId and the other is the string of its hexadecimal text.
   */
  lemma SameJson(x: Value, y: Value)
    requires x != Undefined && y != Undefined
    ensures ToJson(x) == ToJson(y) <==>
      x == y || (x.Oid? && y == Str(x.id.hex)) || (y.Oid? && x == Str(y.id.hex))
  {
  }

  /**
   * JSON.stringify equality of documents without `undefined` fields: the
   * same names in the same order, each pair of values serializing alike.
   */
  lemma {:induction false} StringifyEqual(a: Doc, b: Doc)
    requires Defined(a) && Defined(b)
    ensures Stringify(a) == Stringify(b) <==>
      |a| == |b| && forall i | 0 <= i < |a| :: a[i].name == b[i].name && ToJson(a[i].value) == ToJson(b[i].value)
    decreases |a|
  {
    if a != [] && b != [] {
      assert Defined(a[1..]) by {
        forall i | 0 <= i < |a| - 1 ensures a[1..][i].value != Undefined { assert a[1..][i] == a[i + 1]; }
      }
      assert Defined(b[1..]) by {
        forall i | 0 <= i < |b| - 1 ensures b[1..][i].value != Undefined { assert b[1..][i] == b[i + 1]; }
      }
      StringifyEqual(a[1..], b[1..]);
      assert a[0].value != Undefined && b[0].value != Undefined;
      var ja := ToJson(a[0].value).value;
      var jb := ToJson(b[0].value).value;
      assert Stringify(a) == [(a[0].name, ja)] + Stringify(a[1..]);
      assert Stringify(b) == [(b[0].name, jb)] + Stringify(b[1..]);
      if Stringify(a) == Stringify(b) {
        assert Stringify(a)[0] == Stringify(b)[0];
        assert Stringify(a[1..]) == Stringify(a)[1..] == Stringify(b)[1..] == Stringify(b[1..]);
        forall i | 0 <= i < |a| ensures a[i].name == b[i].name && ToJson(a[i].value) == ToJson(b[i].value) {
          if i > 0 {
            assert a[1..][i - 1] == a[i] && b[1..][i - 1] == b[i];
          }
        }
      }
      if |a| == |b| && forall i | 0 <= i < |a| :: a[i].name == b[i].name && ToJson(a[i].value) == ToJson(b[i].value) {
        forall i | 0 <= i < |a| - 1
          ensures a[1..][i].name == b[1..][i].name && ToJson(a[1..][i].value) == ToJson(b[1..][i].value)
        {
          assert a[1..][i] == a[i + 1] && b[1..][i] == b[i + 1];
        }
      }
    } else if a != [] {
      assert a[0].value != Undefined;
      assert |Stringify(a)| > 0;
    } else if b != [] {
      assert b[0].value != Undefined;
      assert |Stringify(b)| > 0;
    }
  }
}
