/** The Vorbis comment packet: a map from an upper-cased field name to the
    distinct values stored under it, in insertion order, and its flattening
    into the `FIELD=value` strings written to a VORBIS_COMMENT block. */
module VorbisComments {
  import opened Primitives

  type CommentMap = map<Bytes, seq<Bytes>>

  predicate Distinct(s: seq<Bytes>)
  {
    forall i, j :: 0 <= i < j < |s| ==> s[i] != s[j]
  }

  /** What insertion keeps true: names are upper-cased and no field holds a
      value twice. */
  predicate Canonical(m: CommentMap)
  {
    forall f :: f in m ==> Upper(f) == f && Distinct(m[f])
  }

  // ------------------------------------------------------------ `split('=')`

  predicate NoSeparator(s: Bytes)
  {
    forall i :: 0 <= i < |s| ==> s[i] != EQUALS
  }

  /** The index of the first '=' at or after `from`, or `|s|` if none. */
  function Separator(s: Bytes, from: nat): (i: nat)
    requires from <= |s|
    ensures from <= i <= |s|
    ensures forall k :: from <= k < i ==> s[k] != EQUALS
    ensures i < |s| ==> s[i] == EQUALS
    decreases |s| - from
  {
    if from == |s| || s[from] == EQUALS then from else Separator(s, from + 1)
  }

  /** `s.split('=')[0]`: the text before the first '=' (all of it if none). */
  function FieldPart(s: Bytes): (f: Bytes)
    ensures NoSeparator(f)
  {
    s[..Separator(s, 0)]
  }

  /** `s.split('=')[1]`: the text between the first '=' and the next one
      (or the end), `undefined` when there is no '='. */
  function ValuePart(s: Bytes): (v: Option<Bytes>)
    ensures v.None? <==> NoSeparator(s)
    ensures v.Some? ==> NoSeparator(v.value)
  {
    var i := Separator(s, 0);
    if i == |s| then None else Some(s[i + 1..Separator(s, i + 1)])
  }

  /** The two pieces are what the text starts with, in order. */
  lemma PartsArePrefix(s: Bytes)
    requires ValuePart(s).Some?
    ensures var f, v := FieldPart(s), ValuePart(s).value;
            |f| + 1 + |v| <= |s| && s[..|f| + 1 + |v|] == f + [EQUALS] + v
  {
    var i := Separator(s, 0);
    var j := Separator(s, i + 1);
    assert s[..j] == s[..i] + [EQUALS] + s[i + 1..j];
  }

  /** The first '=' at or after `from` in `k + [EQUALS] + v` is the one
      between the pieces, or none after it. */
  lemma {:induction false} SeparatorOfPair(k: Bytes, v: Bytes, from: nat)
    requires NoSeparator(k) && NoSeparator(v) && from <= |k|
    ensures Separator(k + [EQUALS] + v, from) == |k|
    ensures Separator(k + [EQUALS] + v, |k| + 1) == |k| + 1 + |v|
    decreases |k| - from
  {
    var s := k + [EQUALS] + v;
    if from < |k| {
      assert s[from] == k[from];
      SeparatorOfPair(k, v, from + 1);
    } else {
      assert forall j :: |k| + 1 <= j < |s| ==> s[j] == v[j - |k| - 1];
      SeparatorPastEnd(s, |k| + 1);
    }
  }

  /** With no '=' from `from` on, the search runs to the end. */
  lemma {:induction false} SeparatorPastEnd(s: Bytes, from: nat)
    requires from <= |s| && forall j :: from <= j < |s| ==> s[j] != EQUALS
    ensures Separator(s, from) == |s|
    decreases |s| - from
  {
    if from < |s| {
      SeparatorPastEnd(s, from + 1);
    }
  }

  /** The text of one stored pair, `key + '=' + value`, splits back into
      the pair when neither part holds a '='. */
  lemma SplitPair(k: Bytes, v: Bytes)
    requires NoSeparator(k) && NoSeparator(v)
    ensures FieldPart(k + [EQUALS] + v) == k
    ensures ValuePart(k + [EQUALS] + v) == Some(v)
  {
    var s := k + [EQUALS] + v;
    SeparatorOfPair(k, v, 0);
    assert s[..|k|] == k;
    assert s[|k| + 1..|s|] == v;
  }

  // ---------------------------------------------------------------- updates

  /** The shared step of `_addComment` and `addComment`: upper-case the
      field, create its list if absent, append the value unless present. */
  function Insert(m: CommentMap, field: Bytes, value: Bytes): (r: CommentMap)
    ensures r.Keys == m.Keys + {Upper(field)}
    ensures forall f :: f in m && f != Upper(field) ==> f in r && r[f] == m[f]
    ensures var old_ := if Upper(field) in m then m[Upper(field)] else [];
            r[Upper(field)] == if value in old_ then old_ else old_ + [value]
  {
    var key := Upper(field);
    var stored := if key in m then m[key] else [];
    m[key := if value in stored then stored else stored + [value]]
  }

  /** The value just inserted is found under the field, whatever its case. */
  lemma InsertThenGet(m: CommentMap, field: Bytes, value: Bytes)
    ensures Get(Insert(m, field, value), field).Some?
    ensures value in Get(Insert(m, field, value), field).value
  {
  }

  /** A second identical insertion changes nothing. */
  lemma InsertIdempotent(m: CommentMap, field: Bytes, value: Bytes)
    ensures Insert(Insert(m, field, value), field, value) == Insert(m, field, value)
  {
    var r := Insert(m, field, value);
    assert value in r[Upper(field)];
  }

  /** The field's case does not matter. */
  lemma InsertIgnoresCase(m: CommentMap, field: Bytes, value: Bytes)
    ensures Insert(m, field, value) == Insert(m, Upper(field), value)
  {
    UpperIdempotent(field);
  }

  lemma InsertKeepsCanonical(m: CommentMap, field: Bytes, value: Bytes)
    requires Canonical(m)
    ensures Canonical(Insert(m, field, value))
  {
    var r := Insert(m, field, value);
    UpperIdempotent(field);
    forall f | f in r ensures Upper(f) == f && Distinct(r[f]) {
      if f != Upper(field) {
        assert f in m;
      }
    }
  }

  /** `_addComment(text)`, used while parsing: the field is the text before
      the first '=' and the value the text between the first and the second.
      Text without '=' has no value and `undefined.toString()` throws. */
  function AddRawComment(m: CommentMap, text: Bytes): (r: Result<CommentMap>)
    ensures r.Err? <==> NoSeparator(text)
    ensures r.Err? ==> r.error == CommentWithoutValue
  {
    match ValuePart(text)
    case None => Err(CommentWithoutValue)
    case Some(value) => Ok(Insert(m, FieldPart(text), value))
  }

  /** Comments read while parsing keep the map canonical. */
  lemma AddRawCommentKeepsCanonical(m: CommentMap, text: Bytes)
    requires Canonical(m) && AddRawComment(m, text).Ok?
    ensures Canonical(AddRawComment(m, text).value)
  {
    InsertKeepsCanonical(m, FieldPart(text), ValuePart(text).value);
  }

  /** A stored pair written as `key=value` is read back as the same pair. */
  lemma AddRawCommentOfPair(m: CommentMap, k: Bytes, v: Bytes)
    requires NoSeparator(k) && NoSeparator(v)
    ensures AddRawComment(m, k + [EQUALS] + v) == Ok(Insert(m, k, v))
  {
    SplitPair(k, v);
  }

  /** The pair `addComment(field, value)` inserts, or None when the call
      does nothing: an empty field; or, with no value, a field whose part
      after the first '=' is missing or empty. With no value the field is
      split at '=' and only the text up to the second '=' is kept. */
  function CommentToAdd(field: Bytes, value: Bytes): (r: Option<(Bytes, Bytes)>)
    ensures r.Some? ==> r.value.1 != []
    ensures field == [] ==> r.None?
    ensures field != [] && value != [] ==> r == Some((field, value))
    ensures field != [] && value == [] ==> (r.None? <==> ValuePart(field).None? || ValuePart(field).value == [])
    ensures field != [] && value == [] && r.Some? ==> r.value == (FieldPart(field), ValuePart(field).value)
  {
    if field == [] then None
    else if value != [] then Some((field, value))
    else
      match ValuePart(field)
      case None => None
      case Some(v) => if v == [] then None else Some((FieldPart(field), v))
  }

  /** `addComment` on the map once the pair is known. */
  function AddComment(m: CommentMap, field: Bytes, value: Bytes): (r: CommentMap)
    ensures CommentToAdd(field, value).None? ==> r == m
    ensures CommentToAdd(field, value).Some? ==>
      var (f, v) := CommentToAdd(field, value).value;
      r == Insert(m, f, v)
  {
    match CommentToAdd(field, value)
    case None => m
    case Some((f, v)) => Insert(m, f, v)
  }

  /** `addComment("FIELD")` and `addComment("FIELD=")` leave the map as it
      was: the text has no value to add. */
  lemma AddCommentWithoutValue(m: CommentMap, field: Bytes)
    requires NoSeparator(field) || ValuePart(field) == Some([])
    ensures AddComment(m, field, []) == m
  {
  }

  /** `addComment("FIELD=value")` and `addComment("FIELD", "value")` agree
      when the value holds no '='. */
  lemma AddCommentForms(m: CommentMap, field: Bytes, value: Bytes)
    requires field != [] && value != []
    requires NoSeparator(field) && NoSeparator(value)
    ensures AddComment(m, field + [EQUALS] + value, []) == AddComment(m, field, value)
  {
    SplitPair(field, value);
  }

  /** The stored values without `value` (`filter(v => v !== value)`). */
  function Without(s: seq<Bytes>, value: Bytes): (r: seq<Bytes>)
    ensures value !in r
    ensures forall x :: x in r <==> x in s && x != value
    ensures |r| <= |s|
    ensures value !in s ==> r == s
  {
    if s == [] then []
    else if s[0] == value then Without(s[1..], value)
    else [s[0]] + Without(s[1..], value)
  }

  /** The filter keeps the other values in their stored order: from a list
      holding `value` once, exactly that one entry is cut out. */
  lemma {:induction false} WithoutKeepsOrder(s: seq<Bytes>, value: Bytes)
    requires Distinct(s) && value in s
    ensures exists k :: 0 <= k < |s| && s[k] == value && Without(s, value) == s[..k] + s[k + 1..]
  {
    if s[0] == value {
      FirstNotInTail(s);
      assert Without(s, value) == s[..0] + s[1..];
    } else {
      assert Distinct(s[1..]);
      WithoutKeepsOrder(s[1..], value);
      var k :| 0 <= k < |s[1..]| && s[1..][k] == value && Without(s[1..], value) == s[1..][..k] + s[1..][k + 1..];
      SpliceCons(s, k);
      assert s[k + 1] == value;
    }
  }

  /** A list of distinct values holds its first one nowhere after. */
  lemma FirstNotInTail(s: seq<Bytes>)
    requires Distinct(s) && s != []
    ensures s[0] !in s[1..]
  {
    forall j | 0 <= j < |s[1..]| ensures s[1..][j] != s[0] {
      assert s[1..][j] == s[j + 1];
    }
  }

  /** A value other than the first is in the tail. */
  lemma InTail(s: seq<Bytes>, x: Bytes)
    requires x in s && x != s[0]
    ensures x in s[1..]
  {
    var j :| 0 <= j < |s| && s[j] == x;
    assert s[1..][j - 1] == x;
  }

  /** Cutting entry `k` out of the tail, then putting the head back, cuts
      entry `k + 1` out of the whole list. */
  lemma SpliceCons(s: seq<Bytes>, k: nat)
    requires k + 1 < |s|
    ensures [s[0]] + (s[1..][..k] + s[1..][k + 1..]) == s[..k + 1] + s[k + 2..]
  {
    assert [s[0]] + s[1..][..k] == s[..k + 1];
    assert s[1..][k + 1..] == s[k + 2..];
  }

  lemma {:induction false} WithoutKeepsDistinct(s: seq<Bytes>, value: Bytes)
    requires Distinct(s)
    ensures Distinct(Without(s, value))
  {
    if s != [] {
      assert Distinct(s[1..]);
      WithoutKeepsDistinct(s[1..], value);
      assert s[0] !in s[1..];
    }
  }

  /** `removeComment(field, value)` as the method evidently means it: the
      value is filtered out of the field's list when the field exists. */
  function RemoveValue(m: CommentMap, field: Bytes, value: Bytes): (r: CommentMap)
    ensures r.Keys == m.Keys
    ensures forall f :: f in m && f != Upper(field) ==> r[f] == m[f]
    ensures Upper(field) in m ==> forall x :: x in r[Upper(field)] <==> x in m[Upper(field)] && x != value
    ensures Upper(field) !in m || value !in m[Upper(field)] ==> r == m
    ensures Upper(field) in m && Distinct(m[Upper(field)]) && value in m[Upper(field)] ==>
      var s := m[Upper(field)];
      exists k :: 0 <= k < |s| && s[k] == value && r[Upper(field)] == s[..k] + s[k + 1..]
  {
    var key := Upper(field);
    if key in m then
      if Distinct(m[key]) && value in m[key] then WithoutKeepsOrder(m[key], value); m[key := Without(m[key], value)]
      else m[key := Without(m[key], value)]
    else m
  }

  /** `removeComment(field)`: the upper-cased field goes; nothing else does. */
  function RemoveField(m: CommentMap, field: Bytes): (r: CommentMap)
    ensures r.Keys == m.Keys - {Upper(field)}
    ensures forall f :: f in r ==> r[f] == m[f]
  {
    m - {Upper(field)}
  }

  /** `getComment(field)`: the values of the upper-cased field, or nothing. */
  function Get(m: CommentMap, field: Bytes): (r: Option<seq<Bytes>>)
    ensures r.Some? <==> Upper(field) in m
    ensures r.Some? ==> r.value == m[Upper(field)]
  {
    if Upper(field) in m then Some(m[Upper(field)]) else None
  }

  lemma RemoveFieldThenGet(m: CommentMap, field: Bytes, other: Bytes)
    ensures Get(RemoveField(m, field), field) == None
    ensures Upper(other) != Upper(field) ==> Get(RemoveField(m, field), other) == Get(m, other)
  {
  }

  lemma RemoveValueKeepsCanonical(m: CommentMap, field: Bytes, value: Bytes)
    requires Canonical(m)
    ensures Canonical(RemoveValue(m, field, value))
  {
    if Upper(field) in m {
      WithoutKeepsDistinct(m[Upper(field)], value);
    }
  }

  // ---------------------------------------------------------- key ordering

  /** The order `Array.prototype.sort` gives the field names: code unit by
      code unit, a proper prefix first. */
  predicate LexLeq(a: Bytes, b: Bytes)
  {
    a == [] || (b != [] && (a[0] < b[0] || (a[0] == b[0] && LexLeq(a[1..], b[1..]))))
  }

  lemma {:induction false} LexTotal(a: Bytes, b: Bytes)
    ensures LexLeq(a, b) || LexLeq(b, a)
  {
    if a != [] && b != [] && a[0] == b[0] {
      LexTotal(a[1..], b[1..]);
    }
  }

  lemma {:induction false} LexAntisymmetric(a: Bytes, b: Bytes)
    requires LexLeq(a, b) && LexLeq(b, a)
    ensures a == b
  {
    if a != [] {
      LexAntisymmetric(a[1..], b[1..]);
      assert a == [a[0]] + a[1..] && b == [b[0]] + b[1..];
    }
  }

  lemma {:induction false} LexTransitive(a: Bytes, b: Bytes, c: Bytes)
    requires LexLeq(a, b) && LexLeq(b, c)
    ensures LexLeq(a, c)
  {
    if a != [] && a[0] == b[0] && b[0] == c[0] {
      LexTransitive(a[1..], b[1..], c[1..]);
    }
  }

  predicate IsLeast(k: Bytes, keys: set<Bytes>)
  {
    k in keys && forall x :: x in keys ==> LexLeq(k, x)
  }

  lemma {:induction false} LeastExists(keys: set<Bytes>)
    requires keys != {}
    ensures exists k :: IsLeast(k, keys)
    decreases |keys|
  {
    var x :| x in keys;
    if keys == {x} {
      LexTotal(x, x);
      assert IsLeast(x, keys);
    } else {
      LeastExists(keys - {x});
      var k :| IsLeast(k, keys - {x});
      LexTotal(k, x);
      if LexLeq(k, x) {
        assert IsLeast(k, keys);
      } else {
        forall y | y in keys ensures LexLeq(x, y) {
          if y != x { LexTransitive(x, k, y); }
          else { LexTotal(x, x); }
        }
        assert IsLeast(x, keys);
      }
    }
  }

  lemma LeastUnique(keys: set<Bytes>)
    ensures forall a, b :: IsLeast(a, keys) && IsLeast(b, keys) ==> a == b
  {
    forall a, b | IsLeast(a, keys) && IsLeast(b, keys) ensures a == b {
      LexAntisymmetric(a, b);
    }
  }

  /** `Object.keys(packet).sort()`: the field names in increasing order. */
  function SortedKeys(keys: set<Bytes>): (r: seq<Bytes>)
    ensures |r| == |keys|
    ensures forall k :: k in r <==> k in keys
    ensures forall i, j :: 0 <= i < j < |r| ==> LexLeq(r[i], r[j]) && r[i] != r[j]
    decreases |keys|
  {
    if keys == {} then []
    else
      LeastExists(keys);
      LeastUnique(keys);
      var k :| IsLeast(k, keys);
      var rest := SortedKeys(keys - {k});
      LeastFirst(k, keys, rest);
      [k] + rest
  }

  /** Putting the least key in front of the others, sorted, sorts them all. */
  lemma LeastFirst(k: Bytes, keys: set<Bytes>, rest: seq<Bytes>)
    requires IsLeast(k, keys)
    requires |rest| == |keys - {k}| && forall x :: x in rest <==> x in keys - {k}
    requires forall i, j :: 0 <= i < j < |rest| ==> LexLeq(rest[i], rest[j]) && rest[i] != rest[j]
    ensures |[k] + rest| == |keys|
    ensures forall x :: x in [k] + rest <==> x in keys
    ensures forall i, j :: 0 <= i < j < |[k] + rest| ==> LexLeq(([k] + rest)[i], ([k] + rest)[j]) && ([k] + rest)[i] != ([k] + rest)[j]
  {
    var r := [k] + rest;
    forall i, j | 0 <= i < j < |r| ensures LexLeq(r[i], r[j]) && r[i] != r[j] {
      if i > 0 {
        assert r[i] == rest[i - 1] && r[j] == rest[j - 1];
      } else {
        assert r[j] == rest[j - 1] && r[j] in keys - {k};
      }
    }
  }

  /** One key paired with each of its values, in order. */
  function KeyPairs(k: Bytes, vs: seq<Bytes>): (r: seq<(Bytes, Bytes)>)
    ensures |r| == |vs| && forall i :: 0 <= i < |r| ==> r[i] == (k, vs[i])
  {
    seq(|vs|, i requires 0 <= i < |vs| => (k, vs[i]))
  }

  /** The (field, value) pairs in the order `toStringArray` visits them. */
  function PairsOf(m: CommentMap, keys: seq<Bytes>): (r: seq<(Bytes, Bytes)>)
    requires forall k :: k in keys ==> k in m
  {
    if keys == [] then []
    else KeyPairs(keys[0], m[keys[0]]) + PairsOf(m, keys[1..])
  }

  /** The values paired with `key`, in order. */
  function ValuesOf(pairs: seq<(Bytes, Bytes)>, key: Bytes): seq<Bytes>
  {
    if pairs == [] then []
    else (if pairs[0].0 == key then [pairs[0].1] else []) + ValuesOf(pairs[1..], key)
  }

  lemma {:induction false} ValuesOfAppend(a: seq<(Bytes, Bytes)>, b: seq<(Bytes, Bytes)>, key: Bytes)
    ensures ValuesOf(a + b, key) == ValuesOf(a, key) + ValuesOf(b, key)
  {
    if a != [] {
      assert (a + b)[0] == a[0] && (a + b)[1..] == a[1..] + b;
      ValuesOfAppend(a[1..], b, key);
      assert ValuesOf(a, key) == (if a[0].0 == key then [a[0].1] else []) + ValuesOf(a[1..], key);
    } else {
      assert a + b == b;
    }
  }

  lemma {:induction false} ValuesOfOneKey(k: Bytes, vs: seq<Bytes>, key: Bytes)
    ensures ValuesOf(KeyPairs(k, vs), key) == if k == key then vs else []
  {
    var p := KeyPairs(k, vs);
    if vs != [] {
      assert p[1..] == KeyPairs(k, vs[1..]);
      ValuesOfOneKey(k, vs[1..], key);
      assert [vs[0]] + vs[1..] == vs;
    }
  }

  /** The pairs for the first key, then the pairs for the rest. */
  lemma PairsOfCons(m: CommentMap, keys: seq<Bytes>)
    requires keys != [] && forall k :: k in keys ==> k in m
    ensures PairsOf(m, keys) == KeyPairs(keys[0], m[keys[0]]) + PairsOf(m, keys[1..])
  {
  }

  /** Every pair's key is one of the keys. */
  lemma {:induction false} PairsOfKeys(m: CommentMap, keys: seq<Bytes>)
    requires forall k :: k in keys ==> k in m
    ensures forall i :: 0 <= i < |PairsOf(m, keys)| ==> PairsOf(m, keys)[i].0 in keys
  {
    if keys != [] {
      var head, tail := KeyPairs(keys[0], m[keys[0]]), PairsOf(m, keys[1..]);
      var p := head + tail;
      PairsOfCons(m, keys);
      PairsOfKeys(m, keys[1..]);
      forall i | 0 <= i < |p| ensures p[i].0 in keys {
        if i >= |head| {
          assert p[i] == tail[i - |head|];
          assert tail[i - |head|].0 in keys[1..];
        }
      }
    }
  }

  /** Over increasing keys the pairs' keys never decrease. */
  lemma {:induction false} PairsOfSorted(m: CommentMap, keys: seq<Bytes>)
    requires forall k :: k in keys ==> k in m
    requires forall i, j :: 0 <= i < j < |keys| ==> LexLeq(keys[i], keys[j])
    ensures forall i, j :: 0 <= i < j < |PairsOf(m, keys)| ==> LexLeq(PairsOf(m, keys)[i].0, PairsOf(m, keys)[j].0)
  {
    if keys != [] {
      var k0 := keys[0];
      var head, tail := KeyPairs(k0, m[k0]), PairsOf(m, keys[1..]);
      var p := head + tail;
      PairsOfCons(m, keys);
      PairsOfSorted(m, keys[1..]);
      PairsOfKeys(m, keys[1..]);
      forall i | 0 <= i < |tail| ensures LexLeq(k0, tail[i].0) {
        var j :| 0 <= j < |keys[1..]| && keys[1..][j] == tail[i].0;
        assert keys[1..][j] == keys[j + 1];
      }
      forall i, j | 0 <= i < j < |p| ensures LexLeq(p[i].0, p[j].0) {
        if j < |head| {
          LexTotal(k0, k0);
        } else if i >= |head| {
          assert p[i] == tail[i - |head|] && p[j] == tail[j - |head|];
        } else {
          assert p[j] == tail[j - |head|];
        }
      }
    }
  }

  /** Over distinct keys each key's values appear in the order they are
      stored, and a key that is not listed has none. */
  lemma {:induction false} PairsOfValues(m: CommentMap, keys: seq<Bytes>)
    requires forall k :: k in keys ==> k in m
    requires forall i, j :: 0 <= i < j < |keys| ==> keys[i] != keys[j]
    ensures forall k :: ValuesOf(PairsOf(m, keys), k) == if k in keys then m[k] else []
  {
    if keys != [] {
      var k0 := keys[0];
      var head, tail := KeyPairs(k0, m[k0]), PairsOf(m, keys[1..]);
      var p := head + tail;
      PairsOfCons(m, keys);
      PairsOfValues(m, keys[1..]);
      assert Distinct(keys);
      FirstNotInTail(keys);
      forall k | true ensures ValuesOf(p, k) == if k in keys then m[k] else [] {
        ValuesOfAppend(head, tail, k);
        ValuesOfOneKey(k0, m[k0], k);
        if k != k0 && k in keys {
          InTail(keys, k);
        }
      }
    }
  }

  /** The pairs `toStringArray` emits. */
  function Pairs(m: CommentMap): (r: seq<(Bytes, Bytes)>)
    ensures forall i :: 0 <= i < |r| ==> r[i].0 in m
    ensures forall i, j :: 0 <= i < j < |r| ==> LexLeq(r[i].0, r[j].0)
    ensures forall k :: k in m ==> ValuesOf(r, k) == m[k]
    ensures forall k :: k !in m ==> ValuesOf(r, k) == []
  {
    var keys := SortedKeys(m.Keys);
    PairsOfSortedKeys(m, keys);
    PairsOf(m, keys)
  }

  /** The pairs over the sorted keys of `m` cover exactly the keys of `m`. */
  lemma PairsOfSortedKeys(m: CommentMap, keys: seq<Bytes>)
    requires keys == SortedKeys(m.Keys)
    ensures forall k :: k in keys ==> k in m
    ensures forall i :: 0 <= i < |PairsOf(m, keys)| ==> PairsOf(m, keys)[i].0 in m
    ensures forall i, j :: 0 <= i < j < |PairsOf(m, keys)| ==> LexLeq(PairsOf(m, keys)[i].0, PairsOf(m, keys)[j].0)
    ensures forall k :: k in m ==> ValuesOf(PairsOf(m, keys), k) == m[k]
    ensures forall k :: k !in m ==> ValuesOf(PairsOf(m, keys), k) == []
  {
    PairsOfKeys(m, keys);
    PairsOfSorted(m, keys);
    PairsOfValues(m, keys);
    forall k ensures k in keys <==> k in m {
    }
  }

  /** `toStringArray`: one `KEY=value` string per stored pair, keys in
      sorted order, each key's values in insertion order. */
  function ToStringArray(m: CommentMap): (r: seq<Bytes>)
    ensures |r| == |Pairs(m)|
    ensures forall i :: 0 <= i < |r| ==> r[i] == Pairs(m)[i].0 + [EQUALS] + Pairs(m)[i].1
  {
    var p := Pairs(m);
    seq(|p|, i requires 0 <= i < |p| => p[i].0 + [EQUALS] + p[i].1)
  }

  /** Every stored (field, value) pair is emitted, and nothing else is:
      the string at each position is a stored key, '=' and one of that
      key's values. */
  lemma ToStringArrayComplete(m: CommentMap, k: Bytes, v: Bytes)
    ensures k + [EQUALS] + v in ToStringArray(m) <== k in m && v in m[k]
    ensures forall i :: 0 <= i < |ToStringArray(m)| ==>
              var (f, x) := Pairs(m)[i];
              f in m && x in m[f] && ToStringArray(m)[i] == f + [EQUALS] + x
  {
    var p := Pairs(m);
    if k in m && v in m[k] {
      PairIndexExists(p, k, v);
      var i :| 0 <= i < |p| && p[i] == (k, v);
      assert ToStringArray(m)[i] == k + [EQUALS] + v;
    }
    forall i | 0 <= i < |p| ensures p[i].0 in m && p[i].1 in m[p[i].0] {
      ValueOfEachPair(p, i);
    }
  }

  /** Each pair's value is among the values paired with its key. */
  lemma {:induction false} ValueOfEachPair(p: seq<(Bytes, Bytes)>, i: nat)
    requires i < |p|
    ensures p[i].1 in ValuesOf(p, p[i].0)
  {
    if i > 0 {
      ValueOfEachPair(p[1..], i - 1);
      assert p[1..][i - 1] == p[i];
    }
  }

  lemma {:induction false} PairIndexExists(p: seq<(Bytes, Bytes)>, k: Bytes, v: Bytes)
    requires v in ValuesOf(p, k)
    ensures exists i :: 0 <= i < |p| && p[i] == (k, v)
  {
    if p[0] == (k, v) {
    } else {
      assert v in ValuesOf(p[1..], k);
      PairIndexExists(p[1..], k, v);
      var i :| 0 <= i < |p[1..]| && p[1..][i] == (k, v);
      assert p[i + 1] == (k, v);
    }
  }

  // ------------------------------------------------- reading the pairs back

  /** The pairs inserted one after the other, as the parser's comment loop
      adds the `KEY=value` strings it reads. */
  function InsertPairs(m: CommentMap, ps: seq<(Bytes, Bytes)>): CommentMap
    decreases |ps|
  {
    if ps == [] then m else InsertPairs(Insert(m, ps[0].0, ps[0].1), ps[1..])
  }

  lemma {:induction false} InsertPairsAppend(m: CommentMap, a: seq<(Bytes, Bytes)>, b: seq<(Bytes, Bytes)>)
    ensures InsertPairs(m, a + b) == InsertPairs(InsertPairs(m, a), b)
    decreases |a|
  {
    if a == [] {
      assert a + b == b;
    } else {
      assert (a + b)[0] == a[0] && (a + b)[1..] == a[1..] + b;
      InsertPairsAppend(Insert(m, a[0].0, a[0].1), a[1..], b);
    }
  }

  lemma InsertPairsCons(m: CommentMap, ps: seq<(Bytes, Bytes)>)
    requires ps != []
    ensures InsertPairs(m, ps) == InsertPairs(Insert(m, ps[0].0, ps[0].1), ps[1..])
  {
  }

  /** The values stored under `k`, none when it is absent. */
  function Stored(m: CommentMap, k: Bytes): seq<Bytes>
  {
    if k in m then m[k] else []
  }

  /** Inserting a value not yet stored under an upper-case key appends it. */
  lemma InsertAppends(m: CommentMap, k: Bytes, v: Bytes)
    requires Upper(k) == k && v !in Stored(m, k)
    ensures Insert(m, k, v) == m[k := Stored(m, k) + [v]]
  {
  }

  /** The first of several distinct values is not among the ones before. */
  lemma FirstIsNew(before: seq<Bytes>, vs: seq<Bytes>)
    requires vs != [] && Distinct(before + vs)
    ensures vs[0] !in before
    ensures Distinct((before + [vs[0]]) + vs[1..])
  {
    var all := before + vs;
    forall j | 0 <= j < |before| ensures before[j] != vs[0] {
      assert all[j] == before[j] && all[|before|] == vs[0];
    }
    assert (before + [vs[0]]) + vs[1..] == all;
  }

  /** Values inserted in order under an upper-case key are appended to
      what it holds, each once. */
  lemma {:induction false} InsertValues(m: CommentMap, k: Bytes, vs: seq<Bytes>)
    requires Upper(k) == k && Distinct(Stored(m, k) + vs) && (k in m || vs != [])
    ensures InsertPairs(m, KeyPairs(k, vs)) == m[k := Stored(m, k) + vs]
    decreases |vs|
  {
    var p := KeyPairs(k, vs);
    if vs == [] {
      assert Stored(m, k) + vs == m[k];
    } else {
      var before := Stored(m, k);
      var m' := m[k := before + [vs[0]]];
      InsertValuesStep(m, k, vs);
      InsertValues(m', k, vs[1..]);
      UpdateTwice(m, k, before + [vs[0]], before + vs);
    }
  }

  /** One value of `InsertValues` goes in, and the rest still meet its
      requirements. */
  lemma InsertValuesStep(m: CommentMap, k: Bytes, vs: seq<Bytes>)
    requires Upper(k) == k && Distinct(Stored(m, k) + vs) && vs != []
    ensures var m' := m[k := Stored(m, k) + [vs[0]]];
            && InsertPairs(m, KeyPairs(k, vs)) == InsertPairs(m', KeyPairs(k, vs[1..]))
            && Distinct(Stored(m', k) + vs[1..]) && Stored(m', k) + vs[1..] == Stored(m, k) + vs
  {
    var before := Stored(m, k);
    FirstIsNew(before, vs);
    InsertFirstValue(m, k, vs);
    assert (before + [vs[0]]) + vs[1..] == before + vs;
  }

  lemma UpdateTwice(m: CommentMap, k: Bytes, a: seq<Bytes>, b: seq<Bytes>)
    ensures m[k := a][k := b] == m[k := b]
  {
  }

  /** The first of the values goes in, then the rest follow. */
  lemma InsertFirstValue(m: CommentMap, k: Bytes, vs: seq<Bytes>)
    requires Upper(k) == k && vs != [] && vs[0] !in Stored(m, k)
    ensures var m' := m[k := Stored(m, k) + [vs[0]]];
            && Stored(m', k) == Stored(m, k) + [vs[0]]
            && InsertPairs(m, KeyPairs(k, vs)) == InsertPairs(m', KeyPairs(k, vs[1..]))
  {
    var p := KeyPairs(k, vs);
    InsertAppends(m, k, vs[0]);
    assert p[0] == (k, vs[0]) && p[1..] == KeyPairs(k, vs[1..]);
    InsertPairsCons(m, p);
  }

  /** What makes a map come back from its strings: canonical, no '=' in a
      key or a value, and no key left with an empty list. */
  predicate Restorable(m: CommentMap)
  {
    && Canonical(m)
    && forall k :: k in m ==> NoSeparator(k) && m[k] != []
                              && forall j :: 0 <= j < |m[k]| ==> NoSeparator(m[k][j])
  }

  /** A list of distinct values starts with one its tail does not hold. */
  lemma DistinctTail(s: seq<Bytes>)
    requires s != [] && Distinct(s)
    ensures s[0] !in s[1..] && Distinct(s[1..])
  {
    forall j | 0 <= j < |s[1..]| ensures s[1..][j] != s[0] {
      assert s[1..][j] == s[j + 1];
    }
  }

  /** Inserting the pairs of distinct keys not yet in `acc` adds exactly
      those keys with their lists. */
  lemma {:induction false} InsertPairsOf(m: CommentMap, keys: seq<Bytes>, acc: CommentMap)
    requires Restorable(m) && Distinct(keys) && forall k :: k in keys ==> k in m && k !in acc
    ensures var r := InsertPairs(acc, PairsOf(m, keys));
            && (forall k :: k in r <==> k in acc || k in keys)
            && (forall k :: k in acc ==> r[k] == acc[k])
            && (forall k :: k in keys ==> r[k] == m[k])
  {
    if keys != [] {
      var k0 := keys[0];
      var acc' := acc[k0 := m[k0]];
      InsertFirstKey(m, keys, acc);
      DistinctTail(keys);
      InsertPairsOf(m, keys[1..], acc');
      assert forall k :: k in keys <==> k == k0 || k in keys[1..] by {
        assert keys == [k0] + keys[1..];
      }
    }
  }

  /** The pairs of the first key go in as that key's whole list. */
  lemma InsertFirstKey(m: CommentMap, keys: seq<Bytes>, acc: CommentMap)
    requires Restorable(m) && keys != [] && (forall k :: k in keys ==> k in m) && keys[0] !in acc
    ensures InsertPairs(acc, PairsOf(m, keys)) == InsertPairs(acc[keys[0] := m[keys[0]]], PairsOf(m, keys[1..]))
  {
    var k0 := keys[0];
    PairsOfCons(m, keys);
    InsertPairsAppend(acc, KeyPairs(k0, m[k0]), PairsOf(m, keys[1..]));
    assert Stored(acc, k0) + m[k0] == m[k0];
    InsertValues(acc, k0, m[k0]);
  }

  /** `_addComment` of every pair `toStringArray` emits, starting from an
      empty packet, rebuilds the map. */
  lemma RebuildFromPairs(m: CommentMap)
    requires Restorable(m)
    ensures InsertPairs(map[], Pairs(m)) == m
  {
    var keys := SortedKeys(m.Keys);
    assert Pairs(m) == PairsOf(m, keys);
    InsertPairsOf(m, keys, map[]);
    var r := InsertPairs(map[], PairsOf(m, keys));
    MapsAgree(r, m, keys);
  }

  /** Two maps over the listed keys that agree on each are equal. */
  lemma MapsAgree(r: CommentMap, m: CommentMap, keys: seq<Bytes>)
    requires forall k :: k in r <==> k in keys
    requires forall k :: k in m <==> k in keys
    requires forall k :: k in keys ==> r[k] == m[k]
    ensures r == m
  {
    assert r.Keys == m.Keys;
  }
}
