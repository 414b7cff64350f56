/**
 * The tree values that farconf manipulates: JSON-shaped configuration trees
 * (None, bool, int, str, list, dict with string keys) plus the `Atom` wrapper
 * of farconf/config_ops.py, which marks a subtree as indivisible.
 *
 * A Python dict is an ordered mapping; it is modelled as a sequence of
 * fields in insertion order. Python's `==` on dicts ignores that order, so
 * `Canon` maps a value to its canonical form (dicts become maps) and
 * `Same(a, b)` is Python's `a == b`.
 */
module Values {

  datatype Option<+T> = None | Some(value: T)

  datatype Result<+T, +E> = Ok(value: T) | Err(error: E)

  datatype Value =
    | Null
    | Bool(b: bool)
    | Int(i: int)
    | Str(s: string)
    | Arr(elems: seq<Value>)
    | Obj(fields: seq<Field>)
    | Atom(obj: Value)

  /** One `key: value` entry of a dict, in insertion order. */
  datatype Field = Field(key: string, val: Value)

  function Keys(f: seq<Field>): (ks: seq<string>)
    ensures |ks| == |f|
    ensures forall i :: 0 <= i < |f| ==> ks[i] == f[i].key
  {
    seq(|f|, i requires 0 <= i < |f| => f[i].key)
  }

  /** Python's `k in d`. */
  predicate HasKey(f: seq<Field>, k: string)
  {
    k in Keys(f)
  }

  /** Python's `d[k]`: the value of the (first) field named k. */
  function Get(f: seq<Field>, k: string): Value
    requires HasKey(f, k)
  {
    if f[0].key == k then f[0].val else Get(f[1..], k)
  }

  /** Python's `d[k] = v`: an existing key keeps its position, a new key goes last. */
  function SetKey(f: seq<Field>, k: string, v: Value): seq<Field>
  {
    if f == [] then [Field(k, v)]
    else if f[0].key == k then [Field(k, v)] + f[1..]
    else [f[0]] + SetKey(f[1..], k, v)
  }

  /** A dict never holds the same key twice. */
  predicate DistinctKeys(f: seq<Field>)
  {
    forall i, j :: 0 <= i < j < |f| ==> f[i].key != f[j].key
  }

  /** Every dict inside v, at any depth, has distinct keys. */
  predicate WellFormed(v: Value)
    decreases v
  {
    match v
    case Arr(s) => forall i :: 0 <= i < |s| ==> WellFormed(s[i])
    case Obj(f) => DistinctKeys(f) && forall i :: 0 <= i < |f| ==> WellFormed(f[i].val)
    case Atom(x) => WellFormed(x)
    case _ => true
  }

  /** No Atom occurs anywhere inside v: v is plain JSON-shaped data. */
  predicate AtomFree(v: Value)
    decreases v
  {
    match v
    case Arr(s) => forall i :: 0 <= i < |s| ==> AtomFree(s[i])
    case Obj(f) => forall i :: 0 <= i < |f| ==> AtomFree(f[i].val)
    case Atom(_) => false
    case _ => true
  }

  /** What json.dumps accepts and json.loads gives back. */
  predicate JsonValue(v: Value)
  {
    WellFormed(v) && AtomFree(v)
  }

  /** A value as Python's `==` sees it: dicts are compared as mappings. */
  datatype Py =
    | PNone
    | PBool(b: bool)
    | PInt(i: int)
    | PStr(s: string)
    | PList(elems: seq<Py>)
    | PDict(entries: map<string, Py>)
    | PAtom(obj: Py)

  function Canon(v: Value): Py
    decreases v
  {
    match v
    case Null => PNone
    case Bool(b) => PBool(b)
    case Int(i) => PInt(i)
    case Str(s) => PStr(s)
    case Arr(s) => PList(CanonSeq(s))
    case Obj(f) => PDict(CanonFields(f))
    case Atom(x) => PAtom(Canon(x))
  }

  function CanonSeq(s: seq<Value>): (r: seq<Py>)
    decreases s
    ensures |r| == |s|
    ensures forall i :: 0 <= i < |s| ==> r[i] == Canon(s[i])
  {
    if s == [] then [] else [Canon(s[0])] + CanonSeq(s[1..])
  }

  /** The mapping a field list denotes; the first field with a key wins, as Get does. */
  function CanonFields(f: seq<Field>): map<string, Py>
    decreases f
  {
    if f == [] then map[] else CanonFields(f[1..])[f[0].key := Canon(f[0].val)]
  }

  /** Python's `a == b` (Atom is a dataclass: equal iff the wrapped objects are). */
  predicate Same(a: Value, b: Value)
  {
    Canon(a) == Canon(b)
  }

  /** Python's `a == b` on two lists, element by element. */
  predicate SameSeq(a: seq<Value>, b: seq<Value>)
  {
    CanonSeq(a) == CanonSeq(b)
  }

  // ---------------------------------------------------------------------
  // Lemmas about field lists

  lemma HasKeyAt(f: seq<Field>, k: string) returns (i: nat)
    requires HasKey(f, k)
    ensures i < |f| && f[i].key == k && Get(f, k) == f[i].val
    ensures forall j :: 0 <= j < i ==> f[j].key != k
  {
    if f[0].key == k {
      i := 0;
    } else {
      assert k in Keys(f[1..]) by {
        var j :| 0 <= j < |f| && Keys(f)[j] == k;
        assert j != 0 && Keys(f[1..])[j - 1] == k;
      }
      var i' := HasKeyAt(f[1..], k);
      i := i' + 1;
    }
  }

  lemma {:induction false} GetAt(f: seq<Field>, i: nat)
    requires DistinctKeys(f) && i < |f|
    ensures HasKey(f, f[i].key) && Get(f, f[i].key) == f[i].val
  {
    assert Keys(f)[i] == f[i].key;
    if i > 0 {
      assert DistinctKeys(f[1..]);
      GetAt(f[1..], i - 1);
      assert f[0].key != f[i].key;
    }
  }

  /** Proof helper (sequence algebra), stated apart so the proofs that use it stay small. */
  lemma KeysHead(f: seq<Field>)
    requires f != []
    ensures Keys(f) == [f[0].key] + Keys(f[1..])
  {
  }

  lemma KeysCons(f: seq<Field>)
    requires f != []
    ensures Keys(f) == [f[0].key] + Keys(f[1..])
    ensures forall k :: HasKey(f, k) <==> k == f[0].key || HasKey(f[1..], k)
  {
  }

  lemma {:induction false} SetKeyKeys(f: seq<Field>, k: string, v: Value)
    ensures Keys(SetKey(f, k, v)) == if HasKey(f, k) then Keys(f) else Keys(f) + [k]
    ensures forall k' :: HasKey(SetKey(f, k, v), k') <==> HasKey(f, k') || k' == k
  {
    SetKeyKeysOrder(f, k, v);
  }

  lemma {:induction false} SetKeyKeysOrder(f: seq<Field>, k: string, v: Value)
    ensures Keys(SetKey(f, k, v)) == if HasKey(f, k) then Keys(f) else Keys(f) + [k]
  {
    var r := SetKey(f, k, v);
    if f == [] {
      assert Keys(r) == [k] && Keys(f) + [k] == [k];
    } else {
      KeysHead(f);
      KeysHead(r);
      if f[0].key != k {
        assert r[1..] == SetKey(f[1..], k, v);
        SetKeyKeysOrder(f[1..], k, v);
        assert HasKey(f, k) == HasKey(f[1..], k);
        if !HasKey(f, k) {
          var a, b := [f[0].key], Keys(f[1..]);
          assert Keys(r) == a + (b + [k]);
          assert a + (b + [k]) == (a + b) + [k];
        }
      } else {
        assert r[1..] == f[1..];
        assert HasKey(f, k);
      }
    }
  }

  lemma {:induction false} SetKeyGet(f: seq<Field>, k: string, v: Value, k': string)
    requires HasKey(SetKey(f, k, v), k')
    ensures k' != k ==> HasKey(f, k')
    ensures Get(SetKey(f, k, v), k') == if k' == k then v else Get(f, k')
  {
    var r := SetKey(f, k, v);
    SetKeyKeys(f, k, v);
    if f != [] {
      KeysCons(f);
      KeysCons(r);
      if f[0].key != k {
        assert r[1..] == SetKey(f[1..], k, v);
        if f[0].key != k' {
          SetKeyGet(f[1..], k, v, k');
        }
      } else {
        assert r[1..] == f[1..];
      }
    }
  }

  lemma {:induction false} SetKeyDistinct(f: seq<Field>, k: string, v: Value)
    requires DistinctKeys(f)
    ensures DistinctKeys(SetKey(f, k, v))
  {
    var r := SetKey(f, k, v);
    if f != [] {
      if f[0].key == k {
        assert r[1..] == f[1..];
      } else {
        SetKeyDistinct(f[1..], k, v);
        var t := SetKey(f[1..], k, v);
        assert r == [f[0]] + t;
        SetKeyKeys(f[1..], k, v);
        forall j | 0 < j < |r| ensures r[0].key != r[j].key {
          assert r[j] == t[j - 1];
          assert Keys(t)[j - 1] == r[j].key;
          if r[j].key != k {
            assert HasKey(f[1..], r[j].key);
            var m := HasKeyAt(f[1..], r[j].key);
            assert f[m + 1].key == r[j].key;
          }
        }
      }
    }
  }

  lemma {:induction false} SetKeyTwice(f: seq<Field>, k: string, v1: Value, v2: Value)
    ensures SetKey(SetKey(f, k, v1), k, v2) == SetKey(f, k, v2)
  {
    if f != [] && f[0].key != k {
      SetKeyTwice(f[1..], k, v1, v2);
      assert SetKey(f, k, v1)[1..] == SetKey(f[1..], k, v1);
    }
  }

  /** Every field after `d[k] = v` is the new one or was there before. */
  lemma {:induction false} SetKeyValues(f: seq<Field>, k: string, v: Value)
    ensures forall i :: 0 <= i < |SetKey(f, k, v)| ==> SetKey(f, k, v)[i] == Field(k, v) || SetKey(f, k, v)[i] in f
  {
    if f != [] {
      SetKeyValues(f[1..], k, v);
      var r := SetKey(f, k, v);
      forall i | 0 < i < |r| ensures r[i] == Field(k, v) || r[i] in f {
        if f[0].key == k {
          assert r[i] == f[i];
        } else {
          assert r[i] == SetKey(f[1..], k, v)[i - 1];
        }
      }
    }
  }

  /** Everything about Python's `d[k] = v` in one place. */
  lemma SetKeyProps(f: seq<Field>, k: string, v: Value)
    ensures Keys(SetKey(f, k, v)) == if HasKey(f, k) then Keys(f) else Keys(f) + [k]
    ensures forall k' :: HasKey(SetKey(f, k, v), k') <==> HasKey(f, k') || k' == k
    ensures forall k' :: HasKey(SetKey(f, k, v), k') ==>
      Get(SetKey(f, k, v), k') == if k' == k then v else Get(f, k')
    ensures DistinctKeys(f) ==> DistinctKeys(SetKey(f, k, v))
  {
    SetKeyKeys(f, k, v);
    forall k' | HasKey(SetKey(f, k, v), k')
      ensures Get(SetKey(f, k, v), k') == if k' == k then v else Get(f, k')
    {
      SetKeyGet(f, k, v, k');
    }
    if DistinctKeys(f) {
      SetKeyDistinct(f, k, v);
    }
  }

  lemma {:induction false} CanonFieldsAt(f: seq<Field>, k: string)
    ensures k in CanonFields(f) <==> HasKey(f, k)
    ensures HasKey(f, k) ==> CanonFields(f)[k] == Canon(Get(f, k))
  {
    if f != [] {
      CanonFieldsAt(f[1..], k);
      assert Keys(f) == [f[0].key] + Keys(f[1..]);
    }
  }

  /** Two field lists are equal as Python dicts when they have the same keys and the same values. */
  lemma SameFields(f: seq<Field>, g: seq<Field>)
    requires forall k :: HasKey(f, k) <==> HasKey(g, k)
    requires forall k :: HasKey(f, k) ==> Same(Get(f, k), Get(g, k))
    ensures CanonFields(f) == CanonFields(g)
  {
    forall k ensures k in CanonFields(f) <==> k in CanonFields(g) {
      CanonFieldsAt(f, k);
      CanonFieldsAt(g, k);
    }
    forall k | k in CanonFields(f) ensures CanonFields(f)[k] == CanonFields(g)[k] {
      CanonFieldsAt(f, k);
      CanonFieldsAt(g, k);
    }
  }

  lemma DistinctTail(f: seq<Field>)
    requires DistinctKeys(f) && f != []
    ensures DistinctKeys(f[1..])
    ensures !HasKey(f[1..], f[0].key)
  {
    forall j | 0 <= j < |f| - 1 ensures Keys(f[1..])[j] != f[0].key {
      assert f[1..][j] == f[j + 1];
    }
  }

  lemma {:induction false} GetAppend(a: seq<Field>, b: seq<Field>, k: string)
    ensures HasKey(a + b, k) <==> HasKey(a, k) || HasKey(b, k)
    ensures HasKey(a + b, k) ==> Get(a + b, k) == if HasKey(a, k) then Get(a, k) else Get(b, k)
  {
    assert Keys(a + b) == Keys(a) + Keys(b);
    if a == [] {
      assert a + b == b;
    } else {
      KeysCons(a);
      assert (a + b)[1..] == a[1..] + b;
      GetAppend(a[1..], b, k);
    }
  }

  lemma DistinctAppend(a: seq<Field>, b: seq<Field>)
    requires DistinctKeys(a) && DistinctKeys(b)
    requires forall k :: HasKey(a, k) ==> !HasKey(b, k)
    ensures DistinctKeys(a + b)
  {
    forall i, j | 0 <= i < j < |a + b| ensures (a + b)[i].key != (a + b)[j].key {
      if j < |a| {
        assert (a + b)[i] == a[i] && (a + b)[j] == a[j];
      } else if i >= |a| {
        assert (a + b)[i] == b[i - |a|] && (a + b)[j] == b[j - |a|];
      } else {
        assert (a + b)[i] == a[i] && (a + b)[j] == b[j - |a|];
        assert a[i].key in Keys(a) && HasKey(a, a[i].key);
        assert b[j - |a|].key in Keys(b) && HasKey(b, b[j - |a|].key);
      }
    }
  }

  lemma KeysAppend(a: seq<Field>, b: seq<Field>)
    ensures Keys(a + b) == Keys(a) + Keys(b)
  {
  }

  lemma FirstKeyPresent(f: seq<Field>)
    requires f != []
    ensures HasKey(f, f[0].key)
  {
    assert Keys(f)[0] == f[0].key;
  }

  /** Proof helper (sequence algebra), stated apart so the proofs that use it stay small. */
  lemma ConsAppend(f: seq<Field>, x: Field)
    requires f != []
    ensures [f[0]] + (f[1..] + [x]) == f + [x]
  {
    assert [f[0]] + f[1..] == f;
  }

  /** Setting a key the dict lacks appends it. */
  lemma {:induction false} SetKeyNew(f: seq<Field>, k: string, v: Value)
    requires !HasKey(f, k)
    ensures SetKey(f, k, v) == f + [Field(k, v)]
  {
    if f != [] {
      KeysHead(f);
      assert f[0].key != k && !HasKey(f[1..], k);
      SetKeyNew(f[1..], k, v);
      assert SetKey(f, k, v) == [f[0]] + (f[1..] + [Field(k, v)]);
      ConsAppend(f, Field(k, v));
    }
  }

  /** Re-setting a key that was appended last replaces it in place. */
  lemma SetKeyLast(pre: seq<Field>, k: string, x: Value, y: Value)
    requires !HasKey(pre, k)
    ensures HasKey(pre + [Field(k, x)], k) && Get(pre + [Field(k, x)], k) == x
    ensures SetKey(pre + [Field(k, x)], k, y) == pre + [Field(k, y)]
  {
    GetAppend(pre, [Field(k, x)], k);
    assert Keys([Field(k, x)]) == [k];
    SetKeyLastRec(pre, k, x, y);
  }

  lemma {:induction false} SetKeyLastRec(pre: seq<Field>, k: string, x: Value, y: Value)
    requires !HasKey(pre, k)
    ensures SetKey(pre + [Field(k, x)], k, y) == pre + [Field(k, y)]
  {
    var s := pre + [Field(k, x)];
    if pre == [] {
      assert s == [Field(k, x)];
    } else {
      assert Keys(pre)[0] == pre[0].key;
      assert pre[0].key != k;
      assert !HasKey(pre[1..], k) by {
        KeysCons(pre);
      }
      assert s[0] == pre[0] && s[1..] == pre[1..] + [Field(k, x)];
      SetKeyLastRec(pre[1..], k, x, y);
      assert SetKey(s, k, y) == [pre[0]] + (pre[1..] + [Field(k, y)]);
      ConsAppend(pre, Field(k, y));
    }
  }
}
