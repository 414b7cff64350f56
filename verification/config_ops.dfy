/**
 * The overlay engine of farconf/config_ops.py.
 *
 * `Merge(c1, c2, isLeaf)` applies the overlay c2 to the base c1 and
 * `Diff(cFrom, cTo, isLeaf)` computes an overlay that turns cFrom into cTo.
 * Both take the leaf policy `is_leaf` as a total function parameter.
 */
module ConfigOps {
  import opened Values

  type LeafPolicy = (Value, Value) -> bool

  /** `_never`, the default leaf policy: recursion is never cut short. */
  function Never(c1: Value, c2: Value): (r: bool)
    ensures !r
  {
    false
  }

  /** Python's `isinstance(v, Sequence)`: lists, and also strings. */
  predicate IsSequence(v: Value)
  {
    v.Arr? || v.Str?
  }

  /** `is_sequence_and_not_str`: a sequence that is not a string. */
  function IsSequenceAndNotStr(v: Value): (r: bool)
    ensures r <==> IsSequence(v) && !v.Str?
  {
    v.Arr?
  }

  /** Python's slice `s[n:]`, which is empty when n is past the end. */
  function From(s: seq<Value>, n: nat): seq<Value>
  {
    if n < |s| then s[n..] else []
  }

  // ---------------------------------------------------------------------
  // config_merge

  function Merge(c1: Value, c2: Value, isLeaf: LeafPolicy): Value
    decreases c2
  {
    if c2.Atom? then c2.obj
    else if isLeaf(c1, c2) then c2
    else if c1.Obj? then
      if c2.Obj? then Obj(MergeFields(c1.fields, c2.fields, isLeaf)) else c2
    else if IsSequenceAndNotStr(c1) then
      if IsSequenceAndNotStr(c2) then Arr(MergeElems(c1.elems, c2.elems, isLeaf)) else c2
    else c2
  }

  /** The list branch of config_merge: the zipped pairs merged, then the longer list's tail. */
  function MergeElems(a: seq<Value>, b: seq<Value>, isLeaf: LeafPolicy): seq<Value>
    decreases b
  {
    var n := if |a| < |b| then |a| else |b|;
    seq(n, i requires 0 <= i < n => Merge(a[i], b[i], isLeaf)) + From(a, |b|) + From(b, |a|)
  }

  /**
   * The object branch of config_merge: starting from a copy of c1's fields,
   * every field of c2 in turn is merged into the key it names, or added.
   */
  function MergeFields(out: seq<Field>, f2: seq<Field>, isLeaf: LeafPolicy): seq<Field>
    decreases f2
  {
    if f2 == [] then out
    else
      var k := f2[0].key;
      var v := if HasKey(out, k) then Merge(Get(out, k), f2[0].val, isLeaf) else f2[0].val;
      MergeFields(SetKey(out, k, v), f2[1..], isLeaf)
  }

  // ---------------------------------------------------------------------
  // config_diff

  /** `c_to_keys.issuperset(c_from_keys)`. */
  predicate KeysCovered(fFrom: seq<Field>, fTo: seq<Field>)
  {
    forall i :: 0 <= i < |fFrom| ==> HasKey(fTo, fFrom[i].key)
  }

  function Diff(cFrom: Value, cTo: Value, isLeaf: LeafPolicy): Value
    decreases cTo
  {
    if cTo.Atom? then cTo
    else if cFrom.Obj? then
      if isLeaf(cFrom, cTo) then Atom(cTo)
      else if cTo.Obj? then
        if !KeysCovered(cFrom.fields, cTo.fields) then Atom(cTo)
        else Obj(AddedFields(cFrom.fields, cTo.fields) + ChangedFields(cFrom.fields, cTo.fields, isLeaf))
      else cTo
    else if IsSequenceAndNotStr(cFrom) then
      if isLeaf(cFrom, cTo) then Atom(cTo)
      else if IsSequenceAndNotStr(cTo) then
        if |cTo.elems| < |cFrom.elems| then Atom(cTo)
        else Arr(DiffElems(cFrom.elems, cTo.elems, isLeaf))
      else cTo
    else cTo
  }

  /** The fields of fTo whose key fFrom lacks, in fTo's order. */
  function AddedFields(fFrom: seq<Field>, fTo: seq<Field>): seq<Field>
  {
    if fTo == [] then []
    else (if HasKey(fFrom, fTo[0].key) then [] else [fTo[0]]) + AddedFields(fFrom, fTo[1..])
  }

  /** For every shared key whose values differ, the diff of the two values. */
  function ChangedFields(fFrom: seq<Field>, fTo: seq<Field>, isLeaf: LeafPolicy): seq<Field>
    decreases fTo
  {
    if fTo == [] then []
    else
      var k := fTo[0].key;
      (if HasKey(fFrom, k) && !Same(Get(fFrom, k), fTo[0].val)
       then [Field(k, Diff(Get(fFrom, k), fTo[0].val, isLeaf))]
       else [])
      + ChangedFields(fFrom, fTo[1..], isLeaf)
  }

  /**
   * The list branch of config_diff, on the suffixes a = c_from[i:] and
   * b = out[i:]: stop as soon as the rest is unchanged, otherwise diff
   * element i and go on; past the end of c_from the rest of c_to is kept.
   */
  function DiffElems(a: seq<Value>, b: seq<Value>, isLeaf: LeafPolicy): seq<Value>
    requires |a| <= |b|
    decreases b
  {
    if a == [] then b
    else if SameSeq(b, a) then []
    else [Diff(a[0], b[0], isLeaf)] + DiffElems(a[1..], b[1..], isLeaf)
  }

  /** One turn of the loop in DiffList keeps its invariant. */
  lemma DiffListStep(cFrom: seq<Value>, cTo: seq<Value>, isLeaf: LeafPolicy, i: nat, out: seq<Value>)
    requires |cFrom| <= |cTo| && i < |cFrom| && |out| == |cTo| && out[i..] == cTo[i..]
    requires DiffElems(cFrom, cTo, isLeaf) == out[..i] + DiffElems(cFrom[i..], cTo[i..], isLeaf)
    requires !SameSeq(out[i..], cFrom[i..])
    ensures out[i := Diff(cFrom[i], out[i], isLeaf)][i + 1..] == cTo[i + 1..]
    ensures DiffElems(cFrom, cTo, isLeaf)
         == out[i := Diff(cFrom[i], out[i], isLeaf)][..i + 1] + DiffElems(cFrom[i + 1..], cTo[i + 1..], isLeaf)
  {
    var a, b := cFrom[i..], cTo[i..];
    assert out[i] == cTo[i] && out[i + 1..] == cTo[i + 1..] by {
      assert out[i..][0] == out[i] && out[i..][1..] == out[i + 1..];
    }
    assert a[0] == cFrom[i] && b[0] == cTo[i];
    assert a[1..] == cFrom[i + 1..] && b[1..] == cTo[i + 1..];
    DiffElemsCons(a, b, isLeaf);
    var d, rest := Diff(cFrom[i], cTo[i], isLeaf), DiffElems(cFrom[i + 1..], cTo[i + 1..], isLeaf);
    UpdateSlices(out, i, d);
    ConcatAssoc(out[..i], [d], rest);
  }

  /** Where the remaining lists differ, the diff starts with the diff of their heads. */
  lemma DiffElemsCons(a: seq<Value>, b: seq<Value>, isLeaf: LeafPolicy)
    requires a != [] && |a| <= |b| && !SameSeq(b, a)
    ensures DiffElems(a, b, isLeaf) == [Diff(a[0], b[0], isLeaf)] + DiffElems(a[1..], b[1..], isLeaf)
  {
  }

  /** Proof helper (sequence algebra), stated apart so the proofs that use it stay small. */
  lemma UpdateSlices(s: seq<Value>, i: nat, x: Value)
    requires i < |s|
    ensures s[i := x][..i + 1] == s[..i] + [x]
    ensures s[i := x][i + 1..] == s[i + 1..]
  {
  }

  /** Proof helper (sequence algebra), stated apart so the proofs that use it stay small. */
  lemma ConcatAssoc(a: seq<Value>, b: seq<Value>, c: seq<Value>)
    ensures a + (b + c) == (a + b) + c
  {
  }

  /** The loop of config_diff's list branch, which rewrites `out` in place and may return early. */
  method DiffList(cFrom: seq<Value>, cTo: seq<Value>, isLeaf: LeafPolicy) returns (out: seq<Value>)
    requires |cFrom| <= |cTo|
    ensures out == DiffElems(cFrom, cTo, isLeaf)
  {
    out := cTo;
    assert cFrom[0..] == cFrom && cTo[0..] == cTo;
    for i := 0 to |cFrom|
      invariant |out| == |cTo|
      invariant out[i..] == cTo[i..]
      invariant DiffElems(cFrom, cTo, isLeaf) == out[..i] + DiffElems(cFrom[i..], cTo[i..], isLeaf)
    {
      if SameSeq(out[i..], cFrom[i..]) {
        return out[..i];
      }
      DiffListStep(cFrom, cTo, isLeaf, i, out);
      out := out[i := Diff(cFrom[i], out[i], isLeaf)];
    }
    assert cFrom[|cFrom|..] == [];
  }

  // ---------------------------------------------------------------------
  // Properties of config_merge

  /** An Atom overlay is unwrapped exactly once, whatever the base and the policy. */
  lemma MergeAtomUnwraps(c1: Value, v: Value, isLeaf: LeafPolicy)
    ensures Merge(c1, Atom(v), isLeaf) == v
    ensures Merge(Int(2), Atom(Atom(Int(3))), isLeaf) == Atom(Int(3))
  {
  }

  /** When the policy calls the pair a leaf, the overlay is taken as it is. */
  lemma MergeLeafWins(c1: Value, c2: Value, isLeaf: LeafPolicy)
    requires !c2.Atom? && isLeaf(c1, c2)
    ensures Merge(c1, c2, isLeaf) == c2
  {
  }

  /** Unless both sides are dicts or both are lists, the overlay overwrites the base. */
  lemma MergeOverwrites(c1: Value, c2: Value, isLeaf: LeafPolicy)
    requires !c2.Atom?
    requires !(c1.Obj? && c2.Obj?) && !(c1.Arr? && c2.Arr?)
    ensures Merge(c1, c2, isLeaf) == c2
  {
  }

  /** What the fold over an overlay dict leaves at key k. */
  function MergedAt(out: seq<Field>, f2: seq<Field>, k: string, isLeaf: LeafPolicy): Value
    requires HasKey(out, k) || HasKey(f2, k)
  {
    if !HasKey(f2, k) then Get(out, k)
    else if HasKey(out, k) then Merge(Get(out, k), Get(f2, k), isLeaf)
    else Get(f2, k)
  }

  /**
   * The object merge keeps every key of both sides: keys only in the base keep
   * their value, keys only in the overlay are copied, shared keys are merged.
   */
  lemma {:induction false} MergeFieldsSpec(out: seq<Field>, f2: seq<Field>, isLeaf: LeafPolicy, k: string)
    requires DistinctKeys(f2)
    ensures HasKey(MergeFields(out, f2, isLeaf), k) <==> HasKey(out, k) || HasKey(f2, k)
    ensures HasKey(MergeFields(out, f2, isLeaf), k) ==>
      Get(MergeFields(out, f2, isLeaf), k) == MergedAt(out, f2, k, isLeaf)
    decreases f2
  {
    if f2 != [] {
      var k0 := f2[0].key;
      var v0 := if HasKey(out, k0) then Merge(Get(out, k0), f2[0].val, isLeaf) else f2[0].val;
      var next := SetKey(out, k0, v0);
      DistinctTail(f2);
      KeysCons(f2);
      MergeFieldsSpec(next, f2[1..], isLeaf, k);
      SetKeyKeys(out, k0, v0);
      if HasKey(next, k) {
        SetKeyGet(out, k0, v0, k);
      }
    }
  }

  /** AddedFields only looks at which keys the base has. */
  lemma {:induction false} AddedFieldsCongruent(o1: seq<Field>, o2: seq<Field>, f: seq<Field>)
    requires forall i :: 0 <= i < |f| ==> (HasKey(o1, f[i].key) <==> HasKey(o2, f[i].key))
    ensures AddedFields(o1, f) == AddedFields(o2, f)
  {
    if f != [] {
      AddedFieldsCongruent(o1, o2, f[1..]);
    }
  }

  /** Setting a key that f does not mention does not change which fields of f are new. */
  lemma AddedFieldsAfterSet(out: seq<Field>, k: string, v: Value, f: seq<Field>)
    requires !HasKey(f, k)
    ensures AddedFields(SetKey(out, k, v), f) == AddedFields(out, f)
  {
    SetKeyKeys(out, k, v);
    forall i | 0 <= i < |f| ensures HasKey(SetKey(out, k, v), f[i].key) <==> HasKey(out, f[i].key) {
      assert Keys(f)[i] == f[i].key;
    }
    AddedFieldsCongruent(SetKey(out, k, v), out, f);
  }

  /** Proof helper (sequence algebra), stated apart so the proofs that use it stay small. */
  lemma KeysAssoc(a: seq<string>, b: seq<string>, c: seq<string>)
    ensures (a + b) + c == a + (b + c)
  {
  }

  /** One step of the fold, seen through the keys only. */
  lemma MergeFieldsKeysStep(out: seq<Field>, f: seq<Field>, next: seq<string>, r: seq<string>)
    requires f != []
    requires next == if HasKey(out, f[0].key) then Keys(out) else Keys(out) + [f[0].key]
    requires r == next + Keys(AddedFields(out, f[1..]))
    ensures r == Keys(out) + Keys(AddedFields(out, f))
  {
    var rest := AddedFields(out, f[1..]);
    if HasKey(out, f[0].key) {
      assert AddedFields(out, f) == [] + rest;
      assert [] + rest == rest;
    } else {
      var added := AddedFields(out, f);
      assert added == [f[0]] + rest;
      assert added[0] == f[0] && added[1..] == rest;
      KeysHead(added);
      KeysAssoc(Keys(out), [f[0].key], Keys(rest));
    }
  }

  /** Key order after an object merge: the base's keys, then the overlay's new keys in its order. */
  lemma {:induction false} MergeFieldsKeys(out: seq<Field>, f2: seq<Field>, isLeaf: LeafPolicy)
    requires DistinctKeys(f2)
    ensures Keys(MergeFields(out, f2, isLeaf)) == Keys(out) + Keys(AddedFields(out, f2))
    decreases f2
  {
    if f2 != [] {
      var k0 := f2[0].key;
      var v0 := if HasKey(out, k0) then Merge(Get(out, k0), f2[0].val, isLeaf) else f2[0].val;
      var next := SetKey(out, k0, v0);
      DistinctTail(f2);
      MergeFieldsKeys(next, f2[1..], isLeaf);
      SetKeyKeys(out, k0, v0);
      AddedFieldsAfterSet(out, k0, v0, f2[1..]);
      MergeFieldsKeysStep(out, f2, Keys(next), Keys(MergeFields(out, f2, isLeaf)));
    }
  }

  /** Merging two dicts never loses a key and merges the shared ones recursively. */
  lemma MergeObjects(c1: Value, c2: Value, isLeaf: LeafPolicy)
    requires c1.Obj? && c2.Obj? && !isLeaf(c1, c2) && DistinctKeys(c2.fields)
    ensures Merge(c1, c2, isLeaf).Obj?
    ensures Keys(Merge(c1, c2, isLeaf).fields) == Keys(c1.fields) + Keys(AddedFields(c1.fields, c2.fields))
    ensures forall k :: HasKey(Merge(c1, c2, isLeaf).fields, k) <==> HasKey(c1.fields, k) || HasKey(c2.fields, k)
    ensures forall k :: HasKey(Merge(c1, c2, isLeaf).fields, k) ==>
      Get(Merge(c1, c2, isLeaf).fields, k) == MergedAt(c1.fields, c2.fields, k, isLeaf)
  {
    MergeFieldsKeys(c1.fields, c2.fields, isLeaf);
    forall k ensures HasKey(MergeFields(c1.fields, c2.fields, isLeaf), k) <==> HasKey(c1.fields, k) || HasKey(c2.fields, k)
      ensures HasKey(MergeFields(c1.fields, c2.fields, isLeaf), k) ==>
        Get(MergeFields(c1.fields, c2.fields, isLeaf), k) == MergedAt(c1.fields, c2.fields, k, isLeaf)
    {
      MergeFieldsSpec(c1.fields, c2.fields, isLeaf, k);
    }
  }

  /**
   * Two lists merge element by element over the shorter length; the rest
   * comes from whichever list is longer.
   */
  lemma MergeElemsSpec(a: seq<Value>, b: seq<Value>, isLeaf: LeafPolicy)
    ensures |MergeElems(a, b, isLeaf)| == if |a| < |b| then |b| else |a|
    ensures forall i :: 0 <= i < |a| && i < |b| ==> MergeElems(a, b, isLeaf)[i] == Merge(a[i], b[i], isLeaf)
    ensures forall i :: |b| <= i < |a| ==> MergeElems(a, b, isLeaf)[i] == a[i]
    ensures forall i :: |a| <= i < |b| ==> MergeElems(a, b, isLeaf)[i] == b[i]
  {
  }

  lemma MergeListExamples()
    ensures Merge(Arr([Int(2), Int(3)]), Arr([Int(4)]), Never) == Arr([Int(4), Int(3)])
    ensures Merge(Arr([Int(2), Int(3)]), Arr([Int(4), Int(5), Int(6)]), Never) == Arr([Int(4), Int(5), Int(6)])
    ensures Merge(Arr([Int(1), Int(2)]), Arr([]), Never) == Arr([Int(1), Int(2)])
  {
    MergeElemsSpec([Int(2), Int(3)], [Int(4)], Never);
    MergeElemsSpec([Int(2), Int(3)], [Int(4), Int(5), Int(6)], Never);
    MergeElemsSpec([Int(1), Int(2)], [], Never);
  }

  // ---------------------------------------------------------------------
  // Properties of config_diff

  /** The cases in which config_diff gives up on an overlay and answers with an Atom. */
  predicate NeedsAtom(cFrom: Value, cTo: Value, isLeaf: LeafPolicy)
  {
    || cTo.Atom?
    || ((cFrom.Obj? || cFrom.Arr?) && isLeaf(cFrom, cTo))
    || (cFrom.Obj? && cTo.Obj? && !KeysCovered(cFrom.fields, cTo.fields))
    || (cFrom.Arr? && cTo.Arr? && |cTo.elems| < |cFrom.elems|)
  }

  /** Diff answers with an Atom in exactly the cases of NeedsAtom, and then wraps the target once. */
  lemma DiffAtomExactly(cFrom: Value, cTo: Value, isLeaf: LeafPolicy)
    ensures Diff(cFrom, cTo, isLeaf).Atom? <==> NeedsAtom(cFrom, cTo, isLeaf)
    ensures Diff(cFrom, cTo, isLeaf).Atom? ==>
      Diff(cFrom, cTo, isLeaf) == if cTo.Atom? then cTo else Atom(cTo)
  {
  }

  /** A dict target that is not a superset of the base's keys becomes an Atom. */
  lemma DiffExamples()
    ensures Diff(Obj([Field("a", Int(2)), Field("b", Int(3))]), Obj([Field("a", Int(4)), Field("c", Int(5))]), Never)
         == Atom(Obj([Field("a", Int(4)), Field("c", Int(5))]))
    ensures Diff(Arr([Int(2), Int(3)]), Arr([Int(4)]), Never) == Atom(Arr([Int(4)]))
    ensures Diff(Arr([Int(2), Int(3)]), Atom(Arr([Int(2), Int(3)])), Never) == Atom(Arr([Int(2), Int(3)]))
  {
    var from := [Field("a", Int(2)), Field("b", Int(3))];
    var to := [Field("a", Int(4)), Field("c", Int(5))];
    assert !HasKey(to, "b") by {
      assert Keys(to) == ["a", "c"];
    }
    assert from[1].key == "b";
    assert !KeysCovered(from, to);
  }

  lemma {:induction false} AddedFieldsSpec(fFrom: seq<Field>, fTo: seq<Field>, k: string)
    ensures HasKey(AddedFields(fFrom, fTo), k) <==> HasKey(fTo, k) && !HasKey(fFrom, k)
    ensures HasKey(AddedFields(fFrom, fTo), k) ==> Get(AddedFields(fFrom, fTo), k) == Get(fTo, k)
  {
    if fTo != [] {
      var head := if HasKey(fFrom, fTo[0].key) then [] else [fTo[0]];
      AddedFieldsSpec(fFrom, fTo[1..], k);
      GetAppend(head, AddedFields(fFrom, fTo[1..]), k);
      KeysCons(fTo);
      if head != [] {
        KeysCons(head);
      }
    }
  }

  lemma {:induction false} AddedFieldsDistinct(fFrom: seq<Field>, fTo: seq<Field>)
    requires DistinctKeys(fTo)
    ensures DistinctKeys(AddedFields(fFrom, fTo))
  {
    if fTo != [] {
      DistinctTail(fTo);
      AddedFieldsDistinct(fFrom, fTo[1..]);
      var rest := AddedFields(fFrom, fTo[1..]);
      if !HasKey(fFrom, fTo[0].key) {
        forall k | HasKey([fTo[0]], k) ensures !HasKey(rest, k) {
          KeysCons([fTo[0]]);
          AddedFieldsSpec(fFrom, fTo[1..], k);
        }
        DistinctAppend([fTo[0]], rest);
      }
    }
  }

  lemma {:induction false} ChangedFieldsSpec(fFrom: seq<Field>, fTo: seq<Field>, isLeaf: LeafPolicy, k: string)
    requires DistinctKeys(fTo)
    ensures HasKey(ChangedFields(fFrom, fTo, isLeaf), k) <==>
      HasKey(fTo, k) && HasKey(fFrom, k) && !Same(Get(fFrom, k), Get(fTo, k))
    ensures HasKey(ChangedFields(fFrom, fTo, isLeaf), k) ==>
      Get(ChangedFields(fFrom, fTo, isLeaf), k) == Diff(Get(fFrom, k), Get(fTo, k), isLeaf)
    decreases fTo
  {
    if fTo != [] {
      var k0 := fTo[0].key;
      var head := if HasKey(fFrom, k0) && !Same(Get(fFrom, k0), fTo[0].val)
        then [Field(k0, Diff(Get(fFrom, k0), fTo[0].val, isLeaf))] else [];
      DistinctTail(fTo);
      ChangedFieldsSpec(fFrom, fTo[1..], isLeaf, k);
      GetAppend(head, ChangedFields(fFrom, fTo[1..], isLeaf), k);
      KeysCons(fTo);
      if head != [] {
        KeysCons(head);
      }
    }
  }

  lemma {:induction false} ChangedFieldsDistinct(fFrom: seq<Field>, fTo: seq<Field>, isLeaf: LeafPolicy)
    requires DistinctKeys(fTo)
    ensures DistinctKeys(ChangedFields(fFrom, fTo, isLeaf))
    decreases fTo
  {
    if fTo != [] {
      var k0 := fTo[0].key;
      DistinctTail(fTo);
      ChangedFieldsDistinct(fFrom, fTo[1..], isLeaf);
      var rest := ChangedFields(fFrom, fTo[1..], isLeaf);
      if HasKey(fFrom, k0) && !Same(Get(fFrom, k0), fTo[0].val) {
        var head := [Field(k0, Diff(Get(fFrom, k0), fTo[0].val, isLeaf))];
        forall k | HasKey(head, k) ensures !HasKey(rest, k) {
          KeysCons(head);
          ChangedFieldsSpec(fFrom, fTo[1..], isLeaf, k);
        }
        DistinctAppend(head, rest);
      }
    }
  }

  /** The two halves of an object diff never name the same key. */
  lemma DiffFieldsDistinct(fFrom: seq<Field>, fTo: seq<Field>, isLeaf: LeafPolicy)
    requires DistinctKeys(fTo)
    ensures DistinctKeys(AddedFields(fFrom, fTo) + ChangedFields(fFrom, fTo, isLeaf))
  {
    AddedFieldsDistinct(fFrom, fTo);
    ChangedFieldsDistinct(fFrom, fTo, isLeaf);
    forall k | HasKey(AddedFields(fFrom, fTo), k) ensures !HasKey(ChangedFields(fFrom, fTo, isLeaf), k) {
      AddedFieldsSpec(fFrom, fTo, k);
      ChangedFieldsSpec(fFrom, fTo, isLeaf, k);
    }
    DistinctAppend(AddedFields(fFrom, fTo), ChangedFields(fFrom, fTo, isLeaf));
  }

  /**
   * An object diff holds exactly the keys new in the target, with their full
   * values, and the shared keys whose values differ, with the diff of the two.
   */
  lemma DiffObjects(cFrom: Value, cTo: Value, isLeaf: LeafPolicy)
    requires cFrom.Obj? && cTo.Obj? && !isLeaf(cFrom, cTo)
    requires KeysCovered(cFrom.fields, cTo.fields) && DistinctKeys(cTo.fields)
    ensures Diff(cFrom, cTo, isLeaf).Obj? && DistinctKeys(Diff(cFrom, cTo, isLeaf).fields)
    ensures forall k :: HasKey(Diff(cFrom, cTo, isLeaf).fields, k) <==>
      HasKey(cTo.fields, k) && (!HasKey(cFrom.fields, k) || !Same(Get(cFrom.fields, k), Get(cTo.fields, k)))
    ensures forall k :: HasKey(Diff(cFrom, cTo, isLeaf).fields, k) ==>
      Get(Diff(cFrom, cTo, isLeaf).fields, k)
      == if HasKey(cFrom.fields, k) then Diff(Get(cFrom.fields, k), Get(cTo.fields, k), isLeaf) else Get(cTo.fields, k)
  {
    var ff, tf := cFrom.fields, cTo.fields;
    DiffFieldsDistinct(ff, tf, isLeaf);
    forall k
      ensures HasKey(Diff(cFrom, cTo, isLeaf).fields, k) <==>
        HasKey(tf, k) && (!HasKey(ff, k) || !Same(Get(ff, k), Get(tf, k)))
      ensures HasKey(Diff(cFrom, cTo, isLeaf).fields, k) ==>
        Get(Diff(cFrom, cTo, isLeaf).fields, k)
        == if HasKey(ff, k) then Diff(Get(ff, k), Get(tf, k), isLeaf) else Get(tf, k)
    {
      AddedFieldsSpec(ff, tf, k);
      ChangedFieldsSpec(ff, tf, isLeaf, k);
      GetAppend(AddedFields(ff, tf), ChangedFields(ff, tf, isLeaf), k);
    }
  }

  /**
   * A list diff keeps the element-wise diffs up to the first index from which
   * the rest of the two lists is equal, and stops there; the part of the
   * target past the end of the base is copied.
   */
  lemma {:induction false} DiffElemsSpec(a: seq<Value>, b: seq<Value>, isLeaf: LeafPolicy)
    requires |a| <= |b|
    ensures |DiffElems(a, b, isLeaf)| <= |b|
    ensures forall i :: 0 <= i < |DiffElems(a, b, isLeaf)| && i < |a| ==> DiffElems(a, b, isLeaf)[i] == Diff(a[i], b[i], isLeaf)
    ensures forall i :: |a| <= i < |DiffElems(a, b, isLeaf)| ==> DiffElems(a, b, isLeaf)[i] == b[i]
    ensures |DiffElems(a, b, isLeaf)| < |b| ==>
      |a| == |b| && SameSeq(b[|DiffElems(a, b, isLeaf)|..], a[|DiffElems(a, b, isLeaf)|..])
    ensures forall j :: 0 <= j < |DiffElems(a, b, isLeaf)| && j < |a| ==> !SameSeq(b[j..], a[j..])
    decreases b
  {
    var d := DiffElems(a, b, isLeaf);
    if a == [] {
    } else if SameSeq(b, a) {
      assert |CanonSeq(b)| == |CanonSeq(a)|;
      assert b[0..] == b && a[0..] == a;
    } else {
      var d' := DiffElems(a[1..], b[1..], isLeaf);
      DiffElemsSpec(a[1..], b[1..], isLeaf);
      assert d == [Diff(a[0], b[0], isLeaf)] + d';
      forall i | 0 < i < |d| && i < |a| ensures d[i] == Diff(a[i], b[i], isLeaf) {
        assert d[i] == d'[i - 1];
      }
      forall i | |a| <= i < |d| ensures d[i] == b[i] {
        assert d[i] == d'[i - 1];
      }
      if |d| < |b| {
        assert b[1..][|d'|..] == b[|d|..] && a[1..][|d'|..] == a[|d|..];
      }
      forall j | 0 < j < |d| && j < |a| ensures !SameSeq(b[j..], a[j..]) {
        assert b[1..][j - 1..] == b[j..] && a[1..][j - 1..] == a[j..];
      }
      assert b[0..] == b && a[0..] == a;
    }
  }

  /** Diffing a value against an equal one gives the empty overlay, unless the policy says leaf. */
  lemma DiffOfEqual(cFrom: Value, cTo: Value, isLeaf: LeafPolicy)
    requires Same(cFrom, cTo) && !isLeaf(cFrom, cTo)
    requires cTo.Obj? ==> DistinctKeys(cTo.fields)
    ensures cFrom.Obj? ==> Diff(cFrom, cTo, isLeaf) == Obj([])
    ensures cFrom.Arr? ==> Diff(cFrom, cTo, isLeaf) == Arr([])
  {
    if cFrom.Obj? {
      assert cTo.Obj?;
      var ff, tf := cFrom.fields, cTo.fields;
      assert CanonFields(ff) == CanonFields(tf);
      forall i | 0 <= i < |ff| ensures HasKey(tf, ff[i].key) {
        assert Keys(ff)[i] == ff[i].key;
        CanonFieldsAt(ff, ff[i].key);
        CanonFieldsAt(tf, ff[i].key);
      }
      var d := AddedFields(ff, tf) + ChangedFields(ff, tf, isLeaf);
      if d != [] {
        var k := d[0].key;
        FirstKeyPresent(d);
        GetAppend(AddedFields(ff, tf), ChangedFields(ff, tf, isLeaf), k);
        AddedFieldsSpec(ff, tf, k);
        ChangedFieldsSpec(ff, tf, isLeaf, k);
        CanonFieldsAt(ff, k);
        CanonFieldsAt(tf, k);
        assert false;
      }
    } else if cFrom.Arr? {
      assert cTo.Arr? && SameSeq(cTo.elems, cFrom.elems);
      assert |CanonSeq(cTo.elems)| == |CanonSeq(cFrom.elems)|;
    }
  }

  // ---------------------------------------------------------------------
  // The round trip merge(from, diff(from, to)) == to

  lemma MergeElemsCons(a: seq<Value>, b: seq<Value>, isLeaf: LeafPolicy)
    requires a != [] && b != []
    ensures MergeElems(a, b, isLeaf) == [Merge(a[0], b[0], isLeaf)] + MergeElems(a[1..], b[1..], isLeaf)
  {
    var l, t := MergeElems(a, b, isLeaf), MergeElems(a[1..], b[1..], isLeaf);
    MergeElemsShift(a, b, isLeaf);
    assert l == [l[0]] + t;
  }

  /** Past the first position, the merge of two lists is the merge of their tails. */
  lemma MergeElemsShift(a: seq<Value>, b: seq<Value>, isLeaf: LeafPolicy)
    requires a != [] && b != []
    ensures |MergeElems(a, b, isLeaf)| == |MergeElems(a[1..], b[1..], isLeaf)| + 1
    ensures MergeElems(a, b, isLeaf)[0] == Merge(a[0], b[0], isLeaf)
    ensures forall i :: 1 <= i < |MergeElems(a, b, isLeaf)| ==>
      MergeElems(a, b, isLeaf)[i] == MergeElems(a[1..], b[1..], isLeaf)[i - 1]
  {
    var l, t := MergeElems(a, b, isLeaf), MergeElems(a[1..], b[1..], isLeaf);
    MergeElemsSpec(a, b, isLeaf);
    MergeElemsSpec(a[1..], b[1..], isLeaf);
    forall i | 1 <= i < |l| ensures l[i] == t[i - 1] {
      if i < |a| && i < |b| {
        assert a[1..][i - 1] == a[i] && b[1..][i - 1] == b[i];
      } else if i < |a| {
        assert a[1..][i - 1] == a[i];
      } else {
        assert b[1..][i - 1] == b[i];
      }
    }
  }

  lemma SameSeqCons(x: Value, s: seq<Value>, y: Value, t: seq<Value>)
    requires Same(x, y) && SameSeq(s, t)
    ensures SameSeq([x] + s, [y] + t)
  {
    assert CanonSeq([x] + s) == [Canon(x)] + CanonSeq(s);
    assert CanonSeq([y] + t) == [Canon(y)] + CanonSeq(t);
  }

  /**
   * merge(from, diff(from, to)) == to in Python's sense of `==`, for every leaf
   * policy used by diff, provided the target holds no Atom and no duplicate key.
   */
  lemma {:induction false} RoundTrip(cFrom: Value, cTo: Value, isLeaf: LeafPolicy)
    requires WellFormed(cTo) && AtomFree(cTo)
    ensures Same(Merge(cFrom, Diff(cFrom, cTo, isLeaf), Never), cTo)
    decreases cTo
  {
    if cFrom.Obj? && cTo.Obj? && !isLeaf(cFrom, cTo) && KeysCovered(cFrom.fields, cTo.fields) {
      RoundTripFields(cFrom.fields, cTo.fields, isLeaf);
    } else if cFrom.Arr? && cTo.Arr? && !isLeaf(cFrom, cTo) && |cFrom.elems| <= |cTo.elems| {
      RoundTripElems(cFrom.elems, cTo.elems, isLeaf);
    }
  }

  lemma {:induction false} RoundTripFields(ff: seq<Field>, tf: seq<Field>, isLeaf: LeafPolicy)
    requires DistinctKeys(tf) && KeysCovered(ff, tf)
    requires forall i :: 0 <= i < |tf| ==> WellFormed(tf[i].val) && AtomFree(tf[i].val)
    ensures CanonFields(MergeFields(ff, AddedFields(ff, tf) + ChangedFields(ff, tf, isLeaf), Never)) == CanonFields(tf)
    decreases tf
  {
    var d := AddedFields(ff, tf) + ChangedFields(ff, tf, isLeaf);
    DiffFieldsDistinct(ff, tf, isLeaf);
    var r := MergeFields(ff, d, Never);
    forall k ensures HasKey(r, k) <==> HasKey(tf, k) {
      MergeFieldsSpec(ff, d, Never, k);
      GetAppend(AddedFields(ff, tf), ChangedFields(ff, tf, isLeaf), k);
      AddedFieldsSpec(ff, tf, k);
      ChangedFieldsSpec(ff, tf, isLeaf, k);
      if HasKey(ff, k) {
        var i := HasKeyAt(ff, k);
      }
    }
    forall k | HasKey(r, k) ensures Same(Get(r, k), Get(tf, k)) {
      MergeFieldsSpec(ff, d, Never, k);
      GetAppend(AddedFields(ff, tf), ChangedFields(ff, tf, isLeaf), k);
      AddedFieldsSpec(ff, tf, k);
      ChangedFieldsSpec(ff, tf, isLeaf, k);
      var i := HasKeyAt(tf, k);
      if HasKey(ff, k) && !Same(Get(ff, k), Get(tf, k)) {
        RoundTrip(Get(ff, k), tf[i].val, isLeaf);
      }
    }
    SameFields(r, tf);
  }

  lemma {:induction false} RoundTripElems(a: seq<Value>, b: seq<Value>, isLeaf: LeafPolicy)
    requires |a| <= |b|
    requires forall i :: 0 <= i < |b| ==> WellFormed(b[i]) && AtomFree(b[i])
    ensures SameSeq(MergeElems(a, DiffElems(a, b, isLeaf), Never), b)
    decreases b
  {
    var d := DiffElems(a, b, isLeaf);
    if a == [] {
      MergeElemsSpec(a, d, Never);
      assert MergeElems(a, d, Never) == b;
    } else if SameSeq(b, a) {
      MergeElemsSpec(a, d, Never);
      assert MergeElems(a, d, Never) == a;
    } else {
      assert d == [Diff(a[0], b[0], isLeaf)] + DiffElems(a[1..], b[1..], isLeaf);
      MergeElemsCons(a, d, Never);
      assert d[1..] == DiffElems(a[1..], b[1..], isLeaf);
      RoundTrip(a[0], b[0], isLeaf);
      RoundTripElems(a[1..], b[1..], isLeaf);
      SameSeqCons(Merge(a[0], d[0], Never), MergeElems(a[1..], d[1..], Never), b[0], b[1..]);
      assert [b[0]] + b[1..] == b;
    }
  }

  /** The round trip for the default policy `_never` on both sides. */
  lemma RoundTripDefault(cFrom: Value, cTo: Value)
    requires WellFormed(cTo) && AtomFree(cTo)
    ensures Same(Merge(cFrom, Diff(cFrom, cTo, Never), Never), cTo)
  {
    RoundTrip(cFrom, cTo, Never);
  }

  /** The leaf policy "the new value is a dict with a single key". */
  function OneKey(x: Value, y: Value): bool
  {
    y.Obj? && |y.fields| == 1
  }

  /**
   * Merging with the policy the diff was computed with does not restore the
   * target: the diff `{a: 2}` has one key, so the merge takes it whole and
   * drops `b`.
   */
  lemma SamePolicyBreaksRoundTrip()
    ensures Diff(Obj([Field("a", Int(1)), Field("b", Int(1))]), Obj([Field("a", Int(2)), Field("b", Int(1))]), OneKey)
         == Obj([Field("a", Int(2))])
    ensures !Same(Merge(Obj([Field("a", Int(1)), Field("b", Int(1))]), Obj([Field("a", Int(2))]), OneKey),
                  Obj([Field("a", Int(2)), Field("b", Int(1))]))
  {
    var from := [Field("a", Int(1)), Field("b", Int(1))];
    var to := [Field("a", Int(2)), Field("b", Int(1))];
    assert Keys(from) == ["a", "b"] && Keys(to) == ["a", "b"];
    assert KeysCovered(from, to);
    assert AddedFields(from, to) == [] by {
      assert to[1..] == [Field("b", Int(1))];
      assert to[1..][1..] == [];
    }
    assert ChangedFields(from, to, OneKey) == [Field("a", Diff(Int(1), Int(2), OneKey))] by {
      assert to[1..] == [Field("b", Int(1))];
      assert to[1..][1..] == [];
      assert Get(from, "b") == Int(1);
      assert !Same(Int(1), Int(2));
    }
    assert "b" !in CanonFields([Field("a", Int(2))]);
    assert "b" in CanonFields(to);
  }
}
