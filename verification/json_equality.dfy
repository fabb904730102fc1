/** Structural equality of decoded JSON bodies, in the comparator's two modes.

    Strict mode is `reflect.DeepEqual` on the decoded values. Weak mode is the pair
    `msiAreEqual` / `sliceAreEqual`: objects are compared key by key, and an array matches an
    array of the same length when every control element has SOME weakly-equal element on the
    experiment side. Matched elements are not consumed, so weak equality is neither a bijection
    between the arrays nor a symmetric relation.

    Both modes are one algorithm parameterised by `Mode`; the four predicates `ValueEq`,
    `SliceEq`, `HasMatch` and `MapEq` recurse together on the structure of the control value. */
module JsonEquality {
  import opened Json

  /** The process-wide comparison switch (`config.WeakCompare`). */
  datatype Mode = Strict | Weak

  /** The control value `v` equals the experiment value `w`. An array must meet an array and
      an object an object; any other value is compared by plain equality. */
  predicate ValueEq(mode: Mode, v: Json, w: Json)
    decreases v, 1
  {
    match v
    case Arr(xs) => w.Arr? && SliceEq(mode, xs, w.elems)
    case Obj(m) => w.Obj? && MapEq(mode, m, w.fields)
    case _ => v == w
  }

  /** Array equality: equal lengths, then position by position (strict) or "every control
      element has some equal experiment element" (weak). */
  predicate SliceEq(mode: Mode, a: seq<Json>, b: seq<Json>)
    decreases Arr(a), 0
  {
    && |a| == |b|
    && match mode
       case Strict => forall i :: 0 <= i < |a| ==> ValueEq(mode, a[i], b[i])
       case Weak => forall i :: 0 <= i < |a| ==> HasMatch(mode, a[i], b)
  }

  /** Some element of `b` equals `v`: the inner scan of the weak array rule. */
  predicate HasMatch(mode: Mode, v: Json, b: seq<Json>)
    decreases v, 2
  {
    exists j :: 0 <= j < |b| && ValueEq(mode, v, b[j])
  }

  /** Object equality: equal key counts, and every control key is present on the experiment
      side with an equal value. */
  predicate MapEq(mode: Mode, a: map<string, Json>, b: map<string, Json>)
    decreases Obj(a), 0
  {
    && |a| == |b|
    && forall k :: k in a ==> k in b && ValueEq(mode, a[k], b[k])
  }

  /** The kinds a matched pair may have: array with array, object with object, and an
      identical value otherwise. */
  predicate SameKind(v: Json, w: Json) {
    match v
    case Arr(_) => w.Arr?
    case Obj(_) => w.Obj?
    case _ => v == w
  }

  /** `sliceAreEqual`, as the Go loops run it: a length check, then for each control
      element a scan of the experiment array that skips values of the wrong kind and stops at
      the first match. */
  method SliceAreEqual(a: seq<Json>, b: seq<Json>) returns (r: bool)
    ensures r == SliceEq(Weak, a, b)
    decreases Arr(a), 0
  {
    if |a| != |b| {
      return false;
    }
    for i := 0 to |a|
      invariant forall i' :: 0 <= i' < i ==> HasMatch(Weak, a[i'], b)
    {
      var v := a[i];
      var areEqual := false;
      ghost var found := 0;
      for j := 0 to |b|
        invariant !areEqual
        invariant forall j' :: 0 <= j' < j ==> !ValueEq(Weak, v, b[j'])
      {
        var bv := b[j];
        match v {
          case Arr(xs) =>
            if !bv.Arr? {
              continue;
            }
            areEqual := SliceAreEqual(xs, bv.elems);
          case Obj(m) =>
            if !bv.Obj? {
              continue;
            }
            areEqual := MsiAreEqual(m, bv.fields);
          case _ =>
            areEqual := v == bv;
        }
        if areEqual {
          found := j;
          break;
        }
      }
      if !areEqual {
        return false;
      }
      assert ValueEq(Weak, a[i], b[found]);
    }
    return true;
  }

  /** `msiAreEqual`, as the Go loop runs it: a key-count check, then the control
      keys in an unspecified order, leaving as soon as one value fails to match. */
  method MsiAreEqual(a: map<string, Json>, b: map<string, Json>) returns (r: bool)
    ensures r == MapEq(Weak, a, b)
    decreases Obj(a), 0
  {
    if |a| != |b| {
      return false;
    }
    var areEqual := true;
    var pending := a.Keys;
    while pending != {}
      invariant pending <= a.Keys
      invariant areEqual
      invariant forall k :: k in a && k !in pending ==> k in b && ValueEq(Weak, a[k], b[k])
      decreases |pending|
    {
      var k :| k in pending;
      var v := a[k];
      assert v in a.Values;
      match v {
        case Arr(xs) =>
          if !(k in b && b[k].Arr?) {
            return false;
          }
          var e := SliceAreEqual(xs, b[k].elems);
          areEqual := areEqual && e;
        case Obj(m) =>
          if !(k in b && b[k].Obj?) {
            return false;
          }
          var e := MsiAreEqual(m, b[k].fields);
          areEqual := areEqual && e;
        case _ =>
          if k !in b {
            return false;
          }
          areEqual := areEqual && v == b[k];
      }
      if !areEqual {
        return false;
      }
      pending := pending - {k};
    }
    return true;
  }

  /** A subset as large as its superset is the superset. */
  lemma SubsetOfSameSize(a: set<string>, b: set<string>)
    requires a <= b && |a| == |b|
    ensures a == b
  {
    assert |b - a| == |b| - |a|;
  }

  /** `msiAreEqual` (and strict object equality) holds exactly when both maps have the same
      key set and every pair of values is equal; matched values are of compatible kinds. */
  lemma MapEqSameKeys(mode: Mode, a: map<string, Json>, b: map<string, Json>)
    ensures |a| != |b| ==> !MapEq(mode, a, b)
    ensures MapEq(mode, a, b) <==>
              (a.Keys == b.Keys && forall k :: k in a ==> ValueEq(mode, a[k], b[k]))
    ensures MapEq(mode, a, b) ==> forall k :: k in a ==> SameKind(a[k], b[k])
  {
    if MapEq(mode, a, b) {
      SubsetOfSameSize(a.Keys, b.Keys);
      forall k | k in a
        ensures SameKind(a[k], b[k])
      {
        assert ValueEq(mode, a[k], b[k]);
      }
    }
    if a.Keys == b.Keys {
      assert |a| == |a.Keys| == |b.Keys| == |b|;
    }
  }

  /** Strict mode is exactly `reflect.DeepEqual`: structural equality of the decoded values. */
  lemma {:induction false} StrictIsEquality(v: Json, w: Json)
    ensures ValueEq(Strict, v, w) <==> v == w
    decreases v
  {
    match v
    case Arr(xs) =>
      if w.Arr? {
        forall i | 0 <= i < |xs| && i < |w.elems|
          ensures ValueEq(Strict, xs[i], w.elems[i]) <==> xs[i] == w.elems[i]
        {
          StrictIsEquality(xs[i], w.elems[i]);
        }
        if SliceEq(Strict, xs, w.elems) {
          assert xs == w.elems;
        }
      }
    case Obj(m) =>
      if w.Obj? {
        forall k | k in m && k in w.fields
          ensures ValueEq(Strict, m[k], w.fields[k]) <==> m[k] == w.fields[k]
        {
          assert m[k] in m.Values;
          StrictIsEquality(m[k], w.fields[k]);
        }
        if MapEq(Strict, m, w.fields) {
          SubsetOfSameSize(m.Keys, w.fields.Keys);
          assert m == w.fields;
        }
      }
    case _ =>
  }

  /** Strict object equality is map equality. */
  lemma StrictMapIsEquality(a: map<string, Json>, b: map<string, Json>)
    ensures MapEq(Strict, a, b) <==> a == b
  {
    StrictIsEquality(Obj(a), Obj(b));
  }

  /** Every value equals itself, in both modes. */
  lemma {:induction false} Reflexive(mode: Mode, v: Json)
    ensures ValueEq(mode, v, v)
    decreases v
  {
    match v
    case Arr(xs) =>
      forall i | 0 <= i < |xs|
        ensures ValueEq(mode, xs[i], xs[i])
        ensures HasMatch(mode, xs[i], xs)
      {
        Reflexive(mode, xs[i]);
        assert ValueEq(mode, xs[i], xs[i]);
      }
    case Obj(m) =>
      forall k | k in m
        ensures ValueEq(mode, m[k], m[k])
      {
        assert m[k] in m.Values;
        Reflexive(mode, m[k]);
      }
    case _ =>
  }

  /** Equality is transitive in both modes: a match of a match is a match. */
  lemma {:induction false} Transitive(mode: Mode, u: Json, v: Json, w: Json)
    requires ValueEq(mode, u, v) && ValueEq(mode, v, w)
    ensures ValueEq(mode, u, w)
    decreases u
  {
    match u
    case Arr(a) =>
      var b, c := v.elems, w.elems;
      if mode == Strict {
        forall i | 0 <= i < |a|
          ensures ValueEq(mode, a[i], c[i])
        {
          Transitive(mode, a[i], b[i], c[i]);
        }
      } else {
        forall i | 0 <= i < |a|
          ensures HasMatch(mode, a[i], c)
        {
          assert HasMatch(mode, a[i], b);
          var j :| 0 <= j < |b| && ValueEq(mode, a[i], b[j]);
          assert HasMatch(mode, b[j], c);
          var l :| 0 <= l < |c| && ValueEq(mode, b[j], c[l]);
          Transitive(mode, a[i], b[j], c[l]);
        }
      }
    case Obj(a) =>
      var b, c := v.fields, w.fields;
      forall k | k in a
        ensures k in c && ValueEq(mode, a[k], c[k])
      {
        assert a[k] in a.Values;
        Transitive(mode, a[k], b[k], c[k]);
      }
    case _ =>
  }

  /** Whatever strict mode accepts, weak mode accepts. */
  lemma StrictImpliesWeak(v: Json, w: Json)
    requires ValueEq(Strict, v, w)
    ensures ValueEq(Weak, v, w)
  {
    StrictIsEquality(v, w);
    Reflexive(Weak, v);
  }

  /** The promise of the doc comment on `isJSONEqual`: weak mode ignores the order of array
      elements, so an array is weakly equal to every permutation of itself. */
  lemma PermutationIsWeaklyEqual(xs: seq<Json>, ys: seq<Json>)
    requires multiset(xs) == multiset(ys)
    ensures ValueEq(Weak, Arr(xs), Arr(ys))
  {
    assert |xs| == |multiset(xs)| == |multiset(ys)| == |ys|;
    forall i | 0 <= i < |xs|
      ensures HasMatch(Weak, xs[i], ys)
    {
      assert xs[i] in multiset(ys);
      var j :| 0 <= j < |ys| && ys[j] == xs[i];
      Reflexive(Weak, xs[i]);
      assert ValueEq(Weak, xs[i], ys[j]);
    }
  }

  /** `p` reorders the positions `0..n`: every position is hit and none twice. */
  ghost predicate IsPermutation(p: seq<int>, n: nat) {
    && |p| == n
    && (forall i :: 0 <= i < n ==> 0 <= p[i] < n)
    && (forall i, j :: 0 <= i < j < n ==> p[i] != p[j])
  }

  /** `w` is `v` with the elements of any of its arrays, at any depth, put in another order;
      objects keep their keys and scalars stay as they are. */
  ghost predicate Reordered(v: Json, w: Json)
    decreases v
  {
    match v
    case Arr(xs) =>
      && w.Arr? && |xs| == |w.elems|
      && exists p :: IsPermutation(p, |xs|) && forall i :: 0 <= i < |xs| ==> Reordered(xs[i], w.elems[p[i]])
    case Obj(m) =>
      && w.Obj? && m.Keys == w.fields.Keys
      && forall k :: k in m ==> Reordered(m[k], w.fields[k])
    case _ => v == w
  }

  /** The doc comment's promise at every depth: a value whose arrays are reordered anywhere
      inside it is weakly equal to the original. */
  lemma {:induction false} ReorderedIsWeaklyEqual(v: Json, w: Json)
    requires Reordered(v, w)
    ensures ValueEq(Weak, v, w)
    decreases v
  {
    match v
    case Arr(xs) =>
      var ys := w.elems;
      var p :| IsPermutation(p, |xs|) && forall i :: 0 <= i < |xs| ==> Reordered(xs[i], ys[p[i]]);
      forall i | 0 <= i < |xs|
        ensures HasMatch(Weak, xs[i], ys)
      {
        ReorderedIsWeaklyEqual(xs[i], ys[p[i]]);
        assert ValueEq(Weak, xs[i], ys[p[i]]);
      }
    case Obj(m) =>
      forall k | k in m
        ensures ValueEq(Weak, m[k], w.fields[k])
      {
        assert m[k] in m.Values;
        ReorderedIsWeaklyEqual(m[k], w.fields[k]);
      }
      assert |m| == |m.Keys| == |w.fields.Keys| == |w.fields|;
    case _ =>
  }

  /** `{"a":[[1,2]]}` against `{"a":[[2,1]]}`: an array reordered inside another array is
      weakly equal and strictly unequal. */
  lemma NestedOrderExample()
    ensures ValueEq(Weak, Obj(map["a" := Arr([Arr([Num(1.0), Num(2.0)])])]),
                          Obj(map["a" := Arr([Arr([Num(2.0), Num(1.0)])])]))
    ensures !ValueEq(Strict, Obj(map["a" := Arr([Arr([Num(1.0), Num(2.0)])])]),
                             Obj(map["a" := Arr([Arr([Num(2.0), Num(1.0)])])]))
  {
    var inner12, inner21 := Arr([Num(1.0), Num(2.0)]), Arr([Num(2.0), Num(1.0)]);
    var v := Obj(map["a" := Arr([inner12])]);
    var w := Obj(map["a" := Arr([inner21])]);
    assert IsPermutation([1, 0], 2);
    assert Reordered(inner12.elems[0], inner21.elems[1]) && Reordered(inner12.elems[1], inner21.elems[0]);
    assert Reordered(inner12, inner21);
    assert IsPermutation([0], 1);
    assert Reordered(Arr([inner12]), Arr([inner21]));
    assert Reordered(v, w);
    ReorderedIsWeaklyEqual(v, w);
    StrictIsEquality(v, w);
    assert v.fields["a"] != w.fields["a"];
  }

  /** Weak array matching does not consume: `[1,1]` matches `[1,2]` although the multisets
      differ, while `[1,2]` does not match `[1,1]`, so the relation is not symmetric. */
  lemma WeakMatchingDoesNotConsume()
    ensures ValueEq(Weak, Arr([Num(1.0), Num(1.0)]), Arr([Num(1.0), Num(2.0)]))
    ensures !ValueEq(Weak, Arr([Num(1.0), Num(2.0)]), Arr([Num(1.0), Num(1.0)]))
    ensures multiset([Num(1.0), Num(1.0)]) != multiset([Num(1.0), Num(2.0)])
  {
    var ones, oneTwo := [Num(1.0), Num(1.0)], [Num(1.0), Num(2.0)];
    assert ValueEq(Weak, ones[0], oneTwo[0]);
    assert ValueEq(Weak, ones[1], oneTwo[0]);
    assert !ValueEq(Weak, oneTwo[1], ones[0]) && !ValueEq(Weak, oneTwo[1], ones[1]);
    assert multiset(ones)[Num(2.0)] == 0;
  }

  /** `{"a":[1,2]}` against `{"a":[2,1]}` differs strictly and matches weakly; against
      `{"a":[1,2,3]}` it differs in both modes, as the lengths differ. */
  lemma ArrayOrderExamples()
    ensures !MapEq(Strict, map["a" := Arr([Num(1.0), Num(2.0)])], map["a" := Arr([Num(2.0), Num(1.0)])])
    ensures MapEq(Weak, map["a" := Arr([Num(1.0), Num(2.0)])], map["a" := Arr([Num(2.0), Num(1.0)])])
    ensures !MapEq(Weak, map["a" := Arr([Num(1.0), Num(2.0)])], map["a" := Arr([Num(1.0), Num(2.0), Num(3.0)])])
  {
    var a12, a21 := map["a" := Arr([Num(1.0), Num(2.0)])], map["a" := Arr([Num(2.0), Num(1.0)])];
    StrictMapIsEquality(a12, a21);
    assert a12["a"] != a21["a"];
    PermutationIsWeaklyEqual([Num(1.0), Num(2.0)], [Num(2.0), Num(1.0)]);
  }
}
