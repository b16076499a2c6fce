/** `OptionSubset` on JSON values: everything set on the left is set to the same on the right. */
module OptionSubset {

  datatype Json =
    | Null
    | Bool(b: bool)
    | Number(n: int)
    | String(s: string)
    | Array(elements: seq<Json>)
    | Object(entries: map<string, Json>)

  predicate Subset(l: Json, r: Json) {
    match (l, r)
    case (Null, _) => true
    case (Bool(lb), Bool(rb)) => lb == rb
    case (Number(ln), Number(rn)) => ln == rn
    case (String(ls), String(rs)) => ls == rs
    case (Array(lv), Array(rv)) => |lv| == |rv| && forall i | 0 <= i < |lv| :: Subset(lv[i], rv[i])
    case (Object(lo), Object(ro)) => forall k | k in lo :: k in ro && Subset(lo[k], ro[k])
    case _ => false
  }

  lemma {:induction false} Reflexive(a: Json)
    ensures Subset(a, a)
  {
    match a
    case Array(v) => forall i | 0 <= i < |v| ensures Subset(v[i], v[i]) { Reflexive(v[i]); }
    case Object(o) => forall k | k in o ensures Subset(o[k], o[k]) { Reflexive(o[k]); }
    case _ =>
  }

  lemma {:induction false} Transitive(a: Json, b: Json, c: Json)
    requires Subset(a, b) && Subset(b, c)
    ensures Subset(a, c)
  {
    match a
    case Array(v) =>
      forall i | 0 <= i < |v| ensures Subset(v[i], c.elements[i]) { Transitive(v[i], b.elements[i], c.elements[i]); }
    case Object(o) =>
      forall k | k in o ensures k in c.entries && Subset(o[k], c.entries[k]) {
        Transitive(o[k], b.entries[k], c.entries[k]);
      }
    case _ =>
  }

  lemma {:induction false} Antisymmetric(a: Json, b: Json)
    requires Subset(a, b) && Subset(b, a)
    ensures a == b
  {
    match a
    case Array(v) => forall i | 0 <= i < |v| ensures v[i] == b.elements[i] { Antisymmetric(v[i], b.elements[i]); }
    case Object(o) =>
      forall k | k in o ensures k in b.entries && o[k] == b.entries[k] { Antisymmetric(o[k], b.entries[k]); }
      assert o == b.entries;
    case _ =>
  }

  // ---------- Path by path ----------

  datatype Place = Index(i: nat) | Key(k: string)

  /** The value at a path, if there is one. */
  function At(v: Json, path: seq<Place>): Json
    requires Has(v, path)
  {
    if path == [] then v else At(Child(v, path[0]), path[1..])
  }

  predicate Has(v: Json, path: seq<Place>) {
    path == [] || (HasChild(v, path[0]) && Has(Child(v, path[0]), path[1..]))
  }

  predicate HasChild(v: Json, place: Place) {
    match (v, place)
    case (Array(elements), Index(i)) => i < |elements|
    case (Object(entries), Key(k)) => k in entries
    case _ => false
  }

  function Child(v: Json, place: Place): Json
    requires HasChild(v, place)
  {
    match place
    case Index(i) => v.elements[i]
    case Key(k) => v.entries[k]
  }

  /** The same without what is inside: equal scalars, arrays of one length, or two objects. */
  predicate SameHead(l: Json, r: Json) {
    match (l, r)
    case (Array(lv), Array(rv)) => |lv| == |rv|
    case (Object(_), Object(_)) => true
    case _ => l == r
  }

  /** At every path of `l` there is null, or `r` has the same there. */
  ghost predicate SetInBoth(l: Json, r: Json) {
    forall path | Has(l, path) :: Has(r, path) && (At(l, path) == Null || SameHead(At(l, path), At(r, path)))
  }

  lemma {:induction false} SubsetAt(l: Json, r: Json, path: seq<Place>)
    requires Subset(l, r) && Has(l, path)
    ensures Has(r, path) && (At(l, path) == Null || SameHead(At(l, path), At(r, path)))
    decreases |path|
  {
    if path != [] {
      SubsetAt(Child(l, path[0]), Child(r, path[0]), path[1..]);
    }
  }

  lemma ChildSetInBoth(l: Json, r: Json, place: Place)
    requires SetInBoth(l, r) && HasChild(l, place)
    ensures HasChild(r, place) && SetInBoth(Child(l, place), Child(r, place))
  {
    assert Has(l, [place]) by { assert [place][1..] == []; }
    assert Has(r, [place]);
    forall path | Has(Child(l, place), path)
      ensures Has(Child(r, place), path)
      ensures At(Child(l, place), path) == Null || SameHead(At(Child(l, place), path), At(Child(r, place), path))
    {
      var whole := [place] + path;
      assert whole[0] == place && whole[1..] == path;
      assert Has(l, whole);
    }
  }

  lemma {:induction false} SetInBothIsSubset(l: Json, r: Json)
    requires SetInBoth(l, r)
    ensures Subset(l, r)
    decreases l
  {
    assert Has(l, []);
    assert l == Null || SameHead(At(l, []), At(r, []));
    match l
    case Array(v) =>
      forall i: nat | i < |v| ensures Subset(v[i], r.elements[i]) {
        ChildSetInBoth(l, r, Index(i));
        SetInBothIsSubset(v[i], r.elements[i]);
      }
    case Object(o) =>
      forall k | k in o ensures k in r.entries && Subset(o[k], r.entries[k]) {
        ChildSetInBoth(l, r, Key(k));
        SetInBothIsSubset(o[k], r.entries[k]);
      }
    case _ =>
  }

  /**
   * A value is a subset of another exactly when, wherever it has something other than null, the other
   * has the same; so null is a subset of everything, and an object of any extension of it.
   */
  lemma SubsetIff(l: Json, r: Json)
    ensures Subset(l, r) <==> SetInBoth(l, r)
  {
    if Subset(l, r) {
      forall path | Has(l, path)
        ensures Has(r, path) && (At(l, path) == Null || SameHead(At(l, path), At(r, path)))
      {
        SubsetAt(l, r, path);
      }
    }
    if SetInBoth(l, r) { SetInBothIsSubset(l, r); }
  }

  lemma Extension(l: map<string, Json>, r: map<string, Json>)
    requires forall k | k in l :: k in r && (l[k] == Null || l[k] == r[k])
    ensures Subset(Object(l), Object(r))
  {
    forall k | k in l ensures Subset(l[k], r[k]) { Reflexive(r[k]); }
  }
}
