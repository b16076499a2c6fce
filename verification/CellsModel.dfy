/** The `Cells` object: operations that change its columns in place, and operations that copy. */
module CellsModel {
  import opened Prelude
  import opened Bits
  import opened StableSort
  import opened Keyed
  import opened Columns

  ghost function SortFields(c: Fields, keys: seq<string>): Fields
    requires Aligned(c)
  {
    GatherFields(c, StableIndex(CompareKey, Keys(c, keys)))
  }

  ghost function DedupFields(c: Fields, keys: seq<string>): Fields
    requires Aligned(c)
  {
    FilterFields(c, Firsts(Keys(c, keys)))
  }

  /** Moves every cell of a column to its sorted place; what is left behind is the default cell. */
  method SortColumn(data: seq<Cell>, idx: seq<nat>) returns (sorted: seq<Cell>)
    requires |idx| == |data| && Below(idx, |data|) && Distinct(idx)
    ensures sorted == Gather(data, idx)
  {
    var unsorted := new Cell[|data|](i requires 0 <= i < |data| => data[i]);
    var target := new Cell[|data|](_ => []);
    for i := 0 to |data|
      invariant target[..i] == Gather(data, idx[..i])
      invariant forall j | 0 <= j < |data| && j !in idx[..i] :: unsorted[j] == data[j]
    {
      assert idx[i] !in idx[..i];
      assert idx[..i + 1] == idx[..i] + [idx[i]];
      target[i] := unsorted[idx[i]];
      unsorted[idx[i]] := [];
    }
    assert idx[..|data|] == idx;
    sorted := target[..];
  }

  class Cells {
    var fields: Fields

    ghost predicate Valid() reads this { Aligned(fields) }

    constructor (fields: Fields)
      requires Aligned(fields)
      ensures Valid() && this.fields == fields
    {
      this.fields := fields;
    }

    method Len() returns (n: nat)
      requires Valid() && fields != map[]
      ensures n == NumRows(fields)
    {
      var f :| f in fields.Keys;
      n := |fields[f].cells|;
    }

    method CopyFrom(cells: Fields)
      requires Valid()
      requires forall f | f in fields && f in cells :: Kinds(fields)[f] == Kinds(cells)[f]
      modifies this
      ensures fields == CopyFields(old(fields), cells)
    {
      var todo := cells.Keys;
      while todo != {}
        invariant todo <= cells.Keys
        invariant fields == CopyFields(old(fields), map f | f in cells.Keys - todo :: cells[f])
      {
        ghost var done := map f | f in cells.Keys - todo :: cells[f];
        var f :| f in todo;
        todo := todo - {f};
        assert (map g | g in cells.Keys - todo :: cells[g]) == done[f := cells[f]];
        CopyOneMore(old(fields), done, f, cells[f]);
        if f !in fields {
          fields := fields[f := cells[f]];
        } else {
          var mine, theirs := fields[f].cells, cells[f].cells;
          if |mine| <= |theirs| {
            fields := fields[f := cells[f]];
          } else {
            fields := fields[f := fields[f].(cells := theirs + mine[|theirs|..])];
          }
        }
      }
      assert (map f | f in cells.Keys - todo :: cells[f]) == cells;
    }

    method Truncate(len: nat)
      requires Valid()
      modifies this
      ensures Valid() && fields == TruncateFields(old(fields), len)
    {
      ghost var before := fields;
      var todo := fields.Keys;
      while todo != {}
        invariant todo <= fields.Keys == before.Keys
        invariant forall f | f in before :: fields[f] == if f in todo then before[f] else TruncateFields(before, len)[f]
      {
        var f :| f in todo;
        var data := fields[f];
        if len < |data.cells| {
          fields := fields[f := data.(cells := data.cells[..len])];
        }
        todo := todo - {f};
      }
      TruncateRows(before, len);
    }

    /** Both cells must have the same fields, of the same types. */
    method Extend(other: Fields)
      requires Valid() && Aligned(other) && Kinds(fields) == Kinds(other)
      modifies this
      ensures Valid() && Kinds(fields) == Kinds(old(fields))
      ensures Rows(fields) == Rows(old(fields)) + Rows(other)
    {
      ghost var before := fields;
      SameNames(before, other);
      var todo, rest := fields.Keys, other;
      while todo != {}
        invariant todo <= fields.Keys == before.Keys
        invariant rest == map f | f in todo :: other[f]
        invariant forall f | f in before :: fields[f] == if f in todo then before[f] else ExtendFields(before, other)[f]
      {
        var f :| f in todo;
        var data := rest[f];
        rest := rest - {f};
        fields := fields[f := fields[f].(cells := fields[f].cells + data.cells)];
        todo := todo - {f};
      }
      assert rest == map[];
      assert fields == ExtendFields(before, other);
      ExtendRows(before, other);
    }

    method IsSorted(keys: seq<string>) returns (sorted: bool)
      requires Valid() && fields != map[]
      requires NumRows(fields) <= 1 || KeysPresent(fields, keys)
      ensures sorted <==> Sorted(CompareKey, Keys(fields, keys))
    {
      ghost var ks := Keys(fields, keys);
      var n := Len();
      for i := 1 to Max(1, n)
        invariant n == NumRows(fields)
        invariant forall j | 1 <= j < i && j < n :: CompareKey(ks[j - 1], ks[j]) != Greater
      {
        IndexCompareIsKeyOrder(fields, keys, i - 1, i);
        if IndexCompare(fields, keys, i - 1, i) == Greater {
          return false;
        }
      }
      SortedByNeighbours(ks);
      return true;
    }

    method Sort(keys: seq<string>)
      requires Valid() && fields != map[]
      requires NumRows(fields) <= 1 || KeysPresent(fields, keys)
      modifies this
      ensures Valid() && fields == SortFields(old(fields), keys)
    {
      ghost var before, ks := fields, Keys(fields, keys);
      var idx := SortedIndices(keys);
      StableIndexFacts(ks);
      var todo := fields.Keys;
      while todo != {}
        invariant todo <= fields.Keys == before.Keys
        invariant forall f | f in before :: fields[f] == if f in todo then before[f] else SortFields(before, keys)[f]
      {
        var f :| f in todo;
        var data := SortColumn(fields[f].cells, idx);
        fields := fields[f := fields[f].(cells := data)];
        todo := todo - {f};
      }
      GatherRows(before, idx);
    }

    /** The sorted index list that `sort` and `dedup` start from. */
    method SortedIndices(keys: seq<string>) returns (idx: seq<nat>)
      requires Valid() && fields != map[]
      requires NumRows(fields) <= 1 || KeysPresent(fields, keys)
      ensures idx == StableIndex(CompareKey, Keys(fields, keys))
    {
      var n := Len();
      var c := fields;
      var list := new nat[n](i => i);
      ghost var ks := Keys(c, keys);
      var comparator := (l: nat, r: nat) => IndexCompare(c, keys, l, r);
      forall l: nat, r: nat | l < n && r < n
        ensures comparator(l, r) == CompareKey(ks[l], ks[r])
      {
        IndexCompareIsKeyOrder(c, keys, l, r);
      }
      SortBy(comparator, list, CompareKey, ks);
      idx := list[..];
    }

    method IdentifyGroups(keys: seq<string>) returns (groups: Option<seq<nat>>)
      requires Valid() && fields != map[]
      requires NumRows(fields) <= 1 || KeysPresent(fields, keys)
      ensures groups.None? <==> NumRows(fields) == 0
      ensures groups.Some? ==> CutsIntoRuns(Keys(fields, keys), groups.value)
    {
      var n := Len();
      if n == 0 { return None; }
      var g := RunStarts(keys, n);
      LastRun(Keys(fields, keys), g);
      return Some(g + [n]);
    }

    /** The scan of `identify_groups`. */
    method RunStarts(keys: seq<string>, n: nat) returns (g: seq<nat>)
      requires Valid() && n == NumRows(fields) && 1 <= n
      requires n <= 1 || KeysPresent(fields, keys)
      ensures RunsUpTo(Keys(fields, keys), g, n)
    {
      var icmp := 0;
      g := [0];
      for i := 1 to n
        invariant i <= n && g != [] && g[|g| - 1] == icmp
        invariant RunsUpTo(Keys(fields, keys), g, i)
      {
        GroupStep(fields, keys, g, i);
        if DistinctAt(fields, keys, i, icmp) {
          g := g + [i];
          icmp := i;
        }
      }
    }

    method CountDistinct(keys: seq<string>) returns (count: nat)
      requires Valid() && fields != map[]
      requires NumRows(fields) <= 1 || (keys != [] && KeysPresent(fields, keys))
      ensures count == |Elements(Keys(fields, keys))|
    {
      ghost var ks := Keys(fields, keys);
      var n := Len();
      if n <= 1 {
        assert n == 1 ==> Elements(ks) == {ks[0]};
        assert n == 0 ==> Elements(ks) == {};
        return n;
      }
      var only := map f | f in fields && f in keys :: fields[f];
      assert keys[0] in only;
      assert NumRows(only) == |only[keys[0]].cells|;
      assert Keys(only, keys) == ks by {
        forall i | 0 <= i < n ensures KeyAt(only, keys, i) == KeyAt(fields, keys, i) {
          forall j | 0 <= j < |keys| ensures CellAt(only, keys[j], i) == CellAt(fields, keys[j], i) {
            assert keys[j] in keys;
          }
        }
      }
      var keyCells := new Cells(only);
      SortedKeys(only, keys);
      keyCells.Sort(keys);
      count := keyCells.CountRuns(keys);
    }

    /** The scan of `count_distinct` over sorted cells. */
    method CountRuns(keys: seq<string>) returns (count: nat)
      requires Valid() && fields != map[] && 1 <= NumRows(fields)
      requires Sorted(CompareKey, Keys(fields, keys))
      ensures count == |Elements(Keys(fields, keys))|
    {
      ghost var sorted := Keys(fields, keys);
      var n := Len();
      var icmp := 0;
      count := 1;
      assert Elements(sorted[..1]) == {sorted[0]};
      for i := 1 to n
        invariant icmp < i <= n == |sorted|
        invariant RunSince(sorted, icmp, i) && count == |Elements(sorted[..i])|
      {
        CountStep(fields, keys, icmp, i);
        if DistinctAt(fields, keys, i, icmp) {
          icmp := i;
          count := count + 1;
        }
      }
      assert sorted[..n] == sorted;
    }

    method FilterBy(mask: set<nat>) returns (r: Cells)
      requires Valid()
      ensures fresh(r) && r.Valid() && r.fields == FilterFields(fields, mask)
    {
      FilterRows(fields, mask);
      r := new Cells(FilterFields(fields, mask));
    }

    method Dedup(keys: seq<string>) returns (r: Cells)
      requires Valid() && fields != map[]
      requires NumRows(fields) <= 1 || KeysPresent(fields, keys)
      ensures fresh(r) && r.Valid() && r.fields == DedupFields(fields, keys)
    {
      ghost var ks := Keys(fields, keys);
      var n := Len();
      if n == 0 {
        assert DedupFields(fields, keys) == fields;
        r := new Cells(fields);
        return;
      }
      var idx := SortedIndices(keys);
      StableIndexFacts(ks);
      var preserve := FirstOfEachRun(keys, idx);
      assert preserve == Firsts(ks);
      r := FilterBy(preserve);
    }

    /** The scan of `dedup` over the sorted index list. */
    method FirstOfEachRun(keys: seq<string>, idx: seq<nat>) returns (preserve: set<nat>)
      requires Valid() && 1 <= NumRows(fields)
      requires StableOrder(CompareKey, Keys(fields, keys), idx)
      ensures preserve == set a | a in idx && IsFirst(Keys(fields, keys), a)
    {
      ghost var ks := Keys(fields, keys);
      FirstInOrder(ks, idx);
      var icmp := 0;
      preserve := {idx[0]};
      for i := 1 to |idx|
        invariant icmp < i <= |idx|
        invariant forall j | icmp <= j < i :: ks[idx[j]] == ks[idx[icmp]]
        invariant preserve == set a | a in idx[..i] && IsFirst(ks, a)
      {
        FirstStep(fields, keys, idx, icmp, i);
        if DistinctAt(fields, keys, idx[i], idx[icmp]) {
          icmp := i;
          preserve := preserve + {idx[i]};
        }
      }
      assert idx[..|idx|] == idx;
    }
  }

  ghost predicate RunSince<K>(ks: seq<K>, start: nat, i: nat) {
    start < i <= |ks| && forall j | start <= j < i :: ks[j] == ks[start]
  }

  /** One step of the scan: the number of keys seen grows exactly when the row differs from the run's start. */
  lemma CountStep(c: Fields, keys: seq<string>, start: nat, i: nat)
    requires Aligned(c) && Sorted(CompareKey, Keys(c, keys)) && i < NumRows(c)
    requires RunSince(Keys(c, keys), start, i)
    ensures var ks := Keys(c, keys);
            if DistinctAt(c, keys, i, start) then
              RunSince(ks, i, i + 1) && |Elements(ks[..i + 1])| == |Elements(ks[..i])| + 1
            else
              RunSince(ks, start, i + 1) && |Elements(ks[..i + 1])| == |Elements(ks[..i])|
  {
    CompareTotal();
    DistinctAtIsKeyDistinct(c, keys, i, start);
    RunStartIsNew(CompareKey, Keys(c, keys), start, i);
    ElementsGrow(Keys(c, keys), i);
  }

  /** `g` holds where the maximal runs of the first `i` keys begin. */
  ghost predicate RunsUpTo<K>(ks: seq<K>, g: seq<nat>, i: nat) {
    && g != [] && g[0] == 0 && g[|g| - 1] < i <= |ks| && Ascending(g)
    && (forall r, j | 0 <= r < |g| - 1 && g[r] <= j < g[r + 1] :: ks[j] == ks[g[r]])
    && (forall j | g[|g| - 1] <= j < i :: ks[j] == ks[g[|g| - 1]])
    && (forall r | 0 < r < |g| :: ks[g[r] - 1] != ks[g[r]])
  }

  lemma NextRun<K>(ks: seq<K>, g: seq<nat>, i: nat)
    requires RunsUpTo(ks, g, i) && i < |ks|
    ensures RunsUpTo(ks, if ks[i] != ks[g[|g| - 1]] then g + [i] else g, i + 1)
  {
  }

  lemma GroupStep(c: Fields, keys: seq<string>, g: seq<nat>, i: nat)
    requires Aligned(c) && i < NumRows(c) && RunsUpTo(Keys(c, keys), g, i)
    ensures RunsUpTo(Keys(c, keys), if DistinctAt(c, keys, i, g[|g| - 1]) then g + [i] else g, i + 1)
  {
    DistinctAtIsKeyDistinct(c, keys, i, g[|g| - 1]);
    NextRun(Keys(c, keys), g, i);
  }

  lemma LastRun<K>(ks: seq<K>, g: seq<nat>)
    requires RunsUpTo(ks, g, |ks|)
    ensures CutsIntoRuns(ks, g + [|ks|])
  {
  }

  lemma ElementsGrow<T>(s: seq<T>, i: nat)
    requires i < |s|
    ensures |Elements(s[..i + 1])| == |Elements(s[..i])| + if s[i] in s[..i] then 0 else 1
  {
    ElementsOfPrefix(s, i);
    if s[i] in s[..i] {
      assert Elements(s[..i + 1]) == Elements(s[..i]);
    }
  }

  lemma FirstsGrow<K>(ks: seq<K>, idx: seq<nat>, i: nat)
    requires i < |idx|
    ensures (set a | a in idx[..i + 1] && IsFirst(ks, a))
            == (set a | a in idx[..i] && IsFirst(ks, a)) + if IsFirst(ks, idx[i]) then {idx[i]} else {}
  {
  }

  /** One step of the scan: the row is the first of its key exactly when it differs from the run's start. */
  lemma FirstStep(c: Fields, keys: seq<string>, idx: seq<nat>, start: nat, i: nat)
    requires Aligned(c) && StableOrder(CompareKey, Keys(c, keys), idx) && start < i < |idx|
    requires forall j | start <= j < i :: Keys(c, keys)[idx[j]] == Keys(c, keys)[idx[start]]
    ensures var ks := Keys(c, keys);
            && DistinctAt(c, keys, idx[i], idx[start]) == (ks[idx[i]] != ks[idx[start]])
            && (set a | a in idx[..i + 1] && IsFirst(ks, a))
               == (set a | a in idx[..i] && IsFirst(ks, a))
                  + if DistinctAt(c, keys, idx[i], idx[start]) then {idx[i]} else {}
  {
    CompareTotal();
    DistinctAtIsKeyDistinct(c, keys, idx[i], idx[start]);
    RunStartIsFirst(CompareKey, Keys(c, keys), idx, start, i);
    FirstsGrow(Keys(c, keys), idx, i);
  }

  lemma CopyOneMore(before: Fields, done: Fields, f: string, theirs: FieldData)
    requires f !in done && (f in before ==> before[f].physical == theirs.physical && before[f].single == theirs.single)
    ensures var mine := CopyFields(before, done);
            && (f in mine <==> f in before) && (f in before ==> mine[f] == before[f])
            && CopyFields(before, done[f := theirs])
               == mine[f := if f !in before then theirs
                       else if |before[f].cells| <= |theirs.cells| then theirs
                       else before[f].(cells := theirs.cells + before[f].cells[|theirs.cells|..])]
  {
  }

  lemma StableIndexFacts(ks: seq<Key>)
    ensures var idx := StableIndex(CompareKey, ks);
            StableOrder(CompareKey, ks, idx) && Distinct(idx)
  {
    CompareTotal();
    StableIndexOrder(CompareKey, ks);
    var idx := StableIndex(CompareKey, ks);
    forall i, j | 0 <= i < j < |idx| ensures idx[i] != idx[j] {
      BeforeAsymmetric(CompareKey, ks, idx[i], idx[j]);
    }
  }

  lemma FirstInOrder(ks: seq<Key>, idx: seq<nat>)
    requires StableOrder(CompareKey, ks, idx) && ks != []
    ensures IsFirst(ks, idx[0])
  {
    CompareTotal();
    forall a | 0 <= a < idx[0]
      ensures ks[a] != ks[idx[0]]
    {
      assert a in idx;
      var p :| 0 <= p < |idx| && idx[p] == a;
      assert Before(CompareKey, ks, idx[0], idx[p]);
    }
  }

  lemma {:induction false} SortedBetween(ks: seq<Key>, i: nat, j: nat)
    requires forall p | 1 <= p < |ks| :: CompareKey(ks[p - 1], ks[p]) != Greater
    requires i < j < |ks|
    ensures CompareKey(ks[i], ks[j]) != Greater
  {
    CompareTotal();
    if i + 1 < j {
      SortedBetween(ks, i, j - 1);
      assert CompareKey(ks[j - 1], ks[j]) != Greater;
      NotGreaterTransitive(CompareKey, ks[i], ks[j - 1], ks[j]);
    }
  }

  lemma NotGreaterTransitive<K(!new)>(cmp: Comparator<K>, a: K, b: K, c: K)
    requires TotalOrder(cmp) && cmp(a, b) != Greater && cmp(b, c) != Greater
    ensures cmp(a, c) != Greater
  {
  }

  lemma SortedByNeighbours(ks: seq<Key>)
    ensures (forall p | 1 <= p < |ks| :: CompareKey(ks[p - 1], ks[p]) != Greater) <==> Sorted(CompareKey, ks)
  {
    if forall p | 1 <= p < |ks| :: CompareKey(ks[p - 1], ks[p]) != Greater {
      forall i, j | 0 <= i < j < |ks| ensures CompareKey(ks[i], ks[j]) != Greater { SortedBetween(ks, i, j); }
    }
  }

  /** Sorting the fields sorts the keys, and keeps the set of them. */
  lemma SortedKeys(c: Fields, keys: seq<string>)
    requires Aligned(c)
    ensures Aligned(SortFields(c, keys))
    ensures NumRows(SortFields(c, keys)) == NumRows(c)
    ensures Keys(SortFields(c, keys), keys) == Gather(Keys(c, keys), StableIndex(CompareKey, Keys(c, keys)))
    ensures Sorted(CompareKey, Keys(SortFields(c, keys), keys))
    ensures Elements(Keys(SortFields(c, keys), keys)) == Elements(Keys(c, keys))
  {
    var ks, s := Keys(c, keys), SortFields(c, keys);
    var idx := StableIndex(CompareKey, ks);
    StableIndexFacts(ks);
    GatherRows(c, idx);
    KeysAreRowKeys(c, keys);
    KeysAreRowKeys(s, keys);
    var sorted := Gather(ks, idx);
    assert Keys(s, keys) == sorted;
    forall i, j | 0 <= i < j < |sorted| ensures CompareKey(sorted[i], sorted[j]) != Greater {
      assert Before(CompareKey, ks, idx[i], idx[j]);
    }
    GatherKeepsElements(ks, idx);
  }

  lemma GatherKeepsElements<T>(s: seq<T>, idx: seq<nat>)
    requires Below(idx, |s|) && forall a: nat | a < |s| :: a in idx
    ensures Elements(Gather(s, idx)) == Elements(s)
  {
    forall x | x in s ensures x in Gather(s, idx) {
      var a :| 0 <= a < |s| && s[a] == x;
      assert a in idx;
      var p :| 0 <= p < |idx| && idx[p] == a;
      assert Gather(s, idx)[p] == x;
    }
  }
}
