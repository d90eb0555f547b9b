/**
  `_assign_path` (models/config.py): writing a value at a path of nested objects, replacing whatever
  on the way is not an object.
 */
module ConfigPaths {
  import opened Prelude

  type Object = map<string, Json>

  function AssignPath(target: Object, path: Path, value: Json): (r: Object)
    requires path != []
    ensures path[0] in r
    decreases |path|
  {
    if |path| == 1 then target[path[0] := value]
    else target[path[0] := JObject(AssignPath(Inner(target, path[0]), path[1..], value))]
  }

  /** The object under a key, a new one when there is none. */
  function Inner(target: Object, key: string): Object {
    if key in target && target[key].JObject? then target[key].fields else map[]
  }

  function Get(d: Json, path: Path): Option<Json> {
    if path == [] then Some(d)
    else if d.JObject? && path[0] in d.fields then Get(d.fields[path[0]], path[1..])
    else None
  }

  predicate Comparable(p: Path, q: Path) {
    p <= q || q <= p
  }

  function ObjectAt(d: Json, path: Path): Object {
    var v := Get(d, path);
    if v.Some? && v.value.JObject? then v.value.fields else map[]
  }

  lemma InnerObject(target: Object, q: Path)
    requires q != []
    ensures ObjectAt(JObject(Inner(target, q[0])), q[1..]) == ObjectAt(JObject(target), q)
    ensures q[0] in target && target[q[0]].JObject? ==>
              Get(JObject(Inner(target, q[0])), q[1..]) == Get(JObject(target), q)
    ensures !(q[0] in target && target[q[0]].JObject?) && |q| > 1 ==>
              Get(JObject(target), q) == None == Get(JObject(Inner(target, q[0])), q[1..])
  {
    assert Get(JObject(target), q) == if q[0] in target then Get(target[q[0]], q[1..]) else None;
    if q[0] in target && target[q[0]].JObject? {
      assert JObject(Inner(target, q[0])) == target[q[0]];
    }
  }

  /** An assignment seen through one key. */
  lemma GetThroughKey(target: Object, p: Path, v: Json, q: Path)
    requires p != [] && q != []
    ensures Get(JObject(AssignPath(target, p, v)), q) ==
            if q[0] != p[0] then Get(JObject(target), q)
            else if |p| == 1 then Get(v, q[1..])
            else Get(JObject(AssignPath(Inner(target, p[0]), p[1..], v)), q[1..])
  {
  }

  lemma PrefixTails(p: Path, q: Path)
    requires p != [] && q != [] && p[0] == q[0]
    ensures p <= q <==> p[1..] <= q[1..]
    ensures p <= q ==> q[1..][|p[1..]|..] == q[|p|..]
  {
    assert p == [p[0]] + p[1..] && q == [q[0]] + q[1..];
  }

  /**
    What every path holds after an assignment: below the assigned path the new value, above it the
    old object with the rest assigned, elsewhere what it held before.
   */
  lemma {:induction false} GetAfterAssign(target: Object, p: Path, v: Json, q: Path)
    requires p != []
    ensures Get(JObject(AssignPath(target, p, v)), q) ==
            if p <= q then Get(v, q[|p|..])
            else if q <= p then Some(JObject(AssignPath(ObjectAt(JObject(target), q), p[|q|..], v)))
            else Get(JObject(target), q)
    decreases |p|
  {
    if q == [] {
      assert p[0..] == p;
    } else {
      GetThroughKey(target, p, v, q);
      if q[0] == p[0] {
        PrefixTails(p, q);
        PrefixTails(q, p);
        if |p| > 1 {
          GetAfterAssign(Inner(target, p[0]), p[1..], v, q[1..]);
          InnerObject(target, q);
        } else {
          assert p == [q[0]] && p <= q;
        }
      }
    }
  }

  lemma AssignTwice(target: Object, p: Path, v: Json, q: Path, w: Json)
    requires |p| > 1 && |q| > 1 && p[0] == q[0]
    ensures AssignPath(AssignPath(target, p, v), q, w) ==
            target[p[0] := JObject(AssignPath(AssignPath(Inner(target, p[0]), p[1..], v), q[1..], w))]
  {
    var once := AssignPath(Inner(target, p[0]), p[1..], v);
    assert AssignPath(target, p, v) == target[p[0] := JObject(once)];
    assert Inner(AssignPath(target, p, v), q[0]) == once;
    var twice := AssignPath(once, q[1..], w);
    assert target[p[0] := JObject(once)][q[0] := JObject(twice)] == target[p[0] := JObject(twice)];
  }

  lemma AssignApart(target: Object, p: Path, v: Json, q: Path, w: Json)
    requires p != [] && q != [] && p[0] != q[0]
    ensures AssignPath(AssignPath(target, p, v), q, w) ==
            target[p[0] := AssignPath(target, p, v)[p[0]]][q[0] := AssignPath(target, q, w)[q[0]]]
  {
    assert Inner(AssignPath(target, p, v), q[0]) == Inner(target, q[0]);
  }

  lemma CommuteSameHead(target: Object, p: Path, v: Json, q: Path, w: Json)
    requires |p| > 1 && |q| > 1 && p[0] == q[0]
    requires var inner := Inner(target, p[0]);
             AssignPath(AssignPath(inner, p[1..], v), q[1..], w) == AssignPath(AssignPath(inner, q[1..], w), p[1..], v)
    ensures AssignPath(AssignPath(target, p, v), q, w) == AssignPath(AssignPath(target, q, w), p, v)
  {
    AssignTwice(target, p, v, q, w);
    AssignTwice(target, q, w, p, v);
  }

  lemma CommuteApart(target: Object, p: Path, v: Json, q: Path, w: Json)
    requires p != [] && q != [] && p[0] != q[0]
    ensures AssignPath(AssignPath(target, p, v), q, w) == AssignPath(AssignPath(target, q, w), p, v)
  {
    AssignApart(target, p, v, q, w);
    AssignApart(target, q, w, p, v);
    var a, b := AssignPath(target, p, v)[p[0]], AssignPath(target, q, w)[q[0]];
    assert target[p[0] := a][q[0] := b] == target[q[0] := b][p[0] := a];
  }

  /** Assignments at incomparable paths commute. */
  lemma {:induction false} AssignCommutes(target: Object, p: Path, v: Json, q: Path, w: Json)
    requires p != [] && q != [] && !Comparable(p, q)
    ensures AssignPath(AssignPath(target, p, v), q, w) == AssignPath(AssignPath(target, q, w), p, v)
    decreases |p|
  {
    if p[0] == q[0] {
      assert p == [p[0]] + p[1..] && q == [q[0]] + q[1..];
      assert |p| > 1 && |q| > 1 && !Comparable(p[1..], q[1..]);
      AssignCommutes(Inner(target, p[0]), p[1..], v, q[1..], w);
      CommuteSameHead(target, p, v, q, w);
    } else {
      CommuteApart(target, p, v, q, w);
    }
  }

  /** When a later assignment keeps an earlier plain value, decided from the two rows alone. */
  lemma OverwriteExactly(target: Object, p: Path, v: Json, q: Path, w: Json)
    requires p != [] && q != [] && !v.JObject?
    ensures Get(JObject(AssignPath(AssignPath(target, p, v), q, w)), p) == Some(v) <==>
            !Comparable(p, q) || (q <= p && Get(w, p[|q|..]) == Some(v))
  {
    GetAfterAssign(target, p, v, p);
    GetAfterAssign(AssignPath(target, p, v), q, w, p);
    assert p[|p|..] == [];
    if p <= q && q <= p {
      assert p == q;
    }
  }

  // ---------- Rebuilding an object from its leaves ----------

  /** No object inside d is empty; d itself may be. */
  predicate NoEmptyObjects(d: Json) {
    d.JObject? ==> forall k :: k in d.fields ==> d.fields[k] != JObject(map[]) && NoEmptyObjects(d.fields[k])
  }

  /** Something other than an object sits at p. */
  ghost predicate LeafAt(d: Json, p: Path, v: Json) {
    !v.JObject? && Get(d, p) == Some(v)
  }

  lemma {:induction false} SomeLeaf(d: Json) returns (p: Path, v: Json)
    requires NoEmptyObjects(d) && d != JObject(map[])
    ensures LeafAt(d, p, v)
    decreases d
  {
    if d.JObject? {
      var k :| k in d.fields;
      p, v := SomeLeaf(d.fields[k]);
      p := [k] + p;
      assert p[1..] == p[1..];
      assert Get(d, p) == Get(d.fields[k], p[1..]);
    } else {
      p, v := [], d;
    }
  }

  /** Objects with the same leaves and no empty parts are the same. */
  lemma {:induction false} SameLeavesSame(a: Json, b: Json)
    requires NoEmptyObjects(a) && NoEmptyObjects(b) && a.JObject? && b.JObject?
    requires forall p, v :: LeafAt(a, p, v) <==> LeafAt(b, p, v)
    ensures a == b
    decreases a
  {
    SubKeys(a, b);
    SubKeys(b, a);
    forall k | k in a.fields
      ensures a.fields[k] == b.fields[k]
    {
      var x, y := a.fields[k], b.fields[k];
      forall p, v
        ensures LeafAt(x, p, v) <==> LeafAt(y, p, v)
      {
        assert ([k] + p)[1..] == p;
        assert LeafAt(a, [k] + p, v) <==> LeafAt(b, [k] + p, v);
      }
      if !x.JObject? {
        assert LeafAt(x, [], x);
      } else if !y.JObject? {
        assert LeafAt(y, [], y);
      } else {
        SameLeavesSame(x, y);
      }
    }
  }

  lemma SubKeys(a: Json, b: Json)
    requires NoEmptyObjects(a) && a.JObject? && b.JObject?
    requires forall p, v :: LeafAt(a, p, v) ==> LeafAt(b, p, v)
    ensures a.fields.Keys <= b.fields.Keys
  {
    forall k | k in a.fields
      ensures k in b.fields
    {
      var p, v := SomeLeaf(a.fields[k]);
      assert ([k] + p)[1..] == p;
      assert LeafAt(a, [k] + p, v);
    }
  }

  datatype Leaf = Leaf(path: Path, value: Json)

  /** The rows applied one after the other. */
  function AssignAll(target: Object, leaves: seq<Leaf>): Object
    requires forall l :: l in leaves ==> l.path != []
  {
    if leaves == [] then target
    else
      var last := leaves[|leaves| - 1];
      AssignPath(AssignAll(target, leaves[..|leaves| - 1]), last.path, last.value)
  }

  /** Pairwise, either incomparable paths or the very same row. */
  predicate Compatible(leaves: seq<Leaf>) {
    forall i, j :: 0 <= i < |leaves| && 0 <= j < |leaves| ==>
      leaves[i] == leaves[j] || !Comparable(leaves[i].path, leaves[j].path)
  }

  lemma {:induction false} AssignKeepsNonEmpty(target: Object, p: Path, v: Json)
    requires p != [] && !v.JObject? && NoEmptyObjects(JObject(target))
    ensures NoEmptyObjects(JObject(AssignPath(target, p, v)))
    decreases |p|
  {
    if |p| > 1 {
      AssignKeepsNonEmpty(Inner(target, p[0]), p[1..], v);
    }
  }

  /** The leaves after applying compatible rows to an empty object are exactly the rows. */
  lemma {:induction false} AssignAllLeaves(leaves: seq<Leaf>)
    requires forall l :: l in leaves ==> l.path != [] && !l.value.JObject?
    requires Compatible(leaves)
    ensures NoEmptyObjects(JObject(AssignAll(map[], leaves)))
    ensures forall p, v :: LeafAt(JObject(AssignAll(map[], leaves)), p, v) <==> Leaf(p, v) in leaves
    decreases |leaves|
  {
    if leaves == [] {
      forall p, v
        ensures !LeafAt(JObject(map[]), p, v)
      {
      }
    } else {
      var n := |leaves| - 1;
      var rest, last := leaves[..n], leaves[n];
      assert leaves == rest + [last];
      AssignAllLeaves(rest);
      var d := AssignAll(map[], rest);
      AssignKeepsNonEmpty(d, last.path, last.value);
      forall p, v
        ensures LeafAt(JObject(AssignPath(d, last.path, last.value)), p, v) <==> Leaf(p, v) in leaves
      {
        GetAfterAssign(d, last.path, last.value, p);
        if last.path <= p && p != last.path {
          assert Get(last.value, p[|last.path|..]) == None;
        }
        if p == last.path {
          assert p[|p|..] == [];
        }
        if Leaf(p, v) in rest {
          assert Leaf(p, v) == last || !Comparable(p, last.path);
        }
      }
    }
  }

  /** Folding the leaves of an object, in any order and with any repetition, rebuilds it. */
  lemma RebuildTheorem(d: Object, leaves: seq<Leaf>)
    requires NoEmptyObjects(JObject(d))
    requires forall p, v :: Leaf(p, v) in leaves <==> LeafAt(JObject(d), p, v)
    ensures (forall l :: l in leaves ==> l.path != []) && AssignAll(map[], leaves) == d
  {
    forall l | l in leaves
      ensures l.path != [] && !l.value.JObject?
    {
      assert Leaf(l.path, l.value) in leaves;
    }
    forall i, j | 0 <= i < |leaves| && 0 <= j < |leaves|
      ensures leaves[i] == leaves[j] || !Comparable(leaves[i].path, leaves[j].path)
    {
      assert leaves[i] in leaves && leaves[j] in leaves;
      var p, q := leaves[i].path, leaves[j].path;
      assert LeafAt(JObject(d), p, leaves[i].value) && LeafAt(JObject(d), q, leaves[j].value);
      if p <= q {
        LeavesAreApart(JObject(d), p, q);
      }
      if q <= p {
        LeavesAreApart(JObject(d), q, p);
      }
    }
    AssignAllLeaves(leaves);
    SameLeavesSame(JObject(AssignAll(map[], leaves)), JObject(d));
  }

  lemma {:induction false} LeavesAreApart(d: Json, p: Path, q: Path)
    requires p <= q && Get(d, p).Some? && !Get(d, p).value.JObject? && Get(d, q).Some?
    ensures p == q
    decreases |p|
  {
    if p != [] {
      LeavesAreApart(d.fields[p[0]], p[1..], q[1..]);
      assert p == [p[0]] + p[1..] && q == [q[0]] + q[1..];
    }
  }
}
