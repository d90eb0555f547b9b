/**
  The configuration table (models/config.py) and its startup pipeline: rename a prefix, fold
  flattened rows back into the dictionaries they came from, seed missing defaults.
 */
module ConfigTable {
  import opened Prelude
  import opened ConfigPaths
  import Keys = ConfigKeys

  type Rows = map<string, Json>

  // ---------- The dictionary-valued keys ----------

  const DICT_KEYS: seq<string> := [
    "openai.api_configs", "ollama.api_configs", "rag.mineru_params", "rag.docling_params",
    "web.search.linkup_search_params", "image_generation.automatic1111.api_params", "image_generation.openai.params",
    "audio.tts.openai.params", "audio.realtime.input_params", "models.default_metadata", "models.default_params",
    "task.model.params", "ui.default_interface_settings", "user.permissions"]

  /** Each has one old name. */
  const ALIASES: seq<string> := [
    "OPENAI_API_CONFIGS", "OLLAMA_API_CONFIGS", "MINERU_PARAMS", "DOCLING_PARAMS",
    "LINKUP_SEARCH_PARAMS", "AUTOMATIC1111_PARAMS", "IMAGES_OPENAI_API_PARAMS",
    "AUDIO_TTS_OPENAI_PARAMS", "AUDIO_REALTIME_INPUT_PARAMS", "DEFAULT_MODEL_METADATA", "DEFAULT_MODEL_PARAMS",
    "TASK_MODEL_PARAMS", "DEFAULT_INTERFACE_SETTINGS", "USER_PERMISSIONS"]

  /** These hold one object per connection. */
  predicate IsApi(d: nat) {
    d < 2
  }

  const COUNT := 14
  const MODEL_LIST_KEYS: seq<string> := ["ui.default_models", "ui.default_pinned_models"]
  const OLD_PREFIX := "rag.web"
  const NEW_PREFIX := "web"

  function CharAt(s: string, k: nat): char {
    if k < |s| then s[k] else ' '
  }

  /**
    Which of the names above a key can begin with, read off the characters in which they differ:
    the dictionary keys in order, then the two model lists, then the old prefix.
   */
  function Family(s: string): nat {
    match CharAt(s, 0)
    case 'o' => if CharAt(s, 1) == 'p' then 0 else 1
    case 'O' => if CharAt(s, 1) == 'P' then 0 else 1
    case 'r' => if CharAt(s, 4) == 'm' then 2 else if CharAt(s, 4) == 'd' then 3 else 16
    case 'M' => 2
    case 'D' =>
      if CharAt(s, 1) == 'O' then 3 else if CharAt(s, 8) == 'I' then 12 else if CharAt(s, 14) == 'M' then 9 else 10
    case 'w' => 4
    case 'L' => 4
    case 'i' => if CharAt(s, 17) == 'a' then 5 else 6
    case 'I' => 6
    case 'A' => if CharAt(s, 2) == 'T' then 5 else if CharAt(s, 6) == 'T' then 7 else 8
    case 'a' => if CharAt(s, 6) == 't' then 7 else 8
    case 'm' => if CharAt(s, 15) == 'm' then 9 else 10
    case 't' => 11
    case 'T' => 11
    case 'u' =>
      if CharAt(s, 1) == 's' then 13 else if CharAt(s, 11) == 'i' then 12 else if CharAt(s, 11) == 'm' then 14 else 15
    case 'U' => 13
    case _ => 17
  }

  lemma KeyFamily(s: string)
    ensures |DICT_KEYS| == COUNT
    ensures forall d :: 0 <= d < COUNT && DICT_KEYS[d] <= s ==> Family(s) == d
  {
  }

  lemma AliasFamily(s: string)
    ensures |ALIASES| == COUNT
    ensures forall d :: 0 <= d < COUNT && ALIASES[d] <= s ==> Family(s) == d
  {
  }

  lemma OtherFamily(s: string)
    ensures |MODEL_LIST_KEYS| == 2
    ensures forall m :: 0 <= m < 2 && MODEL_LIST_KEYS[m] <= s ==> Family(s) == COUNT + m
    ensures OLD_PREFIX + "." <= s ==> Family(s) == 16
  {
  }

  lemma KeyIsNotAlias(d: nat)
    requires d < COUNT
    ensures |DICT_KEYS| == |ALIASES| == COUNT && !(ALIASES[d] <= DICT_KEYS[d])
  {
    assert ALIASES[d][0] != DICT_KEYS[d][0];
  }

  // ---------- Which rows are flattened pieces of a dictionary ----------

  predicate Under(prefix: string, key: string) {
    prefix + "." <= key
  }

  function Prefixes(d: nat): seq<string>
    requires d < COUNT
  {
    [DICT_KEYS[d], ALIASES[d]]
  }

  /** What follows the first of the prefixes that the key is under. */
  function FragmentOf(prefixes: seq<string>, key: string): Option<string> {
    if prefixes == [] then None
    else if Under(prefixes[0], key) then Some(key[|prefixes[0]| + 1..])
    else FragmentOf(prefixes[1..], key)
  }

  /** The path of a row inside dictionary d, None when the row is no piece of it. */
  ghost function RowPath(d: nat, key: string): (p: Option<Path>)
    requires d < COUNT
    ensures p.Some? ==> p.value != [] && (IsApi(d) ==> |p.value| > 1)
  {
    var fragment := FragmentOf(Prefixes(d), key);
    if fragment.None? then None
    else if IsApi(d) then
      var split := Keys.SplitOf(Keys.API_CONFIG_FIELDS, fragment.value);
      if split.None? then None else Some([split.value.connectionKey] + split.value.path)
    else Some(Split(fragment.value, '.'))
  }

  lemma FragmentOfTwo(a: string, b: string, key: string)
    ensures FragmentOf([a, b], key).Some? <==> Under(a, key) || Under(b, key)
    ensures Under(a, key) ==> a <= key && a != key
    ensures Under(b, key) ==> b <= key
  {
    assert [a, b][1..] == [b];
    assert [b][1..] == [];
    assert FragmentOf([], key) == None;
    assert Under(a, key) ==> key[..|a|] == (a + ".")[..|a|] == a;
    assert Under(b, key) ==> key[..|b|] == (b + ".")[..|b|] == b;
  }

  /** A key is a piece of at most one dictionary, and never a dictionary key itself. */
  lemma FragmentFamily(d: nat, key: string)
    requires d < COUNT && FragmentOf(Prefixes(d), key).Some?
    ensures Family(key) == d && key !in DICT_KEYS
  {
    FragmentOfTwo(DICT_KEYS[d], ALIASES[d], key);
    KeyFamily(key);
    AliasFamily(key);
    if key in DICT_KEYS {
      var e :| 0 <= e < COUNT && DICT_KEYS[e] == key;
      assert DICT_KEYS[e] <= key;
      KeyIsNotAlias(d);
      assert false;
    }
  }

  lemma RowPathFamily(d: nat, key: string)
    requires d < COUNT && RowPath(d, key).Some?
    ensures Family(key) == d && key !in DICT_KEYS && key !in MODEL_LIST_KEYS
  {
    FragmentFamily(d, key);
    if key in MODEL_LIST_KEYS {
      var m :| 0 <= m < 2 && MODEL_LIST_KEYS[m] == key;
      assert MODEL_LIST_KEYS[m] <= key;
      OtherFamily(key);
      assert false;
    }
  }

  lemma DictKeysAreDistinct(d: nat, e: nat)
    requires d < COUNT && e < COUNT
    ensures |DICT_KEYS| == COUNT && (DICT_KEYS[d] == DICT_KEYS[e] ==> d == e) && DICT_KEYS[d] !in MODEL_LIST_KEYS
  {
    KeyFamily(DICT_KEYS[d]);
    OtherFamily(DICT_KEYS[d]);
    assert DICT_KEYS[d] <= DICT_KEYS[d];
    assert DICT_KEYS[e] <= DICT_KEYS[e];
  }

  // ---------- What repairing means ----------

  /** The dictionary that repair starts from; a value that is no object counts as empty. */
  function Base(rows: Rows, d: nat): Object
    requires d < COUNT
  {
    if DICT_KEYS[d] in rows && rows[DICT_KEYS[d]].JObject? then rows[DICT_KEYS[d]].fields else map[]
  }

  /** A connection whose entry is not an object keeps it, and its rows are left alone. */
  predicate Blocked(d: nat, dict: Object, p: Path)
    requires p != []
  {
    IsApi(d) && p[0] in dict && !dict[p[0]].JObject?
  }

  ghost predicate Orphan(rows: Rows, d: nat, key: string)
    requires d < COUNT
  {
    key in rows && RowPath(d, key).Some? && !Blocked(d, Base(rows, d), RowPath(d, key).value)
  }

  ghost predicate AnyOrphan(rows: Rows, key: string) {
    exists d :: 0 <= d < COUNT && Orphan(rows, d, key)
  }

  ghost function OrphanLeaf(rows: Rows, d: nat, key: string): Leaf
    requires d < COUNT && Orphan(rows, d, key)
  {
    Leaf(RowPath(d, key).value, rows[key])
  }

  /** The rows applied to dictionary d are its orphans, in some order, perhaps some of them twice. */
  ghost predicate OrphanLeaves(rows: Rows, d: nat, leaves: seq<Leaf>)
    requires d < COUNT
  {
    (forall l :: l in leaves ==> l.path != []) &&
    forall l :: l in leaves <==> exists key :: Orphan(rows, d, key) && OrphanLeaf(rows, d, key) == l
  }

  ghost predicate Repaired(rows: Rows, d: nat, v: Json)
    requires d < COUNT
  {
    exists leaves :: OrphanLeaves(rows, d, leaves) && v == JObject(AssignAll(Base(rows, d), leaves))
  }

  /** The pieces among the rows seen so far have been assigned, the others left alone. */
  ghost predicate Folded(rows: Rows, d: nat, seen: seq<string>, orphans: seq<string>, leaves: seq<Leaf>, repaired: Object)
    requires d < COUNT
  {
    (forall l :: l in leaves ==> l.path != []) &&
    repaired == AssignAll(Base(rows, d), leaves) &&
    (forall p: Path :: p != [] ==> (Blocked(d, repaired, p) <==> Blocked(d, Base(rows, d), p))) &&
    (forall k :: k in orphans <==> k in seen && Orphan(rows, d, k)) &&
    forall l :: l in leaves <==> exists k :: k in orphans && Orphan(rows, d, k) && OrphanLeaf(rows, d, k) == l
  }

  lemma FoldAdd(rows: Rows, d: nat, seen: seq<string>, orphans: seq<string>, leaves: seq<Leaf>, repaired: Object, key: string)
    requires d < COUNT && Folded(rows, d, seen, orphans, leaves, repaired)
    requires key in rows && RowPath(d, key).Some? && !Blocked(d, repaired, RowPath(d, key).value)
    ensures var path := RowPath(d, key).value;
            Folded(rows, d, seen + [key], orphans + [key], leaves + [Leaf(path, rows[key])],
                   AssignPath(repaired, path, rows[key]))
  {
    var leaf := Leaf(RowPath(d, key).value, rows[key]);
    assert Orphan(rows, d, key) && OrphanLeaf(rows, d, key) == leaf;
    assert (leaves + [leaf])[..|leaves|] == leaves;
    forall l
      ensures l in leaves + [leaf] <==>
              exists k :: k in orphans + [key] && Orphan(rows, d, k) && OrphanLeaf(rows, d, k) == l
    {
      if l in leaves {
        var k :| k in orphans && Orphan(rows, d, k) && OrphanLeaf(rows, d, k) == l;
        assert k in orphans + [key];
      } else if l == leaf {
        assert key in orphans + [key];
      }
    }
  }

  lemma FoldSkip(rows: Rows, d: nat, seen: seq<string>, orphans: seq<string>, leaves: seq<Leaf>, repaired: Object, key: string)
    requires d < COUNT && Folded(rows, d, seen, orphans, leaves, repaired)
    requires RowPath(d, key).Some? ==> Blocked(d, repaired, RowPath(d, key).value)
    ensures Folded(rows, d, seen + [key], orphans, leaves, repaired)
  {
    assert !Orphan(rows, d, key);
  }

  lemma FoldEnd(rows: Rows, d: nat, seen: seq<string>, orphans: seq<string>, leaves: seq<Leaf>, repaired: Object)
    requires d < COUNT && Folded(rows, d, seen, orphans, leaves, repaired)
    requires forall k :: k in rows && RowPath(d, k).Some? ==> k in seen
    ensures forall k :: k in orphans <==> Orphan(rows, d, k)
    ensures Repaired(rows, d, JObject(repaired))
  {
    assert OrphanLeaves(rows, d, leaves);
  }

  /** A leaf at or below another one holds what the other one's value holds there. */
  predicate LeafAgrees(l: Leaf, l': Leaf) {
    l.path <= l'.path ==> Get(l.value, l'.path[|l.path|..]) == Some(l'.value)
  }

  ghost predicate OrphansAgree(rows: Rows, d: nat)
    requires d < COUNT
  {
    forall k, k' :: Orphan(rows, d, k) && Orphan(rows, d, k') ==>
      LeafAgrees(OrphanLeaf(rows, d, k), OrphanLeaf(rows, d, k'))
  }

  lemma {:induction false} AssignSame(target: Object, p: Path, v: Json)
    requires p != [] && Get(JObject(target), p) == Some(v)
    ensures AssignPath(target, p, v) == target
    decreases |p|
  {
    if |p| > 1 {
      AssignSame(Inner(target, p[0]), p[1..], v);
    }
  }

  /** One more assignment that agrees with what an earlier one wrote leaves that in place. */
  lemma AssignKeepsLeaf(target: Object, l: Leaf, next: Leaf)
    requires next.path != [] && Get(JObject(target), l.path) == Some(l.value)
    requires LeafAgrees(l, next) && LeafAgrees(next, l)
    ensures Get(JObject(AssignPath(target, next.path, next.value)), l.path) == Some(l.value)
  {
    GetAfterAssign(target, next.path, next.value, l.path);
    if l.path <= next.path && !(next.path <= l.path) {
      AssignSame(ObjectAt(JObject(target), l.path), next.path[|l.path|..], next.value);
    }
  }

  lemma {:induction false} AssignAllKeeps(base: Object, leaves: seq<Leaf>)
    requires forall l :: l in leaves ==> l.path != []
    requires forall l, l' :: l in leaves && l' in leaves ==> LeafAgrees(l, l')
    ensures forall l :: l in leaves ==> Get(JObject(AssignAll(base, leaves)), l.path) == Some(l.value)
    decreases |leaves|
  {
    if leaves != [] {
      var n := |leaves| - 1;
      var rest, last := leaves[..n], leaves[n];
      assert leaves == rest + [last];
      AssignAllKeeps(base, rest);
      forall l | l in leaves
        ensures Get(JObject(AssignAll(base, leaves)), l.path) == Some(l.value)
      {
        if l in rest {
          AssignKeepsLeaf(AssignAll(base, rest), l, last);
        } else {
          GetAfterAssign(AssignAll(base, rest), last.path, last.value, last.path);
        }
      }
    }
  }

  lemma {:induction false} AssignAllElsewhere(base: Object, leaves: seq<Leaf>, p: Path)
    requires forall l :: l in leaves ==> l.path != [] && !Comparable(l.path, p)
    ensures Get(JObject(AssignAll(base, leaves)), p) == Get(JObject(base), p)
    decreases |leaves|
  {
    if leaves != [] {
      var n := |leaves| - 1;
      AssignAllElsewhere(base, leaves[..n], p);
      GetAfterAssign(AssignAll(base, leaves[..n]), leaves[n].path, leaves[n].value, p);
    }
  }

  /** When the orphans agree, every one's value is in the repaired dictionary at its path. */
  lemma RepairLosesNothing(rows: Rows, d: nat, v: Json, key: string)
    requires d < COUNT && Repaired(rows, d, v) && OrphansAgree(rows, d) && Orphan(rows, d, key)
    ensures Get(v, RowPath(d, key).value) == Some(rows[key])
  {
    var leaves: seq<Leaf> :| OrphanLeaves(rows, d, leaves) && v == JObject(AssignAll(Base(rows, d), leaves));
    LeavesKept(rows, d, leaves, key);
  }

  lemma LeavesKept(rows: Rows, d: nat, leaves: seq<Leaf>, key: string)
    requires d < COUNT && OrphanLeaves(rows, d, leaves) && OrphansAgree(rows, d) && Orphan(rows, d, key)
    ensures Get(JObject(AssignAll(Base(rows, d), leaves)), RowPath(d, key).value) == Some(rows[key])
  {
    forall l, l' | l in leaves && l' in leaves
      ensures LeafAgrees(l, l')
    {
      var k :| Orphan(rows, d, k) && OrphanLeaf(rows, d, k) == l;
      var k' :| Orphan(rows, d, k') && OrphanLeaf(rows, d, k') == l';
    }
    AssignAllKeeps(Base(rows, d), leaves);
    assert OrphanLeaf(rows, d, key) in leaves;
  }

  ghost predicate KeepsEveryOrphan(rows: Rows, d: nat, leaves: seq<Leaf>)
    requires d < COUNT && OrphanLeaves(rows, d, leaves)
  {
    forall key :: Orphan(rows, d, key) ==>
      Get(JObject(AssignAll(Base(rows, d), leaves)), RowPath(d, key).value) == Some(rows[key])
  }

  /** The orphans' leaves in an order that ends with one of them. */
  lemma OrderEndingWith(rows: Rows, d: nat, key: string) returns (leaves: seq<Leaf>)
    requires d < COUNT && Orphan(rows, d, key)
    ensures OrphanLeaves(rows, d, leaves) && leaves != [] && leaves[|leaves| - 1] == OrphanLeaf(rows, d, key)
  {
    var last := OrphanLeaf(rows, d, key);
    var rest := (set k | k in rows && Orphan(rows, d, k) :: OrphanLeaf(rows, d, k)) - {last};
    ghost var all := rest;
    leaves := [];
    while rest != {}
      invariant rest <= all
      invariant forall l :: l in leaves <==> l in all && l !in rest
      decreases rest
    {
      var l :| l in rest;
      leaves, rest := leaves + [l], rest - {l};
    }
    leaves := leaves + [last];
    forall l
      ensures l in leaves <==> exists k :: Orphan(rows, d, k) && OrphanLeaf(rows, d, k) == l
    {
      assert l in leaves <==> l in all || l == last;
    }
  }

  /** Whatever order the rows come in, nothing is lost exactly when the orphans agree. */
  lemma RepairKeepsOrphansExactly(rows: Rows, d: nat)
    requires d < COUNT
    ensures OrphansAgree(rows, d) <==> forall leaves :: OrphanLeaves(rows, d, leaves) ==> KeepsEveryOrphan(rows, d, leaves)
  {
    if OrphansAgree(rows, d) {
      forall leaves, key | OrphanLeaves(rows, d, leaves) && Orphan(rows, d, key)
        ensures Get(JObject(AssignAll(Base(rows, d), leaves)), RowPath(d, key).value) == Some(rows[key])
      {
        LeavesKept(rows, d, leaves, key);
      }
    }
    if forall leaves :: OrphanLeaves(rows, d, leaves) ==> KeepsEveryOrphan(rows, d, leaves) {
      forall k, k' | Orphan(rows, d, k) && Orphan(rows, d, k')
        ensures LeafAgrees(OrphanLeaf(rows, d, k), OrphanLeaf(rows, d, k'))
      {
        var l, l' := OrphanLeaf(rows, d, k), OrphanLeaf(rows, d, k');
        var leaves := OrderEndingWith(rows, d, k);
        assert KeepsEveryOrphan(rows, d, leaves);
        GetAfterAssign(AssignAll(Base(rows, d), leaves[..|leaves| - 1]), l.path, l.value, l'.path);
      }
    }
  }

  /** What the dictionary held away from every orphan's path is still there. */
  lemma RepairKeepsTheRest(rows: Rows, d: nat, v: Json, p: Path)
    requires d < COUNT && Repaired(rows, d, v)
    requires forall key :: Orphan(rows, d, key) ==> !Comparable(RowPath(d, key).value, p)
    ensures Get(v, p) == Get(JObject(Base(rows, d)), p)
  {
    var leaves: seq<Leaf> :| OrphanLeaves(rows, d, leaves) && v == JObject(AssignAll(Base(rows, d), leaves));
    forall l | l in leaves
      ensures !Comparable(l.path, p)
    {
      var k :| Orphan(rows, d, k) && OrphanLeaf(rows, d, k) == l;
    }
    AssignAllElsewhere(Base(rows, d), leaves, p);
  }

  // ---------- What becomes of the dictionary's own values ----------

  /** Every orphan at, above or below p agrees with the value there. */
  ghost predicate AgreesAt(rows: Rows, d: nat, p: Path, v: Json)
    requires d < COUNT
  {
    forall key :: Orphan(rows, d, key) ==>
      LeafAgrees(OrphanLeaf(rows, d, key), Leaf(p, v)) && LeafAgrees(Leaf(p, v), OrphanLeaf(rows, d, key))
  }

  ghost predicate KeepsValue(rows: Rows, d: nat, leaves: seq<Leaf>, p: Path, v: Json)
    requires d < COUNT && OrphanLeaves(rows, d, leaves)
  {
    Get(JObject(AssignAll(Base(rows, d), leaves)), p) == Some(v)
  }

  lemma {:induction false} AssignAllKeepsOne(base: Object, leaves: seq<Leaf>, l: Leaf)
    requires Get(JObject(base), l.path) == Some(l.value)
    requires forall next :: next in leaves ==> next.path != [] && LeafAgrees(l, next) && LeafAgrees(next, l)
    ensures Get(JObject(AssignAll(base, leaves)), l.path) == Some(l.value)
    decreases |leaves|
  {
    if leaves != [] {
      var n := |leaves| - 1;
      AssignAllKeepsOne(base, leaves[..n], l);
      assert leaves[n] in leaves;
      AssignKeepsLeaf(AssignAll(base, leaves[..n]), l, leaves[n]);
    }
  }

  lemma AgreeingValueStays(rows: Rows, d: nat, leaves: seq<Leaf>, p: Path, v: Json)
    requires d < COUNT && OrphanLeaves(rows, d, leaves)
    requires Get(JObject(Base(rows, d)), p) == Some(v) && AgreesAt(rows, d, p, v)
    ensures KeepsValue(rows, d, leaves, p, v)
  {
    forall next | next in leaves
      ensures LeafAgrees(Leaf(p, v), next) && LeafAgrees(next, Leaf(p, v))
    {
      var k :| Orphan(rows, d, k) && OrphanLeaf(rows, d, k) == next;
    }
    AssignAllKeepsOne(Base(rows, d), leaves, Leaf(p, v));
  }

  /** A value that is still there after the last assignment agrees with it. */
  lemma LastAssignmentAgrees(target: Object, next: Leaf, p: Path, v: Json)
    requires next.path != [] && Get(JObject(AssignPath(target, next.path, next.value)), p) == Some(v)
    ensures LeafAgrees(next, Leaf(p, v)) && LeafAgrees(Leaf(p, v), next)
  {
    GetAfterAssign(target, next.path, next.value, p);
    if p <= next.path {
      if next.path <= p {
        assert p == next.path && p[|p|..] == [];
      } else {
        var rest := next.path[|p|..];
        GetAfterAssign(ObjectAt(JObject(target), p), rest, next.value, rest);
        assert rest[|rest|..] == [];
      }
    }
  }

  /** In whatever order the rows come, a value of the dictionary stays exactly when the orphans agree with it. */
  lemma RepairKeepsValueExactly(rows: Rows, d: nat, p: Path, v: Json)
    requires d < COUNT && Get(JObject(Base(rows, d)), p) == Some(v)
    ensures AgreesAt(rows, d, p, v) <==> forall leaves :: OrphanLeaves(rows, d, leaves) ==> KeepsValue(rows, d, leaves, p, v)
  {
    if AgreesAt(rows, d, p, v) {
      forall leaves | OrphanLeaves(rows, d, leaves)
        ensures KeepsValue(rows, d, leaves, p, v)
      {
        AgreeingValueStays(rows, d, leaves, p, v);
      }
    }
    if forall leaves :: OrphanLeaves(rows, d, leaves) ==> KeepsValue(rows, d, leaves, p, v) {
      forall key | Orphan(rows, d, key)
        ensures LeafAgrees(OrphanLeaf(rows, d, key), Leaf(p, v)) && LeafAgrees(Leaf(p, v), OrphanLeaf(rows, d, key))
      {
        var leaves := OrderEndingWith(rows, d, key);
        assert KeepsValue(rows, d, leaves, p, v);
        LastAssignmentAgrees(AssignAll(Base(rows, d), leaves[..|leaves| - 1]), OrphanLeaf(rows, d, key), p, v);
      }
    }
  }

  /** A repair keeps every value of a dictionary that the orphans agree with. */
  ghost predicate ValuesStay(rows: Rows, rows': Rows, d: nat)
    requires d < COUNT && DICT_KEYS[d] in rows
  {
    var dict := rows[DICT_KEYS[d]];
    forall p, v :: dict.JObject? && Get(dict, p) == Some(v) && AgreesAt(rows, d, p, v) ==>
      DICT_KEYS[d] in rows' && Get(rows'[DICT_KEYS[d]], p) == Some(v)
  }

  lemma AgreeingValuesStay(rows: Rows, rows': Rows, d: nat)
    requires d < COUNT && DICT_KEYS[d] in rows && DictDone(rows, rows', d)
    ensures ValuesStay(rows, rows', d)
  {
    if exists k :: Orphan(rows, d, k) {
      var leaves: seq<Leaf> :|
        OrphanLeaves(rows, d, leaves) && rows'[DICT_KEYS[d]] == JObject(AssignAll(Base(rows, d), leaves));
      forall p, v | rows[DICT_KEYS[d]].JObject? && Get(rows[DICT_KEYS[d]], p) == Some(v) && AgreesAt(rows, d, p, v)
        ensures Get(rows'[DICT_KEYS[d]], p) == Some(v)
      {
        AgreeingValueStays(rows, d, leaves, p, v);
        assert KeepsValue(rows, d, leaves, p, v);
      }
    }
  }

  /** The whole row of a dictionary stays the same. */
  ghost predicate RowStays(rows: Rows, rows': Rows, d: nat)
    requires d < COUNT && DICT_KEYS[d] in rows
  {
    DICT_KEYS[d] in rows' && rows'[DICT_KEYS[d]] == rows[DICT_KEYS[d]]
  }

  /** It does when there is no orphan, or the row is an object that already holds every orphan's value. */
  ghost predicate NothingNew(rows: Rows, d: nat)
    requires d < COUNT && DICT_KEYS[d] in rows
  {
    (forall key :: !Orphan(rows, d, key)) ||
    (rows[DICT_KEYS[d]].JObject? &&
     forall key :: Orphan(rows, d, key) ==> Get(rows[DICT_KEYS[d]], RowPath(d, key).value) == Some(rows[key]))
  }

  lemma NothingNewAgrees(rows: Rows, d: nat)
    requires d < COUNT && DICT_KEYS[d] in rows && rows[DICT_KEYS[d]].JObject?
    ensures AgreesAt(rows, d, [], rows[DICT_KEYS[d]]) <==>
            forall key :: Orphan(rows, d, key) ==> Get(rows[DICT_KEYS[d]], RowPath(d, key).value) == Some(rows[key])
  {
    forall key | Orphan(rows, d, key)
      ensures OrphanLeaf(rows, d, key).path[0..] == RowPath(d, key).value
    {
    }
  }

  /** For a row that is no object that means: exactly when there is no orphan, since any orphan replaces it. */
  lemma DictionaryRowStaysExactly(rows: Rows, d: nat)
    requires d < COUNT && DICT_KEYS[d] in rows
    ensures NothingNew(rows, d) <==> forall rows' :: DictDone(rows, rows', d) ==> RowStays(rows, rows', d)
  {
    var was := rows[DICT_KEYS[d]];
    if was.JObject? {
      NothingNewAgrees(rows, d);
      RepairKeepsValueExactly(rows, d, [], was);
    }
    if NothingNew(rows, d) && exists k :: Orphan(rows, d, k) {
      forall rows' | DictDone(rows, rows', d)
        ensures RowStays(rows, rows', d)
      {
        var leaves: seq<Leaf> :|
          OrphanLeaves(rows, d, leaves) && rows'[DICT_KEYS[d]] == JObject(AssignAll(Base(rows, d), leaves));
        assert KeepsValue(rows, d, leaves, [], was);
      }
    }
    if (forall rows' :: DictDone(rows, rows', d) ==> RowStays(rows, rows', d)) && exists k :: Orphan(rows, d, k) {
      forall leaves | OrphanLeaves(rows, d, leaves)
        ensures JObject(AssignAll(Base(rows, d), leaves)) == was
      {
        var rows' := rows[DICT_KEYS[d] := JObject(AssignAll(Base(rows, d), leaves))];
        assert DictDone(rows, rows', d);
        assert RowStays(rows, rows', d);
      }
      var k :| Orphan(rows, d, k);
      var leaves := OrderEndingWith(rows, d, k);
      assert was.JObject?;
      forall leaves | OrphanLeaves(rows, d, leaves)
        ensures KeepsValue(rows, d, leaves, [], was)
      {
      }
    }
  }

  // ---------- A table on which a repair loses a value ----------

  const CONFLICT: Rows := map["user.permissions.a" := JString("1"), "user.permissions.a.b" := JString("2")]

  lemma ConflictOrphan(tail: string, path: Path)
    requires path != [] && Keys.DotFree(path) && tail == Keys.Join(path) && "user.permissions." + tail in CONFLICT
    ensures var key := "user.permissions." + tail;
            Orphan(CONFLICT, 13, key) && OrphanLeaf(CONFLICT, 13, key) == Leaf(path, CONFLICT[key])
  {
    var key := "user.permissions." + tail;
    assert Prefixes(13)[0] == "user.permissions";
    assert key[|"user.permissions"| + 1..] == tail;
    Keys.SplitJoin(path);
    assert RowPath(13, key) == Some(path);
  }

  /** The row of the shorter path disappears when the longer one comes after it. */
  lemma ConflictLosesAValue()
    ensures Orphan(CONFLICT, 13, "user.permissions.a") && Orphan(CONFLICT, 13, "user.permissions.a.b")
    ensures !OrphansAgree(CONFLICT, 13)
    ensures exists leaves :: OrphanLeaves(CONFLICT, 13, leaves) && !KeepsEveryOrphan(CONFLICT, 13, leaves)
  {
    var k, k' := "user.permissions.a", "user.permissions.a.b";
    assert k == "user.permissions." + "a" && k' == "user.permissions." + "a.b";
    ConflictOrphan("a", ["a"]);
    ConflictOrphan("a.b", ["a", "b"]);
    var l, l' := OrphanLeaf(CONFLICT, 13, k), OrphanLeaf(CONFLICT, 13, k');
    assert !LeafAgrees(l, l');
    RepairKeepsOrphansExactly(CONFLICT, 13);
  }

  // ---------- Nothing left to repair ----------

  ghost predicate Settled(rows: Rows) {
    (forall key :: !AnyOrphan(rows, key)) &&
    forall m :: 0 <= m < |MODEL_LIST_KEYS| && MODEL_LIST_KEYS[m] in rows ==> !rows[MODEL_LIST_KEYS[m]].JList?
  }

  lemma {:induction false} BlockedStays(d: nat, base: Object, leaves: seq<Leaf>, p: Path)
    requires p != [] && Blocked(d, base, p)
    requires forall l :: l in leaves ==> l.path != [] && !Blocked(d, base, l.path)
    ensures Blocked(d, AssignAll(base, leaves), p)
    decreases |leaves|
  {
    if leaves != [] {
      var n := |leaves| - 1;
      BlockedStays(d, base, leaves[..n], p);
      assert leaves[n] in leaves;
      assert leaves[n].path[0] != p[0];
    }
  }

  lemma RepairedKeepsBlocked(rows: Rows, d: nat, v: Json, p: Path)
    requires d < COUNT && Repaired(rows, d, v) && p != [] && Blocked(d, Base(rows, d), p)
    ensures v.JObject? && Blocked(d, v.fields, p)
  {
    var leaves: seq<Leaf> :| OrphanLeaves(rows, d, leaves) && v == JObject(AssignAll(Base(rows, d), leaves));
    forall l | l in leaves
      ensures !Blocked(d, Base(rows, d), l.path)
    {
      var k :| Orphan(rows, d, k) && OrphanLeaf(rows, d, k) == l;
    }
    BlockedStays(d, Base(rows, d), leaves, p);
  }

  // ---------- How the pieces of one pass fit together ----------

  /** Rows that differ from `rows` at most at the first n dictionary keys. */
  ghost predicate AgreeOutside(rows: Rows, rows': Rows, n: nat)
    requires n <= COUNT
  {
    (forall k :: k in rows ==> k in rows') &&
    forall k :: k in rows' && (forall e :: 0 <= e < n ==> k != DICT_KEYS[e]) ==> k in rows && rows'[k] == rows[k]
  }

  lemma BaseUnaffected(rows: Rows, rows': Rows, n: nat, d: nat)
    requires n <= d < COUNT && AgreeOutside(rows, rows', n)
    ensures Base(rows', d) == Base(rows, d)
  {
    forall e | 0 <= e < n
      ensures DICT_KEYS[d] != DICT_KEYS[e]
    {
      DictKeysAreDistinct(d, e);
    }
  }

  lemma OrphanUnaffected(rows: Rows, rows': Rows, n: nat, d: nat, key: string)
    requires n <= d < COUNT && AgreeOutside(rows, rows', n)
    ensures Orphan(rows', d, key) <==> Orphan(rows, d, key)
    ensures Orphan(rows, d, key) ==> OrphanLeaf(rows', d, key) == OrphanLeaf(rows, d, key)
  {
    BaseUnaffected(rows, rows', n, d);
    if RowPath(d, key).Some? {
      RowPathFamily(d, key);
      assert |DICT_KEYS| == COUNT;
      assert forall e :: 0 <= e < n ==> key != DICT_KEYS[e];
    }
  }

  lemma RepairedUnaffected(rows: Rows, rows': Rows, n: nat, d: nat, v: Json)
    requires n <= d < COUNT && AgreeOutside(rows, rows', n) && Repaired(rows', d, v)
    ensures Repaired(rows, d, v)
  {
    var leaves: seq<Leaf> :| OrphanLeaves(rows', d, leaves) && v == JObject(AssignAll(Base(rows', d), leaves));
    forall k
      ensures Orphan(rows', d, k) <==> Orphan(rows, d, k)
      ensures Orphan(rows, d, k) ==> OrphanLeaf(rows', d, k) == OrphanLeaf(rows, d, k)
    {
      OrphanUnaffected(rows, rows', n, d, k);
    }
    BaseUnaffected(rows, rows', n, d);
    assert OrphanLeaves(rows, d, leaves);
  }

  /** The text of a list of models: the items' texts, blank ones dropped, joined by commas. */
  function JoinModels(itemText: Json -> string, items: seq<Json>): string {
    var texts := seq(|items|, k requires 0 <= k < |items| => itemText(items[k]));
    JoinComma(NonBlank(texts))
  }

  function NonBlank(texts: seq<string>): seq<string> {
    if texts == [] then [] else (if texts[0] == [] then [] else [texts[0]]) + NonBlank(texts[1..])
  }

  function JoinComma(texts: seq<string>): string {
    if texts == [] then [] else if |texts| == 1 then texts[0] else texts[0] + "," + JoinComma(texts[1..])
  }

  /** The whole effect of a repair on the table. */
  ghost predicate RepairEffect(itemText: Json -> string, rows: Rows, rows': Rows) {
    (forall d :: 0 <= d < COUNT ==> DictDone(rows, rows', d)) &&
    forall k :: k !in DICT_KEYS ==> OtherDone(itemText, rows, rows', k)
  }

  /** A row that is no dictionary goes if it is an orphan; a model list becomes text. */
  ghost predicate OtherDone(itemText: Json -> string, rows: Rows, rows': Rows, k: string) {
    (k in rows' <==> k in rows && !AnyOrphan(rows, k)) &&
    (k in rows' ==>
       rows'[k] == if k in MODEL_LIST_KEYS && rows[k].JList? then JString(JoinModels(itemText, rows[k].items)) else rows[k])
  }

  lemma RepairSettles(itemText: Json -> string, rows: Rows, rows': Rows)
    requires RepairEffect(itemText, rows, rows')
    ensures Settled(rows')
  {
    forall d, key | 0 <= d < COUNT
      ensures !Orphan(rows', d, key)
    {
      if key in rows' && RowPath(d, key).Some? {
        var p := RowPath(d, key).value;
        RowPathFamily(d, key);
        assert key in rows && !Orphan(rows, d, key);
        assert Blocked(d, Base(rows, d), p);
        assert DictDone(rows, rows', d);
        if exists k :: Orphan(rows, d, k) {
          RepairedKeepsBlocked(rows, d, rows'[DICT_KEYS[d]], p);
        }
      }
    }
    forall m | 0 <= m < |MODEL_LIST_KEYS| && MODEL_LIST_KEYS[m] in rows'
      ensures !rows'[MODEL_LIST_KEYS[m]].JList?
    {
      var key := MODEL_LIST_KEYS[m];
      assert key !in DICT_KEYS by {
        if key in DICT_KEYS {
          var d :| 0 <= d < COUNT && DICT_KEYS[d] == key;
          DictKeysAreDistinct(d, d);
        }
      }
    }
  }

  lemma SettledIsUnchanged(itemText: Json -> string, rows: Rows, rows': Rows)
    requires Settled(rows) && RepairEffect(itemText, rows, rows')
    ensures rows' == rows
  {
    forall k
      ensures k in rows <==> k in rows'
      ensures k in rows ==> rows'[k] == rows[k]
    {
      assert !AnyOrphan(rows, k);
      if k in DICT_KEYS {
        var d :| 0 <= d < COUNT && DICT_KEYS[d] == k;
        assert DictDone(rows, rows', d);
        assert forall key :: Orphan(rows, d, key) ==> AnyOrphan(rows, key);
      } else if k in MODEL_LIST_KEYS {
        var m :| 0 <= m < |MODEL_LIST_KEYS| && MODEL_LIST_KEYS[m] == k;
      }
    }
  }

  function TextLists(itemText: Json -> string, rows: Rows): Rows {
    map k | k in rows ::
      if k in MODEL_LIST_KEYS && rows[k].JList? then JString(JoinModels(itemText, rows[k].items)) else rows[k]
  }

  /** After the first n dictionaries: they are repaired, and their orphans are known but still there. */
  ghost predicate PassInv(before: Rows, rows: Rows, orphans: seq<string>, n: nat)
    requires n <= COUNT
  {
    AgreeOutside(before, rows, n) &&
    (forall k :: k in orphans <==> exists e :: 0 <= e < n && Orphan(before, e, k)) &&
    forall e :: 0 <= e < n ==> DictDone(before, rows, e)
  }

  ghost predicate DictDone(before: Rows, rows: Rows, d: nat)
    requires d < COUNT
  {
    if exists k :: Orphan(before, d, k) then DICT_KEYS[d] in rows && Repaired(before, d, rows[DICT_KEYS[d]])
    else (DICT_KEYS[d] in before <==> DICT_KEYS[d] in rows) &&
         (DICT_KEYS[d] in before ==> rows[DICT_KEYS[d]] == before[DICT_KEYS[d]])
  }

  lemma PassStep(before: Rows, now: Rows, rows: Rows, orphans: seq<string>, more: seq<string>, d: nat)
    requires d < COUNT && PassInv(before, now, orphans, d)
    requires forall k :: k in more <==> Orphan(now, d, k)
    requires more == [] ==> rows == now
    requires more != [] ==>
               DICT_KEYS[d] in rows && rows == now[DICT_KEYS[d] := rows[DICT_KEYS[d]]] &&
               Repaired(now, d, rows[DICT_KEYS[d]])
    ensures PassInv(before, rows, orphans + more, d + 1)
  {
    forall k
      ensures k in more <==> Orphan(before, d, k)
    {
      OrphanUnaffected(before, now, d, d, k);
    }
    if more != [] {
      RepairedUnaffected(before, now, d, d, rows[DICT_KEYS[d]]);
      assert more[0] in more;
    }
    forall e | 0 <= e < d
      ensures DictDone(before, rows, e) && DICT_KEYS[d] != DICT_KEYS[e]
    {
      DictKeysAreDistinct(d, e);
      assert DictDone(before, now, e);
    }
    assert DictDone(before, rows, d);
  }

  lemma OrphanIsNoDictionary(before: Rows, rows: Rows, orphans: seq<string>, k: string)
    requires PassInv(before, rows, orphans, COUNT) && k in orphans
    ensures k !in DICT_KEYS
  {
    var e :| 0 <= e < COUNT && Orphan(before, e, k);
    RowPathFamily(e, k);
  }

  lemma DictionaryEnds(itemText: Json -> string, before: Rows, rows: Rows, orphans: seq<string>, d: nat)
    requires PassInv(before, rows, orphans, COUNT) && d < COUNT
    ensures DictDone(before, TextLists(itemText, rows - set k | k in orphans), d)
  {
    assert DictDone(before, rows, d);
    DictKeysAreDistinct(d, d);
    assert DICT_KEYS[d] in DICT_KEYS;
    if DICT_KEYS[d] in orphans {
      OrphanIsNoDictionary(before, rows, orphans, DICT_KEYS[d]);
    }
  }

  lemma PassEnds(itemText: Json -> string, before: Rows, rows: Rows, orphans: seq<string>)
    requires PassInv(before, rows, orphans, COUNT)
    ensures RepairEffect(itemText, before, TextLists(itemText, rows - set k | k in orphans))
  {
    var rows' := TextLists(itemText, rows - set k | k in orphans);
    assert |DICT_KEYS| == COUNT;
    forall d | 0 <= d < COUNT
      ensures DictDone(before, rows', d)
    {
      DictionaryEnds(itemText, before, rows, orphans, d);
    }
    forall k | k !in DICT_KEYS
      ensures OtherDone(itemText, before, rows', k)
    {
      OtherRowEnds(before, rows, orphans, k);
    }
  }

  lemma OtherRowEnds(before: Rows, rows: Rows, orphans: seq<string>, k: string)
    requires PassInv(before, rows, orphans, COUNT) && k !in DICT_KEYS
    ensures k in orphans <==> AnyOrphan(before, k)
    ensures k in rows <==> k in before
    ensures k in rows ==> rows[k] == before[k]
  {
    assert |DICT_KEYS| == COUNT;
    assert forall e :: 0 <= e < COUNT ==> k != DICT_KEYS[e];
  }

  // ---------- Renaming a prefix ----------

  /** Neither dotted prefix begins with the other. */
  predicate Apart(a: string, b: string) {
    !(a + "." <= b + ".") && !(b + "." <= a + ".")
  }

  /** Replace prefix a by b. */
  function Swap(a: string, b: string, key: string): string
    requires Under(a, key)
  {
    b + "." + key[|a| + 1..]
  }

  /** Under apart prefixes there are different keys. */
  lemma ApartKeys(a: string, b: string, key: string)
    requires Apart(a, b)
    ensures !(Under(a, key) && Under(b, key))
  {
  }

  lemma SwapBack(a: string, b: string, key: string)
    requires Under(a, key)
    ensures Under(b, Swap(a, b, key)) && Swap(b, a, Swap(a, b, key)) == key
    ensures Apart(a, b) ==> !Under(a, Swap(a, b, key))
  {
    var swapped := Swap(a, b, key);
    assert swapped[..|b| + 1] == b + ".";
    assert swapped[|b| + 1..] == key[|a| + 1..];
    assert key == a + "." + key[|a| + 1..];
    if Apart(a, b) {
      ApartKeys(a, b, swapped);
    }
  }

  /** The table after the rows `moved` went from prefix a to b: what is at b already wins. */
  ghost predicate Renamed(a: string, b: string, rows: Rows, rows': Rows, moved: set<string>) {
    (forall k :: k in rows' <==>
       (k in rows && k !in moved) || (Under(b, k) && Swap(b, a, k) in moved)) &&
    forall k :: k in rows' ==>
      if k in rows then rows'[k] == rows[k]
      else Under(b, k) && Swap(b, a, k) in rows && rows'[k] == rows[Swap(b, a, k)]
  }

  /** The same name by name: each old row is at its new name unless that was taken, and nothing else changed. */
  ghost predicate Moved(a: string, b: string, rows: Rows, rows': Rows) {
    (forall tail :: a + "." + tail in rows ==>
       b + "." + tail in rows' &&
       rows'[b + "." + tail] == if b + "." + tail in rows then rows[b + "." + tail] else rows[a + "." + tail]) &&
    (forall k :: k in rows && !(a + "." <= k) ==> k in rows' && rows'[k] == rows[k]) &&
    forall k :: k in rows' && k !in rows ==> b + "." <= k && a + "." + k[|b| + 1..] in rows
  }

  lemma RenamedMoves(a: string, b: string, rows: Rows, rows': Rows)
    requires Apart(a, b) && Renamed(a, b, rows, rows', set k | k in rows && Under(a, k))
    ensures Moved(a, b, rows, rows')
  {
    forall tail | a + "." + tail in rows
      ensures b + "." + tail in rows'
      ensures rows'[b + "." + tail] == if b + "." + tail in rows then rows[b + "." + tail] else rows[a + "." + tail]
    {
      var from, to := a + "." + tail, b + "." + tail;
      assert from[..|a| + 1] == a + "." && from[|a| + 1..] == tail;
      assert to[..|b| + 1] == b + "." && to[|b| + 1..] == tail;
      assert Swap(b, a, to) == from;
    }
  }

  lemma RenameStep(a: string, b: string, rows: Rows, rows': Rows, moved: set<string>, key: string, rows'': Rows)
    requires Apart(a, b) && Renamed(a, b, rows, rows', moved)
    requires Under(a, key) && key in rows && key !in moved && forall k :: k in moved ==> Under(a, k)
    requires var target := Swap(a, b, key);
             rows'' == (if target in rows' then rows' else rows'[target := rows[key]]) - {key}
    ensures Renamed(a, b, rows, rows'', moved + {key})
  {
    var target := Swap(a, b, key);
    SwapBack(a, b, key);
    forall k | Under(b, k)
      ensures Swap(b, a, k) == key <==> k == target
    {
      SwapBack(b, a, k);
    }
    ApartKeys(a, b, key);
  }

  // ---------- Seeding ----------

  /** Defaults that no later startup would rename or repair. */
  ghost predicate CleanDefaults(defaults: Rows) {
    (forall k :: k in defaults ==> !Under(OLD_PREFIX, k) && forall d :: 0 <= d < COUNT ==> RowPath(d, k).None?) &&
    forall m :: 0 <= m < |MODEL_LIST_KEYS| && MODEL_LIST_KEYS[m] in defaults ==> !defaults[MODEL_LIST_KEYS[m]].JList?
  }

  lemma SeedingKeepsSettled(rows: Rows, rows': Rows, defaults: Rows)
    requires Settled(rows) && CleanDefaults(defaults)
    requires forall k :: k in rows ==> k in rows' && rows'[k] == rows[k]
    requires forall k :: k in rows' && k !in rows ==> k in defaults && rows'[k] == defaults[k]
    ensures Settled(rows')
  {
    forall key, d | 0 <= d < COUNT
      ensures !Orphan(rows', d, key)
    {
      if key in rows' && RowPath(d, key).Some? {
        assert key in rows && !AnyOrphan(rows, key);
        assert !Orphan(rows, d, key);
      }
    }
  }

  /** Nothing for a startup to do. */
  ghost predicate Started(rows: Rows, defaults: Rows, oauthPersistent: bool) {
    (forall k :: k in rows ==> !("rag.web." <= k)) && Settled(rows) &&
    forall k :: k in defaults && ("oauth." <= k ==> oauthPersistent) ==> k in rows
  }

  lemma RepairAddsNoOldKey(itemText: Json -> string, rows: Rows, rows': Rows)
    requires RepairEffect(itemText, rows, rows') && forall k :: k in rows ==> !Under(OLD_PREFIX, k)
    ensures forall k :: k in rows' ==> !Under(OLD_PREFIX, k)
  {
    forall k | k in rows'
      ensures !Under(OLD_PREFIX, k)
    {
      if k in DICT_KEYS {
        var d :| 0 <= d < COUNT && DICT_KEYS[d] == k;
        assert DICT_KEYS[d] <= k;
        KeyFamily(k);
        OtherFamily(k);
      }
    }
  }

  function NewName(key: string): string {
    if Under(OLD_PREFIX, key) then Swap(OLD_PREFIX, NEW_PREFIX, key) else key
  }

  /**
    Through renaming and repair every row keeps its value, at its new name or at its path in its
    dictionary, unless another row already had the new name.
   */
  lemma PipelineLosesNothing(itemText: Json -> string, rows: Rows, renamed: Rows, repaired: Rows, key: string)
    requires Renamed(OLD_PREFIX, NEW_PREFIX, rows, renamed, set k | k in rows && Under(OLD_PREFIX, k))
    requires RepairEffect(itemText, renamed, repaired) && key in rows
    ensures var k := NewName(key);
            k in renamed && renamed[k] == if k in rows then rows[k] else rows[key]
    ensures forall d :: 0 <= d < COUNT && Orphan(renamed, d, NewName(key)) && OrphansAgree(renamed, d) ==>
              DICT_KEYS[d] in repaired &&
              Get(repaired[DICT_KEYS[d]], RowPath(d, NewName(key)).value) == Some(renamed[NewName(key)])
    ensures !AnyOrphan(renamed, NewName(key)) && NewName(key) !in DICT_KEYS ==>
              NewName(key) in repaired &&
              (NewName(key) !in MODEL_LIST_KEYS ==> repaired[NewName(key)] == renamed[NewName(key)])
    // a dictionary's own row, whole or value by value
    ensures forall d :: 0 <= d < COUNT && NewName(key) == DICT_KEYS[d] ==>
              (NothingNew(renamed, d) ==> RowStays(renamed, repaired, d)) && ValuesStay(renamed, repaired, d)
  {
    PrefixesApart();
    if Under(OLD_PREFIX, key) {
      SwapBack(OLD_PREFIX, NEW_PREFIX, key);
    }
    var k := NewName(key);
    forall d | 0 <= d < COUNT && Orphan(renamed, d, k) && OrphansAgree(renamed, d)
      ensures DICT_KEYS[d] in repaired && Get(repaired[DICT_KEYS[d]], RowPath(d, k).value) == Some(renamed[k])
    {
      assert DictDone(renamed, repaired, d);
      RepairLosesNothing(renamed, d, repaired[DICT_KEYS[d]], k);
    }
    forall d | 0 <= d < COUNT && k == DICT_KEYS[d]
      ensures (NothingNew(renamed, d) ==> RowStays(renamed, repaired, d)) && ValuesStay(renamed, repaired, d)
    {
      assert DictDone(renamed, repaired, d);
      DictionaryRowStaysExactly(renamed, d);
      AgreeingValuesStay(renamed, repaired, d);
    }
  }

  // ---------- The table ----------

  class Config {
    var rows: Rows
    const persistent: bool
    const oauthPersistent: bool
    const itemText: Json -> string      // str(item).strip()

    constructor (persistent: bool, oauthPersistent: bool, itemText: Json -> string)
      ensures rows == map[] && this.persistent == persistent && this.oauthPersistent == oauthPersistent
      ensures this.itemText == itemText
    {
      rows := map[];
      this.persistent, this.oauthPersistent, this.itemText := persistent, oauthPersistent, itemText;
    }

    predicate PersistentEnabledFor(key: string) {
      persistent && ("oauth." <= key ==> oauthPersistent)
    }

    /** The rows under a prefix, in some order; a LIKE on the prefix may also return others. */
    method RowsLike(prefix: string) returns (found: seq<string>)
      ensures forall k :: k in found ==> k in rows
      ensures forall k :: k in rows && Under(prefix, k) ==> k in found
    {
      found := [];
      var rest := rows.Keys;
      while rest != {}
        invariant rest <= rows.Keys
        invariant forall k :: k in found ==> k in rows
        invariant forall k :: k in rows && Under(prefix, k) && k !in rest ==> k in found
        decreases rest
      {
        var k :| k in rest;
        if Under(prefix, k) {
          found := found + [k];
        }
        rest := rest - {k};
      }
    }

    static method PathOf(d: nat, key: string) returns (p: Option<Path>)
      requires d < COUNT
      ensures p == RowPath(d, key)
    {
      var fragment := FragmentOf(Prefixes(d), key);
      if fragment.None? {
        return None;
      }
      if !IsApi(d) {
        return Some(Split(fragment.value, '.'));
      }
      var split := Keys.SplitApiConfigFragment(fragment.value);
      p := if split.None? then None else Some([split.value.connectionKey] + split.value.path);
    }

    /** Fold the pieces of one dictionary into it; their rows are deleted later. */
    method RepairOne(d: nat) returns (orphans: seq<string>)
      requires d < COUNT
      modifies this
      ensures forall k :: k in orphans <==> Orphan(old(rows), d, k)
      ensures orphans == [] ==> rows == old(rows)
      ensures orphans != [] ==>
                DICT_KEYS[d] in rows && rows == old(rows)[DICT_KEYS[d] := rows[DICT_KEYS[d]]] &&
                Repaired(old(rows), d, rows[DICT_KEYS[d]])
    {
      var byKey := RowsLike(DICT_KEYS[d]);
      var byAlias := RowsLike(ALIASES[d]);
      var found := byKey + byAlias;
      forall k | k in rows && RowPath(d, k).Some?
        ensures k in found
      {
        FragmentOfTwo(DICT_KEYS[d], ALIASES[d], k);
      }
      orphans := [];
      var base := Base(rows, d);
      var repaired := base;
      ghost var leaves: seq<Leaf> := [];
      for n := 0 to |found|
        invariant rows == old(rows) && Folded(rows, d, found[..n], orphans, leaves, repaired)
      {
        var key := found[n];
        assert key in found && found[..n + 1] == found[..n] + [key];
        var path := PathOf(d, key);
        if path.Some? && !Blocked(d, repaired, path.value) {
          FoldAdd(rows, d, found[..n], orphans, leaves, repaired, key);
          repaired := AssignPath(repaired, path.value, rows[key]);
          orphans, leaves := orphans + [key], leaves + [Leaf(path.value, rows[key])];
        } else {
          FoldSkip(rows, d, found[..n], orphans, leaves, repaired, key);
        }
      }
      assert found[..|found|] == found;
      FoldEnd(rows, d, found, orphans, leaves, repaired);
      if orphans != [] {
        rows := rows[DICT_KEYS[d] := JObject(repaired)];
      }
    }

    /** Model lists that were stored as JSON lists become comma-separated text. */
    method RepairModelLists()
      modifies this
      ensures rows == TextLists(itemText, old(rows))
      ensures forall k :: k in rows ==>
                rows[k] == if (k == "ui.default_models" || k == "ui.default_pinned_models") && old(rows)[k].JList?
                           then JString(JoinModels(itemText, old(rows)[k].items)) else old(rows)[k]
    {
      for m := 0 to |MODEL_LIST_KEYS|
        invariant rows.Keys == old(rows).Keys
        invariant forall k :: k in rows ==>
          rows[k] == if k in MODEL_LIST_KEYS[..m] && old(rows)[k].JList?
                     then JString(JoinModels(itemText, old(rows)[k].items)) else old(rows)[k]
      {
        var key := MODEL_LIST_KEYS[m];
        assert MODEL_LIST_KEYS[..m + 1] == MODEL_LIST_KEYS[..m] + [key];
        if key in rows && rows[key].JList? {
          rows := rows[key := JString(JoinModels(itemText, rows[key].items))];
        }
      }
      assert MODEL_LIST_KEYS[..|MODEL_LIST_KEYS|] == MODEL_LIST_KEYS;
    }

    method RepairConfigRows()
      modifies this
      ensures !persistent ==> rows == old(rows)
      ensures persistent ==> RepairEffect(itemText, old(rows), rows) && Settled(rows)
      ensures old(Settled(rows)) ==> rows == old(rows)
    {
      if !persistent {
        return;
      }
      ghost var before := rows;
      var orphans: seq<string> := [];
      for d := 0 to COUNT
        invariant PassInv(before, rows, orphans, d)
      {
        ghost var now := rows;
        var more := RepairOne(d);
        PassStep(before, now, rows, orphans, more, d);
        orphans := orphans + more;
      }
      PassEnds(itemText, before, rows, orphans);
      rows := rows - set k | k in orphans;
      RepairModelLists();
      RepairSettles(itemText, before, rows);
      if Settled(before) {
        SettledIsUnchanged(itemText, before, rows);
      }
    }

    /** Exactly the rows under a prefix. */
    method RowsUnder(prefix: string) returns (found: seq<string>)
      ensures forall k :: k in found <==> k in rows && Under(prefix, k)
      ensures Distinct(found)
    {
      found := [];
      var rest := rows.Keys;
      while rest != {}
        invariant rest <= rows.Keys
        invariant forall k :: k in found <==> k in rows && Under(prefix, k) && k !in rest
        invariant Distinct(found)
        decreases rest
      {
        var k :| k in rest;
        if Under(prefix, k) {
          found := found + [k];
        }
        rest := rest - {k};
      }
    }

    method RenamePrefix(oldPrefix: string, newPrefix: string)
      requires Apart(oldPrefix, newPrefix)
      modifies this
      ensures !persistent ==> rows == old(rows)
      ensures persistent ==> Renamed(oldPrefix, newPrefix, old(rows), rows, set k | k in old(rows) && Under(oldPrefix, k))
      ensures persistent ==> Moved(oldPrefix, newPrefix, old(rows), rows)
      ensures persistent ==> forall k :: k in rows ==> !(oldPrefix + "." <= k)
      ensures (forall k :: k in old(rows) ==> !(oldPrefix + "." <= k)) ==> rows == old(rows)
    {
      if !persistent {
        return;
      }
      var found := RowsUnder(oldPrefix);
      ghost var moved: set<string> := {};
      for n := 0 to |found|
        invariant moved == set k | k in found[..n]
        invariant forall k :: k in moved ==> Under(oldPrefix, k)
        invariant Renamed(oldPrefix, newPrefix, old(rows), rows, moved)
        invariant n == 0 ==> rows == old(rows)
      {
        var key := found[n];
        assert found[..n + 1] == found[..n] + [key];
        var target := Swap(oldPrefix, newPrefix, key);
        SwapBack(oldPrefix, newPrefix, key);
        assert key in rows;
        ghost var now := rows;
        if target !in rows {
          rows := rows[target := rows[key]];
        }
        rows := rows - {key};
        RenameStep(oldPrefix, newPrefix, old(rows), now, moved, key, rows);
        moved := moved + {key};
      }
      assert found[..|found|] == found;
      assert moved == set k | k in old(rows) && Under(oldPrefix, k);
      RenamedMoves(oldPrefix, newPrefix, old(rows), rows);
      forall k | k in rows
        ensures !Under(oldPrefix, k)
      {
        if Under(newPrefix, k) {
          SwapBack(newPrefix, oldPrefix, k);
          SwapBack(oldPrefix, newPrefix, Swap(newPrefix, oldPrefix, k));
        }
      }
    }

    /** Insert the defaults that have no row and that the table is authoritative for. */
    method SeedDefaults(defaults: Rows)
      modifies this
      // a default without a row gets one when the table is persistent, and for `oauth.` keys only when those are too
      ensures forall k :: k in rows <==>
                k in old(rows) || (k in defaults && persistent && ("oauth." <= k ==> oauthPersistent))
      ensures forall k :: k in rows ==> rows[k] == if k in old(rows) then old(rows)[k] else defaults[k]
    {
      var rest := defaults.Keys;
      while rest != {}
        invariant rest <= defaults.Keys
        invariant forall k :: k in rows <==> k in old(rows) || (k in defaults && k !in rest && PersistentEnabledFor(k))
        invariant forall k :: k in rows ==> rows[k] == if k in old(rows) then old(rows)[k] else defaults[k]
        decreases rest
      {
        var k :| k in rest;
        if PersistentEnabledFor(k) && k !in rows {
          rows := rows[k := defaults[k]];
        }
        rest := rest - {k};
      }
    }

    /** The startup pipeline; running it again changes nothing. */
    method SeedRegisteredDefaults(defaults: Rows) returns (ghost renamed: Rows, ghost repaired: Rows)
      modifies this
      ensures !persistent ==> rows == old(rows)
      // rename, repair, seed
      ensures persistent ==>
                Renamed(OLD_PREFIX, NEW_PREFIX, old(rows), renamed, set k | k in old(rows) && Under(OLD_PREFIX, k)) &&
                Moved("rag.web", "web", old(rows), renamed) && RepairEffect(itemText, renamed, repaired) &&
                (forall k :: k in rows <==> k in repaired || (k in defaults && ("oauth." <= k ==> oauthPersistent))) &&
                forall k :: k in rows ==> rows[k] == if k in repaired then repaired[k] else defaults[k]
      ensures persistent && CleanDefaults(defaults) ==> Started(rows, defaults, oauthPersistent)
      ensures old(Started(rows, defaults, oauthPersistent)) ==> rows == old(rows)
    {
      PrefixesApart();
      RenamePrefix(OLD_PREFIX, NEW_PREFIX);
      renamed := rows;
      RepairConfigRows();
      repaired := rows;
      if persistent {
        RepairAddsNoOldKey(itemText, renamed, repaired);
      }
      SeedDefaults(defaults);
      if persistent && CleanDefaults(defaults) {
        SeedingKeepsSettled(repaired, rows, defaults);
      }
    }
  }

  lemma PrefixesApart()
    ensures Apart(OLD_PREFIX, NEW_PREFIX)
  {
    assert (OLD_PREFIX + ".")[0] != (NEW_PREFIX + ".")[0];
  }
}
