/**
  Version history of functions (models/function_history.py, and the writers of the same rows in
  models/functions.py): a forest of snapshots per function and a pointer to the production version.
 */
module FunctionHistory {
  import opened Prelude

  type Id = string

  datatype Entry = Entry(functionId: Id, parent: Option<Id>, snapshot: string)

  type Rows = map<Id, Entry>

  // ---------- The forest ----------

  /** The n-th ancestor of b, b itself for n = 0. */
  function Up(rows: Rows, b: Id, n: nat): Option<Id>
    decreases n
  {
    if n == 0 then Some(b)
    else if b !in rows || rows[b].parent.None? then None
    else Up(rows, rows[b].parent.value, n - 1)
  }

  ghost predicate Ancestor(rows: Rows, a: Id, b: Id) {
    exists n: nat :: n > 0 && Up(rows, b, n) == Some(a)
  }

  /** Parents exist and belong to the same function. */
  ghost predicate Closed(rows: Rows) {
    forall x :: x in rows && rows[x].parent.Some? ==>
      rows[x].parent.value in rows && rows[rows[x].parent.value].functionId == rows[x].functionId
  }

  ghost predicate Forest(rows: Rows) {
    Closed(rows) && forall x :: x in rows ==> !Ancestor(rows, x, x)
  }

  /** "Is an ancestor of" is the same relation on the entries that both tables have. */
  ghost predicate SameAncestors(rows: Rows, rows': Rows) {
    forall a, b :: a in rows && b in rows && a in rows' && b in rows' ==>
      (Ancestor(rows, a, b) <==> Ancestor(rows', a, b))
  }

  lemma {:induction false} UpStaysInside(rows: Rows, b: Id, n: nat)
    requires Closed(rows) && b in rows && Up(rows, b, n).Some?
    ensures Up(rows, b, n).value in rows
    ensures rows[Up(rows, b, n).value].functionId == rows[b].functionId
    decreases n
  {
    if n > 0 {
      UpStaysInside(rows, rows[b].parent.value, n - 1);
    }
  }

  // ---------- Deleting an entry ----------

  /** Children of d take over its parent, and d goes. */
  function Splice(rows: Rows, d: Id): Rows
    requires d in rows
  {
    map x | x in rows && x != d ::
      if rows[x].functionId == rows[d].functionId && rows[x].parent == Some(d)
      then rows[x].(parent := rows[d].parent) else rows[x]
  }

  lemma ParentIsNotSelf(rows: Rows, x: Id)
    requires Forest(rows) && x in rows
    ensures rows[x].parent != Some(x)
  {
    assert rows[x].parent == Some(x) ==> Up(rows, x, 1) == Some(x);
  }

  lemma {:induction false} SpliceKeepsPaths(rows: Rows, d: Id, a: Id, b: Id, n: nat) returns (m: nat)
    requires Forest(rows) && d in rows && a != d && b != d && b in rows && Up(rows, b, n) == Some(a)
    ensures Up(Splice(rows, d), b, m) == Some(a) && (n > 0 ==> m > 0)
    decreases n
  {
    if n == 0 {
      return 0;
    }
    var p := rows[b].parent.value;
    if p != d {
      m := SpliceKeepsPaths(rows, d, a, p, n - 1);
    } else {
      assert Up(rows, b, n) == Up(rows, d, n - 1);
      ParentIsNotSelf(rows, d);
      m := SpliceKeepsPaths(rows, d, a, rows[d].parent.value, n - 2);
    }
    m := m + 1;
  }

  lemma {:induction false} SpliceAddsNoPath(rows: Rows, d: Id, a: Id, b: Id, m: nat) returns (n: nat)
    requires Forest(rows) && d in rows && b != d && b in rows && Up(Splice(rows, d), b, m) == Some(a)
    ensures Up(rows, b, n) == Some(a) && (m > 0 ==> n > 0)
    decreases m
  {
    if m == 0 {
      return 0;
    }
    var p := rows[b].parent.value;
    ParentIsNotSelf(rows, d);
    if p != d {
      n := SpliceAddsNoPath(rows, d, a, p, m - 1);
      n := n + 1;
    } else {
      var g := rows[d].parent.value;
      n := SpliceAddsNoPath(rows, d, a, g, m - 1);
      assert Up(rows, b, n + 2) == Up(rows, d, n + 1) == Up(rows, g, n);
      n := n + 2;
    }
  }

  /** Deleting any entry keeps a forest, and keeps who is an ancestor of whom among the rest. */
  lemma SpliceTheorem(rows: Rows, d: Id)
    requires Forest(rows) && d in rows
    ensures Forest(Splice(rows, d)) && SameAncestors(rows, Splice(rows, d))
  {
    var rows' := Splice(rows, d);
    ParentIsNotSelf(rows, d);
    forall a, b | a in rows' && b in rows'
      ensures Ancestor(rows, a, b) <==> Ancestor(rows', a, b)
    {
      if Ancestor(rows, a, b) {
        var n: nat :| n > 0 && Up(rows, b, n) == Some(a);
        var m := SpliceKeepsPaths(rows, d, a, b, n);
      }
      if Ancestor(rows', a, b) {
        var m: nat :| m > 0 && Up(rows', b, m) == Some(a);
        var n := SpliceAddsNoPath(rows, d, a, b, m);
      }
    }
  }

  // ---------- Adding an entry, dropping a function ----------

  lemma {:induction false} UpIn(rows: Rows, rows': Rows, b: Id, n: nat)
    requires Closed(rows) && b in rows
    requires forall x :: x in rows && rows[x].functionId == rows[b].functionId ==> x in rows' && rows'[x] == rows[x]
    ensures Up(rows', b, n) == Up(rows, b, n)
    decreases n
  {
    if n > 0 && rows[b].parent.Some? {
      UpIn(rows, rows', rows[b].parent.value, n - 1);
    }
  }

  lemma AddTheorem(rows: Rows, id: Id, e: Entry)
    requires Forest(rows) && id !in rows
    requires e.parent.Some? ==> e.parent.value in rows && rows[e.parent.value].functionId == e.functionId
    ensures Forest(rows[id := e]) && SameAncestors(rows, rows[id := e])
    ensures forall a :: Ancestor(rows[id := e], a, id) <==>
              e.parent.Some? && (a == e.parent.value || Ancestor(rows, a, e.parent.value))
  {
    var rows' := rows[id := e];
    forall b, n: nat | b in rows
      ensures Up(rows', b, n) == Up(rows, b, n)
    {
      UpIn(rows, rows', b, n);
    }
    forall n: nat | n > 0
      ensures Up(rows', id, n) == if e.parent.Some? then Up(rows, e.parent.value, n - 1) else None
    {
    }
    if e.parent.Some? {
      var p := e.parent.value;
      forall n: nat
        ensures Up(rows, p, n) != Some(id)
      {
        if Up(rows, p, n).Some? {
          UpStaysInside(rows, p, n);
        }
      }
      forall a
        ensures Ancestor(rows', a, id) <==> a == p || Ancestor(rows, a, p)
      {
        assert Up(rows', id, 1) == Some(p);
        if Ancestor(rows, a, p) {
          var n: nat :| n > 0 && Up(rows, p, n) == Some(a);
          assert Up(rows', id, n + 1) == Some(a);
        }
        if Ancestor(rows', a, id) {
          var n: nat :| n > 0 && Up(rows', id, n) == Some(a);
          assert n > 1 ==> Up(rows, p, n - 1) == Some(a);
        }
      }
    } else {
      forall a
        ensures !Ancestor(rows', a, id)
      {
        forall n: nat | n > 0
          ensures Up(rows', id, n) != Some(a)
        {
        }
      }
    }
  }

  function Without(rows: Rows, functionId: Id): Rows {
    map x | x in rows && rows[x].functionId != functionId :: rows[x]
  }

  lemma WithoutTheorem(rows: Rows, functionId: Id)
    requires Forest(rows)
    ensures Forest(Without(rows, functionId)) && SameAncestors(rows, Without(rows, functionId))
  {
    var rows' := Without(rows, functionId);
    forall b, n: nat | b in rows'
      ensures Up(rows', b, n) == Up(rows, b, n)
    {
      UpIn(rows, rows', b, n);
    }
  }

  // ---------- The tables ----------

  /** A function row: its production version and the configuration it runs. */
  datatype Function = Function(version: Option<Id>, snapshot: string)

  datatype DeleteOutcome = Deleted | NotFound | IsCurrent

  class Tables {
    var functions: map<Id, Function>
    var rows: Rows

    ghost predicate Valid()
      reads this
    {
      Forest(rows) &&
      // the production version exists and is the configuration that runs; rows from before
      // versions existed have none
      (forall f :: f in functions && functions[f].version.Some? ==>
         functions[f].version.value in rows &&
         rows[functions[f].version.value] == Entry(f, rows[functions[f].version.value].parent, functions[f].snapshot))
    }

    constructor ()
      ensures Valid() && functions == map[] && rows == map[]
    {
      functions, rows := map[], map[];
    }

    /** Remove a snapshot that is not in production. */
    method DeleteHistoryEntry(functionId: Id, historyId: Id) returns (r: DeleteOutcome)
      requires Valid()
      modifies this
      ensures Valid() && functions == old(functions)
      ensures r == if functionId !in functions then NotFound
                   else if functions[functionId].version == Some(historyId) then IsCurrent
                   else if historyId in old(rows) && old(rows)[historyId].functionId == functionId then Deleted
                   else NotFound
      ensures rows == if r == Deleted then Splice(old(rows), historyId) else old(rows)
      ensures rows.Keys == if r == Deleted then old(rows).Keys - {historyId} else old(rows).Keys
      // the children of the deleted entry take over its parent, and nothing else changes
      ensures r == Deleted ==> forall x :: x in rows ==>
                rows[x] == if old(rows)[x].functionId == functionId && old(rows)[x].parent == Some(historyId)
                           then Entry(functionId, old(rows)[historyId].parent, old(rows)[x].snapshot) else old(rows)[x]
      ensures SameAncestors(old(rows), rows)
    {
      if functionId !in functions {
        return NotFound;
      }
      if functions[functionId].version == Some(historyId) {
        return IsCurrent;
      }
      if historyId !in rows || rows[historyId].functionId != functionId {
        return NotFound;
      }
      SpliceTheorem(rows, historyId);
      var entry := rows[historyId];
      rows := map x | x in rows ::
        if rows[x].functionId == functionId && rows[x].parent == Some(historyId)
        then rows[x].(parent := entry.parent) else rows[x];
      rows := rows - {historyId};
      assert rows == Splice(old(rows), historyId);
      r := Deleted;
    }

    /** Save a configuration: a changed one, or the first, becomes a new entry and goes to production. */
    method Write(functionId: Id, snapshot: string, newId: Id)
      requires Valid() && newId !in rows
      modifies this
      ensures Valid() && SameAncestors(old(rows), rows)
      ensures functions.Keys == old(functions).Keys + {functionId} && functions[functionId].snapshot == snapshot
      ensures forall f :: f in old(functions) && f != functionId ==> functions[f] == old(functions)[f]
      // a function with a version and this very configuration is left alone
      ensures rows == old(rows) <==>
                (functionId in old(functions) && old(functions)[functionId].version.Some? &&
                 old(functions)[functionId].snapshot == snapshot)
      ensures rows == old(rows) ==> functions == old(functions)
      ensures rows != old(rows) ==>
                functions[functionId].version == Some(newId) &&
                rows == old(rows)[newId := Entry(functionId,
                  if functionId in old(functions) then old(functions)[functionId].version else None, snapshot)]
    {
      var resource := if functionId in functions then functions[functionId] else Function(None, "");
      if snapshot != resource.snapshot || resource.version.None? {
        var entry := Entry(functionId, resource.version, snapshot);
        AddTheorem(rows, newId, entry);
        rows := rows[newId := entry];
        resource := resource.(version := Some(newId));
      }
      functions := functions[functionId := resource.(snapshot := snapshot)];
    }

    /** Put a saved version of the same function into production. */
    method SetProduction(functionId: Id, versionId: Id) returns (ok: bool)
      requires Valid()
      modifies this
      ensures Valid() && rows == old(rows)
      ensures ok <==> functionId in old(functions) && versionId in rows && rows[versionId].functionId == functionId
      ensures functions == if ok then old(functions)[functionId := Function(Some(versionId), rows[versionId].snapshot)]
                           else old(functions)
    {
      if functionId !in functions || versionId !in rows || rows[versionId].functionId != functionId {
        return false;
      }
      functions := functions[functionId := Function(Some(versionId), rows[versionId].snapshot)];
      ok := true;
    }

    /** Synchronisation drops a function with its whole history. */
    method DropFunction(functionId: Id)
      requires Valid()
      modifies this
      ensures Valid() && SameAncestors(old(rows), rows)
      ensures functions == old(functions) - {functionId}
      ensures forall x :: x in rows <==> x in old(rows) && old(rows)[x].functionId != functionId
      ensures forall x :: x in rows ==> rows[x] == old(rows)[x]
    {
      WithoutTheorem(rows, functionId);
      rows := Without(rows, functionId);
      functions := functions - {functionId};
    }
  }
}
