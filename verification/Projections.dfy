/** The current pointers as a function of the rows, and RebuildProjections. */
module Projections {
  import opened EventStore

  /** The pointers that inserting rows one after another leaves: each object's last row wins. */
  function Pointers(rows: seq<Row>): map<ObjectKey, int> {
    if rows == [] then map[]
    else MovePointer(Pointers(rows[..|rows| - 1]), rows[|rows| - 1])
  }

  ghost predicate HasObject(rows: seq<Row>, k: ObjectKey) {
    exists i :: 0 <= i < |rows| && ObjectOf(rows[i]) == k
  }

  /** Every versioned object points at its greatest version, and nothing else has a pointer. */
  ghost predicate NewestPointers(current: map<ObjectKey, int>, rows: seq<Row>) {
    && (forall k :: k in current <==> !k.kind.Scope? && HasObject(rows, k))
    && (forall k :: k in current ==> HasRow(rows, k, current[k]))
    && (forall i :: 0 <= i < |rows| && !rows[i].kind.Scope? ==> rows[i].version <= current[ObjectOf(rows[i])])
  }

  /** Each object's row that was inserted last also has its greatest version. */
  ghost predicate LastIsNewest(rows: seq<Row>) {
    forall i, j | 0 <= i < |rows| && 0 <= j < |rows| && !rows[j].kind.Scope? && LastOfObject(rows, j)
               && ObjectOf(rows[i]) == ObjectOf(rows[j]) ::
      rows[i].version <= rows[j].version
  }

  ghost predicate LastOfObject(rows: seq<Row>, j: nat)
    requires j < |rows|
  {
    forall i :: j < i < |rows| ==> ObjectOf(rows[i]) != ObjectOf(rows[j])
  }

  lemma NewestPointersUnique(c: map<ObjectKey, int>, c': map<ObjectKey, int>, rows: seq<Row>)
    requires NewestPointers(c, rows) && NewestPointers(c', rows)
    ensures c == c'
  {
    forall k | k in c ensures c[k] == c'[k] {
      assert HasRow(rows, k, c[k]) && HasRow(rows, k, c'[k]);
    }
    assert c.Keys == c'.Keys;
  }

  lemma ConsistentIsNewest(db: Db)
    requires Consistent(db)
    ensures NewestPointers(db.current, db.rows)
  {
    forall k | k in db.current ensures !k.kind.Scope? && HasObject(db.rows, k) {
      assert HasRow(db.rows, k, 1);
    }
  }

  lemma {:induction false} PointerIsLastInserted(rows: seq<Row>, j: nat)
    requires j < |rows| && LastOfObject(rows, j) && !rows[j].kind.Scope?
    ensures ObjectOf(rows[j]) in Pointers(rows) && Pointers(rows)[ObjectOf(rows[j])] == rows[j].version
  {
    var n := |rows| - 1;
    if j < n {
      assert ObjectOf(rows[n]) != ObjectOf(rows[j]);
      PointerIsLastInserted(rows[..n], j);
    }
  }

  lemma {:induction false} PointerHasLast(rows: seq<Row>, k: ObjectKey)
    ensures k in Pointers(rows) <==> !k.kind.Scope? && HasObject(rows, k)
    ensures HasObject(rows, k) ==> exists j :: 0 <= j < |rows| && ObjectOf(rows[j]) == k && LastOfObject(rows, j)
  {
    if rows != [] {
      var n := |rows| - 1;
      PointerHasLast(rows[..n], k);
      if ObjectOf(rows[n]) == k {
        assert LastOfObject(rows, n);
      } else if HasObject(rows[..n], k) {
        var j :| 0 <= j < n && ObjectOf(rows[..n][j]) == k && LastOfObject(rows[..n], j);
        forall i | j < i < |rows| ensures ObjectOf(rows[i]) != ObjectOf(rows[j]) {
          assert i < n ==> rows[..n][i] == rows[i];
        }
        assert LastOfObject(rows, j);
      } else {
        forall i | 0 <= i < |rows| ensures ObjectOf(rows[i]) != k {
          assert i < n ==> rows[..n][i] == rows[i];
        }
      }
    }
  }

  /** Inserting rows leaves the right pointers exactly when every object's newest row came last. */
  lemma InsertionPointersRightExactlyWhenLastIsNewest(rows: seq<Row>)
    ensures NewestPointers(Pointers(rows), rows) <==> LastIsNewest(rows)
  {
    var p := Pointers(rows);
    forall k ensures k in p <==> !k.kind.Scope? && HasObject(rows, k) {
      PointerHasLast(rows, k);
    }
    if NewestPointers(p, rows) {
      forall i, j | 0 <= i < |rows| && 0 <= j < |rows| && !rows[j].kind.Scope? && LastOfObject(rows, j)
                 && ObjectOf(rows[i]) == ObjectOf(rows[j])
        ensures rows[i].version <= rows[j].version
      {
        PointerIsLastInserted(rows, j);
      }
    }
    if LastIsNewest(rows) {
      forall k | k in p ensures HasRow(rows, k, p[k]) {
        PointerHasLast(rows, k);
        var j :| 0 <= j < |rows| && ObjectOf(rows[j]) == k && LastOfObject(rows, j);
        PointerIsLastInserted(rows, j);
      }
      forall i | 0 <= i < |rows| && !rows[i].kind.Scope? ensures rows[i].version <= p[ObjectOf(rows[i])] {
        var k := ObjectOf(rows[i]);
        PointerHasLast(rows, k);
        var j :| 0 <= j < |rows| && ObjectOf(rows[j]) == k && LastOfObject(rows, j);
        PointerIsLastInserted(rows, j);
      }
    }
  }

  // --- RebuildProjections ----------------------------------------------------------------------

  /** MAX(version) GROUP BY id, over the versioned rows of one workspace. */
  function MaxVersions(rows: seq<Row>, workspace: string): map<ObjectKey, int> {
    if rows == [] then map[]
    else
      var m, r := MaxVersions(rows[..|rows| - 1], workspace), rows[|rows| - 1];
      WithMax(m, r, workspace)
  }

  function WithMax(m: map<ObjectKey, int>, r: Row, workspace: string): map<ObjectKey, int> {
    if r.kind.Scope? || r.workspace != workspace then m
    else m[ObjectOf(r) := if ObjectOf(r) in m && m[ObjectOf(r)] > r.version then m[ObjectOf(r)] else r.version]
  }

  function Kept(current: map<ObjectKey, int>, workspace: string): map<ObjectKey, int> {
    map k | k in current && k.workspace != workspace :: current[k]
  }

  function Rebuild(db: Db, workspace: string): Db {
    db.(current := Kept(db.current, workspace) + MaxVersions(db.rows, workspace))
  }

  lemma RowKept(rows: seq<Row>, k: ObjectKey, version: int)
    requires rows != [] && HasRow(rows[..|rows| - 1], k, version)
    ensures HasRow(rows, k, version)
  {
    var before := rows[..|rows| - 1];
    var i :| 0 <= i < |before| && ObjectOf(before[i]) == k && before[i].version == version;
    assert ObjectOf(rows[i]) == k && rows[i].version == version;
  }

  lemma ObjectsSnoc(rows: seq<Row>, k: ObjectKey)
    requires rows != []
    ensures HasObject(rows, k) <==> HasObject(rows[..|rows| - 1], k) || ObjectOf(rows[|rows| - 1]) == k
  {
    var n := |rows| - 1;
    if HasObject(rows[..n], k) {
      var i :| 0 <= i < n && ObjectOf(rows[..n][i]) == k;
      assert ObjectOf(rows[i]) == k;
    }
    if HasObject(rows, k) && ObjectOf(rows[n]) != k {
      var i :| 0 <= i < |rows| && ObjectOf(rows[i]) == k;
      assert ObjectOf(rows[..n][i]) == k;
    }
  }

  lemma {:induction false} MaxVersionsAreGreatest(rows: seq<Row>, workspace: string)
    ensures var m := MaxVersions(rows, workspace);
      && (forall k :: k in m <==> !k.kind.Scope? && k.workspace == workspace && HasObject(rows, k))
      && (forall k :: k in m ==> HasRow(rows, k, m[k]))
      && (forall i | 0 <= i < |rows| && !rows[i].kind.Scope? && rows[i].workspace == workspace ::
            rows[i].version <= m[ObjectOf(rows[i])])
  {
    if rows != [] {
      var n := |rows| - 1;
      MaxVersionsAreGreatest(rows[..n], workspace);
      var m, m' := MaxVersions(rows[..n], workspace), MaxVersions(rows, workspace);
      var r := rows[n];
      forall k ensures HasObject(rows, k) <==> HasObject(rows[..n], k) || ObjectOf(r) == k {
        ObjectsSnoc(rows, k);
      }
      forall k | k in m' ensures HasRow(rows, k, m'[k]) {
        if k in m && m'[k] == m[k] {
          RowKept(rows, k, m[k]);
        } else {
          assert ObjectOf(rows[n]) == k;
        }
      }
      forall i | 0 <= i < |rows| && !rows[i].kind.Scope? && rows[i].workspace == workspace
        ensures rows[i].version <= m'[ObjectOf(rows[i])]
      {
        if i < n { assert rows[..n][i] == rows[i]; }
      }
    }
  }

  /**
   A rebuild makes every pointer of the workspace the greatest version that has a row, whatever the
   pointers were and whatever order the rows came in, and leaves other workspaces alone.
   */
  lemma RebuildPointsAtNewest(db: Db, workspace: string)
    ensures var c := Rebuild(db, workspace).current;
      && (forall k: ObjectKey :: k.workspace == workspace ==> (k in c <==> !k.kind.Scope? && HasObject(db.rows, k)))
      && (forall k :: k in c && k.workspace == workspace ==> HasRow(db.rows, k, c[k]))
      && (forall i | 0 <= i < |db.rows| && !db.rows[i].kind.Scope? && db.rows[i].workspace == workspace ::
            db.rows[i].version <= c[ObjectOf(db.rows[i])])
      && (forall k: ObjectKey :: k.workspace != workspace ==>
            (k in c <==> k in db.current) && (k in c ==> c[k] == db.current[k]))
  {
    MaxVersionsAreGreatest(db.rows, workspace);
  }

  /** The same for a store that holds one workspace only. */
  lemma RebuildSingleWorkspace(db: Db, workspace: string)
    requires forall i :: 0 <= i < |db.rows| ==> db.rows[i].workspace == workspace
    requires forall k :: k in db.current ==> k.workspace == workspace
    ensures NewestPointers(Rebuild(db, workspace).current, db.rows)
  {
    RebuildPointsAtNewest(db, workspace);
    forall k | HasObject(db.rows, k) ensures k.workspace == workspace {
      var i :| 0 <= i < |db.rows| && ObjectOf(db.rows[i]) == k;
      assert db.rows[i].workspace == workspace;
    }
  }

  /** In every state the service reaches, a rebuild changes nothing. */
  lemma RebuildIsNoOp(db: Db, workspace: string)
    requires Consistent(db)
    ensures Rebuild(db, workspace) == db
  {
    ConsistentIsNewest(db);
    RebuildOfNewest(db, workspace);
  }

  lemma RebuildOfNewest(db: Db, workspace: string)
    requires NewestPointers(db.current, db.rows)
    ensures Rebuild(db, workspace) == db
  {
    MaxVersionsAreGreatest(db.rows, workspace);
    NewestIsGreatest(db.current, db.rows, workspace, MaxVersions(db.rows, workspace));
    assert Kept(db.current, workspace) + MaxVersions(db.rows, workspace) == db.current;
  }

  lemma NewestIsGreatest(c: map<ObjectKey, int>, rows: seq<Row>, workspace: string, m: map<ObjectKey, int>)
    requires NewestPointers(c, rows)
    requires forall k :: k in m <==> !k.kind.Scope? && k.workspace == workspace && HasObject(rows, k)
    requires forall k :: k in m ==> HasRow(rows, k, m[k])
    requires forall i | 0 <= i < |rows| && !rows[i].kind.Scope? && rows[i].workspace == workspace ::
      rows[i].version <= m[ObjectOf(rows[i])]
    ensures forall k: ObjectKey :: k.workspace == workspace ==> (k in m <==> k in c) && (k in m ==> m[k] == c[k])
  {
    forall k: ObjectKey | k.workspace == workspace && k in m ensures m[k] == c[k] {
      var i :| 0 <= i < |rows| && ObjectOf(rows[i]) == k && rows[i].version == m[k];
      var j :| 0 <= j < |rows| && ObjectOf(rows[j]) == k && rows[j].version == c[k];
      assert rows[i].version <= c[ObjectOf(rows[i])];
      assert rows[j].version <= m[ObjectOf(rows[j])];
    }
  }
}
