/**
 The event-sourced tables of the store and the transaction every write goes through: insert one
 event, insert one immutable row, move the current pointer. Uniqueness constraints are the only
 concurrency control. Tables are sequences in insertion order.
 */
module EventStore {
  import opened Sequences

  datatype Option<+T> = None | Some(value: T)

  /** The aggregate type of an event and the table of a row; any other name can arrive in a snapshot. */
  datatype Kind = Scope | Entity | Artifact | Memory | Relationship | Unsupported(name: string)

  /** The memory columns that full-text search indexes; empty for the other kinds. */
  datatype MemoryText = MemoryText(subject: string, predicate_: string, object_: string, title: string, content: string)

  /**
   A row of one of the five tables. `rest` stands for the remaining columns. `embedding` is the one
   column that is updated after the insert, and only for memories.
   */
  datatype Row = Row(kind: Kind, workspace: string, id: string, version: int, canonicalKey: string,
                     text: MemoryText, rest: string, embedding: string)

  /** A log entry; the payload is the row as written, and absent when its key is missing. */
  datatype Event = Event(id: string, workspace: string, kind: Kind, aggregateId: string, version: int,
                         key: string, payload: Option<Row>)

  datatype ObjectKey = ObjectKey(kind: Kind, workspace: string, id: string)

  datatype Db = Db(events: seq<Event>, rows: seq<Row>, current: map<ObjectKey, int>)

  datatype Status = Done | Conflict | NoPayload | UnsupportedType | UnsupportedSchema | ChecksumMismatch | CountMismatch

  /** What a call leaves behind: committed transactions stay even when a later one fails. */
  datatype Outcome = Outcome(db: Db, status: Status)

  const EMPTY := Db([], [], map[])

  function ObjectOf(r: Row): ObjectKey {
    ObjectKey(r.kind, r.workspace, r.id)
  }

  /** Equal but for the column that is not part of the log. */
  predicate SameContent(a: Row, b: Row) {
    a.(embedding := b.embedding) == b
  }

  /** The row without that column. */
  function Strip(r: Row): (stripped: Row)
    ensures SameContent(stripped, r) && stripped.embedding == ""
  {
    r.(embedding := "")
  }

  function ZeroRow(kind: Kind): Row {
    Row(kind, "", "", 0, "", MemoryText("", "", "", "", ""), "", "")
  }

  function PayloadOf(e: Event): Row {
    if e.payload.Some? then e.payload.value else ZeroRow(e.kind)
  }

  /** Two rows that a primary key or unique constraint does not allow in one table. */
  predicate Clash(a: Row, b: Row) {
    && a.kind == b.kind
    && if a.kind.Scope? then
         a.id == b.id || (a.workspace == b.workspace && a.canonicalKey == b.canonicalKey)
       else
         a.workspace == b.workspace && a.id == b.id && a.version == b.version
  }

  predicate SameKey(a: Event, b: Event) {
    a.workspace == b.workspace && a.key == b.key
  }

  predicate EventFits(db: Db, e: Event) {
    forall i :: 0 <= i < |db.events| ==> db.events[i].id != e.id && !SameKey(db.events[i], e)
  }

  predicate RowFits(db: Db, r: Row) {
    forall i :: 0 <= i < |db.rows| ==> !Clash(db.rows[i], r)
  }

  lemma EventFitsExactly(db: Db, e: Event)
    ensures EventFits(db, e) <==>
      forall x :: x in db.events ==> x.id != e.id && !(x.workspace == e.workspace && x.key == e.key)
  {
    if EventFits(db, e) {
      forall x | x in db.events ensures x.id != e.id && !(x.workspace == e.workspace && x.key == e.key) {
        var i :| 0 <= i < |db.events| && db.events[i] == x;
      }
    }
  }

  lemma RowFitsExactly(db: Db, r: Row)
    ensures RowFits(db, r) <==>
      forall x :: x in db.rows && x.kind == r.kind ==>
        if r.kind.Scope? then x.id != r.id && !(x.workspace == r.workspace && x.canonicalKey == r.canonicalKey)
        else !(x.workspace == r.workspace && x.id == r.id && x.version == r.version)
  {
    if RowFits(db, r) {
      forall x | x in db.rows ensures !Clash(x, r) {
        var i :| 0 <= i < |db.rows| && db.rows[i] == x;
      }
    }
  }

  function MovePointer(current: map<ObjectKey, int>, r: Row): map<ObjectKey, int> {
    if r.kind.Scope? then current else current[ObjectOf(r) := r.version]
  }

  /** One transaction: all of it or nothing. */
  function Commit(db: Db, e: Event, r: Row): Outcome {
    if EventFits(db, e) && RowFits(db, r) then
      Outcome(Db(db.events + [e], db.rows + [r], MovePointer(db.current, r)), Done)
    else
      Outcome(db, Conflict)
  }

  predicate HasKey(db: Db, workspace: string, key: string) {
    exists i :: 0 <= i < |db.events| && db.events[i].workspace == workspace && db.events[i].key == key
  }

  /** The event records this row, up to the embedding column. */
  predicate Describes(e: Event, r: Row) {
    && !e.kind.Unsupported?
    && r.kind == e.kind && r.workspace == e.workspace && r.id == e.aggregateId && r.version == e.version
    && e.payload.Some? && SameContent(e.payload.value, r)
  }

  ghost predicate HasRow(rows: seq<Row>, k: ObjectKey, version: int) {
    exists i :: 0 <= i < |rows| && ObjectOf(rows[i]) == k && rows[i].version == version
  }

  /** Events and rows correspond one to one. */
  ghost predicate Paired(db: Db) {
    && |db.events| == |db.rows|
    && forall i :: 0 <= i < |db.rows| ==> Describes(db.events[i], db.rows[i])
  }

  ghost predicate UniqueEvents(events: seq<Event>) {
    forall i, j :: 0 <= i < j < |events| ==> events[i].id != events[j].id && !SameKey(events[i], events[j])
  }

  ghost predicate UniqueRows(rows: seq<Row>) {
    forall i, j :: 0 <= i < j < |rows| ==> !Clash(rows[i], rows[j])
  }

  /** No row lies outside the versions 1 to n, where n is the object's current pointer. */
  ghost predicate RowsWithinVersions(db: Db) {
    forall i :: 0 <= i < |db.rows| ==>
      var r := db.rows[i];
      if r.kind.Scope? then r.version == 1
      else 1 <= r.version && ObjectOf(r) in db.current && r.version <= db.current[ObjectOf(r)]
  }

  /** Every version from 1 to n has a row. */
  ghost predicate VersionsFilled(db: Db) {
    forall k :: k in db.current ==>
      && !k.kind.Scope?
      && 1 <= db.current[k]
      && forall v :: 1 <= v <= db.current[k] ==> HasRow(db.rows, k, v)
  }

  /** What every reachable state of the service satisfies. */
  ghost predicate Consistent(db: Db) {
    && Paired(db)
    && UniqueEvents(db.events)
    && UniqueRows(db.rows)
    && RowsWithinVersions(db)
    && VersionsFilled(db)
  }

  /** The log is a prefix, rows stay, pointers only advance. */
  ghost predicate Grows(d: Db, d': Db) {
    && d.events <= d'.events
    && |d.rows| <= |d'.rows|
    && (forall i :: 0 <= i < |d.rows| ==> SameContent(d.rows[i], d'.rows[i]))
    && (forall k :: k in d.current ==> k in d'.current && d.current[k] <= d'.current[k])
  }

  function EventCount(db: Db, workspace: string): nat {
    |Filter((e: Event) => e.workspace == workspace, db.events)|
  }

  function RowCount(db: Db, workspace: string, kind: Kind): nat {
    |Filter((r: Row) => r.workspace == workspace && r.kind == kind, db.rows)|
  }

  /** UPDATE memories SET embedding_state: outside the log, no other column. */
  function SetEmbeddingState(db: Db, workspace: string, id: string, version: int, state: string): (db': Db)
    ensures db'.events == db.events && db'.current == db.current && |db'.rows| == |db.rows|
    ensures forall i :: 0 <= i < |db.rows| ==> SameContent(db.rows[i], db'.rows[i])
  {
    var hit := (r: Row) => r.kind.Memory? && r.workspace == workspace && r.id == id && r.version == version;
    db.(rows := seq(|db.rows|, i requires 0 <= i < |db.rows| =>
                      if hit(db.rows[i]) then db.rows[i].(embedding := state) else db.rows[i]))
  }

  // --- What one transaction keeps -----------------------------------------------------------

  /** A commit one past a version that was current at some time keeps the invariant: a stale read cannot commit. */
  lemma CommitKeepsConsistent(db: Db, e: Event, r: Row, base: int)
    requires Consistent(db) && Describes(e, r) && r.version == base + 1
    requires r.kind.Scope? ==> base == 0
    requires base == 0 || (1 <= base && ObjectOf(r) in db.current && base <= db.current[ObjectOf(r)])
    ensures Consistent(Commit(db, e, r).db)
    ensures Grows(db, Commit(db, e, r).db)
    ensures Commit(db, e, r).status.Done? && !r.kind.Scope? ==>
              base == if ObjectOf(r) in db.current then db.current[ObjectOf(r)] else 0
  {
    if EventFits(db, e) && RowFits(db, r) {
      if !r.kind.Scope? && ObjectOf(r) in db.current {
        assert base < db.current[ObjectOf(r)] ==> HasRow(db.rows, ObjectOf(r), base + 1);
      }
      CommitFillsVersions(db, e, r);
    }
  }

  lemma CommitFillsVersions(db: Db, e: Event, r: Row)
    requires VersionsFilled(db) && EventFits(db, e) && RowFits(db, r)
    requires !r.kind.Scope? ==> r.version == 1 + if ObjectOf(r) in db.current then db.current[ObjectOf(r)] else 0
    ensures VersionsFilled(Commit(db, e, r).db)
  {
    var db' := Commit(db, e, r).db;
    forall j, v | j in db'.current && 1 <= v <= db'.current[j] ensures HasRow(db'.rows, j, v) {
      if j == ObjectOf(r) && v == r.version {
        assert db'.rows[|db.rows|] == r;
      } else {
        assert HasRow(db.rows, j, v);
        var i :| 0 <= i < |db.rows| && ObjectOf(db.rows[i]) == j && db.rows[i].version == v;
        assert db'.rows[i] == db.rows[i];
      }
    }
  }

  lemma SetEmbeddingStateKeepsConsistent(db: Db, workspace: string, id: string, version: int, state: string)
    requires Consistent(db)
    ensures Consistent(SetEmbeddingState(db, workspace, id, version, state))
  {
    var db' := SetEmbeddingState(db, workspace, id, version, state);
    forall k, v | k in db'.current && 1 <= v <= db'.current[k] ensures HasRow(db'.rows, k, v) {
      assert HasRow(db.rows, k, v);
      var i :| 0 <= i < |db.rows| && ObjectOf(db.rows[i]) == k && db.rows[i].version == v;
      assert SameContent(db.rows[i], db'.rows[i]);
    }
    forall i | 0 <= i < |db.rows| ensures Describes(db'.events[i], db'.rows[i]) {
      assert SameContent(db.rows[i], db'.rows[i]);
    }
    forall i, j | 0 <= i < j < |db.rows| ensures !Clash(db'.rows[i], db'.rows[j]) {
      assert SameContent(db.rows[i], db'.rows[i]) && SameContent(db.rows[j], db'.rows[j]);
      assert !Clash(db.rows[i], db.rows[j]);
    }
  }
}
