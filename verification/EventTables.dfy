/**
 * The event and tag tables of the SQLite store (src/repo/sqlite_migration.rs), each statement of
 * `persist_event` and `delete_expired` (src/repo/sqlite.rs) as a function on them, and the two
 * operations as the composition of their statements.
 */
module EventTables {
  import opened Common
  import opened Events
  import opened Hex

  type Bytes = seq<Byte>

  /**
   * One row of table `event`, keyed by its row id. `content` stands for the JSON text of the
   * event. The columns `first_seen` and `delegated_by`, which no modelled statement reads, are
   * left out.
   */
  datatype EventRow = EventRow(
    hash: Bytes,
    createdAt: nat,
    expiresAt: Option<nat>,
    kind: nat,
    author: Bytes,
    content: Event,
    hidden: bool)

  /** One row of table `tag`; `eventId` references an event row and cascades on delete. */
  datatype TagRow = TagRow(eventId: nat, name: string, value: string, kind: nat, createdAt: nat)

  datatype Tables = Tables(events: map<nat, EventRow>, tags: seq<TagRow>)

  /** Result of a write: the row count reported to the writer, or a database error. */
  datatype Outcome = Written(rows: nat) | Failed

  const EMPTY: Tables := Tables(map[], [])

  // ---------------------------------------------------------------------------------------
  // Columns computed from an event
  // ---------------------------------------------------------------------------------------

  /** What survives serialization to JSON: everything but the two unserialized fields. */
  function Serialized(e: Event): Event {
    e.(delegatedBy := None, tagidx := None)
  }

  /** Whether every integer of the event fits SQLite's signed 64-bit integers. */
  predicate Bindable(e: Event) {
    e.createdAt < TWO_POW_63 && e.kind < TWO_POW_63
    && (Expiration(e).Some? ==> Expiration(e).value < TWO_POW_63)
  }

  predicate Decodable(e: Event) {
    Decode(e.id).Some? && Decode(e.pubkey).Some?
  }

  function RowFor(e: Event): EventRow
    requires Decodable(e)
  {
    EventRow(Decode(e.id).value, e.createdAt, Expiration(e), e.kind, Decode(e.pubkey).value, Serialized(e), false)
  }

  /** The tag rows of an event: its valued tags with one-character names, in order. */
  function DerivedTags(id: nat, tags: seq<Tag>, kind: nat, createdAt: nat): seq<TagRow> {
    if tags == [] then []
    else if IsIndexed(tags[0]) then
      [TagRow(id, tags[0][0], tags[0][1], kind, createdAt)] + DerivedTags(id, tags[1..], kind, createdAt)
    else DerivedTags(id, tags[1..], kind, createdAt)
  }

  // ---------------------------------------------------------------------------------------
  // Statements
  // ---------------------------------------------------------------------------------------

  /** The row id SQLite assigns: one more than the largest in use, or 1. */
  function NewRowId(used: set<nat>): (id: nat)
    ensures forall k :: k in used ==> k < id
    ensures if used == {} then id == 1 else id - 1 in used
  {
    if used == {} then 1
    else
      MaximumExists(used);
      var m :| m in used && forall k :: k in used ==> k <= m;
      m + 1
  }

  /** Tag rows that do not belong to any of the given events. */
  function TagsWithout(tags: seq<TagRow>, ids: set<nat>): seq<TagRow> {
    if tags == [] then []
    else if tags[0].eventId in ids then TagsWithout(tags[1..], ids)
    else [tags[0]] + TagsWithout(tags[1..], ids)
  }

  /** DELETE FROM event, with the cascade to the tag table. */
  function DeleteEvents(t: Tables, ids: set<nat>): Tables {
    Tables(t.events - ids, TagsWithout(t.tags, ids))
  }

  /** UPDATE event SET hidden=TRUE. */
  function HideEvents(t: Tables, ids: set<nat>): Tables {
    t.(events := map id | id in t.events :: if id in ids then t.events[id].(hidden := true) else t.events[id])
  }

  predicate SameAuthorKind(r: EventRow, author: Bytes, kind: nat) {
    r.author == author && r.kind == kind
  }

  /** A stored event of this author and kind at least as new as `e` (replaceable kinds). */
  predicate ReplaceableShadow(t: Tables, e: Event) {
    IsReplaceable(e.kind) && Decode(e.pubkey).Some?
    && exists id :: id in t.events && SameAuthorKind(t.events[id], Decode(e.pubkey).value, e.kind)
                    && t.events[id].createdAt >= e.createdAt
  }

  /** Row `k` of the tag table is a d row of this slot, joined to its event. */
  predicate IsSlotTag(t: Tables, k: nat, author: Bytes, kind: nat, d: string) {
    && k < |t.tags|
    && t.tags[k].name == "d" && t.tags[k].value == d
    && t.tags[k].eventId in t.events
    && SameAuthorKind(t.events[t.tags[k].eventId], author, kind)
  }

  /** A stored event with a d row of this slot at least as new as `e` (parameterized kinds). */
  predicate ParamShadow(t: Tables, e: Event) {
    DistinctParam(e).Some? && Decode(e.pubkey).Some?
    && exists k: nat :: k < |t.tags| && IsSlotTag(t, k, Decode(e.pubkey).value, e.kind, DistinctParam(e).value)
                        && t.events[t.tags[k].eventId].createdAt >= e.createdAt
  }

  predicate HashTaken(t: Tables, hash: Bytes) {
    exists id :: id in t.events && t.events[id].hash == hash
  }

  /** INSERT INTO event, then INSERT INTO tag for every indexed tag. */
  function Insert(t: Tables, e: Event): Tables
    requires Decodable(e)
  {
    var id := NewRowId(t.events.Keys);
    Tables(t.events[id := RowFor(e)], t.tags + DerivedTags(id, e.tags, e.kind, e.createdAt))
  }

  /** Row `k` comes before `j`: newer, or as new and of a smaller number. */
  predicate Before(at: map<nat, nat>, k: nat, j: nat)
    requires k in at && j in at
  {
    at[j] < at[k] || (at[j] == at[k] && k <= j)
  }

  lemma {:induction false} FindNewest(at: map<nat, nat>, among: set<nat>) returns (k: nat)
    requires among != {} && among <= at.Keys
    ensures k in among && forall j :: j in among ==> Before(at, k, j)
    decreases |among|
  {
    var x :| x in among;
    var rest := among - {x};
    k := x;
    if rest != {} {
      var m := FindNewest(at, rest);
      k := if Before(at, m, x) then m else x;
    }
    assert forall j :: j in among ==> j == x || j in rest;
  }

  lemma NewestExists(at: map<nat, nat>)
    requires at != map[]
    ensures exists k :: k in at && forall j :: j in at ==> Before(at, k, j)
  {
    var k := FindNewest(at, at.Keys);
  }

  /**
   * First row of ORDER BY created_at DESC over the candidates. SQL leaves the order of equal
   * timestamps open: `tie` names the candidate the engine puts first among the newest.
   */
  function Newest(at: map<nat, nat>, tie: nat): (k: nat)
    requires at != map[]
    ensures k in at && forall j :: j in at ==> at[j] <= at[k]
  {
    if tie in at && (forall j :: j in at ==> at[j] <= at[tie]) then tie
    else
      NewestExists(at);
      var k :| k in at && forall j :: j in at ==> Before(at, k, j);
      k
  }

  /** Rows of one author and kind, with their timestamps. */
  function AuthorKindRows(t: Tables, author: Bytes, kind: nat): map<nat, nat> {
    map id | id in t.events && SameAuthorKind(t.events[id], author, kind) :: t.events[id].createdAt
  }

  /** DELETE every event of this author and kind but the newest. */
  function PruneReplaceable(t: Tables, author: Bytes, kind: nat, tie: nat): Tables {
    var at := AuthorKindRows(t, author, kind);
    if at == map[] then t else DeleteEvents(t, at.Keys - {Newest(at, tie)})
  }

  /** d rows of one slot, with the timestamps copied into the tag table. */
  function SlotTags(t: Tables, author: Bytes, kind: nat, d: string): map<nat, nat> {
    map k: nat | k < |t.tags| && IsSlotTag(t, k, author, kind, d) :: t.tags[k].createdAt
  }

  /** Events of the candidate tag rows other than the first. */
  function OtherEvents(t: Tables, at: map<nat, nat>, first: nat): set<nat>
    requires forall k :: k in at ==> k < |t.tags|
  {
    set k | k in at && k != first :: t.tags[k].eventId
  }

  /** DELETE the events of every d row of this slot after the first (LIMIT -1 OFFSET 1). */
  function PruneParam(t: Tables, author: Bytes, kind: nat, d: string, tie: nat): Tables {
    var at := SlotTags(t, author, kind, d);
    if at == map[] then t
    else DeleteEvents(t, OtherEvents(t, at, Newest(at, tie)))
  }

  /** The hashes a deletion event names: its e values that are 64 hexadecimal digits, decoded. */
  predicate NamesHash(e: Event, hash: Bytes) {
    exists v :: v in TagValuesByName(e.tags, "e") && |v| == 64 && IsHex(v) && Decode(v) == Some(hash)
  }

  /** Events a new deletion event hides: other kinds, same author, named by hash. */
  function DeletionTargets(t: Tables, e: Event): set<nat> {
    set id | id in t.events && t.events[id].kind != 5
             && Decode(e.pubkey) == Some(t.events[id].author) && NamesHash(e, t.events[id].hash)
  }

  /** A stored deletion event of this author names this id, compared as text. */
  predicate DeletionRecorded(t: Tables, author: Bytes, idText: string) {
    exists k: nat :: k < |t.tags| && IsDeletionTag(t, k, author, idText)
  }

  predicate IsDeletionTag(t: Tables, k: nat, author: Bytes, idText: string) {
    && k < |t.tags|
    && t.tags[k].name == "e" && t.tags[k].kind == 5 && t.tags[k].value == idText
    && t.tags[k].eventId in t.events && t.events[t.tags[k].eventId].author == author
  }

  // ---------------------------------------------------------------------------------------
  // Operations
  // ---------------------------------------------------------------------------------------

  /** The write is ignored: a stored event already supersedes this one. */
  predicate Shadowed(t: Tables, e: Event) {
    ReplaceableShadow(t, e) || ParamShadow(t, e)
  }

  /** The insert changes nothing: a NOT NULL column would be NULL, or the hash is taken. */
  predicate InsertIgnored(t: Tables, e: Event) {
    !Decodable(e) || HashTaken(t, Decode(e.id).value)
  }

  /** Whether the write of `e` adds a row. */
  predicate Inserts(t: Tables, e: Event) {
    !Shadowed(t, e) && Bindable(e) && !InsertIgnored(t, e)
  }

  /** The tables after the insert and the removal of superseded events. */
  function Replaced(t: Tables, e: Event, tie: nat): Tables
    requires Decodable(e)
  {
    var author := Decode(e.pubkey).value;
    var t1 := Insert(t, e);
    var t2 := if IsReplaceable(e.kind) then PruneReplaceable(t1, author, e.kind, tie) else t1;
    if DistinctParam(e).Some? then PruneParam(t2, author, e.kind, DistinctParam(e).value, tie) else t2
  }

  /**
   * `persist_event`, up to the order SQL leaves open among equal timestamps. An error of the
   * shadow queries counts as no rows, so a timestamp that cannot be bound fails at the insert.
   */
  function Persist(t: Tables, e: Event, tie: nat): (Tables, Outcome) {
    if e.createdAt < TWO_POW_63 && Shadowed(t, e) then (t, Written(0))
    else if !Bindable(e) then (t, Failed)
    else if InsertIgnored(t, e) then (t, Written(0))
    else
      var id := NewRowId(t.events.Keys);
      var r := Replaced(t, e, tie);
      if e.kind == 5 then (HideEvents(r, DeletionTargets(r, e)), Written(1))
      else if DeletionRecorded(r, Decode(e.pubkey).value, e.id) then (HideEvents(r, {id}), Written(0))
      else (r, Written(1))
  }

  predicate IsExpiredRow(r: EventRow, now: nat) {
    r.expiresAt.Some? && r.expiresAt.value <= now
  }

  /** `delete_expired`. */
  function DeleteExpired(t: Tables, now: nat): Tables {
    DeleteEvents(t, set id | id in t.events && IsExpiredRow(t.events[id], now))
  }

  // ---------------------------------------------------------------------------------------
  // Runs
  // ---------------------------------------------------------------------------------------

  datatype Op = Write(e: Event, tie: nat) | Expire(now: nat)

  function Step(t: Tables, op: Op): Tables {
    match op
    case Write(e, tie) => Persist(t, e, tie).0
    case Expire(now) => DeleteExpired(t, now)
  }

  /** The tables after a sequence of writes and cleanups on an empty store. */
  function Run(ops: seq<Op>): Tables {
    if ops == [] then EMPTY else Step(Run(ops[..|ops| - 1]), ops[|ops| - 1])
  }
}
