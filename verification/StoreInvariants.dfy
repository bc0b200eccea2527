/**
 * What every write and cleanup keeps: rows agree with their events, hashes are unique, and the
 * tag table is exactly the projection of the stored events.
 */
module StoreInvariants {
  import opened Common
  import opened Events
  import opened Hex
  import opened EventTables

  /** The tag rows of one event, in table order. */
  function TagsOf(tags: seq<TagRow>, id: nat): seq<TagRow> {
    if tags == [] then []
    else if tags[0].eventId == id then [tags[0]] + TagsOf(tags[1..], id)
    else TagsOf(tags[1..], id)
  }

  /** The columns that the statements compare are those of the event the row holds. */
  predicate Columns(r: EventRow) {
    && Decode(r.content.id) == Some(r.hash) && Decode(r.content.pubkey) == Some(r.author)
    && r.kind == r.content.kind && r.createdAt == r.content.createdAt
  }

  /** The row is the one that the insert of its event makes, except for the hidden flag. */
  predicate Faithful(r: EventRow) {
    Columns(r) && r.expiresAt == Expiration(r.content) && r.content == Serialized(r.content)
  }

  /** Tag rows a stored row must have. */
  function ExpectedTags(id: nat, r: EventRow): seq<TagRow> {
    DerivedTags(id, r.content.tags, r.kind, r.createdAt)
  }

  predicate NoOrphans(t: Tables) {
    forall k :: 0 <= k < |t.tags| ==> t.tags[k].eventId in t.events
  }

  predicate TagsComplete(t: Tables) {
    forall id :: id in t.events ==> TagsOf(t.tags, id) == ExpectedTags(id, t.events[id])
  }

  /** The tag table is the projection of the event table. */
  predicate Projected(t: Tables) {
    NoOrphans(t) && TagsComplete(t)
  }

  predicate ColumnsAgree(t: Tables) {
    forall id :: id in t.events ==> Columns(t.events[id])
  }

  predicate RowsFaithful(t: Tables) {
    forall id :: id in t.events ==> Faithful(t.events[id])
  }

  predicate UniqueHashes(t: Tables) {
    forall i, j :: i in t.events && j in t.events && t.events[i].hash == t.events[j].hash ==> i == j
  }

  predicate Valid(t: Tables) {
    RowsFaithful(t) && UniqueHashes(t) && Projected(t)
  }

  // ---------------------------------------------------------------------------------------
  // Tag rows of one event
  // ---------------------------------------------------------------------------------------

  lemma {:induction false} TagsOfAppend(a: seq<TagRow>, b: seq<TagRow>, id: nat)
    ensures TagsOf(a + b, id) == TagsOf(a, id) + TagsOf(b, id)
  {
    if a == [] {
      assert a + b == b;
    } else {
      TagsOfAppend(a[1..], b, id);
      assert (a + b)[0] == a[0] && (a + b)[1..] == a[1..] + b;
    }
  }

  lemma {:induction false} TagsOfDerived(id: nat, tags: seq<Tag>, kind: nat, createdAt: nat, other: nat)
    ensures TagsOf(DerivedTags(id, tags, kind, createdAt), other)
            == if other == id then DerivedTags(id, tags, kind, createdAt) else []
  {
    if tags != [] {
      TagsOfDerived(id, tags[1..], kind, createdAt, other);
      var all := DerivedTags(id, tags, kind, createdAt);
      if IsIndexed(tags[0]) {
        assert all[1..] == DerivedTags(id, tags[1..], kind, createdAt);
      } else {
        assert all == DerivedTags(id, tags[1..], kind, createdAt);
      }
    }
  }

  lemma {:induction false} DerivedTagsBelong(id: nat, tags: seq<Tag>, kind: nat, createdAt: nat)
    ensures forall r :: r in DerivedTags(id, tags, kind, createdAt) ==>
                          r.eventId == id && r.kind == kind && r.createdAt == createdAt
  {
    if tags != [] {
      DerivedTagsBelong(id, tags[1..], kind, createdAt);
    }
  }

  lemma {:induction false} TagsOfWithout(tags: seq<TagRow>, ids: set<nat>, id: nat)
    requires id !in ids
    ensures TagsOf(TagsWithout(tags, ids), id) == TagsOf(tags, id)
  {
    if tags != [] {
      TagsOfWithout(tags[1..], ids, id);
    }
  }

  lemma {:induction false} TagsWithoutMembers(tags: seq<TagRow>, ids: set<nat>)
    ensures forall r :: r in TagsWithout(tags, ids) <==> r in tags && r.eventId !in ids
  {
    if tags != [] {
      TagsWithoutMembers(tags[1..], ids);
      assert tags == [tags[0]] + tags[1..];
    }
  }

  lemma {:induction false} TagsOfMembers(tags: seq<TagRow>, id: nat)
    ensures forall r :: r in TagsOf(tags, id) <==> r in tags && r.eventId == id
  {
    if tags != [] {
      TagsOfMembers(tags[1..], id);
      assert tags == [tags[0]] + tags[1..];
    }
  }

  lemma {:induction false} NoTagsOf(tags: seq<TagRow>, id: nat)
    requires forall k :: 0 <= k < |tags| ==> tags[k].eventId != id
    ensures TagsOf(tags, id) == []
  {
    if tags != [] {
      NoTagsOf(tags[1..], id);
    }
  }

  lemma {:induction false} TagsOfMultiplicity(tags: seq<TagRow>, r: TagRow)
    ensures multiset(TagsOf(tags, r.eventId))[r] == multiset(tags)[r]
  {
    if tags != [] {
      TagsOfMultiplicity(tags[1..], r);
      assert tags == [tags[0]] + tags[1..];
    }
  }

  lemma {:induction false} DerivedTagsValues(id: nat, tags: seq<Tag>, kind: nat, createdAt: nat, name: char, value: string)
    ensures TagRow(id, [name], value, kind, createdAt) in DerivedTags(id, tags, kind, createdAt)
            <==> value in TagValuesByName(tags, [name])
  {
    if tags != [] {
      DerivedTagsValues(id, tags[1..], kind, createdAt, name, value);
    }
  }

  // ---------------------------------------------------------------------------------------
  // Preservation
  // ---------------------------------------------------------------------------------------

  lemma DeleteKeepsProjected(t: Tables, ids: set<nat>)
    requires Projected(t)
    ensures Projected(DeleteEvents(t, ids))
  {
    var t' := DeleteEvents(t, ids);
    TagsWithoutMembers(t.tags, ids);
    forall k | 0 <= k < |t'.tags|
      ensures t'.tags[k].eventId in t'.events
    {
      assert t'.tags[k] in t'.tags;
    }
    forall id | id in t'.events
      ensures TagsOf(t'.tags, id) == ExpectedTags(id, t'.events[id])
    {
      TagsOfWithout(t.tags, ids, id);
    }
  }

  lemma DeleteKeepsValid(t: Tables, ids: set<nat>)
    requires Valid(t)
    ensures Valid(DeleteEvents(t, ids))
  {
    DeleteKeepsProjected(t, ids);
  }

  lemma HideKeepsProjected(t: Tables, ids: set<nat>)
    requires Projected(t)
    ensures Projected(HideEvents(t, ids))
  {
    var t' := HideEvents(t, ids);
    assert t'.events.Keys == t.events.Keys;
    forall id | id in t'.events
      ensures TagsOf(t'.tags, id) == ExpectedTags(id, t'.events[id])
    {
      assert ExpectedTags(id, t'.events[id]) == ExpectedTags(id, t.events[id]);
    }
  }

  lemma HideKeepsValid(t: Tables, ids: set<nat>)
    requires Valid(t)
    ensures Valid(HideEvents(t, ids))
  {
    HideKeepsProjected(t, ids);
  }

  lemma InsertKeepsProjected(t: Tables, e: Event)
    requires Projected(t) && Decodable(e)
    ensures Projected(Insert(t, e))
  {
    var id := NewRowId(t.events.Keys);
    var added := DerivedTags(id, e.tags, e.kind, e.createdAt);
    var t' := Insert(t, e);
    DerivedTagsBelong(id, e.tags, e.kind, e.createdAt);
    forall k | 0 <= k < |t'.tags|
      ensures t'.tags[k].eventId in t'.events
    {
      if k >= |t.tags| {
        assert t'.tags[k] in added;
      }
    }
    forall j | j in t'.events
      ensures TagsOf(t'.tags, j) == ExpectedTags(j, t'.events[j])
    {
      TagsOfAppend(t.tags, added, j);
      TagsOfDerived(id, e.tags, e.kind, e.createdAt, j);
      if j == id {
        NoTagsOfUnused(t, id);
      }
    }
  }

  lemma InsertKeepsValid(t: Tables, e: Event)
    requires Valid(t) && Decodable(e)
    requires !HashTaken(t, Decode(e.id).value)
    ensures Valid(Insert(t, e))
  {
    InsertKeepsProjected(t, e);
    assert Expiration(Serialized(e)) == Expiration(e);
  }

  /** A row id that is not in use has no tag rows, so reusing one mixes nothing up. */
  lemma NoTagsOfUnused(t: Tables, id: nat)
    requires NoOrphans(t) && id !in t.events
    ensures TagsOf(t.tags, id) == []
  {
    NoTagsOf(t.tags, id);
  }

  lemma ReplacedKeepsValid(t: Tables, e: Event, tie: nat)
    requires Valid(t) && Inserts(t, e)
    ensures Valid(Replaced(t, e, tie))
  {
    var author := Decode(e.pubkey).value;
    InsertKeepsValid(t, e);
    var t1 := Insert(t, e);
    var t2 := t1;
    if IsReplaceable(e.kind) {
      t2 := PruneReplaceable(t1, author, e.kind, tie);
      var at := AuthorKindRows(t1, author, e.kind);
      if at != map[] {
        DeleteKeepsValid(t1, at.Keys - {Newest(at, tie)});
      }
    }
    if DistinctParam(e).Some? {
      var at := SlotTags(t2, author, e.kind, DistinctParam(e).value);
      if at != map[] {
        DeleteKeepsValid(t2, OtherEvents(t2, at, Newest(at, tie)));
      }
    }
  }

  /** What an accepted write hides at the end does not matter for validity. */
  lemma HidingIsPersist(t: Tables, e: Event, tie: nat) returns (ids: set<nat>)
    requires Inserts(t, e)
    ensures Persist(t, e, tie).0.tags == Replaced(t, e, tie).tags
    ensures Persist(t, e, tie).0.events == HideEvents(Replaced(t, e, tie), ids).events
  {
    var r := Replaced(t, e, tie);
    ids := if e.kind == 5 then DeletionTargets(r, e)
           else if DeletionRecorded(r, Decode(e.pubkey).value, e.id) then {NewRowId(t.events.Keys)}
           else {};
  }

  /** `persist_event` keeps the tables valid, whatever event it is given. */
  lemma PersistKeepsValid(t: Tables, e: Event, tie: nat)
    requires Valid(t)
    ensures Valid(Persist(t, e, tie).0)
  {
    if Inserts(t, e) {
      var ids := HidingIsPersist(t, e, tie);
      ReplacedKeepsValid(t, e, tie);
      HideKeepsValid(Replaced(t, e, tie), ids);
    }
  }

  lemma StepKeepsValid(t: Tables, op: Op)
    requires Valid(t)
    ensures Valid(Step(t, op))
  {
    match op
    case Write(e, tie) => PersistKeepsValid(t, e, tie);
    case Expire(now) => DeleteKeepsValid(t, set id | id in t.events && IsExpiredRow(t.events[id], now));
  }

  /** Every reachable store is valid. */
  lemma {:induction false} RunValid(ops: seq<Op>)
    ensures Valid(Run(ops))
  {
    if ops != [] {
      RunValid(ops[..|ops| - 1]);
      StepKeepsValid(Run(ops[..|ops| - 1]), ops[|ops| - 1]);
    }
  }

  // ---------------------------------------------------------------------------------------
  // The tag table is the projection of the event table
  // ---------------------------------------------------------------------------------------

  /** How often a tag row must occur, given the stored events. */
  function ExpectedCount(t: Tables, r: TagRow): nat {
    if r.eventId in t.events then multiset(ExpectedTags(r.eventId, t.events[r.eventId]))[r] else 0
  }

  lemma ProjectionOfValid(t: Tables, r: TagRow)
    requires NoOrphans(t) && TagsComplete(t)
    ensures multiset(t.tags)[r] == ExpectedCount(t, r)
  {
    TagsOfMultiplicity(t.tags, r);
    if r.eventId !in t.events {
      NoTagsOfUnused(t, r.eventId);
    }
  }

  /**
   * In every reachable store the tag table holds exactly the rows derived from the stored
   * events, each exactly as often as the event carries that tag, and no other row.
   */
  lemma TagTableIsProjection(ops: seq<Op>, r: TagRow)
    ensures multiset(Run(ops).tags)[r] == ExpectedCount(Run(ops), r)
  {
    RunValid(ops);
    ProjectionOfValid(Run(ops), r);
  }

  /** A row of the tag table with this event, name and value. */
  predicate IsTagRow(t: Tables, k: nat, id: nat, name: string, value: string) {
    k < |t.tags| && t.tags[k].eventId == id && t.tags[k].name == name && t.tags[k].value == value
  }

  /** A tag row repeats the kind and timestamp of its event. */
  lemma TagRowCopies(t: Tables, k: nat)
    requires Projected(t) && k < |t.tags|
    ensures t.tags[k].eventId in t.events
    ensures t.tags[k].kind == t.events[t.tags[k].eventId].kind
    ensures t.tags[k].createdAt == t.events[t.tags[k].eventId].createdAt
    ensures t.tags[k] in ExpectedTags(t.tags[k].eventId, t.events[t.tags[k].eventId])
  {
    var id := t.tags[k].eventId;
    var r := t.events[id];
    TagsOfMembers(t.tags, id);
    DerivedTagsBelong(id, r.content.tags, r.kind, r.createdAt);
    assert t.tags[k] in TagsOf(t.tags, id);
  }

  /** A tag row of a given name and value exists exactly when the event has that tag. */
  lemma TagRowIffTag(t: Tables, id: nat, name: char, value: string)
    requires Projected(t) && id in t.events
    ensures (exists k: nat :: IsTagRow(t, k, id, [name], value))
            <==> value in TagValuesByName(t.events[id].content.tags, [name])
  {
    var r := t.events[id];
    var row := TagRow(id, [name], value, r.kind, r.createdAt);
    DerivedTagsValues(id, r.content.tags, r.kind, r.createdAt, name, value);
    if k: nat :| IsTagRow(t, k, id, [name], value) {
      TagRowCopies(t, k);
      assert t.tags[k] == row;
    }
    if row in ExpectedTags(id, r) {
      TagsOfMembers(t.tags, id);
      var k: nat :| k < |t.tags| && t.tags[k] == row;
      assert IsTagRow(t, k, id, [name], value);
    }
  }
}
