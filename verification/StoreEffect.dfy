/**
 * What one `persist_event` does, said in terms of the stored events alone: which of them leave,
 * which become hidden, and when the new one is refused. The tag table no longer appears.
 */
module StoreEffect {
  import opened Common
  import opened Events
  import opened Hex
  import opened EventTables
  import opened StoreInvariants

  /** What replaceable events compete for: author and kind, and the d value if parameterized. */
  datatype Slot = Slot(author: Option<Bytes>, kind: nat, d: Option<string>)

  function SlotOf(e: Event): Option<Slot> {
    if IsReplaceable(e.kind) then Some(Slot(Decode(e.pubkey), e.kind, None))
    else if IsParamReplaceable(e.kind) then Some(Slot(Decode(e.pubkey), e.kind, DistinctParam(e)))
    else None
  }

  /** A parameterized event is indexed under its own d value, once, and under no other. */
  predicate OneValuedD(e: Event) {
    IsParamReplaceable(e.kind) ==> TagValuesByName(e.tags, "d") == [DistinctParam(e).value]
  }

  /** Events that the store accepts and indexes under their own slot. */
  predicate Storable(e: Event) {
    Decodable(e) && Bindable(e) && OneValuedD(e)
  }

  /** Storable events with an id as validation demands it. */
  predicate Sound(e: Event) {
    IsCanonical(e.id) && Storable(e)
  }

  predicate StorableRows(t: Tables) {
    forall id :: id in t.events ==> Storable(t.events[id].content)
  }

  /** The part of validity that the slot queries need. */
  predicate Slotted(t: Tables) {
    ColumnsAgree(t) && Projected(t) && forall id :: id in t.events ==> OneValuedD(t.events[id].content)
  }

  /** Deletion event `d` is by the author of `e`, which is of another kind. */
  predicate MayDelete(d: Event, e: Event) {
    d.kind == 5 && e.kind != 5 && Decode(d.pubkey) == Decode(e.pubkey)
  }

  /** Deletion event `d` names `e` by text: its id is among the e tags. */
  predicate Deletes(d: Event, e: Event) {
    MayDelete(d, e) && e.id in TagValuesByName(d.tags, "e")
  }

  /** Deletion event `d` names `e` by hash: an e tag decodes to the hash, in any spelling. */
  predicate NamesByHash(d: Event, e: Event) {
    MayDelete(d, e) && Decode(e.id).Some? && NamesHash(d, Decode(e.id).value)
  }

  /** Row `id` competes with `e` for the same slot. */
  predicate Rival(t: Tables, e: Event, id: nat) {
    id in t.events && SlotOf(e).Some? && SlotOf(t.events[id].content) == SlotOf(e)
  }

  lemma CanonicalDecodes(s: string)
    requires IsCanonical(s)
    ensures IsHex(s) && Decode(s).Some?
  {
  }

  // ---------------------------------------------------------------------------------------
  // Refusal
  // ---------------------------------------------------------------------------------------

  /** Every rival is older. */
  predicate Newer(t: Tables, e: Event) {
    forall id :: id in t.events && Rival(t, e, id) ==> t.events[id].createdAt < e.createdAt
  }

  /** Competing for a replaceable slot, column by column. */
  lemma ReplaceableRivalColumns(r: EventRow, e: Event)
    requires Columns(r) && IsReplaceable(e.kind) && Decode(e.pubkey).Some?
    ensures SlotOf(r.content) == SlotOf(e) <==> SameAuthorKind(r, Decode(e.pubkey).value, e.kind)
  {
  }

  /** Competing for a parameterized slot, column by column. */
  lemma ParamRivalColumns(r: EventRow, e: Event)
    requires Columns(r) && OneValuedD(r.content)
    requires IsParamReplaceable(e.kind) && Decode(e.pubkey).Some?
    ensures SlotOf(r.content) == SlotOf(e) <==>
              SameAuthorKind(r, Decode(e.pubkey).value, e.kind)
              && DistinctParam(e).value in TagValuesByName(r.content.tags, "d")
  {
  }

  predicate IsTagOf(t: Tables, k: nat, id: nat) {
    k < |t.tags| && t.tags[k].eventId == id
  }

  lemma SlotTagColumns(t: Tables, id: nat, author: Bytes, kind: nat, d: string)
    requires id in t.events
    ensures (exists k: nat :: IsTagOf(t, k, id) && IsSlotTag(t, k, author, kind, d))
            <==> SameAuthorKind(t.events[id], author, kind) && exists k: nat :: IsTagRow(t, k, id, "d", d)
  {
    if SameAuthorKind(t.events[id], author, kind) {
      if k: nat :| IsTagRow(t, k, id, "d", d) {
        assert IsTagOf(t, k, id) && IsSlotTag(t, k, author, kind, d);
      }
    }
    if k: nat :| IsTagOf(t, k, id) && IsSlotTag(t, k, author, kind, d) {
      assert IsTagRow(t, k, id, "d", d);
    }
  }

  /** A d row of the slot belongs to a rival, and every rival has one. */
  lemma SlotTagIffRival(t: Tables, e: Event, id: nat)
    requires Slotted(t) && id in t.events
    requires IsParamReplaceable(e.kind) && Decode(e.pubkey).Some?
    ensures (exists k: nat :: IsTagOf(t, k, id) && IsSlotTag(t, k, Decode(e.pubkey).value, e.kind, DistinctParam(e).value))
            <==> Rival(t, e, id)
  {
    ParamRivalColumns(t.events[id], e);
    assert "d" == ['d'];
    TagRowIffTag(t, id, 'd', DistinctParam(e).value);
    SlotTagColumns(t, id, Decode(e.pubkey).value, e.kind, DistinctParam(e).value);
  }

  lemma ReplaceableShadowIffRival(t: Tables, e: Event)
    requires ColumnsAgree(t) && IsReplaceable(e.kind) && Decode(e.pubkey).Some?
    ensures ReplaceableShadow(t, e) <==> !Newer(t, e)
  {
    forall id | id in t.events
      ensures Rival(t, e, id) <==> SameAuthorKind(t.events[id], Decode(e.pubkey).value, e.kind)
    {
      ReplaceableRivalColumns(t.events[id], e);
    }
  }

  lemma ParamShadowIffRival(t: Tables, e: Event)
    requires Slotted(t) && IsParamReplaceable(e.kind) && Decode(e.pubkey).Some?
    ensures ParamShadow(t, e) <==> !Newer(t, e)
  {
    if ParamShadow(t, e) {
      var k: nat :| k < |t.tags| && IsSlotTag(t, k, Decode(e.pubkey).value, e.kind, DistinctParam(e).value)
                    && t.events[t.tags[k].eventId].createdAt >= e.createdAt;
      assert IsTagOf(t, k, t.tags[k].eventId);
      SlotTagIffRival(t, e, t.tags[k].eventId);
    }
    if !Newer(t, e) {
      var id :| id in t.events && Rival(t, e, id) && t.events[id].createdAt >= e.createdAt;
      SlotTagIffRival(t, e, id);
    }
  }

  /** A write is shadowed exactly when a stored rival is at least as new. */
  lemma ShadowedIffRival(t: Tables, e: Event)
    requires Slotted(t) && Decode(e.pubkey).Some?
    ensures Shadowed(t, e) <==> !Newer(t, e)
  {
    if IsReplaceable(e.kind) {
      ReplaceableShadowIffRival(t, e);
    } else if IsParamReplaceable(e.kind) {
      ParamShadowIffRival(t, e);
    }
  }

  // ---------------------------------------------------------------------------------------
  // Replacement
  // ---------------------------------------------------------------------------------------

  /** The event table after the write, before hiding: rivals gone, the new row added. */
  function Survivors(t: Tables, e: Event): map<nat, EventRow>
    requires Decodable(e)
  {
    var kept := map j | j in t.events && !Rival(t, e, j) :: t.events[j];
    kept[NewRowId(t.events.Keys) := RowFor(e)]
  }

  /** Deleting exactly the rivals after the insert leaves the survivors. */
  lemma RemovingRivals(t: Tables, e: Event, gone: set<nat>)
    requires Decodable(e)
    requires forall j :: j in gone <==> Rival(t, e, j)
    ensures Insert(t, e).events - gone == Survivors(t, e)
  {
  }

  /** After the insert the new event is the newest of its author and kind, the rivals the rest. */
  lemma AuthorKindRowsAfterInsert(t: Tables, e: Event, j: nat)
    requires ColumnsAgree(t) && Decodable(e) && IsReplaceable(e.kind)
    ensures j in AuthorKindRows(Insert(t, e), Decode(e.pubkey).value, e.kind)
            <==> j == NewRowId(t.events.Keys) || Rival(t, e, j)
  {
    if j in t.events {
      ReplaceableRivalColumns(t.events[j], e);
    }
  }

  lemma ReplaceableEffect(t: Tables, e: Event, tie: nat)
    requires ColumnsAgree(t) && Decodable(e) && Newer(t, e)
    requires IsReplaceable(e.kind)
    ensures PruneReplaceable(Insert(t, e), Decode(e.pubkey).value, e.kind, tie).events == Survivors(t, e)
  {
    var id := NewRowId(t.events.Keys);
    var at := AuthorKindRows(Insert(t, e), Decode(e.pubkey).value, e.kind);
    AuthorKindRowsAfterInsert(t, e, id);
    AuthorKindRowsAfterInsert(t, e, Newest(at, tie));
    assert Newest(at, tie) == id;
    forall j
      ensures j in at.Keys - {id} <==> Rival(t, e, j)
    {
      AuthorKindRowsAfterInsert(t, e, j);
    }
    RemovingRivals(t, e, at.Keys - {id});
  }

  /** The new event contributes at most one d row. */
  lemma {:induction false} OneDerivedRow(id: nat, tags: seq<Tag>, kind: nat, createdAt: nat)
    requires |TagValuesByName(tags, "d")| <= 1
    ensures forall i, j :: 0 <= i < j < |DerivedTags(id, tags, kind, createdAt)| ==>
                             DerivedTags(id, tags, kind, createdAt)[i].name != "d"
                             || DerivedTags(id, tags, kind, createdAt)[j].name != "d"
  {
    if tags != [] {
      OneDerivedRow(id, tags[1..], kind, createdAt);
      if TagValuesByName(tags[1..], "d") == [] {
        NoDerivedRow(id, tags[1..], kind, createdAt);
      }
    }
  }

  lemma {:induction false} NoDerivedRow(id: nat, tags: seq<Tag>, kind: nat, createdAt: nat)
    requires TagValuesByName(tags, "d") == []
    ensures forall k :: 0 <= k < |DerivedTags(id, tags, kind, createdAt)| ==>
                          DerivedTags(id, tags, kind, createdAt)[k].name != "d"
  {
    if tags != [] {
      NoDerivedRow(id, tags[1..], kind, createdAt);
    }
  }

  /** Rows present before the insert are slot rows after it exactly when they were before. */
  lemma OldSlotTag(t: Tables, e: Event, k: nat, author: Bytes, kind: nat, d: string)
    requires NoOrphans(t) && Decodable(e) && k < |t.tags|
    ensures Insert(t, e).tags[k] == t.tags[k]
    ensures IsSlotTag(Insert(t, e), k, author, kind, d) <==> IsSlotTag(t, k, author, kind, d)
  {
  }

  /** An old row of the slot belongs to a rival, which is older. */
  lemma OldSlotTagIsRival(t: Tables, e: Event, k: nat)
    requires Slotted(t) && Decodable(e) && Newer(t, e) && IsParamReplaceable(e.kind)
    requires k < |t.tags| && IsSlotTag(t, k, Decode(e.pubkey).value, e.kind, DistinctParam(e).value)
    ensures Rival(t, e, t.tags[k].eventId) && t.tags[k].createdAt < e.createdAt
  {
    assert IsTagOf(t, k, t.tags[k].eventId);
    SlotTagIffRival(t, e, t.tags[k].eventId);
    TagRowCopies(t, k);
  }

  /** After the insert the new event has exactly one row in its slot. */
  lemma OwnSlotTag(t: Tables, e: Event) returns (own: nat)
    requires Decodable(e) && OneValuedD(e) && IsParamReplaceable(e.kind)
    ensures |t.tags| <= own < |Insert(t, e).tags|
    ensures IsSlotTag(Insert(t, e), own, Decode(e.pubkey).value, e.kind, DistinctParam(e).value)
    ensures Insert(t, e).tags[own].createdAt == e.createdAt
    ensures forall k: nat :: |t.tags| <= k < |Insert(t, e).tags| && Insert(t, e).tags[k].name == "d" ==> k == own
  {
    var id := NewRowId(t.events.Keys);
    var d := DistinctParam(e).value;
    var added := DerivedTags(id, e.tags, e.kind, e.createdAt);
    assert "d" == ['d'];
    DerivedTagsValues(id, e.tags, e.kind, e.createdAt, 'd', d);
    OneDerivedRow(id, e.tags, e.kind, e.createdAt);
    var i: nat :| i < |added| && added[i] == TagRow(id, "d", d, e.kind, e.createdAt);
    own := |t.tags| + i;
    assert Insert(t, e).tags == t.tags + added;
  }

  /** Besides the row of the new event, the slot holds exactly the rows of the rivals. */
  lemma GoneIffRival(t: Tables, e: Event, at: map<nat, nat>, own: nat, j: nat)
    requires Slotted(t) && Decodable(e) && Newer(t, e)
    requires IsParamReplaceable(e.kind) && |t.tags| <= own
    requires at == SlotTags(Insert(t, e), Decode(e.pubkey).value, e.kind, DistinctParam(e).value)
    requires forall k :: k in at && k != own ==> k < |t.tags|
    ensures (exists k :: k in at && k != own && Insert(t, e).tags[k].eventId == j) <==> Rival(t, e, j)
  {
    var author := Decode(e.pubkey).value;
    var d := DistinctParam(e).value;
    if Rival(t, e, j) {
      SlotTagIffRival(t, e, j);
      var k: nat :| IsTagOf(t, k, j) && IsSlotTag(t, k, author, e.kind, d);
      OldSlotTag(t, e, k, author, e.kind, d);
      assert k in at;
    }
    if k :| k in at && k != own && Insert(t, e).tags[k].eventId == j {
      OldSlotTag(t, e, k, author, e.kind, d);
      OldSlotTagIsRival(t, e, k);
    }
  }

  lemma ParamEffect(t: Tables, e: Event, tie: nat)
    requires Slotted(t) && Decodable(e) && OneValuedD(e) && Newer(t, e)
    requires IsParamReplaceable(e.kind)
    ensures PruneParam(Insert(t, e), Decode(e.pubkey).value, e.kind, DistinctParam(e).value, tie).events == Survivors(t, e)
  {
    var t1 := Insert(t, e);
    var author := Decode(e.pubkey).value;
    var d := DistinctParam(e).value;
    var at := SlotTags(t1, author, e.kind, d);
    var own := OwnSlotTag(t, e);
    assert own in at;
    var first := Newest(at, tie);
    if first < |t.tags| {
      OldSlotTag(t, e, first, author, e.kind, d);
      OldSlotTagIsRival(t, e, first);
    }
    assert first == own;
    var gone := OtherEvents(t1, at, first);
    forall j
      ensures j in gone <==> Rival(t, e, j)
    {
      GoneIffRival(t, e, at, own, j);
    }
    RemovingRivals(t, e, gone);
  }

  lemma ReplacedEffect(t: Tables, e: Event, tie: nat)
    requires Slotted(t) && Decodable(e) && OneValuedD(e) && Newer(t, e)
    ensures Replaced(t, e, tie).events == Survivors(t, e)
  {
    if IsReplaceable(e.kind) {
      ReplaceableEffect(t, e, tie);
    } else if IsParamReplaceable(e.kind) {
      ParamEffect(t, e, tie);
    } else {
      RemovingRivals(t, e, {});
    }
  }

  // ---------------------------------------------------------------------------------------
  // Deletion
  // ---------------------------------------------------------------------------------------

  /** Whoever is named by text is named by hash. */
  lemma TextNamesHash(d: Event, e: Event)
    requires IsCanonical(e.id) && Deletes(d, e)
    ensures NamesByHash(d, e)
  {
    CanonicalDecodes(e.id);
  }

  /** Row `j` holds a deletion event of this author that names the id. */
  predicate RecordsDeletion(t: Tables, j: nat, author: Bytes, idText: string) {
    j in t.events && t.events[j].kind == 5 && t.events[j].author == author
    && idText in TagValuesByName(t.events[j].content.tags, "e")
  }

  /** A recorded deletion is a stored deletion event naming this id. */
  lemma DeletionRecordedIff(t: Tables, author: Bytes, idText: string)
    requires Projected(t)
    ensures DeletionRecorded(t, author, idText) <==> exists j :: RecordsDeletion(t, j, author, idText)
  {
    assert "e" == ['e'];
    if DeletionRecorded(t, author, idText) {
      var k: nat :| k < |t.tags| && IsDeletionTag(t, k, author, idText);
      TagRowCopies(t, k);
      assert IsTagRow(t, k, t.tags[k].eventId, "e", idText);
      TagRowIffTag(t, t.tags[k].eventId, 'e', idText);
      assert RecordsDeletion(t, t.tags[k].eventId, author, idText);
    }
    if j :| RecordsDeletion(t, j, author, idText) {
      TagRowIffTag(t, j, 'e', idText);
      var k: nat :| IsTagRow(t, k, j, "e", idText);
      TagRowCopies(t, k);
      assert IsDeletionTag(t, k, author, idText);
    }
  }

  // ---------------------------------------------------------------------------------------
  // The whole write
  // ---------------------------------------------------------------------------------------

  /** Some stored deletion event names `e`. */
  predicate DeletedIn(t: Tables, e: Event) {
    exists j :: j in t.events && Deletes(t.events[j].content, e)
  }

  /** The event table after an accepted write. */
  function Accepted(t: Tables, e: Event): map<nat, EventRow>
    requires Decodable(e)
  {
    var id := NewRowId(t.events.Keys);
    map j | j in Survivors(t, e) ::
      var r := Survivors(t, e)[j];
      if j == id then r.(hidden := DeletedIn(t, e)) else r.(hidden := r.hidden || NamesByHash(e, r.content))
  }

  lemma DeletionEventEffect(t: Tables, e: Event, r: Tables)
    requires ColumnsAgree(t) && Decodable(e) && e.kind == 5
    requires r.events == Survivors(t, e)
    ensures HideEvents(r, DeletionTargets(r, e)).events == Accepted(t, e)
  {
    var id := NewRowId(t.events.Keys);
    forall j | j in r.events
      ensures j in DeletionTargets(r, e) <==> j != id && NamesByHash(e, r.events[j].content)
    {
      assert j != id ==> Columns(t.events[j]);
    }
  }

  /** Deletion events are never replaced, so the recorded deletions are those of the old store. */
  lemma RecordedIffDeletedIn(t: Tables, e: Event, r: Tables)
    requires ColumnsAgree(t) && Decodable(e) && e.kind != 5
    requires Projected(r) && r.events == Survivors(t, e)
    ensures DeletionRecorded(r, Decode(e.pubkey).value, e.id) <==> DeletedIn(t, e)
  {
    var author := Decode(e.pubkey).value;
    DeletionRecordedIff(r, author, e.id);
    if DeletedIn(t, e) {
      var j :| j in t.events && Deletes(t.events[j].content, e);
      assert Columns(t.events[j]);
      assert RecordsDeletion(r, j, author, e.id);
    }
    if j :| RecordsDeletion(r, j, author, e.id) {
      assert j in t.events && Columns(t.events[j]);
      assert Deletes(t.events[j].content, e);
    }
  }

  lemma OtherEventEffect(t: Tables, e: Event, r: Tables)
    requires Decodable(e) && e.kind != 5
    requires r.events == Survivors(t, e)
    ensures !DeletedIn(t, e) ==> r.events == Accepted(t, e)
    ensures DeletedIn(t, e) ==> HideEvents(r, {NewRowId(t.events.Keys)}).events == Accepted(t, e)
  {
  }

  /** The same row ids holding the same events. */
  predicate SameContents(a: map<nat, EventRow>, b: map<nat, EventRow>) {
    a.Keys == b.Keys && forall id :: id in a ==> a[id].content == b[id].content
  }

  /**
   * One write of a storable event, hidden flags aside. It is refused exactly when a rival is at
   * least as new or the hash is stored; otherwise the rivals leave and the event gets a row.
   */
  lemma ContentEffect(t: Tables, e: Event, tie: nat)
    requires Valid(t) && StorableRows(t) && Storable(e)
    ensures Inserts(t, e) <==> !HashTaken(t, Decode(e.id).value) && Newer(t, e)
    ensures !Inserts(t, e) ==> Persist(t, e, tie) == (t, Written(0))
    ensures Inserts(t, e) ==> SameContents(Persist(t, e, tie).0.events, Survivors(t, e))
  {
    assert Slotted(t);
    ShadowedIffRival(t, e);
    if Inserts(t, e) {
      ReplacedEffect(t, e, tie);
      var ids := HidingIsPersist(t, e, tie);
    }
  }

  /**
   * One accepted write of a storable event. The new row is hidden exactly when a stored deletion
   * names it by text, a deletion hides exactly the events it names by hash, and the writer is told
   * of a new row exactly when it is visible.
   */
  lemma PersistEffect(t: Tables, e: Event, tie: nat)
    requires Valid(t) && StorableRows(t) && Storable(e) && Inserts(t, e)
    ensures Persist(t, e, tie).0.events == Accepted(t, e)
    ensures Persist(t, e, tie).1 == Written(if DeletedIn(t, e) then 0 else 1)
  {
    assert Slotted(t);
    var r := Replaced(t, e, tie);
    ShadowedIffRival(t, e);
    ReplacedEffect(t, e, tie);
    if e.kind == 5 {
      DeletionEventEffect(t, e, r);
    } else {
      ReplacedKeepsValid(t, e, tie);
      RecordedIffDeletedIn(t, e, r);
      OtherEventEffect(t, e, r);
    }
  }
}
