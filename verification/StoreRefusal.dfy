/**
 * Once accepted, never accepted again: an event that got a row is refused ever after, because its
 * row is still there or because something at least as new took its place. Nothing here looks at
 * signatures, so a second signature for the same id is refused as well.
 */
module StoreRefusal {
  import opened Common
  import opened Events
  import opened Hex
  import opened EventTables
  import opened StoreInvariants
  import opened StoreEffect
  import opened StoreRuns
  import opened StoreSafety
  import opened StoreExact

  /** A parameterized event is indexed under its own d value, or not at all. */
  predicate AtMostOneD(e: Event) {
    IsParamReplaceable(e.kind) ==>
      TagValuesByName(e.tags, "d") == [] || TagValuesByName(e.tags, "d") == [DistinctParam(e).value]
  }

  predicate AllAtMostOneD(es: seq<Event>) {
    forall i :: 0 <= i < |es| ==> AtMostOneD(es[i])
  }

  predicate RowsAtMostOneD(t: Tables) {
    forall id :: id in t.events ==> AtMostOneD(t.events[id].content)
  }

  /** A write of this event would be refused. */
  predicate Refused(t: Tables, e: Event) {
    Shadowed(t, e) || (Decode(e.id).Some? && HashTaken(t, Decode(e.id).value))
  }

  lemma RefusedByFields(t: Tables, d: Event, e: Event)
    requires SameFields(d, e) && Decode(d.id) == Decode(e.id)
    ensures Refused(t, d) <==> Refused(t, e)
  {
  }

  // ---------------------------------------------------------------------------------------
  // One d row per event
  // ---------------------------------------------------------------------------------------

  lemma {:induction false} DRowCount(id: nat, tags: seq<Tag>, kind: nat, createdAt: nat, d: string)
    ensures multiset(DerivedTags(id, tags, kind, createdAt))[TagRow(id, "d", d, kind, createdAt)]
            == multiset(TagValuesByName(tags, "d"))[d]
  {
    if tags != [] {
      DRowCount(id, tags[1..], kind, createdAt, d);
    }
  }

  lemma TwiceIn<T>(s: seq<T>, i: nat, j: nat)
    requires i < j < |s| && s[i] == s[j]
    ensures multiset(s)[s[i]] >= 2
  {
    assert s == s[..j] + [s[j]] + s[j + 1..];
    assert s[..j][i] == s[i];
  }

  lemma OnlyOne<T>(s: seq<T>)
    requires |s| == 1
    ensures multiset(s)[s[0]] == 1
  {
    assert s == [s[0]];
  }

  /** An event with at most one d value has at most one d row. */
  lemma OneDRow(t: Tables, k: nat, l: nat)
    requires Projected(t) && k < l < |t.tags| && t.tags[k].eventId == t.tags[l].eventId
    requires t.tags[k].name == "d" && t.tags[l].name == "d"
    ensures t.tags[k].eventId in t.events
    ensures |TagValuesByName(t.events[t.tags[k].eventId].content.tags, "d")| != 1
  {
    TagRowCopies(t, k);
    TagRowCopies(t, l);
    var id := t.tags[k].eventId;
    var r := t.events[id];
    var values := TagValuesByName(r.content.tags, "d");
    if |values| == 1 {
      DValueOf(t, k);
      DValueOf(t, l);
      assert t.tags[k] == t.tags[l];
      TwiceIn(t.tags, k, l);
      TagsOfMultiplicity(t.tags, t.tags[k]);
      DRowCount(id, r.content.tags, r.kind, r.createdAt, values[0]);
      OnlyOne(values);
      assert false;
    }
  }

  /** The value of a d row is a d value of its event. */
  lemma DValueOf(t: Tables, k: nat)
    requires Projected(t) && k < |t.tags| && t.tags[k].name == "d"
    ensures t.tags[k].eventId in t.events
    ensures t.tags[k].value in TagValuesByName(t.events[t.tags[k].eventId].content.tags, "d")
  {
    assert "d" == ['d'];
    assert IsTagRow(t, k, t.tags[k].eventId, ['d'], t.tags[k].value);
    TagRowIffTag(t, t.tags[k].eventId, 'd', t.tags[k].value);
  }

  /** A shadow of a parameterized event carries its d value. */
  lemma ShadowNeedsD(t: Tables, e: Event)
    requires Valid(t) && IsParamReplaceable(e.kind) && Decodable(e) && ParamShadow(t, e)
    ensures exists id :: id in t.events && SameAuthorKind(t.events[id], Decode(e.pubkey).value, e.kind)
                         && t.events[id].createdAt >= e.createdAt
                         && DistinctParam(e).value in TagValuesByName(t.events[id].content.tags, "d")
  {
    var k: nat :| k < |t.tags| && IsSlotTag(t, k, Decode(e.pubkey).value, e.kind, DistinctParam(e).value)
                  && t.events[t.tags[k].eventId].createdAt >= e.createdAt;
    DValueOf(t, k);
  }

  /** A d row of a parameterized slot names the slot of its event. */
  lemma SlotTagNamesSlot(t: Tables, k: nat, author: Bytes, kind: nat, d: string)
    requires Projected(t) && ColumnsAgree(t) && RowsAtMostOneD(t) && IsParamReplaceable(kind)
    requires k < |t.tags| && IsSlotTag(t, k, author, kind, d)
    ensures TagValuesByName(t.events[t.tags[k].eventId].content.tags, "d") == [d]
    ensures DistinctParam(t.events[t.tags[k].eventId].content) == Some(d)
  {
    DValueOf(t, k);
    assert Columns(t.events[t.tags[k].eventId]);
  }

  // ---------------------------------------------------------------------------------------
  // Whoever is removed is outlived
  // ---------------------------------------------------------------------------------------

  /** A row of this author and kind at least as new. */
  predicate HasNewer(t: Tables, author: Bytes, kind: nat, createdAt: nat) {
    exists id :: id in t.events && SameAuthorKind(t.events[id], author, kind) && t.events[id].createdAt >= createdAt
  }

  /** A d row of this slot whose event is at least as new. */
  predicate HasNewerTag(t: Tables, author: Bytes, kind: nat, d: string, createdAt: nat) {
    exists k: nat :: k < |t.tags| && IsSlotTag(t, k, author, kind, d) && t.events[t.tags[k].eventId].createdAt >= createdAt
  }

  lemma ReplaceableOutlived(t: Tables, author: Bytes, kind: nat, tie: nat, j: nat)
    requires j in t.events && j !in PruneReplaceable(t, author, kind, tie).events
    ensures SameAuthorKind(t.events[j], author, kind)
    ensures HasNewer(PruneReplaceable(t, author, kind, tie), author, kind, t.events[j].createdAt)
  {
    var at := AuthorKindRows(t, author, kind);
    var k := Newest(at, tie);
    assert j in at && k in at;
    assert k in PruneReplaceable(t, author, kind, tie).events;
  }

  lemma ParamOutlived(t: Tables, author: Bytes, kind: nat, d: string, tie: nat, j: nat)
    requires Projected(t) && ColumnsAgree(t) && RowsAtMostOneD(t) && IsParamReplaceable(kind)
    requires j in t.events && j !in PruneParam(t, author, kind, d, tie).events
    ensures SameAuthorKind(t.events[j], author, kind)
    ensures TagValuesByName(t.events[j].content.tags, "d") == [d] && DistinctParam(t.events[j].content) == Some(d)
    ensures HasNewerTag(PruneParam(t, author, kind, d, tie), author, kind, d, t.events[j].createdAt)
  {
    var at := SlotTags(t, author, kind, d);
    var first := Newest(at, tie);
    var k :| k in at && k != first && t.tags[k].eventId == j;
    SlotTagNamesSlot(t, k, author, kind, d);
    TagRowCopies(t, k);
    FirstSlotTagStays(t, author, kind, d, tie);
  }

  /** The first row of the slot and its event stay. */
  lemma FirstSlotTagStays(t: Tables, author: Bytes, kind: nat, d: string, tie: nat)
    requires Projected(t) && ColumnsAgree(t) && RowsAtMostOneD(t) && IsParamReplaceable(kind)
    requires SlotTags(t, author, kind, d) != map[]
    ensures var at := SlotTags(t, author, kind, d);
            HasNewerTag(PruneParam(t, author, kind, d, tie), author, kind, d, at[Newest(at, tie)])
  {
    var at := SlotTags(t, author, kind, d);
    var first := Newest(at, tie);
    var gone := OtherEvents(t, at, first);
    var i := t.tags[first].eventId;
    SlotTagNamesSlot(t, first, author, kind, d);
    TagRowCopies(t, first);
    if i in gone {
      var l :| l in at && l != first && t.tags[l].eventId == i;
      OneDRow(t, if l < first then l else first, if l < first then first else l);
      assert false;
    }
    var r := PruneParam(t, author, kind, d, tie);
    TagsWithoutMembers(t.tags, gone);
    assert t.tags[first] in r.tags;
    var k: nat :| k < |r.tags| && r.tags[k] == t.tags[first];
    assert IsSlotTag(r, k, author, kind, d);
  }

  // ---------------------------------------------------------------------------------------
  // A refusal lasts
  // ---------------------------------------------------------------------------------------

  /** Everything of the tables that the insert finds is there after it. */
  lemma InsertKeepsRefused(t: Tables, e: Event, s: Event)
    requires NoOrphans(t) && Decodable(e) && Refused(t, s)
    ensures Refused(Insert(t, e), s)
  {
    var t1 := Insert(t, e);
    assert forall id :: id in t.events ==> id in t1.events && t1.events[id] == t.events[id];
    if ParamShadow(t, s) {
      var k: nat :| k < |t.tags| && IsSlotTag(t, k, Decode(s.pubkey).value, s.kind, DistinctParam(s).value)
                    && t.events[t.tags[k].eventId].createdAt >= s.createdAt;
      assert IsSlotTag(t1, k, Decode(s.pubkey).value, s.kind, DistinctParam(s).value);
    }
  }

  /** If the hash of `s` is taken, then by an event with its fields. */
  predicate TakenBySame(t: Tables, s: Event) {
    forall id :: id in t.events && Decode(s.id) == Some(t.events[id].hash) ==> SameFields(t.events[id].content, s)
  }

  lemma PruneReplaceableKeepsRefused(t: Tables, author: Bytes, kind: nat, tie: nat, s: Event)
    requires NoOrphans(t) && ColumnsAgree(t) && TakenBySame(t, s) && IsReplaceable(kind)
    requires Refused(t, s)
    ensures Refused(PruneReplaceable(t, author, kind, tie), s)
  {
    var r := PruneReplaceable(t, author, kind, tie);
    if ReplaceableShadow(t, s) {
      var j :| j in t.events && SameAuthorKind(t.events[j], Decode(s.pubkey).value, s.kind) && t.events[j].createdAt >= s.createdAt;
      if j !in r.events {
        ReplaceableOutlived(t, author, kind, tie, j);
      }
    } else if ParamShadow(t, s) {
      ParamRefusalStays(t, author, kind, tie, s);
    } else {
      var j :| j in t.events && t.events[j].hash == Decode(s.id).value;
      assert Columns(t.events[j]);
      if j !in r.events {
        ReplaceableOutlived(t, author, kind, tie, j);
        assert false;
      }
    }
  }

  /** Pruning a replaceable kind leaves parameterized events alone. */
  lemma ParamRefusalStays(t: Tables, author: Bytes, kind: nat, tie: nat, s: Event)
    requires IsReplaceable(kind) && ParamShadow(t, s)
    ensures ParamShadow(PruneReplaceable(t, author, kind, tie), s)
  {
    var r := PruneReplaceable(t, author, kind, tie);
    var at := AuthorKindRows(t, author, kind);
    var k: nat :| k < |t.tags| && IsSlotTag(t, k, Decode(s.pubkey).value, s.kind, DistinctParam(s).value)
                  && t.events[t.tags[k].eventId].createdAt >= s.createdAt;
    if at != map[] {
      SlotTagStays(t, at.Keys - {Newest(at, tie)}, k, Decode(s.pubkey).value, s.kind, DistinctParam(s).value);
    }
  }

  /** A d row whose event is not deleted stays, at some place. */
  lemma SlotTagStays(t: Tables, gone: set<nat>, k: nat, author: Bytes, kind: nat, d: string)
    requires k < |t.tags| && IsSlotTag(t, k, author, kind, d) && t.tags[k].eventId !in gone
    ensures HasNewerTag(DeleteEvents(t, gone), author, kind, d, t.events[t.tags[k].eventId].createdAt)
  {
    var r := DeleteEvents(t, gone);
    TagsWithoutMembers(t.tags, gone);
    assert t.tags[k] in r.tags;
    var l: nat :| l < |r.tags| && r.tags[l] == t.tags[k];
    assert IsSlotTag(r, l, author, kind, d);
  }

  lemma PruneParamKeepsRefused(t: Tables, author: Bytes, kind: nat, d: string, tie: nat, s: Event)
    requires Projected(t) && ColumnsAgree(t) && RowsAtMostOneD(t) && TakenBySame(t, s) && IsParamReplaceable(kind)
    requires Refused(t, s)
    ensures Refused(PruneParam(t, author, kind, d, tie), s)
  {
    var r := PruneParam(t, author, kind, d, tie);
    if ReplaceableShadow(t, s) {
      var j :| j in t.events && SameAuthorKind(t.events[j], Decode(s.pubkey).value, s.kind) && t.events[j].createdAt >= s.createdAt;
      if j !in r.events {
        ParamOutlived(t, author, kind, d, tie, j);
        assert false;
      }
    } else if ParamShadow(t, s) {
      PruneParamKeepsShadow(t, author, kind, d, tie, s);
    } else {
      PruneParamKeepsTaken(t, author, kind, d, tie, s);
    }
  }

  /** If the row of `s` is removed, its slot has something at least as new. */
  lemma PruneParamKeepsTaken(t: Tables, author: Bytes, kind: nat, d: string, tie: nat, s: Event)
    requires Projected(t) && ColumnsAgree(t) && RowsAtMostOneD(t) && TakenBySame(t, s) && IsParamReplaceable(kind)
    requires Decode(s.id).Some? && HashTaken(t, Decode(s.id).value)
    ensures Refused(PruneParam(t, author, kind, d, tie), s)
  {
    var r := PruneParam(t, author, kind, d, tie);
    var j :| j in t.events && t.events[j].hash == Decode(s.id).value;
    assert Columns(t.events[j]);
    if j !in r.events {
      ParamOutlived(t, author, kind, d, tie, j);
      assert ParamShadow(r, s);
    }
  }

  lemma PruneParamKeepsShadow(t: Tables, author: Bytes, kind: nat, d: string, tie: nat, s: Event)
    requires Projected(t) && ColumnsAgree(t) && RowsAtMostOneD(t) && IsParamReplaceable(kind) && ParamShadow(t, s)
    ensures ParamShadow(PruneParam(t, author, kind, d, tie), s)
  {
    var at := SlotTags(t, author, kind, d);
    var k: nat :| k < |t.tags| && IsSlotTag(t, k, Decode(s.pubkey).value, s.kind, DistinctParam(s).value)
                  && t.events[t.tags[k].eventId].createdAt >= s.createdAt;
    SlotTagNamesSlot(t, k, Decode(s.pubkey).value, s.kind, DistinctParam(s).value);
    if at != map[] {
      if t.tags[k].eventId in OtherEvents(t, at, Newest(at, tie)) {
        ParamOutlived(t, author, kind, d, tie, t.tags[k].eventId);
      } else {
        SlotTagStays(t, OtherEvents(t, at, Newest(at, tie)), k, Decode(s.pubkey).value, s.kind, DistinctParam(s).value);
      }
    }
  }

  lemma InsertKeepsRowsAtMostOneD(t: Tables, e: Event)
    requires RowsAtMostOneD(t) && AtMostOneD(e) && Decodable(e)
    ensures RowsAtMostOneD(Insert(t, e))
  {
    assert DistinctParam(Serialized(e)) == DistinctParam(e);
  }

  lemma InsertKeepsTakenBySame(t: Tables, e: Event, s: Event)
    requires Decodable(e) && TakenBySame(t, s) && (Decode(s.id) == Decode(e.id) ==> SameFields(e, s))
    ensures TakenBySame(Insert(t, e), s)
  {
    assert SameFields(Serialized(e), e);
  }

  lemma ReplacedKeepsRefused(t: Tables, e: Event, tie: nat, s: Event)
    requires Valid(t) && RowsAtMostOneD(t) && AtMostOneD(e) && Inserts(t, e)
    requires TakenBySame(t, s) && (Decode(s.id) == Decode(e.id) ==> SameFields(e, s))
    requires Refused(t, s)
    ensures Refused(Replaced(t, e, tie), s)
  {
    var t1, author := Insert(t, e), Decode(e.pubkey).value;
    InsertKeepsRefused(t, e, s);
    InsertKeepsValid(t, e);
    InsertKeepsRowsAtMostOneD(t, e);
    InsertKeepsTakenBySame(t, e, s);
    if IsReplaceable(e.kind) {
      PruneReplaceableKeepsRefused(t1, author, e.kind, tie, s);
    } else if IsParamReplaceable(e.kind) {
      PruneParamKeepsRefused(t1, author, e.kind, DistinctParam(e).value, tie, s);
    }
  }

  lemma HideKeepsRefused(t: Tables, ids: set<nat>, s: Event)
    requires Refused(t, s)
    ensures Refused(HideEvents(t, ids), s)
  {
    var r := HideEvents(t, ids);
    assert forall id :: id in t.events ==> id in r.events && r.events[id] == t.events[id].(hidden := r.events[id].hidden);
    if ParamShadow(t, s) {
      var k: nat :| k < |t.tags| && IsSlotTag(t, k, Decode(s.pubkey).value, s.kind, DistinctParam(s).value)
                    && t.events[t.tags[k].eventId].createdAt >= s.createdAt;
      assert IsSlotTag(r, k, Decode(s.pubkey).value, s.kind, DistinctParam(s).value);
    }
  }

  /** A refusal outlasts every write. */
  lemma PersistKeepsRefused(t: Tables, e: Event, tie: nat, s: Event)
    requires Valid(t) && RowsAtMostOneD(t) && AtMostOneD(e)
    requires TakenBySame(t, s) && (Decode(s.id) == Decode(e.id) ==> SameFields(e, s))
    requires Refused(t, s)
    ensures Refused(Persist(t, e, tie).0, s)
  {
    if Inserts(t, e) {
      var ids := HidingIsPersist(t, e, tie);
      ReplacedKeepsRefused(t, e, tie, s);
      HideKeepsRefused(Replaced(t, e, tie), ids, s);
      assert Persist(t, e, tie).0 == HideEvents(Replaced(t, e, tie), ids);
    }
  }

  // ---------------------------------------------------------------------------------------
  // A new row outlives its own write
  // ---------------------------------------------------------------------------------------

  /** The new event is the newest of its author and kind. */
  lemma NewIsNewest(t: Tables, e: Event, tie: nat)
    requires Decodable(e) && IsReplaceable(e.kind) && !ReplaceableShadow(t, e)
    ensures NewRowId(t.events.Keys) in PruneReplaceable(Insert(t, e), Decode(e.pubkey).value, e.kind, tie).events
  {
    var id := NewRowId(t.events.Keys);
    var at := AuthorKindRows(Insert(t, e), Decode(e.pubkey).value, e.kind);
    assert id in at && at[id] == e.createdAt;
    forall j | j in at && j != id
      ensures at[j] < e.createdAt
    {
      assert j in t.events;
    }
  }

  /** An accepted event is in the store after its write. */
  lemma NewRowSurvives(t: Tables, e: Event, tie: nat)
    requires Valid(t) && AtMostOneD(e) && Inserts(t, e)
    ensures NewRowId(t.events.Keys) in Replaced(t, e, tie).events
    ensures Replaced(t, e, tie).events[NewRowId(t.events.Keys)] == RowFor(e)
  {
    if IsReplaceable(e.kind) {
      NewIsNewest(t, e, tie);
    } else if IsParamReplaceable(e.kind) {
      SingleIsKept(t, e, tie);
    }
    ReplacedRows(t, e, tie, NewRowId(t.events.Keys));
  }

  /** The report of a new row means that the event is stored and visible, and refused from now on. */
  lemma ReportedIsVisible(t: Tables, e: Event, tie: nat)
    requires Valid(t) && AtMostOneD(e) && Persist(t, e, tie).1 == Written(1)
    ensures !Refused(t, e) && Refused(Persist(t, e, tie).0, e)
    ensures var id, t' := NewRowId(t.events.Keys), Persist(t, e, tie).0;
            id in t'.events && t'.events[id].content == Serialized(e) && !t'.events[id].hidden
  {
    NewRowSurvives(t, e, tie);
    var id, r := NewRowId(t.events.Keys), Replaced(t, e, tie);
    assert e.kind == 5 ==> id !in DeletionTargets(r, e);
    assert Persist(t, e, tie).0.events[id].hash == Decode(e.id).value;
  }

  // ---------------------------------------------------------------------------------------
  // Rows come from submissions
  // ---------------------------------------------------------------------------------------

  predicate RowsFrom(t: Tables, es: seq<Event>) {
    forall id :: id in t.events ==> t.events[id].content in es
  }

  lemma PersistRowsFrom(t: Tables, e: Event, tie: nat, es: seq<Event>)
    requires RowsFrom(t, es)
    ensures RowsFrom(Persist(t, e, tie).0, es + [Serialized(e)])
  {
    if Inserts(t, e) {
      var t', r := Persist(t, e, tie).0, Replaced(t, e, tie);
      var ids := HidingIsPersist(t, e, tie);
      forall id | id in t'.events
        ensures t'.events[id].content in es + [Serialized(e)]
      {
        ReplacedRows(t, e, tie, id);
      }
    }
  }

  /** Every stored event was submitted. */
  lemma {:induction false} StoredWereSubmitted(ops: seq<Op>)
    ensures RowsFrom(Run(ops), Submitted(ops))
  {
    if ops != [] {
      var before, op := ops[..|ops| - 1], ops[|ops| - 1];
      StoredWereSubmitted(before);
      match op
      case Write(e, tie) => PersistRowsFrom(Run(before), e, tie, Submitted(before));
      case Expire(_) =>
    }
  }
}
