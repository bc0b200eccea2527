/**
 * One row per slot: whatever events were submitted, cleanups included, the rows that are indexed
 * under their own d value are alone in their slot. Exactly the others can share one.
 */
module StoreSlots {
  import opened Common
  import opened Events
  import opened Hex
  import opened EventTables
  import opened StoreInvariants
  import opened StoreEffect
  import opened StoreRuns
  import opened StoreSafety
  import opened StoreExact
  import opened StoreRefusal

  /** A parameterized event is indexed under its own d value, perhaps repeatedly and among others. */
  predicate OwnDIndexed(e: Event) {
    IsParamReplaceable(e.kind) ==> OwnDRows(e) >= 1
  }

  /** Any two rows of one slot that are indexed there are the same. */
  predicate IndexedUnique(t: Tables) {
    forall i, j | i in t.events && j in t.events && OwnDIndexed(t.events[i].content) && OwnDIndexed(t.events[j].content) ::
      SlotOf(t.events[i].content).Some? && SlotOf(t.events[i].content) == SlotOf(t.events[j].content) ==> i == j
  }

  predicate SlotsUnique(t: Tables) {
    forall i, j :: i in t.events && j in t.events && SlotOf(t.events[i].content).Some? ==>
                     SlotOf(t.events[i].content) == SlotOf(t.events[j].content) ==> i == j
  }

  /** The rows after an accepted write: the new one, and old ones. */
  lemma RowsAfter(t: Tables, e: Event, tie: nat, j: nat)
    requires Inserts(t, e) && j in Persist(t, e, tie).0.events
    ensures var r := Persist(t, e, tie).0.events[j];
            if j == NewRowId(t.events.Keys) then r.content == Serialized(e)
            else j in t.events && r.content == t.events[j].content
  {
    var ids := HidingIsPersist(t, e, tie);
    ReplacedRows(t, e, tie, j);
  }

  /** An old row that shares the slot of the new event, and is indexed there, is gone. */
  lemma OldRivalGone(t: Tables, e: Event, tie: nat, j: nat)
    requires Valid(t) && Inserts(t, e) && IsParamReplaceable(e.kind) && OwnDIndexed(e)
    requires j in t.events && OwnDIndexed(t.events[j].content) && SlotOf(t.events[j].content) == SlotOf(e)
    ensures j !in Persist(t, e, tie).0.events
  {
    assert Columns(t.events[j]);
    RemovesExactly(t, e, tie, j);
  }

  lemma WriteKeepsIndexedUnique(t: Tables, e: Event, tie: nat)
    requires Valid(t) && IndexedUnique(t) && Inserts(t, e) && ReplaceableUnique(Persist(t, e, tie).0)
    ensures IndexedUnique(Persist(t, e, tie).0)
  {
    var t', id := Persist(t, e, tie).0, NewRowId(t.events.Keys);
    PersistKeepsValid(t, e, tie);
    forall i, j | i in t'.events && j in t'.events && OwnDIndexed(t'.events[i].content) && OwnDIndexed(t'.events[j].content)
                  && SlotOf(t'.events[i].content).Some? && SlotOf(t'.events[i].content) == SlotOf(t'.events[j].content)
      ensures i == j
    {
      PairStaysUnique(t, e, tie, i, j);
    }
  }

  lemma PairStaysUnique(t: Tables, e: Event, tie: nat, i: nat, j: nat)
    requires Valid(t) && IndexedUnique(t) && Inserts(t, e)
    requires Valid(Persist(t, e, tie).0) && ReplaceableUnique(Persist(t, e, tie).0)
    requires var events := Persist(t, e, tie).0.events;
             && i in events && j in events && OwnDIndexed(events[i].content) && OwnDIndexed(events[j].content)
             && SlotOf(events[i].content).Some? && SlotOf(events[i].content) == SlotOf(events[j].content)
    ensures i == j
  {
    var t', id := Persist(t, e, tie).0, NewRowId(t.events.Keys);
    RowsAfter(t, e, tie, i);
    RowsAfter(t, e, tie, j);
    SerializedSame(e, e);
    assert OwnDIndexed(Serialized(e)) <==> OwnDIndexed(e);
    if IsReplaceable(t'.events[i].content.kind) {
      assert Columns(t'.events[i]) && Columns(t'.events[j]);
    } else if i == id && j != id {
      OldRivalGone(t, e, tie, j);
    } else if j == id && i != id {
      OldRivalGone(t, e, tie, i);
    }
  }

  /**
   * Every reachable store, cleanups included and whatever was submitted, holds at most one row per
   * slot among those indexed under their own d value.
   */
  lemma {:induction false} IndexedSlotsUnique(ops: seq<Op>)
    ensures IndexedUnique(Run(ops))
  {
    if ops != [] {
      var before, op := ops[..|ops| - 1], ops[|ops| - 1];
      IndexedSlotsUnique(before);
      RunValid(before);
      if op.Write? && Inserts(Run(before), op.e) {
        ReplaceableSlotsUnique(ops);
        WriteKeepsIndexedUnique(Run(before), op.e, op.tie);
      }
    }
  }

  /**
   * Every reachable store, cleanups included, holds at most one row per slot when the submitted
   * events are indexed under their own d values; foreign and repeated values do no harm.
   */
  lemma SlotUniqueness(ops: seq<Op>)
    requires forall i :: 0 <= i < |Submitted(ops)| ==> OwnDIndexed(Submitted(ops)[i])
    ensures SlotsUnique(Run(ops))
  {
    IndexedSlotsUnique(ops);
    StoredWereSubmitted(ops);
  }

  lemma {:induction false} FirstValueIsOne(tags: seq<Tag>)
    ensures match FirstTagValue(tags, "d")
            case None => true
            case Some(v) => v == "" || v in TagValuesByName(tags, "d")
  {
    if tags != [] {
      FirstValueIsOne(tags[1..]);
    }
  }

  /** Whatever was submitted, a slot with a d value other than the empty text has at most one row. */
  lemma NonemptySlotsUnique(ops: seq<Op>, i: nat, j: nat)
    requires i in Run(ops).events && j in Run(ops).events
    requires var s := SlotOf(Run(ops).events[i].content);
             s.Some? && s == SlotOf(Run(ops).events[j].content) && s.value.d != Some("")
    ensures i == j
  {
    IndexedSlotsUnique(ops);
    FirstValueIsOne(Run(ops).events[i].content.tags);
    FirstValueIsOne(Run(ops).events[j].content.tags);
  }

  // ---------------------------------------------------------------------------------------
  // Events that are not indexed under their own d value
  // ---------------------------------------------------------------------------------------

  /** Another event for the slot of `e`, indexed there. */
  function Companion(e: Event): Event
    requires IsHex(e.id) && IsParamReplaceable(e.kind)
  {
    Event(OtherId(e.id), e.pubkey, None, e.createdAt, e.kind, [["d", DistinctParam(e).value]], "", "", None)
  }

  lemma CompanionFits(e: Event)
    requires Decodable(e) && Bindable(e) && IsParamReplaceable(e.kind)
    ensures var x := Companion(e);
            Storable(x) && OwnDRows(x) == 1 && SlotOf(x) == SlotOf(e) && Decode(x.id) != Decode(e.id)
  {
    var x := Companion(e);
    OtherIdDiffers(e.id);
    assert x.tags[1..] == [];
    assert FirstTagValue(x.tags, "expiration") == None;
    assert TagValuesByName(x.tags, "d") == [DistinctParam(e).value] && DistinctParam(x) == DistinctParam(e);
  }

  lemma RunOfTwo(e: Event, x: Event)
    ensures Run([Write(e, 0)] + [Write(x, 0)]) == Persist(Persist(EMPTY, e, 0).0, x, 0).0
    ensures Submitted([Write(e, 0)] + [Write(x, 0)]) == [Serialized(e)] + [Serialized(x)]
  {
    SnocRun([], Write(e, 0));
    assert [] + [Write(e, 0)] == [Write(e, 0)] && [] + [Serialized(e)] == [Serialized(e)];
    SnocRun([Write(e, 0)], Write(x, 0));
  }

  /** The store after an event that is not indexed under its own d value. */
  lemma UnindexedStored(e: Event)
    requires Decodable(e) && Bindable(e) && IsParamReplaceable(e.kind) && OwnDRows(e) == 0
    ensures var t := Persist(EMPTY, e, 0).0;
            Valid(t) && t.events.Keys == {1} && t.events[1].content == Serialized(e)
  {
    assert Inserts(EMPTY, e);
    OutlivesOwnWriteExactly(EMPTY, e, 0);
    PersistKeepsValid(EMPTY, e, 0);
    var t := Persist(EMPTY, e, 0).0;
    RowsAfter(EMPTY, e, 0, 1);
    forall j | j in t.events
      ensures j == 1
    {
      RowsAfter(EMPTY, e, 0, j);
    }
  }

  /** Its companion does not see it, and is stored beside it. */
  lemma CompanionStored(e: Event, t: Tables)
    requires Decodable(e) && Bindable(e) && IsParamReplaceable(e.kind) && OwnDRows(e) == 0
    requires Valid(t) && t.events.Keys == {1} && t.events[1].content == Serialized(e)
    ensures var t' := Persist(t, Companion(e), 0).0;
            exists id :: id != 1 && 1 in t'.events && id in t'.events
                         && t'.events[1].content == Serialized(e) && t'.events[id].content == Companion(e)
  {
    var x := Companion(e);
    CompanionFits(e);
    assert Columns(t.events[1]);
    assert Inserts(t, x) by {
      if ParamShadow(t, x) { ShadowNeedsD(t, x); }
    }
    var id := NewRowId(t.events.Keys);
    assert 1 in t.events.Keys;
    OutlivesOwnWriteExactly(t, x, 0);
    RemovesExactly(t, x, 0, 1);
    RowsAfter(t, x, 0, 1);
    RowsAfter(t, x, 0, id);
  }

  /** The d tag without a value, or none at all: a second event of the slot is stored beside it. */
  lemma SharesSlot(e: Event)
    requires Decodable(e) && Bindable(e) && IsParamReplaceable(e.kind) && OwnDRows(e) == 0
    ensures !SlotsUnique(Run([Write(e, 0)] + [Write(Companion(e), 0)]))
  {
    UnindexedStored(e);
    CompanionStored(e, Persist(EMPTY, e, 0).0);
    CompanionFits(e);
    RunOfTwo(e, Companion(e));
    SerializedSame(e, e);
    var t' := Run([Write(e, 0)] + [Write(Companion(e), 0)]);
    var id :| id != 1 && 1 in t'.events && id in t'.events
              && t'.events[1].content == Serialized(e) && t'.events[id].content == Companion(e);
    assert SlotOf(t'.events[1].content) == SlotOf(t'.events[id].content);
  }

  predicate OthersIndexed(es: seq<Event>, e: Event) {
    forall i :: 0 <= i < |es| && es[i] != Serialized(e) ==> OwnDIndexed(es[i])
  }

  /** In every run whose other events are indexed under their own d values, slots have one row. */
  ghost predicate NeverSharesSlot(e: Event) {
    forall ops: seq<Op> :: OthersIndexed(Submitted(ops), e) ==> SlotsUnique(Run(ops))
  }

  lemma CompanionInOrder(e: Event)
    requires Decodable(e) && Bindable(e) && IsParamReplaceable(e.kind)
    ensures OthersIndexed(Submitted([Write(e, 0)] + [Write(Companion(e), 0)]), e)
  {
    var x := Companion(e);
    CompanionFits(e);
    RunOfTwo(e, x);
    assert Serialized(x) == x;
    var es := [Serialized(e)] + [x];
    assert forall i :: 0 <= i < |es| ==> es[i] == Serialized(e) || es[i] == x;
  }

  lemma IndexedNeverShares(e: Event)
    requires IsParamReplaceable(e.kind) && OwnDRows(e) >= 1
    ensures NeverSharesSlot(e)
  {
    assert OwnDIndexed(Serialized(e)) by {
      assert DistinctParam(Serialized(e)) == DistinctParam(e);
    }
    forall ops: seq<Op> | OthersIndexed(Submitted(ops), e)
      ensures SlotsUnique(Run(ops))
    {
      SlotUniqueness(ops);
    }
  }

  /**
   * Exactly which parameterized events keep slots to one row: those indexed under their own d
   * value. The others have no d tag, or a first one without value.
   */
  lemma SlotUniqueExactly(e: Event)
    requires Decodable(e) && Bindable(e) && IsParamReplaceable(e.kind)
    ensures NeverSharesSlot(e) <==> OwnDRows(e) >= 1
  {
    if OwnDRows(e) >= 1 {
      IndexedNeverShares(e);
    } else {
      SharesSlot(e);
      CompanionInOrder(e);
    }
  }

  /** An instance: no tags, then one empty d value. */
  lemma SharedSlotInstance(e: Event, x: Event)
    requires e == Event(seq(64, _ => 'a'), seq(64, _ => 'c'), None, 7, 30000, [], "", "", None)
    requires x == Event(['0'] + seq(63, _ => 'a'), seq(64, _ => 'c'), None, 7, 30000, [["d", ""]], "", "", None)
    ensures !SlotsUnique(Run([Write(e, 0)] + [Write(x, 0)]))
  {
    assert FirstTagValue(e.tags, "expiration") == None;
    assert e.id[1..] == seq(63, _ => 'a');
    assert Companion(e) == x;
    SharesSlot(e);
  }
}
