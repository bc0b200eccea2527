/**
 * Parameterized events in any valid store, however many d values they carry: exactly which of them
 * outlive their own write, and exactly which rows a write removes.
 */
module StoreExact {
  import opened Common
  import opened Events
  import opened Hex
  import opened EventTables
  import opened StoreInvariants
  import opened StoreEffect
  import opened StoreSafety

  /** How many tag rows a parameterized event gets under its own d value. */
  function OwnDRows(e: Event): nat
    requires IsParamReplaceable(e.kind)
  {
    multiset(TagValuesByName(e.tags, "d"))[DistinctParam(e).value]
  }

  predicate IsDRow(r: TagRow, d: string) {
    r.name == "d" && r.value == d
  }

  lemma {:induction false} AtMostOneDRow(id: nat, tags: seq<Tag>, kind: nat, createdAt: nat, d: string)
    requires multiset(TagValuesByName(tags, "d"))[d] <= 1
    ensures forall i, j :: 0 <= i < j < |DerivedTags(id, tags, kind, createdAt)| ==>
                             !IsDRow(DerivedTags(id, tags, kind, createdAt)[i], d)
                             || !IsDRow(DerivedTags(id, tags, kind, createdAt)[j], d)
    ensures multiset(TagValuesByName(tags, "d"))[d] == 0 ==>
              forall i :: 0 <= i < |DerivedTags(id, tags, kind, createdAt)| ==> !IsDRow(DerivedTags(id, tags, kind, createdAt)[i], d)
  {
    if tags != [] {
      AtMostOneDRow(id, tags[1..], kind, createdAt, d);
    }
  }

  lemma {:induction false} SomeDRow(id: nat, tags: seq<Tag>, kind: nat, createdAt: nat, d: string) returns (i: nat)
    requires multiset(TagValuesByName(tags, "d"))[d] >= 1
    ensures i < |DerivedTags(id, tags, kind, createdAt)| && IsDRow(DerivedTags(id, tags, kind, createdAt)[i], d)
  {
    assert "d" == ['d'];
    DerivedTagsValues(id, tags, kind, createdAt, 'd', d);
    i :| i < |DerivedTags(id, tags, kind, createdAt)| && DerivedTags(id, tags, kind, createdAt)[i] == TagRow(id, "d", d, kind, createdAt);
  }

  lemma {:induction false} TwoDRows(id: nat, tags: seq<Tag>, kind: nat, createdAt: nat, d: string) returns (i: nat, j: nat)
    requires multiset(TagValuesByName(tags, "d"))[d] >= 2
    ensures i < j < |DerivedTags(id, tags, kind, createdAt)|
    ensures IsDRow(DerivedTags(id, tags, kind, createdAt)[i], d) && IsDRow(DerivedTags(id, tags, kind, createdAt)[j], d)
  {
    if multiset(TagValuesByName(tags[1..], "d"))[d] >= 2 {
      i, j := TwoDRows(id, tags[1..], kind, createdAt, d);
      if IsIndexed(tags[0]) {
        assert DerivedTags(id, tags, kind, createdAt)[1..] == DerivedTags(id, tags[1..], kind, createdAt);
        i, j := i + 1, j + 1;
      }
    } else {
      FirstIsD(tags, d);
      var k := SomeDRow(id, tags[1..], kind, createdAt, d);
      assert DerivedTags(id, tags, kind, createdAt)[1..] == DerivedTags(id, tags[1..], kind, createdAt);
      i, j := 0, k + 1;
    }
  }

  /** If the rest has fewer values `d`, the first tag is one. */
  lemma FirstIsD(tags: seq<Tag>, d: string)
    requires tags != []
    requires multiset(TagValuesByName(tags, "d"))[d] > multiset(TagValuesByName(tags[1..], "d"))[d]
    ensures |tags[0]| > 1 && tags[0][0] == "d" && tags[0][1] == d
    ensures multiset(TagValuesByName(tags, "d"))[d] == multiset(TagValuesByName(tags[1..], "d"))[d] + 1
  {
  }

  // ---------------------------------------------------------------------------------------
  // The rows of the new event and those of the others
  // ---------------------------------------------------------------------------------------

  /** The own rows of a new event are at the end of the tag table. */
  lemma OwnTag(t: Tables, e: Event, k: nat)
    requires Decodable(e) && IsParamReplaceable(e.kind) && |t.tags| <= k < |Insert(t, e).tags|
    ensures Insert(t, e).tags[k] == DerivedTags(NewRowId(t.events.Keys), e.tags, e.kind, e.createdAt)[k - |t.tags|]
    ensures Insert(t, e).tags[k].eventId == NewRowId(t.events.Keys) && Insert(t, e).tags[k].createdAt == e.createdAt
    ensures IsSlotTag(Insert(t, e), k, Decode(e.pubkey).value, e.kind, DistinctParam(e).value)
            <==> IsDRow(Insert(t, e).tags[k], DistinctParam(e).value)
  {
    var id := NewRowId(t.events.Keys);
    DerivedTagsBelong(id, e.tags, e.kind, e.createdAt);
    assert Insert(t, e).tags[k] in DerivedTags(id, e.tags, e.kind, e.createdAt);
  }

  /** A row of the slot, other than those of the new event, is older. */
  lemma OtherSlotTagOlder(t: Tables, e: Event, k: nat)
    requires Valid(t) && Decodable(e) && IsParamReplaceable(e.kind) && !ParamShadow(t, e)
    requires k < |t.tags| && IsSlotTag(Insert(t, e), k, Decode(e.pubkey).value, e.kind, DistinctParam(e).value)
    ensures Insert(t, e).tags[k] == t.tags[k] && t.tags[k].createdAt < e.createdAt
    ensures t.tags[k].eventId != NewRowId(t.events.Keys)
  {
    OldSlotTag(t, e, k, Decode(e.pubkey).value, e.kind, DistinctParam(e).value);
    TagRowCopies(t, k);
  }

  /** If the new event has a row in its slot, then one of its rows comes first there. */
  lemma OwnTagFirst(t: Tables, e: Event, tie: nat, own: nat)
    requires Valid(t) && Decodable(e) && IsParamReplaceable(e.kind) && !ParamShadow(t, e)
    requires |t.tags| <= own
    requires own in SlotTags(Insert(t, e), Decode(e.pubkey).value, e.kind, DistinctParam(e).value)
    ensures |t.tags| <= Newest(SlotTags(Insert(t, e), Decode(e.pubkey).value, e.kind, DistinctParam(e).value), tie)
  {
    var first := Newest(SlotTags(Insert(t, e), Decode(e.pubkey).value, e.kind, DistinctParam(e).value), tie);
    OwnTag(t, e, own);
    if first < |t.tags| {
      OtherSlotTagOlder(t, e, first);
      assert false;
    }
  }

  // ---------------------------------------------------------------------------------------
  // Outliving the own write
  // ---------------------------------------------------------------------------------------

  lemma RepeatedIsPruned(t: Tables, e: Event, tie: nat)
    requires Decodable(e) && IsParamReplaceable(e.kind) && OwnDRows(e) >= 2
    ensures NewRowId(t.events.Keys)
            !in PruneParam(Insert(t, e), Decode(e.pubkey).value, e.kind, DistinctParam(e).value, tie).events
  {
    var id, t1 := NewRowId(t.events.Keys), Insert(t, e);
    var i, j := TwoDRows(id, e.tags, e.kind, e.createdAt, DistinctParam(e).value);
    var k, l := |t.tags| + i, |t.tags| + j;
    OwnTag(t, e, k);
    OwnTag(t, e, l);
    var at := SlotTags(t1, Decode(e.pubkey).value, e.kind, DistinctParam(e).value);
    assert k in at && l in at;
    var other := if Newest(at, tie) == k then l else k;
    assert other in at && t1.tags[other].eventId == id;
  }

  lemma SingleIsKept(t: Tables, e: Event, tie: nat)
    requires Valid(t) && Decodable(e) && IsParamReplaceable(e.kind) && !ParamShadow(t, e) && OwnDRows(e) <= 1
    ensures NewRowId(t.events.Keys)
            in PruneParam(Insert(t, e), Decode(e.pubkey).value, e.kind, DistinctParam(e).value, tie).events
  {
    var id, t1 := NewRowId(t.events.Keys), Insert(t, e);
    var at := SlotTags(t1, Decode(e.pubkey).value, e.kind, DistinctParam(e).value);
    if at != map[] && id in OtherEvents(t1, at, Newest(at, tie)) {
      var first := Newest(at, tie);
      var k :| k in at && k != first && t1.tags[k].eventId == id;
      if k < |t.tags| { OtherSlotTagOlder(t, e, k); }
      OwnTagFirst(t, e, tie, k);
      OwnTag(t, e, k);
      OwnTag(t, e, first);
      AtMostOneDRow(id, e.tags, e.kind, e.createdAt, DistinctParam(e).value);
      assert false;
    }
  }

  /** Row `id` has a d row in this slot. */
  ghost predicate HoldsSlot(t: Tables, id: nat, author: Bytes, kind: nat, d: string) {
    id in t.events && exists k: nat :: IsTagOf(t, k, id) && IsSlotTag(t, k, author, kind, d)
  }

  lemma HoldsSlotIff(t: Tables, id: nat, author: Bytes, kind: nat, d: string)
    requires Projected(t) && id in t.events
    ensures HoldsSlot(t, id, author, kind, d)
            <==> SameAuthorKind(t.events[id], author, kind) && d in TagValuesByName(t.events[id].content.tags, "d")
  {
    assert "d" == ['d'];
    SlotTagColumns(t, id, author, kind, d);
    TagRowIffTag(t, id, 'd', d);
  }

  /**
   * Exactly which parameterized events outlive their own write, in any valid store. An accepted
   * one is in the store afterwards exactly when it has at most one row in its own slot, and holds
   * the slot exactly when it has one. Without a valued d tag it is stored outside the slot; with
   * a repeated one its own prune removes it.
   */
  lemma OutlivesOwnWriteExactly(t: Tables, e: Event, tie: nat)
    requires Valid(t) && IsParamReplaceable(e.kind) && Inserts(t, e)
    ensures var id, t' := NewRowId(t.events.Keys), Persist(t, e, tie).0;
            (id in t'.events <==> OwnDRows(e) <= 1)
            && (HoldsSlot(t', id, Decode(e.pubkey).value, e.kind, DistinctParam(e).value) <==> OwnDRows(e) == 1)
  {
    var id, t' := NewRowId(t.events.Keys), Persist(t, e, tie).0;
    var ids := HidingIsPersist(t, e, tie);
    if OwnDRows(e) >= 2 {
      RepeatedIsPruned(t, e, tie);
    } else {
      SingleIsKept(t, e, tie);
      PersistKeepsValid(t, e, tie);
      ReplacedRows(t, e, tie, id);
      HoldsSlotIff(t', id, Decode(e.pubkey).value, e.kind, DistinctParam(e).value);
    }
  }

  // ---------------------------------------------------------------------------------------
  // Removing others
  // ---------------------------------------------------------------------------------------

  lemma SomeOwnTag(t: Tables, e: Event) returns (own: nat)
    requires Decodable(e) && IsParamReplaceable(e.kind) && OwnDRows(e) >= 1
    ensures |t.tags| <= own
    ensures own in SlotTags(Insert(t, e), Decode(e.pubkey).value, e.kind, DistinctParam(e).value)
  {
    var i := SomeDRow(NewRowId(t.events.Keys), e.tags, e.kind, e.createdAt, DistinctParam(e).value);
    own := |t.tags| + i;
    OwnTag(t, e, own);
  }

  lemma OthersPruned(t: Tables, e: Event, tie: nat, own: nat, j: nat)
    requires Valid(t) && Decodable(e) && IsParamReplaceable(e.kind) && !ParamShadow(t, e) && j in t.events
    requires |t.tags| <= own
    requires own in SlotTags(Insert(t, e), Decode(e.pubkey).value, e.kind, DistinctParam(e).value)
    ensures j !in PruneParam(Insert(t, e), Decode(e.pubkey).value, e.kind, DistinctParam(e).value, tie).events
            <==> HoldsSlot(t, j, Decode(e.pubkey).value, e.kind, DistinctParam(e).value)
  {
    var t1, author, d := Insert(t, e), Decode(e.pubkey).value, DistinctParam(e).value;
    var at := SlotTags(t1, author, e.kind, d);
    OwnTagFirst(t, e, tie, own);
    if k: nat :| IsTagOf(t, k, j) && IsSlotTag(t, k, author, e.kind, d) {
      OldSlotTag(t, e, k, author, e.kind, d);
      assert k in at;
    }
    if k :| k in at && k != Newest(at, tie) && t1.tags[k].eventId == j {
      if k >= |t.tags| { OwnTag(t, e, k); }
      OldSlotTag(t, e, k, author, e.kind, d);
      assert IsTagOf(t, k, j);
    }
  }

  /**
   * Exactly what the write of a parameterized event removes, in any valid store: the rows of its
   * author and kind that carry its d value, be it as their own or as a foreign one.
   */
  lemma RemovesExactly(t: Tables, e: Event, tie: nat, j: nat)
    requires Valid(t) && IsParamReplaceable(e.kind) && Inserts(t, e) && OwnDRows(e) >= 1 && j in t.events
    ensures j !in Persist(t, e, tie).0.events
            <==> SameAuthorKind(t.events[j], Decode(e.pubkey).value, e.kind)
                 && DistinctParam(e).value in TagValuesByName(t.events[j].content.tags, "d")
  {
    var own := SomeOwnTag(t, e);
    OthersPruned(t, e, tie, own, j);
    HoldsSlotIff(t, j, Decode(e.pubkey).value, e.kind, DistinctParam(e).value);
    var ids := HidingIsPersist(t, e, tie);
  }

  /**
   * A stored event of another slot is removed exactly when it carries the d value of the new one
   * as a foreign value.
   */
  lemma LosesSlotToOther(t: Tables, e: Event, tie: nat, j: nat)
    requires Valid(t) && IsParamReplaceable(e.kind) && Inserts(t, e) && OwnDRows(e) >= 1 && j in t.events
    requires SameAuthorKind(t.events[j], Decode(e.pubkey).value, e.kind)
    requires SlotOf(t.events[j].content) != SlotOf(e)
    ensures j !in Persist(t, e, tie).0.events
            <==> DistinctParam(e).value in ForeignDs(t.events[j].content)
  {
    RemovesExactly(t, e, tie, j);
    assert Columns(t.events[j]);
  }

  /** The d values of a parameterized event other than its own. */
  function ForeignDs(e: Event): set<string>
    requires IsParamReplaceable(e.kind)
  {
    set v | v in TagValuesByName(e.tags, "d") && Some(v) != DistinctParam(e)
  }
}
