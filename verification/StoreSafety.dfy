/**
 * What holds in every reachable store, cleanups included and whatever events were submitted: one
 * row per author and replaceable kind, and no visible event that a stored deletion names in a
 * lowercase tag.
 */
module StoreSafety {
  import opened Common
  import opened Events
  import opened Hex
  import opened EventTables
  import opened StoreInvariants
  import opened StoreEffect
  import opened StoreRuns

  // ---------------------------------------------------------------------------------------
  // One row per author and replaceable kind: any events whatever
  // ---------------------------------------------------------------------------------------

  predicate ReplaceableUnique(t: Tables) {
    forall i, j :: i in t.events && j in t.events && IsReplaceable(t.events[i].kind) ==>
                     SameAuthorKind(t.events[i], t.events[j].author, t.events[j].kind) ==> i == j
  }

  /** Before hiding, a write leaves only rows it found and the new one. */
  lemma ReplacedRows(t: Tables, e: Event, tie: nat, j: nat)
    requires Decodable(e) && j in Replaced(t, e, tie).events
    ensures Replaced(t, e, tie).events[j] == Insert(t, e).events[j]
    ensures j != NewRowId(t.events.Keys) ==> j in t.events && Replaced(t, e, tie).events[j] == t.events[j]
    ensures j == NewRowId(t.events.Keys) ==> Replaced(t, e, tie).events[j] == RowFor(e)
  {
  }

  /** A replaceable write leaves one row of its author and kind. */
  lemma ReplacedLeavesOne(t: Tables, e: Event, tie: nat, i: nat, j: nat)
    requires Decodable(e) && IsReplaceable(e.kind)
    requires i in Replaced(t, e, tie).events && j in Replaced(t, e, tie).events
    requires SameAuthorKind(Replaced(t, e, tie).events[i], Decode(e.pubkey).value, e.kind)
    requires SameAuthorKind(Replaced(t, e, tie).events[j], Decode(e.pubkey).value, e.kind)
    ensures i == j
  {
    var t1 := Insert(t, e);
    var at := AuthorKindRows(t1, Decode(e.pubkey).value, e.kind);
    ReplacedRows(t, e, tie, i);
    ReplacedRows(t, e, tie, j);
    assert i in at && j in at;
    assert Replaced(t, e, tie).events == t1.events - (at.Keys - {Newest(at, tie)});
  }

  lemma ReplacedKeepsUnique(t: Tables, e: Event, tie: nat)
    requires Decodable(e) && ReplaceableUnique(t)
    ensures ReplaceableUnique(Replaced(t, e, tie))
  {
    var r := Replaced(t, e, tie);
    forall i, j | i in r.events && j in r.events && IsReplaceable(r.events[i].kind)
                  && SameAuthorKind(r.events[i], r.events[j].author, r.events[j].kind)
      ensures i == j
    {
      ReplacedRows(t, e, tie, i);
      ReplacedRows(t, e, tie, j);
      if SameAuthorKind(r.events[i], Decode(e.pubkey).value, e.kind) {
        ReplacedLeavesOne(t, e, tie, i, j);
      }
    }
  }

  lemma HideKeepsUnique(t: Tables, ids: set<nat>)
    requires ReplaceableUnique(t)
    ensures ReplaceableUnique(HideEvents(t, ids))
  {
    var t' := HideEvents(t, ids);
    forall i, j | i in t'.events && j in t'.events && IsReplaceable(t'.events[i].kind)
                  && SameAuthorKind(t'.events[i], t'.events[j].author, t'.events[j].kind)
      ensures i == j
    {
      assert SameAuthorKind(t.events[i], t.events[j].author, t.events[j].kind);
    }
  }

  /** Every reachable store holds at most one row per author and replaceable kind. */
  lemma {:induction false} ReplaceableSlotsUnique(ops: seq<Op>)
    ensures ReplaceableUnique(Run(ops))
  {
    if ops != [] {
      var t, op := Run(ops[..|ops| - 1]), ops[|ops| - 1];
      ReplaceableSlotsUnique(ops[..|ops| - 1]);
      if op.Write? && Inserts(t, op.e) {
        var ids := HidingIsPersist(t, op.e, op.tie);
        ReplacedKeepsUnique(t, op.e, op.tie);
        HideKeepsUnique(Replaced(t, op.e, op.tie), ids);
      }
    }
  }

  // ---------------------------------------------------------------------------------------
  // Deletions
  // ---------------------------------------------------------------------------------------

  /** Deletion row `d` names row `i` in a lowercase e tag. */
  predicate NamedBy(t: Tables, i: nat, d: nat) {
    && i in t.events && d in t.events
    && t.events[i].kind != 5 && t.events[d].kind == 5 && t.events[d].author == t.events[i].author
    && IsCanonical(t.events[i].content.id)
    && t.events[i].content.id in TagValuesByName(t.events[d].content.tags, "e")
  }

  predicate DeletionsHonoured(t: Tables) {
    forall i, d :: i in t.events && d in t.events && NamedBy(t, i, d) ==> t.events[i].hidden
  }

  /** A deletion that arrives last hides by hash. */
  lemma LateDeletionHides(r: Tables, e: Event, i: nat, d: nat)
    requires NamedBy(r, i, d) && Columns(r.events[i])
    requires Decodable(e) && r.events[d] == RowFor(e)
    ensures i in DeletionTargets(r, e)
  {
    CanonicalDecodes(r.events[i].content.id);
  }

  /** A deletion that is there already is found by text. */
  lemma EarlyDeletionHides(r: Tables, e: Event, i: nat, d: nat)
    requires NamedBy(r, i, d) && Projected(r)
    requires Decodable(e) && r.events[i] == RowFor(e)
    ensures DeletionRecorded(r, Decode(e.pubkey).value, e.id)
  {
    assert RecordsDeletion(r, d, Decode(e.pubkey).value, e.id);
    DeletionRecordedIff(r, Decode(e.pubkey).value, e.id);
  }

  lemma PersistHides(t: Tables, e: Event, tie: nat, r: Tables, i: nat, d: nat)
    requires Inserts(t, e) && DeletionsHonoured(t) && r == Replaced(t, e, tie)
    requires Projected(r) && ColumnsAgree(r) && NamedBy(r, i, d)
    ensures Persist(t, e, tie).0.events[i].hidden
  {
    ReplacedRows(t, e, tie, i);
    ReplacedRows(t, e, tie, d);
    if d == NewRowId(t.events.Keys) {
      LateDeletionHides(r, e, i, d);
    } else if i == NewRowId(t.events.Keys) {
      EarlyDeletionHides(r, e, i, d);
    } else {
      assert NamedBy(t, i, d);
    }
  }

  lemma PersistHonours(t: Tables, e: Event, tie: nat)
    requires Valid(t) && DeletionsHonoured(t)
    ensures DeletionsHonoured(Persist(t, e, tie).0)
  {
    if Inserts(t, e) {
      var t' := Persist(t, e, tie).0;
      var ids := HidingIsPersist(t, e, tie);
      ReplacedKeepsValid(t, e, tie);
      forall i, d | i in t'.events && d in t'.events && NamedBy(t', i, d)
        ensures t'.events[i].hidden
      {
        assert NamedBy(Replaced(t, e, tie), i, d);
        PersistHides(t, e, tie, Replaced(t, e, tie), i, d);
      }
    }
  }

  /**
   * In every reachable store, cleanups included and whatever events were submitted, no visible
   * event is named in a lowercase e tag of a stored deletion by its author.
   */
  lemma {:induction false} DeletionInvariant(ops: seq<Op>)
    ensures DeletionsHonoured(Run(ops))
  {
    if ops != [] {
      var t, op := Run(ops[..|ops| - 1]), ops[|ops| - 1];
      DeletionInvariant(ops[..|ops| - 1]);
      RunValid(ops[..|ops| - 1]);
      match op
      case Write(e, tie) => PersistHonours(t, e, tie);
      case Expire(now) =>
        var t' := Run(ops);
        forall i, d | i in t'.events && d in t'.events && NamedBy(t', i, d)
          ensures t'.events[i].hidden
        {
          assert NamedBy(t, i, d);
        }
    }
  }
}
