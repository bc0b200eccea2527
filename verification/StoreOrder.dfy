/**
 * When the order of arrival does not matter: exactly when every slot has one newest event, every
 * id without a slot one signature, and the two ways of comparing deletions agree on every event
 * that is kept.
 */
module StoreOrder {
  import opened Common
  import opened Events
  import opened Hex
  import opened EventTables
  import opened StoreInvariants
  import opened StoreEffect
  import opened StoreRuns

  predicate SameEvents(a: seq<Event>, b: seq<Event>) {
    (forall i :: 0 <= i < |a| ==> a[i] in b) && (forall i :: 0 <= i < |b| ==> b[i] in a)
  }

  /** No submission to the slot of the i-th is newer. */
  predicate IsNewest(es: seq<Event>, i: int) {
    0 <= i < |es| && forall k :: 0 <= k < |es| && SlotOf(es[k]) == SlotOf(es[i]) ==> es[k].createdAt <= es[i].createdAt
  }

  /** Every slot has one newest event. */
  predicate UniqueNewest(es: seq<Event>) {
    forall i, j | 0 <= i < |es| && 0 <= j < |es| && IsNewest(es, i) && IsNewest(es, j) ::
      SlotOf(es[i]).Some? && SlotOf(es[i]) == SlotOf(es[j]) ==> es[i] == es[j]
  }

  /** Every id without a slot comes in one copy: with one signature. */
  predicate OneSignature(es: seq<Event>) {
    forall i, j :: 0 <= i < |es| && 0 <= j < |es| && SlotOf(es[i]).None? && Decode(es[i].id) == Decode(es[j].id) ==>
                     es[i] == es[j]
  }

  /** A kept event that a deletion names by hash is named by text, by that deletion or another. */
  predicate SpellingsAgree(es: seq<Event>) {
    forall i, j :: 0 <= i < |es| && 0 <= j < |es| && Kept(es, es[i]) && NamesByHash(es[j], es[i]) ==> Deleted(es, es[i])
  }

  /** Submissions that the theorems of this module are about. */
  predicate Admissible(es: seq<Event>) {
    AllSound(es) && IdsNameFields(es) && forall i :: 0 <= i < |es| ==> es[i] == Serialized(es[i])
  }

  // ---------------------------------------------------------------------------------------
  // The hypotheses speak of sets
  // ---------------------------------------------------------------------------------------

  lemma SameAdmissible(a: seq<Event>, b: seq<Event>)
    requires SameEvents(a, b) && Admissible(a)
    ensures Admissible(b)
  {
    forall i | 0 <= i < |b|
      ensures Sound(b[i]) && b[i] == Serialized(b[i])
    {
      var k :| 0 <= k < |a| && a[k] == b[i];
    }
    forall i, j | 0 <= i < |b| && 0 <= j < |b| && Decode(b[i].id).Some? && Decode(b[i].id) == Decode(b[j].id)
      ensures SameFields(b[i], b[j])
    {
      var k :| 0 <= k < |a| && a[k] == b[i];
      var l :| 0 <= l < |a| && a[l] == b[j];
    }
  }

  lemma SameOneSignature(a: seq<Event>, b: seq<Event>)
    requires SameEvents(a, b) && OneSignature(a)
    ensures OneSignature(b)
  {
    forall i, j | 0 <= i < |b| && 0 <= j < |b| && SlotOf(b[i]).None? && Decode(b[i].id) == Decode(b[j].id)
      ensures b[i] == b[j]
    {
      var k :| 0 <= k < |a| && a[k] == b[i];
      var l :| 0 <= l < |a| && a[l] == b[j];
    }
  }

  lemma SameNewest(a: seq<Event>, b: seq<Event>, i: nat, j: nat)
    requires SameEvents(a, b) && i < |a| && j < |b| && a[i] == b[j] && IsNewest(b, j)
    ensures IsNewest(a, i)
  {
    forall k | 0 <= k < |a| && SlotOf(a[k]) == SlotOf(a[i])
      ensures a[k].createdAt <= a[i].createdAt
    {
      var l :| 0 <= l < |b| && b[l] == a[k];
    }
  }

  lemma SameUniqueNewest(a: seq<Event>, b: seq<Event>)
    requires SameEvents(a, b) && UniqueNewest(a)
    ensures UniqueNewest(b)
  {
    forall i, j | 0 <= i < |b| && 0 <= j < |b| && IsNewest(b, i) && IsNewest(b, j)
                  && SlotOf(b[i]).Some? && SlotOf(b[i]) == SlotOf(b[j])
      ensures b[i] == b[j]
    {
      var k :| 0 <= k < |a| && a[k] == b[i];
      var l :| 0 <= l < |a| && a[l] == b[j];
      SameNewest(a, b, k, i);
      SameNewest(a, b, l, j);
    }
  }

  /** What is kept depends on the set of submissions only. */
  lemma KeptByAnyOrder(a: seq<Event>, b: seq<Event>, e: Event)
    requires SameEvents(a, b) && UniqueNewest(b) && OneSignature(b) && Kept(a, e)
    ensures Kept(b, e)
  {
    var i :| 0 <= i < |a| && Wins(a, i) && a[i] == e;
    var j :| 0 <= j < |b| && b[j] == e;
    if SlotOf(e).Some? {
      var w := WinnerExists(b, j);
      var k :| 0 <= k < |a| && a[k] == b[w];
      assert IsNewest(b, w) && IsNewest(b, j);
    } else {
      var w := FirstOfId(b, j);
      assert b[w] == b[j];
    }
  }

  lemma DeletedByAnyOrder(a: seq<Event>, b: seq<Event>, e: Event)
    requires SameEvents(a, b) && Deleted(a, e)
    ensures Deleted(b, e)
  {
    var j :| 0 <= j < |a| && Deletes(a[j], e);
    var k :| 0 <= k < |b| && b[k] == a[j];
  }

  // ---------------------------------------------------------------------------------------
  // Sufficient
  // ---------------------------------------------------------------------------------------

  /** Under the three conditions the view is decided by the set of submissions. */
  lemma ViewByAnyOrder(es: seq<Event>, ops: seq<Op>, e: Event, h: bool)
    requires Admissible(es) && UniqueNewest(es) && OneSignature(es) && SpellingsAgree(es)
    requires NoExpiry(ops) && SameEvents(Submitted(ops), es)
    ensures (e, h) in View(Run(ops)) <==> Kept(es, e) && h == Deleted(es, e)
  {
    var a := Submitted(ops);
    SameAdmissible(es, a);
    SameUniqueNewest(es, a);
    SameOneSignature(es, a);
    ViewExactly(ops, e, h);
    if Kept(a, e) { KeptByAnyOrder(a, es, e); }
    if Kept(es, e) {
      KeptByAnyOrder(es, a, e);
      HiddenByAnyOrder(es, a, e);
    }
  }

  lemma HiddenByAnyOrder(es: seq<Event>, a: seq<Event>, e: Event)
    requires SameEvents(a, es) && SpellingsAgree(es) && Kept(es, e)
    ensures HiddenBy(a, e) <==> Deleted(es, e)
  {
    if Deleted(a, e) { DeletedByAnyOrder(a, es, e); }
    if Deleted(es, e) { DeletedByAnyOrder(es, a, e); }
    if NamedAfter(a, e) {
      var j: nat :| j < |a| && NamesAfter(a, e, j);
      var k :| 0 <= k < |es| && es[k] == a[j];
      var i :| 0 <= i < |es| && Wins(es, i) && es[i] == e;
      assert Kept(es, es[i]) && NamesByHash(es[k], es[i]);
    }
  }

  /**
   * Order independence. Two runs of writes that submit the same set of events, in any orders and
   * with any repetitions, end with the same events and hidden flags.
   */
  lemma OrderIndependence(a: seq<Op>, b: seq<Op>)
    requires NoExpiry(a) && NoExpiry(b) && SameEvents(Submitted(a), Submitted(b))
    requires Admissible(Submitted(a))
    requires UniqueNewest(Submitted(a)) && OneSignature(Submitted(a)) && SpellingsAgree(Submitted(a))
    ensures View(Run(a)) == View(Run(b))
  {
    forall e, h
      ensures (e, h) in View(Run(a)) <==> (e, h) in View(Run(b))
    {
      ViewByAnyOrder(Submitted(a), a, e, h);
      ViewByAnyOrder(Submitted(a), b, e, h);
    }
  }

  /** Timestamps tell the events of a slot apart. */
  predicate DistinctTimes(es: seq<Event>) {
    forall i, j :: 0 <= i < |es| && 0 <= j < |es| && SlotOf(es[i]).Some? && SlotOf(es[i]) == SlotOf(es[j]) ==>
                     es[i].createdAt == es[j].createdAt ==> es[i] == es[j]
  }

  /** Deletion events spell the hashes they name in lowercase. */
  predicate LowercaseTargets(es: seq<Event>) {
    forall i, v :: 0 <= i < |es| && es[i].kind == 5 && v in TagValuesByName(es[i].tags, "e") && |v| == 64 && IsHex(v) ==>
                     IsLowerHex(v)
  }

  /** For lowercase targets, naming an event by hash and naming it by text are the same. */
  lemma NamesHashIffNamesId(es: seq<Event>, j: nat, e: Event)
    requires LowercaseTargets(es) && j < |es| && IsCanonical(e.id)
    ensures NamesByHash(es[j], e) <==> Deletes(es[j], e)
  {
    if NamesByHash(es[j], e) {
      var v :| v in TagValuesByName(es[j].tags, "e") && |v| == 64 && IsHex(v) && Decode(v) == Decode(e.id);
      DecodeInjectiveOnLower(v, e.id);
    }
    if Deletes(es[j], e) { TextNamesHash(es[j], e); }
  }

  /** Equal ids mean equal events, signatures included. */
  predicate IdsIdentify(es: seq<Event>) {
    forall i, j :: 0 <= i < |es| && 0 <= j < |es| && Decode(es[i].id) == Decode(es[j].id) ==> es[i] == es[j]
  }

  /** One signature per id, distinct timestamps and lowercase targets are enough. */
  lemma EnoughForOrder(es: seq<Event>)
    requires AllSound(es) && IdsIdentify(es) && DistinctTimes(es) && LowercaseTargets(es)
    ensures UniqueNewest(es) && OneSignature(es) && SpellingsAgree(es)
  {
    forall i, j | 0 <= i < |es| && 0 <= j < |es| && NamesByHash(es[j], es[i])
      ensures Deletes(es[j], es[i])
    {
      NamesHashIffNamesId(es, j, es[i]);
    }
  }

  // ---------------------------------------------------------------------------------------
  // Necessary
  // ---------------------------------------------------------------------------------------

  /** Submitting these events, one after the other. */
  function WritesOf(es: seq<Event>): seq<Op> {
    if es == [] then [] else WritesOf(es[..|es| - 1]) + [Write(es[|es| - 1], 0)]
  }

  lemma WriteSubmits(ops: seq<Op>, e: Event)
    requires NoExpiry(ops) && e == Serialized(e)
    ensures NoExpiry(ops + [Write(e, 0)]) && Submitted(ops + [Write(e, 0)]) == Submitted(ops) + [e]
  {
    SnocRun(ops, Write(e, 0));
  }

  lemma {:induction false} WritesSubmit(es: seq<Event>)
    requires forall i :: 0 <= i < |es| ==> es[i] == Serialized(es[i])
    ensures NoExpiry(WritesOf(es)) && Submitted(WritesOf(es)) == es
  {
    if es != [] {
      var before, last := es[..|es| - 1], es[|es| - 1];
      WritesSubmit(before);
      WriteSubmits(WritesOf(before), last);
      assert es == before + [last];
    }
  }

  /** All runs that submit exactly these events end with the same view. */
  ghost predicate AllOrdersAgree(es: seq<Event>) {
    forall a: seq<Op>, b: seq<Op> ::
      NoExpiry(a) && NoExpiry(b) && SameEvents(Submitted(a), es) && SameEvents(Submitted(b), es) ==>
        View(Run(a)) == View(Run(b))
  }

  /** Two orders of the same events have the same view, if all have. */
  lemma TwoOrders(es: seq<Event>, a: seq<Event>, b: seq<Event>, e: Event, h: bool)
    requires Admissible(es) && AllOrdersAgree(es) && SameEvents(a, es) && SameEvents(b, es)
    requires Kept(a, e) && h == HiddenBy(a, e)
    ensures Kept(b, e) && h == HiddenBy(b, e)
  {
    SameAdmissible(es, a);
    SameAdmissible(es, b);
    WritesSubmit(a);
    WritesSubmit(b);
    ViewExactly(WritesOf(a), e, h);
    ViewExactly(WritesOf(b), e, h);
    assert View(Run(WritesOf(a))) == View(Run(WritesOf(b)));
  }

  lemma SameWithFirst(x: Event, es: seq<Event>)
    requires x in es
    ensures SameEvents([x] + es, es)
  {
    var all := [x] + es;
    forall i | 0 <= i < |es|
      ensures es[i] in all
    {
      assert all[i + 1] == es[i];
    }
  }

  /** A newest event of its slot that arrives first is kept; another as new is not. */
  lemma FirstOfNewestKept(es: seq<Event>, i: nat, j: nat)
    requires i < |es| && j < |es| && SlotOf(es[i]).Some? && SlotOf(es[i]) == SlotOf(es[j])
    requires IsNewest(es, i) && IsNewest(es, j) && es[i] != es[j]
    ensures Kept([es[i]] + es, es[i]) && !Kept([es[j]] + es, es[i])
  {
    var a, b := [es[i]] + es, [es[j]] + es;
    assert Wins(a, 0);
    assert b[0] == es[j];
    assert forall k :: 0 <= k < |b| && b[k] == es[i] ==> !Wins(b, k);
  }

  lemma AgreeingHaveUniqueNewest(es: seq<Event>)
    requires Admissible(es) && AllOrdersAgree(es)
    ensures UniqueNewest(es)
  {
    forall i, j | 0 <= i < |es| && 0 <= j < |es| && IsNewest(es, i) && IsNewest(es, j)
                  && SlotOf(es[i]).Some? && SlotOf(es[i]) == SlotOf(es[j])
      ensures es[i] == es[j]
    {
      if es[i] != es[j] {
        FirstOfNewestKept(es, i, j);
        SameWithFirst(es[i], es);
        SameWithFirst(es[j], es);
        TwoOrders(es, [es[i]] + es, [es[j]] + es, es[i], HiddenBy([es[i]] + es, es[i]));
      }
    }
  }

  /** The first copy of an id is kept; another copy after it is not. */
  lemma FirstCopyKept(es: seq<Event>, i: nat, j: nat)
    requires i < |es| && j < |es| && SlotOf(es[i]).None? && Decode(es[i].id) == Decode(es[j].id) && es[i] != es[j]
    ensures Kept([es[i]] + es, es[i]) && !Kept([es[j]] + es, es[i])
  {
    var a, b := [es[i]] + es, [es[j]] + es;
    assert Wins(a, 0);
    assert b[0] == es[j];
    assert forall k :: 0 <= k < |b| && b[k] == es[i] ==> !Wins(b, k);
  }

  lemma AgreeingHaveOneSignature(es: seq<Event>)
    requires Admissible(es) && AllOrdersAgree(es)
    ensures OneSignature(es)
  {
    forall i, j | 0 <= i < |es| && 0 <= j < |es| && SlotOf(es[i]).None? && Decode(es[i].id) == Decode(es[j].id)
      ensures es[i] == es[j]
    {
      if es[i] != es[j] {
        FirstCopyKept(es, i, j);
        SameWithFirst(es[i], es);
        SameWithFirst(es[j], es);
        TwoOrders(es, [es[i]] + es, [es[j]] + es, es[i], HiddenBy([es[i]] + es, es[i]));
      }
    }
  }

  /** The events other than `e`. */
  function Others(es: seq<Event>, e: Event): seq<Event> {
    if es == [] then []
    else if es[0] == e then Others(es[1..], e)
    else [es[0]] + Others(es[1..], e)
  }

  lemma {:induction false} OthersMembers(es: seq<Event>, e: Event)
    ensures forall x :: x in Others(es, e) <==> x in es && x != e
  {
    if es != [] {
      OthersMembers(es[1..], e);
      assert es == [es[0]] + es[1..];
    }
  }

  lemma NamesAfterFirst(all: seq<Event>, k: nat)
    requires k < |all| && NamesByHash(all[k], all[0])
    requires forall i :: 0 <= i < k ==> Decode(all[i].id) != Decode(all[k].id)
    ensures NamesAfter(all, all[0], k)
  {
    assert all[..k][0] == all[0];
  }

  lemma FirstNamer(all: seq<Event>, j: nat) returns (k: nat)
    requires IdsNameFields(all) && j < |all| && Decode(all[j].id).Some? && NamesByHash(all[j], all[0])
    ensures NamesAfter(all, all[0], k)
  {
    k := FirstOfId(all, j);
    FieldsDecide(all[k], all[j], all[0]);
    NamesAfterFirst(all, k);
  }

  lemma FirstAdmissible(es: seq<Event>, e: Event)
    requires e in es && Admissible(es)
    ensures IdsNameFields([e] + es)
  {
    SameWithFirst(e, es);
    SameAdmissible(es, [e] + es);
  }

  lemma SoundDecodes(es: seq<Event>, j: nat)
    requires AllSound(es) && j < |es|
    ensures Decode(es[j].id).Some?
  {
    assert Sound(es[j]);
  }

  /** An event that arrives first is hidden by whoever names its hash. */
  lemma HiddenWhenFirst(es: seq<Event>, e: Event, j: nat)
    requires IdsNameFields([e] + es) && j < |es| && Decode(es[j].id).Some? && NamesByHash(es[j], e)
    ensures NamedAfter([e] + es, e)
  {
    var all := [e] + es;
    assert all[0] == e && all[j + 1] == es[j];
    var k := FirstNamer(all, j + 1);
  }

  /** An event that arrives last is hidden only by text. */
  lemma HiddenWhenLast(es: seq<Event>, e: Event)
    requires e in es
    ensures SameEvents(Others(es, e) + [e], es)
    ensures HiddenBy(Others(es, e) + [e], e) ==> Deleted(es, e)
  {
    var all := Others(es, e) + [e];
    OthersMembers(es, e);
    forall i | 0 <= i < |es|
      ensures es[i] in all
    {
      assert es[i] in Others(es, e) || es[i] == all[|all| - 1];
    }
    forall i | 0 <= i < |all|
      ensures all[i] in es
    {
      assert all[i] in Others(es, e) || all[i] == e;
    }
    DeletedSnoc(Others(es, e), e, e);
    NamedAfterSnoc(Others(es, e), e, e);
    NotNamedBefore(Others(es, e), e);
    if Deleted(all, e) { DeletedByAnyOrder(all, es, e); }
  }

  lemma AgreeingSpellings(es: seq<Event>)
    requires Admissible(es) && AllOrdersAgree(es) && UniqueNewest(es) && OneSignature(es)
    ensures SpellingsAgree(es)
  {
    forall i, j | 0 <= i < |es| && 0 <= j < |es| && Kept(es, es[i]) && NamesByHash(es[j], es[i])
      ensures Deleted(es, es[i])
    {
      var e := es[i];
      var first, last := [e] + es, Others(es, e) + [e];
      FirstAdmissible(es, e);
      SoundDecodes(es, j);
      HiddenWhenFirst(es, e, j);
      HiddenWhenLast(es, e);
      SameWithFirst(e, es);
      SameUniqueNewest(es, first);
      SameOneSignature(es, first);
      KeptByAnyOrder(es, first, e);
      TwoOrders(es, first, last, e, true);
    }
  }

  /**
   * Exactly when the order does not matter. All runs that submit the same events end with the same
   * view exactly when every slot has one newest event, every id without a slot one signature, and
   * every kept event whose hash a deletion names is named by text by some deletion.
   */
  lemma OrderIndependenceExactly(es: seq<Event>)
    requires Admissible(es)
    ensures AllOrdersAgree(es) <==> UniqueNewest(es) && OneSignature(es) && SpellingsAgree(es)
  {
    if AllOrdersAgree(es) {
      AgreeingHaveUniqueNewest(es);
      AgreeingHaveOneSignature(es);
      AgreeingSpellings(es);
    }
    if UniqueNewest(es) && OneSignature(es) && SpellingsAgree(es) {
      forall a: seq<Op>, b: seq<Op> | NoExpiry(a) && NoExpiry(b) && SameEvents(Submitted(a), es) && SameEvents(Submitted(b), es)
        ensures View(Run(a)) == View(Run(b))
      {
        forall e, h
          ensures (e, h) in View(Run(a)) <==> (e, h) in View(Run(b))
        {
          ViewByAnyOrder(es, a, e, h);
          ViewByAnyOrder(es, b, e, h);
        }
      }
    }
  }

  // ---------------------------------------------------------------------------------------
  // One event and one deletion
  // ---------------------------------------------------------------------------------------

  /** The deletion names the event, but only with some letter of its id in uppercase. */
  predicate NamesInOtherSpelling(d: Event, e: Event) {
    NamesByHash(d, e) && !Deletes(d, e)
  }

  lemma AloneInSlot(e: Event, d: Event)
    requires d.kind == 5
    ensures Kept([e, d], e) && UniqueNewest([e, d])
  {
    assert SlotOf(d).None?;
    assert Wins([e, d], 0);
    assert [e, d][0] == e && [e, d][1] == d;
  }

  lemma PairSpellings(e: Event, d: Event)
    requires e.kind != 5 && d.kind == 5
    ensures SpellingsAgree([e, d]) <==> !NamesInOtherSpelling(d, e)
  {
    var es := [e, d];
    assert es[0] == e && es[1] == d;
    AloneInSlot(e, d);
    PairDeleted(e, d);
    if SpellingsAgree(es) {
      assert Kept(es, es[0]) && (NamesByHash(es[1], es[0]) ==> Deleted(es, es[0]));
    }
    if !NamesInOtherSpelling(d, e) {
      forall i, j | 0 <= i < |es| && 0 <= j < |es| && NamesByHash(es[j], es[i])
        ensures Deleted(es, es[i])
      {
        assert es[j] == d && es[i] == e;
      }
    }
  }

  lemma PairSignatures(e: Event, d: Event)
    requires IdsNameFields([e, d]) && Decode(e.id).Some? && e.kind != d.kind
    ensures OneSignature([e, d])
  {
    var es := [e, d];
    assert es[0] == e && es[1] == d;
    assert Decode(es[0].id) == Decode(es[1].id) ==> SameFields(es[0], es[1]);
  }

  lemma PairDeleted(e: Event, d: Event)
    requires e.kind != 5
    ensures Deleted([e, d], e) <==> Deletes(d, e)
  {
    assert [e, d][0] == e && [e, d][1] == d;
  }

  /**
   * The order of an event and a deletion matters exactly when the deletion names it in another
   * spelling only: the first path decodes the tag, the second compares text.
   */
  lemma DeletionOrderMatters(e: Event, d: Event)
    requires Admissible([e, d]) && e.kind != 5 && d.kind == 5
    ensures AllOrdersAgree([e, d]) <==> !NamesInOtherSpelling(d, e)
  {
    AloneInSlot(e, d);
    assert Sound([e, d][0]);
    PairSignatures(e, d);
    OrderIndependenceExactly([e, d]);
    PairSpellings(e, d);
  }

  /** An event and a deletion by the same author on which the two orders differ. */
  lemma DeletionOrderMattersForSome(e: Event, d: Event)
    requires e == Event(seq(64, _ => 'a'), seq(64, _ => 'c'), None, 7, 1, [], "", "", None)
    requires d == Event(seq(64, _ => 'b'), seq(64, _ => 'c'), None, 8, 5, [["e", seq(64, _ => 'A')]], "", "", None)
    ensures Admissible([e, d]) && !AllOrdersAgree([e, d])
  {
    var upper := d.tags[0][1];
    assert d.tags[1..] == [];
    assert TagValuesByName(d.tags, "e") == [upper];
    assert e.id[0] == 'a' && upper[0] == 'A' && d.id[0] == 'b';
    assert Decode(upper) == Decode(e.id) by {
      assert Decode(upper).value == Decode(e.id).value;
    }
    assert FirstTagValue(d.tags, "expiration") == None && FirstTagValue(e.tags, "expiration") == None;
    assert Decode(e.id) != Decode(d.id) by {
      assert Decode(e.id).value[0] != Decode(d.id).value[0];
    }
    DeletionOrderMatters(e, d);
  }

  lemma CopiesAdmissible(e: Event, sig: string)
    requires Sound(e) && e == Serialized(e)
    ensures Admissible([e, e.(sig := sig)])
  {
    var es := [e, e.(sig := sig)];
    assert forall i :: 0 <= i < |es| ==> es[i] == e.(sig := es[i].sig);
  }

  lemma CopiesDiffer(e: Event, sig: string)
    requires sig != e.sig
    ensures !(UniqueNewest([e, e.(sig := sig)]) && OneSignature([e, e.(sig := sig)]))
  {
    var es := [e, e.(sig := sig)];
    assert es[0] == e && es[1] == e.(sig := sig);
    FieldsDecide(es[0], es[1], e);
    assert forall k :: 0 <= k < |es| ==> es[k].createdAt == e.createdAt;
    assert IsNewest(es, 0) && IsNewest(es, 1);
  }

  /** Two signatures for one id, of any event: which of them is kept depends on the order. */
  lemma SignatureOrderMatters(e: Event, sig: string)
    requires Sound(e) && e == Serialized(e) && sig != e.sig
    ensures Admissible([e, e.(sig := sig)]) && !AllOrdersAgree([e, e.(sig := sig)])
  {
    CopiesAdmissible(e, sig);
    CopiesDiffer(e, sig);
    OrderIndependenceExactly([e, e.(sig := sig)]);
  }
}
