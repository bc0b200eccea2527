/**
 * The store after any sequence of writes, in closed form over the submissions: the first-arrived
 * among the newest of every slot, hidden exactly when a deletion names it by text, or by hash and
 * arrived after it.
 */
module StoreRuns {
  import opened Common
  import opened Events
  import opened Hex
  import opened EventTables
  import opened StoreInvariants
  import opened StoreEffect

  /** The events submitted so far, as stored. */
  function Submitted(ops: seq<Op>): seq<Event> {
    if ops == [] then []
    else
      var before := Submitted(ops[..|ops| - 1]);
      match ops[|ops| - 1]
      case Write(e, _) => before + [Serialized(e)]
      case Expire(_) => before
  }

  predicate NoExpiry(ops: seq<Op>) {
    forall i :: 0 <= i < |ops| ==> ops[i].Write?
  }

  predicate AllStorable(es: seq<Event>) {
    forall i :: 0 <= i < |es| ==> Storable(es[i])
  }

  predicate AllSound(es: seq<Event>) {
    forall i :: 0 <= i < |es| ==> Sound(es[i])
  }

  /** The fields that the id of an event is the hash of. */
  predicate SameFields(d: Event, e: Event) {
    d.pubkey == e.pubkey && d.createdAt == e.createdAt && d.kind == e.kind && d.tags == e.tags && d.content == e.content
  }

  /** Equal ids mean equal fields; the signatures may differ. */
  predicate IdsNameFields(es: seq<Event>) {
    forall i, j :: 0 <= i < |es| && 0 <= j < |es| && Decode(es[i].id).Some? && Decode(es[i].id) == Decode(es[j].id) ==>
                     SameFields(es[i], es[j])
  }

  /** No submission has the id of `e`. */
  predicate NewId(es: seq<Event>, e: Event) {
    forall j :: 0 <= j < |es| ==> Decode(es[j].id) != Decode(e.id)
  }

  /**
   * The i-th submission is the first-arrived among the newest of its slot, or without a slot the
   * first of its id.
   */
  predicate Wins(es: seq<Event>, i: nat) {
    i < |es|
    && if SlotOf(es[i]).Some? then
         forall j :: 0 <= j < |es| && SlotOf(es[j]) == SlotOf(es[i]) ==>
                       es[j].createdAt < es[i].createdAt || (es[j].createdAt == es[i].createdAt && i <= j)
       else
         forall j :: 0 <= j < i ==> Decode(es[j].id) != Decode(es[i].id)
  }

  /** The event is to be kept. */
  predicate Kept(es: seq<Event>, e: Event) {
    exists i :: 0 <= i < |es| && Wins(es, i) && es[i] == e
  }

  /** Some submitted deletion names the event by text. */
  predicate Deleted(es: seq<Event>, e: Event) {
    exists j :: 0 <= j < |es| && Deletes(es[j], e)
  }

  /** The j-th submission is the first arrival of a deletion that names `e` by hash, after `e`. */
  predicate NamesAfter(es: seq<Event>, e: Event, j: nat) {
    j < |es| && NamesByHash(es[j], e) && NewId(es[..j], es[j]) && e in es[..j]
  }

  predicate NamedAfter(es: seq<Event>, e: Event) {
    exists j: nat :: j < |es| && NamesAfter(es, e, j)
  }

  /** What hides an event: a deletion by text at any time, or one by hash that came later. */
  predicate HiddenBy(es: seq<Event>, e: Event) {
    Deleted(es, e) || NamedAfter(es, e)
  }

  predicate Stores(t: Tables, e: Event) {
    exists id :: id in t.events && t.events[id].content == e
  }

  /** The rows are exactly the kept events. */
  predicate ContentForm(es: seq<Event>, t: Tables) {
    && (forall id :: id in t.events ==> Kept(es, t.events[id].content))
    && (forall i :: 0 <= i < |es| && Wins(es, i) ==> Stores(t, es[i]))
  }

  predicate HiddenForm(es: seq<Event>, t: Tables) {
    forall id :: id in t.events ==> t.events[id].hidden == HiddenBy(es, t.events[id].content)
  }

  predicate ClosedForm(es: seq<Event>, t: Tables) {
    ContentForm(es, t) && HiddenForm(es, t)
  }

  // ---------------------------------------------------------------------------------------
  // One more submission
  // ---------------------------------------------------------------------------------------

  lemma WinsBefore(es: seq<Event>, s: Event, i: nat)
    requires i < |es|
    ensures Wins(es + [s], i) <==>
              Wins(es, i) && (SlotOf(s).Some? && SlotOf(s) == SlotOf(es[i]) ==> s.createdAt <= es[i].createdAt)
  {
    var all := es + [s];
    assert all[i] == es[i] && all[|es|] == s;
    assert forall j :: 0 <= j < |es| ==> all[j] == es[j];
    if Wins(all, i) && SlotOf(es[i]).Some? {
      forall j | 0 <= j < |es| && SlotOf(es[j]) == SlotOf(es[i])
        ensures es[j].createdAt < es[i].createdAt || (es[j].createdAt == es[i].createdAt && i <= j)
      {
        assert all[j] == es[j];
      }
    }
    if Wins(all, i) && SlotOf(es[i]).None? {
      forall j | 0 <= j < i
        ensures Decode(es[j].id) != Decode(es[i].id)
      {
        assert all[j] == es[j];
      }
    }
  }

  lemma WinsLast(es: seq<Event>, s: Event)
    ensures Wins(es + [s], |es|) <==>
              if SlotOf(s).Some? then
                forall j :: 0 <= j < |es| && SlotOf(es[j]) == SlotOf(s) ==> es[j].createdAt < s.createdAt
              else NewId(es, s)
  {
    var all := es + [s];
    assert all[|es|] == s;
    if Wins(all, |es|) {
      forall j | 0 <= j < |es|
        ensures SlotOf(s).Some? && SlotOf(es[j]) == SlotOf(s) ==> es[j].createdAt < s.createdAt
        ensures SlotOf(s).None? ==> Decode(es[j].id) != Decode(s.id)
      {
        assert all[j] == es[j];
      }
    }
  }

  lemma DeletedSnoc(es: seq<Event>, s: Event, e: Event)
    ensures Deleted(es + [s], e) <==> Deleted(es, e) || Deletes(s, e)
  {
    var all := es + [s];
    if j :| 0 <= j < |es| && Deletes(es[j], e) {
      assert all[j] == es[j];
    }
    assert all[|es|] == s;
  }

  lemma NamedAfterSnoc(es: seq<Event>, s: Event, e: Event)
    ensures NamedAfter(es + [s], e) <==> NamedAfter(es, e) || (NamesByHash(s, e) && NewId(es, s) && e in es)
  {
    var all := es + [s];
    assert all[|es|] == s && all[..|es|] == es;
    assert NamesAfter(all, e, |es|) <==> NamesByHash(s, e) && NewId(es, s) && e in es;
    forall j: nat | j < |es|
      ensures NamesAfter(all, e, j) <==> NamesAfter(es, e, j)
    {
      assert all[j] == es[j] && all[..j] == es[..j];
    }
    if NamedAfter(es, e) {
      var j: nat :| j < |es| && NamesAfter(es, e, j);
      assert NamesAfter(all, e, j);
    }
    if NamedAfter(all, e) {
      var j: nat :| j < |all| && NamesAfter(all, e, j);
      assert j < |es| ==> NamesAfter(es, e, j);
    }
  }

  /** Every slot that was submitted to has a winner at least as new as any submission. */
  lemma {:induction false} WinnerExists(es: seq<Event>, j: nat) returns (i: nat)
    requires j < |es| && SlotOf(es[j]).Some?
    ensures i < |es| && Wins(es, i) && SlotOf(es[i]) == SlotOf(es[j]) && es[j].createdAt <= es[i].createdAt
  {
    var n := |es| - 1;
    var before, s := es[..n], es[n];
    assert es == before + [s];
    WinsLast(before, s);
    if Wins(es, n) && SlotOf(s) == SlotOf(es[j]) {
      i := n;
    } else {
      // either the last submission is of another slot, or an earlier one of the slot is as new
      var k := j;
      if SlotOf(s) == SlotOf(es[j]) {
        k :| 0 <= k < n && SlotOf(before[k]) == SlotOf(s) && before[k].createdAt >= s.createdAt;
      }
      i := WinnerExists(before, k);
      assert before[i] == es[i] && before[k] == es[k];
      WinsBefore(before, s, i);
      if j < n {
        assert before[j] == es[j];
      }
    }
  }

  /** Signatures play no part in slots and deletions. */
  lemma FieldsDecide(c: Event, s: Event, x: Event)
    requires SameFields(c, s)
    ensures SlotOf(c) == SlotOf(s) && Deletes(c, x) == Deletes(s, x) && NamesByHash(c, x) == NamesByHash(s, x)
  {
  }

  /** The first submission of an id. */
  lemma {:induction false} FirstOfId(es: seq<Event>, j: nat) returns (i: nat)
    requires j < |es|
    ensures i <= j && Decode(es[i].id) == Decode(es[j].id)
    ensures forall k :: 0 <= k < i ==> Decode(es[k].id) != Decode(es[i].id)
    decreases j
  {
    if k: nat :| k < j && Decode(es[k].id) == Decode(es[j].id) {
      i := FirstOfId(es, k);
    } else {
      i := j;
    }
  }

  /** An event without a slot is represented by the first of its id. */
  lemma Representative(es: seq<Event>, j: nat) returns (i: nat)
    requires j < |es| && IdsNameFields(es) && Decode(es[j].id).Some? && SlotOf(es[j]).None?
    ensures i < |es| && Wins(es, i) && Decode(es[i].id) == Decode(es[j].id) && SameFields(es[i], es[j])
  {
    i := FirstOfId(es, j);
    FieldsDecide(es[i], es[j], es[j]);
  }

  /** What the refusal of `s` tells: an earlier submission stands in its place. */
  predicate StandsFor(c: Event, s: Event) {
    if SlotOf(s).Some? then SlotOf(c) == SlotOf(s) && c.createdAt >= s.createdAt
    else Decode(c.id) == Decode(s.id) && SameFields(c, s)
  }

  /** Whoever is stood for hides nothing new. */
  lemma StoodForHides(es: seq<Event>, s: Event, c: Event, x: Event)
    requires StandsFor(c, s) && c in es
    ensures HiddenBy(es + [s], x) == HiddenBy(es, x)
  {
    DeletedSnoc(es, s, x);
    NamedAfterSnoc(es, s, x);
    var k :| 0 <= k < |es| && es[k] == c;
    if s.kind == 5 {
      assert SlotOf(s).None?;
      FieldsDecide(c, s, x);
    }
  }

  lemma RefusedStep(es: seq<Event>, s: Event, t: Tables, c: Event)
    requires ContentForm(es, t) && Stores(t, c) && StandsFor(c, s)
    ensures ContentForm(es + [s], t)
    ensures HiddenForm(es, t) ==> HiddenForm(es + [s], t)
  {
    var id0 :| id0 in t.events && t.events[id0].content == c;
    var k :| 0 <= k < |es| && Wins(es, k) && es[k] == c;
    WinsLast(es, s);
    forall id | id in t.events
      ensures Kept(es + [s], t.events[id].content)
      ensures HiddenBy(es + [s], t.events[id].content) == HiddenBy(es, t.events[id].content)
    {
      var i :| 0 <= i < |es| && Wins(es, i) && es[i] == t.events[id].content;
      WinsBefore(es, s, i);
      assert (es + [s])[i] == es[i];
      StoodForHides(es, s, c, es[i]);
    }
    forall i | 0 <= i < |es + [s]| && Wins(es + [s], i)
      ensures Stores(t, (es + [s])[i])
    {
      if i < |es| {
        WinsBefore(es, s, i);
      }
    }
  }

  lemma PrefixNamesFields(es: seq<Event>, s: Event)
    requires IdsNameFields(es + [s])
    ensures IdsNameFields(es)
    ensures forall j :: 0 <= j < |es| && Decode(s.id).Some? && Decode(es[j].id) == Decode(s.id) ==> SameFields(es[j], s)
  {
    var all := es + [s];
    assert forall j :: 0 <= j < |es| ==> all[j] == es[j];
    assert all[|es|] == s;
  }

  /** An accepted submission is newer than all earlier ones of its slot. */
  lemma AcceptedIsNewer(es: seq<Event>, s: Event, t: Tables, j: nat)
    requires ColumnsAgree(t) && ContentForm(es, t) && Newer(t, s)
    requires j < |es| && SlotOf(s).Some? && SlotOf(es[j]) == SlotOf(s)
    ensures es[j].createdAt < s.createdAt
  {
    var i := WinnerExists(es, j);
    var id :| id in t.events && t.events[id].content == es[i];
    assert Columns(t.events[id]);
    assert Rival(t, s, id);
  }

  /** The id of a submission without a slot is taken. */
  lemma RepresentedIsTaken(es: seq<Event>, t: Tables, j: nat)
    requires ColumnsAgree(t) && ContentForm(es, t) && IdsNameFields(es)
    requires j < |es| && Decode(es[j].id).Some? && SlotOf(es[j]).None?
    ensures HashTaken(t, Decode(es[j].id).value)
  {
    var i := Representative(es, j);
    var id :| id in t.events && t.events[id].content == es[i];
    assert Columns(t.events[id]);
  }

  /** And its id is new. */
  lemma AcceptedIsNew(es: seq<Event>, s: Event, t: Tables, j: nat)
    requires Decode(s.id).Some? && ColumnsAgree(t) && ContentForm(es, t) && IdsNameFields(es + [s])
    requires Newer(t, s) && !HashTaken(t, Decode(s.id).value)
    requires j < |es|
    ensures Decode(es[j].id) != Decode(s.id)
  {
    PrefixNamesFields(es, s);
    if Decode(es[j].id) == Decode(s.id) {
      FieldsDecide(es[j], s, s);
      if SlotOf(s).Some? {
        AcceptedIsNewer(es, s, t, j);
      } else {
        RepresentedIsTaken(es, t, j);
      }
    }
  }

  /** Stored deletions are all the submitted ones, signatures aside: deletion events have no slot. */
  lemma DeletedIffDeletedIn(es: seq<Event>, s: Event, t: Tables)
    requires ContentForm(es, t) && AllStorable(es) && IdsNameFields(es)
    ensures Deleted(es, s) <==> DeletedIn(t, s)
  {
    if j :| 0 <= j < |es| && Deletes(es[j], s) {
      var i := Representative(es, j);
      FieldsDecide(es[i], es[j], s);
      var id :| id in t.events && t.events[id].content == es[i];
    }
    if id :| id in t.events && Deletes(t.events[id].content, s) {
      var i :| 0 <= i < |es| && Wins(es, i) && es[i] == t.events[id].content;
    }
  }

  /** Fields outside the serialized form play no part in slots and deletions. */
  lemma SerializedSame(e: Event, x: Event)
    ensures SlotOf(Serialized(e)) == SlotOf(e)
    ensures Deletes(e, x) == Deletes(Serialized(e), x) && Deletes(x, e) == Deletes(x, Serialized(e))
    ensures NamesByHash(e, x) == NamesByHash(Serialized(e), x)
    ensures Storable(Serialized(e)) <==> Storable(e)
    ensures Sound(Serialized(e)) <==> Sound(e)
  {
  }

  /** No earlier submission of the slot is as new. */
  predicate NewerThanAll(es: seq<Event>, e: Event) {
    SlotOf(e).Some? ==> forall j :: 0 <= j < |es| && SlotOf(es[j]) == SlotOf(e) ==> es[j].createdAt < e.createdAt
  }

  lemma AcceptedRow(es: seq<Event>, e: Event, t: Tables, id: nat)
    requires Decodable(e) && ContentForm(es, t) && NewerThanAll(es, e) && NewId(es, e)
    requires id in Survivors(t, e)
    ensures Kept(es + [Serialized(e)], Survivors(t, e)[id].content)
  {
    var s := Serialized(e);
    SerializedSame(e, e);
    if id == NewRowId(t.events.Keys) {
      WinsLast(es, s);
      assert (es + [s])[|es|] == s;
    } else {
      var c := t.events[id].content;
      var i :| 0 <= i < |es| && Wins(es, i) && es[i] == c;
      WinsBefore(es, s, i);
      assert (es + [s])[i] == c;
    }
  }

  lemma AcceptedKeeps(es: seq<Event>, e: Event, t: Tables, i: nat) returns (id: nat)
    requires Decodable(e) && ContentForm(es, t) && NewerThanAll(es, e)
    requires i <= |es| && Wins(es + [Serialized(e)], i)
    ensures id in Survivors(t, e) && Survivors(t, e)[id].content == (es + [Serialized(e)])[i]
  {
    var s := Serialized(e);
    SerializedSame(e, e);
    if i < |es| {
      WinsBefore(es, s, i);
      assert (es + [s])[i] == es[i];
      id :| id in t.events && t.events[id].content == es[i];
      assert !Rival(t, e, id);
    } else {
      id := NewRowId(t.events.Keys);
    }
  }

  lemma NewerSerialized(t: Tables, e: Event)
    ensures Newer(t, Serialized(e)) == Newer(t, e)
  {
    SerializedSame(e, e);
    assert forall id :: Rival(t, Serialized(e), id) == Rival(t, e, id);
  }

  lemma AcceptedFinds(es: seq<Event>, e: Event, t: Tables)
    requires Decodable(e) && ColumnsAgree(t) && ContentForm(es, t) && IdsNameFields(es + [Serialized(e)])
    requires Newer(t, e) && !HashTaken(t, Decode(e.id).value)
    ensures NewId(es, e) && NewerThanAll(es, e)
  {
    var s := Serialized(e);
    SerializedSame(e, e);
    NewerSerialized(t, e);
    forall j | 0 <= j < |es|
      ensures SlotOf(e).Some? && SlotOf(es[j]) == SlotOf(e) ==> es[j].createdAt < e.createdAt
      ensures Decode(es[j].id) != Decode(e.id)
    {
      AcceptedIsNew(es, s, t, j);
      if SlotOf(e).Some? && SlotOf(es[j]) == SlotOf(e) {
        AcceptedIsNewer(es, s, t, j);
      }
    }
  }

  lemma AcceptedStep(es: seq<Event>, e: Event, t: Tables, t': Tables)
    requires Decodable(e) && ColumnsAgree(t) && ContentForm(es, t) && IdsNameFields(es + [Serialized(e)])
    requires Newer(t, e) && !HashTaken(t, Decode(e.id).value)
    requires SameContents(t'.events, Survivors(t, e))
    ensures ContentForm(es + [Serialized(e)], t')
    ensures NewId(es, e) && NewerThanAll(es, e)
  {
    var s := Serialized(e);
    AcceptedFinds(es, e, t);
    forall id | id in t'.events
      ensures Kept(es + [s], t'.events[id].content)
    {
      AcceptedRow(es, e, t, id);
    }
    forall i | 0 <= i < |es + [s]| && Wins(es + [s], i)
      ensures Stores(t', (es + [s])[i])
    {
      var id := AcceptedKeeps(es, e, t, i);
    }
  }

  lemma DeletedInSerialized(t: Tables, e: Event)
    ensures DeletedIn(t, Serialized(e)) == DeletedIn(t, e)
  {
    forall d: Event
      ensures Deletes(d, Serialized(e)) == Deletes(d, e)
    {
      SerializedSame(e, d);
    }
  }

  /** The new row is hidden by a deletion that names it by text. */
  lemma NewRowHidden(es: seq<Event>, e: Event, t: Tables)
    requires ContentForm(es, t) && NewId(es, e) && AllStorable(es) && IdsNameFields(es)
    ensures HiddenBy(es + [Serialized(e)], Serialized(e)) <==> DeletedIn(t, e)
  {
    var s := Serialized(e);
    SerializedSame(e, s);
    DeletedSnoc(es, s, s);
    NamedAfterSnoc(es, s, s);
    NotNamedBefore(es, s);
    DeletedIffDeletedIn(es, s, t);
    DeletedInSerialized(t, e);
  }

  /** An old row is hidden if it was, or if the new event names it by hash. */
  lemma OldRowHidden(es: seq<Event>, e: Event, c: Event)
    requires Kept(es, c) && NewId(es, e) && IsCanonical(c.id)
    ensures HiddenBy(es + [Serialized(e)], c) <==> HiddenBy(es, c) || NamesByHash(e, c)
  {
    var s := Serialized(e);
    SerializedSame(e, c);
    DeletedSnoc(es, s, c);
    NamedAfterSnoc(es, s, c);
    if Deletes(s, c) { TextNamesHash(s, c); }
  }

  lemma AcceptedHidden(es: seq<Event>, e: Event, t: Tables, t': Tables)
    requires Decodable(e) && ClosedForm(es, t) && t'.events == Accepted(t, e)
    requires NewId(es, e) && AllStorable(es) && IdsNameFields(es)
    requires forall id :: id in t.events ==> IsCanonical(t.events[id].content.id)
    ensures HiddenForm(es + [Serialized(e)], t')
  {
    forall id | id in t'.events
      ensures t'.events[id].hidden == HiddenBy(es + [Serialized(e)], t'.events[id].content)
    {
      if id == NewRowId(t.events.Keys) {
        NewRowHidden(es, e, t);
      } else {
        OldRowHidden(es, e, t.events[id].content);
      }
    }
  }

  /** Nothing was named after an arrival that did not happen. */
  lemma NotNamedBefore(es: seq<Event>, s: Event)
    requires s !in es
    ensures !NamedAfter(es, s)
  {
  }

  /** What a refused event is refused for. */
  lemma RefusedBy(es: seq<Event>, e: Event, t: Tables) returns (c: Event)
    requires Decodable(e) && ColumnsAgree(t) && ContentForm(es, t) && IdsNameFields(es + [Serialized(e)])
    requires HashTaken(t, Decode(e.id).value) || !Newer(t, e)
    ensures Stores(t, c) && StandsFor(c, Serialized(e))
  {
    var s := Serialized(e);
    SerializedSame(e, e);
    if HashTaken(t, Decode(e.id).value) {
      var id :| id in t.events && t.events[id].hash == Decode(e.id).value;
      c := t.events[id].content;
      assert Columns(t.events[id]);
      var i :| 0 <= i < |es| && Wins(es, i) && es[i] == c;
      PrefixNamesFields(es, s);
      FieldsDecide(c, s, s);
    } else {
      var id :| id in t.events && Rival(t, e, id) && t.events[id].createdAt >= e.createdAt;
      c := t.events[id].content;
      assert Columns(t.events[id]);
    }
  }

  /** One write keeps the rows the kept events; a new row is reported only for a new event. */
  lemma ContentStep(es: seq<Event>, e: Event, tie: nat, t: Tables)
    requires Valid(t) && StorableRows(t) && ContentForm(es, t)
    requires Storable(e) && IdsNameFields(es + [Serialized(e)])
    ensures ContentForm(es + [Serialized(e)], Persist(t, e, tie).0)
    ensures Persist(t, e, tie).1 == Written(1) ==> NewId(es, e)
    ensures !Inserts(t, e) && HiddenForm(es, t) ==> HiddenForm(es + [Serialized(e)], Persist(t, e, tie).0)
  {
    ContentEffect(t, e, tie);
    assert ColumnsAgree(t);
    if Inserts(t, e) {
      AcceptedStep(es, e, t, Persist(t, e, tie).0);
    } else {
      var c := RefusedBy(es, e, t);
      RefusedStep(es, Serialized(e), t, c);
    }
  }

  // ---------------------------------------------------------------------------------------
  // Whole runs
  // ---------------------------------------------------------------------------------------

  lemma KeptAreStorable(es: seq<Event>, t: Tables)
    requires ContentForm(es, t)
    ensures AllStorable(es) ==> StorableRows(t)
    ensures AllSound(es) ==> StorableRows(t) && forall id :: id in t.events ==> IsCanonical(t.events[id].content.id)
  {
    forall id | id in t.events
      ensures exists i :: 0 <= i < |es| && es[i] == t.events[id].content
    {
      var i :| 0 <= i < |es| && Wins(es, i) && es[i] == t.events[id].content;
    }
  }

  lemma PrefixHypotheses(es: seq<Event>, s: Event)
    ensures AllStorable(es + [s]) ==> AllStorable(es) && Storable(s)
    ensures AllSound(es + [s]) ==> AllSound(es) && Sound(s)
    ensures IdsNameFields(es + [s]) ==> IdsNameFields(es)
  {
    var all := es + [s];
    assert forall i :: 0 <= i < |es| ==> all[i] == es[i];
    assert all[|es|] == s;
  }

  /**
   * Last writer wins. After any run of writes of storable events, the store holds exactly the
   * first-arrived among the newest of every slot, and without a slot the first of every id.
   */
  lemma {:induction false} LastWriterWins(ops: seq<Op>)
    requires NoExpiry(ops) && AllStorable(Submitted(ops)) && IdsNameFields(Submitted(ops))
    ensures ContentForm(Submitted(ops), Run(ops))
  {
    if ops != [] {
      var before, last := ops[..|ops| - 1], ops[|ops| - 1];
      PrefixHypotheses(Submitted(before), Serialized(last.e));
      LastWriterWins(before);
      RunValid(before);
      KeptAreStorable(Submitted(before), Run(before));
      SerializedSame(last.e, last.e);
      ContentStep(Submitted(before), last.e, last.tie, Run(before));
    }
  }

  lemma SnocRun(ops: seq<Op>, op: Op)
    ensures Run(ops + [op]) == Step(Run(ops), op)
    ensures op.Write? ==> Submitted(ops + [op]) == Submitted(ops) + [Serialized(op.e)]
  {
    assert (ops + [op])[..|ops|] == ops;
  }

  /** What the next write after a run of writes finds. */
  lemma RunReady(ops: seq<Op>)
    requires NoExpiry(ops) && AllStorable(Submitted(ops)) && IdsNameFields(Submitted(ops))
    ensures Valid(Run(ops)) && StorableRows(Run(ops)) && ContentForm(Submitted(ops), Run(ops))
  {
    LastWriterWins(ops);
    RunValid(ops);
    KeptAreStorable(Submitted(ops), Run(ops));
  }

  /**
   * Exactly what is hidden. After any run of writes, a row is hidden exactly when a submitted
   * deletion by its author names it by text, whichever of the two came first, or names its hash
   * in any spelling and arrived after it.
   */
  lemma {:induction false} HiddenExactly(ops: seq<Op>)
    requires NoExpiry(ops) && AllSound(Submitted(ops)) && IdsNameFields(Submitted(ops))
    ensures ClosedForm(Submitted(ops), Run(ops))
  {
    LastWriterWins(ops);
    if ops != [] {
      var before, last := ops[..|ops| - 1], ops[|ops| - 1];
      PrefixHypotheses(Submitted(before), Serialized(last.e));
      HiddenExactly(before);
      RunValid(before);
      KeptAreStorable(Submitted(before), Run(before));
      SerializedSame(last.e, last.e);
      HiddenStep(Submitted(before), last.e, last.tie, Run(before));
    }
  }

  lemma HiddenStep(es: seq<Event>, e: Event, tie: nat, t: Tables)
    requires Valid(t) && StorableRows(t) && ClosedForm(es, t) && AllStorable(es)
    requires forall id :: id in t.events ==> IsCanonical(t.events[id].content.id)
    requires Storable(e) && IdsNameFields(es + [Serialized(e)])
    ensures HiddenForm(es + [Serialized(e)], Persist(t, e, tie).0)
  {
    ContentStep(es, e, tie, t);
    if Inserts(t, e) {
      PersistEffect(t, e, tie);
      ContentEffect(t, e, tie);
      AcceptedFinds(es, e, t);
      PrefixNamesFields(es, Serialized(e));
      AcceptedHidden(es, e, t, Persist(t, e, tie).0);
    }
  }

  /** What a reader could see of the event table: the events with their hidden flags. */
  function View(t: Tables): set<(Event, bool)> {
    set id | id in t.events :: (t.events[id].content, t.events[id].hidden)
  }

  /** The view of a run is decided by its submissions. */
  lemma ViewExactly(ops: seq<Op>, e: Event, h: bool)
    requires NoExpiry(ops) && AllSound(Submitted(ops)) && IdsNameFields(Submitted(ops))
    ensures (e, h) in View(Run(ops)) <==> Kept(Submitted(ops), e) && h == HiddenBy(Submitted(ops), e)
  {
    HiddenExactly(ops);
    var es, t := Submitted(ops), Run(ops);
    if Kept(es, e) && h == HiddenBy(es, e) {
      var i :| 0 <= i < |es| && Wins(es, i) && es[i] == e;
      var id :| id in t.events && t.events[id].content == e;
      assert (t.events[id].content, t.events[id].hidden) in View(t);
    }
  }
}
