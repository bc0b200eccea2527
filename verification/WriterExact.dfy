/**
 * Exactly which parameterized events the writer can broadcast twice: in any company, those that
 * carry a d value at all; among events with at most one d value, those that carry more than one.
 */
module WriterExact {
  import opened Common
  import opened Events
  import opened Hex
  import opened EventTables
  import opened StoreInvariants
  import opened StoreEffect
  import opened StoreRuns
  import opened StoreSafety
  import opened StoreExact
  import opened StoreRefusal
  import opened Writer

  predicate NoDeletionRows(t: Tables) {
    forall id :: id in t.events ==> t.events[id].kind != 5
  }

  /** Among parameterized events every accepted write is reported as a new row. */
  lemma ParamReported(t: Tables, e: Event, tie: nat)
    requires Valid(t) && NoDeletionRows(t) && IsParamReplaceable(e.kind) && Inserts(t, e)
    ensures Persist(t, e, tie).1 == Written(1)
    ensures Valid(Persist(t, e, tie).0) && NoDeletionRows(Persist(t, e, tie).0)
    ensures Persist(t, e, tie).0.events.Keys <= t.events.Keys + {NewRowId(t.events.Keys)}
  {
    var r := Replaced(t, e, tie);
    ReplacedKeepsValid(t, e, tie);
    PersistKeepsValid(t, e, tie);
    forall id | id in r.events
      ensures r.events[id].kind != 5
    {
      ReplacedRows(t, e, tie, id);
    }
    if DeletionRecorded(r, Decode(e.pubkey).value, e.id) {
      var k: nat :| k < |r.tags| && IsDeletionTag(r, k, Decode(e.pubkey).value, e.id);
      TagRowCopies(r, k);
    }
  }

  /** An admitted event, met while the database is free. */
  function Arrival(e: Event): Incoming {
    Incoming(e, true, false, 0)
  }

  /** A parameterized event that the store takes is stored and broadcast. */
  lemma Accepts(w: State, e: Event)
    requires Valid(w.tables) && NoDeletionRows(w.tables) && IsParamReplaceable(e.kind) && Inserts(w.tables, e)
    ensures Handle(w, Arrival(e)).0 == State(Persist(w.tables, e, 0).0, w.sent + [e])
  {
    ParamReported(w.tables, e, 0);
  }

  lemma FirstArrival(e: Event)
    requires IsParamReplaceable(e.kind) && Decodable(e) && Bindable(e)
    ensures Work([Arrival(e)]) == State(Persist(EMPTY, e, 0).0, [e])
    ensures var t := Persist(EMPTY, e, 0).0;
            Valid(t) && NoDeletionRows(t) && t.events.Keys <= {1} && (1 in t.events <==> OwnDRows(e) <= 1)
            && (1 in t.events ==> t.events[1].content == Serialized(e))
  {
    WorkSnoc([], Arrival(e));
    assert [] + [Arrival(e)] == [Arrival(e)];
    Accepts(State(EMPTY, []), e);
    ParamReported(EMPTY, e, 0);
    OutlivesOwnWriteExactly(EMPTY, e, 0);
    ReplacedAlone(e);
  }

  lemma ReplacedAlone(e: Event)
    requires IsParamReplaceable(e.kind) && Decodable(e) && Bindable(e)
    ensures 1 in Persist(EMPTY, e, 0).0.events ==> Persist(EMPTY, e, 0).0.events[1].content == Serialized(e)
  {
    var ids := HidingIsPersist(EMPTY, e, 0);
    if 1 in Replaced(EMPTY, e, 0).events {
      ReplacedRows(EMPTY, e, 0, 1);
    }
  }

  /** A repeated own d value: the event has pruned itself, so it is taken again. */
  lemma RepeatedDRun(e: Event)
    requires IsParamReplaceable(e.kind) && Decodable(e) && Bindable(e) && OwnDRows(e) >= 2
    ensures Work([Arrival(e)] + [Arrival(e)]).sent == [e] + [e]
  {
    FirstArrival(e);
    WorkSnoc([Arrival(e)], Arrival(e));
    var t := Persist(EMPTY, e, 0).0;
    assert t.events == map[];
    assert Inserts(t, e) by {
      if ParamShadow(t, e) { ShadowNeedsD(t, e); }
    }
    Accepts(State(t, [e]), e);
  }

  /** `x` competes for a d value that `e` carries as a foreign one. */
  predicate TakesForeignD(e: Event, x: Event) {
    && IsParamReplaceable(e.kind) && x.kind == e.kind && Decode(x.pubkey) == Decode(e.pubkey)
    && OneValuedD(x) && DistinctParam(x).value in ForeignDs(e)
    && e.createdAt < x.createdAt
  }

  lemma ForeignInserts(e: Event, x: Event)
    requires Decodable(e) && Bindable(e) && Decodable(x) && Bindable(x) && Decode(x.id) != Decode(e.id)
    requires TakesForeignD(e, x) && OwnDRows(e) <= 1
    ensures Inserts(Persist(EMPTY, e, 0).0, x)
  {
    FirstArrival(e);
    var t := Persist(EMPTY, e, 0).0;
    assert Columns(t.events[1]);
    if ParamShadow(t, x) { ShadowNeedsD(t, x); }
  }

  lemma ForeignTaken(e: Event, x: Event)
    requires Decodable(e) && Bindable(e) && Decodable(x) && Bindable(x) && Decode(x.id) != Decode(e.id)
    requires TakesForeignD(e, x) && OwnDRows(e) <= 1
    ensures var t := Persist(EMPTY, e, 0).0; Valid(t) && NoDeletionRows(t) && Inserts(t, x)
    ensures var t := Persist(Persist(EMPTY, e, 0).0, x, 0).0;
            Valid(t) && NoDeletionRows(t)
            && forall id :: id in t.events ==> t.events[id].content == Serialized(x)
  {
    FirstArrival(e);
    ForeignInserts(e, x);
    var t := Persist(EMPTY, e, 0).0;
    ParamReported(t, x, 0);
    RemovesFirst(t, e, x);
    forall id | id in Persist(t, x, 0).0.events
      ensures Persist(t, x, 0).0.events[id].content == Serialized(x)
    {
      NewContent(t, x, id);
    }
  }

  lemma RemovesFirst(t: Tables, e: Event, x: Event)
    requires Valid(t) && 1 in t.events && t.events[1].content == Serialized(e) && Decodable(e)
    requires TakesForeignD(e, x) && Inserts(t, x)
    ensures 1 !in Persist(t, x, 0).0.events
  {
    assert Columns(t.events[1]);
    RemovesExactly(t, x, 0, 1);
  }

  lemma NewContent(t: Tables, x: Event, id: nat)
    requires Inserts(t, x) && id in Persist(t, x, 0).0.events && id == NewRowId(t.events.Keys)
    ensures Persist(t, x, 0).0.events[id].content == Serialized(x)
  {
    var ids := HidingIsPersist(t, x, 0);
    ReplacedRows(t, x, 0, id);
  }

  /** A newer event of the foreign slot removes it, so it is taken again. */
  lemma ForeignDRun(e: Event, x: Event)
    requires Decodable(e) && Bindable(e) && Decodable(x) && Bindable(x) && Decode(x.id) != Decode(e.id)
    requires TakesForeignD(e, x) && OwnDRows(e) <= 1
    ensures Work([Arrival(e)] + [Arrival(x)] + [Arrival(e)]).sent == [e] + [x] + [e]
  {
    FirstArrival(e);
    WorkSnoc([Arrival(e)], Arrival(x));
    WorkSnoc([Arrival(e)] + [Arrival(x)], Arrival(e));
    ForeignTaken(e, x);
    var t1 := Persist(EMPTY, e, 0).0;
    var t2 := Persist(t1, x, 0).0;
    Accepts(State(t1, [e]), x);
    TakenAgain(t2, e, x);
    Accepts(State(t2, [e] + [x]), e);
  }

  lemma TakenAgain(t: Tables, e: Event, x: Event)
    requires Valid(t) && forall id :: id in t.events ==> t.events[id].content == Serialized(x)
    requires Decodable(e) && Bindable(e) && Decode(x.id) != Decode(e.id) && TakesForeignD(e, x)
    ensures Inserts(t, e)
  {
    if ParamShadow(t, e) { ShadowNeedsD(t, e); }
    assert forall id :: id in t.events ==> Columns(t.events[id]);
  }

  /** An event that competes for the foreign d value `d`, one second newer than `e`. */
  function Competitor(e: Event, d: string): Event
    requires IsHex(e.id)
  {
    Event(OtherId(e.id), e.pubkey, None, e.createdAt + 1, e.kind, [["d", d]], "", "", None)
  }

  lemma CompetitorTakes(e: Event, d: string)
    requires IsParamReplaceable(e.kind) && Decodable(e) && e.createdAt + 1 < TWO_POW_63 && d in ForeignDs(e)
    ensures var x := Competitor(e, d);
            Decodable(x) && Bindable(x) && Decode(x.id) != Decode(e.id) && TakesForeignD(e, x)
  {
    var x := Competitor(e, d);
    OtherIdDiffers(e.id);
    assert x.tags[1..] == [];
    assert FirstTagValue(x.tags, "expiration") == None;
    assert TagValuesByName(x.tags, "d") == [d] && DistinctParam(x) == Some(d);
  }

  /** Without a repeated own d value, more d values include a foreign one. */
  lemma ForeignDExists(e: Event)
    requires IsParamReplaceable(e.kind) && !AtMostOneD(e) && OwnDRows(e) <= 1
    ensures ForeignDs(e) != {}
  {
    var values, own := TagValuesByName(e.tags, "d"), DistinctParam(e).value;
    if |values| == 1 {
      assert values == [values[0]];
      assert values[0] in ForeignDs(e);
    } else if values[0] != own {
      assert values[0] in ForeignDs(e);
    } else {
      if values[1] == own { TwiceIn(values, 0, 1); }
      assert values[1] in ForeignDs(e);
    }
  }

  /**
   * Only `e` may carry more d values. (Submitted events are in serialized form.)
   */
  predicate OthersAtMostOneD(es: seq<Event>, e: Event) {
    IdsNameFields(es) && forall i :: 0 <= i < |es| && es[i] != Serialized(e) ==> AtMostOneD(es[i])
  }

  lemma ArrivalSubmits(xs: seq<Incoming>, e: Event)
    requires IsParamReplaceable(e.kind)
    ensures Submitted(Writes(xs + [Arrival(e)])) == Submitted(Writes(xs)) + [Serialized(e)]
  {
    WorkSnoc(xs, Arrival(e));
    SnocRun(Writes(xs), Write(e, 0));
  }

  lemma FirstSubmits(e: Event)
    requires IsParamReplaceable(e.kind)
    ensures Submitted(Writes([Arrival(e)])) == [Serialized(e)]
  {
    ArrivalSubmits([], e);
    assert [] + [Arrival(e)] == [Arrival(e)];
  }

  lemma RepeatedDInOrder(e: Event)
    requires IsParamReplaceable(e.kind)
    ensures OthersAtMostOneD(Submitted(Writes([Arrival(e)] + [Arrival(e)])), e)
  {
    FirstSubmits(e);
    ArrivalSubmits([Arrival(e)], e);
    AloneInOrder(Serialized(e));
  }

  lemma AloneInOrder(e: Event)
    requires e == Serialized(e)
    ensures OthersAtMostOneD([e] + [e], e)
  {
    var es := [e] + [e];
    assert forall i :: 0 <= i < |es| ==> es[i] == e;
  }

  lemma ForeignDInOrder(e: Event, x: Event)
    requires IsParamReplaceable(e.kind) && x.kind == e.kind && OneValuedD(x) && Decode(x.id) != Decode(e.id)
    ensures OthersAtMostOneD(Submitted(Writes([Arrival(e)] + [Arrival(x)] + [Arrival(e)])), e)
  {
    FirstSubmits(e);
    ArrivalSubmits([Arrival(e)], x);
    ArrivalSubmits([Arrival(e)] + [Arrival(x)], e);
    PairInOrder(Serialized(e), Serialized(x));
    assert DistinctParam(Serialized(x)) == DistinctParam(x);
  }

  lemma PairInOrder(e: Event, x: Event)
    requires Decode(x.id) != Decode(e.id) && AtMostOneD(x) && e == Serialized(e)
    ensures OthersAtMostOneD([e] + [x] + [e], e)
  {
    var es := [e] + [x] + [e];
    assert forall i :: 0 <= i < |es| ==> es[i] == e || es[i] == x;
  }

  /**
   * A parameterized event with more d values than its own is broadcast twice in some run: sent
   * twice, or with a newer event of a foreign slot in between.
   */
  lemma BroadcastAgain(e: Event) returns (xs: seq<Incoming>)
    requires IsParamReplaceable(e.kind) && Decodable(e) && Bindable(e) && e.createdAt + 1 < TWO_POW_63
    requires !AtMostOneD(e)
    ensures OthersAtMostOneD(Submitted(Writes(xs)), e)
    ensures Work(xs).sent == [e, e] || exists x :: Work(xs).sent == [e, x, e]
  {
    if OwnDRows(e) >= 2 {
      xs := [Arrival(e)] + [Arrival(e)];
      RepeatedDRun(e);
      RepeatedDInOrder(e);
    } else {
      ForeignDExists(e);
      var d :| d in ForeignDs(e);
      var x := Competitor(e, d);
      CompetitorTakes(e, d);
      xs := [Arrival(e)] + [Arrival(x)] + [Arrival(e)];
      ForeignDRun(e, x);
      ForeignDInOrder(e, x);
      assert Work(xs).sent == [e, x, e];
    }
  }

  ghost predicate NeverRepeated(e: Event) {
    forall xs: seq<Incoming> :: OthersAtMostOneD(Submitted(Writes(xs)), e) ==> NoRepeats(Work(xs).sent)
  }

  /**
   * Exactly when a parameterized event cannot make the writer repeat itself: no run in which the
   * other events have at most one d value broadcasts an id twice exactly when this one has at
   * most one too.
   */
  lemma BroadcastOnceExactly(e: Event)
    requires IsParamReplaceable(e.kind) && Decodable(e) && Bindable(e) && e.createdAt + 1 < TWO_POW_63
    ensures NeverRepeated(e) <==> AtMostOneD(e)
  {
    if AtMostOneD(e) {
      assert AtMostOneD(Serialized(e)) by { assert DistinctParam(Serialized(e)) == DistinctParam(e); }
      forall xs: seq<Incoming> | OthersAtMostOneD(Submitted(Writes(xs)), e)
        ensures NoRepeats(Work(xs).sent)
      {
        BroadcastAtMostOnce(xs);
      }
    } else {
      var xs := BroadcastAgain(e);
      var sent := Work(xs).sent;
      assert sent[0] == e && sent[|sent| - 1] == e && |sent| > 1;
      assert !NoRepeats(sent);
    }
  }

  /** An instance with a foreign d value: the store after e and x has lost e, which is then taken again. */
  lemma ForeignDInstance(e: Event, x: Event)
    requires e == Event(seq(64, _ => 'a'), seq(64, _ => 'c'), None, 7, 30000, [["d", "p"], ["d", "q"]], "", "", None)
    requires x == Event(seq(64, _ => 'b'), seq(64, _ => 'c'), None, 8, 30000, [["d", "q"]], "", "", None)
    ensures OwnDRows(e) == 1 && SlotOf(e) != SlotOf(x)
    ensures Work([Arrival(e)] + [Arrival(x)] + [Arrival(e)]).sent == [e] + [x] + [e]
  {
    assert e.tags[1..] == x.tags && x.tags[1..] == [];
    assert TagValuesByName(x.tags, "d") == ["q"] && TagValuesByName(e.tags, "d") == ["p"] + ["q"];
    assert DistinctParam(e) == Some("p") && DistinctParam(x) == Some("q");
    assert "p"[0] != "q"[0];
    assert "q" in ForeignDs(e);
    assert FirstTagValue(x.tags, "expiration") == None && FirstTagValue(e.tags, "expiration") == None;
    assert Decode(e.id).value[0] != Decode(x.id).value[0];
    ForeignDRun(e, x);
  }

  // ---------------------------------------------------------------------------------------
  // In any company
  // ---------------------------------------------------------------------------------------

  /** A newer event of the slot of `d`, which it names twice. */
  function Repeater(e: Event, d: string): Event
    requires IsHex(e.id)
  {
    Event(OtherId(e.id), e.pubkey, None, e.createdAt + 1, e.kind, [["d", d], ["d", d]], "", "", None)
  }

  /** `x` removes itself, and every older event of its author and kind with its d value. */
  predicate RemovesItself(e: Event, x: Event) {
    && IsParamReplaceable(e.kind) && x.kind == e.kind && Decode(x.pubkey) == Decode(e.pubkey)
    && OwnDRows(x) >= 2 && DistinctParam(x).value in TagValuesByName(e.tags, "d")
    && e.createdAt < x.createdAt
  }

  lemma RepeaterFits(e: Event, d: string)
    requires IsParamReplaceable(e.kind) && Decodable(e) && e.createdAt + 1 < TWO_POW_63
    requires d in TagValuesByName(e.tags, "d")
    ensures var x := Repeater(e, d);
            Decodable(x) && Bindable(x) && Decode(x.id) != Decode(e.id) && RemovesItself(e, x)
  {
    var x := Repeater(e, d);
    OtherIdDiffers(e.id);
    TwoDTags(d);
    assert DistinctParam(x) == Some(d);
    TwiceIn(TagValuesByName(x.tags, "d"), 0, 1);
  }

  lemma TwoDTags(d: string)
    ensures TagValuesByName([["d", d], ["d", d]], "d") == [d] + [d]
    ensures FirstTagValue([["d", d], ["d", d]], "expiration") == None
    ensures FirstTagValue([["d", d], ["d", d]], "d") == Some(d)
  {
    var one: seq<Tag>, two: seq<Tag> := [["d", d]], [["d", d], ["d", d]];
    assert one[1..] == [] && two[1..] == one;
    assert TagValuesByName(one, "d") == [d];
    assert |"d"| != |"expiration"|;
    assert FirstTagValue(one, "expiration") == None;
  }

  lemma RemoverInserts(e: Event, x: Event)
    requires Decodable(e) && Bindable(e) && Decodable(x) && Bindable(x) && Decode(x.id) != Decode(e.id)
    requires RemovesItself(e, x)
    ensures Inserts(Persist(EMPTY, e, 0).0, x)
  {
    FirstArrival(e);
    var t := Persist(EMPTY, e, 0).0;
    assert forall id :: id in t.events ==> Columns(t.events[id]);
    if ParamShadow(t, x) { ShadowNeedsD(t, x); }
  }

  /** Nothing is left. */
  lemma RemoverEmpties(e: Event, x: Event)
    requires Decodable(e) && Bindable(e) && Decodable(x) && Bindable(x) && Decode(x.id) != Decode(e.id)
    requires RemovesItself(e, x)
    ensures Persist(Persist(EMPTY, e, 0).0, x, 0).0.events == map[]
  {
    FirstArrival(e);
    RemoverInserts(e, x);
    var t := Persist(EMPTY, e, 0).0;
    var id := NewRowId(t.events.Keys);
    ParamReported(t, x, 0);
    OutlivesOwnWriteExactly(t, x, 0);
    if 1 in t.events {
      assert Columns(t.events[1]);
      RemovesExactly(t, x, 0, 1);
    }
    assert Persist(t, x, 0).0.events.Keys <= {1, id};
  }

  /** So the event is taken again. */
  lemma RemoverRun(e: Event, x: Event)
    requires Decodable(e) && Bindable(e) && Decodable(x) && Bindable(x) && Decode(x.id) != Decode(e.id)
    requires RemovesItself(e, x)
    ensures Work([Arrival(e)] + [Arrival(x)] + [Arrival(e)]).sent == [e] + [x] + [e]
  {
    FirstArrival(e);
    WorkSnoc([Arrival(e)], Arrival(x));
    WorkSnoc([Arrival(e)] + [Arrival(x)], Arrival(e));
    RemoverInserts(e, x);
    RemoverEmpties(e, x);
    var t1 := Persist(EMPTY, e, 0).0;
    var t2 := Persist(t1, x, 0).0;
    ParamReported(t1, x, 0);
    Accepts(State(t1, [e]), x);
    assert Inserts(t2, e) by {
      if ParamShadow(t2, e) { ShadowNeedsD(t2, e); }
    }
    Accepts(State(t2, [e] + [x]), e);
  }

  predicate SentId(sent: seq<Event>, e: Event) {
    exists i :: 0 <= i < |sent| && !IsEphemeral(sent[i].kind) && Decode(sent[i].id) == Decode(e.id)
  }

  /** The id of `e` was broadcast twice. */
  predicate RepeatsId(sent: seq<Event>, e: Event) {
    exists i, j :: 0 <= i < j < |sent| && !IsEphemeral(sent[i].kind) && !IsEphemeral(sent[j].kind)
                   && Decode(sent[i].id) == Decode(e.id) && Decode(sent[j].id) == Decode(e.id)
  }

  lemma RepeatsSnoc(sent: seq<Event>, e: Event, s: Event)
    ensures SentId(sent + [s], e) <==> SentId(sent, e) || (!IsEphemeral(s.kind) && Decode(s.id) == Decode(e.id))
    ensures RepeatsId(sent + [s], e) ==>
              RepeatsId(sent, e) || (SentId(sent, e) && !IsEphemeral(s.kind) && Decode(s.id) == Decode(e.id))
  {
    var all := sent + [s];
    assert all[|sent|] == s && forall i :: 0 <= i < |sent| ==> all[i] == sent[i];
  }

  /** The event is stored without any d row. */
  predicate Unindexed(r: EventRow) {
    IsParamReplaceable(r.kind) && TagValuesByName(r.content.tags, "d") == []
  }

  predicate StoredUnindexed(t: Tables, e: Event) {
    exists id :: id in t.events && Decode(e.id) == Some(t.events[id].hash) && Unindexed(t.events[id])
  }

  /** A parameterized event without d rows is never removed by a write. */
  lemma UnindexedStays(t: Tables, e: Event, tie: nat, j: nat)
    requires Valid(t) && j in t.events && Unindexed(t.events[j])
    ensures var t' := Persist(t, e, tie).0;
            j in t'.events && t'.events[j].hash == t.events[j].hash && Unindexed(t'.events[j])
  {
    if Inserts(t, e) {
      var t1 := Insert(t, e);
      InsertKeepsValid(t, e);
      if IsParamReplaceable(e.kind) {
        NotPruned(t1, Decode(e.pubkey).value, e.kind, DistinctParam(e).value, tie, j);
      }
      ReplacedRows(t, e, tie, j);
      var ids := HidingIsPersist(t, e, tie);
    }
  }

  lemma NotPruned(t: Tables, author: Bytes, kind: nat, d: string, tie: nat, j: nat)
    requires Projected(t) && j in t.events && Unindexed(t.events[j])
    ensures j in PruneParam(t, author, kind, d, tie).events
  {
    var at := SlotTags(t, author, kind, d);
    if at != map[] && j in OtherEvents(t, at, Newest(at, tie)) {
      var k :| k in at && k != Newest(at, tie) && t.tags[k].eventId == j;
      DValueOf(t, k);
      assert false;
    }
  }

  lemma StoredUnindexedStays(t: Tables, e: Event, tie: nat, s: Event)
    requires Valid(t) && StoredUnindexed(t, s)
    ensures StoredUnindexed(Persist(t, e, tie).0, s)
  {
    var id :| id in t.events && Decode(s.id) == Some(t.events[id].hash) && Unindexed(t.events[id]);
    UnindexedStays(t, e, tie, id);
  }

  lemma ReportedUnindexed(t: Tables, e: Event, tie: nat, s: Event)
    requires Valid(t) && Persist(t, e, tie).1 == Written(1) && Decode(e.id) == Decode(s.id)
    requires IsParamReplaceable(e.kind) && TagValuesByName(e.tags, "d") == []
    ensures !StoredUnindexed(t, s) && StoredUnindexed(Persist(t, e, tie).0, s)
  {
    ReportedIsVisible(t, e, tie);
    PersistKeepsValid(t, e, tie);
    var id, t' := NewRowId(t.events.Keys), Persist(t, e, tie).0;
    assert Columns(t'.events[id]);
  }

  /** Nothing of the id of `e` was broadcast twice, and what was is stored without d rows. */
  predicate SentOnceUnindexed(w: State, e: Event) {
    !RepeatsId(w.sent, e) && (SentId(w.sent, e) ==> StoredUnindexed(w.tables, e))
  }

  lemma WriteSentOnce(t: Tables, sent: seq<Event>, x: Event, tie: nat, e: Event)
    requires Valid(t) && IsParamReplaceable(e.kind) && TagValuesByName(e.tags, "d") == []
    requires Decode(x.id).Some? && Decode(x.id) == Decode(e.id) ==> SameFields(x, e)
    requires SentOnceUnindexed(State(t, sent), e)
    ensures var (t', outcome) := Persist(t, x, tie); SentOnceUnindexed(State(t', SentAfter(sent, x, outcome)), e)
  {
    if StoredUnindexed(t, e) {
      StoredUnindexedStays(t, x, tie, e);
    }
    if Inserts(t, x) { SomethingReported(t, x, tie); } else { NothingReported(t, x, tie); }
    if Persist(t, x, tie).1 == Written(1) {
      RepeatsSnoc(sent, e, x);
      if Decode(x.id) == Decode(e.id) {
        ReportedUnindexed(t, x, tie, e);
      }
    }
  }

  lemma OthersSentOnce(w: State, x: Incoming, e: Event)
    requires !Stored(x) && SentOnceUnindexed(w, e)
    ensures SentOnceUnindexed(Handle(w, x).0, e)
  {
    RepeatsSnoc(w.sent, e, x.e);
  }

  /** The submissions of a run, and `e`, have ids that name their fields. */
  predicate NamesFieldsWith(xs: seq<Incoming>, e: Event) {
    IdsNameFields(Submitted(Writes(xs)) + [Serialized(e)])
  }

  lemma NamesFieldsBefore(xs: seq<Incoming>, x: Incoming, e: Event)
    requires NamesFieldsWith(xs + [x], e)
    ensures NamesFieldsWith(xs, e)
    ensures Stored(x) && Decode(x.e.id).Some? && Decode(x.e.id) == Decode(e.id) ==> SameFields(x.e, e)
  {
    WorkSnoc(xs, x);
    if Stored(x) {
      SnocRun(Writes(xs), Write(x.e, x.tie));
      DropSecondLast(Submitted(Writes(xs)), Serialized(x.e), Serialized(e));
    }
  }

  lemma DropSecondLast(es: seq<Event>, s: Event, e: Event)
    requires IdsNameFields(es + [s] + [e])
    ensures IdsNameFields(es + [e])
    ensures Decode(s.id).Some? && Decode(s.id) == Decode(e.id) ==> SameFields(s, e)
  {
    var all, some := es + [s] + [e], es + [e];
    assert all[|es|] == s && all[|es| + 1] == e;
    assert forall i :: 0 <= i < |es| ==> all[i] == es[i];
    assert forall i :: 0 <= i < |some| ==> some[i] == all[if i < |es| then i else |es| + 1];
  }

  /** Without a d value no run broadcasts the id twice. */
  lemma {:induction false} UnindexedOnce(xs: seq<Incoming>, e: Event)
    requires IsParamReplaceable(e.kind) && TagValuesByName(e.tags, "d") == [] && NamesFieldsWith(xs, e)
    ensures SentOnceUnindexed(Work(xs), e)
  {
    if xs != [] {
      var before, last := xs[..|xs| - 1], xs[|xs| - 1];
      assert xs == before + [last];
      NamesFieldsBefore(before, last, e);
      UnindexedOnce(before, e);
      WorkSnoc(before, last);
      if Stored(last) {
        WorkIsRun(before);
        RunValid(Writes(before));
        HandleStored(Work(before), last);
        WriteSentOnce(Work(before).tables, Work(before).sent, last.e, last.tie, e);
      } else {
        OthersSentOnce(Work(before), last, e);
      }
    }
  }

  /** Some run, of any events, broadcasts the id of `e` twice. */
  ghost predicate CanRepeat(e: Event) {
    exists xs: seq<Incoming> :: NamesFieldsWith(xs, e) && RepeatsId(Work(xs).sent, e)
  }

  lemma RemoverInOrder(e: Event, x: Event)
    requires IsParamReplaceable(e.kind) && x.kind == e.kind && Decode(x.id) != Decode(e.id)
    ensures NamesFieldsWith([Arrival(e)] + [Arrival(x)] + [Arrival(e)], e)
  {
    FirstSubmits(e);
    ArrivalSubmits([Arrival(e)], x);
    ArrivalSubmits([Arrival(e)] + [Arrival(x)], e);
    TwoEventsNameFields(Serialized(e), Serialized(x));
  }

  lemma TwoEventsNameFields(e: Event, x: Event)
    requires Decode(x.id) != Decode(e.id)
    ensures IdsNameFields([e] + [x] + [e] + [e])
  {
    var es := [e] + [x] + [e] + [e];
    assert forall i :: 0 <= i < |es| ==> es[i] == e || es[i] == x;
  }

  /**
   * Exactly which parameterized events can be broadcast twice: those with a d value. Between two
   * arrivals, an event that names that value twice removes the first and then itself. Without a d
   * value nothing ever removes the event.
   */
  lemma BroadcastTwiceExactly(e: Event)
    requires IsParamReplaceable(e.kind) && Decodable(e) && Bindable(e) && e.createdAt + 1 < TWO_POW_63
    ensures CanRepeat(e) <==> TagValuesByName(e.tags, "d") != []
  {
    var values := TagValuesByName(e.tags, "d");
    if values != [] {
      var x := Repeater(e, values[0]);
      var xs := [Arrival(e)] + [Arrival(x)] + [Arrival(e)];
      RepeaterFits(e, values[0]);
      RemoverRun(e, x);
      RemoverInOrder(e, x);
      RepeatsBoth(e, x);
      assert NamesFieldsWith(xs, e) && RepeatsId(Work(xs).sent, e);
    } else {
      forall xs: seq<Incoming> | NamesFieldsWith(xs, e)
        ensures !RepeatsId(Work(xs).sent, e)
      {
        UnindexedOnce(xs, e);
      }
    }
  }

  lemma RepeatsBoth(e: Event, x: Event)
    requires IsParamReplaceable(e.kind)
    ensures RepeatsId([e] + [x] + [e], e)
  {
    var sent := [e] + [x] + [e];
    assert sent[0] == e && sent[2] == e;
  }

  /** An instance: an event with one d value, and one that names the value twice. */
  lemma RepeaterInstance(e: Event, x: Event)
    requires e == Event(seq(64, _ => 'a'), seq(64, _ => 'c'), None, 7, 30000, [["d", "p"]], "", "", None)
    requires x == Event(seq(64, _ => 'b'), seq(64, _ => 'c'), None, 8, 30000, [["d", "p"], ["d", "p"]], "", "", None)
    ensures Storable(e) && Work([Arrival(e)] + [Arrival(x)] + [Arrival(e)]).sent == [e] + [x] + [e]
  {
    TwoDTags("p");
    assert e.tags[1..] == [];
    assert TagValuesByName(e.tags, "d") == ["p"] && DistinctParam(e) == Some("p") && DistinctParam(x) == Some("p");
    assert FirstTagValue(e.tags, "expiration") == None;
    TwiceIn(TagValuesByName(x.tags, "d"), 0, 1);
    assert Decode(e.id).value[0] != Decode(x.id).value[0];
    RemoverRun(e, x);
  }
}
