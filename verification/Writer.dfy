/**
 * The database writer (`db_writer`, src/db.rs): every admitted event is stored and then broadcast
 * to the connected clients. No stored event is broadcast twice.
 */
module Writer {
  import opened Common
  import opened Events
  import opened Hex
  import opened EventTables
  import opened StoreInvariants
  import opened StoreEffect
  import opened StoreRuns
  import opened StoreRefusal
  import EventStore

  /**
   * One event taken from the channel: whether all admission checks let it through, and whether
   * the database stayed locked through every write attempt.
   */
  datatype Incoming = Incoming(e: Event, admitted: bool, locked: bool, tie: nat)

  datatype Reply = Rejected | Saved | Duplicate | Error

  /** The tables, and everything broadcast so far. */
  datatype State = State(tables: Tables, sent: seq<Event>)

  /** Whether the event reaches the store. */
  predicate Stored(x: Incoming) {
    x.admitted && !IsEphemeral(x.e.kind) && !x.locked
  }

  /** One turn of the writer loop. */
  function Handle(w: State, x: Incoming): (State, Reply) {
    if !x.admitted then (w, Rejected)
    else if IsEphemeral(x.e.kind) then (w.(sent := w.sent + [x.e]), Saved)
    else if x.locked then (w, Error)
    else
      match Persist(w.tables, x.e, x.tie)
      case (t, Failed) => (w.(tables := t), Error)
      case (t, Written(n)) =>
        if n == 0 then (w.(tables := t), Duplicate)
        else (State(t, w.sent + [x.e]), Saved)
  }

  function Work(xs: seq<Incoming>): State {
    if xs == [] then State(EMPTY, []) else Handle(Work(xs[..|xs| - 1]), xs[|xs| - 1]).0
  }

  /** The writes that reach the store. */
  function Writes(xs: seq<Incoming>): seq<Op> {
    if xs == [] then []
    else
      NextWrites(Writes(xs[..|xs| - 1]), xs[|xs| - 1])
  }

  function NextWrites(ops: seq<Op>, x: Incoming): seq<Op> {
    if Stored(x) then ops + [Write(x.e, x.tie)] else ops
  }

  lemma {:induction false} WorkIsRun(xs: seq<Incoming>)
    ensures Work(xs).tables == Run(Writes(xs)) && NoExpiry(Writes(xs))
  {
    if xs != [] {
      WorkIsRun(xs[..|xs| - 1]);
      HandleIsRun(Work(xs[..|xs| - 1]), Writes(xs[..|xs| - 1]), xs[|xs| - 1]);
    }
  }

  lemma HandleIsRun(w: State, ops: seq<Op>, x: Incoming)
    requires w.tables == Run(ops) && NoExpiry(ops)
    ensures Handle(w, x).0.tables == Run(NextWrites(ops, x)) && NoExpiry(NextWrites(ops, x))
  {
    if Stored(x) {
      SnocRun(ops, Write(x.e, x.tie));
      HandleIsStep(w, x);
    }
  }

  lemma HandleIsStep(w: State, x: Incoming)
    requires Stored(x)
    ensures Handle(w, x).0.tables == Step(w.tables, Write(x.e, x.tie))
  {
  }

  /**
   * Every broadcast event that is not ephemeral was submitted to the store, and the store would
   * refuse it if it came again.
   */
  predicate SentAreRefused(sent: seq<Event>, t: Tables, es: seq<Event>) {
    forall i :: 0 <= i < |sent| && !IsEphemeral(sent[i].kind) ==> Serialized(sent[i]) in es && Refused(t, sent[i])
  }

  predicate NoRepeats(sent: seq<Event>) {
    forall i, j :: 0 <= i < j < |sent| && !IsEphemeral(sent[i].kind) && !IsEphemeral(sent[j].kind) ==>
                     Decode(sent[i].id) != Decode(sent[j].id)
  }

  /** What the next write after a run of writes finds. */
  lemma WriterReady(ops: seq<Op>, e: Event)
    requires var es := Submitted(ops) + [Serialized(e)]; AllAtMostOneD(es) && IdsNameFields(es)
    ensures Valid(Run(ops)) && RowsFrom(Run(ops), Submitted(ops)) && RowsAtMostOneD(Run(ops))
    ensures AtMostOneD(e) && AllAtMostOneD(Submitted(ops)) && IdsNameFields(Submitted(ops))
  {
    var es, s := Submitted(ops), Serialized(e);
    RunValid(ops);
    StoredWereSubmitted(ops);
    assert forall i :: 0 <= i < |es| ==> (es + [s])[i] == es[i];
    assert (es + [s])[|es|] == s && DistinctParam(s) == DistinctParam(e);
  }

  /** A submitted event shares its id with rows and submissions of its fields only. */
  lemma SubmittedIsSame(t: Tables, es: seq<Event>, e: Event, s: Event)
    requires Valid(t) && RowsFrom(t, es) && IdsNameFields(es + [Serialized(e)])
    requires Serialized(s) in es
    ensures TakenBySame(t, s)
    ensures Decode(e.id).Some? && Decode(s.id) == Decode(e.id) ==> SameFields(e, s)
  {
    var all := es + [Serialized(e)];
    var i :| 0 <= i < |es| && es[i] == Serialized(s);
    assert all[i] == Serialized(s) && all[|es|] == Serialized(e);
    forall id | id in t.events && Decode(s.id) == Some(t.events[id].hash)
      ensures SameFields(t.events[id].content, s)
    {
      var j :| 0 <= j < |es| && es[j] == t.events[id].content;
      assert all[j] == es[j] && Columns(t.events[id]);
    }
  }

  /** What was broadcast before an accepted write stays refused, and is not what is written. */
  lemma EarlierSent(sent: seq<Event>, t: Tables, es: seq<Event>, e: Event, tie: nat)
    requires Valid(t) && RowsFrom(t, es) && RowsAtMostOneD(t) && AtMostOneD(e) && Inserts(t, e)
    requires IdsNameFields(es + [Serialized(e)]) && SentAreRefused(sent, t, es)
    ensures SentAreRefused(sent, Persist(t, e, tie).0, es + [Serialized(e)])
    ensures NoRepeats(sent) ==> NoRepeats(sent + [e])
  {
    forall i | 0 <= i < |sent| && !IsEphemeral(sent[i].kind)
      ensures Serialized(sent[i]) in es + [Serialized(e)] && Refused(Persist(t, e, tie).0, sent[i])
      ensures Decode(sent[i].id) != Decode(e.id)
    {
      SentStep(t, es, e, tie, sent[i]);
    }
  }

  lemma SentSnoc(sent: seq<Event>, t: Tables, es: seq<Event>, e: Event)
    requires SentAreRefused(sent, t, es) && Serialized(e) in es && Refused(t, e)
    ensures SentAreRefused(sent + [e], t, es)
  {
  }

  lemma SubmittedSnoc(sent: seq<Event>, t: Tables, es: seq<Event>, s: Event)
    requires SentAreRefused(sent, t, es)
    ensures SentAreRefused(sent, t, es + [s])
  {
  }

  /** An accepted event: if it is broadcast, it is not a repetition, and all refusals last. */
  lemma AcceptedSent(t: Tables, es: seq<Event>, e: Event, tie: nat, sent: seq<Event>)
    requires Valid(t) && RowsFrom(t, es) && RowsAtMostOneD(t) && AtMostOneD(e) && Inserts(t, e)
    requires IdsNameFields(es + [Serialized(e)]) && NoRepeats(sent) && SentAreRefused(sent, t, es)
    ensures SentAreRefused(sent, Persist(t, e, tie).0, es + [Serialized(e)])
    ensures Persist(t, e, tie).1 == Written(1) ==>
              NoRepeats(sent + [e]) && SentAreRefused(sent + [e], Persist(t, e, tie).0, es + [Serialized(e)])
  {
    EarlierSent(sent, t, es, e, tie);
    if Persist(t, e, tie).1 == Written(1) {
      ReportedIsVisible(t, e, tie);
      SentSnoc(sent, Persist(t, e, tie).0, es + [Serialized(e)], e);
    }
  }

  /** What is sent after a write with this outcome. */
  function SentAfter(sent: seq<Event>, e: Event, outcome: Outcome): seq<Event> {
    if outcome.Written? && outcome.rows != 0 then sent + [e] else sent
  }

  lemma HandleStored(w: State, x: Incoming)
    requires Stored(x)
    ensures var (t, outcome) := Persist(w.tables, x.e, x.tie);
            Handle(w, x).0 == State(t, SentAfter(w.sent, x.e, outcome))
  {
  }

  lemma NothingReported(t: Tables, e: Event, tie: nat)
    requires !Inserts(t, e)
    ensures Persist(t, e, tie).0 == t && Persist(t, e, tie).1 in {Failed, Written(0)}
  {
  }

  lemma SomethingReported(t: Tables, e: Event, tie: nat)
    requires Inserts(t, e)
    ensures Persist(t, e, tie).1 in {Written(0), Written(1)}
  {
  }

  /** One stored event. */
  lemma StoredStep(ops: seq<Op>, t: Tables, sent: seq<Event>, e: Event, tie: nat)
    requires t == Run(ops)
    requires var es := Submitted(ops) + [Serialized(e)]; AllAtMostOneD(es) && IdsNameFields(es)
    requires NoRepeats(sent) && SentAreRefused(sent, t, Submitted(ops))
    ensures var (t', outcome) := Persist(t, e, tie); var sent' := SentAfter(sent, e, outcome);
            NoRepeats(sent') && SentAreRefused(sent', t', Submitted(ops) + [Serialized(e)])
  {
    WriterReady(ops, e);
    if Inserts(t, e) {
      AcceptedSent(t, Submitted(ops), e, tie, sent);
      SomethingReported(t, e, tie);
    } else {
      SubmittedSnoc(sent, t, Submitted(ops), Serialized(e));
      NothingReported(t, e, tie);
    }
  }

  /** A broadcast event stays refused, and is not the one reported now. */
  lemma SentStep(t: Tables, es: seq<Event>, e: Event, tie: nat, s: Event)
    requires Valid(t) && RowsFrom(t, es) && RowsAtMostOneD(t) && AtMostOneD(e) && Inserts(t, e)
    requires IdsNameFields(es + [Serialized(e)]) && Serialized(s) in es && Refused(t, s)
    ensures Refused(Persist(t, e, tie).0, s)
    ensures Decode(s.id) != Decode(e.id)
  {
    SubmittedIsSame(t, es, e, s);
    PersistKeepsRefused(t, e, tie, s);
    if Decode(s.id) == Decode(e.id) {
      RefusedByFields(t, s, e);
      assert false;
    }
  }

  lemma WorkSnoc(xs: seq<Incoming>, x: Incoming)
    ensures Work(xs + [x]) == Handle(Work(xs), x).0
    ensures Writes(xs + [x]) == NextWrites(Writes(xs), x)
  {
    assert (xs + [x])[..|xs|] == xs;
  }

  /** What a run on events with at most one d value keeps. */
  predicate InOrder(es: seq<Event>) {
    AllAtMostOneD(es) && IdsNameFields(es)
  }

  predicate SentOnce(w: State, es: seq<Event>) {
    NoRepeats(w.sent) && SentAreRefused(w.sent, w.tables, es)
  }

  lemma OrderBefore(xs: seq<Incoming>, x: Incoming)
    requires InOrder(Submitted(Writes(xs + [x])))
    ensures InOrder(Submitted(Writes(xs)))
  {
    WorkSnoc(xs, x);
    if Stored(x) {
      SnocRun(Writes(xs), Write(x.e, x.tie));
      WriterReady(Writes(xs), x.e);
    }
  }

  lemma WorkStep(xs: seq<Incoming>, x: Incoming)
    requires InOrder(Submitted(Writes(xs + [x]))) && SentOnce(Work(xs), Submitted(Writes(xs)))
    ensures SentOnce(Work(xs + [x]), Submitted(Writes(xs + [x])))
  {
    WorkSnoc(xs, x);
    WorkIsRun(xs);
    if Stored(x) {
      SnocRun(Writes(xs), Write(x.e, x.tie));
      HandleStored(Work(xs), x);
      StoredStep(Writes(xs), Work(xs).tables, Work(xs).sent, x.e, x.tie);
    } else {
      UnstoredStep(Work(xs), Submitted(Writes(xs)), x);
    }
  }

  lemma UnstoredStep(w: State, es: seq<Event>, x: Incoming)
    requires !Stored(x) && SentOnce(w, es)
    ensures SentOnce(Handle(w, x).0, es)
  {
  }

  /**
   * Broadcast at most once. Over any run of the writer on events with at most one d value, no id
   * of an event that is not ephemeral is broadcast twice, not even under another signature; every
   * event that was broadcast is refused from then on.
   */
  lemma {:induction false} BroadcastAtMostOnce(xs: seq<Incoming>)
    requires AllAtMostOneD(Submitted(Writes(xs))) && IdsNameFields(Submitted(Writes(xs)))
    ensures NoRepeats(Work(xs).sent)
    ensures SentAreRefused(Work(xs).sent, Work(xs).tables, Submitted(Writes(xs)))
  {
    if xs != [] {
      var before, last := xs[..|xs| - 1], xs[|xs| - 1];
      assert xs == before + [last];
      OrderBefore(before, last);
      BroadcastAtMostOnce(before);
      WorkStep(before, last);
    }
  }

  /** When an event that is not ephemeral is broadcast, it is stored and visible at that moment. */
  lemma BroadcastIsVisible(xs: seq<Incoming>, x: Incoming)
    requires AtMostOneD(x.e) && !IsEphemeral(x.e.kind) && |Work(xs + [x]).sent| > |Work(xs).sent|
    ensures Work(xs + [x]).sent == Work(xs).sent + [x.e]
    ensures exists id :: id in Work(xs + [x]).tables.events && !Work(xs + [x]).tables.events[id].hidden
                         && Work(xs + [x]).tables.events[id].content == Serialized(x.e)
  {
    assert (xs + [x])[..|xs|] == xs;
    WorkIsRun(xs);
    RunValid(Writes(xs));
    ReportedIsVisible(Work(xs).tables, x.e, x.tie);
  }

  /** What the store finds, said in terms of the submissions. */
  lemma InsertsExactly(es: seq<Event>, t: Tables, e: Event)
    requires Valid(t) && StorableRows(t) && ContentForm(es, t)
    requires Storable(e) && IdsNameFields(es + [Serialized(e)])
    ensures Inserts(t, e) <==> NewId(es, e) && NewerThanAll(es, e)
  {
    ContentEffect(t, e, 0);
    assert ColumnsAgree(t);
    SerializedSame(e, e);
    if Inserts(t, e) {
      AcceptedStep(es, e, t, Persist(t, e, 0).0);
    } else {
      var c := RefusedBy(es, e, t);
      var id :| id in t.events && t.events[id].content == c;
      var i :| 0 <= i < |es| && Wins(es, i) && es[i] == c;
    }
  }

  /**
   * Exactly what is broadcast. After any run on storable events, the next one that is not
   * ephemeral is broadcast exactly when its id was not submitted before, is newer than everything
   * submitted to its slot, and is named by no submitted deletion.
   */
  lemma BroadcastExactly(xs: seq<Incoming>, x: Incoming)
    requires var es := Submitted(Writes(xs)) + [Serialized(x.e)]; AllStorable(es) && IdsNameFields(es)
    requires Stored(x)
    ensures var es := Submitted(Writes(xs));
            Work(xs + [x]).sent == Work(xs).sent + [x.e] <==>
              NewId(es, x.e) && NewerThanAll(es, x.e) && !Deleted(es, x.e)
    ensures Work(xs + [x]).sent == Work(xs).sent || Work(xs + [x]).sent == Work(xs).sent + [x.e]
  {
    var ops := Writes(xs);
    var es := Submitted(ops);
    assert (xs + [x])[..|xs|] == xs;
    WorkIsRun(xs);
    PrefixHypotheses(es, Serialized(x.e));
    RunReady(ops);
    SerializedSame(x.e, x.e);
    InsertsExactly(es, Run(ops), x.e);
    DeletedIffDeletedIn(es, x.e, Run(ops));
    ContentEffect(Run(ops), x.e, x.tie);
    if Inserts(Run(ops), x.e) {
      PersistEffect(Run(ops), x.e, x.tie);
    }
  }

  // ---------------------------------------------------------------------------------------
  // What the client is told
  // ---------------------------------------------------------------------------------------

  /** After any run, an admitted event of kind 20000 to 29999 is broadcast and not stored. */
  lemma EphemeralBroadcast(xs: seq<Incoming>, x: Incoming)
    requires x.admitted && 20000 <= x.e.kind < 30000
    ensures Work(xs + [x]).tables == Work(xs).tables && Work(xs + [x]).sent == Work(xs).sent + [x.e]
    ensures Handle(Work(xs), x).1 == Saved
  {
    WorkSnoc(xs, x);
  }

  /**
   * What the reply says, after any run: Rejected exactly without admission, with nothing done;
   * Saved exactly when the event was broadcast; otherwise Error exactly when the database stayed
   * locked or the write failed, which takes a number of 2^63 or more, and Duplicate when the write
   * reported no new row.
   */
  lemma ReplyMeans(xs: seq<Incoming>, x: Incoming)
    ensures var w, w' := Work(xs), Work(xs + [x]);
            var reply := Handle(w, x).1;
            && (reply == Rejected <==> !x.admitted)
            && (reply == Rejected ==> w' == w)
            && (reply == Saved <==> w'.sent == w.sent + [x.e])
            && (reply != Saved ==> w'.sent == w.sent)
            && (reply == Error <==> x.admitted && !(20000 <= x.e.kind < 30000)
                                    && (x.locked || Persist(w.tables, x.e, x.tie).1 == Failed))
            && (reply == Duplicate <==> x.admitted && !(20000 <= x.e.kind < 30000) && !x.locked
                                        && Persist(w.tables, x.e, x.tie).1 == Written(0))
  {
    WorkSnoc(xs, x);
    OutcomeIs(Work(xs).tables, x.e, x.tie);
  }

  lemma OutcomeIs(t: Tables, e: Event, tie: nat)
    ensures Persist(t, e, tie).1 in {Failed, Written(0), Written(1)}
    ensures Persist(t, e, tie).1 == Failed ==>
              0x8000_0000_0000_0000 <= e.createdAt || 0x8000_0000_0000_0000 <= e.kind
              || exists n: nat :: 0x8000_0000_0000_0000 <= n && CarriesExpiry(e, n)
  {
    if Expiration(e).Some? {
      ExpirationMeans(e, Expiration(e).value);
    }
    if Inserts(t, e) { SomethingReported(t, e, tie); }
  }

  /** The writer as an object: it owns the store and the broadcast channel. */
  class DbWriter {
    const store: EventStore.Store
    var sent: seq<Event>

    ghost function Current(): State
      reads this, store
    {
      State(store.Contents(), sent)
    }

    constructor ()
      ensures Current() == State(EMPTY, []) && fresh(store)
    {
      store := new EventStore.Store();
      sent := [];
    }

    /** Admission aside, what the loop of `db_writer` does with one event. */
    method HandleEvent(x: Incoming) returns (reply: Reply)
      modifies this, store
      ensures (Current(), reply) == Handle(old(Current()), x)
    {
      if !x.admitted {
        return Rejected;
      }
      if IsEphemeral(x.e.kind) {
        sent := sent + [x.e];
        return Saved;
      }
      if x.locked {
        return Error;
      }
      var outcome := store.PersistEvent(x.e, x.tie);
      match outcome
      case Failed =>
        return Error;
      case Written(n) =>
        if n == 0 {
          return Duplicate;
        }
        sent := sent + [x.e];
        return Saved;
    }
  }
}
