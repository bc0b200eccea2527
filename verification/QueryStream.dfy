/**
 * The result stream of one subscription query (`query_subscription`, src/repo/sqlite.rs): rows of
 * every filter in turn, an end marker, and the conditions that cut it short.
 */
module QueryStream {
  import opened Common
  import opened Events
  import opened EventTables
  import opened StoreInvariants
  import opened Filters
  import Sql
  import opened QueryCompiler
  import opened QueryAgreement

  datatype Frame = Found(event: Event) | Eose

  /**
   * What the query thread meets. Rows are numbered from 0 across all filters; each answer is the
   * one seen when that row is examined.
   */
  datatype Environment = Environment(
    shed: bool,                  // queued for more than five seconds
    cancelledEarly: bool,        // cancelled before execution
    connected: bool,             // a database connection was available
    cancelled: nat -> bool,      // the cancel signal has arrived
    checkpoint: nat -> bool,     // the checkpoint lock is held
    stalled: nat -> bool,        // the client queue stays full until the wait is given up
    broken: nat -> bool,         // the database fails on this row
    unprepared: nat -> bool,     // the statement of this filter fails
    brokenEnd: nat -> bool)      // the database fails after the last row of this filter

  /** A signal that has arrived stays. */
  ghost predicate SignalStays(env: Environment) {
    && (forall m, n {:trigger env.cancelled(m), env.cancelled(n)} :: m <= n && env.cancelled(m) ==> env.cancelled(n))
    && (env.cancelledEarly ==> env.cancelled(0))
  }

  /** A reason to give up at this row. */
  predicate CutAtRow(env: Environment, row: nat) {
    || env.broken(row) || env.stalled(row)
    || (row % 100 == 0 && (env.checkpoint(row) || env.cancelled(row)))
  }

  /** A reason to give up when this many rows have been emitted. */
  predicate CutShortAt(env: Environment, row: nat, filters: nat) {
    env.shed || env.cancelledEarly || CutAtRow(env, row)
    || exists f :: 0 <= f < filters && (env.unprepared(f) || env.brokenEnd(f))
  }

  /** What one filter met: the tables and the time of its statement, and the row ids answered. */
  datatype Answer = Answer(t: Tables, now: nat, out: seq<nat>)

  predicate InTables(a: Answer) {
    forall i :: 0 <= i < |a.out| ==> a.out[i] in a.t.events
  }

  /** The column `content` of the answered rows. */
  function Contents(a: Answer): (events: seq<Event>)
    requires InTables(a)
    ensures |events| == |a.out| && forall i :: 0 <= i < |events| ==> events[i] == a.t.events[a.out[i]].content
  {
    seq(|a.out|, i requires 0 <= i < |a.out| => a.t.events[a.out[i]].content)
  }

  /** The database answers every filter whose statement it can prepare. */
  predicate AllAnswered(filters: seq<ReqFilter>, answers: seq<Answer>, env: Environment) {
    |answers| == |filters|
    && forall f :: 0 <= f < |filters| ==>
         InTables(answers[f])
         && if env.unprepared(f) then answers[f].out == []
            else FilterAnswers(filters[f], answers[f].now, answers[f].t, answers[f].out)
  }

  function Results(answers: seq<Answer>): (results: seq<seq<Event>>)
    requires forall f :: 0 <= f < |answers| ==> InTables(answers[f])
    ensures |results| == |answers| && forall f :: 0 <= f < |results| ==> results[f] == Contents(answers[f])
  {
    seq(|answers|, f requires 0 <= f < |answers| => Contents(answers[f]))
  }

  function Flatten(results: seq<seq<Event>>): seq<Event> {
    if results == [] then [] else Flatten(results[..|results| - 1]) + results[|results| - 1]
  }

  function Rows(events: seq<Event>): (frames: seq<Frame>)
    ensures |frames| == |events|
    ensures forall i :: 0 <= i < |events| ==> frames[i] == Found(events[i])
  {
    seq(|events|, i requires 0 <= i < |events| => Found(events[i]))
  }

  /** The first row number at or after `n` at which the cancel signal is looked at. */
  function NextLook(n: nat): (m: nat)
    ensures m % 100 == 0 && n <= m <= n + 99
  {
    (n + 99) / 100 * 100
  }

  lemma {:induction false} FlattenPrefix(results: seq<seq<Event>>, f: nat)
    requires f <= |results|
    ensures Flatten(results[..f]) <= Flatten(results)
    decreases |results| - f
  {
    if f < |results| {
      var next := results[..f + 1];
      assert next[..|next| - 1] == results[..f];
      FlattenPrefix(results, f + 1);
    } else {
      assert results[..f] == results;
    }
  }

  /** The statement of one filter: the compiled query, answered by the database. */
  method RunFilter(f: ReqFilter, a: Answer) returns (found: seq<Event>)
    requires InTables(a) && FilterAnswers(f, a.now, a.t, a.out)
    ensures found == Contents(a)
  {
    var q, params := QueryFromFilter(f, a.now);
    CompiledAnswers(f, a.now, q, params, a.t, a.out);
    assert Sql.Answers(q, params, a.t, a.out);
    return Contents(a);
  }

  /** After a signal that was there when row n was examined, the next look ends the stream. */
  ghost predicate CancelHeeded(env: Environment, count: nat) {
    forall n {:trigger env.cancelled(n)} :: env.cancelled(n) ==> count <= NextLook(n)
  }

  /** The row loop of one filter, after the rows `before` of the earlier ones. */
  method RowLoop(found: seq<Event>, sent: seq<Frame>, env: Environment, ghost before: seq<Event>)
    returns (frames: seq<Frame>, complete: bool)
    requires SignalStays(env) && sent == Rows(before) && CancelHeeded(env, |sent|)
    ensures complete ==> frames == Rows(before + found)
    ensures !complete ==> frames <= Rows(before + found) && CutAtRow(env, |frames|)
    ensures CancelHeeded(env, |frames|)
  {
    frames := sent;
    var rowCount := |sent|;
    for r := 0 to |found|
      invariant frames == Rows(before + found[..r]) && rowCount == |frames|
      invariant CancelHeeded(env, rowCount)
    {
      RowsPrefix(before + found[..r], before + found);
      if env.broken(rowCount) {
        return frames, false;
      }
      if rowCount % 100 == 0 && env.checkpoint(rowCount) {
        return frames, false;
      }
      if rowCount % 100 == 0 && env.cancelled(rowCount) {
        return frames, false;
      }
      NotYetCancelled(env, rowCount);
      rowCount := rowCount + 1;
      if env.stalled(rowCount - 1) {
        return frames, false;
      }
      frames := frames + [Found(found[r])];
      assert before + found[..r + 1] == (before + found[..r]) + [found[r]];
    }
    assert found[..|found|] == found;
    return frames, true;
  }

  lemma FlattenSnoc(results: seq<seq<Event>>, f: nat)
    requires f < |results|
    ensures Flatten(results[..f + 1]) == Flatten(results[..f]) + results[f]
  {
    var next := results[..f + 1];
    assert next[..|next| - 1] == results[..f] && next[|next| - 1] == results[f];
  }

  /** The results of the first `f` filters and of the next one. */
  lemma FlattenNext(results: seq<seq<Event>>, f: nat)
    requires f < |results|
    ensures Flatten(results[..f + 1]) == Flatten(results[..f]) + results[f]
    ensures Rows(Flatten(results[..f])) <= Rows(Flatten(results))
    ensures Rows(Flatten(results[..f]) + results[f]) <= Rows(Flatten(results))
  {
    FlattenSnoc(results, f);
    FlattenPrefix(results, f);
    FlattenPrefix(results, f + 1);
    RowsPrefix(Flatten(results[..f + 1]), Flatten(results));
    RowsPrefix(Flatten(results[..f]), Flatten(results));
  }

  /**
   * `query_subscription`. A query that is not cut short emits the results of its filters one
   * after the other and exactly one end marker, after them. A query that is cut short emits a
   * prefix of those rows and no end marker. Once the cancel signal is there when row n is
   * examined, at most 99 rows follow the first n across all filters.
   */
  method QuerySubscription(filters: seq<ReqFilter>, answers: seq<Answer>, env: Environment)
    returns (frames: seq<Frame>, finished: bool)
    requires SignalStays(env) && AllAnswered(filters, answers, env)
    ensures finished && env.connected ==> frames == Rows(Flatten(Results(answers))) + [Eose]
    ensures finished && !env.connected ==> frames == [Eose]
    ensures !finished ==> frames <= Rows(Flatten(Results(answers)))
    ensures forall n {:trigger env.cancelled(n)} :: env.cancelled(n) ==>
              |frames| <= NextLook(n) + (if finished then 1 else 0)
    ensures env.shed || env.cancelledEarly ==> frames == [] && !finished
    ensures !finished ==> CutShortAt(env, |frames|, |filters|)
  {
    frames, finished := [], false;
    ghost var results := Results(answers);
    if env.shed {
      return;
    }
    if env.cancelledEarly {
      return;
    }
    if env.connected {
      for f := 0 to |filters|
        invariant frames == Rows(Flatten(results[..f])) && CancelHeeded(env, |frames|)
      {
        FlattenNext(results, f);
        if env.unprepared(f) {
          return;
        }
        var found := RunFilter(filters[f], answers[f]);
        var complete: bool;
        frames, complete := RowLoop(found, frames, env, Flatten(results[..f]));
        if !complete {
          return;
        }
        if env.brokenEnd(f) {
          return;
        }
      }
      assert results[..|results|] == results;
    }
    frames := frames + [Eose];
    finished := true;
  }

  lemma RowsPrefix(a: seq<Event>, b: seq<Event>)
    requires a <= b
    ensures Rows(a) <= Rows(b)
  {
  }

  /** If the look at a multiple of 100 finds no signal, one more row stays within the bound. */
  lemma NotYetCancelled(env: Environment, rowCount: nat)
    requires SignalStays(env)
    requires CancelHeeded(env, rowCount)
    requires !(rowCount % 100 == 0 && env.cancelled(rowCount))
    ensures CancelHeeded(env, rowCount + 1)
  {
  }

  // ---------------------------------------------------------------------------------------
  // The stream and the store
  // ---------------------------------------------------------------------------------------

  lemma {:induction false} FlattenMembers(results: seq<seq<Event>>, e: Event)
    ensures e in Flatten(results) <==> exists f :: 0 <= f < |results| && e in results[f]
  {
    if results != [] {
      var n := |results| - 1;
      FlattenMembers(results[..n], e);
      assert results == results[..n] + [results[n]];
      if f :| 0 <= f < n && e in results[..n][f] {
        assert e in results[f];
      }
    }
  }

  /** Row `id` is what filter `f` of the subscription was asked for. */
  predicate Asked(filters: seq<ReqFilter>, answers: seq<Answer>, f: nat, id: nat) {
    f < |filters| && f < |answers| && WantedIn(filters[f], answers[f].now, answers[f].t, id)
  }

  /** The event is the content of a row that some filter asked for. */
  ghost predicate ShowsWanted(filters: seq<ReqFilter>, answers: seq<Answer>, e: Event) {
    exists f: nat, id: nat :: Asked(filters, answers, f, id) && answers[f].t.events[id].content == e
  }

  /** Only wanted rows are streamed, in full and in part alike. */
  lemma StreamedAreWanted(filters: seq<ReqFilter>, answers: seq<Answer>, env: Environment, frames: seq<Frame>, k: nat)
    requires AllAnswered(filters, answers, env)
    requires frames <= Rows(Flatten(Results(answers))) && k < |frames|
    ensures frames[k].Found? && ShowsWanted(filters, answers, frames[k].event)
  {
    var results := Results(answers);
    var e := Flatten(results)[k];
    assert frames[k] == Rows(Flatten(results))[k];
    FlattenMembers(results, e);
    var f :| 0 <= f < |results| && e in results[f];
    var i :| 0 <= i < |results[f]| && results[f][i] == e;
    assert Asked(filters, answers, f, answers[f].out[i]);
  }

  /** A finished stream shows every row that an unlimited filter wants. */
  lemma WantedAreStreamed(filters: seq<ReqFilter>, answers: seq<Answer>, env: Environment, f: nat, id: nat)
    requires AllAnswered(filters, answers, env) && Asked(filters, answers, f, id)
    requires !env.unprepared(f) && filters[f].limit.None?
    ensures Found(answers[f].t.events[id].content) in Rows(Flatten(Results(answers)))
  {
    var results, e := Results(answers), answers[f].t.events[id].content;
    assert id in answers[f].out;
    var i :| 0 <= i < |answers[f].out| && answers[f].out[i] == id;
    assert results[f][i] == e;
    FlattenMembers(results, e);
    var k :| 0 <= k < |Flatten(results)| && Flatten(results)[k] == e;
    assert Rows(Flatten(results))[k] == Found(e);
  }

  /** Every filter was answered from a reachable store, and finds ids and authors alike. */
  ghost predicate FromReachable(filters: seq<ReqFilter>, answers: seq<Answer>, lives: seq<map<nat, Event>>) {
    |lives| == |answers| == |filters|
    && forall f :: 0 <= f < |answers| ==>
         (exists ops :: Run(ops) == answers[f].t)
         && LiveForms(answers[f].t, lives[f]) && AllSpelledAlike(filters[f], answers[f].t, lives[f])
  }

  /** Row `id`, as filter `f` met it, is visible and its live form interests the subscription. */
  ghost predicate InterestsSubscription(sub: Subscription, answers: seq<Answer>, lives: seq<map<nat, Event>>, f: nat, id: nat) {
    && f < |answers| && f < |lives| && id in answers[f].t.events && id in lives[f]
    && !answers[f].t.events[id].hidden && Unexpired(answers[f].t.events[id], answers[f].now)
    && SubscriptionInterested(sub, lives[f][id])
  }

  /**
   * What a subscription is shown of the past is what it would have been shown live: every event
   * streamed is the content of a visible, unexpired row whose live form interests it.
   */
  lemma StreamedInterest(sub: Subscription, answers: seq<Answer>, env: Environment, lives: seq<map<nat, Event>>, frames: seq<Frame>, k: nat)
    requires AllAnswered(sub.filters, answers, env) && FromReachable(sub.filters, answers, lives)
    requires frames <= Rows(Flatten(Results(answers))) && k < |frames|
    ensures frames[k].Found?
    ensures exists f: nat, id: nat :: InterestsSubscription(sub, answers, lives, f, id)
                                      && answers[f].t.events[id].content == frames[k].event
  {
    StreamedAreWanted(sub.filters, answers, env, frames, k);
    var f: nat, id: nat :| Asked(sub.filters, answers, f, id) && answers[f].t.events[id].content == frames[k].event;
    AskedInterests(sub, answers, lives, f, id);
  }

  lemma AskedInterests(sub: Subscription, answers: seq<Answer>, lives: seq<map<nat, Event>>, f: nat, id: nat)
    requires FromReachable(sub.filters, answers, lives) && Asked(sub.filters, answers, f, id)
    ensures InterestsSubscription(sub, answers, lives, f, id)
  {
    var t := answers[f].t;
    var ops :| Run(ops) == t;
    RunValid(ops);
    assert Faithful(t.events[id]);
    WantedIffInterested(t, id, sub.filters[f], answers[f].now, lives[f][id]);
  }
}
