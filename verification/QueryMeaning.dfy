/**
 * What a filter asks for, field by field: the live matcher and every answer of the compiled query
 * are measured against the same plain conditions on the event.
 */
module QueryMeaning {
  import opened Common
  import opened Events
  import opened Hex
  import opened EventTables
  import opened StoreInvariants
  import opened Filters
  import opened Sql
  import opened QueryCompiler
  import opened QueryAgreement

  /** The live form of an event: indexed as `build_index` does. */
  ghost predicate Indexed(e: Event) {
    (e.tagidx.None? <==> e.tags == []) && (e.tagidx.Some? ==> IndexOf(e.tagidx.value, e.tags))
  }

  /** Tag `k` has this one-character name and one of the values. */
  predicate TagAmong(e: Event, k: nat, c: char, wanted: set<string>) {
    k < |e.tags| && |e.tags[k]| >= 2 && e.tags[k][0] == [c] && e.tags[k][1] in wanted
  }

  lemma IntersectsMeans(e: Event, c: char, wanted: set<string>)
    requires Indexed(e)
    ensures TagValIntersects(e, c, wanted) <==> exists k: nat :: k < |e.tags| && TagAmong(e, k, c, wanted)
  {
    if TagValIntersects(e, c, wanted) {
      var v :| v in e.tagidx.value[c] * wanted;
      assert HasTag(e.tags, c, v);
      var k :| 0 <= k < |e.tags| && IsIndexed(e.tags[k]) && e.tags[k][0] == [c] && e.tags[k][1] == v;
      assert TagAmong(e, k, c, wanted);
    }
    if k: nat :| k < |e.tags| && TagAmong(e, k, c, wanted) {
      assert HasTag(e.tags, c, e.tags[k][1]);
      assert e.tags[k][1] in e.tagidx.value[c] * wanted;
    }
  }

  /**
   * What the live matcher accepts: every field that is given matches. Ids and authors are given by
   * beginnings, and the delegator counts as an author; kinds by number; times by bounds that count
   * as inside; tags by name and value, one of the values for every name.
   */
  lemma LiveMeaning(f: ReqFilter, e: Event)
    requires Indexed(e)
    ensures Interested(f, e) <==>
              && !f.forceNoMatch
              && (f.ids.Some? ==>
                    exists i :: 0 <= i < |f.ids.value| && |f.ids.value[i]| <= |e.id| && e.id[..|f.ids.value[i]|] == f.ids.value[i])
              && (f.authors.Some? ==>
                    exists i :: 0 <= i < |f.authors.value| && (Begins(f.authors.value[i], e.pubkey)
                                || (e.delegatedBy.Some? && Begins(f.authors.value[i], e.delegatedBy.value))))
              && (f.kinds.Some? ==> exists i :: 0 <= i < |f.kinds.value| && f.kinds.value[i] == e.kind)
              && (f.since.Some? ==> f.since.value <= e.createdAt)
              && (f.until.Some? ==> e.createdAt <= f.until.value)
              && (f.tags.Some? ==>
                    forall c :: c in f.tags.value ==> exists k: nat :: k < |e.tags| && TagAmong(e, k, c, f.tags.value[c]))
  {
    if f.tags.Some? {
      forall c | c in f.tags.value
        ensures TagValIntersects(e, c, f.tags.value[c]) <==> exists k: nat :: k < |e.tags| && TagAmong(e, k, c, f.tags.value[c])
      {
        IntersectsMeans(e, c, f.tags.value[c]);
      }
    }
    if f.authors.Some? {
      AuthorsMean(f.authors.value, e);
    }
    if f.ids.Some? {
      PrefixMeans(f.ids.value, e.id);
    }
  }

  predicate Begins(p: string, s: string) {
    |p| <= |s| && s[..|p|] == p
  }

  lemma PrefixMeans(prefixes: seq<string>, s: string)
    ensures PrefixMatch(prefixes, s) <==> exists i :: 0 <= i < |prefixes| && Begins(prefixes[i], s)
  {
    assert forall i :: 0 <= i < |prefixes| ==> (prefixes[i] <= s <==> Begins(prefixes[i], s));
  }

  lemma AuthorsMean(authors: seq<string>, e: Event)
    ensures PrefixMatch(authors, e.pubkey) || (e.delegatedBy.Some? && PrefixMatch(authors, e.delegatedBy.value))
            <==> exists i :: 0 <= i < |authors| && (Begins(authors[i], e.pubkey)
                             || (e.delegatedBy.Some? && Begins(authors[i], e.delegatedBy.value)))
  {
    PrefixMeans(authors, e.pubkey);
    if e.delegatedBy.Some? {
      PrefixMeans(authors, e.delegatedBy.value);
    }
  }

  // ---------------------------------------------------------------------------------------
  // Stored events
  // ---------------------------------------------------------------------------------------

  lemma TagWantedMeans(t: Tables, id: nat, f: ReqFilter, c: char, wanted: set<string>)
    requires Projected(t) && id in t.events && Columns(t.events[id])
    requires var e := t.events[id].content;
             KindMatch(f, e.kind) && SinceMatch(f, e.createdAt) && UntilMatch(f, e.createdAt)
    ensures TagWanted(f, c, wanted, id, t.tags)
            <==> exists k: nat :: k < |t.events[id].content.tags| && TagAmong(t.events[id].content, k, c, wanted)
  {
    var e := t.events[id].content;
    if TagWanted(f, c, wanted, id, t.tags) {
      var k :| 0 <= k < |t.tags| && t.tags[k].eventId == id && TagRowWanted(f, c, wanted, t.tags[k]);
      assert IsTagRow(t, k, id, [c], t.tags[k].value);
      TagRowIffTag(t, id, c, t.tags[k].value);
      TagValuesMean(e.tags, [c], t.tags[k].value);
      var l :| 0 <= l < |e.tags| && |e.tags[l]| >= 2 && e.tags[l][0] == [c] && e.tags[l][1] == t.tags[k].value;
      assert TagAmong(e, l, c, wanted);
    }
    if l: nat :| l < |e.tags| && TagAmong(e, l, c, wanted) {
      TagValuesMean(e.tags, [c], e.tags[l][1]);
      TagRowIffTag(t, id, c, e.tags[l][1]);
      var k: nat :| IsTagRow(t, k, id, [c], e.tags[l][1]);
      TagRowCopies(t, k);
      assert TagRowWanted(f, c, wanted, t.tags[k]);
    }
  }

  /** Some text decodes to the same bytes. */
  predicate Spells(texts: seq<string>, s: string) {
    exists i :: 0 <= i < |texts| && Decode(texts[i]) == Decode(s)
  }

  /**
   * What the compiled query asks of a stored event: it is not hidden, its first expiration tag does
   * not carry a number up to now, and every field that is given matches. Ids and authors are given
   * in full; kinds by number; times by bounds that count as inside; tags by name and value.
   */
  lemma StoredMeaning(t: Tables, id: nat, f: ReqFilter, now: nat)
    requires Valid(t) && id in t.events
    ensures var e := t.events[id].content;
            WantedIn(f, now, t, id) <==>
              && !f.forceNoMatch && !t.events[id].hidden
              && (forall n: nat :: CarriesExpiry(e, n) ==> now < n)
              && (f.ids.Some? ==> Spells(f.ids.value, e.id))
              && (f.authors.Some? ==> Spells(f.authors.value, e.pubkey))
              && (f.kinds.Some? ==> exists i :: 0 <= i < |f.kinds.value| && f.kinds.value[i] == e.kind)
              && (f.since.Some? ==> f.since.value <= e.createdAt)
              && (f.until.Some? ==> e.createdAt <= f.until.value)
              && (f.tags.Some? ==>
                    forall c :: c in f.tags.value ==> exists k: nat :: k < |e.tags| && TagAmong(e, k, c, f.tags.value[c]))
  {
    var r := t.events[id];
    var e := r.content;
    assert Faithful(r);
    UnexpiredMeans(r, now);
    if f.tags.Some? && KindMatch(f, e.kind) && SinceMatch(f, e.createdAt) && UntilMatch(f, e.createdAt) {
      forall c | c in f.tags.value
        ensures TagWanted(f, c, f.tags.value[c], id, t.tags)
                <==> exists k: nat :: k < |e.tags| && TagAmong(e, k, c, f.tags.value[c])
      {
        TagWantedMeans(t, id, f, c, f.tags.value[c]);
      }
    }
  }

  lemma UnexpiredMeans(r: EventRow, now: nat)
    requires Faithful(r)
    ensures Unexpired(r, now) <==> forall n: nat :: CarriesExpiry(r.content, n) ==> now < n
  {
    forall n: nat
      ensures Expiration(r.content) == Some(n) <==> CarriesExpiry(r.content, n)
    {
      ExpirationMeans(r.content, n);
    }
    if Expiration(r.content).Some? {
      assert CarriesExpiry(r.content, Expiration(r.content).value);
    }
  }

  /** Every answer to a compiled filter, in any reachable store, holds only rows that are asked for. */
  lemma AnsweredAreWanted(ops: seq<Op>, f: ReqFilter, now: nat, q: Query, params: seq<Value>, out: seq<nat>, i: nat)
    requires Compiled(f, now, q, params) && Answers(q, params, Run(ops), out) && i < |out|
    ensures out[i] in Run(ops).events && !Run(ops).events[out[i]].hidden
    ensures var e := Run(ops).events[out[i]].content;
            && (forall n: nat :: CarriesExpiry(e, n) ==> now < n)
            && (f.ids.Some? ==> exists j :: 0 <= j < |f.ids.value| && Decode(f.ids.value[j]) == Decode(e.id))
            && (f.authors.Some? ==> exists j :: 0 <= j < |f.authors.value| && Decode(f.authors.value[j]) == Decode(e.pubkey))
            && (f.kinds.Some? ==> exists j :: 0 <= j < |f.kinds.value| && f.kinds.value[j] == e.kind)
            && (f.since.Some? ==> f.since.value <= e.createdAt)
            && (f.until.Some? ==> e.createdAt <= f.until.value)
            && (f.tags.Some? ==>
                  forall c :: c in f.tags.value ==>
                    exists k: nat :: k < |e.tags| && |e.tags[k]| >= 2 && e.tags[k][0] == [c] && e.tags[k][1] in f.tags.value[c])
  {
    RunValid(ops);
    CompiledAnswers(f, now, q, params, Run(ops), out);
    assert WantedIn(f, now, Run(ops), out[i]);
    StoredMeaning(Run(ops), out[i], f, now);
    var e := Run(ops).events[out[i]].content;
    if f.tags.Some? {
      forall c | c in f.tags.value
        ensures exists k: nat :: k < |e.tags| && |e.tags[k]| >= 2 && e.tags[k][0] == [c] && e.tags[k][1] in f.tags.value[c]
      {
        var k: nat :| k < |e.tags| && TagAmong(e, k, c, f.tags.value[c]);
      }
    }
  }

  /** Without a limit the answer leaves out nothing that is asked for. */
  lemma WantedAreAnswered(ops: seq<Op>, f: ReqFilter, now: nat, q: Query, params: seq<Value>, out: seq<nat>, id: nat)
    requires Compiled(f, now, q, params) && Answers(q, params, Run(ops), out) && f.limit.None?
    requires id in Run(ops).events && !Run(ops).events[id].hidden && !f.forceNoMatch
    requires var e := Run(ops).events[id].content;
             && (forall n: nat :: CarriesExpiry(e, n) ==> now < n)
             && (f.ids.Some? ==> exists j :: 0 <= j < |f.ids.value| && Decode(f.ids.value[j]) == Decode(e.id))
             && (f.authors.Some? ==> exists j :: 0 <= j < |f.authors.value| && Decode(f.authors.value[j]) == Decode(e.pubkey))
             && (f.kinds.Some? ==> exists j :: 0 <= j < |f.kinds.value| && f.kinds.value[j] == e.kind)
             && (f.since.Some? ==> f.since.value <= e.createdAt)
             && (f.until.Some? ==> e.createdAt <= f.until.value)
             && (f.tags.Some? ==>
                   forall c :: c in f.tags.value ==>
                     exists k: nat :: k < |e.tags| && TagAmong(e, k, c, f.tags.value[c]))
    ensures id in out
  {
    RunValid(ops);
    CompiledAnswers(f, now, q, params, Run(ops), out);
    StoredMeaning(Run(ops), id, f, now);
    assert WantedIn(f, now, Run(ops), id);
  }

  /** A filter with nothing but the two bounds. */
  function Between(since: Option<nat>, until: Option<nat>): ReqFilter {
    ReqFilter(None, None, since, until, None, None, None, false)
  }

  /**
   * A filter from s to u is answered by exactly the visible, unexpired events made from s to u, in
   * any reachable store, and the live matcher accepts exactly the events made from s to u.
   */
  lemma BetweenMeaning(ops: seq<Op>, s: nat, u: nat, now: nat, q: Query, params: seq<Value>, out: seq<nat>, id: nat)
    requires Compiled(Between(Some(s), Some(u)), now, q, params) && Answers(q, params, Run(ops), out)
    ensures id in out <==>
              id in Run(ops).events && !Run(ops).events[id].hidden
              && (forall n: nat :: CarriesExpiry(Run(ops).events[id].content, n) ==> now < n)
              && s <= Run(ops).events[id].content.createdAt <= u
    ensures forall e: Event :: Indexed(e) ==> (Interested(Between(Some(s), Some(u)), e) <==> s <= e.createdAt <= u)
  {
    var f := Between(Some(s), Some(u));
    RunValid(ops);
    CompiledAnswers(f, now, q, params, Run(ops), out);
    if id in Run(ops).events {
      StoredMeaning(Run(ops), id, f, now);
    }
    assert id in out ==> WantedIn(f, now, Run(ops), id);
    forall e: Event | Indexed(e)
      ensures Interested(f, e) <==> s <= e.createdAt <= u
    {
      LiveMeaning(f, e);
    }
  }
}
