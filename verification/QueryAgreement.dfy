/**
 * Two answers to the same question agree: the compiled query against the tables, and the live
 * matcher against the event. And the cleanup of expired events cannot be observed by a query.
 */
module QueryAgreement {
  import opened Common
  import opened Events
  import opened Hex
  import opened EventTables
  import opened StoreInvariants
  import opened Filters
  import opened Sql
  import opened QueryCompiler

  /** Filters that spell ids and authors in full. */
  predicate CanonicalFilter(f: ReqFilter) {
    && (f.ids.Some? ==> forall i :: 0 <= i < |f.ids.value| ==> IsCanonical(f.ids.value[i]))
    && (f.authors.Some? ==> forall i :: 0 <= i < |f.authors.value| ==> IsCanonical(f.authors.value[i]))
  }

  predicate CanonicalEvent(e: Event) {
    IsCanonical(e.id) && IsCanonical(e.pubkey)
  }

  /** A tag row that carries the wanted name and value exists exactly when the event has such a tag. */
  lemma TagWantedIffIntersects(t: Tables, id: nat, f: ReqFilter, c: char, wanted: set<string>, e: Event)
    requires Projected(t) && id in t.events && Live(e, t.events[id].content)
    requires KindMatch(f, t.events[id].kind)
    requires SinceMatch(f, t.events[id].createdAt) && UntilMatch(f, t.events[id].createdAt)
    ensures TagWanted(f, c, wanted, id, t.tags) <==> TagValIntersects(e, c, wanted)
  {
    IntersectsIffHasTag(e, t.events[id].content, c, wanted);
    if TagWanted(f, c, wanted, id, t.tags) {
      var k :| 0 <= k < |t.tags| && t.tags[k].eventId == id && TagRowWanted(f, c, wanted, t.tags[k]);
      assert IsTagRow(t, k, id, [c], t.tags[k].value);
      TagRowIffTag(t, id, c, t.tags[k].value);
      TagValuesAreIndexed(e.tags, c, t.tags[k].value);
    }
    if v :| v in wanted && HasTag(e.tags, c, v) {
      TagValuesAreIndexed(e.tags, c, v);
      TagRowIffTag(t, id, c, v);
      var k: nat :| IsTagRow(t, k, id, [c], v);
      TagRowCopies(t, k);
      assert TagRowWanted(f, c, wanted, t.tags[k]);
    }
  }

  lemma TagsWantedIffTagMatch(t: Tables, id: nat, f: ReqFilter, e: Event)
    requires Projected(t) && id in t.events && Live(e, t.events[id].content)
    requires KindMatch(f, t.events[id].kind)
    requires SinceMatch(f, t.events[id].createdAt) && UntilMatch(f, t.events[id].createdAt)
    ensures TagsWanted(f, id, t.tags) <==> TagMatch(f, e)
  {
    if f.tags.Some? {
      forall c | c in f.tags.value
        ensures TagWanted(f, c, f.tags.value[c], id, t.tags) <==> TagValIntersects(e, c, f.tags.value[c])
      {
        TagWantedIffIntersects(t, id, f, c, f.tags.value[c], e);
      }
    }
  }

  /** The row is visible and its event is one the live matcher accepts. */
  predicate Visible(r: EventRow, f: ReqFilter, now: nat, e: Event) {
    !r.hidden && Unexpired(r, now) && Interested(f, e)
  }

  // ---------------------------------------------------------------------------------------
  // How ids and authors are spelled
  // ---------------------------------------------------------------------------------------

  /** Some text spells the target in full, in any case; or nothing is asked. */
  predicate SpelledInFull(texts: Option<seq<string>>, target: string) {
    texts.Some? ==> exists i :: 0 <= i < |texts.value| && Lower(texts.value[i]) == target
  }

  /** The stored query finds the id and the author of the event among those of the filter. */
  predicate FoundByQuery(f: ReqFilter, e: Event) {
    SpelledInFull(f.ids, e.id) && SpelledInFull(f.authors, e.pubkey)
  }

  /** The live matcher does. */
  predicate FoundLive(f: ReqFilter, e: Event) {
    IdsMatch(f, e) && AuthorsMatch(f, e)
  }

  predicate SpelledAlike(f: ReqFilter, e: Event) {
    FoundByQuery(f, e) <==> FoundLive(f, e)
  }

  /** Everything but ids and authors matches. */
  predicate OtherwiseWanted(f: ReqFilter, now: nat, r: EventRow, e: Event) {
    && !f.forceNoMatch && !r.hidden && Unexpired(r, now)
    && KindMatch(f, e.kind) && SinceMatch(f, e.createdAt) && UntilMatch(f, e.createdAt) && TagMatch(f, e)
  }

  lemma DecodesIffInFull(texts: seq<string>, target: string, bytes: Bytes)
    requires IsCanonical(target) && Decode(target) == Some(bytes)
    ensures DecodesTo(texts, bytes) <==> SpelledInFull(Some(texts), target)
  {
    forall i | 0 <= i < |texts|
      ensures Decode(texts[i]) == Some(bytes) <==> Lower(texts[i]) == target
    {
      DecodesIffSpelled(texts[i], target);
    }
  }

  /**
   * Exactly when the two answers agree on a row, for any filter: unless everything else matches,
   * always; otherwise exactly when its id and author are found both by the query, which wants full
   * spellings in any case, and by the live matcher, which wants lowercase prefixes, or by neither.
   */
  lemma AgreementExactly(t: Tables, id: nat, f: ReqFilter, now: nat, e: Event)
    requires Projected(t) && id in t.events && Columns(t.events[id])
    requires Live(e, t.events[id].content) && CanonicalEvent(e)
    ensures Wanted(f, now, id, t.events[id], t.tags) <==> OtherwiseWanted(f, now, t.events[id], e) && FoundByQuery(f, e)
    ensures (Wanted(f, now, id, t.events[id], t.tags) <==> Visible(t.events[id], f, now, e))
            <==> (OtherwiseWanted(f, now, t.events[id], e) ==> SpelledAlike(f, e))
  {
    var r := t.events[id];
    if f.ids.Some? {
      DecodesIffInFull(f.ids.value, e.id, r.hash);
    }
    if f.authors.Some? {
      DecodesIffInFull(f.authors.value, e.pubkey, r.author);
    }
    if KindMatch(f, r.kind) && SinceMatch(f, r.createdAt) && UntilMatch(f, r.createdAt) {
      TagsWantedIffTagMatch(t, id, f, e);
    }
  }

  lemma CanonicalInFull(texts: seq<string>, target: string)
    requires IsCanonical(target) && forall i :: 0 <= i < |texts| ==> IsCanonical(texts[i])
    ensures SpelledInFull(Some(texts), target) <==> PrefixMatch(texts, target)
  {
    PrefixOfCanonical(texts, target);
    forall i | 0 <= i < |texts|
      ensures Lower(texts[i]) == texts[i]
    {
    }
  }

  /** Full lowercase spellings are found alike. */
  lemma CanonicalSpelledAlike(f: ReqFilter, e: Event)
    requires CanonicalFilter(f) && CanonicalEvent(e)
    ensures SpelledAlike(f, e)
  {
    if f.ids.Some? {
      CanonicalInFull(f.ids.value, e.id);
    }
    if f.authors.Some? {
      CanonicalInFull(f.authors.value, e.pubkey);
    }
  }

  lemma WantedIffInterested(t: Tables, id: nat, f: ReqFilter, now: nat, e: Event)
    requires Projected(t) && id in t.events && Columns(t.events[id])
    requires Live(e, t.events[id].content) && CanonicalEvent(e) && SpelledAlike(f, e)
    ensures Wanted(f, now, id, t.events[id], t.tags) <==> Visible(t.events[id], f, now, e)
  {
    AgreementExactly(t, id, f, now, e);
  }

  /** For every row, its live form: not delegated, canonical, indexed. */
  ghost predicate LiveForms(t: Tables, live: map<nat, Event>) {
    forall id :: id in t.events ==>
      id in live && Live(live[id], t.events[id].content) && CanonicalEvent(live[id])
  }

  /** The filter finds the ids and authors of all rows alike; full lowercase spellings do. */
  ghost predicate AllSpelledAlike(f: ReqFilter, t: Tables, live: map<nat, Event>)
    requires LiveForms(t, live)
  {
    forall id :: id in t.events ==> SpelledAlike(f, live[id])
  }

  lemma CanonicalAllAlike(f: ReqFilter, t: Tables, live: map<nat, Event>)
    requires CanonicalFilter(f) && LiveForms(t, live)
    ensures AllSpelledAlike(f, t, live)
  {
    forall id | id in t.events
      ensures SpelledAlike(f, live[id])
    {
      CanonicalSpelledAlike(f, live[id]);
    }
  }

  /**
   * Compiler correctness. In every reachable store, any answer of the compiled query consists of
   * visible rows that the live matcher accepts, without repetition. Without a limit it is all of
   * them, oldest first. With a limit n it is n newest of them, newest first, or all if fewer.
   */
  lemma CompilerCorrect(ops: seq<Op>, f: ReqFilter, now: nat, q: Query, params: seq<Value>, live: map<nat, Event>, out: seq<nat>)
    requires Compiled(f, now, q, params)
    requires LiveForms(Run(ops), live) && AllSpelledAlike(f, Run(ops), live)
    requires Answers(q, params, Run(ops), out)
    ensures forall i :: 0 <= i < |out| ==>
              out[i] in Run(ops).events && Visible(Run(ops).events[out[i]], f, now, live[out[i]])
    ensures forall i, j :: 0 <= i < j < |out| ==> out[i] != out[j]
    ensures forall id :: id in Run(ops).events && Visible(Run(ops).events[id], f, now, live[id]) && id !in out ==>
              f.limit.Some? && |out| == f.limit.value
              && forall i :: 0 <= i < |out| ==> Run(ops).events[id].createdAt <= Run(ops).events[out[i]].createdAt
    ensures f.limit.Some? && !f.forceNoMatch ==> |out| <= f.limit.value
    ensures f.limit.Some? && !f.forceNoMatch ==>
              forall i, j :: 0 <= i < j < |out| ==> Run(ops).events[out[i]].createdAt >= Run(ops).events[out[j]].createdAt
    ensures f.limit.None? && !f.forceNoMatch ==>
              forall i, j :: 0 <= i < j < |out| ==> Run(ops).events[out[i]].createdAt <= Run(ops).events[out[j]].createdAt
  {
    var t := Run(ops);
    RunValid(ops);
    forall id | id in t.events
      ensures Selected(q, params, t, id) <==> Visible(t.events[id], f, now, live[id])
    {
      SelectedIffVisible(t, f, now, q, params, live, id);
    }
    forall i | 0 <= i < |out|
      ensures out[i] in t.events && Visible(t.events[out[i]], f, now, live[out[i]])
    {
      assert Selected(q, params, t, out[i]);
    }
  }

  /**
   * For full lowercase ids and authors and without a limit, the answer holds exactly the visible
   * rows that the live matcher accepts.
   */
  lemma CanonicalAnswers(ops: seq<Op>, f: ReqFilter, now: nat, q: Query, params: seq<Value>, live: map<nat, Event>, out: seq<nat>)
    requires Compiled(f, now, q, params) && CanonicalFilter(f) && f.limit.None?
    requires LiveForms(Run(ops), live) && Answers(q, params, Run(ops), out)
    ensures forall id :: id in out <==> id in Run(ops).events && Visible(Run(ops).events[id], f, now, live[id])
  {
    CanonicalAllAlike(f, Run(ops), live);
    CompilerCorrect(ops, f, now, q, params, live, out);
  }

  lemma SelectedIffVisible(t: Tables, f: ReqFilter, now: nat, q: Query, params: seq<Value>, live: map<nat, Event>, id: nat)
    requires Compiled(f, now, q, params)
    requires Valid(t) && LiveForms(t, live) && AllSpelledAlike(f, t, live) && id in t.events
    ensures Selected(q, params, t, id) <==> Visible(t.events[id], f, now, live[id])
  {
    assert Faithful(t.events[id]);
    WantedIffInterested(t, id, f, now, live[id]);
  }

  /** A shortened author is found by the live matcher and never by the query. */
  lemma PrefixesDisagree(f: ReqFilter, now: nat, r: EventRow, e: Event, author: string)
    requires f == ReqFilter(None, None, None, None, Some([author]), None, None, false)
    requires Columns(r) && Live(e, r.content) && CanonicalEvent(e)
    requires author < e.pubkey
    ensures Interested(f, e) && !Wanted(f, now, 1, r, [])
  {
    assert f.authors.value[0] <= e.pubkey;
    assert |author| < 64;
    assert |r.author| == 32;
  }

  /** An author spelled with an uppercase letter is found by the query and never by the live matcher. */
  lemma UppercaseDisagrees(f: ReqFilter, now: nat, r: EventRow, e: Event, author: string)
    requires f == ReqFilter(None, None, None, None, Some([author]), None, None, false)
    requires Columns(r) && Live(e, r.content) && CanonicalEvent(e) && !r.hidden && Unexpired(r, now)
    requires Lower(author) == e.pubkey && author != e.pubkey
    ensures Wanted(f, now, 1, r, []) && !Interested(f, e)
  {
    DecodesIffSpelled(author, e.pubkey);
    assert f.authors.value[0] == author;
    assert author <= e.pubkey ==> author == e.pubkey;
  }

  // ---------------------------------------------------------------------------------------
  // Expiry
  // ---------------------------------------------------------------------------------------

  /** Rows that stay keep their tag evidence. */
  lemma TagWantedAfterDelete(f: ReqFilter, c: char, wanted: set<string>, id: nat, tags: seq<TagRow>, ids: set<nat>)
    requires id !in ids
    ensures TagWanted(f, c, wanted, id, TagsWithout(tags, ids)) <==> TagWanted(f, c, wanted, id, tags)
  {
    var rest := TagsWithout(tags, ids);
    TagsWithoutMembers(tags, ids);
    if k :| 0 <= k < |tags| && tags[k].eventId == id && TagRowWanted(f, c, wanted, tags[k]) {
      assert tags[k] in rest;
      var l :| 0 <= l < |rest| && rest[l] == tags[k];
    }
    if k :| 0 <= k < |rest| && rest[k].eventId == id && TagRowWanted(f, c, wanted, rest[k]) {
      assert rest[k] in tags;
      var l :| 0 <= l < |tags| && tags[l] == rest[k];
    }
  }

  lemma WantedAfterDelete(f: ReqFilter, now: nat, id: nat, r: EventRow, tags: seq<TagRow>, ids: set<nat>)
    requires id !in ids
    ensures Wanted(f, now, id, r, TagsWithout(tags, ids)) <==> Wanted(f, now, id, r, tags)
  {
    if f.tags.Some? {
      forall c | c in f.tags.value
        ensures TagWanted(f, c, f.tags.value[c], id, TagsWithout(tags, ids)) <==> TagWanted(f, c, f.tags.value[c], id, tags)
      {
        TagWantedAfterDelete(f, c, f.tags.value[c], id, tags, ids);
      }
    }
  }

  lemma SelectedAfterExpiry(f: ReqFilter, q: Query, params: seq<Value>, t: Tables, earlier: nat, now: nat, id: nat)
    requires Compiled(f, now, q, params) && earlier <= now
    ensures Selected(q, params, DeleteExpired(t, earlier), id) <==> Selected(q, params, t, id)
  {
    var expired := set j | j in t.events && IsExpiredRow(t.events[j], earlier);
    if id in t.events && id !in expired {
      WantedAfterDelete(f, now, id, t.events[id], t.tags, expired);
    }
  }

  /**
   * Expiry cleanup is invisible to readers: at any later time, a query has the same answers
   * whether or not the cleanup ran.
   */
  lemma ExpiryInvisible(f: ReqFilter, q: Query, params: seq<Value>, t: Tables, earlier: nat, now: nat, out: seq<nat>)
    requires Compiled(f, now, q, params) && earlier <= now
    ensures Answers(q, params, DeleteExpired(t, earlier), out) <==> Answers(q, params, t, out)
  {
    var t' := DeleteExpired(t, earlier);
    forall id: nat
      ensures Selected(q, params, t', id) <==> Selected(q, params, t, id)
    {
      SelectedAfterExpiry(f, q, params, t, earlier, now, id);
    }
  }
}
