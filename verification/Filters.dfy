/** Subscription filters and the matcher for live events (src/subscription.rs). */
module Filters {
  import opened Common
  import opened Events
  import opened Hex

  /** A request filter; an absent field does not restrict. */
  datatype ReqFilter = ReqFilter(
    ids: Option<seq<string>>,
    kinds: Option<seq<nat>>,
    since: Option<nat>,
    until: Option<nat>,
    authors: Option<seq<string>>,
    limit: Option<nat>,
    tags: Option<map<char, set<string>>>,
    forceNoMatch: bool)

  datatype Subscription = Subscription(id: string, filters: seq<ReqFilter>)

  /** Some prefix starts the target. */
  predicate PrefixMatch(prefixes: seq<string>, target: string) {
    exists i :: 0 <= i < |prefixes| && prefixes[i] <= target
  }

  predicate IdsMatch(f: ReqFilter, e: Event) {
    f.ids.Some? ==> PrefixMatch(f.ids.value, e.id)
  }

  predicate AuthorsMatch(f: ReqFilter, e: Event) {
    f.authors.Some? ==> PrefixMatch(f.authors.value, e.pubkey)
  }

  predicate DelegatedAuthorsMatch(f: ReqFilter, e: Event) {
    e.delegatedBy.Some? && (f.authors.Some? ==> PrefixMatch(f.authors.value, e.delegatedBy.value))
  }

  /** Every tag name of the filter has a value in common with the event. */
  predicate TagMatch(f: ReqFilter, e: Event) {
    f.tags.Some? ==> forall c :: c in f.tags.value ==> TagValIntersects(e, c, f.tags.value[c])
  }

  predicate KindMatch(f: ReqFilter, kind: nat) {
    f.kinds.Some? ==> kind in f.kinds.value
  }

  predicate SinceMatch(f: ReqFilter, createdAt: nat) {
    f.since.Some? ==> createdAt >= f.since.value
  }

  predicate UntilMatch(f: ReqFilter, createdAt: nat) {
    f.until.Some? ==> createdAt <= f.until.value
  }

  /** `ReqFilter::interested_in_event`. */
  predicate Interested(f: ReqFilter, e: Event) {
    && IdsMatch(f, e)
    && SinceMatch(f, e.createdAt)
    && UntilMatch(f, e.createdAt)
    && KindMatch(f, e.kind)
    && (AuthorsMatch(f, e) || DelegatedAuthorsMatch(f, e))
    && TagMatch(f, e)
    && !f.forceNoMatch
  }

  /** `Subscription::interested_in_event`: any filter suffices. */
  predicate SubscriptionInterested(s: Subscription, e: Event) {
    exists i :: 0 <= i < |s.filters| && Interested(s.filters[i], e)
  }

  /** `needs_historical_events`: some filter does not have limit 0. */
  predicate NeedsHistory(s: Subscription) {
    exists i :: 0 <= i < |s.filters| && s.filters[i].limit != Some(0)
  }

  /** The live form of a stored event: not delegated, indexed as `build_index` does. */
  ghost predicate Live(e: Event, stored: Event) {
    && e.(delegatedBy := None, tagidx := None) == stored
    && e.delegatedBy.None?
    && (e.tagidx.None? <==> e.tags == [])
    && (e.tagidx.Some? ==> IndexOf(e.tagidx.value, e.tags))
  }

  /** For a live event the index decides exactly whether the event carries a wanted tag. */
  lemma IntersectsIffHasTag(e: Event, stored: Event, name: char, wanted: set<string>)
    requires Live(e, stored)
    ensures TagValIntersects(e, name, wanted) <==> exists v :: v in wanted && HasTag(e.tags, name, v)
  {
    if v :| v in wanted && HasTag(e.tags, name, v) {
      assert v in e.tagidx.value[name] * wanted;
    }
    if TagValIntersects(e, name, wanted) {
      var v :| v in e.tagidx.value[name] * wanted;
      assert HasTag(e.tags, name, v);
    }
  }

  /** A full-length prefix of a canonical text is that text. */
  lemma PrefixOfCanonical(prefixes: seq<string>, target: string)
    requires IsCanonical(target)
    requires forall i :: 0 <= i < |prefixes| ==> IsCanonical(prefixes[i])
    ensures PrefixMatch(prefixes, target) <==> target in prefixes
  {
    forall i | 0 <= i < |prefixes|
      ensures prefixes[i] <= target <==> prefixes[i] == target
    {
      assert target[..64] == target;
    }
  }
}
