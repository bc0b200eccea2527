/** The SQLite event store as an object whose operations change its two tables in place. */
module EventStore {
  import opened Common
  import opened Events
  import opened Hex
  import opened EventTables
  import opened StoreInvariants

  lemma {:induction false} DerivedTagsSnoc(id: nat, tags: seq<Tag>, tag: Tag, kind: nat, createdAt: nat)
    ensures DerivedTags(id, tags + [tag], kind, createdAt)
            == DerivedTags(id, tags, kind, createdAt)
               + if IsIndexed(tag) then [TagRow(id, tag[0], tag[1], kind, createdAt)] else []
  {
    if tags == [] {
      assert tags + [tag] == [tag];
      assert [tag][1..] == [];
    } else {
      DerivedTagsSnoc(id, tags[1..], tag, kind, createdAt);
      assert (tags + [tag])[1..] == tags[1..] + [tag];
    }
  }

  class Store {
    var events: map<nat, EventRow>
    var tags: seq<TagRow>

    function Contents(): Tables
      reads this
    {
      Tables(events, tags)
    }

    constructor ()
      ensures Contents() == EMPTY
    {
      events, tags := map[], [];
    }

    method Put(t: Tables)
      modifies this
      ensures Contents() == t
    {
      events, tags := t.events, t.tags;
    }

    /** Insert a tag row for every valued tag with a one-character name. */
    method InsertTags(id: nat, eventTags: seq<Tag>, kind: nat, createdAt: nat)
      modifies this`tags
      ensures tags == old(tags) + DerivedTags(id, eventTags, kind, createdAt)
    {
      for i := 0 to |eventTags|
        invariant tags == old(tags) + DerivedTags(id, eventTags[..i], kind, createdAt)
      {
        var tag := eventTags[i];
        assert eventTags[..i + 1] == eventTags[..i] + [tag];
        DerivedTagsSnoc(id, eventTags[..i], tag, kind, createdAt);
        if |tag| >= 2 {
          if SingleCharTagName(tag[0]).Some? {
            tags := tags + [TagRow(id, tag[0], tag[1], kind, createdAt)];
          }
        }
      }
      assert eventTags[..|eventTags|] == eventTags;
    }

    /** The hashes named by a deletion event, as bound to the update statement. */
    method NamedHashes(e: Event) returns (hashes: seq<Bytes>)
      ensures forall h :: h in hashes <==> NamesHash(e, h)
      ensures forall h :: h in hashes ==> |h| == 32
    {
      var candidates := TagValuesByName(e.tags, "e");
      hashes := [];
      for i := 0 to |candidates|
        invariant forall h :: h in hashes ==> |h| == 32
        invariant forall h :: h in hashes <==>
                                exists j :: 0 <= j < i && |candidates[j]| == 64 && IsHex(candidates[j]) && Decode(candidates[j]) == Some(h)
      {
        var x := candidates[i];
        if IsHex(x) && |x| == 64 && Decode(x).Some? {
          hashes := hashes + [Decode(x).value];
        }
      }
    }

    /** `persist_event`: the tables and the reported count are those of `Persist`. */
    method PersistEvent(e: Event, tie: nat) returns (outcome: Outcome)
      modifies this
      ensures (Contents(), outcome) == Persist(old(Contents()), e, tie)
      ensures old(Valid(Contents())) ==> Valid(Contents())
    {
      ghost var before := Contents();
      PersistKeepsValidIf(before, e, tie);
      if e.createdAt < TWO_POW_63 && ReplaceableShadow(Contents(), e) {
        return Written(0);
      }
      if e.createdAt < TWO_POW_63 && ParamShadow(Contents(), e) {
        return Written(0);
      }
      if !Bindable(e) {
        return Failed;
      }
      if InsertIgnored(Contents(), e) {
        return Written(0);
      }
      var author := Decode(e.pubkey).value;
      var id := NewRowId(events.Keys);
      events := events[id := RowFor(e)];
      InsertTags(id, e.tags, e.kind, e.createdAt);
      assert Contents() == Insert(before, e);
      if IsReplaceable(e.kind) {
        Put(PruneReplaceable(Contents(), author, e.kind, tie));
      }
      if DistinctParam(e).Some? {
        Put(PruneParam(Contents(), author, e.kind, DistinctParam(e).value, tie));
      }
      assert Contents() == Replaced(before, e, tie);
      if e.kind == 5 {
        var hashes := NamedHashes(e);
        var targets := set j | j in events && events[j].kind != 5 && events[j].author == author && events[j].hash in hashes;
        assert targets == DeletionTargets(Contents(), e);
        Put(HideEvents(Contents(), targets));
        return Written(1);
      }
      if DeletionRecorded(Contents(), author, e.id) {
        Put(HideEvents(Contents(), {id}));
        return Written(0);
      }
      return Written(1);
    }

    /** `delete_expired`: exactly the expired rows leave, with their tags. */
    method RemoveExpired(now: nat) returns (count: nat)
      modifies this
      ensures Contents() == DeleteExpired(old(Contents()), now)
      ensures count == |old(events)| - |events|
      ensures old(Valid(Contents())) ==> Valid(Contents())
    {
      var expired := set id | id in events && IsExpiredRow(events[id], now);
      count := |expired|;
      if Valid(Contents()) {
        DeleteKeepsValid(Contents(), expired);
      }
      ghost var before := events.Keys;
      Put(DeleteEvents(Contents(), expired));
      assert events.Keys == before - expired;
    }

    /**
     * The tag rebuild of `mig_15_to_16`: whatever the tag table held, it becomes the projection
     * of the event table.
     */
    method RebuildTags()
      modifies this`tags
      ensures Projected(Contents())
      ensures forall r: TagRow :: multiset(tags)[r] == ExpectedCount(Contents(), r)
    {
      tags := [];
      var rest := events.Keys;
      while rest != {}
        invariant rest <= events.Keys
        invariant forall k :: 0 <= k < |tags| ==> tags[k].eventId in events.Keys - rest
        invariant forall j :: j in events.Keys - rest ==> TagsOf(tags, j) == ExpectedTags(j, events[j])
        decreases rest
      {
        MinimumExists(rest);
        var id :| id in rest && forall j :: j in rest ==> id <= j;
        ghost var done := tags;
        InsertTags(id, events[id].content.tags, events[id].kind, events[id].createdAt);
        RebuiltOne(done, id, events[id], events, rest);
        rest := rest - {id};
      }
      forall r: TagRow
        ensures multiset(tags)[r] == ExpectedCount(Contents(), r)
      {
        ProjectionOfValid(Contents(), r);
      }
    }
  }

  lemma PersistKeepsValidIf(t: Tables, e: Event, tie: nat)
    ensures Valid(t) ==> Valid(Persist(t, e, tie).0)
  {
    if Valid(t) {
      PersistKeepsValid(t, e, tie);
    }
  }

  /** Appending the rows of one more event completes it and leaves the others alone. */
  lemma RebuiltOne(done: seq<TagRow>, id: nat, r: EventRow, events: map<nat, EventRow>, rest: set<nat>)
    requires id in rest && id in events && events[id] == r && rest <= events.Keys
    requires forall k :: 0 <= k < |done| ==> done[k].eventId in events.Keys - rest
    requires forall j :: j in events.Keys - rest ==> TagsOf(done, j) == ExpectedTags(j, events[j])
    ensures forall k :: 0 <= k < |done + ExpectedTags(id, r)| ==>
                          (done + ExpectedTags(id, r))[k].eventId in events.Keys - (rest - {id})
    ensures forall j :: j in events.Keys - (rest - {id}) ==> TagsOf(done + ExpectedTags(id, r), j) == ExpectedTags(j, events[j])
  {
    var added := ExpectedTags(id, r);
    DerivedTagsBelong(id, r.content.tags, r.kind, r.createdAt);
    forall k | 0 <= k < |done + added|
      ensures (done + added)[k].eventId in events.Keys - (rest - {id})
    {
      if k >= |done| {
        assert (done + added)[k] in added;
      }
    }
    forall j | j in events.Keys - (rest - {id})
      ensures TagsOf(done + added, j) == ExpectedTags(j, events[j])
    {
      TagsOfAppend(done, added, j);
      TagsOfDerived(id, r.content.tags, r.kind, r.createdAt, j);
      if j == id {
        NoTagsOf(done, id);
      }
    }
  }
}
