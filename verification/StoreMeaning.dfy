/**
 * The store in plain numbers and tags: which kinds keep one event, which of them it is, what stays
 * hidden and what a cleanup removes.
 */
module StoreMeaning {
  import opened Common
  import opened Events
  import opened Hex
  import opened EventTables
  import opened StoreInvariants
  import opened StoreEffect
  import opened StoreRuns
  import opened StoreSafety
  import opened StoreExact
  import opened StoreRefusal
  import opened StoreSlots

  // ---------------------------------------------------------------------------------------
  // Events in plain terms
  // ---------------------------------------------------------------------------------------

  /** Tag `k` is the only d tag, and its value is `d`. */
  predicate IsOnlyD(tags: seq<Tag>, d: string, k: nat) {
    && k < |tags| && |tags[k]| >= 2 && tags[k][0] == "d" && tags[k][1] == d
    && forall j :: 0 <= j < |tags| && j != k ==> !(|tags[j]| >= 1 && tags[j][0] == "d")
  }

  /** The event has exactly one d tag, with this value. */
  predicate CarriesD(e: Event, d: string) {
    exists k: nat :: k < |e.tags| && IsOnlyD(e.tags, d, k)
  }

  lemma {:induction false} OnlyDMeans(tags: seq<Tag>, d: string, k: nat)
    requires IsOnlyD(tags, d, k)
    ensures TagValuesByName(tags, "d") == [d] && FirstTagValue(tags, "d") == Some(d)
  {
    if k > 0 {
      assert !(|tags[0]| >= 1 && tags[0][0] == "d");
      forall j | 0 <= j < |tags[1..]| && j != k - 1
        ensures !(|tags[1..][j]| >= 1 && tags[1..][j][0] == "d")
      {
        assert tags[1..][j] == tags[j + 1];
      }
      OnlyDMeans(tags[1..], d, k - 1);
    } else {
      forall j | 0 <= j < |tags[1..]|
        ensures !(|tags[1..][j]| >= 2 && tags[1..][j][0] == "d")
      {
        assert tags[1..][j] == tags[j + 1];
      }
      NoneNamed(tags[1..]);
    }
  }

  lemma {:induction false} NoneNamed(tags: seq<Tag>)
    requires forall j :: 0 <= j < |tags| ==> !(|tags[j]| >= 2 && tags[j][0] == "d")
    ensures TagValuesByName(tags, "d") == []
  {
    if tags != [] {
      assert !(|tags[0]| >= 2 && tags[0][0] == "d");
      forall j | 0 <= j < |tags[1..]|
        ensures !(|tags[1..][j]| >= 2 && tags[1..][j][0] == "d")
      {
        assert tags[1..][j] == tags[j + 1];
      }
      NoneNamed(tags[1..]);
    }
  }

  /**
   * Hexadecimal id and author, numbers of at most 63 bits, and for the kinds 30000 to 39999 exactly
   * one d tag, which has a value.
   */
  ghost predicate Clean(e: Event) {
    && Decode(e.id).Some? && Decode(e.pubkey).Some?
    && e.createdAt < 0x8000_0000_0000_0000 && e.kind < 0x8000_0000_0000_0000
    && (forall n: nat :: CarriesExpiry(e, n) ==> n < 0x8000_0000_0000_0000)
    && (30000 <= e.kind < 40000 ==> exists d :: CarriesD(e, d))
  }

  lemma CarriesMeans(e: Event, d: string)
    requires 30000 <= e.kind < 40000 && CarriesD(e, d)
    ensures TagValuesByName(e.tags, "d") == [d] && DistinctParam(e) == Some(d) && OwnDIndexed(e)
    ensures SlotOf(e) == Some(Slot(Decode(e.pubkey), e.kind, Some(d)))
  {
    var k: nat :| k < |e.tags| && IsOnlyD(e.tags, d, k);
    OnlyDMeans(e.tags, d, k);
  }

  lemma CleanIsStorable(e: Event)
    requires Clean(e)
    ensures Storable(e)
  {
    if Expiration(e).Some? {
      ExpirationMeans(e, Expiration(e).value);
    }
    if 30000 <= e.kind < 40000 {
      var d :| CarriesD(e, d);
      CarriesMeans(e, d);
    }
  }

  ghost predicate AllClean(es: seq<Event>) {
    forall i :: 0 <= i < |es| ==> Clean(es[i])
  }

  lemma CleanAreStorable(es: seq<Event>)
    requires AllClean(es)
    ensures AllStorable(es)
  {
    forall i | 0 <= i < |es|
      ensures Storable(es[i])
    {
      CleanIsStorable(es[i]);
    }
  }

  // ---------------------------------------------------------------------------------------
  // One event per kind
  // ---------------------------------------------------------------------------------------

  /**
   * Whatever was submitted, cleanups included: one event per author for kind 0, for 3, for 41 and
   * for each kind from 10000 to 19999.
   */
  lemma OnePerReplaceableKind(ops: seq<Op>, i: nat, j: nat)
    requires i in Run(ops).events && j in Run(ops).events
    requires var a, b := Run(ops).events[i].content, Run(ops).events[j].content;
             && Decode(a.pubkey) == Decode(b.pubkey) && a.kind == b.kind
             && (a.kind == 0 || a.kind == 3 || a.kind == 41 || 10000 <= a.kind < 20000)
    ensures i == j
  {
    RunValid(ops);
    ReplaceableSlotsUnique(ops);
    assert Columns(Run(ops).events[i]) && Columns(Run(ops).events[j]);
  }

  /** And one per author, kind from 30000 to 39999, and value of the only d tag. */
  lemma OnePerParameterizedKind(ops: seq<Op>, i: nat, j: nat, d: string)
    requires i in Run(ops).events && j in Run(ops).events
    requires var a, b := Run(ops).events[i].content, Run(ops).events[j].content;
             && Decode(a.pubkey) == Decode(b.pubkey) && a.kind == b.kind && 30000 <= a.kind < 40000
             && CarriesD(a, d) && CarriesD(b, d)
    ensures i == j
  {
    IndexedSlotsUnique(ops);
    CarriesMeans(Run(ops).events[i].content, d);
    CarriesMeans(Run(ops).events[j].content, d);
  }

  /** The winner of a slot is stored. */
  lemma WinnerStored(ops: seq<Op>, k: nat) returns (id: nat)
    requires NoExpiry(ops) && AllClean(Submitted(ops)) && IdsNameFields(Submitted(ops))
    requires k < |Submitted(ops)| && SlotOf(Submitted(ops)[k]).Some?
    ensures id in Run(ops).events
    ensures var es, left := Submitted(ops), Run(ops).events[id].content;
            && left in es && SlotOf(left) == SlotOf(es[k])
            && forall j :: 0 <= j < |es| && SlotOf(es[j]) == SlotOf(es[k]) ==> es[j].createdAt <= left.createdAt
  {
    var es := Submitted(ops);
    CleanAreStorable(es);
    LastWriterWins(ops);
    var i := WinnerExists(es, k);
    id :| id in Run(ops).events && Run(ops).events[id].content == es[i];
  }

  /**
   * The event left by a run of writes is the newest: for every submitted event of kind 0, 3, 41 or
   * 10000 to 19999 there is a stored one by its author and of its kind, as new as any submitted.
   */
  lemma NewestReplaceableLeft(ops: seq<Op>, k: nat)
    requires NoExpiry(ops) && AllClean(Submitted(ops)) && IdsNameFields(Submitted(ops)) && k < |Submitted(ops)|
    requires var kind := Submitted(ops)[k].kind; kind == 0 || kind == 3 || kind == 41 || 10000 <= kind < 20000
    ensures exists id :: id in Run(ops).events && Run(ops).events[id].content in Submitted(ops)
              && Decode(Run(ops).events[id].content.pubkey) == Decode(Submitted(ops)[k].pubkey)
              && Run(ops).events[id].content.kind == Submitted(ops)[k].kind
              && forall j :: 0 <= j < |Submitted(ops)| && Decode(Submitted(ops)[j].pubkey) == Decode(Submitted(ops)[k].pubkey)
                             && Submitted(ops)[j].kind == Submitted(ops)[k].kind ==>
                               Submitted(ops)[j].createdAt <= Run(ops).events[id].content.createdAt
  {
    var id := WinnerStored(ops, k);
    var es := Submitted(ops);
    forall j | 0 <= j < |es| && Decode(es[j].pubkey) == Decode(es[k].pubkey) && es[j].kind == es[k].kind
      ensures SlotOf(es[j]) == SlotOf(es[k])
    {
    }
  }

  /** The same for the kinds 30000 to 39999, by value of the d tag. */
  lemma NewestParameterizedLeft(ops: seq<Op>, k: nat, d: string)
    requires NoExpiry(ops) && AllClean(Submitted(ops)) && IdsNameFields(Submitted(ops)) && k < |Submitted(ops)|
    requires 30000 <= Submitted(ops)[k].kind < 40000 && CarriesD(Submitted(ops)[k], d)
    ensures exists id :: id in Run(ops).events && Run(ops).events[id].content in Submitted(ops)
              && Decode(Run(ops).events[id].content.pubkey) == Decode(Submitted(ops)[k].pubkey)
              && Run(ops).events[id].content.kind == Submitted(ops)[k].kind
              && CarriesD(Run(ops).events[id].content, d)
              && forall j :: 0 <= j < |Submitted(ops)| && Decode(Submitted(ops)[j].pubkey) == Decode(Submitted(ops)[k].pubkey)
                             && Submitted(ops)[j].kind == Submitted(ops)[k].kind && CarriesD(Submitted(ops)[j], d) ==>
                               Submitted(ops)[j].createdAt <= Run(ops).events[id].content.createdAt
  {
    var es := Submitted(ops);
    CarriesMeans(es[k], d);
    var id := WinnerStored(ops, k);
    var left := Run(ops).events[id].content;
    assert Clean(left);
    var d' :| CarriesD(left, d');
    CarriesMeans(left, d');
    forall j | 0 <= j < |es| && Decode(es[j].pubkey) == Decode(es[k].pubkey) && es[j].kind == es[k].kind && CarriesD(es[j], d)
      ensures es[j].createdAt <= left.createdAt
    {
      CarriesMeans(es[j], d);
    }
  }

  /**
   * Every other event is kept: a submitted event whose kind is not 0, 3 or 41, nor from 10000 to
   * 19999, nor from 30000 to 39999 is in the store after the run, whatever else was submitted.
   */
  lemma OrdinaryKept(ops: seq<Op>, k: nat)
    requires NoExpiry(ops) && AllClean(Submitted(ops)) && IdsNameFields(Submitted(ops)) && k < |Submitted(ops)|
    requires var kind := Submitted(ops)[k].kind;
             && kind != 0 && kind != 3 && kind != 41 && !(10000 <= kind < 20000) && !(30000 <= kind < 40000)
    ensures exists id :: id in Run(ops).events && Decode(Run(ops).events[id].content.id) == Decode(Submitted(ops)[k].id)
                         && SameFields(Run(ops).events[id].content, Submitted(ops)[k])
  {
    CleanAreStorable(Submitted(ops));
    LastWriterWins(ops);
    assert SlotOf(Submitted(ops)[k]).None?;
    var i := Representative(Submitted(ops), k);
    var id :| id in Run(ops).events && Run(ops).events[id].content == Submitted(ops)[i];
  }

  // ---------------------------------------------------------------------------------------
  // Deletions
  // ---------------------------------------------------------------------------------------

  /** 64 digits or lowercase letters from a to f. */
  predicate IsId(id: string) {
    |id| == 64 && forall i :: 0 <= i < 64 ==> '0' <= id[i] <= '9' || 'a' <= id[i] <= 'f'
  }

  lemma IdIsCanonical(id: string)
    ensures IsId(id) <==> IsCanonical(id)
  {
    assert IsCanonical(id) ==> forall i :: 0 <= i < 64 ==> IsLowerHexDigit(id[i]);
    assert IsId(id) ==> forall i :: 0 <= i < |id| ==> IsLowerHexDigit(id[i]);
  }

  /**
   * Whatever was submitted, cleanups included: an event of a kind other than 5 is hidden while a
   * kind-5 event by its author is stored that has its id in a tag named e.
   */
  lemma DeletedAreHidden(ops: seq<Op>, i: nat, j: nat, k: nat)
    requires i in Run(ops).events && j in Run(ops).events
    requires var e, d := Run(ops).events[i].content, Run(ops).events[j].content;
             && e.kind != 5 && d.kind == 5 && Decode(e.pubkey) == Decode(d.pubkey) && IsId(e.id)
             && k < |d.tags| && |d.tags[k]| >= 2 && d.tags[k][0] == "e" && d.tags[k][1] == e.id
    ensures Run(ops).events[i].hidden
  {
    var e, d := Run(ops).events[i].content, Run(ops).events[j].content;
    RunValid(ops);
    DeletionInvariant(ops);
    assert Columns(Run(ops).events[i]) && Columns(Run(ops).events[j]);
    TagValuesMean(d.tags, "e", e.id);
    IdIsCanonical(e.id);
    assert NamedBy(Run(ops), i, j);
  }

  /** A submitted kind-5 event by the author of `e` has a tag named e that spells its id in some case. */
  predicate SomeDeletionNames(es: seq<Event>, e: Event) {
    exists j, k :: 0 <= j < |es| && 0 <= k < |es[j].tags|
                   && es[j].kind == 5 && e.kind != 5 && Decode(es[j].pubkey) == Decode(e.pubkey)
                   && |es[j].tags[k]| >= 2 && es[j].tags[k][0] == "e" && Lower(es[j].tags[k][1]) == e.id
  }

  /** After a run of writes nothing is hidden but what its author asked to delete. */
  lemma HiddenWereDeleted(ops: seq<Op>, i: nat)
    requires NoExpiry(ops) && AllClean(Submitted(ops)) && IdsNameFields(Submitted(ops))
    requires forall k :: 0 <= k < |Submitted(ops)| ==> IsId(Submitted(ops)[k].id)
    requires i in Run(ops).events && Run(ops).events[i].hidden
    ensures SomeDeletionNames(Submitted(ops), Run(ops).events[i].content)
  {
    var es, e := Submitted(ops), Run(ops).events[i].content;
    CleanAreStorable(es);
    forall k | 0 <= k < |es|
      ensures Sound(es[k])
    {
      IdIsCanonical(es[k].id);
    }
    HiddenExactly(ops);
    assert Kept(es, e);
    var j := SomeNamer(es, e);
    assert NamesByHash(es[j], e);
    var v :| v in TagValuesByName(es[j].tags, "e") && |v| == 64 && IsHex(v) && Decode(v) == Some(Decode(e.id).value);
    DecodesIffSpelled(v, e.id);
    TagValuesMean(es[j].tags, "e", v);
    var k :| 0 <= k < |es[j].tags| && |es[j].tags[k]| >= 2 && es[j].tags[k][0] == "e" && es[j].tags[k][1] == v;
  }

  lemma SomeNamer(es: seq<Event>, e: Event) returns (j: nat)
    requires HiddenBy(es, e) && IsCanonical(e.id)
    ensures j < |es| && NamesByHash(es[j], e)
  {
    if Deleted(es, e) {
      j :| 0 <= j < |es| && Deletes(es[j], e);
      TextNamesHash(es[j], e);
    } else {
      j :| 0 <= j < |es| && NamesAfter(es, e, j);
    }
  }

  // ---------------------------------------------------------------------------------------
  // Cleanup
  // ---------------------------------------------------------------------------------------

  /**
   * A cleanup removes exactly the events whose first expiration tag is a number up to now, and
   * changes no other row.
   */
  lemma CleanupRemovesExactly(ops: seq<Op>, now: nat, id: nat)
    requires id in Run(ops).events
    ensures id !in Run(ops + [Expire(now)]).events <==> exists n: nat :: n <= now && CarriesExpiry(Run(ops).events[id].content, n)
    ensures id in Run(ops + [Expire(now)]).events ==> Run(ops + [Expire(now)]).events[id] == Run(ops).events[id]
  {
    SnocRun(ops, Expire(now));
    RunValid(ops);
    var e := Run(ops).events[id].content;
    assert Faithful(Run(ops).events[id]);
    forall n: nat
      ensures Expiration(e) == Some(n) <==> CarriesExpiry(e, n)
    {
      ExpirationMeans(e, n);
    }
    if Expiration(e).Some? && Expiration(e).value <= now {
      assert CarriesExpiry(e, Expiration(e).value);
    }
  }
}
