/** Parsed Nostr events (src/event.rs). */
module Events {
  import opened Common
  import Decimal
  import Hex

  type Tag = seq<string>

  type TagIndex = map<char, set<string>>

  /**
   * A parsed event. `tagidx` is the search index that the relay builds after validation;
   * neither it nor `delegatedBy` is part of the serialized form.
   */
  datatype Event = Event(
    id: string,
    pubkey: string,
    delegatedBy: Option<string>,
    createdAt: nat,
    kind: nat,
    tags: seq<Tag>,
    content: string,
    sig: string,
    tagidx: Option<TagIndex>)

  predicate IsEphemeral(kind: nat) {
    20000 <= kind < 30000
  }

  predicate IsReplaceable(kind: nat) {
    kind == 0 || kind == 3 || kind == 41 || 10000 <= kind < 20000
  }

  predicate IsParamReplaceable(kind: nat) {
    30000 <= kind < 40000
  }

  /** Value of the first tag with this name; the empty string when that tag carries no value. */
  function FirstTagValue(tags: seq<Tag>, name: string): Option<string> {
    if tags == [] then None
    else if |tags[0]| > 0 && tags[0][0] == name then
      Some(if |tags[0]| > 1 then tags[0][1] else "")
    else FirstTagValue(tags[1..], name)
  }

  /** The d value that identifies a parameterized replaceable event. */
  function DistinctParam(e: Event): Option<string> {
    if !IsParamReplaceable(e.kind) then None
    else match FirstTagValue(e.tags, "d")
      case Some(v) => Some(v)
      case None => Some("")
  }

  /** NIP-40 expiry time. */
  function Expiration(e: Event): Option<nat> {
    match FirstTagValue(e.tags, "expiration")
    case Some(v) => Decimal.ParseU64(v)
    case None => None
  }

  predicate IsExpired(e: Event, now: nat) {
    Expiration(e).Some? && Expiration(e).value <= now
  }

  /** First values of the valued tags with this name, in order. */
  function TagValuesByName(tags: seq<Tag>, name: string): seq<string> {
    if tags == [] then []
    else if |tags[0]| > 1 && tags[0][0] == name then [tags[0][1]] + TagValuesByName(tags[1..], name)
    else TagValuesByName(tags[1..], name)
  }

  /** `single_char_tagname`: the name as a character, when it is exactly one. */
  function SingleCharTagName(name: string): Option<char> {
    if |name| == 1 then Some(name[0]) else None
  }

  /** A tag that the relay indexes: a one-character name and a value. */
  predicate IsIndexed(tag: Tag) {
    |tag| > 1 && SingleCharTagName(tag[0]).Some?
  }

  /** Whether some valued tag of this one-character name carries the value. */
  predicate HasTag(tags: seq<Tag>, name: char, value: string) {
    exists i :: 0 <= i < |tags| && IsIndexed(tags[i]) && tags[i][0] == [name] && tags[i][1] == value
  }

  /** The index lists exactly the indexed tags. */
  ghost predicate IndexOf(idx: TagIndex, tags: seq<Tag>) {
    forall c, v {:trigger HasTag(tags, c, v)} :: (c in idx && v in idx[c]) <==> HasTag(tags, c, v)
  }

  /** `build_index`: no index at all without tags, otherwise exactly the indexed tags. */
  method BuildIndex(tags: seq<Tag>) returns (index: Option<TagIndex>)
    ensures index.None? <==> tags == []
    ensures index.Some? ==> IndexOf(index.value, tags)
  {
    if tags == [] {
      return None;
    }
    var idx: TagIndex := map[];
    for i := 0 to |tags|
      invariant IndexOf(idx, tags[..i])
    {
      var tag := tags[i];
      assert tags[..i + 1] == tags[..i] + [tag];
      HasTagSnoc(tags[..i], tag);
      if IsIndexed(tag) {
        var c := tag[0][0];
        var known := if c in idx then idx[c] else {};
        idx := idx[c := known + {tag[1]}];
      }
    }
    assert tags[..|tags|] == tags;
    return Some(idx);
  }

  lemma HasTagSnoc(tags: seq<Tag>, tag: Tag)
    ensures forall c, v {:trigger HasTag(tags + [tag], c, v)} ::
              HasTag(tags + [tag], c, v) <==>
                HasTag(tags, c, v) || (IsIndexed(tag) && tag[0] == [c] && tag[1] == v)
  {
    forall c, v
      ensures HasTag(tags + [tag], c, v) <==>
                HasTag(tags, c, v) || (IsIndexed(tag) && tag[0] == [c] && tag[1] == v)
    {
      var all := tags + [tag];
      if HasTag(tags, c, v) {
        var i :| 0 <= i < |tags| && IsIndexed(tags[i]) && tags[i][0] == [c] && tags[i][1] == v;
        assert all[i] == tags[i];
      }
      if IsIndexed(tag) && tag[0] == [c] && tag[1] == v {
        assert all[|tags|] == tag;
      }
    }
  }

  /** `tag_values_by_name` for a one-character name lists exactly the indexed values. */
  lemma {:induction false} TagValuesAreIndexed(tags: seq<Tag>, name: char, value: string)
    ensures value in TagValuesByName(tags, [name]) <==> HasTag(tags, name, value)
  {
    if tags != [] {
      TagValuesAreIndexed(tags[1..], name, value);
      if HasTag(tags[1..], name, value) {
        var i :| 0 <= i < |tags[1..]| && IsIndexed(tags[1..][i]) && tags[1..][i][0] == [name] && tags[1..][i][1] == value;
        assert tags[i + 1] == tags[1..][i];
      }
      if HasTag(tags, name, value) {
        var i :| 0 <= i < |tags| && IsIndexed(tags[i]) && tags[i][0] == [name] && tags[i][1] == value;
        if i > 0 {
          assert tags[1..][i - 1] == tags[i];
        }
      }
    }
  }

  /** `generic_tag_val_intersect`: some indexed value of that name is among the wanted ones. */
  predicate TagValIntersects(e: Event, name: char, wanted: set<string>) {
    e.tagidx.Some? && name in e.tagidx.value && e.tagidx.value[name] * wanted != {}
  }

  // ---------------------------------------------------------------------------------------
  // Tags by position
  // ---------------------------------------------------------------------------------------

  /** Tag `k` is the first with this name. */
  predicate IsFirstNamed(tags: seq<Tag>, name: string, k: nat) {
    && k < |tags| && |tags[k]| >= 1 && tags[k][0] == name
    && forall j :: 0 <= j < k ==> !(|tags[j]| >= 1 && tags[j][0] == name)
  }

  lemma {:induction false} FirstTagValueMeans(tags: seq<Tag>, name: string, k: nat)
    requires IsFirstNamed(tags, name, k)
    ensures FirstTagValue(tags, name) == Some(if |tags[k]| >= 2 then tags[k][1] else "")
  {
    if k > 0 {
      assert !(|tags[0]| >= 1 && tags[0][0] == name);
      forall j | 0 <= j < k - 1
        ensures !(|tags[1..][j]| >= 1 && tags[1..][j][0] == name)
      {
        assert tags[1..][j] == tags[j + 1];
      }
      FirstTagValueMeans(tags[1..], name, k - 1);
    }
  }

  lemma {:induction false} FirstNamedExists(tags: seq<Tag>, name: string) returns (k: nat)
    requires FirstTagValue(tags, name).Some?
    ensures IsFirstNamed(tags, name, k)
  {
    if |tags[0]| > 0 && tags[0][0] == name {
      k := 0;
    } else {
      k := FirstNamedExists(tags[1..], name);
      k := k + 1;
      forall j | 0 <= j < k
        ensures !(|tags[j]| >= 1 && tags[j][0] == name)
      {
        assert j > 0 ==> tags[j] == tags[1..][j - 1];
      }
    }
  }

  /** The first tag named expiration carries this decimal number. */
  predicate CarriesExpiry(e: Event, n: nat) {
    exists k: nat :: k < |e.tags| && IsFirstNamed(e.tags, "expiration", k) && |e.tags[k]| >= 2
                     && Decimal.ParseU64(e.tags[k][1]) == Some(n)
  }

  /** The expiry time is the number in the first expiration tag. */
  lemma ExpirationMeans(e: Event, n: nat)
    ensures Expiration(e) == Some(n) <==> CarriesExpiry(e, n)
  {
    if Expiration(e) == Some(n) {
      var k := FirstNamedExists(e.tags, "expiration");
      FirstTagValueMeans(e.tags, "expiration", k);
    }
    if k: nat :| k < |e.tags| && IsFirstNamed(e.tags, "expiration", k) && |e.tags[k]| >= 2
                 && Decimal.ParseU64(e.tags[k][1]) == Some(n) {
      FirstTagValueMeans(e.tags, "expiration", k);
    }
  }

  /** The values by name are the second elements of the tags with that name and a value. */
  lemma {:induction false} TagValuesMean(tags: seq<Tag>, name: string, value: string)
    ensures value in TagValuesByName(tags, name)
            <==> exists k :: 0 <= k < |tags| && |tags[k]| >= 2 && tags[k][0] == name && tags[k][1] == value
  {
    if tags != [] {
      TagValuesMean(tags[1..], name, value);
      if k :| 0 <= k < |tags[1..]| && |tags[1..][k]| >= 2 && tags[1..][k][0] == name && tags[1..][k][1] == value {
        assert tags[k + 1] == tags[1..][k];
      }
      if k :| 0 <= k < |tags| && |tags[k]| >= 2 && tags[k][0] == name && tags[k][1] == value {
        assert k > 0 ==> tags[1..][k - 1] == tags[k];
      }
    }
  }

  /** Tag `k` is the first with this name and a value. */
  predicate IsFirstValued(tags: seq<Tag>, name: string, k: nat) {
    && k < |tags| && |tags[k]| >= 2 && tags[k][0] == name
    && forall j :: 0 <= j < k ==> !(|tags[j]| >= 2 && tags[j][0] == name)
  }

  lemma {:induction false} FirstValuedMeans(tags: seq<Tag>, name: string, k: nat)
    requires IsFirstValued(tags, name, k)
    ensures TagValuesByName(tags, name) != [] && TagValuesByName(tags, name)[0] == tags[k][1]
  {
    if k > 0 {
      assert !(|tags[0]| >= 2 && tags[0][0] == name);
      forall j | 0 <= j < k - 1
        ensures !(|tags[1..][j]| >= 2 && tags[1..][j][0] == name)
      {
        assert tags[1..][j] == tags[j + 1];
      }
      FirstValuedMeans(tags[1..], name, k - 1);
    }
  }

  lemma {:induction false} FirstValuedExists(tags: seq<Tag>, name: string) returns (k: nat)
    requires TagValuesByName(tags, name) != []
    ensures IsFirstValued(tags, name, k)
  {
    if |tags[0]| > 1 && tags[0][0] == name {
      k := 0;
    } else {
      k := FirstValuedExists(tags[1..], name);
      k := k + 1;
      forall j | 0 <= j < k
        ensures !(|tags[j]| >= 2 && tags[j][0] == name)
      {
        assert j > 0 ==> tags[j] == tags[1..][j - 1];
      }
    }
  }
}
