/**
 * What a connection may read and who it is taken for, in plain terms: the conditions of the read
 * gate and of authentication are written out over tags, lists and numbers.
 */
module ReadMeaning {
  import opened Common
  import opened Events
  import opened EventTables
  import opened Filters
  import opened Access
  import opened Connection

  // ---------------------------------------------------------------------------------------
  // Authentication
  // ---------------------------------------------------------------------------------------

  /** Tag `k` is the last of two elements with this name. */
  predicate IsLastPair(tags: seq<Tag>, name: string, k: nat) {
    && k < |tags| && |tags[k]| == 2 && tags[k][0] == name
    && forall j :: k < j < |tags| ==> !(|tags[j]| == 2 && tags[j][0] == name)
  }

  lemma {:induction false} LastPairMeans(tags: seq<Tag>, name: string, k: nat)
    requires IsLastPair(tags, name, k)
    ensures LastTagValue(tags, name) == Some(tags[k][1])
    decreases |tags|
  {
    if k < |tags| - 1 {
      var rest := tags[..|tags| - 1];
      assert !(|tags[|tags| - 1]| == 2 && tags[|tags| - 1][0] == name);
      assert rest[k] == tags[k];
      LastPairMeans(rest, name, k);
    }
  }

  lemma {:induction false} LastPairExists(tags: seq<Tag>, name: string) returns (k: nat)
    requires LastTagValue(tags, name).Some?
    ensures IsLastPair(tags, name, k)
    decreases |tags|
  {
    var last := tags[|tags| - 1];
    if |last| == 2 && last[0] == name {
      k := |tags| - 1;
    } else {
      var rest := tags[..|tags| - 1];
      k := LastPairExists(rest, name);
      assert rest[k] == tags[k];
      forall j | k < j < |tags|
        ensures !(|tags[j]| == 2 && tags[j][0] == name)
      {
        assert j < |rest| ==> rest[j] == tags[j];
      }
    }
  }

  /** The last challenge tag of two elements carries this text. */
  predicate CarriesChallenge(e: Event, text: string) {
    exists k: nat :: k < |e.tags| && IsLastPair(e.tags, "challenge", k) && e.tags[k][1] == text
  }

  /** The last relay tag of two elements carries a URL of the same host. */
  predicate CarriesRelay(e: Event, world: World, relayUrl: string) {
    exists k: nat :: k < |e.tags| && IsLastPair(e.tags, "relay", k)
                     && world.hostOf(e.tags[k][1]).Some? && world.hostOf(e.tags[k][1]) == world.hostOf(relayUrl)
  }

  lemma ChallengeMeans(e: Event, text: string)
    ensures LastTagValue(e.tags, "challenge") == Some(text) <==> CarriesChallenge(e, text)
  {
    if LastTagValue(e.tags, "challenge").Some? {
      var k := LastPairExists(e.tags, "challenge");
      LastPairMeans(e.tags, "challenge", k);
    }
    if k: nat :| k < |e.tags| && IsLastPair(e.tags, "challenge", k) && e.tags[k][1] == text {
      LastPairMeans(e.tags, "challenge", k);
    }
  }

  lemma RelayMeans(e: Event, world: World, relayUrl: string)
    ensures (LastTagValue(e.tags, "relay").Some?
             && world.hostOf(LastTagValue(e.tags, "relay").value).Some?
             && world.hostOf(LastTagValue(e.tags, "relay").value) == world.hostOf(relayUrl))
            <==> CarriesRelay(e, world, relayUrl)
  {
    if LastTagValue(e.tags, "relay").Some? {
      var k := LastPairExists(e.tags, "relay");
      LastPairMeans(e.tags, "relay", k);
    }
    if k: nat :| k < |e.tags| && IsLastPair(e.tags, "relay", k) {
      LastPairMeans(e.tags, "relay", k);
    }
  }

  /** Where the clock shows a time for which neither cutoff wraps around. */
  lemma TimelyMeans(createdAt: nat, now: nat)
    requires 600 <= now < 0x1_0000_0000_0000_0000 - 600
    ensures Timely(createdAt, now) <==> now - 600 <= createdAt <= now + 600
  {
  }

  /**
   * Who a session is authenticated as: an earlier message of that key, on this connection, was
   * valid, of kind 22242, made within 600 seconds, carried exactly the challenge of this
   * connection and a relay URL of our host.
   */
  lemma AuthenticatedMeans(world: World, settings: Settings, challenge: string, xs: seq<Input>, pk: string)
    requires Session(world, settings, challenge, xs).auth == AuthPubkey(pk)
    requires forall k :: 0 <= k < |xs| && xs[k].AuthMsg? ==> xs[k].now < 0x1_0000_0000_0000_0000
    ensures settings.nip42Auth && settings.relayUrl.Some?
    ensures exists j :: 0 <= j < |xs| && xs[j].AuthMsg?
              && world.valid(xs[j].e) && xs[j].e.pubkey == pk && xs[j].e.kind == 22242
              && xs[j].now - 600 <= xs[j].e.createdAt <= xs[j].now + 600
              && CarriesChallenge(xs[j].e, challenge)
              && CarriesRelay(xs[j].e, world, settings.relayUrl.value)
  {
    AuthOrigin(world, settings, challenge, xs);
    var j :| 0 <= j < |xs| && Authenticates(world, settings, challenge, xs[j], pk);
    ChallengeMeans(xs[j].e, challenge);
    RelayMeans(xs[j].e, world, settings.relayUrl.value);
    TimelyIsWithinWindow(xs[j].e.createdAt, xs[j].now);
  }

  /**
   * Exactly when an AUTH message authenticates: an open connection that still waits for it becomes
   * authenticated as the event's author exactly for such an event, and otherwise stays as it is.
   */
  lemma AuthenticatesExactly(world: World, settings: Settings, challenge: string, xs: seq<Input>, e: Event, now: nat)
    requires Session(world, settings, challenge, xs).open && Session(world, settings, challenge, xs).auth.Challenge?
    requires settings.nip42Auth && settings.relayUrl.Some? && 600 <= now < 0x1_0000_0000_0000_0000 - 600
    ensures var c, c' := Session(world, settings, challenge, xs), Session(world, settings, challenge, xs + [AuthMsg(e, now)]);
            var complete := world.valid(e) && e.kind == 22242 && now - 600 <= e.createdAt <= now + 600
                            && CarriesChallenge(e, challenge) && CarriesRelay(e, world, settings.relayUrl.value);
            c' == if complete then c.(auth := AuthPubkey(e.pubkey)) else c
  {
    assert (xs + [AuthMsg(e, now)])[..|xs|] == xs;
    AuthOrigin(world, settings, challenge, xs);
    ChallengeMeans(e, challenge);
    RelayMeans(e, world, settings.relayUrl.value);
    TimelyMeans(e.createdAt, now);
  }

  /** An event with another challenge, or with none, changes nothing, whenever it arrives. */
  lemma OtherChallengeIgnored(world: World, settings: Settings, challenge: string, xs: seq<Input>, e: Event, now: nat)
    requires !CarriesChallenge(e, challenge)
    ensures Session(world, settings, challenge, xs + [AuthMsg(e, now)]) == Session(world, settings, challenge, xs)
  {
    assert (xs + [AuthMsg(e, now)])[..|xs|] == xs;
    AuthOrigin(world, settings, challenge, xs);
    ChallengeMeans(e, challenge);
  }

  // ---------------------------------------------------------------------------------------
  // The read gate
  // ---------------------------------------------------------------------------------------

  predicate IsKey(s: string) {
    |s| == 64 && forall i :: 0 <= i < |s| ==> '0' <= s[i] <= '9' || 'a' <= s[i] <= 'f' || 'A' <= s[i] <= 'F'
  }

  /** A list names the author or the reader by key, or the reader as the server. */
  predicate ListNames(ids: seq<string>, e: Event, reader: Option<string>, server: Option<string>) {
    exists i :: 0 <= i < |ids|
                && ((IsKey(ids[i]) && (e.pubkey == ids[i] || reader == Some(ids[i])))
                    || (ids[i] == "private_server_hex" && reader.Some? && server.Some? && reader.value == server.value))
  }

  lemma IdentifierMeans(identifier: string, e: Event, reader: Option<string>, server: Option<string>)
    ensures IdentifierAllows(identifier, e, reader, server) <==>
              (IsKey(identifier) && (e.pubkey == identifier || reader == Some(identifier)))
              || (identifier == "private_server_hex" && reader.Some? && server.Some? && reader.value == server.value)
  {
    assert |"private_server_hex"| == 18;
  }

  lemma ListMeans(ids: seq<string>, e: Event, reader: Option<string>, server: Option<string>)
    ensures RuleAllows(Listed(ids), e, reader, server) <==> ListNames(ids, e, reader, server)
  {
    forall i | 0 <= i < |ids|
      ensures IdentifierAllows(ids[i], e, reader, server) <==>
                (IsKey(ids[i]) && (e.pubkey == ids[i] || reader == Some(ids[i])))
                || (ids[i] == "private_server_hex" && reader.Some? && server.Some? && reader.value == server.value)
    {
      IdentifierMeans(ids[i], e, reader, server);
    }
  }

  /** The reader is the author, or is named in a p tag. */
  predicate IsInvolved(e: Event, reader: Option<string>) {
    reader.Some?
    && (e.pubkey == reader.value
        || exists k :: 0 <= k < |e.tags| && |e.tags[k]| >= 2 && e.tags[k][0] == "p" && e.tags[k][1] == reader.value)
  }

  /** The reader is the author or in the first p tag, and there is one. */
  predicate IsParty(e: Event, reader: Option<string>) {
    exists k: nat :: k < |e.tags| && IsFirstValued(e.tags, "p", k)
                     && reader.Some? && (e.pubkey == reader.value || e.tags[k][1] == reader.value)
  }

  lemma InvolvedMeans(e: Event, reader: Option<string>)
    ensures PrivilegedReader(e, reader) <==> IsInvolved(e, reader)
  {
    if reader.Some? {
      TagValuesMean(e.tags, "p", reader.value);
    }
  }

  lemma PartyMeans(e: Event, reader: Option<string>)
    ensures reader.Some? && TagValuesByName(e.tags, "p") != []
            && (TagValuesByName(e.tags, "p")[0] == reader.value || e.pubkey == reader.value)
            <==> IsParty(e, reader)
  {
    if TagValuesByName(e.tags, "p") != [] {
      var k := FirstValuedExists(e.tags, "p");
      FirstValuedMeans(e.tags, "p", k);
    }
    if k: nat :| k < |e.tags| && IsFirstValued(e.tags, "p", k) {
      FirstValuedMeans(e.tags, "p", k);
    }
  }

  /** The read configuration of a kind: script, then deny list, then allow list or involvement. */
  predicate ReadConfigPasses(config: WriteReadConfig, e: Event, reader: Option<string>, server: Option<string>, script: Option<bool>) {
    var listed := config.allow.Listed? && ListNames(config.allow.identifiers, e, reader, server);
    && (config.hasScript ==> script == Some(true))
    && !config.deny.All?
    && (config.deny.Listed? ==> !ListNames(config.deny.identifiers, e, reader, server))
    && (listed || if config.privileged then IsInvolved(e, reader) else config.allow.All?)
  }

  lemma ReadConfigMeans(config: WriteReadConfig, e: Event, reader: Option<string>, server: Option<string>, script: Option<bool>)
    ensures ConfigAllows(config, e, reader, server, true, script) <==> ReadConfigPasses(config, e, reader, server, script)
  {
    InvolvedMeans(e, reader);
    if config.allow.Listed? {
      ListMeans(config.allow.identifiers, e, reader, server);
    }
    if config.deny.Listed? {
      ListMeans(config.deny.identifiers, e, reader, server);
    }
  }

  /** All that is asked before an event goes to a reader. */
  ghost predicate Readable(settings: Settings, e: Event, reader: Option<string>, now: nat, script: Option<bool>) {
    && (settings.kinds.whitelist.Some? ==> e.kind in settings.kinds.whitelist.value)
    && (settings.kinds.whitelist.None? && settings.kinds.blacklist.Some? ==> e.kind !in settings.kinds.blacklist.value)
    && (forall n: nat :: CarriesExpiry(e, n) ==> now < n)
    && (e.kind in settings.kinds.filters ==>
          var config := settings.kinds.filters[e.kind];
          && (config.requireAuth ==> reader.Some?)
          && (config.read.Some? ==> ReadConfigPasses(config.read.value, e, reader, settings.serverPubkey, script))
          && (config.maxAge.Some? ==> now <= (e.createdAt + config.maxAge.value) % 0x1_0000_0000_0000_0000))
    && (settings.nip42Dms && (e.kind == 4 || e.kind == 44 || e.kind == 1059) ==> IsParty(e, reader))
  }

  lemma NotExpiredMeans(e: Event, now: nat)
    ensures !IsExpired(e, now) <==> forall n: nat :: CarriesExpiry(e, n) ==> now < n
  {
    forall n: nat
      ensures Expiration(e) == Some(n) <==> CarriesExpiry(e, n)
    {
      ExpirationMeans(e, n);
    }
    if Expiration(e).Some? {
      assert CarriesExpiry(e, Expiration(e).value);
    }
  }

  lemma GateMeans(settings: Settings, e: Event, reader: Option<string>, now: nat, script: Option<bool>)
    ensures AllowedToSend(e, reader, settings, now, script) <==> Readable(settings, e, reader, now, script)
  {
    NotExpiredMeans(e, now);
    PartyMeans(e, reader);
    if e.kind in settings.kinds.filters && settings.kinds.filters[e.kind].read.Some? {
      ReadConfigMeans(settings.kinds.filters[e.kind].read.value, e, reader, settings.serverPubkey, script);
    }
  }

  /** Whom a session reads as: the key of its first complete authentication, if there was one. */
  function Reader(world: World, settings: Settings, challenge: string, xs: seq<Input>): Option<string> {
    match Session(world, settings, challenge, xs).auth
    case AuthPubkey(pk) => Some(pk)
    case _ => None
  }

  /** Over all runs: a stored row is sent exactly when it is readable, with its content unchanged. */
  lemma RowsSentExactly(world: World, settings: Settings, challenge: string, xs: seq<Input>, i: nat, f: Frame)
    requires i < |xs| && xs[i].QueryRow? && Session(world, settings, challenge, xs[..i]).open
    ensures f in Sent(world, settings, challenge, xs, i) <==>
              xs[i].parsed.Some? && f == EventFrame(xs[i].subId, xs[i].parsed.value)
              && Readable(settings, xs[i].parsed.value, Reader(world, settings, challenge, xs[..i]), xs[i].now, xs[i].script)
  {
    if xs[i].parsed.Some? {
      GateMeans(settings, xs[i].parsed.value, Reader(world, settings, challenge, xs[..i]), xs[i].now, xs[i].script);
    }
  }

  /**
   * A kind that has nothing but a read configuration that is not privileged: a row that is current
   * is sent exactly when the script says yes if there is one, deny is not All and its list names
   * neither author nor reader, and allow is All or its list names one of them.
   */
  lemma ListedKindSentExactly(world: World, settings: Settings, challenge: string, xs: seq<Input>, i: nat)
    requires i < |xs| && xs[i].QueryRow? && xs[i].parsed.Some? && Session(world, settings, challenge, xs[..i]).open
    requires var e := xs[i].parsed.value;
             && settings.kinds.whitelist.None? && settings.kinds.blacklist.None?
             && e.kind in settings.kinds.filters && settings.kinds.filters[e.kind].read.Some?
             && !settings.kinds.filters[e.kind].requireAuth && settings.kinds.filters[e.kind].maxAge.None?
             && !settings.kinds.filters[e.kind].read.value.privileged
             && e.kind != 4 && e.kind != 44 && e.kind != 1059
             && forall n: nat :: CarriesExpiry(e, n) ==> xs[i].now < n
    ensures var e, reader := xs[i].parsed.value, Reader(world, settings, challenge, xs[..i]);
            var config := settings.kinds.filters[e.kind].read.value;
            EventFrame(xs[i].subId, e) in Sent(world, settings, challenge, xs, i) <==>
              && (config.hasScript ==> xs[i].script == Some(true))
              && (match config.deny
                  case All => false
                  case NoOne => true
                  case Listed(ids) => forall k :: 0 <= k < |ids| ==>
                    !((IsKey(ids[k]) && (e.pubkey == ids[k] || reader == Some(ids[k])))
                      || (ids[k] == "private_server_hex" && reader.Some? && reader == settings.serverPubkey)))
              && (match config.allow
                  case All => true
                  case NoOne => false
                  case Listed(ids) =>
                    exists k :: 0 <= k < |ids|
                                && ((IsKey(ids[k]) && (e.pubkey == ids[k] || reader == Some(ids[k])))
                                    || (ids[k] == "private_server_hex" && reader.Some? && reader == settings.serverPubkey)))
  {
    RowsSentExactly(world, settings, challenge, xs, i, EventFrame(xs[i].subId, xs[i].parsed.value));
  }

  /** The same for a privileged kind with a list: the listed, the author and the p-tagged readers. */
  lemma PrivilegedListSentExactly(world: World, settings: Settings, challenge: string, xs: seq<Input>, i: nat, ids: seq<string>)
    requires i < |xs| && xs[i].QueryRow? && xs[i].parsed.Some? && Session(world, settings, challenge, xs[..i]).open
    requires var e := xs[i].parsed.value;
             && settings.kinds.whitelist.None? && settings.kinds.blacklist.None?
             && e.kind in settings.kinds.filters
             && settings.kinds.filters[e.kind] == KindConfig(false, Some(WriteReadConfig(false, Listed(ids), NoOne, true)), None)
             && e.kind != 4 && e.kind != 44 && e.kind != 1059
             && forall n: nat :: CarriesExpiry(e, n) ==> xs[i].now < n
    ensures var e, reader := xs[i].parsed.value, Reader(world, settings, challenge, xs[..i]);
            EventFrame(xs[i].subId, e) in Sent(world, settings, challenge, xs, i) <==>
              (exists k :: 0 <= k < |ids|
                 && ((IsKey(ids[k]) && (e.pubkey == ids[k] || reader == Some(ids[k])))
                     || (ids[k] == "private_server_hex" && reader.Some? && reader == settings.serverPubkey)))
              || (reader.Some?
                  && (e.pubkey == reader.value
                      || exists k :: 0 <= k < |e.tags| && |e.tags[k]| >= 2 && e.tags[k][0] == "p" && e.tags[k][1] == reader.value))
  {
    RowsSentExactly(world, settings, challenge, xs, i, EventFrame(xs[i].subId, xs[i].parsed.value));
  }

  /** A kind without configuration is open: every current row is sent, whoever reads. */
  lemma OpenKindSent(world: World, settings: Settings, challenge: string, xs: seq<Input>, i: nat)
    requires i < |xs| && xs[i].QueryRow? && xs[i].parsed.Some? && Session(world, settings, challenge, xs[..i]).open
    requires var e := xs[i].parsed.value;
             && settings.kinds.whitelist.None? && settings.kinds.blacklist.None? && e.kind !in settings.kinds.filters
             && e.kind != 4 && e.kind != 44 && e.kind != 1059
    ensures EventFrame(xs[i].subId, xs[i].parsed.value) in Sent(world, settings, challenge, xs, i)
            <==> forall n: nat :: CarriesExpiry(xs[i].parsed.value, n) ==> xs[i].now < n
  {
    RowsSentExactly(world, settings, challenge, xs, i, EventFrame(xs[i].subId, xs[i].parsed.value));
  }

  /**
   * Over all runs: a live event is sent exactly once for every subscription of which some filter is
   * interested in it and for which it is readable.
   */
  lemma LiveSentExactly(world: World, settings: Settings, challenge: string, xs: seq<Input>, i: nat, f: Frame)
    requires i < |xs| && xs[i].Realtime? && Session(world, settings, challenge, xs[..i]).open
    ensures var c, e := Session(world, settings, challenge, xs[..i]), xs[i].e;
            f in Sent(world, settings, challenge, xs, i) <==>
              exists id :: id in c.subs && f == EventFrame(id, e.(delegatedBy := None, tagidx := None))
                           && (exists k :: 0 <= k < |c.subs[id].filters| && Interested(c.subs[id].filters[k], e))
                           && Readable(settings, e.(delegatedBy := None, tagidx := None),
                                       Reader(world, settings, challenge, xs[..i]), xs[i].now, xs[i].scripts(id))
  {
    var c, e := Session(world, settings, challenge, xs[..i]), xs[i].e;
    forall id | id in c.subs
      ensures AllowedToSend(Serialized(e), AuthenticatedAs(c.auth), settings, xs[i].now, xs[i].scripts(id)) <==>
                Readable(settings, e.(delegatedBy := None, tagidx := None),
                         Reader(world, settings, challenge, xs[..i]), xs[i].now, xs[i].scripts(id))
    {
      GateMeans(settings, Serialized(e), Reader(world, settings, challenge, xs[..i]), xs[i].now, xs[i].scripts(id));
    }
  }

  /** The end of a query is passed on, and the other inputs send nothing; nothing is sent once closed. */
  lemma OtherFrames(world: World, settings: Settings, challenge: string, xs: seq<Input>, i: nat)
    requires i < |xs|
    ensures var open := Session(world, settings, challenge, xs[..i]).open; var sent := Sent(world, settings, challenge, xs, i);
            && (!open ==> sent == {})
            && (open && xs[i].QueryEnd? ==> sent == {EoseFrame(xs[i].subId)})
            && (xs[i].AuthMsg? || xs[i].CloseMsg? || xs[i].Other? || xs[i].Disconnect? ==> sent == {})
  {
  }

  // ---------------------------------------------------------------------------------------
  // Requests
  // ---------------------------------------------------------------------------------------

  /** No id, and fewer than two of authors, kinds and tags. */
  predicate IsBroad(f: ReqFilter) {
    && f.ids.None?
    && (f.authors.None? || f.kinds.None?) && (f.authors.None? || f.tags.None?) && (f.kinds.None? || f.tags.None?)
  }

  lemma ScraperMeans(s: Subscription)
    ensures IsScraper(s) <==> exists k :: 0 <= k < |s.filters| && IsBroad(s.filters[k])
  {
    assert forall f :: Precision(f) < 2 <==> IsBroad(f);
  }

  /** UTF-8: one byte up to 0x7f, two up to 0x7ff, three up to 0xffff, four beyond, and lengths add up. */
  lemma {:induction false} Utf8Means(a: string, b: string, c: char)
    ensures Utf8Len("") == 0 && Utf8Len(a + b) == Utf8Len(a) + Utf8Len(b)
    ensures Utf8Len([c]) == if c as int <= 0x7f then 1 else if c as int <= 0x7ff then 2 else if c as int <= 0xffff then 3 else 4
  {
    if a == "" {
      assert a + b == b;
    } else {
      Utf8Means(a[1..], b, c);
      assert (a + b)[1..] == a[1..] + b;
    }
    assert [c][1..] == "";
  }

  lemma SessionSnoc(world: World, settings: Settings, challenge: string, xs: seq<Input>, x: Input)
    ensures Session(world, settings, challenge, xs + [x]) == Connection.Step(Session(world, settings, challenge, xs), world, settings, x).0
    ensures Sent(world, settings, challenge, xs + [x], |xs|) == Connection.Step(Session(world, settings, challenge, xs), world, settings, x).1
  {
    assert (xs + [x])[..|xs|] == xs && (xs + [x])[|xs|] == x;
  }

  /** The very same subscription is there. */
  predicate IsKnown(c: Conn, s: Subscription) {
    exists id :: id in c.subs && c.subs[id] == s
  }

  /** Some filter of it is broad. */
  predicate IsBroadOne(s: Subscription) {
    exists k :: 0 <= k < |s.filters| && IsBroad(s.filters[k])
  }

  /** An id of at most 256 bytes, which is in use or for which there is room. */
  predicate Fits(c: Conn, s: Subscription) {
    Utf8Len(s.id) <= 256 && (s.id in c.subs || |c.subs| < 32)
  }

  lemma RequestRefused(c: Conn, world: World, settings: Settings, s: Subscription)
    requires c.open && (IsKnown(c, s) || (settings.limitScrapers && IsBroadOne(s)) || !Fits(c, s))
    ensures var (c', frames) := Connection.Step(c, world, settings, ReqMsg(s));
            && c' == c.(nextToken := c'.nextToken)
            && frames == (if !IsKnown(c, s) && settings.limitScrapers && IsBroadOne(s) then {EoseFrame(s.id)} else {})
  {
    ScraperMeans(s);
  }

  lemma RegistersMeans(c: Conn, settings: Settings, s: Subscription)
    ensures Registers(c, settings, s) <==> !IsKnown(c, s) && !(settings.limitScrapers && IsBroadOne(s)) && Fits(c, s)
  {
    ScraperMeans(s);
  }

  lemma RequestTaken(c: Conn, settings: Settings, s: Subscription)
    requires Registers(c, settings, s)
    ensures OnReq(c, settings, s)
            == (c.(subs := c.subs[s.id := s], running := c.running[s.id := c.nextToken], nextToken := c.nextToken + 1,
                   handed := c.handed + (if NeedsHistory(s) then {c.nextToken} else {}),
                   signalled := c.signalled + TokenOf(c.running, s.id)), {})
  {
    RegisteredTokens(c, settings, s);
  }

  /**
   * Exactly when a REQ is refused in an open session, and what then happens: the very same
   * subscription again changes nothing; a scraper, where they are limited, is answered with an end
   * marker; an id of more than 256 bytes, or a 33rd subscription, is refused.
   */
  lemma RefusedExactly(world: World, settings: Settings, challenge: string, xs: seq<Input>, s: Subscription)
    requires Session(world, settings, challenge, xs).open
    requires var c := Session(world, settings, challenge, xs);
             IsKnown(c, s) || (settings.limitScrapers && IsBroadOne(s)) || !Fits(c, s)
    ensures var c, c' := Session(world, settings, challenge, xs), Session(world, settings, challenge, xs + [ReqMsg(s)]);
            && c'.subs == c.subs && c'.running == c.running && c'.signalled == c.signalled && c'.handed == c.handed
            && Sent(world, settings, challenge, xs + [ReqMsg(s)], |xs|)
               == (if !IsKnown(c, s) && settings.limitScrapers && IsBroadOne(s) then {EoseFrame(s.id)} else {})
  {
    SessionSnoc(world, settings, challenge, xs, ReqMsg(s));
    RequestRefused(Session(world, settings, challenge, xs), world, settings, s);
  }

  /**
   * Every other REQ takes the place of the subscription of its id, whose query is told to stop, and
   * no other changes; a query is started for it exactly if some filter has a limit other than 0.
   */
  lemma TakenExactly(world: World, settings: Settings, challenge: string, xs: seq<Input>, s: Subscription)
    requires Session(world, settings, challenge, xs).open
    requires var c := Session(world, settings, challenge, xs);
             !IsKnown(c, s) && !(settings.limitScrapers && IsBroadOne(s)) && Fits(c, s)
    ensures var c, c' := Session(world, settings, challenge, xs), Session(world, settings, challenge, xs + [ReqMsg(s)]);
            && c'.subs == c.subs[s.id := s] && c'.running == c.running[s.id := c.nextToken]
            && c'.signalled == c.signalled + (if s.id in c.running then {c.running[s.id]} else {})
            && c'.handed == c.handed + (if exists k :: 0 <= k < |s.filters| && s.filters[k].limit != Some(0) then {c.nextToken} else {})
            && Sent(world, settings, challenge, xs + [ReqMsg(s)], |xs|) == {}
  {
    var c := Session(world, settings, challenge, xs);
    SessionSnoc(world, settings, challenge, xs, ReqMsg(s));
    RegistersMeans(c, settings, s);
    RequestTaken(c, settings, s);
    assert NeedsHistory(s) <==> exists k :: 0 <= k < |s.filters| && s.filters[k].limit != Some(0);
  }

  /** Exactly what a CLOSE does: the subscription of that id goes, and its query is told to stop. */
  lemma CloseExactly(world: World, settings: Settings, challenge: string, xs: seq<Input>, id: string)
    requires Session(world, settings, challenge, xs).open
    ensures var c, c' := Session(world, settings, challenge, xs), Session(world, settings, challenge, xs + [CloseMsg(id)]);
            && id !in c'.subs && (forall j :: j in c.subs && j != id ==> j in c'.subs && c'.subs[j] == c.subs[j])
            && (id in c.running ==> c.running[id] in c'.signalled)
            && c'.auth == c.auth && c'.open
  {
    SessionSnoc(world, settings, challenge, xs, CloseMsg(id));
  }
}
