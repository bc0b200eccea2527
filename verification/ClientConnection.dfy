/** The connection state and the server loop as objects changed in place (src/conn.rs, src/server.rs). */
module ClientConnection {
  import opened Common
  import opened Events
  import opened Filters
  import opened Access
  import opened EventTables
  import opened Connection

  datatype SubscribeResult = Subscribed | IdTooLong | TooManySubscriptions

  class ClientConn {
    var subscriptions: Subscriptions
    var auth: AuthState

    constructor ()
      ensures subscriptions == map[] && auth == NoAuth
    {
      subscriptions, auth := map[], NoAuth;
    }

    /** `subscribe`: registers or replaces exactly when `CanSubscribe`, and otherwise changes nothing. */
    method Subscribe(s: Subscription) returns (r: SubscribeResult)
      modifies this`subscriptions
      ensures r.Subscribed? <==> CanSubscribe(old(subscriptions), s)
      ensures r.IdTooLong? <==> Utf8Len(s.id) > MAX_SUBSCRIPTION_ID_LEN
      ensures subscriptions == if r.Subscribed? then old(subscriptions)[s.id := s] else old(subscriptions)
      ensures SubscriptionsBounded(old(subscriptions)) ==> SubscriptionsBounded(subscriptions)
    {
      var k := s.id;
      if Utf8Len(k) > MAX_SUBSCRIPTION_ID_LEN {
        return IdTooLong;
      }
      if SubscriptionsBounded(subscriptions) && CanSubscribe(subscriptions, s) {
        SubscribedBounded(subscriptions, s);
      }
      if k in subscriptions {
        var without := subscriptions - {k};
        assert without[k := s] == subscriptions[k := s];
        subscriptions := without[k := s];
        return Subscribed;
      }
      if |subscriptions| >= MAX_SUBSCRIPTIONS {
        return TooManySubscriptions;
      }
      subscriptions := subscriptions[k := s];
      return Subscribed;
    }

    /** `unsubscribe`. */
    method Unsubscribe(id: string)
      modifies this`subscriptions
      ensures subscriptions == old(subscriptions) - {id}
    {
      subscriptions := subscriptions - {id};
    }

    method GenerateAuthChallenge(text: string)
      modifies this`auth
      ensures auth == Challenge(text)
    {
      auth := Challenge(text);
    }

    /**
     * `authenticate`: a challenged connection becomes authenticated as the event's author exactly
     * when the event passes every check; an authenticated one never changes.
     */
    method AuthenticateWith(world: World, e: Event, relayUrl: string, now: nat) returns (ok: bool)
      modifies this`auth
      ensures (auth, ok) == Authenticate(old(auth), world, e, relayUrl, now)
    {
      match auth {
        case AuthPubkey(_) => return true;
        case NoAuth => return false;
        case Challenge(sent) =>
          if !world.valid(e) || e.kind != AUTH_KIND || !Timely(e.createdAt, now) {
            return false;
          }
          var challenge: Option<string>, relay: Option<string> := None, None;
          for i := 0 to |e.tags|
            invariant challenge == LastTagValue(e.tags[..i], "challenge")
            invariant relay == LastTagValue(e.tags[..i], "relay")
          {
            var tag := e.tags[i];
            assert e.tags[..i + 1][..i] == e.tags[..i];
            if |tag| == 2 && tag[0] == "challenge" {
              challenge := Some(tag[1]);
            }
            if |tag| == 2 && tag[0] == "relay" {
              relay := Some(tag[1]);
            }
          }
          assert e.tags[..|e.tags|] == e.tags;
          if challenge != Some(sent) {
            return false;
          }
          var received := if relay.Some? then world.hostOf(relay.value) else None;
          var ours := world.hostOf(relayUrl);
          if received.None? || ours.None? || received != ours {
            return false;
          }
          auth := AuthPubkey(e.pubkey);
          return true;
      }
    }
  }

  /** The loop of `nostr_server`, one input at a time. */
  class ServerLoop {
    const conn: ClientConn
    var running: map<string, Token>
    var nextToken: Token
    var handed: set<Token>
    var signalled: set<Token>
    var open: bool

    ghost function Current(): Conn
      reads this, conn
    {
      Conn(conn.auth, conn.subscriptions, running, nextToken, handed, signalled, open)
    }

    constructor (settings: Settings, challenge: string)
      ensures Current() == Start(settings, challenge) && fresh(conn)
    {
      conn := new ClientConn();
      running, nextToken, handed, signalled, open := map[], 0, {}, {}, true;
      new;
      if settings.nip42Auth {
        conn.GenerateAuthChallenge(challenge);
      }
    }

    /** A cancel signal goes out. */
    method Signal(token: Token)
      modifies this`signalled
      ensures signalled == old(signalled) + {token}
    {
      signalled := signalled + {token};
    }

    method HandleReq(settings: Settings, s: Subscription) returns (frames: set<Frame>)
      modifies this, conn
      ensures (Current(), frames) == OnReq(old(Current()), settings, s)
    {
      if HasSubscription(conn.subscriptions, s) {
        return {};
      }
      if settings.limitScrapers && IsScraper(s) {
        return {EoseFrame(s.id)};
      }
      var token := nextToken;
      nextToken := nextToken + 1;
      var r := conn.Subscribe(s);
      if r.Subscribed? {
        if s.id in running {
          Signal(running[s.id]);
        }
        running := running[s.id := token];
        if NeedsHistory(s) {
          handed := handed + {token};
        }
      }
      return {};
    }

    method HandleClose(id: string)
      modifies this, conn
      ensures Current() == OnClose(old(Current()), id)
    {
      if id in running {
        Signal(running[id]);
      }
      running := running - {id};
      conn.Unsubscribe(id);
    }

    /** The loop over the subscriptions for a live event, in whatever order the map yields them. */
    method HandleRealtime(settings: Settings, e: Event, now: nat, scripts: string -> Option<bool>) returns (frames: set<Frame>)
      ensures frames == RealtimeFrames(Current(), settings, e, now, scripts)
    {
      frames := {};
      var rest := conn.subscriptions.Keys;
      while rest != {}
        invariant rest <= conn.subscriptions.Keys
        invariant frames == set id | id in conn.subscriptions && id !in rest
                              && SubscriptionInterested(conn.subscriptions[id], e)
                              && AllowedToSend(Serialized(e), AuthenticatedAs(conn.auth), settings, now, scripts(id))
                            :: EventFrame(id, Serialized(e))
        decreases rest
      {
        var id :| id in rest;
        if SubscriptionInterested(conn.subscriptions[id], e)
           && AllowedToSend(Serialized(e), AuthenticatedAs(conn.auth), settings, now, scripts(id)) {
          frames := frames + {EventFrame(id, Serialized(e))};
        }
        rest := rest - {id};
      }
    }

    /** Connection cleanup: every query still running is told to stop. */
    method Cleanup()
      modifies this
      ensures Current() == OnDisconnect(old(Current()))
    {
      var rest := running.Keys;
      ghost var before := running;
      while rest != {}
        invariant rest <= running.Keys && running == before
        invariant signalled == old(signalled) + set id | id in before && id !in rest :: before[id]
        invariant handed == old(handed) && nextToken == old(nextToken)
        decreases rest
      {
        var id :| id in rest;
        signalled := signalled + {running[id]};
        rest := rest - {id};
      }
      assert (set id | id in before && id !in rest :: before[id]) == before.Values;
      running := map[];
      open := false;
    }

    /** One turn of the loop is one step of the connection. */
    method Handle(world: World, settings: Settings, x: Input) returns (frames: set<Frame>)
      modifies this, conn
      ensures (Current(), frames) == Connection.Step(old(Current()), world, settings, x)
    {
      frames := {};
      if !open {
        return;
      }
      match x {
        case AuthMsg(e, now) =>
          if settings.nip42Auth && settings.relayUrl.Some? {
            var ok := conn.AuthenticateWith(world, e, settings.relayUrl.value, now);
          }
        case ReqMsg(s) => frames := HandleReq(settings, s);
        case CloseMsg(id) => HandleClose(id);
        case QueryRow(id, parsed, now, script) =>
          if parsed.Some? && AllowedToSend(parsed.value, AuthenticatedAs(conn.auth), settings, now, script) {
            frames := {EventFrame(id, parsed.value)};
          }
        case QueryEnd(id) => frames := {EoseFrame(id)};
        case Realtime(e, now, scripts) => frames := HandleRealtime(settings, e, now, scripts);
        case Other =>
        case Disconnect => Cleanup();
      }
    }
  }
}
