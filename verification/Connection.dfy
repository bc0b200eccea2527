/**
 * One client connection: NIP-42 authentication and subscriptions (src/conn.rs), and the steps of
 * the server loop that use them (src/server.rs).
 */
module Connection {
  import opened Common
  import opened Events
  import opened Filters
  import opened Access
  import opened EventTables

  const MAX_SUBSCRIPTIONS: nat := 32
  const MAX_SUBSCRIPTION_ID_LEN: nat := 256
  const AUTH_KIND: nat := 22242
  const AUTH_WINDOW: nat := 600

  datatype AuthState = NoAuth | Challenge(text: string) | AuthPubkey(pubkey: string)

  /** Signature checking and URL parsing, which this model does not look into. */
  datatype World = World(valid: Event -> bool, hostOf: string -> Option<string>)

  function AuthenticatedAs(auth: AuthState): Option<string> {
    match auth
    case AuthPubkey(pk) => Some(pk)
    case _ => None
  }

  // ---------------------------------------------------------------------------------------
  // Authentication
  // ---------------------------------------------------------------------------------------

  /** Value of the last two-element tag of this name. */
  function LastTagValue(tags: seq<Tag>, name: string): Option<string> {
    if tags == [] then None
    else
      var last := tags[|tags| - 1];
      if |last| == 2 && last[0] == name then Some(last[1]) else LastTagValue(tags[..|tags| - 1], name)
  }

  /** The timestamp check, in the wrapping arithmetic of u64. */
  predicate Timely(createdAt: nat, now: nat) {
    var pastCutoff := (now + TWO_POW_64 - AUTH_WINDOW) % TWO_POW_64;
    var futureCutoff := (now + AUTH_WINDOW) % TWO_POW_64;
    pastCutoff <= createdAt <= futureCutoff
  }

  /** Within ten minutes of now. */
  predicate WithinWindow(createdAt: nat, now: nat) {
    now < TWO_POW_64 ==> now - AUTH_WINDOW <= createdAt <= now + AUTH_WINDOW
  }

  /** Wrapping or not, a timely event was made within the window. */
  lemma TimelyIsWithinWindow(createdAt: nat, now: nat)
    requires Timely(createdAt, now)
    ensures WithinWindow(createdAt, now)
  {
  }

  /** Everything NIP-42 asks of an authentication event. */
  predicate AuthChecks(world: World, challenge: string, e: Event, relayUrl: string, now: nat) {
    && world.valid(e)
    && e.kind == AUTH_KIND
    && Timely(e.createdAt, now)
    && LastTagValue(e.tags, "challenge") == Some(challenge)
    && LastTagValue(e.tags, "relay").Some?
    && world.hostOf(LastTagValue(e.tags, "relay").value).Some?
    && world.hostOf(LastTagValue(e.tags, "relay").value) == world.hostOf(relayUrl)
  }

  /** `ClientConn::authenticate`: the new state, and whether the call succeeds. */
  function Authenticate(auth: AuthState, world: World, e: Event, relayUrl: string, now: nat): (AuthState, bool) {
    match auth
    case AuthPubkey(_) => (auth, true)
    case NoAuth => (auth, false)
    case Challenge(text) => if AuthChecks(world, text, e, relayUrl, now) then (AuthPubkey(e.pubkey), true) else (auth, false)
  }

  // ---------------------------------------------------------------------------------------
  // Subscriptions
  // ---------------------------------------------------------------------------------------

  /** Length of a text in bytes of UTF-8. */
  function Utf8Len(s: string): nat {
    if s == "" then 0
    else
      var c := s[0] as int;
      (if c < 0x80 then 1 else if c < 0x800 then 2 else if c < 0x1_0000 then 3 else 4) + Utf8Len(s[1..])
  }

  type Subscriptions = map<string, Subscription>

  /** `subscribe` succeeds: the id is short enough, and it is in use or there is room. */
  predicate CanSubscribe(subs: Subscriptions, s: Subscription) {
    Utf8Len(s.id) <= MAX_SUBSCRIPTION_ID_LEN && (s.id in subs || |subs| < MAX_SUBSCRIPTIONS)
  }

  /** `has_subscription`: the very same subscription is there. */
  predicate HasSubscription(subs: Subscriptions, s: Subscription) {
    exists id :: id in subs && subs[id] == s
  }

  function Precision(f: ReqFilter): nat {
    (if f.ids.Some? then 2 else 0) + (if f.authors.Some? then 1 else 0)
    + (if f.kinds.Some? then 1 else 0) + (if f.tags.Some? then 1 else 0)
  }

  predicate IsScraper(s: Subscription) {
    exists i :: 0 <= i < |s.filters| && Precision(s.filters[i]) < 2
  }

  // ---------------------------------------------------------------------------------------
  // Steps
  // ---------------------------------------------------------------------------------------

  /** Identity of one cancel channel. */
  type Token = nat

  /** `handed` are the tokens given to a query, `signalled` those told to stop. */
  datatype Conn = Conn(
    auth: AuthState,
    subs: Subscriptions,
    running: map<string, Token>,
    nextToken: Token,
    handed: set<Token>,
    signalled: set<Token>,
    open: bool)

  datatype Input =
    | AuthMsg(e: Event, now: nat)
    | ReqMsg(sub: Subscription)
    | CloseMsg(id: string)
    | QueryRow(subId: string, parsed: Option<Event>, now: nat, script: Option<bool>)
    | QueryEnd(subId: string)
    | Realtime(e: Event, now: nat, scripts: string -> Option<bool>)
    | Other
    | Disconnect

  datatype Frame = EventFrame(subId: string, event: Event) | EoseFrame(subId: string)

  function Start(settings: Settings, challenge: string): Conn {
    Conn(if settings.nip42Auth then Challenge(challenge) else NoAuth, map[], map[], 0, {}, {}, true)
  }

  function OnAuth(c: Conn, world: World, settings: Settings, e: Event, now: nat): Conn {
    if settings.nip42Auth && settings.relayUrl.Some? then
      c.(auth := Authenticate(c.auth, world, e, settings.relayUrl.value, now).0)
    else c
  }

  /** A request that is neither a repetition nor refused replaces the query of the same id. */
  function OnReq(c: Conn, settings: Settings, s: Subscription): (Conn, set<Frame>) {
    if HasSubscription(c.subs, s) then (c, {})
    else if settings.limitScrapers && IsScraper(s) then (c, {EoseFrame(s.id)})
    else if !CanSubscribe(c.subs, s) then (c.(nextToken := c.nextToken + 1), {})
    else
      var token := c.nextToken;
      (c.(subs := c.subs[s.id := s],
          running := c.running[s.id := token],
          nextToken := token + 1,
          handed := if NeedsHistory(s) then c.handed + {token} else c.handed,
          signalled := if s.id in c.running then c.signalled + {c.running[s.id]} else c.signalled), {})
  }

  function OnClose(c: Conn, id: string): Conn {
    c.(subs := c.subs - {id},
       running := c.running - {id},
       signalled := if id in c.running then c.signalled + {c.running[id]} else c.signalled)
  }

  /** The frames of a live event: one per interested subscription that may see it. */
  function RealtimeFrames(c: Conn, settings: Settings, e: Event, now: nat, scripts: string -> Option<bool>): set<Frame> {
    set id | id in c.subs && SubscriptionInterested(c.subs[id], e)
             && AllowedToSend(Serialized(e), AuthenticatedAs(c.auth), settings, now, scripts(id))
    :: EventFrame(id, Serialized(e))
  }

  /** Leaving the loop tells every running query to stop. */
  function OnDisconnect(c: Conn): Conn {
    c.(running := map[], signalled := c.signalled + c.running.Values, open := false)
  }

  /** What one turn of the loop does to the connection. */
  function NextConn(c: Conn, world: World, settings: Settings, x: Input): Conn {
    match x
    case AuthMsg(e, now) => OnAuth(c, world, settings, e, now)
    case ReqMsg(s) => OnReq(c, settings, s).0
    case CloseMsg(id) => OnClose(c, id)
    case Disconnect => OnDisconnect(c)
    case _ => c
  }

  /** What it sends. */
  function FramesFor(c: Conn, settings: Settings, x: Input): set<Frame> {
    match x
    case ReqMsg(s) => OnReq(c, settings, s).1
    case QueryRow(id, parsed, now, script) =>
      if parsed.Some? && AllowedToSend(parsed.value, AuthenticatedAs(c.auth), settings, now, script)
      then {EventFrame(id, parsed.value)} else {}
    case QueryEnd(id) => {EoseFrame(id)}
    case Realtime(e, now, scripts) => RealtimeFrames(c, settings, e, now, scripts)
    case _ => {}
  }

  /** One turn of the loop of `nostr_server`: the new state and what is sent. */
  function Step(c: Conn, world: World, settings: Settings, x: Input): (Conn, set<Frame>) {
    if !c.open then (c, {}) else (NextConn(c, world, settings, x), FramesFor(c, settings, x))
  }

  /** The state after a sequence of inputs. */
  function Session(world: World, settings: Settings, challenge: string, xs: seq<Input>): Conn {
    if xs == [] then Start(settings, challenge)
    else Step(Session(world, settings, challenge, xs[..|xs| - 1]), world, settings, xs[|xs| - 1]).0
  }

  /** What is sent in response to the i-th input. */
  function Sent(world: World, settings: Settings, challenge: string, xs: seq<Input>, i: nat): set<Frame>
    requires i < |xs|
  {
    Step(Session(world, settings, challenge, xs[..i]), world, settings, xs[i]).1
  }

  // ---------------------------------------------------------------------------------------
  // Privileged reads
  // ---------------------------------------------------------------------------------------

  /** The j-th input authenticates as `pk`: it passed every check against this connection's challenge. */
  predicate Authenticates(world: World, settings: Settings, challenge: string, x: Input, pk: string) {
    && x.AuthMsg? && settings.nip42Auth && settings.relayUrl.Some?
    && AuthChecks(world, challenge, x.e, settings.relayUrl.value, x.now)
    && x.e.pubkey == pk
  }

  /** What the authentication state can be after a run. */
  lemma {:induction false} AuthOrigin(world: World, settings: Settings, challenge: string, xs: seq<Input>)
    ensures match Session(world, settings, challenge, xs).auth
            case NoAuth => !settings.nip42Auth
            case Challenge(text) => text == challenge
            case AuthPubkey(pk) => exists j :: 0 <= j < |xs| && Authenticates(world, settings, challenge, xs[j], pk)
                                               && Session(world, settings, challenge, xs[..j + 1]).auth == AuthPubkey(pk)
  {
    if xs != [] {
      var n := |xs| - 1;
      var before := xs[..n];
      AuthOrigin(world, settings, challenge, before);
      var c := Session(world, settings, challenge, before);
      var auth := Session(world, settings, challenge, xs).auth;
      if auth.AuthPubkey? {
        if c.auth == auth {
          var j :| 0 <= j < n && Authenticates(world, settings, challenge, before[j], auth.pubkey)
                   && Session(world, settings, challenge, before[..j + 1]).auth == auth;
          assert xs[j] == before[j] && xs[..j + 1] == before[..j + 1];
        } else {
          assert Authenticates(world, settings, challenge, xs[n], auth.pubkey);
          assert xs[..n + 1] == xs;
        }
      }
    }
  }

  /** Once authenticated, a connection stays authenticated as the same key. */
  lemma {:induction false} AuthStays(world: World, settings: Settings, challenge: string, xs: seq<Input>, i: nat, j: nat)
    requires i <= j <= |xs| && Session(world, settings, challenge, xs[..i]).auth.AuthPubkey?
    ensures Session(world, settings, challenge, xs[..j]).auth == Session(world, settings, challenge, xs[..i]).auth
    decreases j
  {
    if i < j {
      AuthStays(world, settings, challenge, xs, i, j - 1);
      assert xs[..j][..j - 1] == xs[..j - 1];
    }
  }

  /**
   * Privileged reads over whole runs. Every event frame of a privileged kind follows an earlier
   * authentication on this connection that passed every check, whose key is the author of the
   * event or named in one of its p tags; from then on the connection has that key and no other.
   */
  lemma PrivilegedReads(world: World, settings: Settings, challenge: string, xs: seq<Input>, i: nat, f: Frame)
    requires i < |xs| && f in Sent(world, settings, challenge, xs, i)
    requires f.EventFrame? && PrivilegedKind(settings, f.event.kind)
    ensures exists j :: 0 <= j < i && xs[j].AuthMsg?
              && Authenticates(world, settings, challenge, xs[j], xs[j].e.pubkey)
              && WithinWindow(xs[j].e.createdAt, xs[j].now)
              && PrivilegedReader(f.event, Some(xs[j].e.pubkey))
              && forall k :: j < k <= |xs| ==> Session(world, settings, challenge, xs[..k]).auth == AuthPubkey(xs[j].e.pubkey)
  {
    var c := Session(world, settings, challenge, xs[..i]);
    FrameWasAllowed(c, world, settings, xs[i], f);
    var pk := c.auth.pubkey;
    AuthOrigin(world, settings, challenge, xs[..i]);
    var j :| 0 <= j < i && Authenticates(world, settings, challenge, xs[..i][j], pk)
             && Session(world, settings, challenge, xs[..i][..j + 1]).auth == AuthPubkey(pk);
    assert xs[..i][j] == xs[j] && xs[..i][..j + 1] == xs[..j + 1];
    TimelyIsWithinWindow(xs[j].e.createdAt, xs[j].now);
    forall k | j < k <= |xs|
      ensures Session(world, settings, challenge, xs[..k]).auth == AuthPubkey(pk)
    {
      AuthStays(world, settings, challenge, xs, j + 1, k);
    }
  }

  /** A privileged frame is sent only to a connection authenticated as author or p-tagged reader. */
  lemma FrameWasAllowed(c: Conn, world: World, settings: Settings, x: Input, f: Frame)
    requires f in Step(c, world, settings, x).1 && f.EventFrame? && PrivilegedKind(settings, f.event.kind)
    ensures c.auth.AuthPubkey? && PrivilegedReader(f.event, Some(c.auth.pubkey))
  {
  }

  /** The kind may be read only by an authenticated connection. */
  predicate AuthOnlyKind(settings: Settings, kind: nat) {
    kind in settings.kinds.filters && settings.kinds.filters[kind].requireAuth
  }

  /** Direct messages are restricted to their sender and first recipient. */
  predicate RestrictedMessage(settings: Settings, kind: nat) {
    settings.nip42Dms && (kind == 4 || kind == 44 || kind == 1059)
  }

  /** The key is the sender or the first recipient. */
  predicate Party(e: Event, pk: string) {
    var recipients := TagValuesByName(e.tags, "p");
    recipients != [] && (e.pubkey == pk || recipients[0] == pk)
  }

  lemma RestrictedFrameWasAllowed(c: Conn, world: World, settings: Settings, x: Input, f: Frame)
    requires f in Step(c, world, settings, x).1 && f.EventFrame?
    requires AuthOnlyKind(settings, f.event.kind) || RestrictedMessage(settings, f.event.kind)
    ensures c.auth.AuthPubkey? && (RestrictedMessage(settings, f.event.kind) ==> Party(f.event, c.auth.pubkey))
  {
  }

  /**
   * Restricted reads over whole runs. Every event frame of a kind that requires authentication,
   * and every restricted direct message, follows an authentication on this connection that
   * passed every check; for a direct message its key is the sender or the first recipient.
   */
  lemma RestrictedReads(world: World, settings: Settings, challenge: string, xs: seq<Input>, i: nat, f: Frame)
    requires i < |xs| && f in Sent(world, settings, challenge, xs, i) && f.EventFrame?
    requires AuthOnlyKind(settings, f.event.kind) || RestrictedMessage(settings, f.event.kind)
    ensures exists j :: 0 <= j < i && xs[j].AuthMsg?
              && Authenticates(world, settings, challenge, xs[j], xs[j].e.pubkey)
              && (RestrictedMessage(settings, f.event.kind) ==> Party(f.event, xs[j].e.pubkey))
  {
    var c := Session(world, settings, challenge, xs[..i]);
    RestrictedFrameWasAllowed(c, world, settings, xs[i], f);
    AuthOrigin(world, settings, challenge, xs[..i]);
    var j :| 0 <= j < i && Authenticates(world, settings, challenge, xs[..i][j], c.auth.pubkey);
    assert xs[..i][j] == xs[j];
  }

  // ---------------------------------------------------------------------------------------
  // Exactly who is authenticated, and what is then sent
  // ---------------------------------------------------------------------------------------

  /** The input is an authentication that passes every check. */
  predicate Passes(world: World, settings: Settings, challenge: string, x: Input) {
    x.AuthMsg? && Authenticates(world, settings, challenge, x, x.e.pubkey)
  }

  predicate Uneventful(world: World, settings: Settings, challenge: string, xs: seq<Input>) {
    forall k :: 0 <= k < |xs| ==> !xs[k].Disconnect? && !Passes(world, settings, challenge, xs[k])
  }

  /** The j-th input is the first complete authentication of an open connection, by `pk`. */
  predicate FirstAuth(world: World, settings: Settings, challenge: string, xs: seq<Input>, j: nat, pk: string) {
    && j < |xs| && Authenticates(world, settings, challenge, xs[j], pk)
    && Uneventful(world, settings, challenge, xs[..j])
  }

  lemma UneventfulStep(c: Conn, world: World, settings: Settings, challenge: string, x: Input)
    requires c.open && c.auth == Start(settings, challenge).auth
    requires !x.Disconnect? && !Passes(world, settings, challenge, x)
    ensures var c' := Step(c, world, settings, x).0; c'.open && c'.auth == c.auth
  {
  }

  lemma {:induction false} UneventfulSession(world: World, settings: Settings, challenge: string, xs: seq<Input>)
    requires Uneventful(world, settings, challenge, xs)
    ensures Session(world, settings, challenge, xs).open
    ensures Session(world, settings, challenge, xs).auth == Start(settings, challenge).auth
  {
    if xs != [] {
      var before := xs[..|xs| - 1];
      assert Uneventful(world, settings, challenge, before);
      UneventfulSession(world, settings, challenge, before);
      UneventfulStep(Session(world, settings, challenge, before), world, settings, challenge, xs[|xs| - 1]);
    }
  }

  lemma {:induction false} ClosedStays(world: World, settings: Settings, challenge: string, xs: seq<Input>, i: nat)
    requires i <= |xs| && !Session(world, settings, challenge, xs[..i]).open
    ensures Session(world, settings, challenge, xs) == Session(world, settings, challenge, xs[..i])
    decreases |xs|
  {
    if i < |xs| {
      assert xs[..|xs| - 1][..i] == xs[..i];
      ClosedStays(world, settings, challenge, xs[..|xs| - 1], i);
    } else {
      assert xs[..i] == xs;
    }
  }

  /** One more input after an uneventful session. */
  lemma FirstEvent(world: World, settings: Settings, challenge: string, xs: seq<Input>, i: nat)
    requires i < |xs| && Uneventful(world, settings, challenge, xs[..i])
    ensures var c := Session(world, settings, challenge, xs[..i + 1]);
            (Passes(world, settings, challenge, xs[i]) ==> c.auth == AuthPubkey(xs[i].e.pubkey))
            && (xs[i].Disconnect? ==> !c.open && c.auth == Start(settings, challenge).auth)
  {
    UneventfulSession(world, settings, challenge, xs[..i]);
    assert xs[..i + 1][..i] == xs[..i];
  }

  lemma {:induction false} FirstEventful(world: World, settings: Settings, challenge: string, xs: seq<Input>) returns (i: nat)
    requires !Uneventful(world, settings, challenge, xs)
    ensures i < |xs| && Uneventful(world, settings, challenge, xs[..i])
    ensures xs[i].Disconnect? || Passes(world, settings, challenge, xs[i])
  {
    var n := |xs| - 1;
    if Uneventful(world, settings, challenge, xs[..n]) {
      i := n;
    } else {
      i := FirstEventful(world, settings, challenge, xs[..n]);
      assert xs[..n][..i] == xs[..i];
    }
  }

  lemma FirstAuthCounts(world: World, settings: Settings, challenge: string, xs: seq<Input>, j: nat, pk: string)
    requires FirstAuth(world, settings, challenge, xs, j, pk)
    ensures Session(world, settings, challenge, xs).auth == AuthPubkey(pk)
  {
    FirstEvent(world, settings, challenge, xs, j);
    AuthStays(world, settings, challenge, xs, j + 1, |xs|);
    assert xs[..|xs|] == xs;
  }

  lemma AuthComesFirst(world: World, settings: Settings, challenge: string, xs: seq<Input>, pk: string) returns (i: nat)
    requires Session(world, settings, challenge, xs).auth == AuthPubkey(pk)
    ensures FirstAuth(world, settings, challenge, xs, i, pk)
  {
    if Uneventful(world, settings, challenge, xs) {
      UneventfulSession(world, settings, challenge, xs);
      assert false;
    }
    i := FirstEventful(world, settings, challenge, xs);
    FirstEvent(world, settings, challenge, xs, i);
    if xs[i].Disconnect? {
      ClosedStays(world, settings, challenge, xs, i + 1);
    } else {
      FirstAuthCounts(world, settings, challenge, xs, i, xs[i].e.pubkey);
    }
  }

  /**
   * Exactly who is authenticated: after any session the connection is authenticated as a key
   * exactly when the first complete authentication, made while it was open, was by that key.
   */
  lemma AuthExactly(world: World, settings: Settings, challenge: string, xs: seq<Input>, pk: string)
    ensures Session(world, settings, challenge, xs).auth == AuthPubkey(pk)
            <==> exists j: nat :: j < |xs| && FirstAuth(world, settings, challenge, xs, j, pk)
  {
    if j: nat :| j < |xs| && FirstAuth(world, settings, challenge, xs, j, pk) {
      FirstAuthCounts(world, settings, challenge, xs, j, pk);
    }
    if Session(world, settings, challenge, xs).auth == AuthPubkey(pk) {
      var i := AuthComesFirst(world, settings, challenge, xs, pk);
    }
  }

  /** What is asked of a reader of a privileged kind besides being one. */
  predicate OtherGates(settings: Settings, e: Event, pk: string, now: nat, script: Option<bool>)
    requires PrivilegedKind(settings, e.kind)
  {
    var config := settings.kinds.filters[e.kind];
    && KindAllowed(e.kind, settings.kinds) && !IsExpired(e, now)
    && (config.read.value.hasScript ==> script == Some(true))
    && !RuleAllows(config.read.value.deny, e, Some(pk), settings.serverPubkey)
    && (config.maxAge.Some? ==> now <= (e.createdAt + config.maxAge.value) % TWO_POW_64)
    && (RestrictedMessage(settings, e.kind) ==> Party(e, pk))
  }

  /**
   * Exactly which privileged rows are sent: on an open connection, those whose author or p-tagged
   * reader made the first complete authentication, and who passes the other gates.
   */
  lemma PrivilegedRowExactly(world: World, settings: Settings, challenge: string, xs: seq<Input>, i: nat)
    requires i < |xs| && xs[i].QueryRow? && xs[i].parsed.Some? && PrivilegedKind(settings, xs[i].parsed.value.kind)
    requires Session(world, settings, challenge, xs[..i]).open
    ensures var e := xs[i].parsed.value;
            EventFrame(xs[i].subId, e) in Sent(world, settings, challenge, xs, i) <==>
              exists j: nat :: j < i && xs[j].AuthMsg? && FirstAuth(world, settings, challenge, xs[..i], j, xs[j].e.pubkey)
                               && PrivilegedReader(e, Some(xs[j].e.pubkey))
                               && OtherGates(settings, e, xs[j].e.pubkey, xs[i].now, xs[i].script)
  {
    var e, auth := xs[i].parsed.value, Session(world, settings, challenge, xs[..i]).auth;
    PrivilegedRowAllowed(settings, e, auth, xs[i].now, xs[i].script);
    if auth.AuthPubkey? {
      AuthExactly(world, settings, challenge, xs[..i], auth.pubkey);
    }
    forall j: nat | j < i && xs[j].AuthMsg? && FirstAuth(world, settings, challenge, xs[..i], j, xs[j].e.pubkey)
      ensures auth == AuthPubkey(xs[j].e.pubkey)
    {
      AuthExactly(world, settings, challenge, xs[..i], xs[j].e.pubkey);
    }
  }

  lemma PrivilegedRowAllowed(settings: Settings, e: Event, auth: AuthState, now: nat, script: Option<bool>)
    requires PrivilegedKind(settings, e.kind)
    ensures AllowedToSend(e, AuthenticatedAs(auth), settings, now, script) <==>
              auth.AuthPubkey? && PrivilegedReader(e, Some(auth.pubkey)) && OtherGates(settings, e, auth.pubkey, now, script)
  {
    PrivilegedReadExactly(settings, e, AuthenticatedAs(auth), script);
  }

  // ---------------------------------------------------------------------------------------
  // Cancel tokens
  // ---------------------------------------------------------------------------------------

  type Running = map<string, Token>

  predicate TokensFresh(running: Running, next: Token, handed: set<Token>, signalled: set<Token>) {
    && (forall t :: t in handed ==> t < next)
    && (forall t :: t in signalled ==> t < next)
    && (forall id :: id in running ==> running[id] < next)
  }

  /** Every token is in the map at most once, and not if it was told to stop. */
  predicate TokensOnce(running: Running, signalled: set<Token>) {
    && (forall i, j :: i in running && j in running && running[i] == running[j] ==> i == j)
    && (forall id :: id in running ==> running[id] !in signalled)
  }

  predicate InMap(running: Running, t: Token) {
    exists id :: id in running && running[id] == t
  }

  /** Every token given to a query is in the map or was told to stop. */
  predicate TokensKept(running: Running, handed: set<Token>, signalled: set<Token>) {
    forall t :: t in handed && t !in signalled ==> InMap(running, t)
  }

  predicate TokensOk(running: Running, next: Token, handed: set<Token>, signalled: set<Token>) {
    TokensFresh(running, next, handed, signalled) && TokensOnce(running, signalled) && TokensKept(running, handed, signalled)
  }

  /** The token of this id, if any. */
  function TokenOf(running: Running, id: string): set<Token> {
    if id in running then {running[id]} else {}
  }

  lemma TokenReplaced(running: Running, next: Token, handed: set<Token>, signalled: set<Token>, id: string, given: set<Token>)
    requires TokensOk(running, next, handed, signalled) && given <= {next}
    ensures TokensOk(running[id := next], next + 1, handed + given, signalled + TokenOf(running, id))
  {
    var running' := running[id := next];
    forall t | t in handed + given && t !in signalled + TokenOf(running, id)
      ensures InMap(running', t)
    {
      if t == next {
        assert running'[id] == t;
      } else {
        assert InMap(running, t);
        var j :| j in running && running[j] == t;
        assert j != id && running'[j] == t;
      }
    }
  }

  lemma TokenDropped(running: Running, next: Token, handed: set<Token>, signalled: set<Token>, id: string)
    requires TokensOk(running, next, handed, signalled)
    ensures TokensOk(running - {id}, next, handed, signalled + TokenOf(running, id))
  {
    forall t | t in handed && t !in signalled + TokenOf(running, id)
      ensures InMap(running - {id}, t)
    {
      assert InMap(running, t);
      var j :| j in running && running[j] == t;
      assert j != id && (running - {id})[j] == t;
    }
  }

  lemma TokensStopped(running: Running, next: Token, handed: set<Token>, signalled: set<Token>)
    requires TokensOk(running, next, handed, signalled)
    ensures TokensOk(map[], next, handed, signalled + running.Values)
    ensures handed <= signalled + running.Values
  {
    forall t | t in handed && t !in signalled
      ensures t in running.Values
    {
      assert InMap(running, t);
    }
  }

  predicate SubscriptionsBounded(subs: Subscriptions) {
    |subs| <= MAX_SUBSCRIPTIONS
    && forall id :: id in subs ==> subs[id].id == id && Utf8Len(id) <= MAX_SUBSCRIPTION_ID_LEN
  }

  lemma SubscribedBounded(subs: Subscriptions, s: Subscription)
    requires SubscriptionsBounded(subs) && CanSubscribe(subs, s)
    ensures SubscriptionsBounded(subs[s.id := s])
  {
    var subs' := subs[s.id := s];
    assert |subs'| <= MAX_SUBSCRIPTIONS by {
      assert subs'.Keys == subs.Keys + {s.id};
      assert s.id in subs ==> subs'.Keys == subs.Keys;
      assert |subs'| == |subs'.Keys| && |subs| == |subs.Keys|;
    }
    forall id | id in subs'
      ensures subs'[id].id == id && Utf8Len(id) <= MAX_SUBSCRIPTION_ID_LEN
    {
      assert id == s.id || (id in subs && subs'[id] == subs[id]);
    }
  }

  lemma UnsubscribedBounded(subs: Subscriptions, id: string)
    requires SubscriptionsBounded(subs)
    ensures SubscriptionsBounded(subs - {id})
  {
    assert (subs - {id}).Keys == subs.Keys - {id};
    assert id !in subs ==> (subs - {id}).Keys == subs.Keys;
  }

  /** The book of the connection, field by field. */
  predicate BookOk(subs: Subscriptions, running: Running, next: Token, handed: set<Token>, signalled: set<Token>, open: bool) {
    && TokensOk(running, next, handed, signalled)
    && SubscriptionsBounded(subs)
    && (open ==> running.Keys == subs.Keys)
    && (!open ==> running == map[] && handed <= signalled)
  }

  predicate BookKept(c: Conn) {
    BookOk(c.subs, c.running, c.nextToken, c.handed, c.signalled, c.open)
  }

  /** A request is registered: neither a repetition, nor a scraper, nor refused. */
  predicate Registers(c: Conn, settings: Settings, s: Subscription) {
    !HasSubscription(c.subs, s) && !(settings.limitScrapers && IsScraper(s)) && CanSubscribe(c.subs, s)
  }

  lemma BookRegistered(subs: Subscriptions, running: Running, next: Token, handed: set<Token>, signalled: set<Token>,
                       s: Subscription, given: set<Token>)
    requires BookOk(subs, running, next, handed, signalled, true) && CanSubscribe(subs, s) && given <= {next}
    ensures BookOk(subs[s.id := s], running[s.id := next], next + 1, handed + given, signalled + TokenOf(running, s.id), true)
  {
    TokenReplaced(running, next, handed, signalled, s.id, given);
    SubscribedBounded(subs, s);
    assert running[s.id := next].Keys == subs[s.id := s].Keys;
  }

  lemma ReqKeepsBook(c: Conn, settings: Settings, s: Subscription)
    requires c.open && BookKept(c)
    ensures BookKept(OnReq(c, settings, s).0)
  {
    if Registers(c, settings, s) {
      RegisteredTokens(c, settings, s);
      BookRegistered(c.subs, c.running, c.nextToken, c.handed, c.signalled, s, if NeedsHistory(s) then {c.nextToken} else {});
    } else {
      TokenUnused(c.running, c.nextToken, c.handed, c.signalled);
      UnregisteredSame(c, settings, s);
    }
  }

  /** A refused request may have made a token that nobody gets. */
  lemma UnregisteredSame(c: Conn, settings: Settings, s: Subscription)
    requires !Registers(c, settings, s)
    ensures var c' := OnReq(c, settings, s).0; c' == c || c' == c.(nextToken := c.nextToken + 1)
  {
  }

  lemma TokenUnused(running: Running, next: Token, handed: set<Token>, signalled: set<Token>)
    requires TokensOk(running, next, handed, signalled)
    ensures TokensOk(running, next + 1, handed, signalled)
  {
  }

  lemma RegisteredTokens(c: Conn, settings: Settings, s: Subscription)
    requires Registers(c, settings, s)
    ensures var c' := OnReq(c, settings, s).0;
            && c'.handed == c.handed + (if NeedsHistory(s) then {c.nextToken} else {})
            && c'.signalled == c.signalled + TokenOf(c.running, s.id)
            && c'.running == c.running[s.id := c.nextToken] && c'.nextToken == c.nextToken + 1
            && c'.subs == c.subs[s.id := s] && c'.open == c.open
  {
  }

  lemma BookClosed(subs: Subscriptions, running: Running, next: Token, handed: set<Token>, signalled: set<Token>, id: string)
    requires BookOk(subs, running, next, handed, signalled, true)
    ensures BookOk(subs - {id}, running - {id}, next, handed, signalled + TokenOf(running, id), true)
  {
    TokenDropped(running, next, handed, signalled, id);
    UnsubscribedBounded(subs, id);
  }

  lemma ClosedFields(c: Conn, id: string)
    ensures OnClose(c, id)
            == Conn(c.auth, c.subs - {id}, c.running - {id}, c.nextToken, c.handed, c.signalled + TokenOf(c.running, id), c.open)
  {
  }

  lemma CloseKeepsBook(c: Conn, id: string)
    requires c.open && BookKept(c)
    ensures BookKept(OnClose(c, id))
  {
    ClosedFields(c, id);
    BookClosed(c.subs, c.running, c.nextToken, c.handed, c.signalled, id);
  }

  lemma BookStopped(subs: Subscriptions, running: Running, next: Token, handed: set<Token>, signalled: set<Token>)
    requires BookOk(subs, running, next, handed, signalled, true)
    ensures BookOk(subs, map[], next, handed, signalled + running.Values, false)
  {
    TokensStopped(running, next, handed, signalled);
  }

  lemma DisconnectKeepsBook(c: Conn)
    requires c.open && BookKept(c)
    ensures BookKept(OnDisconnect(c))
  {
    BookStopped(c.subs, c.running, c.nextToken, c.handed, c.signalled);
  }

  lemma NextKeepsBook(c: Conn, world: World, settings: Settings, x: Input)
    requires c.open && BookKept(c)
    ensures BookKept(NextConn(c, world, settings, x))
  {
    match x
    case AuthMsg(e, now) => assert NextConn(c, world, settings, x) == c.(auth := OnAuth(c, world, settings, e, now).auth);
    case ReqMsg(s) => ReqKeepsBook(c, settings, s);
    case CloseMsg(id) => CloseKeepsBook(c, id);
    case Disconnect => DisconnectKeepsBook(c);
    case _ => assert NextConn(c, world, settings, x) == c;
  }

  lemma StepKeepsBook(c: Conn, world: World, settings: Settings, x: Input)
    requires BookKept(c)
    ensures BookKept(Step(c, world, settings, x).0)
  {
    if c.open {
      NextKeepsBook(c, world, settings, x);
    }
  }

  /**
   * Cancel-token bookkeeping. In every run the running queries are exactly the subscriptions, at
   * most 32 of them with ids of at most 256 bytes; every token handed to a query is in the map
   * exactly once or was told to stop, and all of them were once the connection has closed.
   */
  lemma {:induction false} TokenBookkeeping(world: World, settings: Settings, challenge: string, xs: seq<Input>)
    ensures BookKept(Session(world, settings, challenge, xs))
  {
    if xs != [] {
      TokenBookkeeping(world, settings, challenge, xs[..|xs| - 1]);
      StepKeepsBook(Session(world, settings, challenge, xs[..|xs| - 1]), world, settings, xs[|xs| - 1]);
    }
  }
}
