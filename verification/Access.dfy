/** Per-kind access rules (src/kind_filters.rs) and the read gate of a connection (src/server.rs). */
module Access {
  import opened Common
  import opened Events
  import opened Hex

  datatype AccessRule = All | NoOne | Listed(identifiers: seq<string>)

  /** `hasScript`: a script is configured; its answer is an input of every check. */
  datatype WriteReadConfig = WriteReadConfig(hasScript: bool, allow: AccessRule, deny: AccessRule, privileged: bool)

  /** The part of a kind's configuration that governs reading; `maxAge` in seconds. */
  datatype KindConfig = KindConfig(requireAuth: bool, read: Option<WriteReadConfig>, maxAge: Option<nat>)

  datatype KindFilters = KindFilters(
    whitelist: Option<seq<nat>>,
    blacklist: Option<seq<nat>>,
    filters: map<nat, KindConfig>)

  datatype Settings = Settings(
    kinds: KindFilters,
    serverPubkey: Option<string>,
    nip42Auth: bool,
    nip42Dms: bool,
    relayUrl: Option<string>,
    limitScrapers: bool)

  /** `evaluate_access_identifier`. */
  predicate IdentifierAllows(identifier: string, e: Event, auth: Option<string>, server: Option<string>) {
    if |identifier| == 64 && IsHex(identifier) then e.pubkey == identifier || auth == Some(identifier)
    else identifier == "private_server_hex" && auth.Some? && auth == server
  }

  /** `check_access_rule`. */
  predicate RuleAllows(rule: AccessRule, e: Event, auth: Option<string>, server: Option<string>) {
    match rule
    case All => true
    case NoOne => false
    case Listed(ids) => exists i :: 0 <= i < |ids| && IdentifierAllows(ids[i], e, auth, server)
  }

  /** `check_privileged_read`: authenticated, and the author or named in a p tag. */
  predicate PrivilegedReader(e: Event, auth: Option<string>) {
    auth.Some? && (e.pubkey == auth.value || auth.value in TagValuesByName(e.tags, "p"))
  }

  /** `check_write_read_config`; `script` is the answer of the script, none if it failed. */
  predicate ConfigAllows(config: WriteReadConfig, e: Event, auth: Option<string>, server: Option<string>, isRead: bool, script: Option<bool>) {
    if config.hasScript && script != Some(true) then false
    else if RuleAllows(config.deny, e, auth, server) then false
    else
      var allowed := RuleAllows(config.allow, e, auth, server);
      if isRead && config.privileged then
        if !config.allow.All? && allowed then true else PrivilegedReader(e, auth)
      else allowed
  }

  /** `is_kind_allowed`: a whitelist decides alone; otherwise the blacklist does. */
  predicate KindAllowed(kind: nat, filters: KindFilters) {
    if filters.whitelist.Some? then kind in filters.whitelist.value
    else filters.blacklist.Some? ==> kind !in filters.blacklist.value
  }

  /** Direct messages, when restricted, go to the sender and the first recipient only. */
  predicate DirectMessageAllowed(e: Event, auth: Option<string>, settings: Settings) {
    settings.nip42Dms && e.kind in {4, 44, 1059} ==>
      var recipients := TagValuesByName(e.tags, "p");
      auth.Some? && recipients != [] && (recipients[0] == auth.value || e.pubkey == auth.value)
  }

  /** The kind's own rules: authentication, read access, age in the wrapping arithmetic of u64. */
  predicate KindRulesAllow(e: Event, auth: Option<string>, settings: Settings, now: nat, script: Option<bool>) {
    e.kind in settings.kinds.filters ==>
      var config := settings.kinds.filters[e.kind];
      && (config.requireAuth ==> auth.Some?)
      && (config.read.Some? ==> ConfigAllows(config.read.value, e, auth, settings.serverPubkey, true, script))
      && (config.maxAge.Some? ==> now <= (e.createdAt + config.maxAge.value) % TWO_POW_64)
  }

  /** `allowed_to_send`, for a row that parsed as an event. */
  predicate AllowedToSend(e: Event, auth: Option<string>, settings: Settings, now: nat, script: Option<bool>) {
    && KindAllowed(e.kind, settings.kinds)
    && !IsExpired(e, now)
    && KindRulesAllow(e, auth, settings, now, script)
    && DirectMessageAllowed(e, auth, settings)
  }

  /** The kind is configured for privileged reading, open to all otherwise. */
  predicate PrivilegedKind(settings: Settings, kind: nat) {
    kind in settings.kinds.filters
    && settings.kinds.filters[kind].read.Some?
    && settings.kinds.filters[kind].read.value.privileged
    && settings.kinds.filters[kind].read.value.allow.All?
  }

  /**
   * For a privileged kind the default allow-all opens nothing: once the script and the deny rule
   * let the reader through, exactly the authenticated author and p-tagged readers are allowed.
   */
  lemma PrivilegedReadExactly(settings: Settings, e: Event, auth: Option<string>, script: Option<bool>)
    requires PrivilegedKind(settings, e.kind)
    ensures var config := settings.kinds.filters[e.kind].read.value;
            ConfigAllows(config, e, auth, settings.serverPubkey, true, script) <==>
              (config.hasScript ==> script == Some(true))
              && !RuleAllows(config.deny, e, auth, settings.serverPubkey)
              && PrivilegedReader(e, auth)
  {
  }
}
