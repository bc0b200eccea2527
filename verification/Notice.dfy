/** OK reasons with machine-readable prefixes (src/notice.rs). */
module Notice {
  import opened Common

  datatype ResultStatus = Saved | Duplicate | Invalid | Blocked | RateLimited | Error | Restricted | AuthRequired

  /** A command result as sent to the client. */
  datatype EventResult = EventResult(id: string, msg: string, status: ResultStatus)

  function Prefix(s: ResultStatus): string {
    match s
    case Saved => "saved"
    case Duplicate => "duplicate"
    case Invalid => "invalid"
    case Blocked => "blocked"
    case RateLimited => "rate-limited"
    case Error => "error"
    case Restricted => "restricted"
    case AuthRequired => "auth-required"
  }

  /** The status a prefix denotes. */
  function FromPrefix(p: string): Option<ResultStatus> {
    if p == "saved" then Some(Saved)
    else if p == "duplicate" then Some(Duplicate)
    else if p == "invalid" then Some(Invalid)
    else if p == "blocked" then Some(Blocked)
    else if p == "rate-limited" then Some(RateLimited)
    else if p == "error" then Some(Error)
    else if p == "restricted" then Some(Restricted)
    else if p == "auth-required" then Some(AuthRequired)
    else if p == "pow" then Some(Invalid)
    else if p == "unsupported" then Some(Error)
    else None
  }

  const KNOWN_PREFIXES: seq<string> :=
    ["auth-required", "pow", "duplicate", "blocked", "rate-limited", "invalid", "error", "unsupported", "restricted"]

  /** Position of the first `": "`, if there is one. */
  function Find(msg: string): Option<nat> {
    if |msg| < 2 then None
    else if msg[0] == ':' && msg[1] == ' ' then Some(0)
    else
      match Find(msg[1..])
      case Some(i) => Some(i + 1)
      case None => None
  }

  /** A reason split at its prefix; `Plain` if it has no known one. */
  datatype Reason = Prefixed(prefix: string, detail: string) | Plain

  lemma {:induction false} FindBounds(msg: string)
    ensures Find(msg).Some? ==> Find(msg).value + 2 <= |msg|
    ensures Find(msg).Some? ==> msg[Find(msg).value] == ':' && msg[Find(msg).value + 1] == ' '
  {
    if |msg| >= 2 && !(msg[0] == ':' && msg[1] == ' ') {
      FindBounds(msg[1..]);
    }
  }

  /** `parse_reason`: a known prefix before the first `": "`. */
  function ParseReason(msg: string): Reason {
    FindBounds(msg);
    match Find(msg)
    case None => Plain
    case Some(i) =>
      if i > 0 && msg[..i] in KNOWN_PREFIXES then Prefixed(msg[..i], msg[i + 2..]) else Plain
  }

  /** `ensure_reason`. */
  function EnsureReason(msg: string, fallback: ResultStatus): string {
    if msg == "" then Prefix(fallback) + ": rejected"
    else if ParseReason(msg).Prefixed? then msg
    else Prefix(fallback) + ": " + msg
  }

  /** The status a message gets: that of its prefix, or the fallback. */
  function StatusOf(msg: string, fallback: ResultStatus): ResultStatus {
    match ParseReason(msg)
    case Plain => fallback
    case Prefixed(p, _) => if FromPrefix(p).Some? then FromPrefix(p).value else fallback
  }

  /** `Notice::prefixed`. */
  function PrefixedResult(id: string, msg: string, status: ResultStatus): EventResult {
    var text := EnsureReason(msg, status);
    EventResult(id, text, StatusOf(text, status))
  }

  /** `Notice::from_reason`. */
  function FromReason(id: string, msg: string): EventResult {
    PrefixedResult(id, msg, Blocked)
  }

  // ---------------------------------------------------------------------------------------

  predicate NoColon(p: string) {
    forall i :: 0 <= i < |p| ==> p[i] != ':'
  }

  lemma {:induction false} FindAfter(p: string, detail: string)
    requires NoColon(p)
    ensures Find(p + ": " + detail) == Some(|p|)
  {
    var msg := p + ": " + detail;
    if p == "" {
      assert msg[0] == ':' && msg[1] == ' ';
    } else {
      FindAfter(p[1..], detail);
      assert msg[1..] == p[1..] + ": " + detail;
      assert msg[0] == p[0];
    }
  }

  lemma KnownHaveNoColon(p: string)
    requires p in KNOWN_PREFIXES
    ensures NoColon(p) && p != "" && FromPrefix(p).Some?
  {
    var i :| 0 <= i < |KNOWN_PREFIXES| && KNOWN_PREFIXES[i] == p;
    assert i == 0 || i == 1 || i == 2 || i == 3 || i == 4 || i == 5 || i == 6 || i == 7 || i == 8;
  }

  /** A known prefix, the separator and any detail parse back. */
  lemma ParsePrefixed(p: string, detail: string)
    requires p in KNOWN_PREFIXES
    ensures ParseReason(p + ": " + detail) == Prefixed(p, detail)
  {
    KnownHaveNoColon(p);
    FindAfter(p, detail);
    var msg := p + ": " + detail;
    assert msg[..|p|] == p && msg[|p| + 2..] == detail;
  }

  /** Every status but Saved has a known prefix, which denotes it. */
  lemma FallbackKnown(s: ResultStatus)
    ensures Prefix(s) in KNOWN_PREFIXES <==> s != Saved
    ensures FromPrefix(Prefix(s)) == Some(s)
  {
    match s
    case Saved =>
      forall i | 0 <= i < |KNOWN_PREFIXES|
        ensures KNOWN_PREFIXES[i] != "saved"
      {
        assert KNOWN_PREFIXES[i][0] != 's';
      }
    case AuthRequired => assert KNOWN_PREFIXES[0] == Prefix(s);
    case Duplicate => assert KNOWN_PREFIXES[2] == Prefix(s);
    case Blocked => assert KNOWN_PREFIXES[3] == Prefix(s);
    case RateLimited => assert KNOWN_PREFIXES[4] == Prefix(s);
    case Invalid => assert KNOWN_PREFIXES[5] == Prefix(s);
    case Error => assert KNOWN_PREFIXES[6] == Prefix(s);
    case Restricted => assert KNOWN_PREFIXES[8] == Prefix(s);
  }

  /** What `ensure_reason` puts after the prefix it adds. */
  function Detail(msg: string): string {
    if msg == "" then "rejected" else msg
  }

  /**
   * The output of `ensure_reason` parses to a known prefix exactly when the message had one or
   * the fallback is not Saved. A message that had one is unchanged; another becomes the detail
   * under the prefix of the fallback.
   */
  lemma EnsuredParses(msg: string, fallback: ResultStatus)
    ensures ParseReason(EnsureReason(msg, fallback)).Prefixed? <==> ParseReason(msg).Prefixed? || fallback != Saved
    ensures !ParseReason(msg).Prefixed? && fallback != Saved ==>
              ParseReason(EnsureReason(msg, fallback)) == Prefixed(Prefix(fallback), Detail(msg))
    ensures ParseReason(msg).Prefixed? ==> EnsureReason(msg, fallback) == msg
  {
    FallbackKnown(fallback);
    if !ParseReason(msg).Prefixed? {
      var p := Prefix(fallback);
      assert ": rejected" == ": " + "rejected";
      assert EnsureReason(msg, fallback) == p + ": " + Detail(msg);
      if fallback != Saved {
        ParsePrefixed(p, Detail(msg));
      } else {
        FindAfter(p, Detail(msg));
        assert (p + ": " + Detail(msg))[..|p|] == p;
      }
    }
  }

  /** A second `ensure_reason`, with any fallback, changes nothing. */
  lemma EnsureIdempotent(msg: string, fallback: ResultStatus, second: ResultStatus)
    requires fallback != Saved
    ensures EnsureReason(EnsureReason(msg, fallback), second) == EnsureReason(msg, fallback)
  {
    EnsuredParses(msg, fallback);
    EnsuredParses(EnsureReason(msg, fallback), second);
  }

  /**
   * The status of a result is the one its prefix denotes: that of the prefix the message came
   * with, or the given one.
   */
  lemma StatusMatchesPrefix(id: string, msg: string, status: ResultStatus)
    requires status != Saved
    ensures var r := PrefixedResult(id, msg, status);
            ParseReason(r.msg).Prefixed? && FromPrefix(ParseReason(r.msg).prefix) == Some(r.status)
    ensures !ParseReason(msg).Prefixed? ==> PrefixedResult(id, msg, status).status == status
  {
    EnsuredParses(msg, status);
    FallbackKnown(status);
    KnownHaveNoColon(ParseReason(EnsureReason(msg, status)).prefix);
  }

  /** A rejection is blocked unless its message names another known prefix. */
  lemma RejectionStatus(id: string, msg: string)
    ensures var r := FromReason(id, msg);
            ParseReason(r.msg).Prefixed? && FromPrefix(ParseReason(r.msg).prefix) == Some(r.status)
    ensures FromReason(id, msg).status.Saved? || FromReason(id, msg).status.Duplicate? ==> FromReason(id, msg).msg == msg
    ensures !FromReason(id, msg).status.Saved?
  {
    StatusMatchesPrefix(id, msg, Blocked);
    EnsuredParses(msg, Blocked);
    FallbackKnown(Saved);
    var p := ParseReason(FromReason(id, msg).msg).prefix;
    assert p in KNOWN_PREFIXES;
  }

  // ---------------------------------------------------------------------------------------
  // The texts
  // ---------------------------------------------------------------------------------------

  lemma KnownReason(p: string, id: string, detail: string, status: ResultStatus)
    requires p in KNOWN_PREFIXES
    ensures var msg := p + ": " + detail;
            FromPrefix(p).Some? && PrefixedResult(id, msg, status) == EventResult(id, msg, FromPrefix(p).value)
  {
    ParsePrefixed(p, detail);
    KnownHaveNoColon(p);
  }

  /** The status a rejection gets for each of the known texts, whatever follows. */
  lemma KnownReasons(id: string, p: string, detail: string)
    requires p in ["auth-required", "pow", "duplicate", "blocked", "rate-limited", "invalid", "error", "unsupported", "restricted"]
    ensures FromReason(id, p + ": " + detail).msg == p + ": " + detail
    ensures FromReason(id, p + ": " + detail).status
            == if p == "auth-required" then AuthRequired
               else if p == "duplicate" then Duplicate
               else if p == "blocked" then Blocked
               else if p == "rate-limited" then RateLimited
               else if p == "restricted" then Restricted
               else if p == "invalid" || p == "pow" then Invalid
               else Error
  {
    KnownReason(p, id, detail, Blocked);
    KnownCases(p);
  }

  lemma KnownCases(p: string)
    requires p in KNOWN_PREFIXES
    ensures FromPrefix(p)
            == Some(if p == "auth-required" then AuthRequired
                    else if p == "duplicate" then Duplicate
                    else if p == "blocked" then Blocked
                    else if p == "rate-limited" then RateLimited
                    else if p == "restricted" then Restricted
                    else if p == "invalid" || p == "pow" then Invalid
                    else Error)
  {
    assert p != "saved" by {
      FallbackKnown(Saved);
    }
    KnownHaveNoColon(p);
  }

  /** The text of an empty message, for every status. */
  lemma EmptyMessages(s: ResultStatus)
    ensures EnsureReason("", Blocked) == "blocked" + ": rejected" && EnsureReason("", Invalid) == "invalid" + ": rejected"
    ensures EnsureReason("", s) == Prefix(s) + ": rejected"
  {
  }

  /** The text that a message without a known prefix is sent with, for every status. */
  lemma AddedPrefixes(id: string, msg: string)
    requires msg != "" && ParseReason(msg).Plain?
    ensures PrefixedResult(id, msg, Duplicate) == EventResult(id, "duplicate: " + msg, Duplicate)
    ensures PrefixedResult(id, msg, Invalid) == EventResult(id, "invalid: " + msg, Invalid)
    ensures PrefixedResult(id, msg, Blocked) == EventResult(id, "blocked: " + msg, Blocked)
    ensures PrefixedResult(id, msg, RateLimited) == EventResult(id, "rate-limited: " + msg, RateLimited)
    ensures PrefixedResult(id, msg, Error) == EventResult(id, "error: " + msg, Error)
    ensures PrefixedResult(id, msg, Restricted) == EventResult(id, "restricted: " + msg, Restricted)
    ensures PrefixedResult(id, msg, AuthRequired) == EventResult(id, "auth-required: " + msg, AuthRequired)
    ensures PrefixedResult(id, msg, Saved).msg == "saved: " + msg
  {
    forall s: ResultStatus | s != Saved
      ensures PrefixedResult(id, msg, s) == EventResult(id, Prefix(s) + ": " + msg, s)
    {
      StatusMatchesPrefix(id, msg, s);
    }
    assert "duplicate" + ": " == "duplicate: " && "invalid" + ": " == "invalid: " && "blocked" + ": " == "blocked: ";
    assert "rate-limited" + ": " == "rate-limited: " && "error" + ": " == "error: " && "restricted" + ": " == "restricted: ";
    assert "auth-required" + ": " == "auth-required: " && "saved" + ": " == "saved: ";
  }
}
