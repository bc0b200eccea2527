/**
 * Sliding-window rate limits (src/db.rs). A limiter keeps only a pruned queue per key; it decides
 * as the full history of accepted events would.
 */
module RateLimit {
  import opened Common

  /** Nanoseconds of a monotone clock. */
  type Instant = nat

  const SECOND: nat := 1_000_000_000

  const TWO_POW_32: nat := 0x1_0000_0000

  /** `Instant::duration_since`, which saturates at zero. */
  function Age(now: Instant, t: Instant): nat {
    if now >= t then now - t else 0
  }

  /** How many of the instants lie in the half-open window from `lo` to `hi`. */
  function CountIn(h: seq<Instant>, lo: int, hi: int): nat {
    if h == [] then 0
    else CountIn(h[..|h| - 1], lo, hi) + (if lo <= h[|h| - 1] < hi then 1 else 0)
  }

  /** How many of the instants are younger than the window. */
  function Younger(h: seq<Instant>, now: Instant, window: nat): nat {
    CountIn(h, now - window + 1, now + 1)
  }

  predicate Sorted(h: seq<Instant>) {
    forall i, j :: 0 <= i < j < |h| ==> h[i] <= h[j]
  }

  /** Entries that are `max` apart are at least a window apart. */
  predicate Spaced(h: seq<Instant>, max: nat, window: nat) {
    forall i, j :: 0 <= i < |h| && 0 <= j < |h| && j == i + max ==> h[j] - h[i] >= window
  }

  lemma {:induction false} CountSplit(h: seq<Instant>, k: nat, lo: int, hi: int)
    requires k <= |h|
    ensures CountIn(h, lo, hi) == CountIn(h[..k], lo, hi) + CountIn(h[k..], lo, hi)
    decreases |h|
  {
    if k == |h| {
      assert h[..k] == h && h[k..] == [];
    } else {
      var rest := h[..|h| - 1];
      CountSplit(rest, k, lo, hi);
      assert rest[..k] == h[..k];
      assert h[k..][..|h[k..]| - 1] == rest[k..];
    }
  }

  lemma {:induction false} CountNone(h: seq<Instant>, lo: int, hi: int)
    requires forall i :: 0 <= i < |h| ==> h[i] < lo
    ensures CountIn(h, lo, hi) == 0
  {
    if h != [] {
      CountNone(h[..|h| - 1], lo, hi);
    }
  }

  lemma {:induction false} CountBounded(h: seq<Instant>, lo: int, hi: int)
    ensures CountIn(h, lo, hi) <= |h|
    ensures (forall i :: 0 <= i < |h| ==> lo <= h[i] < hi) ==> CountIn(h, lo, hi) == |h|
  {
    if h != [] {
      CountBounded(h[..|h| - 1], lo, hi);
    }
  }

  /** The count is the number of places. */
  lemma {:induction false} CountMeans(h: seq<Instant>, lo: int, hi: int)
    ensures CountIn(h, lo, hi) == |set i | 0 <= i < |h| && lo <= h[i] < hi|
  {
    if h != [] {
      var n := |h| - 1;
      CountMeans(h[..n], lo, hi);
      var before := set i | 0 <= i < n && lo <= h[..n][i] < hi;
      var all := set i | 0 <= i < |h| && lo <= h[i] < hi;
      assert all == if lo <= h[n] < hi then before + {n} else before;
    }
  }

  lemma YoungerCount(h: seq<Instant>, now: Instant, window: nat)
    requires forall i :: 0 <= i < |h| ==> h[i] <= now
    ensures Younger(h, now, window) == |set i | 0 <= i < |h| && now - h[i] < window|
  {
    CountMeans(h, now - window + 1, now + 1);
    assert (set i | 0 <= i < |h| && now - window + 1 <= h[i] < now + 1) == (set i | 0 <= i < |h| && now - h[i] < window);
  }

  /** If the last entry lies in the window, only the last `max` entries can. */
  lemma LastInWindow(h: seq<Instant>, max: nat, window: nat, lo: int, hi: int)
    requires Sorted(h) && Spaced(h, max, window) && 0 < max < |h|
    requires lo <= h[|h| - 1] < hi <= lo + window
    ensures CountIn(h, lo, hi) <= max
  {
    var k := |h| - max;
    assert h[k - 1 + max] - h[k - 1] >= window;
    forall i | 0 <= i < k
      ensures h[..k][i] < lo
    {
      assert h[i] <= h[k - 1];
    }
    CountSplit(h, k, lo, hi);
    CountNone(h[..k], lo, hi);
    CountBounded(h[k..], lo, hi);
  }

  /** Spacing bounds every window of that length. */
  lemma {:induction false} WindowBound(h: seq<Instant>, max: nat, window: nat, lo: int, hi: int)
    requires Sorted(h) && Spaced(h, max, window) && (max == 0 ==> h == []) && hi <= lo + window
    ensures CountIn(h, lo, hi) <= max
  {
    if |h| <= max {
      CountBounded(h, lo, hi);
    } else if lo <= h[|h| - 1] < hi {
      LastInWindow(h, max, window, lo, hi);
    } else {
      WindowBound(h[..|h| - 1], max, window, lo, hi);
    }
  }

  /**
   * One key: `h` is everything ever accepted, `q` its bucket. The bucket is a suffix of the
   * history, and what it lacks is at least a window old.
   */
  predicate KeyOk(h: seq<Instant>, q: seq<Instant>, clock: Instant, max: nat, window: nat) {
    && Sorted(h) && Spaced(h, max, window)
    && (forall i :: 0 <= i < |h| ==> h[i] <= clock)
    && (max == 0 ==> h == [])
    && |q| <= |h| && |q| <= max && q == h[|h| - |q|..]
    && forall i :: 0 <= i < |h| - |q| ==> Age(clock, h[i]) >= window
  }

  /** Time alone keeps a bucket right. */
  lemma KeyOkLater(h: seq<Instant>, q: seq<Instant>, clock: Instant, now: Instant, max: nat, window: nat)
    requires KeyOk(h, q, clock, max, window) && clock <= now
    ensures KeyOk(h, q, now, max, window)
  {
  }

  /** The bucket without what has left the window; its length is what the history counts. */
  method Prune(q: seq<Instant>, now: Instant, window: nat, max: nat, ghost h: seq<Instant>) returns (q': seq<Instant>)
    requires KeyOk(h, q, now, max, window)
    ensures KeyOk(h, q', now, max, window)
    ensures |q'| == Younger(h, now, window)
  {
    q' := q;
    while |q'| > 0 && Age(now, q'[0]) >= window
      invariant KeyOk(h, q', now, max, window)
    {
      q' := q'[1..];
    }
    DecidesAsHistory(h, |h| - |q'|, now, window);
  }

  /** What is left after pruning is what is younger than the window. */
  lemma DecidesAsHistory(h: seq<Instant>, dropped: nat, now: Instant, window: nat)
    requires dropped <= |h| && Sorted(h) && forall i :: 0 <= i < |h| ==> h[i] <= now
    requires forall i :: 0 <= i < dropped ==> Age(now, h[i]) >= window
    requires dropped < |h| ==> Age(now, h[dropped]) < window
    ensures Younger(h, now, window) == |h| - dropped
  {
    CountSplit(h, dropped, now - window + 1, now + 1);
    CountNone(h[..dropped], now - window + 1, now + 1);
    CountBounded(h[dropped..], now - window + 1, now + 1);
  }

  /** Recording an event while there is room keeps the spacing. */
  lemma KeyOkPush(h: seq<Instant>, q: seq<Instant>, now: Instant, max: nat, window: nat)
    requires KeyOk(h, q, now, max, window) && |q| < max
    ensures KeyOk(h + [now], q + [now], now, max, window)
  {
    var h' := h + [now];
    forall i, j | 0 <= i < |h'| && 0 <= j < |h'| && j == i + max
      ensures h'[j] - h'[i] >= window
    {
      assert h'[i] == h[i];
    }
    assert h'[|h'| - |q + [now]|..] == h[|h| - |q|..] + [now];
  }

  type Buckets = map<string, seq<Instant>>

  /** The entry of a key, empty if there is none yet. */
  function Entry(m: Buckets, key: string): seq<Instant> {
    if key in m then m[key] else []
  }

  /** Every bucket is right for its history. */
  predicate AllOk(history: Buckets, buckets: Buckets, clock: Instant, max: nat, window: nat) {
    forall key :: key in buckets ==> KeyOk(Entry(history, key), buckets[key], clock, max, window)
  }

  /** The state of a limiter: one bucket per key of the history, each right. */
  predicate StateOk(history: Buckets, buckets: Buckets, clock: Instant, max: nat, window: nat) {
    buckets.Keys == history.Keys && AllOk(history, buckets, clock, max, window)
  }

  lemma EntryOk(history: Buckets, buckets: Buckets, clock: Instant, now: Instant, max: nat, window: nat, key: string)
    requires StateOk(history, buckets, clock, max, window) && clock <= now
    ensures KeyOk(Entry(history, key), Entry(buckets, key), now, max, window)
  {
    if key in buckets {
      KeyOkLater(history[key], buckets[key], clock, now, max, window);
    }
  }

  /** One key updated, the others left alone. */
  lemma StateOkUpdate(history: Buckets, buckets: Buckets, clock: Instant, now: Instant, max: nat, window: nat,
                      key: string, h: seq<Instant>, q: seq<Instant>)
    requires StateOk(history, buckets, clock, max, window) && clock <= now
    requires KeyOk(h, q, now, max, window)
    ensures StateOk(history[key := h], buckets[key := q], now, max, window)
  {
    var history', buckets' := history[key := h], buckets[key := q];
    assert buckets'.Keys == buckets.Keys + {key} && history'.Keys == history.Keys + {key};
    forall k | k in buckets'
      ensures KeyOk(Entry(history', k), buckets'[k], now, max, window)
    {
      if k != key {
        KeyOkLater(history[k], buckets[k], clock, now, max, window);
      }
    }
  }

  /** The decision on one bucket. */
  method Decide(q: seq<Instant>, now: Instant, window: nat, max: nat, ghost h: seq<Instant>)
    returns (ok: bool, q': seq<Instant>, ghost h': seq<Instant>)
    requires KeyOk(h, q, now, max, window) && max < TWO_POW_32
    ensures ok <==> Younger(h, now, window) < max
    ensures h' == h + (if ok then [now] else [])
    ensures KeyOk(h', q', now, max, window)
  {
    q' := Prune(q, now, window, max, h);
    h' := h;
    ok := |q'| % TWO_POW_32 < max;
    if ok {
      KeyOkPush(h, q', now, max, window);
      q', h' := q' + [now], h + [now];
    }
  }

  class SlidingWindowLimiter {
    const windowSecs: nat
    const maxEvents: nat
    var buckets: Buckets
    /** Every instant ever accepted, per key. */
    ghost var history: Buckets
    /** The time of the latest check. */
    ghost var clock: Instant

    function Window(): nat {
      windowSecs * SECOND
    }

    ghost function History(key: string): seq<Instant>
      reads this
    {
      Entry(history, key)
    }

    ghost predicate Valid()
      reads this
    {
      maxEvents < TWO_POW_32 && StateOk(history, buckets, clock, maxEvents, Window())
    }

    constructor (windowSecs: nat, maxEvents: nat)
      requires maxEvents < TWO_POW_32
      ensures Valid() && this.windowSecs == windowSecs && this.maxEvents == maxEvents
      ensures history == map[] && clock == 0
    {
      this.windowSecs, this.maxEvents := windowSecs, maxEvents;
      buckets := map[];
      history, clock := map[], 0;
    }

    /**
     * `check`: accepts exactly when the full history of the key has fewer than `maxEvents`
     * entries younger than the window, and then records the event. Other keys are untouched.
     */
    method Check(key: string, now: Instant) returns (ok: bool)
      requires Valid() && clock <= now
      modifies this
      ensures Valid() && clock == now
      ensures ok <==> Younger(old(History(key)), now, Window()) < maxEvents
      ensures history == old(history)[key := old(History(key)) + (if ok then [now] else [])]
    {
      ghost var h := History(key);
      var q := Entry(buckets, key);
      EntryOk(history, buckets, clock, now, maxEvents, Window(), key);
      ok, q, h := Decide(q, now, Window(), maxEvents, h);
      StateOkUpdate(history, buckets, clock, now, maxEvents, Window(), key, h, q);
      buckets := buckets[key := q];
      history := history[key := h];
      clock := now;
    }

    /** What `Check` compares: the accepted events of the key that are younger than the window, in seconds. */
    lemma YoungerMeans(key: string, now: Instant)
      requires Valid() && clock <= now
      ensures Younger(History(key), now, Window())
              == |set i | 0 <= i < |History(key)| && now - History(key)[i] < windowSecs * 1_000_000_000|
    {
      EntryOk(history, buckets, clock, now, maxEvents, Window(), key);
      YoungerCount(History(key), now, Window());
    }

    /** In every state, every half-open window holds at most `maxEvents` accepted events of a key. */
    lemma Bound(key: string, lo: int, hi: int)
      requires Valid() && hi <= lo + Window()
      ensures CountIn(History(key), lo, hi) <= maxEvents
    {
      EntryOk(history, buckets, clock, clock, maxEvents, Window(), key);
      WindowBound(History(key), maxEvents, Window(), lo, hi);
    }
  }

  // ---------------------------------------------------------------------------------------
  // Several rules for one kind
  // ---------------------------------------------------------------------------------------

  datatype RateScope = Global | Npub | Ip

  datatype Submission = Submission(pubkey: string, ip: string, at: Instant)

  /** The bucket a rule charges. */
  function KeyFor(scope: RateScope, s: Submission): string {
    match scope
    case Global => ""
    case Npub => s.pubkey
    case Ip => s.ip
  }

  /** How many of the submissions charge this key of the scope within the half-open window. */
  function PassedIn(passed: seq<Submission>, scope: RateScope, key: string, lo: int, hi: int): nat {
    if passed == [] then 0
    else
      var last := passed[|passed| - 1];
      PassedIn(passed[..|passed| - 1], scope, key, lo, hi)
      + (if KeyFor(scope, last) == key && lo <= last.at < hi then 1 else 0)
  }

  /** A key and a half-open window. */
  datatype Span = Span(key: string, lo: int, hi: int)

  predicate CoversSpan(history: Buckets, passed: seq<Submission>, scope: RateScope, w: Span) {
    PassedIn(passed, scope, w.key, w.lo, w.hi) <= CountIn(Entry(history, w.key), w.lo, w.hi)
  }

  /** Whatever passed was accepted: no window holds more passed than accepted events. */
  ghost predicate Covers(history: Buckets, passed: seq<Submission>, scope: RateScope) {
    forall w: Span :: CoversSpan(history, passed, scope, w)
  }

  /** Accepting without passing, and passing what was accepted, keep the cover. */
  lemma CoversStep(history: Buckets, passed: seq<Submission>, scope: RateScope, s: Submission)
    requires Covers(history, passed, scope)
    ensures var key := KeyFor(scope, s);
            var history' := history[key := Entry(history, key) + [s.at]];
            Covers(history', passed, scope) && Covers(history', passed + [s], scope)
  {
    var charged := KeyFor(scope, s);
    var h := Entry(history, charged);
    var history' := history[charged := h + [s.at]];
    assert (h + [s.at])[..|h|] == h && (passed + [s])[..|passed|] == passed;
    forall w: Span
      ensures CoversSpan(history', passed, scope, w) && CoversSpan(history', passed + [s], scope, w)
    {
      assert CoversSpan(history, passed, scope, w);
    }
  }

  lemma CoversSame(history: Buckets, passed: seq<Submission>, scope: RateScope, key: string)
    requires Covers(history, passed, scope)
    ensures Covers(history[key := Entry(history, key) + []], passed, scope)
  {
    var history' := history[key := Entry(history, key) + []];
    forall w: Span
      ensures CoversSpan(history', passed, scope, w)
    {
      assert Entry(history', w.key) == Entry(history, w.key);
      assert CoversSpan(history, passed, scope, w);
    }
  }

  /** The rules of one kind, checked in order until one refuses. */
  class KindRateRules {
    const scopes: seq<RateScope>
    const limiters: seq<SlidingWindowLimiter>
    /** The submissions that passed every rule. */
    ghost var passed: seq<Submission>
    ghost var latest: Instant

    ghost predicate Valid()
      reads this, limiters
    {
      Distinct() && AllCover(passed, |limiters|, latest)
    }

    constructor (scopes: seq<RateScope>, limiters: seq<SlidingWindowLimiter>)
      requires |scopes| == |limiters|
      requires forall i, j :: 0 <= i < |limiters| && 0 <= j < |limiters| && i != j ==> limiters[i] != limiters[j]
      requires forall i :: 0 <= i < |limiters| ==> limiters[i].Valid() && limiters[i].clock == 0
      ensures Valid() && passed == [] && this.scopes == scopes && this.limiters == limiters
    {
      this.scopes, this.limiters := scopes, limiters;
      passed, latest := [], 0;
    }

    /** One rule: what it accepts it records, under the key of its scope. */
    method CheckOne(i: nat, s: Submission) returns (ok: bool)
      requires i < |limiters| == |scopes|
      requires limiters[i].Valid() && limiters[i].clock <= s.at
      requires Covers(limiters[i].history, passed, scopes[i])
      modifies limiters[i]
      ensures limiters[i].Valid() && limiters[i].clock == s.at
      ensures Covers(limiters[i].history, passed, scopes[i])
      ensures ok <==> old(!Refuses(i, s))
      ensures ok ==> Covers(limiters[i].history, passed + [s], scopes[i])
    {
      CoversStep(limiters[i].history, passed, scopes[i], s);
      CoversSame(limiters[i].history, passed, scopes[i], KeyFor(scopes[i], s));
      ok := limiters[i].Check(KeyFor(scopes[i], s), s.at);
    }

    /** Every limiter is valid and covers these submissions. */
    ghost predicate AllCover(submissions: seq<Submission>, n: nat, now: Instant)
      requires n <= |limiters| == |scopes|
      reads this, limiters
    {
      forall j :: 0 <= j < n ==>
        limiters[j].Valid() && limiters[j].clock <= now && Covers(limiters[j].history, submissions, scopes[j])
    }

    ghost predicate Distinct() {
      |limiters| == |scopes|
      && forall i, j :: 0 <= i < |limiters| && 0 <= j < |limiters| && i != j ==> limiters[i] != limiters[j]
    }

    /** One turn of the rule loop: rule `i` is checked, the others stay as they are. */
    method NextRule(i: nat, s: Submission) returns (ok: bool)
      requires Distinct() && i < |limiters|
      requires AllCover(passed, |limiters|, s.at) && AllCover(passed + [s], i, s.at)
      modifies limiters[i]
      ensures AllCover(passed, |limiters|, s.at)
      ensures ok ==> AllCover(passed + [s], i + 1, s.at)
      ensures ok <==> old(!Refuses(i, s))
    {
      ok := CheckOne(i, s);
    }

    /** The rule loop of `db_writer`, up to the first rule that refuses. */
    method RunRules(s: Submission) returns (exceeded: bool)
      requires Distinct() && AllCover(passed, |limiters|, s.at)
      modifies limiters
      ensures AllCover(passed, |limiters|, s.at)
      ensures !exceeded ==> AllCover(passed + [s], |limiters|, s.at)
      ensures exceeded <==> exists i :: 0 <= i < |limiters| && old(Refuses(i, s))
    {
      for i := 0 to |limiters|
        invariant AllCover(passed, |limiters|, s.at) && AllCover(passed + [s], i, s.at)
        invariant forall j :: 0 <= j < i ==> !old(Refuses(j, s))
        invariant forall j :: i <= j < |limiters| ==> Refuses(j, s) == old(Refuses(j, s))
      {
        var ok := NextRule(i, s);
        if !ok {
          return true;
        }
      }
      return false;
    }

    /**
     * The rule check of `db_writer`. A submission passes exactly when every rule accepts it; the
     * rules before a refusing one have recorded it all the same.
     */
    method CheckRules(s: Submission) returns (exceeded: bool)
      requires Valid() && latest <= s.at
      modifies this, limiters
      ensures Valid() && latest == s.at
      ensures passed == old(passed) + (if exceeded then [] else [s])
      ensures exceeded <==> exists i :: 0 <= i < |limiters| && old(Refuses(i, s))
    {
      exceeded := RunRules(s);
      latest := s.at;
      if !exceeded {
        passed := passed + [s];
      }
    }

    /** Rule `i` has no room left for the submission. */
    ghost predicate Refuses(i: nat, s: Submission)
      requires i < |limiters| == |scopes|
      reads limiters[i]
    {
      Younger(limiters[i].History(KeyFor(scopes[i], s)), s.at, limiters[i].Window()) >= limiters[i].maxEvents
    }

    /** Events that pass obey the bound of every rule, in every half-open window and for every key. */
    lemma EveryRuleBound(i: nat, key: string, lo: int, hi: int)
      requires Valid() && i < |limiters| && hi <= lo + limiters[i].Window()
      ensures PassedIn(passed, scopes[i], key, lo, hi) <= limiters[i].maxEvents
    {
      limiters[i].Bound(key, lo, hi);
      assert CoversSpan(limiters[i].history, passed, scopes[i], Span(key, lo, hi));
    }

    /** A rule per author: of each author at most so many events pass in any window of its seconds. */
    lemma AuthorBound(i: nat, pubkey: string, lo: int)
      requires Valid() && i < |limiters| && scopes[i] == Npub
      ensures |set k | 0 <= k < |passed| && passed[k].pubkey == pubkey
                       && lo <= passed[k].at < lo + limiters[i].windowSecs * 1_000_000_000| <= limiters[i].maxEvents
    {
      EveryRuleBound(i, pubkey, lo, lo + limiters[i].Window());
      PassedMeans(passed, Npub, pubkey, lo, lo + limiters[i].Window());
      assert PassedAt(passed, Npub, pubkey, lo, lo + limiters[i].Window())
          == set k | 0 <= k < |passed| && passed[k].pubkey == pubkey
                     && lo <= passed[k].at < lo + limiters[i].windowSecs * 1_000_000_000;
    }

    /** A rule per address. */
    lemma AddressBound(i: nat, ip: string, lo: int)
      requires Valid() && i < |limiters| && scopes[i] == Ip
      ensures |set k | 0 <= k < |passed| && passed[k].ip == ip
                       && lo <= passed[k].at < lo + limiters[i].windowSecs * 1_000_000_000| <= limiters[i].maxEvents
    {
      EveryRuleBound(i, ip, lo, lo + limiters[i].Window());
      PassedMeans(passed, Ip, ip, lo, lo + limiters[i].Window());
      assert PassedAt(passed, Ip, ip, lo, lo + limiters[i].Window())
          == set k | 0 <= k < |passed| && passed[k].ip == ip
                     && lo <= passed[k].at < lo + limiters[i].windowSecs * 1_000_000_000;
    }

    /** A rule for all. */
    lemma GlobalBound(i: nat, lo: int)
      requires Valid() && i < |limiters| && scopes[i] == Global
      ensures |set k | 0 <= k < |passed| && lo <= passed[k].at < lo + limiters[i].windowSecs * 1_000_000_000|
              <= limiters[i].maxEvents
    {
      EveryRuleBound(i, "", lo, lo + limiters[i].Window());
      PassedMeans(passed, Global, "", lo, lo + limiters[i].Window());
      assert PassedAt(passed, Global, "", lo, lo + limiters[i].Window())
          == set k | 0 <= k < |passed| && lo <= passed[k].at < lo + limiters[i].windowSecs * 1_000_000_000;
    }
  }

  /** Where the submissions that count are. */
  function PassedAt(passed: seq<Submission>, scope: RateScope, key: string, lo: int, hi: int): set<int> {
    set k | 0 <= k < |passed| && KeyFor(scope, passed[k]) == key && lo <= passed[k].at < hi
  }

  lemma PassedAtSnoc(passed: seq<Submission>, s: Submission, scope: RateScope, key: string, lo: int, hi: int)
    ensures PassedAt(passed + [s], scope, key, lo, hi)
            == PassedAt(passed, scope, key, lo, hi) + (if KeyFor(scope, s) == key && lo <= s.at < hi then {|passed|} else {})
  {
    var all := passed + [s];
    assert all[|passed|] == s && forall k :: 0 <= k < |passed| ==> all[k] == passed[k];
  }

  lemma {:induction false} PassedMeans(passed: seq<Submission>, scope: RateScope, key: string, lo: int, hi: int)
    ensures PassedIn(passed, scope, key, lo, hi) == |PassedAt(passed, scope, key, lo, hi)|
  {
    if passed != [] {
      var before, last := passed[..|passed| - 1], passed[|passed| - 1];
      PassedMeans(before, scope, key, lo, hi);
      PassedAtSnoc(before, last, scope, key, lo, hi);
      assert passed == before + [last];
    }
  }
}
