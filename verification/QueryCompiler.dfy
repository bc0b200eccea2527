/**
 * `query_from_filter` (src/repo/sqlite.rs): a request filter becomes a list of conditions and a
 * list of positional parameters. The compiled query selects exactly what the filter asks for,
 * and on canonical filters exactly what the live matcher accepts.
 */
module QueryCompiler {
  import opened Common
  import opened Events
  import opened Hex
  import opened EventTables
  import opened StoreInvariants
  import opened Filters
  import opened Sql

  // ---------------------------------------------------------------------------------------
  // What a filter asks of a stored row
  // ---------------------------------------------------------------------------------------

  /** Some text decodes to these bytes. */
  predicate DecodesTo(texts: seq<string>, bytes: Bytes) {
    exists i :: 0 <= i < |texts| && Decode(texts[i]) == Some(bytes)
  }

  /** A tag row that gives evidence for one tag name of the filter. */
  predicate TagRowWanted(f: ReqFilter, c: char, wanted: set<string>, row: TagRow) {
    row.name == [c] && row.value in wanted
    && KindMatch(f, row.kind) && SinceMatch(f, row.createdAt) && UntilMatch(f, row.createdAt)
  }

  predicate TagWanted(f: ReqFilter, c: char, wanted: set<string>, id: nat, tags: seq<TagRow>) {
    exists k :: 0 <= k < |tags| && tags[k].eventId == id && TagRowWanted(f, c, wanted, tags[k])
  }

  predicate TagsWanted(f: ReqFilter, id: nat, tags: seq<TagRow>) {
    f.tags.Some? ==> forall c :: c in f.tags.value ==> TagWanted(f, c, f.tags.value[c], id, tags)
  }

  predicate Unexpired(r: EventRow, now: nat) {
    r.expiresAt.Some? ==> r.expiresAt.value > now
  }

  /** The filter asks for this row: visible, unexpired, and every present field matches. */
  predicate Wanted(f: ReqFilter, now: nat, id: nat, r: EventRow, tags: seq<TagRow>) {
    && !f.forceNoMatch
    && !r.hidden
    && (f.authors.Some? ==> DecodesTo(f.authors.value, r.author))
    && KindMatch(f, r.kind)
    && (f.ids.Some? ==> DecodesTo(f.ids.value, r.hash))
    && TagsWanted(f, id, tags)
    && SinceMatch(f, r.createdAt)
    && UntilMatch(f, r.createdAt)
    && Unexpired(r, now)
  }

  /** The query means the filter: every parameter has its placeholder, and exactly the wanted rows pass. */
  ghost predicate Compiled(f: ReqFilter, now: nat, q: Query, params: seq<Value>) {
    && Holes(q.cond) == |params|
    && (forall id: nat, r: EventRow, tags: seq<TagRow> ::
          Eval(q.cond, OfEvent(id, r), tags, params, 0) == True <==> Wanted(f, now, id, r, tags))
    && q.limit == (if f.forceNoMatch then None else f.limit)
    && q.order == (if f.forceNoMatch then Unordered else if f.limit.Some? then NewestFirst else OldestFirst)
  }

  predicate WantedIn(f: ReqFilter, now: nat, t: Tables, id: nat) {
    id in t.events && Wanted(f, now, id, t.events[id], t.tags)
  }

  /**
   * What the database may answer to a filter, said without a query: wanted rows, each once; all of
   * them, oldest first, or with a limit n newest of them, newest first.
   */
  predicate FilterAnswers(f: ReqFilter, now: nat, t: Tables, out: seq<nat>) {
    && (!f.forceNoMatch && f.limit.Some? ==> |out| <= f.limit.value < TWO_POW_63)
    && (forall i :: 0 <= i < |out| ==> WantedIn(f, now, t, out[i]))
    && (forall i, j :: 0 <= i < j < |out| ==> out[i] != out[j])
    && (forall i, j :: 0 <= i < j < |out| ==>
          if f.limit.Some? then t.events[out[i]].createdAt >= t.events[out[j]].createdAt
          else t.events[out[i]].createdAt <= t.events[out[j]].createdAt)
    && (forall id :: id in t.events && WantedIn(f, now, t, id) && id !in out ==>
          f.limit.Some? && |out| == f.limit.value
          && forall i :: 0 <= i < |out| ==> t.events[id].createdAt <= t.events[out[i]].createdAt)
  }

  /** The answers to the compiled query are the answers to the filter. */
  lemma CompiledAnswers(f: ReqFilter, now: nat, q: Query, params: seq<Value>, t: Tables, out: seq<nat>)
    requires Compiled(f, now, q, params)
    ensures Answers(q, params, t, out) <==> FilterAnswers(f, now, t, out)
  {
    forall id: nat
      ensures Selected(q, params, t, id) <==> WantedIn(f, now, t, id)
    {
    }
    if f.forceNoMatch {
      assert out != [] ==> !WantedIn(f, now, t, out[0]) && !Selected(q, params, t, out[0]);
    }
  }

  // ---------------------------------------------------------------------------------------
  // Lists of operands
  // ---------------------------------------------------------------------------------------

  /** `repeat_vars`: a list of placeholders. */
  function RepeatVars(count: nat): (list: seq<Operand>)
    ensures |list| == count
  {
    if count == 0 then [] else [Placeholder] + RepeatVars(count - 1)
  }

  function Literals(ns: seq<nat>): seq<Operand> {
    if ns == [] then [] else [Literal(ns[0])] + Literals(ns[1..])
  }

  lemma {:induction false} InPlaceholders(v: Value, params: seq<Value>, k: nat)
    requires !v.Null? && k <= |params|
    ensures ListHoles(RepeatVars(|params| - k)) == |params| - k
    ensures InList(v, RepeatVars(|params| - k), params, k) == True <==> v in params[k..]
    decreases |params| - k
  {
    if k < |params| {
      InPlaceholders(v, params, k + 1);
      assert RepeatVars(|params| - k)[1..] == RepeatVars(|params| - (k + 1));
      assert params[k..] == [params[k]] + params[k + 1..];
    }
  }

  lemma {:induction false} InLiterals(n: nat, ns: seq<nat>, params: seq<Value>, k: nat)
    ensures ListHoles(Literals(ns)) == 0
    ensures InList(Int(n), Literals(ns), params, k) == True <==> n in ns
  {
    if ns != [] {
      InLiterals(n, ns[1..], params, k);
      assert Literals(ns)[1..] == Literals(ns[1..]);
    }
  }

  // ---------------------------------------------------------------------------------------
  // Appending conditions, for every row at once
  // ---------------------------------------------------------------------------------------

  lemma AppendAll(ps: seq<Pred>, params: seq<Value>, p: Pred, own: seq<Value>)
    requires SeqHoles(ps) == |params| && Holes(p) == |own|
    ensures SeqHoles(ps + [p]) == |params + own|
    ensures forall row: Row, tags: seq<TagRow> ::
              EvalAll(ps + [p], row, tags, params + own, 0) == True
              <==> EvalAll(ps, row, tags, params, 0) == True && Eval(p, row, tags, own, 0) == True
  {
    SeqHolesSnoc(ps, p);
    forall row: Row, tags: seq<TagRow>
      ensures EvalAll(ps + [p], row, tags, params + own, 0) == True
              <==> EvalAll(ps, row, tags, params, 0) == True && Eval(p, row, tags, own, 0) == True
    {
      AppendCondition(ps, params, p, own, row, tags);
    }
  }

  lemma AppendAny(ps: seq<Pred>, params: seq<Value>, p: Pred, own: seq<Value>)
    requires SeqHoles(ps) == |params| && Holes(p) == |own|
    ensures SeqHoles(ps + [p]) == |params + own|
    ensures forall row: Row, tags: seq<TagRow> ::
              EvalAny(ps + [p], row, tags, params + own, 0) == True
              <==> EvalAny(ps, row, tags, params, 0) == True || Eval(p, row, tags, own, 0) == True
  {
    SeqHolesSnoc(ps, p);
    forall row: Row, tags: seq<TagRow>
      ensures EvalAny(ps + [p], row, tags, params + own, 0) == True
              <==> EvalAny(ps, row, tags, params, 0) == True || Eval(p, row, tags, own, 0) == True
    {
      AppendCondition(ps, params, p, own, row, tags);
    }
  }

  /** An undecodable text binds NULL, which equals nothing. */
  function BlobParam(text: string): Value {
    match Decode(text)
    case Some(b) => Blob(b)
    case None => Null
  }

  function ColumnBytes(col: Column, r: EventRow): Bytes
    requires col.Author? || col.EventHash?
  {
    if col.Author? then r.author else r.hash
  }

  /** The loops over authors and ids: one comparison and one parameter each, or false if none. */
  method BytesCondition(col: Column, texts: seq<string>) returns (p: Pred, own: seq<Value>)
    requires col.Author? || col.EventHash?
    ensures Holes(p) == |own|
    ensures forall id: nat, r: EventRow, tags: seq<TagRow> ::
              Eval(p, OfEvent(id, r), tags, own, 0) == True <==> DecodesTo(texts, ColumnBytes(col, r))
  {
    var searches: seq<Pred> := [];
    own := [];
    for i := 0 to |texts|
      invariant SeqHoles(searches) == |own| == i
      invariant forall id: nat, r: EventRow, tags: seq<TagRow> ::
                  EvalAny(searches, OfEvent(id, r), tags, own, 0) == True <==> DecodesTo(texts[..i], ColumnBytes(col, r))
    {
      AppendSearch(searches, own, col, texts, i);
      searches := searches + [Compare(col, Eq, Placeholder)];
      own := own + [BlobParam(texts[i])];
    }
    assert texts[..|texts|] == texts;
    p := if texts == [] then Never else AnyOf(searches);
  }

  /** One more comparison finds one more text. */
  lemma AppendSearch(searches: seq<Pred>, own: seq<Value>, col: Column, texts: seq<string>, i: nat)
    requires (col.Author? || col.EventHash?) && i < |texts| && SeqHoles(searches) == |own|
    requires forall id: nat, r: EventRow, tags: seq<TagRow> ::
               EvalAny(searches, OfEvent(id, r), tags, own, 0) == True <==> DecodesTo(texts[..i], ColumnBytes(col, r))
    ensures var search, bin := Compare(col, Eq, Placeholder), BlobParam(texts[i]);
            SeqHoles(searches + [search]) == |own + [bin]|
            && forall id: nat, r: EventRow, tags: seq<TagRow> ::
                 EvalAny(searches + [search], OfEvent(id, r), tags, own + [bin], 0) == True
                 <==> DecodesTo(texts[..i + 1], ColumnBytes(col, r))
  {
    var search, bin := Compare(col, Eq, Placeholder), BlobParam(texts[i]);
    AppendAny(searches, own, search, [bin]);
    assert texts[..i + 1] == texts[..i] + [texts[i]];
    forall id: nat, r: EventRow, tags: seq<TagRow>
      ensures EvalAny(searches + [search], OfEvent(id, r), tags, own + [bin], 0) == True
              <==> DecodesTo(texts[..i + 1], ColumnBytes(col, r))
    {
      DecodesToSnoc(texts[..i], texts[i], ColumnBytes(col, r));
      assert Eval(search, OfEvent(id, r), tags, [bin], 0) == True <==> Decode(texts[i]) == Some(ColumnBytes(col, r));
    }
  }

  method AppendBytes(parts: seq<Pred>, params: seq<Value>, col: Column, texts: Option<seq<string>>)
    returns (parts': seq<Pred>, params': seq<Value>)
    requires SeqHoles(parts) == |params| && (col.Author? || col.EventHash?)
    ensures SeqHoles(parts') == |params'|
    ensures forall id: nat, r: EventRow, tags: seq<TagRow> ::
              EvalAll(parts', OfEvent(id, r), tags, params', 0) == True
              <==> EvalAll(parts, OfEvent(id, r), tags, params, 0) == True
                   && (texts.Some? ==> DecodesTo(texts.value, ColumnBytes(col, r)))
  {
    parts', params' := parts, params;
    if texts.Some? {
      var p, own := BytesCondition(col, texts.value);
      AppendAll(parts, params, p, own);
      parts', params' := parts + [p], params + own;
    }
  }

  lemma DecodesToSnoc(texts: seq<string>, text: string, bytes: Bytes)
    ensures DecodesTo(texts + [text], bytes) <==> DecodesTo(texts, bytes) || Decode(text) == Some(bytes)
  {
    var all := texts + [text];
    if i :| 0 <= i < |texts| && Decode(texts[i]) == Some(bytes) {
      assert all[i] == texts[i];
    }
    assert all[|texts|] == text;
  }

  /** The values of a set, in whatever order the hash set yields them. */
  method Listed(values: set<string>) returns (list: seq<Value>)
    ensures forall v: string :: Text(v) in list <==> v in values
  {
    list := [];
    var rest := values;
    while rest != {}
      invariant rest <= values
      invariant forall v: string :: Text(v) in list <==> v in values - rest
      decreases rest
    {
      var v :| v in rest;
      list := list + [Text(v)];
      rest := rest - {v};
    }
  }

  /** The condition on kinds, which are written into the query text. */
  method AppendKinds(parts: seq<Pred>, params: seq<Value>, ks: seq<nat>) returns (parts': seq<Pred>, params': seq<Value>)
    requires SeqHoles(parts) == |params|
    ensures SeqHoles(parts') == |params'|
    ensures forall row: Row, tags: seq<TagRow> ::
              EvalAll(parts', row, tags, params', 0) == True
              <==> EvalAll(parts, row, tags, params, 0) == True && InKinds(row, ks)
  {
    var kind := OneOf(Kind, Literals(ks));
    forall row: Row, tags: seq<TagRow>
      ensures Eval(kind, row, tags, [], 0) == True <==> InKinds(row, ks)
    {
      InLiterals(ColumnValue(row, Kind).n, ks, [], 0);
    }
    InLiterals(0, ks, [], 0);
    AppendAll(parts, params, kind, []);
    parts', params' := parts + [kind], params + [];
  }

  predicate InKinds(row: Row, ks: seq<nat>) {
    ColumnValue(row, Kind).Int? && ColumnValue(row, Kind).n in ks
  }

  /** The conditions on the creation time, which is written into the query text. */
  method AppendTimes(parts: seq<Pred>, params: seq<Value>, f: ReqFilter) returns (parts': seq<Pred>, params': seq<Value>)
    requires SeqHoles(parts) == |params|
    ensures SeqHoles(parts') == |params'|
    ensures forall row: Row, tags: seq<TagRow> ::
              EvalAll(parts', row, tags, params', 0) == True
              <==> EvalAll(parts, row, tags, params, 0) == True && InTimes(row, f)
  {
    parts', params' := parts, params;
    if f.since.Some? {
      var since := Compare(CreatedAt, Ge, Literal(f.since.value));
      AppendAll(parts', params', since, []);
      parts', params' := parts' + [since], params' + [];
    }
    if f.until.Some? {
      var until := Compare(CreatedAt, Le, Literal(f.until.value));
      AppendAll(parts', params', until, []);
      parts', params' := parts' + [until], params' + [];
    }
  }

  predicate InTimes(row: Row, f: ReqFilter) {
    var createdAt := ColumnValue(row, CreatedAt);
    createdAt.Int? && SinceMatch(f, createdAt.n) && UntilMatch(f, createdAt.n)
  }

  /** The first part of a tag subquery: the name and the wanted values. */
  method NameAndValues(c: char, wanted: set<string>) returns (parts: seq<Pred>, own: seq<Value>)
    ensures SeqHoles(parts) == |own|
    ensures forall row: TagRow, tags: seq<TagRow> ::
              EvalAll(parts, OfTag(row), tags, own, 0) == True <==> row.name == [c] && row.value in wanted
  {
    var vals := Listed(wanted);
    var name := Compare(Name, Eq, Placeholder);
    AppendAll([], [], name, [Text([c])]);
    parts, own := [] + [name], [] + [Text([c])];
    var value := OneOf(TagValue, RepeatVars(|vals|));
    InPlaceholders(Int(0), vals, 0);
    forall v: string
      ensures InList(Text(v), RepeatVars(|vals|), vals, 0) == True <==> v in wanted
    {
      InPlaceholders(Text(v), vals, 0);
      assert vals[0..] == vals;
    }
    AppendAll(parts, own, value, vals);
    parts, own := parts + [value], own + vals;
  }

  /** The subquery for one tag name: name, values, and copies of the kind and time conditions. */
  method TagCondition(f: ReqFilter, c: char, wanted: set<string>) returns (p: Pred, own: seq<Value>)
    ensures Holes(p) == |own|
    ensures forall id: nat, r: EventRow, tags: seq<TagRow> ::
              Eval(p, OfEvent(id, r), tags, own, 0) == True <==> TagWanted(f, c, wanted, id, tags)
  {
    var parts: seq<Pred>;
    parts, own := NameAndValues(c, wanted);
    if f.kinds.Some? {
      parts, own := AppendKinds(parts, own, f.kinds.value);
    }
    parts, own := AppendTimes(parts, own, f);
    p := IdInTags(AllOf(parts));
    forall id: nat, r: EventRow, tags: seq<TagRow>
      ensures Eval(p, OfEvent(id, r), tags, own, 0) == True <==> TagWanted(f, c, wanted, id, tags)
    {
      SubqueryMeans(parts, own, id, r, tags);
      assert forall k :: 0 <= k < |tags| ==>
                           (EvalAll(parts, OfTag(tags[k]), tags, own, 0) == True <==> TagRowWanted(f, c, wanted, tags[k]));
    }
  }

  lemma SubqueryMeans(parts: seq<Pred>, own: seq<Value>, id: nat, r: EventRow, tags: seq<TagRow>)
    ensures Eval(IdInTags(AllOf(parts)), OfEvent(id, r), tags, own, 0) == True
            <==> exists k :: 0 <= k < |tags| && tags[k].eventId == id && EvalAll(parts, OfTag(tags[k]), tags, own, 0) == True
  {
    assert forall k :: 0 <= k < |tags| ==>
                         Eval(AllOf(parts), OfTag(tags[k]), tags, own, 0) == EvalAll(parts, OfTag(tags[k]), tags, own, 0);
  }

  /** The loop over the tag names, in whatever order the hash map yields them. */
  method AppendTags(parts: seq<Pred>, params: seq<Value>, f: ReqFilter) returns (parts': seq<Pred>, params': seq<Value>)
    requires SeqHoles(parts) == |params|
    ensures SeqHoles(parts') == |params'|
    ensures forall id: nat, r: EventRow, tags: seq<TagRow> ::
              EvalAll(parts', OfEvent(id, r), tags, params', 0) == True
              <==> EvalAll(parts, OfEvent(id, r), tags, params, 0) == True && TagsWanted(f, id, tags)
  {
    parts', params' := parts, params;
    if f.tags.Some? {
      var wanted := f.tags.value;
      var rest := wanted.Keys;
      while rest != {}
        invariant rest <= wanted.Keys
        invariant SeqHoles(parts') == |params'|
        invariant forall id: nat, r: EventRow, tags: seq<TagRow> ::
                    EvalAll(parts', OfEvent(id, r), tags, params', 0) == True
                    <==> EvalAll(parts, OfEvent(id, r), tags, params, 0) == True
                         && forall c :: c in wanted.Keys - rest ==> TagWanted(f, c, wanted[c], id, tags)
        decreases rest
      {
        var c :| c in rest;
        var p, own := TagCondition(f, c, wanted[c]);
        AppendAll(parts', params', p, own);
        parts', params' := parts' + [p], params' + own;
        assert wanted.Keys - (rest - {c}) == (wanted.Keys - rest) + {c};
        rest := rest - {c};
      }
    }
  }

  /** `(expires_at IS NULL OR expires_at > ?)`. */
  const ALIVE: Pred := AnyOf([IsNull(ExpiresAt), Compare(ExpiresAt, Gt, Placeholder)])

  lemma AliveMeans(now: nat, id: nat, r: EventRow, tags: seq<TagRow>)
    ensures Holes(ALIVE) == 1
    ensures Eval(ALIVE, OfEvent(id, r), tags, [Int(now)], 0) == True <==> Unexpired(r, now)
  {
    var second := [Compare(ExpiresAt, Gt, Placeholder)];
    assert ALIVE.alts[1..] == second && second[1..] == [];
    assert SeqHoles(second) == 1;
    assert EvalAny(second, OfEvent(id, r), tags, [Int(now)], 0)
           == Or(Eval(second[0], OfEvent(id, r), tags, [Int(now)], 0), False);
  }

  method AppendAlive(parts: seq<Pred>, params: seq<Value>, now: nat) returns (parts': seq<Pred>, params': seq<Value>)
    requires SeqHoles(parts) == |params|
    ensures SeqHoles(parts') == |params'|
    ensures forall id: nat, r: EventRow, tags: seq<TagRow> ::
              EvalAll(parts', OfEvent(id, r), tags, params', 0) == True
              <==> EvalAll(parts, OfEvent(id, r), tags, params, 0) == True && Unexpired(r, now)
  {
    forall id: nat, r: EventRow, tags: seq<TagRow>
      ensures Holes(ALIVE) == 1
      ensures Eval(ALIVE, OfEvent(id, r), tags, [Int(now)], 0) == True <==> Unexpired(r, now)
    {
      AliveMeans(now, id, r, tags);
    }
    AppendAll(parts, params, ALIVE, [Int(now)]);
    parts', params' := parts + [ALIVE], params + [Int(now)];
  }

  /** `query_from_filter`: the compiled query selects exactly the rows the filter asks for. */
  method QueryFromFilter(f: ReqFilter, now: nat) returns (q: Query, params: seq<Value>)
    ensures Compiled(f, now, q, params)
  {
    if f.forceNoMatch {
      return Query(Never, Unordered, None), [];
    }
    var visible := Compare(Hidden, Ne, Literal(1));
    AppendAll([], [], visible, []);
    var parts: seq<Pred> := [] + [visible];
    params := [] + [];
    parts, params := AppendBytes(parts, params, Author, f.authors);
    if f.kinds.Some? {
      parts, params := AppendKinds(parts, params, f.kinds.value);
    }
    parts, params := AppendBytes(parts, params, EventHash, f.ids);
    parts, params := AppendTags(parts, params, f);
    parts, params := AppendTimes(parts, params, f);
    parts, params := AppendAlive(parts, params, now);
    q := Query(AllOf(parts), if f.limit.Some? then NewestFirst else OldestFirst, f.limit);
  }
}
