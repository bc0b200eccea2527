/**
 * The fragment of SQL that stored queries use: predicates over one row with positional `?`
 * parameters, three-valued logic, and a subquery over the tag table.
 */
module Sql {
  import opened Common
  import opened EventTables

  datatype Value = Null | Int(n: nat) | Text(s: string) | Blob(b: Bytes)

  datatype Truth = True | False | Unknown

  datatype Column = EventHash | Author | Kind | CreatedAt | ExpiresAt | Hidden | Name | TagValue

  datatype Comparison = Eq | Ne | Ge | Le | Gt

  /** A literal in the query text, or a parameter. */
  datatype Operand = Literal(n: nat) | Placeholder

  datatype Pred =
    | Never                                                    // false, 1=0
    | Compare(col: Column, op: Comparison, rhs: Operand)       // col op rhs
    | OneOf(col: Column, list: seq<Operand>)                   // col IN (...)
    | IsNull(col: Column)                                      // col IS NULL
    | AnyOf(alts: seq<Pred>)                                   // (p OR q OR ...)
    | AllOf(parts: seq<Pred>)                                  // p AND q AND ...
    | IdInTags(cond: Pred)                                     // e.id IN (SELECT t.event_id FROM tag t WHERE ...)

  datatype Order = OldestFirst | NewestFirst | Unordered

  datatype Query = Query(cond: Pred, order: Order, limit: Option<nat>)

  /** The row a predicate is evaluated on. */
  datatype Row = OfEvent(id: nat, event: EventRow) | OfTag(tag: TagRow)

  function ColumnValue(row: Row, col: Column): Value {
    match row
    case OfEvent(_, r) => (
      match col
      case EventHash => Blob(r.hash)
      case Author => Blob(r.author)
      case Kind => Int(r.kind)
      case CreatedAt => Int(r.createdAt)
      case ExpiresAt => if r.expiresAt.Some? then Int(r.expiresAt.value) else Null
      case Hidden => Int(if r.hidden then 1 else 0)
      case _ => Null
    )
    case OfTag(t) => (
      match col
      case Name => Text(t.name)
      case TagValue => Text(t.value)
      case Kind => Int(t.kind)
      case CreatedAt => Int(t.createdAt)
      case _ => Null
    )
  }

  // ---------------------------------------------------------------------------------------
  // Placeholders, numbered from left to right
  // ---------------------------------------------------------------------------------------

  function OperandHoles(o: Operand): nat {
    if o.Placeholder? then 1 else 0
  }

  function ListHoles(list: seq<Operand>): nat {
    if list == [] then 0 else OperandHoles(list[0]) + ListHoles(list[1..])
  }

  function Holes(p: Pred): nat
    decreases p, 0
  {
    match p
    case Never => 0
    case Compare(_, _, rhs) => OperandHoles(rhs)
    case OneOf(_, list) => ListHoles(list)
    case IsNull(_) => 0
    case AnyOf(alts) => SeqHoles(alts)
    case AllOf(parts) => SeqHoles(parts)
    case IdInTags(cond) => Holes(cond)
  }

  function SeqHoles(ps: seq<Pred>): nat
    decreases ps, 1
  {
    if ps == [] then 0 else Holes(ps[0]) + SeqHoles(ps[1..])
  }

  // ---------------------------------------------------------------------------------------
  // Evaluation; `k` is the number of the next parameter
  // ---------------------------------------------------------------------------------------

  function OperandValue(o: Operand, params: seq<Value>, k: nat): Value {
    match o
    case Literal(n) => Int(n)
    case Placeholder => if k < |params| then params[k] else Null
  }

  function CompareValues(v: Value, op: Comparison, w: Value): Truth {
    if v.Null? || w.Null? then Unknown
    else
      var holds :=
        match op
        case Eq => v == w
        case Ne => v != w
        case Ge => v.Int? && w.Int? && v.n >= w.n
        case Le => v.Int? && w.Int? && v.n <= w.n
        case Gt => v.Int? && w.Int? && v.n > w.n;
      if holds then True else False
  }

  function And(a: Truth, b: Truth): Truth {
    if a.False? || b.False? then False else if a.True? && b.True? then True else Unknown
  }

  function Or(a: Truth, b: Truth): Truth {
    if a.True? || b.True? then True else if a.False? && b.False? then False else Unknown
  }

  function InList(v: Value, list: seq<Operand>, params: seq<Value>, k: nat): Truth {
    if list == [] then False
    else Or(CompareValues(v, Eq, OperandValue(list[0], params, k)),
            InList(v, list[1..], params, k + OperandHoles(list[0])))
  }

  function Eval(p: Pred, row: Row, tags: seq<TagRow>, params: seq<Value>, k: nat): Truth
    decreases p, 0
  {
    match p
    case Never => False
    case Compare(col, op, rhs) => CompareValues(ColumnValue(row, col), op, OperandValue(rhs, params, k))
    case OneOf(col, list) => InList(ColumnValue(row, col), list, params, k)
    case IsNull(col) => if ColumnValue(row, col).Null? then True else False
    case AnyOf(alts) => EvalAny(alts, row, tags, params, k)
    case AllOf(parts) => EvalAll(parts, row, tags, params, k)
    case IdInTags(cond) =>
      if row.OfEvent?
         && exists i :: 0 <= i < |tags| && tags[i].eventId == row.id && Eval(cond, OfTag(tags[i]), tags, params, k) == True
      then True else False
  }

  function EvalAny(ps: seq<Pred>, row: Row, tags: seq<TagRow>, params: seq<Value>, k: nat): Truth
    decreases ps, 1
  {
    if ps == [] then False
    else Or(Eval(ps[0], row, tags, params, k), EvalAny(ps[1..], row, tags, params, k + Holes(ps[0])))
  }

  function EvalAll(ps: seq<Pred>, row: Row, tags: seq<TagRow>, params: seq<Value>, k: nat): Truth
    decreases ps, 1
  {
    if ps == [] then True
    else And(Eval(ps[0], row, tags, params, k), EvalAll(ps[1..], row, tags, params, k + Holes(ps[0])))
  }

  // ---------------------------------------------------------------------------------------
  // A predicate sees only its own parameters
  // ---------------------------------------------------------------------------------------

  /** The parameters from `k` on and from `l` on agree for the next `n`. */
  predicate SameParams(a: seq<Value>, k: nat, b: seq<Value>, l: nat, n: nat) {
    k + n <= |a| && l + n <= |b| && a[k..k + n] == b[l..l + n]
  }

  lemma SameParamsSplit(a: seq<Value>, k: nat, b: seq<Value>, l: nat, m: nat, n: nat)
    requires SameParams(a, k, b, l, m + n)
    ensures SameParams(a, k, b, l, m) && SameParams(a, k + m, b, l + m, n)
  {
    var x, y := a[k..k + m + n], b[l..l + m + n];
    assert a[k..k + m] == x[..m] && b[l..l + m] == y[..m];
    assert a[k + m..k + m + n] == x[m..] && b[l + m..l + m + n] == y[m..];
  }

  lemma {:induction false} InListLocal(v: Value, list: seq<Operand>, a: seq<Value>, k: nat, b: seq<Value>, l: nat)
    requires SameParams(a, k, b, l, ListHoles(list))
    ensures InList(v, list, a, k) == InList(v, list, b, l)
  {
    if list != [] {
      SameParamsSplit(a, k, b, l, OperandHoles(list[0]), ListHoles(list[1..]));
      InListLocal(v, list[1..], a, k + OperandHoles(list[0]), b, l + OperandHoles(list[0]));
      if list[0].Placeholder? {
        assert a[k..k + 1][0] == b[l..l + 1][0];
      }
    }
  }

  lemma {:induction false} EvalLocal(p: Pred, row: Row, tags: seq<TagRow>, a: seq<Value>, k: nat, b: seq<Value>, l: nat)
    requires SameParams(a, k, b, l, Holes(p))
    ensures Eval(p, row, tags, a, k) == Eval(p, row, tags, b, l)
    decreases p, 0
  {
    match p
    case Never =>
    case IsNull(_) =>
    case Compare(_, _, rhs) =>
      if rhs.Placeholder? { assert a[k..k + 1][0] == b[l..l + 1][0]; }
    case OneOf(col, list) => InListLocal(ColumnValue(row, col), list, a, k, b, l);
    case AnyOf(alts) => EvalSeqLocal(alts, row, tags, a, k, b, l);
    case AllOf(parts) => EvalSeqLocal(parts, row, tags, a, k, b, l);
    case IdInTags(cond) =>
      forall i | 0 <= i < |tags|
        ensures Eval(cond, OfTag(tags[i]), tags, a, k) == Eval(cond, OfTag(tags[i]), tags, b, l)
      {
        EvalLocal(cond, OfTag(tags[i]), tags, a, k, b, l);
      }
  }

  lemma {:induction false} EvalSeqLocal(ps: seq<Pred>, row: Row, tags: seq<TagRow>, a: seq<Value>, k: nat, b: seq<Value>, l: nat)
    requires SameParams(a, k, b, l, SeqHoles(ps))
    ensures EvalAny(ps, row, tags, a, k) == EvalAny(ps, row, tags, b, l)
    ensures EvalAll(ps, row, tags, a, k) == EvalAll(ps, row, tags, b, l)
    decreases ps, 1
  {
    if ps != [] {
      SameParamsSplit(a, k, b, l, Holes(ps[0]), SeqHoles(ps[1..]));
      EvalLocal(ps[0], row, tags, a, k, b, l);
      EvalSeqLocal(ps[1..], row, tags, a, k + Holes(ps[0]), b, l + Holes(ps[0]));
    }
  }

  // ---------------------------------------------------------------------------------------
  // Appending one more condition and its parameters
  // ---------------------------------------------------------------------------------------

  lemma {:induction false} SeqHolesSnoc(ps: seq<Pred>, p: Pred)
    ensures SeqHoles(ps + [p]) == SeqHoles(ps) + Holes(p)
  {
    if ps == [] {
      assert ps + [p] == [p];
      assert [p][1..] == [];
    } else {
      SeqHolesSnoc(ps[1..], p);
      assert (ps + [p])[1..] == ps[1..] + [p];
    }
  }

  lemma {:induction false} EvalSnoc(ps: seq<Pred>, p: Pred, row: Row, tags: seq<TagRow>, params: seq<Value>, k: nat)
    ensures EvalAny(ps + [p], row, tags, params, k)
            == Or(EvalAny(ps, row, tags, params, k), Eval(p, row, tags, params, k + SeqHoles(ps)))
    ensures EvalAll(ps + [p], row, tags, params, k)
            == And(EvalAll(ps, row, tags, params, k), Eval(p, row, tags, params, k + SeqHoles(ps)))
    decreases |ps|
  {
    if ps == [] {
      assert ps + [p] == [p];
      assert [p][1..] == [];
    } else {
      EvalSnoc(ps[1..], p, row, tags, params, k + Holes(ps[0]));
      assert (ps + [p])[1..] == ps[1..] + [p];
      assert (ps + [p])[0] == ps[0];
    }
  }

  /** A condition that comes with its own parameters means the same after any others. */
  lemma AppendCondition(ps: seq<Pred>, params: seq<Value>, p: Pred, own: seq<Value>, row: Row, tags: seq<TagRow>)
    requires SeqHoles(ps) == |params| && Holes(p) == |own|
    ensures SeqHoles(ps + [p]) == |params + own|
    ensures EvalAny(ps + [p], row, tags, params + own, 0)
            == Or(EvalAny(ps, row, tags, params, 0), Eval(p, row, tags, own, 0))
    ensures EvalAll(ps + [p], row, tags, params + own, 0)
            == And(EvalAll(ps, row, tags, params, 0), Eval(p, row, tags, own, 0))
  {
    SeqHolesSnoc(ps, p);
    EvalSnoc(ps, p, row, tags, params + own, 0);
    EvalSeqLocal(ps, row, tags, params + own, 0, params, 0);
    EvalLocal(p, row, tags, params + own, |params|, own, 0);
  }

  // ---------------------------------------------------------------------------------------
  // Answers
  // ---------------------------------------------------------------------------------------

  /** The row satisfies the WHERE clause: the condition is true, not merely unknown. */
  predicate Selected(q: Query, params: seq<Value>, t: Tables, id: nat) {
    id in t.events && Eval(q.cond, OfEvent(id, t.events[id]), t.tags, params, 0) == True
  }

  /**
   * The row ids that the query may return, in order. Ties in the order, and which of the tied
   * rows fall to the limit, are left open as in SQL. A limit that does not fit a signed 64-bit
   * integer is an error, so it has no answers.
   */
  predicate Answers(q: Query, params: seq<Value>, t: Tables, out: seq<nat>) {
    && (q.limit.Some? ==> q.limit.value < TWO_POW_63)
    && (forall i :: 0 <= i < |out| ==> Selected(q, params, t, out[i]))
    && (forall i, j :: 0 <= i < j < |out| ==> out[i] != out[j])
    && (q.order.OldestFirst? ==>
          forall i, j :: 0 <= i < j < |out| ==> t.events[out[i]].createdAt <= t.events[out[j]].createdAt)
    && (q.order.NewestFirst? ==>
          forall i, j :: 0 <= i < j < |out| ==> t.events[out[i]].createdAt >= t.events[out[j]].createdAt)
    && (q.limit.Some? ==> |out| <= q.limit.value)
    && (forall id :: id in t.events && Selected(q, params, t, id) && id !in out ==>
          q.limit.Some? && |out| == q.limit.value
          && forall i :: 0 <= i < |out| ==>
               (q.order.NewestFirst? ==> t.events[id].createdAt <= t.events[out[i]].createdAt)
               && (q.order.OldestFirst? ==> t.events[id].createdAt >= t.events[out[i]].createdAt))
  }

  // ---------------------------------------------------------------------------------------
  // Every query has an answer
  // ---------------------------------------------------------------------------------------

  predicate NoRepeats(out: seq<nat>) {
    forall i, j :: 0 <= i < j < |out| ==> out[i] != out[j]
  }

  predicate NewestToOldest(events: map<nat, EventRow>, out: seq<nat>)
    requires forall i :: 0 <= i < |out| ==> out[i] in events
  {
    forall i, j :: 0 <= i < j < |out| ==> events[out[i]].createdAt >= events[out[j]].createdAt
  }

  lemma {:induction false} SortNewestFirst(events: map<nat, EventRow>, ids: set<nat>) returns (out: seq<nat>)
    requires ids <= events.Keys
    ensures NoRepeats(out) && forall id :: id in out <==> id in ids
    ensures NewestToOldest(events, out)
    decreases |ids|
  {
    if ids == {} {
      out := [];
    } else {
      var at := map id | id in ids :: events[id].createdAt;
      var k := FindNewest(at, ids);
      assert forall j :: j in ids ==> Before(at, k, j);
      var rest := SortNewestFirst(events, ids - {k});
      out := [k] + rest;
      assert forall i :: 0 <= i < |rest| ==> rest[i] in ids - {k};
    }
  }

  function Reversed(s: seq<nat>): (r: seq<nat>)
    ensures |r| == |s| && forall i :: 0 <= i < |s| ==> r[i] == s[|s| - 1 - i]
  {
    seq(|s|, i requires 0 <= i < |s| => s[|s| - 1 - i])
  }

  lemma ReversedMembers(s: seq<nat>, x: nat)
    ensures x in Reversed(s) <==> x in s
  {
    if x in s {
      var i :| 0 <= i < |s| && s[i] == x;
      assert Reversed(s)[|s| - 1 - i] == x;
    }
  }

  /** All the selected rows, in the order of the query. */
  lemma AnswerWithoutLimit(q: Query, params: seq<Value>, t: Tables) returns (out: seq<nat>)
    ensures Answers(q.(limit := None), params, t, out)
  {
    var ids := set id | id in t.events && Selected(q, params, t, id);
    var sorted := SortNewestFirst(t.events, ids);
    out := if q.order.OldestFirst? then Reversed(sorted) else sorted;
    forall id
      ensures id in out <==> id in ids
    {
      ReversedMembers(sorted, id);
    }
    forall i | 0 <= i < |out|
      ensures Selected(q.(limit := None), params, t, out[i])
    {
      assert out[i] in ids;
    }
  }

  /** The first rows of an unlimited answer are an answer with that limit. */
  lemma Truncated(q: Query, params: seq<Value>, t: Tables, all: seq<nat>, n: nat)
    requires Answers(q.(limit := None), params, t, all)
    requires q.limit == Some(n) && n < TWO_POW_63 && n <= |all|
    ensures Answers(q, params, t, all[..n])
  {
    var out := all[..n];
    forall i | 0 <= i < |all|
      ensures Selected(q, params, t, all[i])
    {
      assert Selected(q.(limit := None), params, t, all[i]);
    }
    forall id | id in t.events && Selected(q, params, t, id) && id !in out
      ensures exists j :: n <= j < |all| && all[j] == id
    {
      assert Selected(q.(limit := None), params, t, id);
      assert id in all;
    }
  }

  /** Every query whose limit fits has an answer, so the statements about answers are not empty. */
  lemma AnswerExists(q: Query, params: seq<Value>, t: Tables) returns (out: seq<nat>)
    requires q.limit.Some? ==> q.limit.value < TWO_POW_63
    ensures Answers(q, params, t, out)
  {
    out := AnswerWithoutLimit(q, params, t);
    if q.limit.Some? && q.limit.value <= |out| {
      Truncated(q, params, t, out, q.limit.value);
      out := out[..q.limit.value];
    }
  }
}
