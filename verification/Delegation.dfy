/** NIP-26 delegation conditions (src/delegation.rs): their text form, its parser, and what they allow. */
module Delegation {
  import opened Common
  import opened Events
  import Decimal

  datatype Field = Kind | CreatedAt

  datatype Operator = LessThan | GreaterThan | Equals | NotEquals

  datatype Condition = Condition(field: Field, operator: Operator, values: seq<nat>)

  // ---------------------------------------------------------------------------------------
  // Meaning
  // ---------------------------------------------------------------------------------------

  /** `Condition::allows_event`: order comparisons need exactly one value. */
  predicate ConditionAllows(c: Condition, e: Event) {
    var x := if c.field.Kind? then e.kind else e.createdAt;
    match c.operator
    case LessThan => |c.values| == 1 && x < c.values[0]
    case GreaterThan => |c.values| == 1 && x > c.values[0]
    case Equals => x in c.values
    case NotEquals => x !in c.values
  }

  /** `ConditionQuery::allows_event`: every condition must allow the event. */
  predicate Allows(cs: seq<Condition>, e: Event) {
    forall i :: 0 <= i < |cs| ==> ConditionAllows(cs[i], e)
  }

  // ---------------------------------------------------------------------------------------
  // Splitting
  // ---------------------------------------------------------------------------------------

  /** The pieces between separators; there is always one. */
  function Split(s: string, sep: char): (pieces: seq<string>)
    ensures pieces != []
  {
    if s == "" then [""]
    else if s[0] == sep then [""] + Split(s[1..], sep)
    else Prepend(s[0], Split(s[1..], sep))
  }

  function Last(pieces: seq<string>): string
    requires pieces != []
  {
    pieces[|pieces| - 1]
  }

  /** Without the last piece if it is empty. */
  function Terminated(pieces: seq<string>): seq<string>
    requires pieces != []
  {
    if Last(pieces) == "" then pieces[..|pieces| - 1] else pieces
  }

  /** `split_terminator`. */
  function SplitTerminator(s: string, sep: char): seq<string> {
    Terminated(Split(s, sep))
  }

  // ---------------------------------------------------------------------------------------
  // Parsing
  // ---------------------------------------------------------------------------------------

  predicate IsWord(c: char) {
    '0' <= c <= '9' || 'a' <= c <= 'z' || 'A' <= c <= 'Z' || c == '_'
  }

  predicate IsOperatorChar(c: char) {
    c == '<' || c == '>' || c == '=' || c == '!'
  }

  predicate IsValueChar(c: char) {
    c == ',' || Decimal.IsDigit(c)
  }

  /** Length of the longest prefix of characters of the class. */
  function Run(s: string, member: char -> bool): (n: nat)
    ensures n <= |s|
  {
    if s == "" || !member(s[0]) then 0 else 1 + Run(s[1..], member)
  }

  datatype Captures = Captures(field: string, operator: string, values: string)

  /**
   * The leftmost, greedy match of `([[:word:]]+)([<>=!]+)([,[[:digit:]]]*)`. The classes are
   * disjoint, so a match starts at the first position whose run of word characters is followed
   * by an operator character.
   */
  function Search(s: string): Option<Captures> {
    if s == "" then None
    else
      var w := Run(s, IsWord);
      if 0 < w < |s| && IsOperatorChar(s[w]) then Some(CapturesAt(s[..w], s[w..])) else Search(s[1..])
  }

  /** The groups of a match whose field is followed by `rest`. */
  function CapturesAt(field: string, rest: string): Captures {
    var o := Run(rest, IsOperatorChar);
    Captures(field, rest[..o], rest[o..][..Run(rest[o..], IsValueChar)])
  }

  function ParseField(s: string): Option<Field> {
    if s == "kind" then Some(Kind) else if s == "created_at" then Some(CreatedAt) else None
  }

  function ParseOperator(s: string): Option<Operator> {
    if s == "<" then Some(LessThan)
    else if s == ">" then Some(GreaterThan)
    else if s == "=" then Some(Equals)
    else if s == "!" then Some(NotEquals)
    else None
  }

  /** All pieces parsed, or nothing if any of them fails. */
  function Collect<T>(pieces: seq<string>, parse: string -> Option<T>): Option<seq<T>> {
    if pieces == [] then Some([])
    else
      match (Collect(pieces[..|pieces| - 1], parse), parse(Last(pieces)))
      case (Some(xs), Some(x)) => Some(xs + [x])
      case _ => None
  }

  /** The condition that the groups of a match denote. */
  function FromCaptures(caps: Captures): Option<Condition> {
    match (ParseField(caps.field), ParseOperator(caps.operator), Collect(SplitTerminator(caps.values, ','), Decimal.ParseU64))
    case (Some(f), Some(o), Some(vs)) => Some(Condition(f, o, vs))
    case _ => None
  }

  /** `str_to_condition`. */
  function ParseCondition(s: string): Option<Condition> {
    match Search(s)
    case None => None
    case Some(caps) => FromCaptures(caps)
  }

  /** The conditions a text denotes, if it denotes any. */
  function Parse(s: string): Option<seq<Condition>> {
    Collect(SplitTerminator(s, '&'), ParseCondition)
  }

  lemma {:induction false} PrefixFails<T>(pieces: seq<string>, parse: string -> Option<T>, i: nat)
    requires i <= |pieces| && Collect(pieces[..i], parse).None?
    ensures Collect(pieces, parse).None?
    decreases |pieces| - i
  {
    if i < |pieces| {
      assert pieces[..i + 1][..i] == pieces[..i];
      PrefixFails(pieces, parse, i + 1);
    } else {
      assert pieces[..i] == pieces;
    }
  }

  /** `ConditionQuery::from_str`: stops at the first piece that is not a condition. */
  method FromStr(s: string) returns (r: Option<seq<Condition>>)
    ensures r == Parse(s)
  {
    var pieces := SplitTerminator(s, '&');
    var conditions: seq<Condition> := [];
    for i := 0 to |pieces|
      invariant Collect(pieces[..i], ParseCondition) == Some(conditions)
    {
      assert pieces[..i + 1][..i] == pieces[..i];
      var c := ParseCondition(pieces[i]);
      if c.None? {
        PrefixFails(pieces, ParseCondition, i + 1);
        return None;
      }
      conditions := conditions + [c.value];
    }
    assert pieces[..|pieces|] == pieces;
    return Some(conditions);
  }

  // ---------------------------------------------------------------------------------------
  // Canonical text
  // ---------------------------------------------------------------------------------------

  function FieldText(f: Field): string {
    if f.Kind? then "kind" else "created_at"
  }

  function OperatorChar(o: Operator): char {
    match o
    case LessThan => '<'
    case GreaterThan => '>'
    case Equals => '='
    case NotEquals => '!'
  }

  function ValueTexts(values: seq<nat>): (texts: seq<string>)
    ensures |texts| == |values|
    ensures forall i :: 0 <= i < |texts| ==> texts[i] == Decimal.Print(values[i])
  {
    seq(|values|, i requires 0 <= i < |values| => Decimal.Print(values[i]))
  }

  function ConditionText(c: Condition): string {
    FieldText(c.field) + [OperatorChar(c.operator)] + Join(ValueTexts(c.values), ',')
  }

  function ConditionTexts(cs: seq<Condition>): (texts: seq<string>)
    ensures |texts| == |cs|
    ensures forall i :: 0 <= i < |texts| ==> texts[i] == ConditionText(cs[i])
  {
    seq(|cs|, i requires 0 <= i < |cs| => ConditionText(cs[i]))
  }

  /** The text of a condition list: conditions joined by `&`. */
  function Text(cs: seq<Condition>): string {
    Join(ConditionTexts(cs), '&')
  }

  predicate U64Values(c: Condition) {
    forall i :: 0 <= i < |c.values| ==> c.values[i] < TWO_POW_64
  }

  // ---------------------------------------------------------------------------------------
  // Splitting undoes joining
  // ---------------------------------------------------------------------------------------

  predicate Without(s: string, sep: char) {
    forall i :: 0 <= i < |s| ==> s[i] != sep
  }

  /** Putting one more character before a nonempty list of pieces. */
  function Prepend(c: char, pieces: seq<string>): seq<string>
    requires pieces != []
  {
    [[c] + pieces[0]] + pieces[1..]
  }

  lemma PrependAppend(c: char, p: seq<string>, q: seq<string>)
    requires p != []
    ensures Prepend(c, p + q) == Prepend(c, p) + q
  {
  }

  lemma JoinedTail(a: string, sep: char, b: string)
    ensures a == "" ==> (a + [sep] + b)[0] == sep && (a + [sep] + b)[1..] == b
    ensures a != "" ==> (a + [sep] + b)[0] == a[0] && (a + [sep] + b)[1..] == a[1..] + [sep] + b
  {
  }

  /** Splitting around one separator. */
  lemma {:induction false} SplitAround(a: string, sep: char, b: string)
    ensures Split(a + [sep] + b, sep) == Split(a, sep) + Split(b, sep)
  {
    JoinedTail(a, sep, b);
    if a != "" {
      SplitAround(a[1..], sep, b);
      PrependAppend(a[0], Split(a[1..], sep), Split(b, sep));
    }
  }

  lemma {:induction false} SplitWithout(s: string, sep: char)
    requires Without(s, sep)
    ensures Split(s, sep) == [s]
  {
    if s != "" {
      SplitWithout(s[1..], sep);
      assert [s[0]] + s[1..] == s;
    }
  }

  lemma {:induction false} SplitJoin(pieces: seq<string>, sep: char)
    requires pieces != [] && forall i :: 0 <= i < |pieces| ==> Without(pieces[i], sep)
    ensures Split(Join(pieces, sep), sep) == pieces
  {
    SplitWithout(pieces[0], sep);
    if |pieces| == 1 {
      assert pieces == [pieces[0]];
    } else {
      SplitJoin(pieces[1..], sep);
      SplitAround(pieces[0], sep, Join(pieces[1..], sep));
      assert pieces == [pieces[0]] + pieces[1..];
    }
  }

  /** Nonempty pieces without separators come back, also when there are none. */
  lemma SplitTerminatorJoin(pieces: seq<string>, sep: char)
    requires forall i :: 0 <= i < |pieces| ==> pieces[i] != "" && Without(pieces[i], sep)
    ensures SplitTerminator(Join(pieces, sep), sep) == pieces
  {
    if pieces != [] {
      SplitJoin(pieces, sep);
    }
  }

  // ---------------------------------------------------------------------------------------
  // Parsing undoes printing
  // ---------------------------------------------------------------------------------------

  lemma {:induction false} RunOf(a: string, b: string, member: char -> bool)
    requires (forall i :: 0 <= i < |a| ==> member(a[i])) && (b != "" ==> !member(b[0]))
    ensures Run(a + b, member) == |a|
  {
    if a == "" {
      assert a + b == b;
    } else {
      RunOf(a[1..], b, member);
      assert (a + b)[1..] == a[1..] + b;
    }
  }

  lemma SearchField(field: string, rest: string)
    requires field != "" && (forall i :: 0 <= i < |field| ==> IsWord(field[i]))
    requires rest != "" && IsOperatorChar(rest[0])
    ensures Search(field + rest) == Some(CapturesAt(field, rest))
  {
    RunOf(field, rest, IsWord);
    assert (field + rest)[..|field|] == field && (field + rest)[|field|..] == rest;
  }

  lemma CapturesText(field: string, op: char, values: string)
    requires IsOperatorChar(op) && forall i :: 0 <= i < |values| ==> IsValueChar(values[i])
    ensures CapturesAt(field, [op] + values) == Captures(field, [op], values)
  {
    RunOf([op], values, IsOperatorChar);
    assert ([op] + values)[..1] == [op] && ([op] + values)[1..] == values;
    RunOf(values, "", IsValueChar);
    assert values + "" == values;
  }

  lemma {:induction false} JoinedValues(texts: seq<string>)
    requires forall i :: 0 <= i < |texts| ==> Decimal.AllDigits(texts[i])
    ensures forall i :: 0 <= i < |Join(texts, ',')| ==> IsValueChar(Join(texts, ',')[i])
  {
    if |texts| > 1 {
      JoinedValues(texts[1..]);
    }
  }

  /** Pieces that parse to the given values are collected to them. */
  lemma {:induction false} CollectAll<T>(pieces: seq<string>, parse: string -> Option<T>, xs: seq<T>)
    requires |pieces| == |xs| && forall i :: 0 <= i < |xs| ==> parse(pieces[i]) == Some(xs[i])
    ensures Collect(pieces, parse) == Some(xs)
  {
    if xs != [] {
      var n := |xs| - 1;
      CollectAll(pieces[..n], parse, xs[..n]);
      assert xs == xs[..n] + [xs[n]];
    }
  }

  lemma ParsePrintedValues(values: seq<nat>)
    requires forall i :: 0 <= i < |values| ==> values[i] < TWO_POW_64
    ensures Collect(ValueTexts(values), Decimal.ParseU64) == Some(values)
  {
    forall i | 0 <= i < |values|
      ensures Decimal.ParseU64(ValueTexts(values)[i]) == Some(values[i])
    {
      Decimal.ParsePrint(values[i]);
    }
    CollectAll(ValueTexts(values), Decimal.ParseU64, values);
  }

  lemma SearchConditionText(c: Condition)
    ensures Search(ConditionText(c))
            == Some(Captures(FieldText(c.field), [OperatorChar(c.operator)], Join(ValueTexts(c.values), ',')))
  {
    JoinedValues(ValueTexts(c.values));
    FieldIsWord(c.field);
    var op, values := OperatorChar(c.operator), Join(ValueTexts(c.values), ',');
    SearchField(FieldText(c.field), [op] + values);
    CapturesText(FieldText(c.field), op, values);
    Regroup(FieldText(c.field), op, values);
  }

  lemma Regroup(p: string, c: char, q: string)
    ensures p + [c] + q == p + ([c] + q)
  {
  }

  lemma FieldIsWord(f: Field)
    ensures FieldText(f) != "" && forall i :: 0 <= i < |FieldText(f)| ==> IsWord(FieldText(f)[i])
  {
  }

  lemma FieldParses(f: Field)
    ensures ParseField(FieldText(f)) == Some(f)
  {
  }

  lemma CapturesParse(c: Condition)
    requires U64Values(c)
    ensures FromCaptures(Captures(FieldText(c.field), [OperatorChar(c.operator)], Join(ValueTexts(c.values), ','))) == Some(c)
  {
    FieldParses(c.field);
    OperatorParses(c.operator);
    SplitTerminatorJoin(ValueTexts(c.values), ',');
    ParsePrintedValues(c.values);
  }

  /** Parsing the text of one condition gives it back, an empty value list included. */
  lemma ParseConditionText(c: Condition)
    requires U64Values(c)
    ensures ParseCondition(ConditionText(c)) == Some(c)
  {
    SearchConditionText(c);
    CapturesParse(c);
  }

  lemma OperatorParses(o: Operator)
    ensures ParseOperator([OperatorChar(o)]) == Some(o)
  {
  }

  lemma ParseTexts(cs: seq<Condition>)
    requires forall i :: 0 <= i < |cs| ==> U64Values(cs[i])
    ensures Collect(ConditionTexts(cs), ParseCondition) == Some(cs)
  {
    forall i | 0 <= i < |cs|
      ensures ParseCondition(ConditionTexts(cs)[i]) == Some(cs[i])
    {
      ParseConditionText(cs[i]);
    }
    CollectAll(ConditionTexts(cs), ParseCondition, cs);
  }

  lemma ConditionTextWithout(c: Condition)
    ensures ConditionText(c) != "" && Without(ConditionText(c), '&')
  {
    JoinedValues(ValueTexts(c.values));
  }

  /** Parsing the text of any condition list of u64 values gives the list back. */
  lemma ParseText(cs: seq<Condition>)
    requires forall i :: 0 <= i < |cs| ==> U64Values(cs[i])
    ensures Parse(Text(cs)) == Some(cs)
  {
    forall i | 0 <= i < |cs|
      ensures ConditionTexts(cs)[i] != "" && Without(ConditionTexts(cs)[i], '&')
    {
      ConditionTextWithout(cs[i]);
    }
    SplitTerminatorJoin(ConditionTexts(cs), '&');
    ParseTexts(cs);
  }

  // ---------------------------------------------------------------------------------------
  // Joining two texts
  // ---------------------------------------------------------------------------------------

  lemma {:induction false} CollectAppend<T>(p: seq<string>, q: seq<string>, parse: string -> Option<T>)
    ensures match (Collect(p, parse), Collect(q, parse))
            case (Some(x), Some(y)) => Collect(p + q, parse) == Some(x + y)
            case _ => Collect(p + q, parse).None?
    decreases |q|
  {
    if q == [] {
      assert p + q == p;
      if Collect(p, parse).Some? {
        assert Collect(p, parse).value + [] == Collect(p, parse).value;
      }
    } else {
      var n := |q| - 1;
      CollectAppend(p, q[..n], parse);
      assert (p + q)[..|p + q| - 1] == p + q[..n];
      assert Last(p + q) == Last(q);
      if Collect(p, parse).Some? && Collect(q, parse).Some? {
        var x, ys := Collect(p, parse).value, Collect(q[..n], parse).value;
        assert x + (ys + [parse(Last(q)).value]) == (x + ys) + [parse(Last(q)).value];
      }
    }
  }

  /** The last piece is empty exactly for the empty text and after a separator. */
  lemma {:induction false} LastPiece(s: string, sep: char)
    ensures Last(Split(s, sep)) == "" <==> s == "" || s[|s| - 1] == sep
  {
    if s != "" {
      LastPiece(s[1..], sep);
      if |s| > 1 {
        assert s[1..][|s| - 2] == s[|s| - 1];
      }
    }
  }

  /** A text that another can be joined to: not empty, and not ended by a separator. */
  predicate Joinable(s: string) {
    s != "" && s[|s| - 1] != '&'
  }

  lemma TerminatedAppend(p: seq<string>, q: seq<string>)
    requires q != []
    ensures Terminated(p + q) == p + Terminated(q)
  {
    assert Last(p + q) == Last(q);
    assert (p + q)[..|p + q| - 1] == p + q[..|q| - 1];
  }

  lemma TerminatedRest(p: seq<string>)
    requires p != []
    ensures p == Terminated(p) + (if Last(p) != "" then [] else [""])
  {
    assert p == p[..|p| - 1] + [Last(p)];
  }

  lemma JoinedPieces(a: string, b: string)
    ensures SplitTerminator(a + ['&'] + b, '&')
            == SplitTerminator(a, '&') + (if Joinable(a) then [] else [""]) + SplitTerminator(b, '&')
  {
    SplitAround(a, '&', b);
    LastPiece(a, '&');
    TerminatedAppend(Split(a, '&'), Split(b, '&'));
    TerminatedRest(Split(a, '&'));
  }

  /**
   * Joining two condition texts with `&` parses to the concatenation exactly when the first is
   * neither empty nor ended by `&`; otherwise the empty piece in between is an error.
   */
  lemma JoinedTexts(a: string, b: string)
    requires Parse(a).Some? && Parse(b).Some?
    ensures Parse(a + ['&'] + b) == if Joinable(a) then Some(Parse(a).value + Parse(b).value) else None
  {
    JoinedPieces(a, b);
    assert ParseCondition("").None?;
    CollectJoined(SplitTerminator(a, '&'), SplitTerminator(b, '&'), ParseCondition, Joinable(a));
  }

  lemma CollectJoined<T>(p: seq<string>, q: seq<string>, parse: string -> Option<T>, joinable: bool)
    requires Collect(p, parse).Some? && Collect(q, parse).Some? && parse("").None?
    ensures Collect(p + (if joinable then [] else [""]) + q, parse)
            == if joinable then Some(Collect(p, parse).value + Collect(q, parse).value) else None
  {
    if joinable {
      assert p + [] == p;
      CollectAppend(p, q, parse);
    } else {
      assert (p + [""])[..|p|] == p;
      CollectAppend(p + [""], q, parse);
    }
  }

  /** The concatenation allows an event exactly when both parts do. */
  lemma AllowsBoth(a: seq<Condition>, b: seq<Condition>, e: Event)
    ensures Allows(a + b, e) <==> Allows(a, e) && Allows(b, e)
  {
    var all := a + b;
    if Allows(all, e) {
      forall i | 0 <= i < |b|
        ensures ConditionAllows(b[i], e)
      {
        assert all[|a| + i] == b[i];
      }
      forall i | 0 <= i < |a|
        ensures ConditionAllows(a[i], e)
      {
        assert all[i] == a[i];
      }
    }
  }

  /** The text denotes conditions, and they allow the event. */
  predicate TextAllows(text: string, e: Event) {
    Parse(text).Some? && Allows(Parse(text).value, e)
  }

  lemma OneConditionText(field: Field, op: Operator, text: string, values: seq<nat>, e: Event)
    requires text == FieldText(field) + [OperatorChar(op)]
    requires forall i :: 0 <= i < |values| ==> values[i] < TWO_POW_64
    ensures Parse(text + Join(ValueTexts(values), ',')) == Some([Condition(field, op, values)])
    ensures TextAllows(text + Join(ValueTexts(values), ','), e) <==> ConditionAllows(Condition(field, op, values), e)
  {
    var c := Condition(field, op, values);
    ParseText([c]);
    assert ConditionTexts([c]) == [ConditionText(c)];
    assert [c][0] == c;
  }

  /**
   * What the texts of single conditions allow, letter by letter: a list after `=` allows exactly
   * the listed numbers, after `!` exactly the others; `<` and `>` allow the numbers strictly below
   * and above, if there is exactly one value, and otherwise nothing.
   */
  lemma KindTexts(values: seq<nat>, e: Event)
    requires forall i :: 0 <= i < |values| ==> values[i] < TWO_POW_64
    ensures TextAllows("kind=" + Join(ValueTexts(values), ','), e) <==> e.kind in values
    ensures TextAllows("kind!" + Join(ValueTexts(values), ','), e) <==> e.kind !in values
    ensures TextAllows("kind<" + Join(ValueTexts(values), ','), e) <==> |values| == 1 && e.kind < values[0]
    ensures TextAllows("kind>" + Join(ValueTexts(values), ','), e) <==> |values| == 1 && values[0] < e.kind
  {
    OneConditionText(Kind, Equals, "kind=", values, e);
    OneConditionText(Kind, NotEquals, "kind!", values, e);
    OneConditionText(Kind, LessThan, "kind<", values, e);
    OneConditionText(Kind, GreaterThan, "kind>", values, e);
  }

  /** The same for the creation time. */
  lemma CreatedAtTexts(values: seq<nat>, e: Event)
    requires forall i :: 0 <= i < |values| ==> values[i] < TWO_POW_64
    ensures TextAllows("created_at=" + Join(ValueTexts(values), ','), e) <==> e.createdAt in values
    ensures TextAllows("created_at!" + Join(ValueTexts(values), ','), e) <==> e.createdAt !in values
    ensures TextAllows("created_at<" + Join(ValueTexts(values), ','), e) <==> |values| == 1 && e.createdAt < values[0]
    ensures TextAllows("created_at>" + Join(ValueTexts(values), ','), e) <==> |values| == 1 && values[0] < e.createdAt
  {
    OneConditionText(CreatedAt, Equals, "created_at=", values, e);
    OneConditionText(CreatedAt, NotEquals, "created_at!", values, e);
    OneConditionText(CreatedAt, LessThan, "created_at<", values, e);
    OneConditionText(CreatedAt, GreaterThan, "created_at>", values, e);
  }

  /** Characters that are no word characters are read over. */
  lemma {:induction false} SearchSkips(text: string, k: nat)
    requires k <= |text| && forall i :: 0 <= i < k ==> !IsWord(text[i])
    ensures Search(text) == Search(text[k..])
  {
    if k > 0 {
      assert !IsWord(text[0]);
      forall i | 0 <= i < k - 1
        ensures !IsWord(text[1..][i])
      {
        assert text[1..][i] == text[i + 1];
      }
      SearchSkips(text[1..], k - 1);
      assert text[1..][k - 1..] == text[k..];
    } else {
      assert text[0..] == text;
    }
  }

  lemma CapturesBefore(field: string, op: char, values: string, tail: string)
    requires IsOperatorChar(op) && (forall i :: 0 <= i < |values| ==> IsValueChar(values[i]))
    requires tail != "" ==> !IsValueChar(tail[0]) && !IsOperatorChar(tail[0])
    ensures CapturesAt(field, [op] + (values + tail)) == Captures(field, [op], values)
  {
    RunOf([op], values + tail, IsOperatorChar);
    assert ([op] + (values + tail))[..1] == [op] && ([op] + (values + tail))[1..] == values + tail;
    RunOf(values, tail, IsValueChar);
    assert (values + tail)[..|values|] == values;
  }

  lemma SearchInside(field: string, op: char, values: string, tail: string)
    requires field != "" && (forall i :: 0 <= i < |field| ==> IsWord(field[i])) && IsOperatorChar(op)
    requires forall i :: 0 <= i < |values| ==> IsValueChar(values[i])
    requires tail != "" ==> !IsValueChar(tail[0]) && !IsOperatorChar(tail[0])
    ensures Search(field + ([op] + (values + tail))) == Some(Captures(field, [op], values))
  {
    SearchField(field, [op] + (values + tail));
    CapturesBefore(field, op, values, tail);
  }

  lemma WithTail(field: string, op: char, values: string, tail: string)
    ensures (field + [op] + values) + tail == field + ([op] + (values + tail))
  {
  }

  lemma SearchConditionInside(c: Condition, tail: string)
    requires tail != "" ==> !IsValueChar(tail[0]) && !IsOperatorChar(tail[0])
    ensures Search(ConditionText(c) + tail)
            == Some(Captures(FieldText(c.field), [OperatorChar(c.operator)], Join(ValueTexts(c.values), ',')))
  {
    JoinedValues(ValueTexts(c.values));
    FieldIsWord(c.field);
    SearchInside(FieldText(c.field), OperatorChar(c.operator), Join(ValueTexts(c.values), ','), tail);
    WithTail(FieldText(c.field), OperatorChar(c.operator), Join(ValueTexts(c.values), ','), tail);
  }

  /** The match need not be the whole text: what stands around a condition is read over. */
  lemma ConditionInside(junk: string, c: Condition, tail: string)
    requires U64Values(c) && forall i :: 0 <= i < |junk| ==> !IsWord(junk[i])
    requires tail != "" ==> !IsValueChar(tail[0]) && !IsOperatorChar(tail[0])
    ensures ParseCondition(junk + (ConditionText(c) + tail)) == Some(c)
  {
    var text := junk + (ConditionText(c) + tail);
    SearchConditionInside(c, tail);
    SearchSkips(text, |junk|);
    assert text[|junk|..] == ConditionText(c) + tail;
    CapturesParse(c);
  }

  lemma UnknownField(w: char, f: Field)
    ensures ParseField([w] + FieldText(f)) == None
  {
    var field := [w] + FieldText(f);
    assert |"kind"| == 4 && |"created_at"| == 10 && (|field| == 5 || |field| == 11);
  }

  lemma WordBeforeText(w: char, c: Condition)
    ensures [w] + ConditionText(c) == ([w] + FieldText(c.field)) + ([OperatorChar(c.operator)] + (Join(ValueTexts(c.values), ',') + ""))
  {
  }

  /** A letter of either case, a digit or an underscore right before the field belongs to it, which is then unknown. */
  lemma WordBefore(w: char, c: Condition)
    requires 'a' <= w <= 'z' || 'A' <= w <= 'Z' || '0' <= w <= '9' || w == '_'
    ensures ParseCondition([w] + ConditionText(c)) == None
  {
    JoinedValues(ValueTexts(c.values));
    FieldIsWord(c.field);
    WordBeforeText(w, c);
    SearchInside([w] + FieldText(c.field), OperatorChar(c.operator), Join(ValueTexts(c.values), ','), "");
    UnknownField(w, c.field);
  }

  /** Two operators in a row are one unknown operator. */
  lemma TwoOperators(field: Field, op: char, op': char, values: string)
    requires op in "<>=!" && op' in "<>=!"
    requires forall i :: 0 <= i < |values| ==> values[i] == ',' || '0' <= values[i] <= '9'
    ensures ParseCondition(FieldText(field) + ([op, op'] + values)) == None
  {
    FieldIsWord(field);
    SearchField(FieldText(field), [op, op'] + values);
    RunOf([op, op'], values, IsOperatorChar);
    assert ([op, op'] + values)[..2] == [op, op'];
  }

  /** Two texts joined allow what both allow. */
  lemma TextAnd(a: string, b: string, e: Event)
    requires Parse(a).Some? && Parse(b).Some? && Joinable(a)
    ensures Parse(a + ['&'] + b).Some?
    ensures TextAllows(a + ['&'] + b, e) <==> TextAllows(a, e) && TextAllows(b, e)
  {
    JoinedTexts(a, b);
    AllowsBoth(Parse(a).value, Parse(b).value, e);
  }

  lemma SingleText(field: Field, op: Operator, n: nat, e: Event)
    requires n < TWO_POW_64
    ensures var text := FieldText(field) + [OperatorChar(op)] + Decimal.Print(n);
            && Parse(text).Some? && Joinable(text)
            && (TextAllows(text, e) <==> ConditionAllows(Condition(field, op, [n]), e))
  {
    assert ValueTexts([n]) == [Decimal.Print(n)];
    OneConditionText(field, op, FieldText(field) + [OperatorChar(op)], [n], e);
    var text := FieldText(field) + [OperatorChar(op)] + Decimal.Print(n);
    assert text[|text| - 1] == Decimal.Print(n)[|Decimal.Print(n)| - 1];
  }

  lemma ThreeAnd(a: string, b: string, c: string, e: Event)
    requires Parse(a).Some? && Parse(b).Some? && Parse(c).Some? && Joinable(a) && Joinable(b)
    ensures TextAllows(a + ['&'] + (b + ['&'] + c), e) <==> TextAllows(a, e) && TextAllows(b, e) && TextAllows(c, e)
  {
    TextAnd(b, c, e);
    TextAnd(a, b + ['&'] + c, e);
  }

  lemma KindIs(kind: nat, e: Event)
    requires kind < TWO_POW_64
    ensures var text := "kind=" + Decimal.Print(kind);
            Parse(text).Some? && Joinable(text) && (TextAllows(text, e) <==> e.kind == kind)
  {
    SingleText(Kind, Equals, kind, e);
    assert "kind=" == "kind" + ['='];
  }

  lemma MadeAfter(lo: nat, e: Event)
    requires lo < TWO_POW_64
    ensures var text := "created_at>" + Decimal.Print(lo);
            Parse(text).Some? && Joinable(text) && (TextAllows(text, e) <==> lo < e.createdAt)
  {
    SingleText(CreatedAt, GreaterThan, lo, e);
    assert "created_at>" == "created_at" + ['>'];
  }

  lemma MadeBefore(hi: nat, e: Event)
    requires hi < TWO_POW_64
    ensures var text := "created_at<" + Decimal.Print(hi);
            Parse(text).Some? && Joinable(text) && (TextAllows(text, e) <==> e.createdAt < hi)
  {
    SingleText(CreatedAt, LessThan, hi, e);
    assert "created_at<" == "created_at" + ['<'];
  }

  /** A delegation for one kind, strictly between two times. */
  lemma DelegatedFor(kind: nat, lo: nat, hi: nat, e: Event)
    requires kind < TWO_POW_64 && lo < TWO_POW_64 && hi < TWO_POW_64
    ensures TextAllows("kind=" + Decimal.Print(kind) + ['&'] + ("created_at>" + Decimal.Print(lo) + ['&'] + ("created_at<" + Decimal.Print(hi))), e)
            <==> e.kind == kind && lo < e.createdAt < hi
  {
    KindIs(kind, e);
    MadeAfter(lo, e);
    MadeBefore(hi, e);
    ThreeAnd("kind=" + Decimal.Print(kind), "created_at>" + Decimal.Print(lo), "created_at<" + Decimal.Print(hi), e);
  }
}
