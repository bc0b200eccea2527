/**
 * The canonical serialization that an event id is the hash of (`to_canonical`, src/event.rs), with
 * JSON string escaping as in section 7 of RFC 8259. Equal texts come from equal events.
 */
module Canonical {
  import opened Common
  import opened Events
  import Decimal
  import Hex

  datatype Json = Number(n: nat) | String(s: string) | Array(items: seq<Json>)

  // ---------------------------------------------------------------------------------------
  // Serialization
  // ---------------------------------------------------------------------------------------

  function HexChar(n: nat): char
    requires n < 16
  {
    "0123456789abcdef"[n]
  }

  /** The second character of an escape: a letter of its own, or u followed by four digits. */
  function ShortEscape(c: char): Option<char> {
    if c == '\"' then Some('\"')
    else if c == '\\' then Some('\\')
    else if c as int == 0x08 then Some('b')
    else if c as int == 0x0c then Some('f')
    else if c == '\n' then Some('n')
    else if c == '\r' then Some('r')
    else if c == '\t' then Some('t')
    else None
  }

  /** One character of a JSON string: quotes, backslashes and control characters are escaped. */
  function Escape(c: char): string {
    if ShortEscape(c).Some? then ['\\', ShortEscape(c).value]
    else if c as int < 0x20 then ['\\', 'u', '0', '0', HexChar(c as int / 16), HexChar(c as int % 16)]
    else [c]
  }

  function EscapeAll(s: string): string {
    if s == "" then "" else Escape(s[0]) + EscapeAll(s[1..])
  }

  function Serialize(v: Json): string
    decreases v, 0
  {
    match v
    case Number(n) => Decimal.Print(n)
    case String(s) => ['\"'] + EscapeAll(s) + ['\"']
    case Array(items) => ['['] + SerializeItems(items) + [']']
  }

  function SerializeItems(items: seq<Json>): string
    decreases items, 1
  {
    if items == [] then "" else Serialize(items[0]) + SerializeRest(items[1..])
  }

  /** Every further item, each after a comma. */
  function SerializeRest(items: seq<Json>): string
    decreases items, 1
  {
    if items == [] then "" else [','] + Serialize(items[0]) + SerializeRest(items[1..])
  }

  // ---------------------------------------------------------------------------------------
  // Strings can be read back
  // ---------------------------------------------------------------------------------------

  lemma HexCharInjective(m: nat, n: nat)
    requires m < 16 && n < 16 && HexChar(m) == HexChar(n)
    ensures m == n
  {
  }

  lemma EscapeShape(c: char)
    ensures Escape(c) != "" && Escape(c)[0] != '\"'
    ensures Escape(c)[0] == '\\' <==> |Escape(c)| > 1
  {
  }

  /** An escaped character is recognized whatever follows it. */
  lemma EscapeUnique(c: char, d: char, x: string, y: string)
    requires Escape(c) + x == Escape(d) + y
    ensures c == d && x == y
  {
    var l, r := Escape(c) + x, Escape(d) + y;
    EscapeShape(c);
    EscapeShape(d);
    assert l[0] == Escape(c)[0] && r[0] == Escape(d)[0];
    if |Escape(c)| > 1 {
      assert l[1] == Escape(c)[1] && r[1] == Escape(d)[1];
      if ShortEscape(c).None? {
        assert l[4] == Escape(c)[4] && r[4] == Escape(d)[4] && l[5] == Escape(c)[5] && r[5] == Escape(d)[5];
        HexCharInjective(c as int / 16, d as int / 16);
        HexCharInjective(c as int % 16, d as int % 16);
      }
    }
    assert Escape(c) == Escape(d);
    assert x == l[|Escape(c)|..] && y == r[|Escape(d)|..];
  }

  /** Dropping the same first character. */
  lemma SameAfter(c: char, p: string, q: string)
    requires [c] + p == [c] + q
    ensures p == q
  {
    assert p == ([c] + p)[1..] && q == ([c] + q)[1..];
  }

  /** The closing quote comes first exactly when the string is empty. */
  lemma QuoteFirst(s: string, x: string)
    ensures (EscapeAll(s) + (['\"'] + x))[0] == '\"' <==> s == ""
    ensures s != "" ==> EscapeAll(s) + (['\"'] + x) == Escape(s[0]) + (EscapeAll(s[1..]) + (['\"'] + x))
  {
    if s != "" {
      EscapeShape(s[0]);
      Regroup(Escape(s[0]), EscapeAll(s[1..]), ['\"'] + x);
    }
  }

  lemma Regroup(p: string, q: string, r: string)
    ensures (p + q) + r == p + (q + r)
    ensures p != "" ==> ((p + q) + r)[0] == p[0]
  {
  }

  lemma {:induction false} StringUnique(a: string, b: string, x: string, y: string)
    requires EscapeAll(a) + (['\"'] + x) == EscapeAll(b) + (['\"'] + y)
    ensures a == b && x == y
  {
    QuoteFirst(a, x);
    QuoteFirst(b, y);
    if a != "" {
      EscapeUnique(a[0], b[0], EscapeAll(a[1..]) + (['\"'] + x), EscapeAll(b[1..]) + (['\"'] + y));
      StringUnique(a[1..], b[1..], x, y);
      assert a == [a[0]] + a[1..] && b == [b[0]] + b[1..];
    } else {
      assert EscapeAll(a) + (['\"'] + x) == ['\"'] + x && EscapeAll(b) + (['\"'] + y) == ['\"'] + y;
      SameAfter('\"', x, y);
    }
  }

  // ---------------------------------------------------------------------------------------
  // Values can be read back
  // ---------------------------------------------------------------------------------------

  /** What may follow a value: nothing, or something that is not a digit. */
  predicate Follows(x: string) {
    x != "" ==> !Decimal.IsDigit(x[0])
  }

  function LeadingDigits(text: string): nat {
    if text == "" || !Decimal.IsDigit(text[0]) then 0 else 1 + LeadingDigits(text[1..])
  }

  lemma {:induction false} DigitRun(digits: string, x: string)
    requires Decimal.AllDigits(digits) && Follows(x)
    ensures LeadingDigits(digits + x) == |digits|
  {
    if digits == "" {
      assert digits + x == x;
    } else {
      DigitRun(digits[1..], x);
      assert (digits + x)[1..] == digits[1..] + x;
    }
  }

  lemma NumberUnique(m: nat, n: nat, x: string, y: string)
    requires Follows(x) && Follows(y) && Decimal.Print(m) + x == Decimal.Print(n) + y
    ensures m == n && x == y
  {
    var a, b := Decimal.Print(m), Decimal.Print(n);
    DigitRun(a, x);
    DigitRun(b, y);
    assert a == (a + x)[..|a|] && b == (b + y)[..|b|];
    assert x == (a + x)[|a|..] && y == (b + y)[|b|..];
    Decimal.PrintInjective(m, n);
  }

  /** The first character tells the kind of value, and no value starts like a separator. */
  lemma FirstChar(v: Json)
    ensures Serialize(v) != ""
    ensures v.Number? <==> Decimal.IsDigit(Serialize(v)[0])
    ensures v.String? <==> Serialize(v)[0] == '\"'
    ensures v.Array? <==> Serialize(v)[0] == '['
  {
  }

  /** A value and what follows it, taken apart. */
  lemma Unfolded(v: Json, x: string)
    ensures v.String? ==> Serialize(v) + x == ['\"'] + (EscapeAll(v.s) + (['\"'] + x))
    ensures v.Array? ==> Serialize(v) + x == ['['] + (SerializeItems(v.items) + ([']'] + x))
    ensures (Serialize(v) + x)[0] == Serialize(v)[0]
  {
    FirstChar(v);
  }

  lemma {:induction false} ValueUnique(v: Json, w: Json, x: string, y: string)
    requires Follows(x) && Follows(y) && Serialize(v) + x == Serialize(w) + y
    ensures v == w && x == y
    decreases v, 0
  {
    FirstChar(v);
    FirstChar(w);
    Unfolded(v, x);
    Unfolded(w, y);
    match v
    case Number(n) => NumberUnique(n, w.n, x, y);
    case String(s) =>
      SameAfter('\"', EscapeAll(s) + (['\"'] + x), EscapeAll(w.s) + (['\"'] + y));
      StringUnique(s, w.s, x, y);
    case Array(items) =>
      SameAfter('[', SerializeItems(items) + ([']'] + x), SerializeItems(w.items) + ([']'] + y));
      ItemsUnique(items, w.items, x, y);
  }

  /** Items and the closing bracket, taken apart. */
  lemma ItemsUnfolded(a: seq<Json>, x: string)
    ensures a == [] <==> (SerializeItems(a) + ([']'] + x))[0] == ']'
    ensures a != [] ==> SerializeItems(a) + ([']'] + x) == Serialize(a[0]) + (SerializeRest(a[1..]) + ([']'] + x))
    ensures a == [] ==> SerializeItems(a) + ([']'] + x) == [']'] + x
  {
    if a != [] {
      FirstChar(a[0]);
      Regroup(Serialize(a[0]), SerializeRest(a[1..]), [']'] + x);
    }
  }

  lemma RestStarts(a: seq<Json>, x: string)
    requires a != []
    ensures SerializeRest(a) == [','] + SerializeItems(a)
    ensures SerializeRest(a) + ([']'] + x) == [','] + (SerializeItems(a) + ([']'] + x))
  {
    assert SerializeRest(a) == [','] + SerializeItems(a);
    Regroup([','], SerializeItems(a), [']'] + x);
  }

  lemma RestUnfolded(a: seq<Json>, x: string)
    ensures a == [] <==> (SerializeRest(a) + ([']'] + x))[0] == ']'
    ensures Follows(SerializeRest(a) + ([']'] + x))
    ensures a != [] ==> SerializeRest(a) + ([']'] + x) == [','] + (SerializeItems(a) + ([']'] + x))
    ensures a == [] ==> SerializeRest(a) + ([']'] + x) == [']'] + x
  {
    if a != [] {
      RestStarts(a, x);
    } else {
      assert SerializeRest(a) + ([']'] + x) == [']'] + x;
    }
  }

  lemma {:induction false} ItemsUnique(a: seq<Json>, b: seq<Json>, x: string, y: string)
    requires SerializeItems(a) + ([']'] + x) == SerializeItems(b) + ([']'] + y)
    ensures a == b && x == y
    decreases a, 2
  {
    ItemsUnfolded(a, x);
    ItemsUnfolded(b, y);
    if a != [] {
      RestUnfolded(a[1..], x);
      RestUnfolded(b[1..], y);
      ValueUnique(a[0], b[0], SerializeRest(a[1..]) + ([']'] + x), SerializeRest(b[1..]) + ([']'] + y));
      RestUnique(a[1..], b[1..], x, y);
      assert a == [a[0]] + a[1..] && b == [b[0]] + b[1..];
    } else {
      SameAfter(']', x, y);
    }
  }

  lemma {:induction false} RestUnique(a: seq<Json>, b: seq<Json>, x: string, y: string)
    requires SerializeRest(a) + ([']'] + x) == SerializeRest(b) + ([']'] + y)
    ensures a == b && x == y
    decreases a, 3
  {
    RestUnfolded(a, x);
    RestUnfolded(b, y);
    if a != [] {
      SameAfter(',', SerializeItems(a) + ([']'] + x), SerializeItems(b) + ([']'] + y));
      ItemsUnique(a, b, x, y);
    } else {
      SameAfter(']', x, y);
    }
  }

  /** JSON serialization is injective. */
  lemma SerializeInjective(v: Json, w: Json)
    requires Serialize(v) == Serialize(w)
    ensures v == w
  {
    assert Serialize(v) + "" == Serialize(v) && Serialize(w) + "" == Serialize(w);
    ValueUnique(v, w, "", "");
  }

  // ---------------------------------------------------------------------------------------
  // Events
  // ---------------------------------------------------------------------------------------

  function TagJson(tag: Tag): Json {
    Array(seq(|tag|, i requires 0 <= i < |tag| => String(tag[i])))
  }

  function TagsJson(tags: seq<Tag>): Json {
    Array(seq(|tags|, i requires 0 <= i < |tags| => TagJson(tags[i])))
  }

  /** `[0, pubkey, created_at, kind, tags, content]`. */
  function CanonicalJson(e: Event): Json {
    Array([Number(0), String(e.pubkey), Number(e.createdAt), Number(e.kind), TagsJson(e.tags), String(e.content)])
  }

  method TagsToCanonical(tags: seq<Tag>) returns (v: Json)
    ensures v == TagsJson(tags)
  {
    var all: seq<Json> := [];
    for i := 0 to |tags|
      invariant |all| == i && forall j :: 0 <= j < i ==> all[j] == TagJson(tags[j])
    {
      var t := tags[i];
      var a: seq<Json> := [];
      for k := 0 to |t|
        invariant |a| == k && forall j :: 0 <= j < k ==> a[j] == String(t[j])
      {
        a := a + [String(t[k])];
      }
      assert Array(a) == TagJson(t);
      all := all + [Array(a)];
    }
    v := Array(all);
  }

  /** `to_canonical`. */
  method ToCanonical(e: Event) returns (text: string)
    ensures text == Serialize(CanonicalJson(e))
  {
    var c: seq<Json> := [];
    c := c + [Number(0)];
    c := c + [String(e.pubkey)];
    c := c + [Number(e.createdAt)];
    c := c + [Number(e.kind)];
    var tags := TagsToCanonical(e.tags);
    c := c + [tags];
    c := c + [String(e.content)];
    assert Array(c) == CanonicalJson(e);
    text := Serialize(Array(c));
  }

  lemma TagJsonInjective(a: Tag, b: Tag)
    requires TagJson(a) == TagJson(b)
    ensures a == b
  {
    assert |a| == |TagJson(a).items| == |TagJson(b).items| == |b|;
    forall i | 0 <= i < |a|
      ensures a[i] == b[i]
    {
      assert TagJson(a).items[i] == String(a[i]) && TagJson(b).items[i] == String(b[i]);
    }
  }

  lemma TagsJsonInjective(a: seq<Tag>, b: seq<Tag>)
    requires TagsJson(a) == TagsJson(b)
    ensures a == b
  {
    assert |a| == |TagsJson(a).items| == |TagsJson(b).items| == |b|;
    forall i | 0 <= i < |a|
      ensures a[i] == b[i]
    {
      assert TagsJson(a).items[i] == TagJson(a[i]) && TagsJson(b).items[i] == TagJson(b[i]);
      TagJsonInjective(a[i], b[i]);
    }
  }

  /**
   * Canonical serialization is injective: equal texts mean equal author, time, kind, tags and
   * content, whatever characters the strings contain.
   */
  lemma CanonicalInjective(d: Event, e: Event)
    requires Serialize(CanonicalJson(d)) == Serialize(CanonicalJson(e))
    ensures d.pubkey == e.pubkey && d.createdAt == e.createdAt && d.kind == e.kind
    ensures d.tags == e.tags && d.content == e.content
  {
    SerializeInjective(CanonicalJson(d), CanonicalJson(e));
    var a, b := CanonicalJson(d).items, CanonicalJson(e).items;
    assert a[1] == b[1] && a[2] == b[2] && a[3] == b[3] && a[4] == b[4] && a[5] == b[5];
    TagsJsonInjective(d.tags, e.tags);
  }

  // ---------------------------------------------------------------------------------------
  // The text, letter by letter
  // ---------------------------------------------------------------------------------------

  /** The character behind a backslash and one letter. */
  function Unletter(c: char): Option<char> {
    if c == '\"' || c == '\\' || c == '/' then Some(c)
    else if c == 'b' then Some(8 as char)
    else if c == 't' then Some(9 as char)
    else if c == 'n' then Some(10 as char)
    else if c == 'f' then Some(12 as char)
    else if c == 'r' then Some(13 as char)
    else None
  }

  /** Four hexadecimal digits after a backslash and u. */
  function Unhex(digits: string): Option<char> {
    if |digits| != 4 || !Hex.IsHex(digits) then None
    else
      var code := 4096 * Hex.Nibble(digits[0]) + 256 * Hex.Nibble(digits[1]) + 16 * Hex.Nibble(digits[2]) + Hex.Nibble(digits[3]);
      if code < 0xD800 then Some(code as char) else None
  }

  /** Reads the inside of a JSON string. */
  function Unescape(text: string): Option<string> {
    if text == "" then Some("")
    else if text[0] == '\"' || text[0] as int < 0x20 then None
    else if text[0] != '\\' then Cons(Some(text[0]), Unescape(text[1..]))
    else if |text| < 2 then None
    else if text[1] != 'u' then Cons(Unletter(text[1]), Unescape(text[2..]))
    else if |text| < 6 then None
    else Cons(Unhex(text[2..6]), Unescape(text[6..]))
  }

  function Cons(c: Option<char>, rest: Option<string>): Option<string> {
    if c.Some? && rest.Some? then Some([c.value] + rest.value) else None
  }

  lemma UnescapeOne(c: char, rest: string)
    ensures Unescape(Escape(c) + rest) == Cons(Some(c), Unescape(rest))
  {
    var text := Escape(c) + rest;
    if ShortEscape(c).Some? {
      assert text[0] == '\\' && text[1] == ShortEscape(c).value && text[2..] == rest;
    } else if c as int < 0x20 {
      HexCharNibble(c as int / 16);
      HexCharNibble(c as int % 16);
      assert text[0] == '\\' && text[1] == 'u' && text[6..] == rest;
      assert text[2..6] == ['0', '0', HexChar(c as int / 16), HexChar(c as int % 16)];
    } else {
      assert text[0] == c && text[1..] == rest;
    }
  }

  lemma HexCharNibble(n: nat)
    requires n < 16
    ensures Hex.IsHexDigit(HexChar(n)) && Hex.Nibble(HexChar(n)) == n
  {
  }

  /** A reader of JSON strings, written from section 7 of RFC 8259, gets every string back. */
  lemma {:induction false} UnescapeEscaped(s: string)
    ensures Unescape(EscapeAll(s)) == Some(s)
  {
    if s != "" {
      UnescapeEscaped(s[1..]);
      UnescapeOne(s[0], EscapeAll(s[1..]));
      assert [s[0]] + s[1..] == s;
    }
  }

  /**
   * How characters are written: quote and backslash after a backslash; backspace, tab, line feed,
   * form feed and carriage return as b, t, n, f and r after one; the other characters below 0x20 as
   * u and four digits, in lowercase; everything else, slash and 0x7f included, as it is.
   */
  lemma EscapeMeans(c: char)
    ensures c == '\"' ==> Escape(c) == ['\\', '\"']
    ensures c == '\\' ==> Escape(c) == ['\\', '\\']
    ensures c as int == 8 ==> Escape(c) == ['\\', 'b']
    ensures c as int == 9 ==> Escape(c) == ['\\', 't']
    ensures c as int == 10 ==> Escape(c) == ['\\', 'n']
    ensures c as int == 12 ==> Escape(c) == ['\\', 'f']
    ensures c as int == 13 ==> Escape(c) == ['\\', 'r']
    ensures c as int < 0x20 && c as int !in {8, 9, 10, 12, 13} ==>
              Escape(c) == ['\\', 'u', '0', '0', if c as int < 16 then '0' else '1', Hex.Digit(c as int % 16)]
              && !('A' <= Escape(c)[5] <= 'F')
    ensures c as int >= 0x20 && c != '\"' && c != '\\' ==> Escape(c) == [c]
  {
  }

  function Quoted(s: string): string {
    "\"" + EscapeAll(s) + "\""
  }

  function QuotedAll(tag: Tag): (texts: seq<string>)
    ensures |texts| == |tag| && forall i :: 0 <= i < |tag| ==> texts[i] == Quoted(tag[i])
  {
    seq(|tag|, i requires 0 <= i < |tag| => Quoted(tag[i]))
  }

  function TagTexts(tags: seq<Tag>): (texts: seq<string>)
    ensures |texts| == |tags| && forall i :: 0 <= i < |tags| ==> texts[i] == "[" + Join(QuotedAll(tags[i]), ',') + "]"
  {
    seq(|tags|, i requires 0 <= i < |tags| => "[" + Join(QuotedAll(tags[i]), ',') + "]")
  }

  lemma {:induction false} ItemsAreJoined(items: seq<Json>, texts: seq<string>)
    requires |texts| == |items| && forall i :: 0 <= i < |items| ==> Serialize(items[i]) == texts[i]
    ensures SerializeItems(items) == Join(texts, ',')
  {
    if |items| == 1 {
      assert items[1..] == [];
    } else if items != [] {
      ItemsAreJoined(items[1..], texts[1..]);
      assert SerializeRest(items[1..]) == [','] + SerializeItems(items[1..]);
      Regroup(texts[0], [','], Join(texts[1..], ','));
    }
  }

  lemma TagTextIs(tag: Tag)
    ensures Serialize(TagJson(tag)) == "[" + Join(QuotedAll(tag), ',') + "]"
  {
    forall i | 0 <= i < |tag|
      ensures Serialize(TagJson(tag).items[i]) == QuotedAll(tag)[i]
    {
    }
    ItemsAreJoined(TagJson(tag).items, QuotedAll(tag));
  }

  lemma TagsTextIs(tags: seq<Tag>)
    ensures Serialize(TagsJson(tags)) == "[" + Join(TagTexts(tags), ',') + "]"
  {
    forall i | 0 <= i < |tags|
      ensures Serialize(TagsJson(tags).items[i]) == TagTexts(tags)[i]
    {
      TagTextIs(tags[i]);
    }
    ItemsAreJoined(TagsJson(tags).items, TagTexts(tags));
  }

  /** The pieces of the canonical text between the outer brackets. */
  function Pieces(e: Event): seq<string> {
    ["0", Quoted(e.pubkey), Decimal.Print(e.createdAt), Decimal.Print(e.kind), "[" + Join(TagTexts(e.tags), ',') + "]", Quoted(e.content)]
  }

  /** The canonical text of any event: the six pieces in brackets, with commas between them and nothing else. */
  lemma CanonicalText(e: Event)
    ensures Serialize(CanonicalJson(e)) == "[" + Join(Pieces(e), ',') + "]"
  {
    var items := CanonicalJson(e).items;
    TagsTextIs(e.tags);
    forall i | 0 <= i < 6
      ensures Serialize(items[i]) == Pieces(e)[i]
    {
    }
    ItemsAreJoined(items, Pieces(e));
  }
}
