/** Hexadecimal text, as read by `hex::decode` and by the predicates of src/utils.rs. */
module Hex {
  import opened Common

  type Byte = b: int | 0 <= b < 256

  predicate IsHexDigit(c: char) {
    '0' <= c <= '9' || 'a' <= c <= 'f' || 'A' <= c <= 'F'
  }

  predicate IsLowerHexDigit(c: char) {
    '0' <= c <= '9' || 'a' <= c <= 'f'
  }

  /** `is_hex`: every character is a hexadecimal digit of either case. */
  predicate IsHex(s: string) {
    forall i :: 0 <= i < |s| ==> IsHexDigit(s[i])
  }

  /** `is_lower_hex`: every character is a digit or a lowercase hexadecimal letter. */
  predicate IsLowerHex(s: string) {
    forall i :: 0 <= i < |s| ==> IsLowerHexDigit(s[i])
  }

  /** The canonical spelling of a 32-byte hash or key. */
  predicate IsCanonical(s: string) {
    |s| == 64 && IsLowerHex(s)
  }

  function Nibble(c: char): (n: nat)
    requires IsHexDigit(c)
    ensures n < 16
  {
    if c <= '9' then (c - '0') as nat
    else if c <= 'F' then (c - 'A') as nat + 10
    else (c - 'a') as nat + 10
  }

  /** `hex::decode`: fails on an odd length and on any other character; accepts both cases. */
  function Decode(s: string): (r: Option<seq<Byte>>)
    ensures r.Some? <==> |s| % 2 == 0 && IsHex(s)
    ensures r.Some? ==> |r.value| * 2 == |s|
  {
    if |s| % 2 != 0 || !IsHex(s) then None
    else Some(seq(|s| / 2, i requires 0 <= i < |s| / 2 => 16 * Nibble(s[2 * i]) + Nibble(s[2 * i + 1])))
  }

  lemma {:induction false} LowerNibbleInjective(c: char, d: char)
    requires IsLowerHexDigit(c) && IsLowerHexDigit(d)
    requires Nibble(c) == Nibble(d)
    ensures c == d
  {
    if c <= '9' {
      assert c as int == Nibble(c) + '0' as int;
    } else {
      assert c as int == Nibble(c) - 10 + 'a' as int;
    }
  }

  /** Two lowercase spellings of the same bytes are the same text. */
  lemma DecodeInjectiveOnLower(a: string, b: string)
    requires IsLowerHex(a) && IsLowerHex(b)
    requires Decode(a).Some? && Decode(a) == Decode(b)
    ensures a == b
  {
    forall k | 0 <= k < |a|
      ensures a[k] == b[k]
    {
      var i := k / 2;
      assert Decode(a).value[i] == 16 * Nibble(a[2 * i]) + Nibble(a[2 * i + 1]);
      assert Decode(b).value[i] == 16 * Nibble(b[2 * i]) + Nibble(b[2 * i + 1]);
      LowerNibbleInjective(a[2 * i], b[2 * i]);
      LowerNibbleInjective(a[2 * i + 1], b[2 * i + 1]);
      assert k == 2 * i || k == 2 * i + 1;
    }
  }

  function LowerDigit(c: char): char {
    if 'A' <= c <= 'F' then (c as int - 'A' as int + 'a' as int) as char else c
  }

  /** The text with its uppercase digits in lowercase. */
  function Lower(s: string): (r: string)
    ensures |r| == |s| && forall i :: 0 <= i < |s| ==> r[i] == LowerDigit(s[i])
  {
    seq(|s|, i requires 0 <= i < |s| => LowerDigit(s[i]))
  }

  /** Decoding does not see the case. */
  lemma DecodeLower(s: string)
    ensures IsHex(s) <==> IsLowerHex(Lower(s))
    ensures Decode(Lower(s)) == Decode(s)
  {
    forall i | 0 <= i < |s|
      ensures IsHexDigit(s[i]) <==> IsLowerHexDigit(Lower(s)[i])
      ensures IsHexDigit(s[i]) <==> IsHexDigit(Lower(s)[i])
    {
    }
    if IsHex(s) && |s| % 2 == 0 {
      forall i | 0 <= i < |s|
        ensures Nibble(Lower(s)[i]) == Nibble(s[i])
      {
      }
      assert Decode(Lower(s)).value == Decode(s).value;
    }
  }

  /** A text decodes to the bytes of a canonical one exactly when it spells it in any case. */
  lemma DecodesIffSpelled(s: string, target: string)
    requires IsCanonical(target)
    ensures Decode(target).Some?
    ensures Decode(s) == Decode(target) <==> Lower(s) == target
  {
    assert IsHex(target);
    DecodeLower(s);
    if Decode(s) == Decode(target) {
      DecodeInjectiveOnLower(Lower(s), target);
    }
  }

  /** Another id of the same length and alphabet. */
  function OtherId(id: string): (other: string)
    requires IsHex(id)
    ensures IsHex(other) && (id != "" ==> |other| == |id|)
  {
    if id == "" then "00" else [if Nibble(id[0]) == 0 then '1' else '0'] + id[1..]
  }

  lemma OtherIdDiffers(id: string)
    requires Decode(id).Some?
    ensures Decode(OtherId(id)).Some? && Decode(OtherId(id)) != Decode(id)
  {
    if id != "" {
      assert Decode(OtherId(id)).value[0] / 16 != Decode(id).value[0] / 16;
    }
  }

  function Digit(n: nat): (c: char)
    requires n < 16
  {
    "0123456789abcdef"[n]
  }

  /** Two lowercase digits per byte. */
  function Encode(bytes: seq<Byte>): string {
    if bytes == [] then "" else [Digit(bytes[0] / 16), Digit(bytes[0] % 16)] + Encode(bytes[1..])
  }

  lemma DigitNibble(n: nat)
    requires n < 16
    ensures IsHexDigit(Digit(n)) && Nibble(Digit(n)) == n
  {
  }

  /** One more byte in front. */
  lemma DecodeFront(b: Byte, rest: string)
    requires Decode(rest).Some?
    ensures Decode([Digit(b / 16), Digit(b % 16)] + rest) == Some([b] + Decode(rest).value)
  {
    var s := [Digit(b / 16), Digit(b % 16)] + rest;
    DigitNibble(b / 16);
    DigitNibble(b % 16);
    forall i | 0 <= i < |s|
      ensures IsHexDigit(s[i])
    {
      assert i >= 2 ==> s[i] == rest[i - 2];
    }
    assert |s| == |rest| + 2 && Decode(s).Some?;
    assert 16 * (b / 16) + b % 16 == b && s[0] == Digit(b / 16) && s[1] == Digit(b % 16);
    var front, value := [b] + Decode(rest).value, Decode(s).value;
    forall i | 0 <= i < |value|
      ensures value[i] == front[i]
    {
      assert value[i] == 16 * Nibble(s[2 * i]) + Nibble(s[2 * i + 1]);
      if i > 0 {
        assert s[2 * i] == rest[2 * (i - 1)] && s[2 * i + 1] == rest[2 * (i - 1) + 1];
      }
    }
    assert value == front;
  }

  /** Decoding reads what encoding writes. */
  lemma {:induction false} DecodeEncode(bytes: seq<Byte>)
    ensures Decode(Encode(bytes)) == Some(bytes)
  {
    if bytes != [] {
      DecodeEncode(bytes[1..]);
      DecodeFront(bytes[0], Encode(bytes[1..]));
      assert bytes == [bytes[0]] + bytes[1..];
    }
  }
}
