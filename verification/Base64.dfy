/** Unpadded base64url (section 5 of RFC 4648), as the standard decoder reads it: line
    breaks are skipped and the unused low bits of the last symbol are ignored. A string
    here is a sequence of bytes, one per character. */
module Base64 {
  import opened Options

  predicate IsBytes(s: string) { forall i :: 0 <= i < |s| ==> s[i] as int < 256 }

  function Symbol(d: nat): (c: char)
    requires d < 64
    ensures ValueOf(c) == Some(d) && c != '\r' && c != '\n'
  {
    if d < 26 then ('A' as int + d) as char
    else if d < 52 then ('a' as int + d - 26) as char
    else if d < 62 then ('0' as int + d - 52) as char
    else if d == 62 then '-' else '_'
  }

  function ValueOf(c: char): (d: Option<nat>)
    ensures d.Some? ==> d.value < 64
  {
    if 'A' <= c <= 'Z' then Some(c as int - 'A' as int)
    else if 'a' <= c <= 'z' then Some(c as int - 'a' as int + 26)
    else if '0' <= c <= '9' then Some(c as int - '0' as int + 52)
    else if c == '-' then Some(62)
    else if c == '_' then Some(63)
    else None
  }

  /** Three bytes as four symbols. */
  function Four(a: nat, b: nat, c: nat): (four: string)
    requires a < 256 && b < 256 && c < 256
    ensures |four| == 4 && AllSymbols(four)
    ensures forall i :: 0 <= i < 4 ==> four[i] != '\r' && four[i] != '\n'
  {
    [Symbol(a / 4), Symbol(a % 4 * 16 + b / 16), Symbol(b % 16 * 4 + c / 64), Symbol(c % 64)]
  }

  /** Four digits as three bytes. */
  function Three(d0: nat, d1: nat, d2: nat, d3: nat): (three: string)
    requires d0 < 64 && d1 < 64 && d2 < 64 && d3 < 64
    ensures |three| == 3 && IsBytes(three)
  {
    [(d0 * 4 + d1 / 16) as char, (d1 % 16 * 16 + d2 / 4) as char, (d2 % 4 * 64 + d3) as char]
  }

  function ByteAt(s: string, i: nat): (b: nat)
    requires IsBytes(s)
    ensures b < 256
  {
    if i < |s| then s[i] as int else 0
  }

  function Encode(s: string): string
    requires IsBytes(s)
  {
    if |s| == 0 then ""
    else
      var four := Four(ByteAt(s, 0), ByteAt(s, 1), ByteAt(s, 2));
      if |s| == 1 then four[..2]
      else if |s| == 2 then four[..3]
      else four + Encode(s[3..])
  }

  function WithoutBreaks(s: string): (t: string)
    ensures |t| <= |s|
  {
    if |s| == 0 then ""
    else
      var rest := WithoutBreaks(s[..|s| - 1]);
      if s[|s| - 1] == '\r' || s[|s| - 1] == '\n' then rest else rest + [s[|s| - 1]]
  }

  predicate AllSymbols(s: string) { forall i :: 0 <= i < |s| ==> ValueOf(s[i]).Some? }

  function DigitAt(s: string, i: nat): (d: nat)
    requires AllSymbols(s)
    ensures d < 64
  {
    if i < |s| then ValueOf(s[i]).value else 0
  }

  function DecodeSymbols(s: string): (t: string)
    requires AllSymbols(s) && |s| % 4 != 1
    ensures IsBytes(t) && 4 * |t| <= 3 * |s| && (|s| > 0 ==> |t| > 0)
  {
    if |s| == 0 then ""
    else
      var three := Three(DigitAt(s, 0), DigitAt(s, 1), DigitAt(s, 2), DigitAt(s, 3));
      if |s| == 2 then three[..1]
      else if |s| == 3 then three[..2]
      else three + DecodeSymbols(s[4..])
  }

  function Decode(raw: string): (t: Option<string>)
    ensures t.Some? ==> IsBytes(t.value) && 4 * |t.value| <= 3 * |raw|
  {
    var s := WithoutBreaks(raw);
    if AllSymbols(s) && |s| % 4 != 1 then Some(DecodeSymbols(s)) else None
  }

  /** Four symbols to three bytes and back; the last one or two say nothing of the bytes
      before them. */
  lemma Quantum(a: nat, b: nat, c: nat)
    requires a < 256 && b < 256 && c < 256
    ensures var four := Four(a, b, c);
      var d0, d1, d2, d3 := DigitAt(four, 0), DigitAt(four, 1), DigitAt(four, 2), DigitAt(four, 3);
      && Three(d0, d1, d2, d3) == [a as char, b as char, c as char]
      && (c == 0 ==> d3 == 0) && (b == 0 && c == 0 ==> d2 == 0)
  {
    hide ValueOf;
    Halves(a, b, c);
  }

  lemma Halves(a: nat, b: nat, c: nat)
    requires a < 256 && b < 256 && c < 256
    ensures var d1, d2 := a % 4 * 16 + b / 16, b % 16 * 4 + c / 64;
      && a / 4 < 64 && d1 < 64 && d2 < 64 && c % 64 < 64
      && a / 4 * 4 + d1 / 16 == a && d1 % 16 * 16 + d2 / 4 == b && d2 % 4 * 64 + c % 64 == c
  {
  }

  lemma {:induction false} EncodeShape(s: string)
    requires IsBytes(s)
    ensures |Encode(s)| == (4 * |s| + 2) / 3 && AllSymbols(Encode(s)) && |Encode(s)| % 4 != 1
    ensures forall i :: 0 <= i < |Encode(s)| ==> Encode(s)[i] != '\r' && Encode(s)[i] != '\n'
  {
    if |s| >= 3 { EncodeShape(s[3..]); }
  }

  lemma {:induction false} DecodesBack(s: string)
    requires IsBytes(s)
    ensures |Encode(s)| % 4 != 1 && AllSymbols(Encode(s)) && DecodeSymbols(Encode(s)) == s
  {
    EncodeShape(s);
    if |s| >= 3 {
      DecodesBack(s[3..]);
      WholeQuantum(s);
    } else if |s| > 0 {
      LastQuantum(s);
    }
  }

  lemma WholeQuantum(s: string)
    requires IsBytes(s) && |s| >= 3 && |Encode(s)| % 4 != 1 && AllSymbols(Encode(s))
    requires |Encode(s[3..])| % 4 != 1 && AllSymbols(Encode(s[3..])) && DecodeSymbols(Encode(s[3..])) == s[3..]
    ensures DecodeSymbols(Encode(s)) == s
  {
    var e, four := Encode(s), Four(ByteAt(s, 0), ByteAt(s, 1), ByteAt(s, 2));
    Quantum(ByteAt(s, 0), ByteAt(s, 1), ByteAt(s, 2));
    hide Four, Three, ValueOf;
    assert e == four + Encode(s[3..]);
    assert forall i :: 0 <= i < 4 ==> DigitAt(e, i) == DigitAt(four, i);
    assert e[4..] == Encode(s[3..]);
    assert s == [s[0], s[1], s[2]] + s[3..];
  }

  lemma LastQuantum(s: string)
    requires IsBytes(s) && 0 < |s| < 3 && |Encode(s)| % 4 != 1 && AllSymbols(Encode(s))
    ensures DecodeSymbols(Encode(s)) == s
  {
    var e, four := Encode(s), Four(ByteAt(s, 0), ByteAt(s, 1), ByteAt(s, 2));
    Quantum(ByteAt(s, 0), ByteAt(s, 1), ByteAt(s, 2));
    hide Four, Three, ValueOf;
    assert |e| >= 2 && forall i :: 0 <= i < 4 ==> DigitAt(e, i) == DigitAt(four, i);
    assert s == if |s| == 1 then [s[0]] else [s[0], s[1]];
  }

  lemma {:induction false} NoBreaks(s: string)
    requires forall i :: 0 <= i < |s| ==> s[i] != '\r' && s[i] != '\n'
    ensures WithoutBreaks(s) == s
  {
    if |s| > 0 {
      NoBreaks(s[..|s| - 1]);
      assert s == s[..|s| - 1] + [s[|s| - 1]];
    }
  }

  /** Decoding what was encoded gives it back, for every sequence of bytes. */
  lemma RoundTrip(s: string)
    requires IsBytes(s)
    ensures Decode(Encode(s)) == Some(s)
  {
    EncodeShape(s);
    NoBreaks(Encode(s));
    DecodesBack(s);
  }

  lemma EncodesOne(a: char)
    requires a as int < 256
    ensures IsBytes([a]) && Encode([a]) == Four(a as int, 0, 0)[..2]
  {
    hide Four;
  }

  lemma EncodesTwo(a: char, b: char)
    requires a as int < 256 && b as int < 256
    ensures IsBytes([a, b]) && Encode([a, b]) == Four(a as int, b as int, 0)[..3]
  {
    hide Four;
  }

  lemma EncodesThree(a: char, b: char, c: char, rest: string)
    requires a as int < 256 && b as int < 256 && c as int < 256 && IsBytes(rest)
    ensures IsBytes([a, b, c] + rest) && Encode([a, b, c] + rest) == Four(a as int, b as int, c as int) + Encode(rest)
  {
    hide Four;
    var s := [a, b, c] + rest;
    assert s[3..] == rest;
  }

  /** The quanta of the vectors of section 10 of RFC 4648 - "f", "fo", "foo", "b", "ba" and
      "bar" - and one with the last two symbols, where the URL-safe alphabet is its own. */
  lemma Vectors()
    ensures Four(102, 0, 0)[..2] == ['Z', 'g'] && Four(102, 111, 0)[..3] == ['Z', 'm', '8'] && Four(102, 111, 111) == ['Z', 'm', '9', 'v']
    ensures Four(98, 0, 0)[..2] == ['Y', 'g'] && Four(98, 97, 0)[..3] == ['Y', 'm', 'E'] && Four(98, 97, 114) == ['Y', 'm', 'F', 'y']
    ensures Four(251, 255, 255) == ['-', '_', '_', '_']
  {
    hide AllSymbols, ValueOf, Three;
  }

  /** Every cursor is written in the URL-safe alphabet. */
  lemma {:induction false} EncodingIsUrlSafe(s: string)
    requires IsBytes(s)
    ensures forall i :: 0 <= i < |Encode(s)| ==>
      var c := Encode(s)[i]; 'A' <= c <= 'Z' || 'a' <= c <= 'z' || '0' <= c <= '9' || c == '-' || c == '_'
  {
    if |s| >= 3 { EncodingIsUrlSafe(s[3..]); }
  }
}
