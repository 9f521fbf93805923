// Percent-encoding of policy documents (section 2.1 of RFC 3986) and the
// decoding that the hooks apply to every document they read or write.
module Documents {
  import opened Base

  type Byte = b: int | 0 <= b < 256
  type Doc = seq<Byte>

  const SPACE: Byte := 32
  const PERCENT: Byte := 37
  const PLUS: Byte := 43

  predicate IsHex(b: Byte) {
    48 <= b <= 57 || 65 <= b <= 70 || 97 <= b <= 102
  }

  function HexValue(b: Byte): int {
    if b <= 57 then b - 48 else if b <= 70 then b - 55 else b - 87
  }

  function HexDigit(n: int): Byte
    requires 0 <= n < 16
  {
    if n < 10 then 48 + n else 55 + n
  }

  /** Section 2.3 of RFC 3986: letters, digits, '-', '.', '_', '~'. */
  predicate Unreserved(b: Byte) {
    65 <= b <= 90 || 97 <= b <= 122 || 48 <= b <= 57 || b == 45 || b == 46 || b == 95 || b == 126
  }

  /** What the backend returns for a stored document. */
  function Encode(d: Doc): Doc {
    if d == [] then []
    else (if Unreserved(d[0]) then [d[0]]
          else [PERCENT, HexDigit(d[0] / 16), HexDigit(d[0] % 16)]) + Encode(d[1..])
  }

  /** `url.QueryUnescape`: '%XX' is a byte, '+' is a space, and a '%' without
      two hexadecimal digits is an error for the whole document. */
  function Decode(s: Doc): Option<Doc>
    decreases |s|
  {
    if s == [] then Some([])
    else if s[0] == PERCENT then
      if |s| < 3 || !IsHex(s[1]) || !IsHex(s[2]) then None
      else match Decode(s[3..])
        case None => None
        case Some(rest) => Some([16 * HexValue(s[1]) + HexValue(s[2])] + rest)
    else match Decode(s[1..])
      case None => None
      case Some(rest) => Some([if s[0] == PLUS then SPACE else s[0]] + rest)
  }

  /** A document with nothing for the decoder to rewrite. */
  predicate Literal(s: Doc) {
    PERCENT !in s && PLUS !in s
  }

  lemma HexRoundTrip(b: Byte)
    ensures IsHex(HexDigit(b / 16)) && IsHex(HexDigit(b % 16))
    ensures 16 * HexValue(HexDigit(b / 16)) + HexValue(HexDigit(b % 16)) == b
  {
  }

  lemma DecodeLiteralByte(b: Byte, rest: Doc)
    requires b != PERCENT && b != PLUS && Decode(rest).Some?
    ensures Decode([b] + rest) == Some([b] + Decode(rest).value)
  {
    assert ([b] + rest)[1..] == rest;
  }

  lemma DecodeEscapedByte(b: Byte, rest: Doc)
    requires Decode(rest).Some?
    ensures Decode([PERCENT, HexDigit(b / 16), HexDigit(b % 16)] + rest) == Some([b] + Decode(rest).value)
  {
    var s := [PERCENT, HexDigit(b / 16), HexDigit(b % 16)] + rest;
    assert s[3..] == rest;
    HexRoundTrip(b);
  }

  /** Reading back any stored document yields that document. */
  lemma {:induction false} DecodeInvertsEncode(d: Doc)
    ensures Decode(Encode(d)) == Some(d)
  {
    if d == [] {
    } else {
      DecodeInvertsEncode(d[1..]);
      assert d == [d[0]] + d[1..];
      if Unreserved(d[0]) {
        DecodeLiteralByte(d[0], Encode(d[1..]));
      } else {
        DecodeEscapedByte(d[0], Encode(d[1..]));
      }
    }
  }

  lemma {:induction false} DecodeShrinks(s: Doc)
    requires Decode(s).Some?
    ensures |Decode(s).value| <= |s|
    ensures |Decode(s).value| == |s| ==> PERCENT !in s
    decreases |s|
  {
    if s == [] {
    } else if s[0] == PERCENT {
      DecodeShrinks(s[3..]);
    } else {
      DecodeShrinks(s[1..]);
      assert s == [s[0]] + s[1..];
    }
  }

  /** The documents that decoding leaves alone are exactly the literal ones. */
  lemma {:induction false} StableExactlyWhenLiteral(s: Doc)
    ensures Decode(s) == Some(s) <==> Literal(s)
    decreases |s|
  {
    if s == [] {
    } else {
      assert s == [s[0]] + s[1..];
      if s[0] == PERCENT {
        if Decode(s).Some? { DecodeShrinks(s); }
      } else {
        StableExactlyWhenLiteral(s[1..]);
        if Decode(s) == Some(s) {
          assert s[1..] == Decode(s[1..]).value;
        }
      }
    }
  }

  // ---- what decoding means ----

  /** The ways in which one byte of a document can be written. */
  datatype Form = Plain | AsPlus | Escaped(highUpper: bool, lowUpper: bool)

  function DigitByte(n: int, upper: bool): Byte
    requires 0 <= n < 16
  {
    if n < 10 then 48 + n else if upper then 55 + n else 87 + n
  }

  /** Any byte but '%' and '+' can stand for itself, a space can be written as
      '+', and any byte as '%' and two hexadecimal digits of either case. */
  predicate CanBeWritten(b: Byte, f: Form) {
    match f
    case Plain => b != 37 && b != 43
    case AsPlus => b == 32
    case Escaped(_, _) => true
  }

  function WrittenByte(b: Byte, f: Form): Doc {
    match f
    case Plain => [b]
    case AsPlus => [43]
    case Escaped(high, low) => [37, DigitByte(b / 16, high), DigitByte(b % 16, low)]
  }

  function Written(d: Doc, fs: seq<Form>): Doc
    requires |d| == |fs|
  {
    if d == [] then [] else WrittenByte(d[0], fs[0]) + Written(d[1..], fs[1..])
  }

  ghost predicate Choice(d: Doc, fs: seq<Form>) {
    |d| == |fs| && forall i :: 0 <= i < |d| ==> CanBeWritten(d[i], fs[i])
  }

  /** `s` is the document `d`, each byte written in one of its forms. */
  ghost predicate Writes(s: Doc, d: Doc) {
    exists fs :: Choice(d, fs) && Written(d, fs) == s
  }

  /** Some '%' is not followed by two hexadecimal digits. */
  ghost predicate BadEscape(s: Doc) {
    exists i :: 0 <= i < |s| && BadEscapeAt(s, i)
  }

  predicate BadEscapeAt(s: Doc, i: nat)
    requires i < |s|
  {
    && s[i] == 37
    && !(i + 2 < |s| && (48 <= s[i + 1] <= 57 || 65 <= s[i + 1] <= 70 || 97 <= s[i + 1] <= 102)
         && (48 <= s[i + 2] <= 57 || 65 <= s[i + 2] <= 70 || 97 <= s[i + 2] <= 102))
  }

  lemma DecodeWrittenByte(b: Byte, f: Form, rest: Doc)
    requires CanBeWritten(b, f)
    ensures Decode(WrittenByte(b, f) + rest)
            == if Decode(rest).Some? then Some([b] + Decode(rest).value) else None
  {
    var w := WrittenByte(b, f);
    assert (w + rest)[|w|..] == rest;
  }

  lemma {:induction false} WritingDecodes(d: Doc, fs: seq<Form>)
    requires Choice(d, fs)
    ensures Decode(Written(d, fs)) == Some(d)
  {
    if d == [] {
    } else {
      WritingDecodes(d[1..], fs[1..]);
      DecodeWrittenByte(d[0], fs[0], Written(d[1..], fs[1..]));
      assert d == [d[0]] + d[1..];
    }
  }

  /** The form in which the first byte of a decodable text is written, and how
      many bytes of text that takes. */
  lemma FirstForm(s: Doc) returns (f: Form, n: nat)
    requires s != [] && Decode(s).Some?
    ensures n <= |s| && 0 < n && Decode(s[n..]).Some? && Decode(s).value != []
    ensures var d := Decode(s).value;
            d[1..] == Decode(s[n..]).value && CanBeWritten(d[0], f) && s[..n] == WrittenByte(d[0], f)
  {
    if s[0] == PERCENT {
      f, n := Escaped(s[1] <= 70, s[2] <= 70), 3;
    } else if s[0] == PLUS {
      f, n := AsPlus, 1;
    } else {
      f, n := Plain, 1;
    }
    assert Decode(s).value[1..] == Decode(s[n..]).value;
  }

  lemma {:induction false} DecodedIsWritten(s: Doc) returns (fs: seq<Form>)
    requires Decode(s).Some?
    ensures Choice(Decode(s).value, fs) && Written(Decode(s).value, fs) == s
    decreases |s|
  {
    if s == [] {
      fs := [];
    } else {
      var f, n := FirstForm(s);
      var rest := DecodedIsWritten(s[n..]);
      fs := [f] + rest;
      assert fs[1..] == rest;
      assert s == s[..n] + s[n..];
    }
  }

  /** Decoding gives a document exactly for the texts that write it. */
  lemma DecodesExactlyItsWritings(s: Doc, d: Doc)
    ensures Decode(s) == Some(d) <==> Writes(s, d)
  {
    if Decode(s) == Some(d) {
      var fs := DecodedIsWritten(s);
    }
    if Writes(s, d) {
      var fs :| Choice(d, fs) && Written(d, fs) == s;
      WritingDecodes(d, fs);
    }
  }

  lemma BadEscapeInRest(s: Doc, n: nat)
    requires n <= |s| && forall i :: 0 <= i < n ==> !BadEscapeAt(s, i)
    ensures BadEscape(s) <==> BadEscape(s[n..])
  {
    if BadEscape(s) {
      var i :| 0 <= i < |s| && BadEscapeAt(s, i);
      assert BadEscapeAt(s[n..], i - n);
    }
    if BadEscape(s[n..]) {
      var i :| 0 <= i < |s[n..]| && BadEscapeAt(s[n..], i);
      assert BadEscapeAt(s, i + n);
    }
  }

  /** And it fails exactly for the texts with a bad escape. */
  lemma {:induction false} DecodeFailsExactlyWhen(s: Doc)
    ensures Decode(s).None? <==> BadEscape(s)
    decreases |s|
  {
    if s == [] {
    } else if s[0] != PERCENT {
      DecodeFailsExactlyWhen(s[1..]);
      BadEscapeInRest(s, 1);
    } else if BadEscapeAt(s, 0) {
      assert Decode(s).None?;
    } else {
      DecodeFailsExactlyWhen(s[3..]);
      BadEscapeInRest(s, 3);
    }
  }

  /** Encoding writes letters, digits, '-', '.', '_' and '~' plainly and
      everything else as an escape with upper-case digits. */
  lemma {:induction false} EncodedForms(d: Doc) returns (fs: seq<Form>)
    ensures Choice(d, fs) && Encode(d) == Written(d, fs)
    ensures forall i :: 0 <= i < |d| ==>
              fs[i] == if 'a' <= d[i] as char <= 'z' || 'A' <= d[i] as char <= 'Z' || '0' <= d[i] as char <= '9'
                          || d[i] as char in {'-', '.', '_', '~'} then Plain else Escaped(true, true)
  {
    if d == [] {
      fs := [];
    } else {
      var rest := EncodedForms(d[1..]);
      fs := [if Unreserved(d[0]) then Plain else Escaped(true, true)] + rest;
      assert fs[1..] == rest;
    }
  }
}
