/**
 * Go's `base64.StdEncoding`: the standard alphabet and '=' padding of section 4
 * of RFC 4648, as `EncodeToString` writes it and `DecodeString` reads it.
 *
 * The decoder skips carriage returns and line feeds wherever they occur,
 * requires padding (so the text without line breaks is a whole number of
 * four-character quanta), allows padding only at the very end, and does not
 * insist that the unused low bits of a padded quantum are zero.
 *
 * Decoding goes in two steps, as in Go: each character is first classified
 * (a digit, the padding character, or neither), and quanta of four classified
 * characters are then assembled into bytes.
 */
module Base64 {
  import opened Wrappers
  import opened GoStrings

  /** A value of one base64 digit. */
  type Sextet = v: int | 0 <= v < 64

  const Padding: char := '='

  /** The character of the standard alphabet that stands for `v`. */
  function EncodeSextet(v: Sextet): char
  {
    if v < 26 then ('A' as int + v) as char
    else if v < 52 then ('a' as int + (v - 26)) as char
    else if v < 62 then ('0' as int + (v - 52)) as char
    else if v == 62 then '+'
    else '/'
  }

  /** The value of an alphabet character, and None for every other character. */
  function DecodeSextet(c: char): (r: Option<Sextet>)
    ensures r.Some? ==> EncodeSextet(r.value) == c
    ensures r.None? ==> forall v: Sextet :: EncodeSextet(v) != c
  {
    if 'A' <= c <= 'Z' then Some(c as int - 'A' as int)
    else if 'a' <= c <= 'z' then Some(c as int - 'a' as int + 26)
    else if '0' <= c <= '9' then Some(c as int - '0' as int + 52)
    else if c == '+' then Some(62)
    else if c == '/' then Some(63)
    else None
  }

  /** Every digit value is read back from its character. */
  lemma DecodeEncodeSextet(v: Sextet)
    ensures DecodeSextet(EncodeSextet(v)) == Some(v)
  {
  }

  /** A character that may occur in encoded text: an alphabet character or '='. */
  predicate IsEncodingChar(c: char) {
    'A' <= c <= 'Z' || 'a' <= c <= 'z' || '0' <= c <= '9' || c == '+' || c == '/' || c == Padding
  }

  /** What the decoder makes of one character. */
  datatype Symbol = Digit(value: Sextet) | Pad | Invalid

  /** The decoder's lookup of one character. */
  function Classify(c: char): (sym: Symbol)
    ensures sym.Digit? ==> EncodeSextet(sym.value) == c
    ensures sym == Pad <==> c == Padding
    ensures sym == Invalid <==> !IsEncodingChar(c)
  {
    if c == Padding then Pad
    else match DecodeSextet(c)
      case Some(v) => Digit(v)
      case None => Invalid
  }

  /** The classification of every character of a text. */
  function Symbols(s: string): (syms: seq<Symbol>)
    ensures |syms| == |s|
    ensures forall i :: 0 <= i < |s| ==> syms[i] == Classify(s[i])
  {
    seq(|s|, i requires 0 <= i < |s| => Classify(s[i]))
  }

  /** The character an encoder writes for a digit or for padding. */
  function SymbolChar(sym: Symbol): (c: char)
    requires !sym.Invalid?
    ensures Classify(c) == sym
  {
    match sym
    case Digit(v) => DecodeEncodeSextet(v); EncodeSextet(v)
    case Pad => Padding
  }

  /** The text of a sequence of digits and padding. */
  function Render(syms: seq<Symbol>): (s: string)
    requires forall i :: 0 <= i < |syms| ==> !syms[i].Invalid?
    ensures |s| == |syms|
    ensures forall i :: 0 <= i < |s| ==> IsEncodingChar(s[i])
    ensures Symbols(s) == syms
  {
    seq(|syms|, i requires 0 <= i < |syms| => SymbolChar(syms[i]))
  }

  /** The digits of three bytes. */
  function GroupSymbols(x: Byte, y: Byte, z: Byte): seq<Symbol>
  {
    [Digit(x / 4), Digit(x % 4 * 16 + y / 16), Digit(y % 16 * 4 + z / 64), Digit(z % 64)]
  }

  /**
   * The digits and padding that encode `data`: every three bytes become four
   * digits; a final group of one or two bytes becomes two or three digits
   * padded to four.
   */
  function EncodeSymbols(data: seq<Byte>): (syms: seq<Symbol>)
    ensures |syms| % 4 == 0 && (|syms| == 0 <==> |data| == 0)
    ensures forall i :: 0 <= i < |syms| ==> !syms[i].Invalid?
    decreases |data|
  {
    if |data| == 0 then []
    else if |data| == 1 then
      [Digit(data[0] / 4), Digit(data[0] % 4 * 16), Pad, Pad]
    else if |data| == 2 then
      [Digit(data[0] / 4), Digit(data[0] % 4 * 16 + data[1] / 16), Digit(data[1] % 16 * 4), Pad]
    else
      GroupSymbols(data[0], data[1], data[2]) + EncodeSymbols(data[3..])
  }

  /** `StdEncoding.EncodeToString`: the text of the encoding of `data`. */
  function Encode(data: seq<Byte>): (s: string)
    ensures |s| % 4 == 0 && (|s| == 0 <==> |data| == 0)
    ensures forall i :: 0 <= i < |s| ==> IsEncodingChar(s[i])
  {
    Render(EncodeSymbols(data))
  }

  /** The text with every carriage return and line feed removed, as the decoder reads it. */
  function StripNewlines(s: string): (r: string)
    ensures '\r' !in r && '\n' !in r
    ensures |r| <= |s|
    ensures '\r' !in s && '\n' !in s ==> r == s
    ensures |s| == 1 ==> r == (if s[0] == '\r' || s[0] == '\n' then "" else s)
    decreases |s|
  {
    if |s| == 0 then ""
    else if s[0] == '\r' || s[0] == '\n' then StripNewlines(s[1..])
    else
      assert s == [s[0]] + s[1..];
      [s[0]] + StripNewlines(s[1..])
  }

  /**
   * The three bytes of the 24 bits that four digits hold, most significant
   * first; a digit that padding replaces counts as zero.
   */
  function QuantumBytes(a: Sextet, b: Sextet, c: Sextet, d: Sextet): (bytes: seq<Byte>)
    ensures |bytes| == 3
    ensures (bytes[0] as int * 0x100 + bytes[1] as int) * 0x100 + bytes[2] as int
         == ((a as int * 64 + b as int) * 64 + c as int) * 64 + d as int
  {
    var a, b, c, d := a as int, b as int, c as int, d as int;
    [a * 4 + b / 16, b % 16 * 16 + c / 4, c % 4 * 64 + d]
  }

  /** The value a symbol contributes to a quantum's bits: padding counts as zero. */
  function DigitValue(sym: Symbol): Sextet
  {
    if sym.Digit? then sym.value else 0
  }

  /**
   * One quantum of four classified characters: four digits, or, in the last
   * quantum only, three digits and '=' or two digits and "==". Go's decoder
   * reports anything after the padding as corrupt input.
   */
  function DecodeQuantum(q: seq<Symbol>, last: bool): (r: Option<seq<Byte>>)
    requires |q| == 4
    ensures r.Some? ==> 1 <= |r.value| <= 3
    ensures r.Some? && !last ==> |r.value| == 3
    ensures r.Some? ==> forall i :: 0 <= i < 4 ==> !q[i].Invalid?
    ensures q[0].Digit? && q[1].Digit? && q[2].Digit? && q[3].Digit? ==> r.Some?
    ensures !last && Pad in q ==> r.None?
    ensures last && q[0].Digit? && q[1].Digit? && q[2].Digit? && q[3] == Pad ==> r.Some?
    ensures last && q[0].Digit? && q[1].Digit? && q[2] == Pad && q[3] == Pad ==> r.Some?
    ensures q[2] == Pad && q[3] != Pad ==> r.None?
    ensures r.Some? ==> q[0].Digit? && q[1].Digit?
    ensures r.Some? ==> (|r.value| == 3 <==> q[3].Digit?) && (|r.value| == 1 <==> q[2] == Pad)
    ensures r.Some? ==>
              r.value == QuantumBytes(DigitValue(q[0]), DigitValue(q[1]), DigitValue(q[2]), DigitValue(q[3]))[..|r.value|]
  {
    if !q[0].Digit? || !q[1].Digit? then None
    else if q[2].Digit? && q[3].Digit? then
      Some(QuantumBytes(q[0].value, q[1].value, q[2].value, q[3].value))
    else if !last then None
    else if q[2].Digit? && q[3] == Pad then Some(QuantumBytes(q[0].value, q[1].value, q[2].value, 0)[..2])
    else if q[2] == Pad && q[3] == Pad then Some(QuantumBytes(q[0].value, q[1].value, 0, 0)[..1])
    else None
  }

  /**
   * Classified text without line breaks, decoded quantum by quantum: the result
   * is the bytes of each quantum in order, and fails as soon as one quantum fails.
   */
  function DecodeQuanta(syms: seq<Symbol>): (r: Option<seq<Byte>>)
    ensures r.Some? ==> |syms| % 4 == 0
    ensures r.Some? ==> |syms| / 4 * 3 - 2 <= |r.value| <= |syms| / 4 * 3
    decreases |syms|
  {
    if |syms| == 0 then Some([])
    else if |syms| < 4 then None
    else
      match DecodeQuantum(syms[..4], |syms| == 4)
      case None => None
      case Some(head) =>
        match DecodeQuanta(syms[4..])
        case None => None
        case Some(tail) => Some(head + tail)
  }

  /** `StdEncoding.DecodeString`: the bytes, or None where Go reports an error. */
  function DecodeString(s: string): (r: Option<seq<Byte>>)
    ensures r.Some? ==> |StripNewlines(s)| % 4 == 0
  {
    DecodeQuanta(Symbols(StripNewlines(s)))
  }

  /** Decoding undoes encoding: the encoded text of any bytes decodes to those bytes. */
  lemma DecodeEncode(data: seq<Byte>)
    ensures DecodeString(Encode(data)) == Some(data)
  {
    var s := Encode(data);
    forall i | 0 <= i < |s| ensures s[i] != '\r' && s[i] != '\n' {
      assert IsEncodingChar(s[i]);
    }
    assert Symbols(StripNewlines(s)) == EncodeSymbols(data);
    DecodeQuantaEncode(data);
  }

  lemma {:induction false} DecodeQuantaEncode(data: seq<Byte>)
    ensures DecodeQuanta(EncodeSymbols(data)) == Some(data)
    decreases |data|
  {
    if |data| == 1 {
      DecodeOneByte(data[0]);
      assert data == [data[0]];
      DecodeQuantaCons(EncodeSymbols(data), [], data, []);
      assert EncodeSymbols(data) + [] == EncodeSymbols(data) && data + [] == data;
    } else if |data| == 2 {
      DecodeTwoBytes(data[0], data[1]);
      assert data == [data[0], data[1]];
      DecodeQuantaCons(EncodeSymbols(data), [], data, []);
      assert EncodeSymbols(data) + [] == EncodeSymbols(data) && data + [] == data;
    } else if |data| >= 3 {
      var x, y, z, rest := data[0], data[1], data[2], EncodeSymbols(data[3..]);
      DecodeQuantaEncode(data[3..]);
      DecodeGroup(x, y, z);
      DecodeQuantaCons(GroupSymbols(x, y, z), rest, [x, y, z], data[3..]);
      assert data == [x, y, z] + data[3..];
    }
  }

  lemma DecodeQuantaCons(q: seq<Symbol>, rest: seq<Symbol>, head: seq<Byte>, tail: seq<Byte>)
    requires |q| == 4 && DecodeQuantum(q, rest == []) == Some(head)
    requires DecodeQuanta(rest) == Some(tail)
    ensures DecodeQuanta(q + rest) == Some(head + tail)
  {
    assert (q + rest)[..4] == q && (q + rest)[4..] == rest;
  }

  /** Two digits and "==" give the one byte back. */
  lemma DecodeOneByte(x: Byte)
    ensures DecodeQuantum([Digit(x / 4), Digit(x % 4 * 16), Pad, Pad], true) == Some([x])
  {
    var q := [Digit(x / 4), Digit(x % 4 * 16), Pad, Pad];
    assert x % 4 * 16 / 16 == x % 4;
    var bytes := QuantumBytes(x / 4, x % 4 * 16, 0, 0);
    assert bytes[0] == x;
    assert q[2] == Pad && q[3] == Pad;
    assert bytes[..1] == [x];
  }

  /** Three digits and '=' give the two bytes back. */
  lemma DecodeTwoBytes(x: Byte, y: Byte)
    ensures DecodeQuantum([Digit(x / 4), Digit(x % 4 * 16 + y / 16), Digit(y % 16 * 4), Pad], true) == Some([x, y])
  {
    var b := x % 4 * 16 + y / 16;
    assert b % 16 == y / 16 && b / 16 == x % 4;
    var q := [Digit(x / 4), Digit(b), Digit(y % 16 * 4), Pad];
    var bytes := QuantumBytes(x / 4, b, y % 16 * 4, 0);
    assert bytes[0] == x && bytes[1] == y;
    assert q[2].Digit? && q[3] == Pad;
    assert bytes[..2] == [x, y];
  }

  /** The four digits of three bytes give those bytes back. */
  lemma DecodeGroup(x: Byte, y: Byte, z: Byte)
    ensures DecodeQuantum(GroupSymbols(x, y, z), false) == Some([x, y, z])
    ensures DecodeQuantum(GroupSymbols(x, y, z), true) == Some([x, y, z])
  {
    var b, c := x % 4 * 16 + y / 16, y % 16 * 4 + z / 64;
    assert b % 16 == y / 16 && b / 16 == x % 4;
    assert c % 4 == z / 64 && c / 4 == y % 16;
  }

  /**
   * The decoder is not strict about the bits that padding leaves unused: "QR=="
   * sets one of them and still decodes, to the same byte as "QQ==".
   */
  lemma UnusedBitsIgnored()
    ensures DecodeString("QQ==") == Some([0x41])
    ensures DecodeString("QR==") == Some([0x41])
  {
    assert Classify('Q') == Digit(16) && Classify('R') == Digit(17) && Classify('=') == Pad;
    var qq, qr := [Digit(16), Digit(16), Pad, Pad], [Digit(16), Digit(17), Pad, Pad];
    assert Symbols("QQ==") == qq && Symbols("QR==") == qr;
    assert QuantumBytes(16, 16, 0, 0)[..1] == [0x41] && QuantumBytes(16, 17, 0, 0)[..1] == [0x41];
    DecodeSingleQuantum("QQ==", qq, [0x41]);
    DecodeSingleQuantum("QR==", qr, [0x41]);
  }

  lemma DecodeSingleQuantum(s: string, q: seq<Symbol>, bytes: seq<Byte>)
    requires '\r' !in s && '\n' !in s && Symbols(s) == q
    requires |q| == 4 && DecodeQuantum(q, true) == Some(bytes)
    ensures DecodeString(s) == Some(bytes)
  {
    DecodeQuantaCons(q, [], bytes, []);
    assert q + [] == q && bytes + [] == bytes;
  }

  /** A line break anywhere in the text does not change what it decodes to. */
  lemma DecodeIgnoresLineBreak(before: string, c: char, after: string)
    requires c == '\r' || c == '\n'
    ensures DecodeString(before + [c] + after) == DecodeString(before + after)
  {
    StripNewlinesConcat(before + [c], after);
    StripNewlinesConcat(before, [c]);
    StripNewlinesConcat(before, after);
    assert StripNewlines(before + [c]) == StripNewlines(before);
  }

  /** The decoder reads a text piecewise: line breaks are removed from each part separately. */
  lemma {:induction false} StripNewlinesConcat(a: string, b: string)
    ensures StripNewlines(a + b) == StripNewlines(a) + StripNewlines(b)
    decreases |a|
  {
    if |a| == 0 {
      assert a + b == b;
    } else {
      assert (a + b)[0] == a[0] && (a + b)[1..] == a[1..] + b;
      StripNewlinesConcat(a[1..], b);
    }
  }

  /** A character that is neither a digit, '=' nor a line break makes decoding fail. */
  lemma {:induction false} DecodeRejectsForeignChar(s: string, i: nat)
    requires i < |s| && !IsEncodingChar(s[i]) && s[i] != '\r' && s[i] != '\n'
    ensures DecodeString(s) == None
  {
    StripNewlinesKeeps(s, i);
    var stripped := StripNewlines(s);
    var j :| 0 <= j < |stripped| && stripped[j] == s[i];
    DecodeQuantaRejects(Symbols(stripped), j);
  }

  lemma {:induction false} StripNewlinesKeeps(s: string, i: nat)
    requires i < |s| && s[i] != '\r' && s[i] != '\n'
    ensures s[i] in StripNewlines(s)
    decreases |s|
  {
    if i > 0 {
      StripNewlinesKeeps(s[1..], i - 1);
    }
  }

  lemma {:induction false} DecodeQuantaRejects(syms: seq<Symbol>, i: nat)
    requires i < |syms| && syms[i] == Invalid
    ensures DecodeQuanta(syms) == None
    decreases |syms|
  {
    if |syms| >= 4 {
      if i < 4 {
        assert syms[..4][i] == Invalid;
      } else {
        DecodeQuantaRejects(syms[4..], i - 4);
      }
    }
  }
}
