/**
 * Go's `base64.StdEncoding.DecodeString`: the standard alphabet of
 * section 4 of RFC 4648, with padding required.  Go skips carriage
 * returns and line feeds wherever they occur, rejects every other
 * character outside the alphabet, accepts `=` only as the padding of the
 * last quantum, and (the encoding not being strict) ignores the unused
 * low bits of a padded quantum.
 */
module Base64 {
  import opened Wrappers

  /** Go's `byte`. */
  type byte = b: int | 0 <= b < 256

  const Pad: char := '='

  /** The 64 characters of the standard alphabet. */
  predicate IsAlphabet(c: char)
  {
    'A' <= c <= 'Z' || 'a' <= c <= 'z' || '0' <= c <= '9' || c == '+' || c == '/'
  }

  /** Value of an alphabet character (Go's decode map). */
  function ValueOf(c: char): (v: int)
    requires IsAlphabet(c)
    ensures 0 <= v < 64
  {
    if 'A' <= c <= 'Z' then c as int - 'A' as int
    else if 'a' <= c <= 'z' then c as int - 'a' as int + 26
    else if '0' <= c <= '9' then c as int - '0' as int + 52
    else if c == '+' then 62
    else 63
  }

  /** Alphabet character of a 6-bit value (Go's encode table); inverse of ValueOf. */
  function CharOf(v: int): (c: char)
    requires 0 <= v < 64
    ensures IsAlphabet(c) && ValueOf(c) == v
  {
    if v < 26 then ('A' as int + v) as char
    else if v < 52 then ('a' as int + v - 26) as char
    else if v < 62 then ('0' as int + v - 52) as char
    else if v == 62 then '+'
    else '/'
  }

  /** ValueOf and CharOf are inverse in the other direction too. */
  lemma CharOfValueOf(c: char)
    requires IsAlphabet(c)
    ensures CharOf(ValueOf(c)) == c
  {
  }

  predicate IsNewline(c: char)
  {
    c == '\n' || c == '\r'
  }

  /** The input with every carriage return and line feed removed. */
  function StripNewlines(s: string): (r: string)
    ensures |r| <= |s|
    ensures forall i :: 0 <= i < |r| ==> !IsNewline(r[i])
    decreases |s|
  {
    if s == [] then []
    else if IsNewline(s[0]) then StripNewlines(s[1..])
    else [s[0]] + StripNewlines(s[1..])
  }

  /**
   * The shape Go accepts once line breaks are gone: whole quanta of four
   * characters, all in the alphabet except that the last quantum may end
   * in `=` or `==`.
   */
  predicate WellFormed(s: string)
  {
    |s| % 4 == 0 &&
    (forall i :: 0 <= i < |s| - 2 ==> IsAlphabet(s[i])) &&
    (|s| > 0 ==> IsAlphabet(s[|s| - 2]) || (s[|s| - 2] == Pad && s[|s| - 1] == Pad)) &&
    (|s| > 0 ==> IsAlphabet(s[|s| - 1]) || s[|s| - 1] == Pad)
  }

  /** Number of padding characters that end a well-formed text. */
  function PadCount(s: string): nat
  {
    if |s| >= 2 && s[|s| - 2] == Pad then 2
    else if |s| >= 1 && s[|s| - 1] == Pad then 1
    else 0
  }

  /** The three bytes carried by four 6-bit values. */
  function Triple(a: int, b: int, c: int, d: int): (r: seq<byte>)
    requires 0 <= a < 64 && 0 <= b < 64 && 0 <= c < 64 && 0 <= d < 64
    ensures |r| == 3
  {
    [a * 4 + b / 16, (b % 16) * 16 + c / 4, (c % 4) * 64 + d]
  }

  predicate AllAlphabet(q: string)
  {
    forall i :: 0 <= i < |q| ==> IsAlphabet(q[i])
  }

  /**
   * Decoding of a text without line breaks: quantum by quantum, where a
   * final `abc=` yields two bytes and a final `ab==` one byte.
   */
  function DecodeStripped(s: string): (r: Option<seq<byte>>)
    ensures r.Some? <==> WellFormed(s)
    decreases |s|
  {
    if |s| == 0 then Some([])
    else if |s| < 4 then None
    else if AllAlphabet(s[..4]) then
      var q := Triple(ValueOf(s[0]), ValueOf(s[1]), ValueOf(s[2]), ValueOf(s[3]));
      match DecodeStripped(s[4..])
      case None =>
        WellFormedTail(s);
        None
      case Some(rest) =>
        WellFormedTail(s);
        Some(q + rest)
    else if |s| == 4 && IsAlphabet(s[0]) && IsAlphabet(s[1]) && IsAlphabet(s[2]) && s[3] == Pad then
      Some(Triple(ValueOf(s[0]), ValueOf(s[1]), ValueOf(s[2]), 0)[..2])
    else if |s| == 4 && IsAlphabet(s[0]) && IsAlphabet(s[1]) && s[2] == Pad && s[3] == Pad then
      Some(Triple(ValueOf(s[0]), ValueOf(s[1]), 0, 0)[..1])
    else
      assert !WellFormed(s) by {
        if |s| > 4 {
          var i :| 0 <= i < 4 && !IsAlphabet(s[..4][i]);
          assert s[..4][i] == s[i];
        }
      }
      None
  }

  /** After a full quantum, the text is well formed exactly when the rest is. */
  lemma WellFormedTail(s: string)
    requires |s| >= 4 && AllAlphabet(s[..4])
    ensures WellFormed(s) <==> WellFormed(s[4..])
  {
    var t := s[4..];
    if WellFormed(s) {
      forall i | 0 <= i < |t| - 2 ensures IsAlphabet(t[i]) {
        assert t[i] == s[i + 4];
      }
    }
    if WellFormed(t) {
      forall i | 0 <= i < |s| - 2 ensures IsAlphabet(s[i]) {
        if i >= 4 {
          assert s[i] == t[i - 4];
        } else {
          assert s[i] == s[..4][i];
        }
      }
    }
  }

  /** base64.StdEncoding.DecodeString; None stands for Go's CorruptInputError. */
  function Decode(s: string): (r: Option<seq<byte>>)
    ensures r.Some? <==> WellFormed(StripNewlines(s))
  {
    DecodeStripped(StripNewlines(s))
  }

  /** The four characters that carry three bytes. */
  function Quantum(x: byte, y: byte, z: byte): (r: string)
    ensures |r| == 4 && AllAlphabet(r)
  {
    [CharOf(x / 4), CharOf((x % 4) * 16 + y / 16), CharOf((y % 16) * 4 + z / 64), CharOf(z % 64)]
  }

  /**
   * base64.StdEncoding.EncodeToString: three bytes per quantum; one or two
   * bytes left over make a last quantum padded with `==` or `=`.
   */
  function Encode(b: seq<byte>): string
    decreases |b|
  {
    if |b| == 0 then []
    else if |b| == 1 then Quantum(b[0], 0, 0)[..2] + [Pad, Pad]
    else if |b| == 2 then Quantum(b[0], b[1], 0)[..3] + [Pad]
    else Quantum(b[0], b[1], b[2]) + Encode(b[3..])
  }

  /** Splitting three bytes into four 6-bit values and joining them again is the identity. */
  lemma TripleOfBytes(x: byte, y: byte, z: byte)
    ensures Triple(x / 4, (x % 4) * 16 + y / 16, (y % 16) * 4 + z / 64, z % 64) == [x, y, z]
  {
  }

  /** The four characters of three bytes carry those bytes back. */
  lemma TripleOfQuantum(x: byte, y: byte, z: byte)
    ensures var q := Quantum(x, y, z);
      Triple(ValueOf(q[0]), ValueOf(q[1]), ValueOf(q[2]), ValueOf(q[3])) == [x, y, z]
  {
    var q := Quantum(x, y, z);
    var a, b, c, d := x / 4, (x % 4) * 16 + y / 16, (y % 16) * 4 + z / 64, z % 64;
    assert q == [CharOf(a), CharOf(b), CharOf(c), CharOf(d)];
    assert ValueOf(q[0]) == a && ValueOf(q[1]) == b && ValueOf(q[2]) == c && ValueOf(q[3]) == d;
    TripleOfBytes(x, y, z);
  }

  /** The three bytes of four 6-bit values encode to the characters of those values. */
  lemma QuantumOfTriple(a: int, b: int, c: int, d: int)
    requires 0 <= a < 64 && 0 <= b < 64 && 0 <= c < 64 && 0 <= d < 64
    ensures var t := Triple(a, b, c, d);
      Quantum(t[0], t[1], t[2]) == [CharOf(a), CharOf(b), CharOf(c), CharOf(d)]
  {
    var t := Triple(a, b, c, d);
    assert t[0] / 4 == a && (t[0] % 4) * 16 + t[1] / 16 == b;
    assert (t[1] % 16) * 4 + t[2] / 64 == c && t[2] % 64 == d;
  }

  /** An encoding holds no line break, so Go's newline skipping leaves it alone. */
  lemma {:induction false} StripNewlinesOfEncoding(s: string)
    requires forall i :: 0 <= i < |s| ==> IsAlphabet(s[i]) || s[i] == Pad
    ensures StripNewlines(s) == s
    decreases |s|
  {
    if s != [] {
      StripNewlinesOfEncoding(s[1..]);
      assert [s[0]] + s[1..] == s;
    }
  }

  /** Four alphabet characters decode to the three bytes their values carry. */
  lemma DecodeFull(s: string)
    requires |s| == 4 && AllAlphabet(s)
    ensures DecodeStripped(s) == Some(Triple(ValueOf(s[0]), ValueOf(s[1]), ValueOf(s[2]), ValueOf(s[3])))
  {
    assert s[..4] == s && s[4..] == [];
    var q := Triple(ValueOf(s[0]), ValueOf(s[1]), ValueOf(s[2]), ValueOf(s[3]));
    assert q + [] == q;
  }

  /** A last quantum `abc=` decodes to two bytes. */
  lemma DecodeOnePad(s: string)
    requires |s| == 4 && IsAlphabet(s[0]) && IsAlphabet(s[1]) && IsAlphabet(s[2]) && s[3] == Pad
    ensures DecodeStripped(s) == Some(Triple(ValueOf(s[0]), ValueOf(s[1]), ValueOf(s[2]), 0)[..2])
  {
    assert !AllAlphabet(s[..4]) by { assert !IsAlphabet(s[..4][3]); }
  }

  /** A last quantum `ab==` decodes to one byte. */
  lemma DecodeTwoPads(s: string)
    requires |s| == 4 && IsAlphabet(s[0]) && IsAlphabet(s[1]) && s[2] == Pad && s[3] == Pad
    ensures DecodeStripped(s) == Some(Triple(ValueOf(s[0]), ValueOf(s[1]), 0, 0)[..1])
  {
    assert !AllAlphabet(s[..4]) by { assert !IsAlphabet(s[..4][3]); }
  }

  /** A full quantum in front of a text decodes to its three bytes in front of the rest. */
  lemma DecodeStrippedAppend(h: string, t: string)
    requires |h| == 4 && AllAlphabet(h)
    ensures DecodeStripped(t).None? ==> DecodeStripped(h + t).None?
    ensures DecodeStripped(t).Some? ==>
      DecodeStripped(h + t) == Some(DecodeStripped(h).value + DecodeStripped(t).value)
  {
    var s := h + t;
    assert s[..4] == h && s[4..] == t;
    assert AllAlphabet(s[..4]);
    assert s[0] == h[0] && s[1] == h[1] && s[2] == h[2] && s[3] == h[3];
    DecodeFull(h);
  }

  /** One byte encodes to `ab==`, which decodes back to it. */
  lemma DecodeEncodeOne(x: byte)
    ensures DecodeStripped(Encode([x])) == Some([x])
  {
    var s, q := Encode([x]), Quantum(x, 0, 0);
    assert s == [q[0], q[1], Pad, Pad];
    DecodeTwoPads(s);
    TripleOfQuantum(x, 0, 0);
    var t, u := Triple(ValueOf(q[0]), ValueOf(q[1]), 0, 0), Triple(ValueOf(q[0]), ValueOf(q[1]), ValueOf(q[2]), ValueOf(q[3]));
    assert t[0] == u[0];
    assert t[..1] == [x];
  }

  /** Two bytes encode to `abc=`, which decodes back to them. */
  lemma DecodeEncodeTwo(x: byte, y: byte)
    ensures DecodeStripped(Encode([x, y])) == Some([x, y])
  {
    var s, q := Encode([x, y]), Quantum(x, y, 0);
    assert s == [q[0], q[1], q[2], Pad];
    DecodeOnePad(s);
    TripleOfQuantum(x, y, 0);
    var t, u := Triple(ValueOf(q[0]), ValueOf(q[1]), ValueOf(q[2]), 0), Triple(ValueOf(q[0]), ValueOf(q[1]), ValueOf(q[2]), ValueOf(q[3]));
    assert t[0] == u[0] && t[1] == u[1];
    assert t[..2] == [x, y];
  }

  /** Three bytes encode to four alphabet characters, which decode back to them. */
  lemma DecodeEncodeThree(x: byte, y: byte, z: byte)
    ensures DecodeStripped(Quantum(x, y, z)) == Some([x, y, z])
  {
    DecodeFull(Quantum(x, y, z));
    TripleOfQuantum(x, y, z);
  }

  /** An encoding is made of alphabet characters and padding, four per three bytes. */
  lemma {:induction false} EncodeShape(b: seq<byte>)
    ensures |Encode(b)| == (|b| + 2) / 3 * 4
    ensures forall i :: 0 <= i < |Encode(b)| ==> IsAlphabet(Encode(b)[i]) || Encode(b)[i] == Pad
    decreases |b|
  {
    if |b| >= 3 {
      EncodeShape(b[3..]);
      EncodeCons(b);
      QuantumThenRest(Quantum(b[0], b[1], b[2]), Encode(b[3..]));
    } else if |b| > 0 {
      EncodeLastShape(b);
    }
  }

  /** One or two bytes left over encode to one padded quantum. */
  lemma EncodeLastShape(b: seq<byte>)
    requires 1 <= |b| <= 2
    ensures |Encode(b)| == 4
    ensures forall i :: 0 <= i < 4 ==> IsAlphabet(Encode(b)[i]) || Encode(b)[i] == Pad
  {
    var q := if |b| == 1 then Quantum(b[0], 0, 0) else Quantum(b[0], b[1], 0);
    assert IsAlphabet(q[0]) && IsAlphabet(q[1]) && IsAlphabet(q[2]);
  }

  /** A quantum followed by an encoding of alphabet or pad characters is one too. */
  lemma QuantumThenRest(q: string, e: string)
    requires |q| == 4 && AllAlphabet(q)
    requires forall i :: 0 <= i < |e| ==> IsAlphabet(e[i]) || e[i] == Pad
    ensures forall i :: 0 <= i < |q + e| ==> IsAlphabet((q + e)[i]) || (q + e)[i] == Pad
  {
    forall i | 0 <= i < |q + e| ensures IsAlphabet((q + e)[i]) || (q + e)[i] == Pad {
      if i >= 4 {
        assert (q + e)[i] == e[i - 4];
      }
    }
  }

  /** Encoding three bytes or more starts with the quantum of the first three. */
  lemma EncodeCons(b: seq<byte>)
    requires |b| >= 3
    ensures Encode(b) == Quantum(b[0], b[1], b[2]) + Encode(b[3..])
  {
  }

  /** A byte string of three bytes or more is its first three bytes followed by the rest. */
  lemma FirstThree(b: seq<byte>)
    requires |b| >= 3
    ensures [b[0], b[1], b[2]] + b[3..] == b
  {
  }

  /** A full quantum in front keeps the decode-encode round trip. */
  lemma DecodeEncodeCons(b: seq<byte>)
    requires |b| >= 3 && DecodeStripped(Encode(b[3..])) == Some(b[3..])
    ensures DecodeStripped(Encode(b)) == Some(b)
  {
    var rest := b[3..];
    var head := [b[0], b[1], b[2]];
    FirstThree(b);
    var q, e := Quantum(b[0], b[1], b[2]), Encode(rest);
    EncodeCons(b);
    assert Encode(b) == q + e;
    DecodeEncodeThree(b[0], b[1], b[2]);
    assert DecodeStripped(q) == Some(head);
    assert DecodeStripped(e) == Some(rest);
    DecodeStrippedAppend(q, e);
    assert DecodeStripped(q + e) == Some(head + rest);
  }

  /** Decoding undoes encoding (the line-break-free part). */
  lemma {:induction false} DecodeStrippedEncode(b: seq<byte>)
    ensures DecodeStripped(Encode(b)) == Some(b)
    decreases |b|
  {
    if |b| == 1 {
      DecodeEncodeOne(b[0]);
      assert b == [b[0]];
    } else if |b| == 2 {
      DecodeEncodeTwo(b[0], b[1]);
      assert b == [b[0], b[1]];
    } else if |b| >= 3 {
      DecodeStrippedEncode(b[3..]);
      DecodeEncodeCons(b);
    }
  }

  /** Round trip: every byte string survives encoding followed by Go's decoder. */
  lemma DecodeEncode(b: seq<byte>)
    ensures Decode(Encode(b)) == Some(b)
  {
    EncodeShape(b);
    StripNewlinesOfEncoding(Encode(b));
    DecodeStrippedEncode(b);
  }

  /** The low bits that a padded last quantum leaves unused are zero. */
  predicate CanonicalPadding(s: string)
    requires WellFormed(s)
  {
    |s| == 0 ||
    ((PadCount(s) == 2 ==> ValueOf(s[|s| - 3]) % 16 == 0) &&
     (PadCount(s) == 1 ==> ValueOf(s[|s| - 2]) % 4 == 0))
  }

  /** Three bytes made from four 6-bit values encode to the characters of those values. */
  lemma EncodeTripleFull(a: int, b: int, c: int, d: int)
    requires 0 <= a < 64 && 0 <= b < 64 && 0 <= c < 64 && 0 <= d < 64
    ensures Encode(Triple(a, b, c, d)) == [CharOf(a), CharOf(b), CharOf(c), CharOf(d)]
  {
    var t := Triple(a, b, c, d);
    EncodeCons(t);
    assert Encode(t[3..]) == [];
    QuantumOfTriple(a, b, c, d);
  }

  /** Two bytes made from three 6-bit values, the last with zero low bits, encode with one pad. */
  lemma EncodeTripleOnePad(a: int, b: int, c: int)
    requires 0 <= a < 64 && 0 <= b < 64 && 0 <= c < 64 && c % 4 == 0
    ensures Encode(Triple(a, b, c, 0)[..2]) == [CharOf(a), CharOf(b), CharOf(c), Pad]
  {
    var t := Triple(a, b, c, 0);
    assert Encode(t[..2]) == Quantum(t[0], t[1], 0)[..3] + [Pad];
    assert Quantum(t[0], t[1], 0) == Quantum(t[0], t[1], t[2]) by {
      assert t[2] / 64 == 0;
    }
    QuantumOfTriple(a, b, c, 0);
  }

  /** One byte made from two 6-bit values, the second with zero low bits, encodes with two pads. */
  lemma EncodeTripleTwoPads(a: int, b: int)
    requires 0 <= a < 64 && 0 <= b < 64 && b % 16 == 0
    ensures Encode(Triple(a, b, 0, 0)[..1]) == [CharOf(a), CharOf(b), Pad, Pad]
  {
    var t := Triple(a, b, 0, 0);
    assert Encode(t[..1]) == Quantum(t[0], 0, 0)[..2] + [Pad, Pad];
    assert Quantum(t[0], 0, 0)[..2] == Quantum(t[0], t[1], t[2])[..2] by {
      assert t[1] / 16 == 0;
    }
    QuantumOfTriple(a, b, 0, 0);
  }

  /** A last quantum of four alphabet characters re-encodes to itself. */
  lemma EncodeDecodeFull(s: string)
    requires |s| == 4 && AllAlphabet(s)
    ensures Encode(DecodeStripped(s).value) == s
  {
    DecodeFull(s);
    EncodeTripleFull(ValueOf(s[0]), ValueOf(s[1]), ValueOf(s[2]), ValueOf(s[3]));
    CharOfValueOf(s[0]);
    CharOfValueOf(s[1]);
    CharOfValueOf(s[2]);
    CharOfValueOf(s[3]);
    assert s == [s[0], s[1], s[2], s[3]];
  }

  /** A last quantum `abc=` with zero unused bits re-encodes to itself. */
  lemma EncodeDecodeOnePad(s: string)
    requires |s| == 4 && IsAlphabet(s[0]) && IsAlphabet(s[1]) && IsAlphabet(s[2]) && s[3] == Pad
    requires ValueOf(s[2]) % 4 == 0
    ensures Encode(DecodeStripped(s).value) == s
  {
    DecodeOnePad(s);
    EncodeTripleOnePad(ValueOf(s[0]), ValueOf(s[1]), ValueOf(s[2]));
    CharOfValueOf(s[0]);
    CharOfValueOf(s[1]);
    CharOfValueOf(s[2]);
    assert s == [s[0], s[1], s[2], Pad];
  }

  /** A last quantum `ab==` with zero unused bits re-encodes to itself. */
  lemma EncodeDecodeTwoPads(s: string)
    requires |s| == 4 && IsAlphabet(s[0]) && IsAlphabet(s[1]) && s[2] == Pad && s[3] == Pad
    requires ValueOf(s[1]) % 16 == 0
    ensures Encode(DecodeStripped(s).value) == s
  {
    DecodeTwoPads(s);
    EncodeTripleTwoPads(ValueOf(s[0]), ValueOf(s[1]));
    CharOfValueOf(s[0]);
    CharOfValueOf(s[1]);
    assert s == [s[0], s[1], Pad, Pad];
  }

  /** The last quantum of a text with canonical padding re-encodes to itself. */
  lemma EncodeDecodeLast(s: string)
    requires |s| == 4 && WellFormed(s) && CanonicalPadding(s)
    ensures Encode(DecodeStripped(s).value) == s
  {
    if IsAlphabet(s[3]) {
      assert AllAlphabet(s);
      EncodeDecodeFull(s);
    } else if IsAlphabet(s[2]) {
      EncodeDecodeOnePad(s);
    } else {
      EncodeDecodeTwoPads(s);
    }
  }

  /** Canonical padding is a property of the last quantum, which the tail keeps. */
  lemma CanonicalPaddingTail(s: string)
    requires |s| > 4 && AllAlphabet(s[..4]) && WellFormed(s) && CanonicalPadding(s)
    ensures WellFormed(s[4..]) && CanonicalPadding(s[4..])
  {
    WellFormedTail(s);
    var t := s[4..];
    assert t[|t| - 3] == s[|s| - 3] && t[|t| - 2] == s[|s| - 2] && t[|t| - 1] == s[|s| - 1];
  }

  /** A leading full quantum contributes its three bytes ahead of the rest. */
  lemma DecodeStrippedCons(s: string)
    requires |s| > 4 && AllAlphabet(s[..4]) && WellFormed(s)
    ensures WellFormed(s[..4]) && WellFormed(s[4..])
    ensures DecodeStripped(s).value == DecodeStripped(s[..4]).value + DecodeStripped(s[4..]).value
  {
    WellFormedTail(s);
    var h := s[..4];
    assert h[..4] == h && h[4..] == [];
    assert DecodeStripped(h).value == Triple(ValueOf(h[0]), ValueOf(h[1]), ValueOf(h[2]), ValueOf(h[3])) + [];
  }

  /** Encoding works three bytes at a time. */
  lemma EncodeAppend(q: seq<byte>, rest: seq<byte>)
    requires |q| == 3
    ensures Encode(q + rest) == Encode(q) + Encode(rest)
  {
    assert (q + rest)[3..] == rest;
    assert q[3..] == [];
    assert (q + rest)[..3] == q;
  }

  /**
   * Round trip the other way: a well-formed text whose unused padding bits
   * are zero is exactly the encoding of what it decodes to.
   */
  lemma {:induction false} EncodeDecodeStripped(s: string)
    requires WellFormed(s) && CanonicalPadding(s)
    ensures Encode(DecodeStripped(s).value) == s
    decreases |s|
  {
    if |s| == 4 {
      EncodeDecodeLast(s);
    } else if |s| > 4 {
      var h, t := s[..4], s[4..];
      assert AllAlphabet(h) by {
        forall i | 0 <= i < 4 ensures IsAlphabet(h[i]) {
          assert h[i] == s[i];
        }
      }
      DecodeStrippedCons(s);
      EncodeDecodeFull(h);
      CanonicalPaddingTail(s);
      EncodeDecodeStripped(t);
      EncodeAppend(DecodeStripped(h).value, DecodeStripped(t).value);
      assert s == h + t;
    }
  }

  /**
   * Go's decoder is not strict: the low four bits of the second character
   * of a quantum `ab==` are ignored, so for instance "QR==" decodes like
   * "QQ==", to the single byte 'A'.
   */
  lemma PaddingBitsIgnored(c0: char, c1: char, d1: char)
    requires IsAlphabet(c0) && IsAlphabet(c1) && IsAlphabet(d1)
    requires ValueOf(c1) / 16 == ValueOf(d1) / 16
    ensures Decode([c0, c1, Pad, Pad]) == Decode([c0, d1, Pad, Pad])
  {
    var s, t := [c0, c1, Pad, Pad], [c0, d1, Pad, Pad];
    StripNewlinesOfEncoding(s);
    StripNewlinesOfEncoding(t);
    DecodeTwoPads(s);
    DecodeTwoPads(t);
    assert Triple(ValueOf(c0), ValueOf(c1), 0, 0)[..1] == Triple(ValueOf(c0), ValueOf(d1), 0, 0)[..1];
  }

  /**
   * Likewise for a last quantum `abc=`: the low two bits of the third
   * character are ignored, so for instance "QUF=" decodes like "QUE=", to
   * the two bytes 'A' 'A'.
   */
  lemma PaddingBitsIgnoredOnePad(c0: char, c1: char, c2: char, d2: char)
    requires IsAlphabet(c0) && IsAlphabet(c1) && IsAlphabet(c2) && IsAlphabet(d2)
    requires ValueOf(c2) / 4 == ValueOf(d2) / 4
    ensures Decode([c0, c1, c2, Pad]) == Decode([c0, c1, d2, Pad])
  {
    var s, t := [c0, c1, c2, Pad], [c0, c1, d2, Pad];
    StripNewlinesOfEncoding(s);
    StripNewlinesOfEncoding(t);
    DecodeOnePad(s);
    DecodeOnePad(t);
    assert Triple(ValueOf(c0), ValueOf(c1), ValueOf(c2), 0)[..2]
      == Triple(ValueOf(c0), ValueOf(c1), ValueOf(d2), 0)[..2];
  }
}
