/** Standard base64 (RFC 4648 section 4) and base16 (section 8) as Go's `encoding/base64` and
    `encoding/hex` implement them: the base64 decoder skips CR and LF and does not look at the
    unused low bits of the last symbol; the hex decoder accepts both letter cases. */
module Codec {
  import opened Text

  const PAD: byte := Ascii('=')

  // ---- base64 ------------------------------------------------------------

  function Symbol(v: int): byte
    requires 0 <= v < 64
  {
    if v < 26 then Ascii('A') + v
    else if v < 52 then Ascii('a') + (v - 26)
    else if v < 62 then Ascii('0') + (v - 52)
    else if v == 62 then Ascii('+')
    else Ascii('/')
  }

  function SymbolValue(c: byte): (r: Option<int>)
    ensures r.Some? ==> 0 <= r.value < 64 && Symbol(r.value) == c
    ensures r.None? ==> forall v :: 0 <= v < 64 ==> Symbol(v) != c
  {
    if Ascii('A') <= c <= Ascii('Z') then Some(c - Ascii('A'))
    else if Ascii('a') <= c <= Ascii('z') then Some(c - Ascii('a') + 26)
    else if Ascii('0') <= c <= Ascii('9') then Some(c - Ascii('0') + 52)
    else if c == Ascii('+') then Some(62)
    else if c == Ascii('/') then Some(63)
    else None
  }

  function Base64Encode(b: Str): (t: Str)
    ensures |t| == (|b| + 2) / 3 * 4
  {
    if b == [] then []
    else if |b| == 1 then
      [Symbol(b[0] / 4), Symbol(b[0] % 4 * 16), PAD, PAD]
    else if |b| == 2 then
      [Symbol(b[0] / 4), Symbol(b[0] % 4 * 16 + b[1] / 16), Symbol(b[1] % 16 * 4), PAD]
    else
      [Symbol(b[0] / 4), Symbol(b[0] % 4 * 16 + b[1] / 16),
       Symbol(b[1] % 16 * 4 + b[2] / 64), Symbol(b[2] % 64)] + Base64Encode(b[3..])
  }

  predicate IsNewline(c: byte) {
    c == 10 || c == 13
  }

  function DropNewlines(t: Str): Str {
    if t == [] then []
    else if IsNewline(t[0]) then DropNewlines(t[1..])
    else [t[0]] + DropNewlines(t[1..])
  }

  function DecodeQuanta(t: Str): Option<Str> {
    if t == [] then Some([])
    else if |t| < 4 then None
    else
      var v0, v1, v2, v3 := SymbolValue(t[0]), SymbolValue(t[1]), SymbolValue(t[2]), SymbolValue(t[3]);
      if v0.None? || v1.None? then None
      else
        var b0: byte := v0.value * 4 + v1.value / 16;
        if t[2] == PAD then
          if t[3] == PAD && |t| == 4 then Some([b0]) else None
        else if v2.None? then None
        else
          var b1: byte := v1.value % 16 * 16 + v2.value / 4;
          if t[3] == PAD then
            if |t| == 4 then Some([b0, b1]) else None
          else if v3.None? then None
          else
            var b2: byte := v2.value % 4 * 64 + v3.value;
            match DecodeQuanta(t[4..])
            case None => None
            case Some(rest) => Some([b0, b1, b2] + rest)
  }

  function Base64Decode(t: Str): Option<Str> {
    DecodeQuanta(DropNewlines(t))
  }

  /** The 65 characters an encoding is made of. */
  predicate InAlphabet(c: byte) {
    c == PAD || SymbolValue(c).Some?
  }

  lemma SymbolValueInverse(v: int)
    requires 0 <= v < 64
    ensures SymbolValue(Symbol(v)) == Some(v) && Symbol(v) != PAD
  {
  }

  lemma {:induction false} EncodeAlphabet(b: Str)
    ensures forall c :: c in Base64Encode(b) ==> InAlphabet(c)
  {
    if |b| >= 3 {
      EncodeAlphabet(b[3..]);
    }
  }

  lemma {:induction false} NothingToDrop(t: Str)
    requires forall c :: c in t ==> !IsNewline(c)
    ensures DropNewlines(t) == t
  {
    if t != [] {
      NothingToDrop(t[1..]);
    }
  }

  /** Three bytes are recovered from the four six-bit values they are split into. */
  lemma Regroup(b0: byte, b1: byte, b2: byte)
    ensures b0 / 4 * 4 + (b0 % 4 * 16 + b1 / 16) / 16 == b0
    ensures (b0 % 4 * 16 + b1 / 16) % 16 * 16 + (b1 % 16 * 4 + b2 / 64) / 4 == b1
    ensures (b1 % 16 * 4 + b2 / 64) % 4 * 64 + b2 % 64 == b2
  {
  }

  /** How one quantum of four symbols decodes in front of the rest. */
  lemma DecodeSymbols(t: Str, v0: int, v1: int, v2: int, v3: int)
    requires |t| >= 4 && t[2] != PAD && t[3] != PAD
    requires SymbolValue(t[0]) == Some(v0) && SymbolValue(t[1]) == Some(v1)
    requires SymbolValue(t[2]) == Some(v2) && SymbolValue(t[3]) == Some(v3)
    requires DecodeQuanta(t[4..]).Some?
    ensures DecodeQuanta(t)
         == Some([v0 * 4 + v1 / 16, v1 % 16 * 16 + v2 / 4, v2 % 4 * 64 + v3] + DecodeQuanta(t[4..]).value)
  {
    hide SymbolValue, Symbol;
  }

  lemma DecodeFullQuantum(v0: int, v1: int, v2: int, v3: int, rest: Str)
    requires 0 <= v0 < 64 && 0 <= v1 < 64 && 0 <= v2 < 64 && 0 <= v3 < 64
    requires DecodeQuanta(rest).Some?
    ensures DecodeQuanta([Symbol(v0), Symbol(v1), Symbol(v2), Symbol(v3)] + rest)
         == Some([v0 * 4 + v1 / 16, v1 % 16 * 16 + v2 / 4, v2 % 4 * 64 + v3] + DecodeQuanta(rest).value)
  {
    hide DecodeQuanta, Symbol, SymbolValue;
    SymbolValueInverse(v0);
    SymbolValueInverse(v1);
    SymbolValueInverse(v2);
    SymbolValueInverse(v3);
    var t := [Symbol(v0), Symbol(v1), Symbol(v2), Symbol(v3)] + rest;
    assert t[4..] == rest;
    DecodeSymbols(t, v0, v1, v2, v3);
  }

  /** How the two padded quanta decode. */
  lemma DecodePaddedQuantum(v0: int, v1: int, v2: int)
    requires 0 <= v0 < 64 && 0 <= v1 < 64 && 0 <= v2 < 64
    ensures DecodeQuanta([Symbol(v0), Symbol(v1), PAD, PAD]) == Some([v0 * 4 + v1 / 16])
    ensures DecodeQuanta([Symbol(v0), Symbol(v1), Symbol(v2), PAD])
         == Some([v0 * 4 + v1 / 16, v1 % 16 * 16 + v2 / 4])
  {
    SymbolValueInverse(v0);
    SymbolValueInverse(v1);
    SymbolValueInverse(v2);
    hide Symbol, SymbolValue;
  }

  lemma {:induction false} QuantaRoundTrip(b: Str)
    ensures DecodeQuanta(Base64Encode(b)) == Some(b)
  {
    hide DecodeQuanta, Base64Encode;
    if |b| >= 3 {
      QuantaRoundTrip(b[3..]);
      FullQuantum(b[0], b[1], b[2], b[3..]);
      assert [b[0], b[1], b[2]] + b[3..] == b;
    } else if |b| == 2 {
      PaddedQuantum(b[0], b[1]);
      assert b == [b[0], b[1]];
    } else if |b| == 1 {
      PaddedQuantum(b[0], 0);
      assert b == [b[0]];
    } else {
      NoQuantum();
      assert b == [];
    }
  }

  lemma NoQuantum()
    ensures DecodeQuanta(Base64Encode([])) == Some([])
  {
  }

  lemma FullQuantum(b0: byte, b1: byte, b2: byte, rest: Str)
    requires DecodeQuanta(Base64Encode(rest)) == Some(rest)
    ensures DecodeQuanta(Base64Encode([b0, b1, b2] + rest)) == Some([b0, b1, b2] + rest)
  {
    hide DecodeQuanta, Symbol;
    Regroup(b0, b1, b2);
    DecodeFullQuantum(b0 / 4, b0 % 4 * 16 + b1 / 16, b1 % 16 * 4 + b2 / 64, b2 % 64, Base64Encode(rest));
    assert ([b0, b1, b2] + rest)[3..] == rest;
  }

  lemma PaddedQuantum(b0: byte, b1: byte)
    ensures DecodeQuanta(Base64Encode([b0])) == Some([b0])
    ensures DecodeQuanta(Base64Encode([b0, b1])) == Some([b0, b1])
  {
    hide DecodeQuanta, Symbol;
    Regroup(b0, 0, 0);
    DecodePaddedQuantum(b0 / 4, b0 % 4 * 16, 0);
    Regroup(b0, b1, 0);
    DecodePaddedQuantum(b0 / 4, b0 % 4 * 16 + b1 / 16, b1 % 16 * 4);
  }

  lemma Base64RoundTrip(b: Str)
    ensures Base64Decode(Base64Encode(b)) == Some(b)
  {
    EncodeAlphabet(b);
    NothingToDrop(Base64Encode(b));
    QuantaRoundTrip(b);
  }

  // ---- what the encoding is ----------------------------------------------

  /** The alphabet of table 1 in RFC 4648, section 4. */
  lemma SymbolsAre(v: int)
    requires 0 <= v < 64
    ensures Symbol(v) == (if v < 26 then 'A' as int + v
                          else if v < 52 then 'a' as int + (v - 26)
                          else if v < 62 then '0' as int + (v - 52)
                          else if v == 62 then '+' as int
                          else '/' as int)
    ensures SymbolValue(Symbol(v)) == Some(v)
  {
  }

  /** The 24 bits of three bytes, most significant first, are the bits of four symbols; one or two bytes at
      the end are filled up with zero bits and padding characters. */
  lemma EncodeIs(b: Str)
    requires b != []
    ensures var t := Base64Encode(b);
            var b0: int, b1: int, b2: int := b[0], if |b| > 1 then b[1] else 0, if |b| > 2 then b[2] else 0;
            && |t| >= 4
            && SymbolValue(t[0]).Some? && SymbolValue(t[1]).Some?
            && (if |b| > 1 then SymbolValue(t[2]).Some? else t[2] == 0x3D)
            && (if |b| > 2 then SymbolValue(t[3]).Some? else t[3] == 0x3D)
            && b0 * 65536 + b1 * 256 + b2
               == SymbolValue(t[0]).value * 262144 + SymbolValue(t[1]).value * 4096
                  + (if |b| > 1 then SymbolValue(t[2]).value else 0) * 64
                  + (if |b| > 2 then SymbolValue(t[3]).value else 0)
            && t[4..] == if |b| > 3 then Base64Encode(b[3..]) else []
  {
    var b1, b2 := if |b| > 1 then b[1] else 0, if |b| > 2 then b[2] else 0;
    SymbolValueInverse(b[0] / 4);
    SymbolValueInverse(b[0] % 4 * 16 + b1 / 16);
    SymbolValueInverse(b1 % 16 * 4 + b2 / 64);
    SymbolValueInverse(b2 % 64);
    hide Symbol, SymbolValue;
  }

  // ---- what decodes ------------------------------------------------------

  /** A CR or LF anywhere in the text makes no difference. */
  lemma {:induction false} NewlineDropped(a: Str, c: byte, b: Str)
    requires c == 10 || c == 13
    ensures DropNewlines(a + [c] + b) == DropNewlines(a + b)
  {
    if a == [] {
      assert a + [c] + b == [c] + b && a + b == b;
    } else {
      assert (a + [c] + b)[1..] == a[1..] + [c] + b && (a + b)[1..] == a[1..] + b;
      NewlineDropped(a[1..], c, b);
    }
  }

  lemma DecodeSkipsNewlines(a: Str, c: byte, b: Str)
    requires c == 10 || c == 13
    ensures Base64Decode(a + [c] + b) == Base64Decode(a + b)
  {
    NewlineDropped(a, c, b);
  }

  predicate Coded(c: byte) {
    SymbolValue(c).Some?
  }

  /** Groups of four symbols, the last of which may end in one or two padding characters. */
  ghost predicate WellFormed(t: Str) {
    && |t| % 4 == 0
    && (forall i :: 0 <= i < |t| - 2 ==> Coded(t[i]))
    && (t != [] ==> (Coded(t[|t| - 2]) && (Coded(t[|t| - 1]) || t[|t| - 1] == 0x3D))
                    || (t[|t| - 2] == 0x3D && t[|t| - 1] == 0x3D))
  }

  lemma PadNotCoded()
    ensures !Coded(0x3D) && PAD == 0x3D
  {
  }

  lemma WellFormedTail(t: Str)
    requires |t| > 4
    ensures WellFormed(t) <==> Coded(t[0]) && Coded(t[1]) && Coded(t[2]) && Coded(t[3]) && WellFormed(t[4..])
  {
    hide Coded;
    var u := t[4..];
    assert forall i :: 4 <= i < |t| ==> t[i] == u[i - 4];
    if Coded(t[0]) && Coded(t[1]) && Coded(t[2]) && Coded(t[3]) && WellFormed(u) {
      forall i | 0 <= i < |t| - 2
        ensures Coded(t[i])
      {
        assert i < 4 ==> t[i] in [t[0], t[1], t[2], t[3]];
      }
    }
    if WellFormed(t) {
      forall i | 0 <= i < |u| - 2
        ensures Coded(u[i])
      {
        assert u[i] == t[i + 4];
      }
    }
  }

  /** Once CR and LF are left out, exactly the well-formed texts decode; the unused low bits of the last
      symbol may be anything. */
  lemma {:induction false} DecodesExactly(t: Str)
    ensures DecodeQuanta(t).Some? <==> WellFormed(t)
    decreases |t|
  {
    PadNotCoded();
    hide SymbolValue;
    if |t| > 4 {
      WellFormedTail(t);
      DecodesExactly(t[4..]);
    }
  }

  lemma DecodeAccepts(t: Str)
    ensures Base64Decode(t).Some? <==> WellFormed(DropNewlines(t))
  {
    DecodesExactly(DropNewlines(t));
  }

  // ---- base16 ------------------------------------------------------------

  function HexDigit(v: int): byte
    requires 0 <= v < 16
  {
    if v < 10 then Ascii('0') + v else Ascii('a') + (v - 10)
  }

  function HexValue(c: byte): (r: Option<int>)
    ensures r.Some? ==> 0 <= r.value < 16
  {
    if Ascii('0') <= c <= Ascii('9') then Some(c - Ascii('0'))
    else if Ascii('a') <= c <= Ascii('f') then Some(c - Ascii('a') + 10)
    else if Ascii('A') <= c <= Ascii('F') then Some(c - Ascii('A') + 10)
    else None
  }

  function HexEncode(b: Str): (t: Str)
    ensures |t| == 2 * |b|
    ensures forall c :: c in t ==> HexValue(c).Some?
  {
    if b == [] then [] else [HexDigit(b[0] / 16), HexDigit(b[0] % 16)] + HexEncode(b[1..])
  }

  function HexDecode(t: Str): Option<Str> {
    if t == [] then Some([])
    else if |t| == 1 || HexValue(t[0]).None? || HexValue(t[1]).None? then None
    else
      match HexDecode(t[2..])
      case None => None
      case Some(rest) => Some([HexValue(t[0]).value * 16 + HexValue(t[1]).value] + rest)
  }

  lemma {:induction false} HexRoundTrip(b: Str)
    ensures HexDecode(HexEncode(b)) == Some(b)
  {
    if b != [] {
      HexRoundTrip(b[1..]);
      assert HexEncode(b)[2..] == HexEncode(b[1..]);
      assert HexValue(HexDigit(b[0] / 16)).value * 16 + HexValue(HexDigit(b[0] % 16)).value == b[0];
      assert [b[0]] + b[1..] == b;
    }
  }

  lemma {:induction false} HexEncodeJoin(a: Str, b: Str)
    ensures HexEncode(a + b) == HexEncode(a) + HexEncode(b)
  {
    if a == [] {
      assert a + b == b;
    } else {
      HexEncodeFirst(a);
      HexEncodeFirst(a + b);
      hide HexEncode, HexDigit;
      HexEncodeJoin(a[1..], b);
      assert (a + b)[1..] == a[1..] + b;
    }
  }

  lemma HexEncodeFirst(b: Str)
    requires b != []
    ensures HexEncode(b) == [HexDigit(b[0] / 16), HexDigit(b[0] % 16)] + HexEncode(b[1..])
  {
  }

  /** Hex text sorts like the bytes it stands for. */
  lemma {:induction false} HexOrder(a: Str, b: Str)
    requires |a| == |b|
    ensures StrLess(HexEncode(a), HexEncode(b)) <==> StrLess(a, b)
  {
    if a != [] {
      var x, y := HexEncode(a), HexEncode(b);
      assert x[1..][1..] == HexEncode(a[1..]) && y[1..][1..] == HexEncode(b[1..]);
      HexOrder(a[1..], b[1..]);
      hide HexEncode;
      assert StrLess(x, y) <==> x[0] < y[0] || (x[0] == y[0] && StrLess(x[1..], y[1..]));
      assert StrLess(x[1..], y[1..]) <==> x[1] < y[1] || (x[1] == y[1] && StrLess(x[1..][1..], y[1..][1..]));
    }
  }

  /** Byte `i` becomes two lower-case digits, the high half first. */
  lemma {:induction false} HexEncodeAt(b: Str, i: nat)
    requires i < |b|
    ensures var t := HexEncode(b);
            var hi, lo := b[i] / 16, b[i] % 16;
            && t[2 * i] == (if hi < 10 then '0' as int + hi else 'a' as int + (hi - 10))
            && t[2 * i + 1] == (if lo < 10 then '0' as int + lo else 'a' as int + (lo - 10))
  {
    if i > 0 {
      HexEncodeAt(b[1..], i - 1);
    }
  }

  /** The value of a hex digit of either case. */
  lemma HexValueIs(c: byte)
    ensures HexValue(c) == (if '0' as int <= c <= '9' as int then Some(c - '0' as int)
                            else if 'a' as int <= c <= 'f' as int then Some(c - 'a' as int + 10)
                            else if 'A' as int <= c <= 'F' as int then Some(c - 'A' as int + 10)
                            else None)
  {
  }

  predicate HexChar(c: byte) {
    '0' as int <= c <= '9' as int || 'a' as int <= c <= 'f' as int || 'A' as int <= c <= 'F' as int
  }

  /** Exactly the texts of even length made of digits and letters a to f, in either case, decode. */
  lemma {:induction false} HexDecodesExactly(t: Str)
    ensures HexDecode(t).Some? <==> |t| % 2 == 0 && forall i :: 0 <= i < |t| ==> HexChar(t[i])
    ensures HexDecode(t).Some? ==> |t| == 2 * |HexDecode(t).value|
    decreases |t|
  {
    if |t| >= 2 {
      HexDecodesExactly(t[2..]);
      assert forall i :: 2 <= i < |t| ==> t[i] == t[2..][i - 2];
      if HexDecode(t).Some? {
        forall i | 0 <= i < |t|
          ensures HexChar(t[i])
        {
          assert i >= 2 ==> HexChar(t[2..][i - 2]);
        }
      }
    }
  }

  lemma {:induction false} HexDecodeAt(t: Str, i: nat)
    requires HexDecode(t).Some? && i < |HexDecode(t).value|
    ensures 2 * i + 1 < |t| && HexValue(t[2 * i]).Some? && HexValue(t[2 * i + 1]).Some?
    ensures HexDecode(t).value[i] == HexValue(t[2 * i]).value * 16 + HexValue(t[2 * i + 1]).value
    decreases i
  {
    if i > 0 {
      HexDecodeAt(t[2..], i - 1);
    }
  }
}
