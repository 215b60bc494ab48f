/** Decoding of percent-encoded text (section 2.1 of RFC 3986), also in place. */
module UriDecode {
  import opened Bits
  import opened CStrings

  const PERCENT: byte := 0x25

  predicate IsDigit(c: byte) {
    0x30 <= c <= 0x39
  }

  predicate IsLowerHex(c: byte) {
    0x61 <= c <= 0x66
  }

  predicate IsUpperHex(c: byte) {
    0x41 <= c <= 0x46
  }

  predicate IsHex(c: byte) {
    IsDigit(c) || IsLowerHex(c) || IsUpperHex(c)
  }

  function HexValue(c: byte): (v: nat)
    requires IsHex(c)
    ensures v < 16
  {
    if IsDigit(c) then c - 0x30 else if IsLowerHex(c) then c - 0x61 + 10 else c - 0x41 + 10
  }

  /** What decoding makes of `s`. A `%` that two hexadecimal digits do not follow
      is copied, together with what follows up to the first other character; one
      that the text ends before completing is dropped. */
  function Decoded(s: seq<byte>): (d: seq<byte>)
    ensures |d| <= |s|
  {
    if s == [] then []
    else if s[0] != PERCENT then [s[0]] + Decoded(s[1..])
    else if |s| == 1 then []
    else if !IsHex(s[1]) then s[..2] + Decoded(s[2..])
    else if |s| == 2 then []
    else if !IsHex(s[2]) then s[..3] + Decoded(s[3..])
    else [16 * HexValue(s[1]) + HexValue(s[2])] + Decoded(s[3..])
  }

  // ---- decoding undoes encoding -----------------------------------------

  /** `e` spells `plain`, with any of its bytes written as escapes. */
  predicate Encodes(e: seq<byte>, plain: seq<byte>) {
    if plain == [] then e == []
    else if e == [] then false
    else if e[0] != PERCENT then e[0] == plain[0] && Encodes(e[1..], plain[1..])
    else
      && 3 <= |e| && IsHex(e[1]) && IsHex(e[2])
      && plain[0] == 16 * HexValue(e[1]) + HexValue(e[2])
      && Encodes(e[3..], plain[1..])
  }

  /** Every `%` starts a complete escape. */
  predicate WellFormed(s: seq<byte>) {
    if s == [] then true
    else if s[0] != PERCENT then WellFormed(s[1..])
    else 3 <= |s| && IsHex(s[1]) && IsHex(s[2]) && WellFormed(s[3..])
  }

  function Escapes(s: seq<byte>): nat {
    if s == [] then 0
    else if s[0] == PERCENT && 3 <= |s| then 1 + Escapes(s[3..])
    else Escapes(s[1..])
  }

  /** Decoding inverts every encoder, whatever bytes it escapes, on exactly the
      well-formed texts. */
  lemma {:induction false} DecodingInvertsEncoding(e: seq<byte>, plain: seq<byte>)
    ensures Encodes(e, plain) <==> WellFormed(e) && Decoded(e) == plain
  {
    if e != [] && plain != [] {
      var k := if e[0] == PERCENT then 3 else 1;
      if k <= |e| {
        DecodingInvertsEncoding(e[k..], plain[1..]);
      }
      assert plain == [plain[0]] + plain[1..];
    }
  }

  /** Each escape takes three bytes and leaves one. */
  lemma {:induction false} EscapesShrink(s: seq<byte>)
    requires WellFormed(s)
    ensures |s| == |Decoded(s)| + 2 * Escapes(s)
  {
    if s != [] {
      EscapesShrink(if s[0] == PERCENT then s[3..] else s[1..]);
    }
  }

  // ---- against an encoder and its alphabet ------------------------------

  const LOWER := "0123456789abcdef"
  const UPPER := "0123456789ABCDEF"

  /** The value of a digit is its place in the alphabet, in either case. */
  lemma DigitOfValue(v: nat)
    requires v < 16
    ensures IsHex(LOWER[v] as int) && HexValue(LOWER[v] as int) == v
    ensures IsHex(UPPER[v] as int) && HexValue(UPPER[v] as int) == v
  {
  }

  /** There are no other digits. */
  lemma HexIsAlphabet(c: byte)
    ensures IsHex(c) <==> c as char in LOWER || c as char in UPPER
  {
    if IsHex(c) {
      var v := HexValue(c);
      assert c as char == LOWER[v] || c as char == UPPER[v];
    } else if c as char in LOWER {
      var v :| 0 <= v < 16 && LOWER[v] == c as char;
      DigitOfValue(v);
    } else if c as char in UPPER {
      var v :| 0 <= v < 16 && UPPER[v] == c as char;
      DigitOfValue(v);
    }
  }

  /** How an encoder writes a byte: as it is, or as an escape with digits of either case. */
  datatype Style = Verbatim | Escaped(upperHigh: bool, upperLow: bool)

  function Digit(v: nat, upper: bool): byte
    requires v < 16
  {
    if upper then UPPER[v] as int else LOWER[v] as int
  }

  function Written(b: byte, style: Style): seq<byte> {
    match style
    case Verbatim => [b]
    case Escaped(high, low) => ['%' as int, Digit(b / 16, high), Digit(b % 16, low)]
  }

  /** What an encoder makes of `plain`, in any style, byte by byte. */
  function EncodedAs(plain: seq<byte>, styles: seq<Style>): seq<byte>
    requires |plain| == |styles|
  {
    if plain == [] then [] else Written(plain[0], styles[0]) + EncodedAs(plain[1..], styles[1..])
  }

  /** Decoding gives back what any encoder was given that escapes at least every percent sign. */
  lemma {:induction false} DecodesWhatWasEncoded(plain: seq<byte>, styles: seq<Style>)
    requires |plain| == |styles| && forall i :: 0 <= i < |plain| && plain[i] == '%' as int ==> styles[i].Escaped?
    ensures Decoded(EncodedAs(plain, styles)) == plain
  {
    if plain != [] {
      var rest := EncodedAs(plain[1..], styles[1..]);
      DecodesWhatWasEncoded(plain[1..], styles[1..]);
      DigitOfValue(plain[0] / 16);
      DigitOfValue(plain[0] % 16);
      hide HexValue, IsHex;
      WrittenDecodes(plain[0], styles[0], rest);
    }
  }

  lemma WrittenDecodes(b: byte, style: Style, rest: seq<byte>)
    requires b == '%' as int ==> style.Escaped?
    ensures Decoded(Written(b, style) + rest) == [b] + Decoded(rest)
  {
    var s := Written(b, style) + rest;
    if style.Escaped? {
      DigitOfValue(b / 16);
      DigitOfValue(b % 16);
      assert s[1] == Digit(b / 16, style.upperHigh) && s[2] == Digit(b % 16, style.upperLow);
      assert s[3..] == rest;
    } else {
      assert s[1..] == rest;
    }
  }

  /** A byte that is no percent sign, or a complete escape. */
  predicate IsUnit(u: seq<byte>) {
    || (|u| == 1 && u[0] != PERCENT)
    || (|u| == 3 && u[0] == PERCENT && IsHex(u[1]) && IsHex(u[2]))
  }

  function UnitValue(u: seq<byte>): seq<byte>
    requires IsUnit(u)
  {
    if |u| == 1 then u else [16 * HexValue(u[1]) + HexValue(u[2])]
  }

  lemma UnitDecodes(u: seq<byte>, rest: seq<byte>)
    requires IsUnit(u)
    ensures Decoded(u + rest) == UnitValue(u) + Decoded(rest)
  {
    var s := u + rest;
    assert s[|u|..] == rest && s[..|u|] == u;
    assert s[0] == u[0] && (|u| == 3 ==> s[1] == u[1] && s[2] == u[2]);
  }

  /** Text after a well-formed one is decoded as if it stood alone. */
  lemma {:induction false} DecodedConcat(a: seq<byte>, b: seq<byte>)
    requires WellFormed(a)
    ensures Decoded(a + b) == Decoded(a) + Decoded(b)
  {
    if a == [] {
      assert a + b == b;
    } else {
      var k := if a[0] == PERCENT then 3 else 1;
      var u, t := a[..k], a[k..];
      assert IsUnit(u) && WellFormed(t) && a == u + t;
      hide Decoded, UnitValue, IsUnit, WellFormed;
      DecodedConcat(t, b);
      UnitDecodes(u, t);
      UnitDecodes(u, t + b);
      Regroup(u, t, b);
      Regroup(UnitValue(u), Decoded(t), Decoded(b));
    }
  }

  lemma Regroup(a: seq<byte>, b: seq<byte>, c: seq<byte>)
    ensures a + (b + c) == a + b + c
  {
  }

  /** What becomes of escapes that are not: one with a character that is no digit is copied
      with that character, and one that the text ends in is dropped. */
  lemma BrokenEscapes(h: byte, c: byte, rest: seq<byte>)
    requires (h as char in LOWER || h as char in UPPER) && c as char !in LOWER && c as char !in UPPER
    ensures Decoded(['%' as int, c] + rest) == ['%' as int, c] + Decoded(rest)
    ensures Decoded(['%' as int, h, c] + rest) == ['%' as int, h, c] + Decoded(rest)
    ensures Decoded(['%' as int]) == Decoded(['%' as int, h]) == []
  {
    HexIsAlphabet(h);
    HexIsAlphabet(c);
    hide IsHex;
    var s, t := ['%' as int, c] + rest, ['%' as int, h, c] + rest;
    assert s[..2] == ['%' as int, c] && s[2..] == rest;
    assert t[..3] == ['%' as int, h, c] && t[3..] == rest;
  }

  // ---- the decoder ------------------------------------------------------

  /** The text at `start`: `len` bytes, or up to the terminating zero if `len` is 0. */
  ghost function Text(a: array<byte>, start: nat, len: nat): (t: seq<byte>)
    requires if len == 0 then start <= a.Length else start + len <= a.Length
    reads a
  {
    if len != 0 then a[start..start + len] else UpTo(a[start..], 0)
  }

  /** The bytes `s` lie at `at`. */
  ghost predicate Holds(a: array<byte>, at: nat, s: seq<byte>)
    reads a
  {
    at + |s| <= a.Length && forall i :: at <= i < at + |s| ==> a[i] == s[i - at]
  }

  /** Copies forwards; `to` may lie before `from` in the same array. */
  method CopyForward(src: array<byte>, from: nat, dst: array<byte>, to: nat, count: nat)
    requires from + count <= src.Length && to + count <= dst.Length
    requires dst != src || to <= from || from + count <= to
    modifies dst
    ensures Holds(dst, to, old(src[from..from + count]))
    ensures forall i :: 0 <= i < dst.Length && !(to <= i < to + count) ==> dst[i] == old(dst[i])
  {
    ghost var part := src[from..from + count];
    for k := 0 to count
      invariant Holds(dst, to, part[..k])
      invariant forall i :: 0 <= i < dst.Length && !(to <= i < to + k) ==> dst[i] == old(dst[i])
    {
      dst[to + k] := src[from + k];
    }
  }

  /** The first `di` bytes of `s` are the start of an escape. */
  ghost predicate Begun(s: seq<byte>, di: nat, decode: nat) {
    && di <= |s|
    && match di
       case 0 => true
       case 1 => s[0] == PERCENT && decode == 0
       case 2 => s[0] == PERCENT && IsHex(s[1]) && decode == 16 * HexValue(s[1])
       case _ => false
  }

  /** What reading one more byte lets the decoder write, */
  ghost function Piece(s: seq<byte>, di: nat, decode: nat): seq<byte>
    requires Begun(s, di, decode) && di < |s|
  {
    if di == 0 then (if s[0] == PERCENT then [] else [s[0]])
    else if !IsHex(s[di]) then s[..di + 1]
    else if di == 1 then []
    else [16 * HexValue(s[1]) + HexValue(s[2])]
  }

  /** and how many bytes it then has pending. */
  ghost function Pending(s: seq<byte>, di: nat): nat
    requires di < |s|
  {
    if di == 0 then (if s[0] == PERCENT then 1 else 0)
    else if di == 1 && IsHex(s[1]) then 2
    else 0
  }

  lemma ReadOne(s: seq<byte>, di: nat, decode: nat)
    requires Begun(s, di, decode) && di < |s|
    ensures Decoded(s) == Piece(s, di, decode) + Decoded(s[di + 1 - Pending(s, di)..])
    ensures |Piece(s, di, decode)| <= di + 1 - Pending(s, di)
  {
  }

  lemma StopsShort(s: seq<byte>, decode: nat)
    requires Begun(s, |s|, decode)
    ensures Decoded(s) == []
  {
  }

  /** Where the decoder stands: it has written `out`, and `di` bytes of an escape are pending. */
  ghost predicate Standing(text: seq<byte>, out: seq<byte>, ri: nat, di: nat, decode: nat) {
    && di <= ri <= |text| && |out| <= ri - di
    && Begun(text[ri - di..], di, decode)
    && out + Decoded(text[ri - di..]) == Decoded(text)
  }

  lemma Proceeds(text: seq<byte>, out: seq<byte>, ri: nat, di: nat, decode: nat, decode': nat)
    requires Standing(text, out, ri, di, decode) && ri < |text|
    requires var s := text[ri - di..]; Begun(s[di + 1 - Pending(s, di)..], Pending(s, di), decode')
    ensures var s := text[ri - di..];
      && Standing(text, out + Piece(s, di, decode), ri + 1, Pending(s, di), decode')
      && |out + Piece(s, di, decode)| <= |Decoded(text)|
  {
    hide Decoded, Begun, Piece;
    var s := text[ri - di..];
    ReadOne(s, di, decode);
    assert s[di + 1 - Pending(s, di)..] == text[ri + 1 - Pending(s, di)..];
  }

  lemma AddsDigit(s: seq<byte>, di: nat, decode: nat, digit: nat)
    requires Begun(s, di, decode) && 0 < di < |s| && IsHex(s[di]) && digit == HexValue(s[di])
    ensures Or(decode, digit * Pow2((2 - di) * 4))
         == if di == 1 then 16 * digit else 16 * HexValue(s[1]) + HexValue(s[2])
  {
    assert Pow2(1) == 2 && Pow2(2) == 4 && Pow2(3) == 8 && Pow2(4) == 16;
    if di == 1 {
      OrZero(digit * Pow2(4));
    } else {
      OrIsSum(HexValue(s[1]), 4, digit);
    }
  }

  lemma ReadsPercent(text: seq<byte>, out: seq<byte>, ri: nat, decode: nat)
    requires Standing(text, out, ri, 0, decode) && ri < |text| && text[ri] == PERCENT
    ensures Standing(text, out, ri + 1, 1, 0)
  {
    Proceeds(text, out, ri, 0, decode, 0);
    assert out + [] == out;
  }

  lemma ReadsLiteral(text: seq<byte>, out: seq<byte>, ri: nat, decode: nat)
    requires Standing(text, out, ri, 0, decode) && ri < |text| && text[ri] != PERCENT
    ensures Standing(text, out + [text[ri]], ri + 1, 0, decode)
  {
    Proceeds(text, out, ri, 0, decode, decode);
  }

  lemma ReadsOther(text: seq<byte>, out: seq<byte>, ri: nat, di: nat, decode: nat)
    requires Standing(text, out, ri, di, decode) && 0 < di && ri < |text| && !IsHex(text[ri])
    ensures Standing(text, out + text[ri - di..ri + 1], ri + 1, 0, decode)
  {
    Proceeds(text, out, ri, di, decode, decode);
    assert text[ri - di..][..di + 1] == text[ri - di..ri + 1];
  }

  lemma ReadsDigit(text: seq<byte>, out: seq<byte>, ri: nat, di: nat, decode: nat, digit: nat)
    requires Standing(text, out, ri, di, decode) && 0 < di && ri < |text|
    requires IsHex(text[ri]) && digit == HexValue(text[ri])
    ensures di == 1 ==> Standing(text, out, ri + 1, 2, Or(decode, digit * Pow2((2 - di) * 4)))
    ensures di == 2 ==>
      var value := Or(decode, digit * Pow2((2 - di) * 4));
      value < 256 && Standing(text, out + [value], ri + 1, 0, value)
  {
    var value := Or(decode, digit * Pow2((2 - di) * 4));
    var s := text[ri - di..];
    AddsDigit(s, di, decode, digit);
    Proceeds(text, out, ri, di, decode, value);
    assert out + [] == out;
  }

  lemma StandingFits(text: seq<byte>, out: seq<byte>, ri: nat, di: nat, decode: nat)
    requires Standing(text, out, ri, di, decode)
    ensures di <= 2 && di <= ri <= |text| && |out| <= ri - di && |out| <= |Decoded(text)|
    ensures ri == |text| ==> out == Decoded(text)
  {
    assert |out + Decoded(text[ri - di..])| == |Decoded(text)|;
    if ri == |text| {
      StopsShort(text[ri - di..], decode);
    }
  }

  /** One round of the decoder outside an escape, */
  method ReadPlain(src: array<byte>, from: nat, dst: array<byte>, to: nat, ghost text: seq<byte>,
                   ghost out: seq<byte>, ri: nat, wi: nat, decode: nat)
    returns (wi': nat, di': nat, decode': nat, ghost out': seq<byte>)
    requires Standing(text, out, ri, 0, decode) && ri < |text| && wi == |out|
    requires from + |text| <= src.Length && to + |Decoded(text)| < dst.Length
    requires dst != src || to <= from || from + |text| <= to
    requires Holds(dst, to, out) && Holds(src, from + ri, text[ri..])
    modifies dst
    ensures Standing(text, out', ri + 1, di', decode') && wi <= wi' == |out'|
    ensures Holds(dst, to, out') && di' <= ri + 1 && Holds(src, from + ri + 1 - di', text[ri + 1 - di'..])
    ensures forall i :: 0 <= i < dst.Length && !(to <= i < to + wi') ==> dst[i] == old(dst[i])
  {
    hide Standing, Decoded;
    StandingFits(text, out, ri, 0, decode);
    var c := src[from + ri];
    assert c == text[ri];
    wi', di', decode', out' := wi, 0, decode, out;
    if c == PERCENT {
      ReadsPercent(text, out, ri, decode);
      decode', di' := 0, 1;
    } else {
      ReadsLiteral(text, out, ri, decode);
      out' := out + [c];
      StandingFits(text, out', ri + 1, di', decode');
      dst[to + wi] := c;
      wi' := wi + 1;
    }
  }

  /** inside one when the next byte is not a digit, */
  method ReadOther(src: array<byte>, from: nat, dst: array<byte>, to: nat, ghost text: seq<byte>,
                   ghost out: seq<byte>, ri: nat, wi: nat, di: nat, decode: nat)
    returns (wi': nat, di': nat, decode': nat, ghost out': seq<byte>)
    requires Standing(text, out, ri, di, decode) && ri < |text| && wi == |out| && 0 < di && !IsHex(text[ri])
    requires from + |text| <= src.Length && to + |Decoded(text)| < dst.Length
    requires dst != src || to <= from || from + |text| <= to
    requires Holds(dst, to, out) && Holds(src, from + ri - di, text[ri - di..])
    modifies dst
    ensures Standing(text, out', ri + 1, di', decode') && wi <= wi' == |out'|
    ensures Holds(dst, to, out') && di' <= ri + 1 && Holds(src, from + ri + 1 - di', text[ri + 1 - di'..])
    ensures forall i :: 0 <= i < dst.Length && !(to <= i < to + wi') ==> dst[i] == old(dst[i])
  {
    hide Standing, Decoded;
    StandingFits(text, out, ri, di, decode);
    ReadsOther(text, out, ri, di, decode);
    ghost var part := text[ri - di..ri + 1];
    out' := out + part;
    StandingFits(text, out', ri + 1, 0, decode);
    assert src[from + ri - di..from + ri - di + (di + 1)] == part;
    CopyForward(src, from + ri - di, dst, to + wi, di + 1);
    wi', di', decode' := wi + di + 1, 0, decode;
  }

  /** and when it is. */
  method ReadDigit(src: array<byte>, from: nat, dst: array<byte>, to: nat, ghost text: seq<byte>,
                   ghost out: seq<byte>, ri: nat, wi: nat, di: nat, decode: nat, off: int)
    returns (wi': nat, di': nat, decode': nat, ghost out': seq<byte>)
    requires Standing(text, out, ri, di, decode) && ri < |text| && wi == |out| && 0 < di
    requires IsHex(text[ri]) && text[ri] + off == HexValue(text[ri])
    requires from + |text| <= src.Length && to + |Decoded(text)| < dst.Length
    requires dst != src || to <= from || from + |text| <= to
    requires Holds(dst, to, out) && Holds(src, from + ri - di, text[ri - di..])
    modifies dst
    ensures Standing(text, out', ri + 1, di', decode') && wi <= wi' == |out'|
    ensures Holds(dst, to, out') && di' <= ri + 1 && Holds(src, from + ri + 1 - di', text[ri + 1 - di'..])
    ensures forall i :: 0 <= i < dst.Length && !(to <= i < to + wi') ==> dst[i] == old(dst[i])
  {
    hide Standing, Decoded;
    StandingFits(text, out, ri, di, decode);
    assert src[from + ri] == text[ri];
    ReadsDigit(text, out, ri, di, decode, text[ri] + off);
    wi', di', decode', out' := wi, di + 1, Or(decode, (src[from + ri] + off) * Pow2((2 - di) * 4)), out;
    if di == 2 {
      out' := out + [decode'];
      StandingFits(text, out', ri + 1, 0, decode');
      dst[to + wi] := decode';
      wi', di' := wi + 1, 0;
    }
  }

  lemma HeldByte(src: array<byte>, from: nat, text: seq<byte>, ri: nat, di: nat)
    requires di <= ri < |text| && Holds(src, from + ri - di, text[ri - di..])
    ensures from + ri < src.Length && src[from + ri] == text[ri]
  {
    assert src[from + ri] == text[ri - di..][di];
  }

  /** One round of the decoder. */
  method ReadByte(src: array<byte>, from: nat, dst: array<byte>, to: nat, ghost text: seq<byte>,
                  ghost out: seq<byte>, ri: nat, wi: nat, di: nat, decode: nat)
    returns (wi': nat, di': nat, decode': nat, ghost out': seq<byte>)
    requires Standing(text, out, ri, di, decode) && ri < |text| && wi == |out|
    requires from + |text| <= src.Length && to + |Decoded(text)| < dst.Length
    requires dst != src || to <= from || from + |text| <= to
    requires Holds(dst, to, out) && Holds(src, from + ri - di, text[ri - di..])
    modifies dst
    ensures Standing(text, out', ri + 1, di', decode') && wi <= wi' == |out'|
    ensures Holds(dst, to, out') && di' <= ri + 1 && Holds(src, from + ri + 1 - di', text[ri + 1 - di'..])
    ensures forall i :: 0 <= i < dst.Length && !(to <= i < to + wi') ==> dst[i] == old(dst[i])
  {
    hide Standing, Decoded, Holds;
    if di == 0 {
      wi', di', decode', out' := ReadPlain(src, from, dst, to, text, out, ri, wi, decode);
    } else {
      StandingFits(text, out, ri, di, decode);
      HeldByte(src, from, text, ri, di);
      var c := src[from + ri];
      var isa, isA, isn := IsLowerHex(c), IsUpperHex(c), IsDigit(c);
      if !(isa || isA || isn) {
        wi', di', decode', out' := ReadOther(src, from, dst, to, text, out, ri, wi, di, decode);
      } else {
        var off := if isn then -0x30 else if isa then 10 - 0x61 else 10 - 0x41;
        wi', di', decode', out' := ReadDigit(src, from, dst, to, text, out, ri, wi, di, decode, off);
      }
    }
  }

  lemma StandingStarts(text: seq<byte>)
    ensures Standing(text, [], 0, 0, 0)
  {
    assert text[0..] == text;
  }

  method DecodeText(src: array<byte>, from: nat, dst: array<byte>, to: nat, len: nat) returns (written: nat)
    requires from + len <= src.Length
    requires var text := src[from..from + len];
      to + |Decoded(text)| < dst.Length && (dst != src || to <= from || from + len <= to)
    modifies dst
    ensures written == |Decoded(old(src[from..from + len]))|
    ensures Holds(dst, to, Decoded(old(src[from..from + len])) + [0])
    ensures forall i :: 0 <= i < dst.Length && !(to <= i <= to + written) ==> dst[i] == old(dst[i])
  {
    hide Standing, Decoded;
    ghost var text := src[from..from + len];
    ghost var out: seq<byte> := [];
    var ri: nat, wi: nat, di: nat, decode: nat := 0, 0, 0, 0;
    StandingStarts(text);
    while ri < len && wi < len
      invariant di <= ri <= len && Standing(text, out, ri, di, decode) && wi == |out|
      invariant Holds(dst, to, out) && Holds(src, from + ri - di, text[ri - di..])
      invariant forall i :: 0 <= i < dst.Length && !(to <= i < to + wi) ==> dst[i] == old(dst[i])
      decreases len - ri
    {
      StandingFits(text, out, ri, di, decode);
      wi, di, decode, out := ReadByte(src, from, dst, to, text, out, ri, wi, di, decode);
      ri := ri + 1;
    }
    StandingFits(text, out, ri, di, decode);
    dst[to + wi] := 0;
    return wi;
  }

  /** Decodes the text at `from` to `to`, which may lie at or before it in the same
      array, and returns the number of bytes. */
  method Decode(src: array?<byte>, from: nat, dst: array?<byte>, to: nat, length: int) returns (written: int)
    requires src != null && length == 0 ==> Terminated(src, from, 0)
    requires src != null && length > 0 ==> from + length <= src.Length
    requires src != null && dst != null && length >= 0 ==>
      var text := Text(src, from, length);
      to + |Decoded(text)| < dst.Length && (dst != src || to <= from || from + |text| <= to)
    modifies dst
    ensures src == null || dst == null || length < 0 ==> written == -1 && (dst != null ==> dst[..] == old(dst[..]))
    ensures src != null && dst != null && length >= 0 ==>
      && var decoded := Decoded(old(Text(src, from, length)));
      && written == |decoded| && Holds(dst, to, decoded + [0])
      && forall i :: 0 <= i < dst.Length && !(to <= i <= to + written) ==> dst[i] == old(dst[i])
  {
    hide Decoded, Holds, UpTo, Terminated;
    if src == null || dst == null || length < 0 {
      return -1;
    }
    var len: nat := length;
    if len == 0 {
      len := StrLen(src, from, 0);
    }
    assert src[from..from + len] == Text(src, from, length);
    written := DecodeText(src, from, dst, to, len);
  }
}
