/** Base64 (section 4 of RFC 4648) and its URL alphabet without padding (section 5). */
module Base64 {
  import opened Bits
  import opened CStrings
  import opened Results

  const UPPER := "ABCDEFGHIJKLMNOPQRSTUVWXYZ"
  const LOWER := "abcdefghijklmnopqrstuvwxyz"
  const DIGITS := "0123456789"

  /** The padding character, or a terminating zero, stands at offset 64. */
  const BASE64ENCDEC := UPPER + LOWER + DIGITS + "+/="
  const BASE64URL := UPPER + LOWER + DIGITS + "-_\0"

  const PLUS_TO_SLASH_VALUES: seq<nat> := [62, 255, 255, 255, 63]
  const DIGIT_VALUES: seq<nat> := [52, 53, 54, 55, 56, 57, 58, 59, 60, 61]
  const COLON_TO_AT_VALUES: seq<nat> := [255, 255, 255, 255, 255, 255, 255]
  const UPPER_VALUES: seq<nat> := [
    0, 1, 2, 3, 4, 5, 6, 7, 8, 9, 10, 11, 12, 13, 14, 15, 16, 17, 18, 19, 20, 21, 22, 23, 24, 25]
  const BRACKET_TO_QUOTE_VALUES: seq<nat> := [255, 255, 255, 255, 255, 255]
  const LOWER_VALUES: seq<nat> := [
    26, 27, 28, 29, 30, 31, 32, 33, 34, 35, 36, 37, 38, 39, 40, 41, 42, 43, 44, 45, 46, 47, 48, 49, 50, 51]

  /** The values of the characters from `+` to `z`; 255 is no value. */
  function DecodeTable(): (t: seq<nat>)
    ensures |t| == 80
  {
    BelowUpper() + UPPER_VALUES + AboveUpper()
  }

  function BelowUpper(): (t: seq<nat>)
    ensures |t| == 22
  {
    PLUS_TO_SLASH_VALUES + DIGIT_VALUES + COLON_TO_AT_VALUES
  }

  function AboveUpper(): (t: seq<nat>)
    ensures |t| == 32
  {
    BRACKET_TO_QUOTE_VALUES + LOWER_VALUES
  }

  function Lookup(c: char): nat {
    var i := c as int - '+' as int;
    if 0 <= i < |DecodeTable()| then DecodeTable()[i] else 255
  }

  /** The value of a character of the alphabet. */
  function Value(c: char): (v: nat)
    ensures v == 255 || v < 64
  {
    if 'A' <= c <= 'Z' then c as int - 'A' as int
    else if 'a' <= c <= 'z' then c as int - 'a' as int + 26
    else if '0' <= c <= '9' then c as int - '0' as int + 52
    else if c == '+' then 62
    else if c == '/' then 63
    else 255
  }

  lemma UpperEntry(i: nat)
    requires i < 26
    ensures DecodeTable()[22 + i] == i
  {
    hide BelowUpper, AboveUpper;
    assert DecodeTable()[22 + i] == UPPER_VALUES[i];
  }

  lemma LowerEntry(i: nat)
    requires i < 26
    ensures DecodeTable()[54 + i] == 26 + i
  {
    hide BelowUpper;
    assert DecodeTable()[54 + i] == AboveUpper()[6 + i] == LOWER_VALUES[i];
  }

  lemma OtherEntry(i: nat)
    requires i < 22 || 48 <= i < 54
    ensures DecodeTable()[i] == if 5 <= i < 15 then 47 + i else if i == 0 then 62 else if i == 4 then 63 else 255
  {
    assert DecodeTable()[i] == if i < 22 then BelowUpper()[i] else AboveUpper()[i - 48];
    assert DecodeTable()[i] == if i < 5 then PLUS_TO_SLASH_VALUES[i] else if i < 15 then DIGIT_VALUES[i - 5]
                             else if i < 22 then COLON_TO_AT_VALUES[i - 15] else BRACKET_TO_QUOTE_VALUES[i - 48];
  }

  /** The decoding table gives every character its value. */
  lemma LookupIsValue(c: char)
    ensures Lookup(c) == Value(c)
  {
    hide DecodeTable;
    var i := c as int - '+' as int;
    if 0 <= i < 80 {
      if 22 <= i < 48 {
        UpperEntry(i - 22);
      } else if 54 <= i {
        LowerEntry(i - 54);
      } else {
        OtherEntry(i);
      }
    }
  }

  type Sextet = v: nat | v < 64

  function Symbol(v: Sextet): char {
    if v < 26 then ('A' as int + v) as char
    else if v < 52 then ('a' as int + (v - 26)) as char
    else if v < 62 then ('0' as int + (v - 52)) as char
    else if v == 62 then '+' else '/'
  }

  datatype Alphabet = Standard | Url

  function Table(a: Alphabet): (t: string)
    ensures |t| == 65
  {
    match a
    case Standard => BASE64ENCDEC
    case Url => BASE64URL
  }

  function Letter(a: Alphabet, v: Sextet): char {
    if a.Standard? || v < 62 then Symbol(v) else if v == 62 then '-' else '_'
  }

  /** What the tables hold. */
  lemma TableEntry(a: Alphabet, v: nat)
    requires v <= 64
    ensures v < 64 ==> Table(a)[v] == Letter(a, v)
    ensures v == 64 ==> Table(a)[v] == if a.Standard? then '=' else '\0'
  {
    if v < 26 {
      assert UPPER[v] == Symbol(v);
    } else if v < 52 {
      assert LOWER[v - 26] == Symbol(v);
    } else if v < 62 {
      assert DIGITS[v - 52] == Symbol(v);
    } else {
      assert Table(a)[v] == if a.Standard? then "+/="[v - 62] else "-_\0"[v - 62];
    }
  }

  /** The alphabets of RFC 4648, tables 1 and 2. */
  lemma LetterIs(a: Alphabet, v: Sextet)
    ensures v < 26 ==> Letter(a, v) == "ABCDEFGHIJKLMNOPQRSTUVWXYZ"[v]
    ensures 26 <= v < 52 ==> Letter(a, v) == "abcdefghijklmnopqrstuvwxyz"[v - 26]
    ensures 52 <= v < 62 ==> Letter(a, v) == "0123456789"[v - 52]
    ensures v == 62 ==> Letter(a, v) == if a.Standard? then '+' else '-'
    ensures v == 63 ==> Letter(a, v) == if a.Standard? then '/' else '_'
  {
    TableEntry(a, v);
  }

  lemma ValueIsInverse(v: Sextet, c: char)
    ensures Value(c) == v <==> c == Symbol(v)
  {
  }

  // ---- encoding ---------------------------------------------------------

  /** The bits of `b` in groups of six, the last group filled up with zeros. */
  function Sextets(b: seq<byte>): (vs: seq<Sextet>) {
    if b == [] then []
    else if |b| == 1 then [b[0] / 4, b[0] % 4 * 16]
    else if |b| == 2 then [b[0] / 4, b[0] % 4 * 16 + b[1] / 16, b[1] % 16 * 4]
    else Group(b[0], b[1], b[2]) + Sextets(b[3..])
  }

  function Group(b0: byte, b1: byte, b2: byte): (vs: seq<Sextet>)
    ensures |vs| == 4
  {
    [b0 / 4, b0 % 4 * 16 + b1 / 16, b1 % 16 * 4 + b2 / 64, b2 % 64]
  }

  function Spelled(a: Alphabet, vs: seq<Sextet>): (s: string)
    ensures |s| == |vs|
  {
    if vs == [] then "" else [Letter(a, vs[0])] + Spelled(a, vs[1..])
  }

  function Pads(a: Alphabet, n: nat): (p: string)
    requires n <= 2
  {
    if a.Url? then "" else if n == 0 then "" else if n == 1 then "=" else "=="
  }

  function Missing(n: nat): (m: nat)
    ensures m <= 2
  {
    if n % 3 == 0 then 0 else 3 - n % 3
  }

  function Encoded(a: Alphabet, b: seq<byte>): string {
    Spelled(a, Sextets(b)) + Pads(a, Missing(|b|))
  }

  lemma {:induction false} SextetCount(b: seq<byte>)
    ensures |Sextets(b)| == 4 * ((|b| + 2) / 3) - Missing(|b|)
  {
    hide Group;
    if |b| >= 3 {
      SextetCount(b[3..]);
    }
  }

  /** Padded output comes in groups of four symbols, one for every three bytes or part. */
  lemma EncodedLength(b: seq<byte>)
    ensures |Encoded(Standard, b)| == 4 * ((|b| + 2) / 3)
    ensures |Encoded(Url, b)| == (4 * |b| + 2) / 3
  {
    SextetCount(b);
  }

  // ---- encoding regroups bits -------------------------------------------

  /** The low `w` bits of `x`, the highest first. */
  function BitsOf(x: nat, w: nat): (bits: seq<nat>)
    ensures |bits| == w
  {
    if w == 0 then [] else BitsOf(x / 2, w - 1) + [x % 2]
  }

  function AllBits(xs: seq<nat>, w: nat): seq<nat> {
    if xs == [] then [] else BitsOf(xs[0], w) + AllBits(xs[1..], w)
  }

  lemma {:induction false} AllBitsConcat(xs: seq<nat>, ys: seq<nat>, w: nat)
    ensures AllBits(xs + ys, w) == AllBits(xs, w) + AllBits(ys, w)
  {
    if xs == [] {
      assert xs + ys == ys;
    } else {
      hide BitsOf;
      AllBitsConcat(xs[1..], ys, w);
      assert (xs + ys)[1..] == xs[1..] + ys && (xs + ys)[0] == xs[0];
      assert BitsOf(xs[0], w) + (AllBits(xs[1..], w) + AllBits(ys, w))
          == BitsOf(xs[0], w) + AllBits(xs[1..], w) + AllBits(ys, w);
    }
  }

  /** The bits of the high and of the low part of a number. */
  lemma {:induction false} SplitBits(x: nat, h: nat, l: nat)
    ensures BitsOf(x, h + l) == BitsOf(ShiftRight(x, l), h) + BitsOf(x, l)
    decreases l
  {
    if l == 0 {
      assert BitsOf(x, 0) == [];
    } else {
      SplitBits(x / 2, h, l - 1);
      var y := ShiftRight(x, l);
      assert BitsOf(y, h) + (BitsOf(x / 2, l - 1) + [x % 2]) == BitsOf(y, h) + BitsOf(x / 2, l - 1) + [x % 2];
    }
  }

  /** What is above the low bits does not show in them. */
  lemma {:induction false} LowBits(x: nat, y: nat, l: nat)
    ensures BitsOf(y * Pow2(l) + x, l) == BitsOf(x, l)
    decreases l
  {
    if l > 0 {
      var p := Pow2(l - 1);
      DoubleProduct(y, p);
      assert y * Pow2(l) == 2 * (y * p);
      ProductIsNonNegative(y, p);
      HalfOfSum(y * p, x);
      LowBits(x / 2, y, l - 1);
    }
  }

  lemma HalfOfSum(a: nat, x: nat)
    ensures (2 * a + x) / 2 == a + x / 2 && (2 * a + x) % 2 == x % 2
  {
  }

  lemma {:induction false} ShiftOut(a: nat, x: nat, l: nat)
    requires x < Pow2(l)
    ensures ShiftRight(a * Pow2(l) + x, l) == a
    decreases l
  {
    if l > 0 {
      var p := Pow2(l - 1);
      DoubleProduct(a, p);
      HalfOfSum(a * p, x);
      ShiftOut(a, x / 2, l - 1);
    }
  }

  /** `h` bits above `l` bits. */
  lemma JoinBits(a: nat, h: nat, x: nat, l: nat)
    requires x < Pow2(l)
    ensures BitsOf(a * Pow2(l) + x, h + l) == BitsOf(a, h) + BitsOf(x, l)
  {
    hide BitsOf;
    ProductIsNonNegative(a, Pow2(l));
    SplitBits(a * Pow2(l) + x, h, l);
    LowBits(x, a, l);
    ShiftOut(a, x, l);
  }

  lemma EightBits(b: nat)
    ensures BitsOf(b, 8) == BitsOf(b / 4, 6) + BitsOf(b, 2)
         == BitsOf(b / 16, 4) + BitsOf(b, 4) == BitsOf(b / 64, 2) + BitsOf(b, 6)
  {
    hide BitsOf, ShiftRight;
    Shifts(b);
    SplitBits(b, 6, 2);
    SplitBits(b, 4, 4);
    SplitBits(b, 2, 6);
  }

  lemma JoinedBits(b0: byte, b1: byte)
    ensures BitsOf(b0 % 4 * 16 + b1 / 16, 6) == BitsOf(b0, 2) + BitsOf(b1 / 16, 4)
    ensures BitsOf(b0 % 16 * 4 + b1 / 64, 6) == BitsOf(b0, 4) + BitsOf(b1 / 64, 2)
    ensures BitsOf(b0 % 64, 6) == BitsOf(b0, 6)
  {
    SmallPowers();
    hide BitsOf, Pow2;
    JoinBits(b0 % 4, 2, b1 / 16, 4);
    JoinBits(b0 % 16, 4, b1 / 64, 2);
    LowBits(b0 % 4, b0 / 4, 2);
    LowBits(b0 % 16, b0 / 16, 4);
    LowBits(b0 % 64, b0 / 64, 6);
  }

  lemma BitsOfFew(xs: seq<nat>, w: nat)
    ensures |xs| == 1 ==> AllBits(xs, w) == BitsOf(xs[0], w)
    ensures |xs| == 2 ==> AllBits(xs, w) == BitsOf(xs[0], w) + BitsOf(xs[1], w)
    ensures |xs| == 3 ==> AllBits(xs, w) == BitsOf(xs[0], w) + BitsOf(xs[1], w) + BitsOf(xs[2], w)
    ensures |xs| == 4 ==> AllBits(xs, w) == BitsOf(xs[0], w) + BitsOf(xs[1], w) + BitsOf(xs[2], w) + BitsOf(xs[3], w)
  {
    hide BitsOf;
    if 1 <= |xs| <= 4 {
      assert xs == [xs[0]] + xs[1..];
      BitsOfFew(xs[1..], w);
    }
  }

  lemma GroupKeepsBits(b0: byte, b1: byte, b2: byte)
    ensures AllBits(Group(b0, b1, b2), 6) == AllBits([b0, b1, b2], 8)
  {
    hide BitsOf, AllBits;
    BitsOfFew(Group(b0, b1, b2), 6);
    BitsOfFew([b0, b1, b2], 8);
    JoinedBits(b0, b1);
    JoinedBits(b1, b2);
    JoinedBits(b2, 0);
    EightBits(b0);
    EightBits(b1);
    EightBits(b2);
    Regrouped(BitsOf(b0 / 4, 6), BitsOf(b0, 2), BitsOf(b1 / 16, 4), BitsOf(b1, 4), BitsOf(b2 / 64, 2), BitsOf(b2, 6));
  }

  lemma Regrouped(a: seq<nat>, b: seq<nat>, c: seq<nat>, d: seq<nat>, e: seq<nat>, f: seq<nat>)
    ensures a + (b + c) + (d + e) + f == (a + b) + (c + d) + (e + f)
  {
    assert a + (b + c) == a + b + c;
    assert a + b + c + (d + e) == a + b + c + d + e;
    assert a + b + (c + d) == a + b + c + d;
  }

  /** Encoding writes the bits of the bytes, in their order, six at a time, and fills the
      last six up with zeros. */
  lemma {:induction false} EncodingKeepsBits(b: seq<byte>)
    ensures AllBits(Sextets(b), 6) == AllBits(b, 8) + seq(2 * Missing(|b|), _ => 0)
  {
    hide BitsOf, AllBits, Group;
    if b == [] {
      BitsOfNone();
    } else if |b| == 1 {
      BitsOfFew(Sextets(b), 6);
      BitsOfFew(b, 8);
      LastBits(b[0], 0);
    } else if |b| == 2 {
      BitsOfFew(Sextets(b), 6);
      BitsOfFew(b, 8);
      LastBits(b[0], b[1]);
    } else {
      var g := Group(b[0], b[1], b[2]);
      EncodingKeepsBits(b[3..]);
      GroupKeepsBits(b[0], b[1], b[2]);
      AllBitsConcat(g, Sextets(b[3..]), 6);
      AllBitsConcat([b[0], b[1], b[2]], b[3..], 8);
      assert b == [b[0], b[1], b[2]] + b[3..];
      var x, y, z := AllBits(g, 6), AllBits(b[3..], 8), seq(2 * Missing(|b|), _ => 0);
      assert x + (y + z) == x + y + z;
    }
  }

  lemma BitsOfNone()
    ensures AllBits([], 6) == AllBits([], 8) == []
  {
  }

  lemma LastBits(b0: byte, b1: byte)
    ensures BitsOf(b0 / 4, 6) + BitsOf(b0 % 4 * 16, 6) == BitsOf(b0, 8) + [0, 0, 0, 0]
    ensures BitsOf(b0 / 4, 6) + BitsOf(b0 % 4 * 16 + b1 / 16, 6) + BitsOf(b1 % 16 * 4, 6)
         == BitsOf(b0, 8) + BitsOf(b1, 8) + [0, 0]
  {
    hide BitsOf;
    EightBits(b0);
    EightBits(b1);
    JoinedBits(b0, 0);
    JoinedBits(b0, b1);
    JoinedBits(b1, 0);
    ZeroBits();
    var a, b, c, d := BitsOf(b0 / 4, 6), BitsOf(b0, 2), BitsOf(b1 / 16, 4), BitsOf(b1, 4);
    Regrouped(a, b, [0, 0, 0, 0], [], [], []);
    Regrouped(a, b, c, d, [0, 0], []);
    assert a + (b + [0, 0, 0, 0]) == (a + b) + [0, 0, 0, 0];
    assert a + (b + c) + (d + [0, 0]) == (a + b) + (c + d) + [0, 0];
  }

  lemma ZeroBits()
    ensures BitsOf(0, 2) == [0, 0] && BitsOf(0, 4) == [0, 0, 0, 0]
  {
    assert BitsOf(0, 1) == [0] && BitsOf(0, 2) == [0] + [0] && BitsOf(0, 3) == [0, 0] + [0];
  }

  /** Output for the URL alphabet, made from standard output. */
  function UrlForm(s: string): string {
    if s == "" then ""
    else
      var rest := UrlForm(s[1..]);
      match s[0]
      case '+' => "-" + rest
      case '/' => "_" + rest
      case '=' => rest
      case c => [c] + rest
  }

  lemma {:induction false} UrlFormOfSpelled(vs: seq<Sextet>, n: nat)
    requires n <= 2
    ensures UrlForm(Spelled(Standard, vs) + Pads(Standard, n)) == Spelled(Url, vs)
  {
    var s := Spelled(Standard, vs) + Pads(Standard, n);
    if vs != [] {
      UrlFormOfSpelled(vs[1..], n);
      assert s[1..] == Spelled(Standard, vs[1..]) + Pads(Standard, n);
    } else {
      assert s == Pads(Standard, n);
      assert UrlForm("=") == "" && "=="[1..] == "=";
    }
  }

  /** The URL encoding is the standard one with two symbols replaced and no padding. */
  lemma UrlEncodingIsUrlForm(b: seq<byte>)
    ensures Encoded(Url, b) == UrlForm(Encoded(Standard, b))
  {
    UrlFormOfSpelled(Sextets(b), Missing(|b|));
  }

  // ---- decoding ---------------------------------------------------------

  predicate InAlphabet(c: char) {
    'A' <= c <= 'Z' || 'a' <= c <= 'z' || '0' <= c <= '9' || c == '+' || c == '/'
  }

  /** The number of padding characters at the end, when at most two count. */
  function Padding(s: string): (n: nat)
    ensures n <= 2 && n <= |s|
  {
    if |s| == 0 || s[|s| - 1] != '=' then 0
    else if |s| == 1 || s[|s| - 2] != '=' then 1
    else 2
  }

  /** The texts that can be decoded. */
  predicate Accepts(s: string) {
    0 < |s| && |s| % 4 == 0 && forall i :: 0 <= i < |s| - Padding(s) ==> InAlphabet(s[i])
  }

  /** The six bits of a symbol; padding counts as zero. */
  function Weight(c: char): nat {
    if c == '=' then 0 else Value(c)
  }

  /** Four groups of six bits as one number. */
  function Word(v0: nat, v1: nat, v2: nat, v3: nat): nat {
    v0 * 262144 + v1 * 4096 + v2 * 64 + v3
  }

  function WordOf(s: string): nat
    requires 4 <= |s|
  {
    Word(Weight(s[0]), Weight(s[1]), Weight(s[2]), Weight(s[3]))
  }

  function Octets(x: nat): (b: seq<byte>)
    ensures |b| == 3
  {
    [x / 65536 % 256, x / 256 % 256, x % 256]
  }

  /** What decoding makes of an accepted text. */
  function Decoded(s: string): seq<byte> {
    if |s| < 4 then []
    else if |s| == 4 then Octets(WordOf(s))[..3 - Padding(s)]
    else Octets(WordOf(s)) + Decoded(s[4..])
  }

  lemma PaddingOfRest(s: string)
    requires 4 < |s| && |s| % 4 == 0
    ensures Padding(s) == Padding(s[4..])
  {
  }

  lemma {:induction false} DecodedLength(s: string)
    requires 0 < |s| && |s| % 4 == 0
    ensures |Decoded(s)| == |s| / 4 * 3 - Padding(s)
  {
    if |s| > 4 {
      DecodedLength(s[4..]);
      PaddingOfRest(s);
    }
  }

  // ---- decoding undoes encoding -----------------------------------------

  lemma {:induction false} SpelledConcat(a: Alphabet, u: seq<Sextet>, v: seq<Sextet>)
    ensures Spelled(a, u + v) == Spelled(a, u) + Spelled(a, v)
  {
    hide Letter;
    if u == [] {
      assert u + v == v;
    } else {
      SpelledConcat(a, u[1..], v);
      assert (u + v)[1..] == u[1..] + v && (u + v)[0] == u[0];
    }
  }

  lemma {:induction false} LetterAt(a: Alphabet, vs: seq<Sextet>, i: nat)
    requires i < |vs|
    ensures Spelled(a, vs)[i] == Letter(a, vs[i])
  {
    if i > 0 {
      LetterAt(a, vs[1..], i - 1);
    }
  }

  lemma SpelledFour(a: Alphabet, v0: Sextet, v1: Sextet, v2: Sextet, v3: Sextet)
    ensures Spelled(a, [v0, v1, v2, v3]) == [Letter(a, v0), Letter(a, v1), Letter(a, v2), Letter(a, v3)]
    ensures Spelled(a, [v0, v1, v2]) == [Letter(a, v0), Letter(a, v1), Letter(a, v2)]
    ensures Spelled(a, [v0, v1]) == [Letter(a, v0), Letter(a, v1)]
  {
    var s := [v0, v1, v2, v3];
    forall i | 0 <= i < 4
      ensures Spelled(a, s)[i] == Letter(a, s[i])
      ensures i < 3 ==> Spelled(a, s[..3])[i] == Letter(a, s[i])
      ensures i < 2 ==> Spelled(a, s[..2])[i] == Letter(a, s[i])
    {
      LetterAt(a, s, i);
      if i < 3 {
        LetterAt(a, s[..3], i);
      }
      if i < 2 {
        LetterAt(a, s[..2], i);
      }
    }
    assert s[..3] == [v0, v1, v2] && s[..2] == [v0, v1];
  }

  lemma OneByteSpelled(a: Alphabet, b0: byte)
    ensures Encoded(a, [b0]) == [Letter(a, b0 / 4), Letter(a, b0 % 4 * 16)] + Pads(a, 2)
  {
    SpelledFour(a, b0 / 4, b0 % 4 * 16, 0, 0);
  }

  lemma TwoBytesSpelled(a: Alphabet, b0: byte, b1: byte)
    ensures Encoded(a, [b0, b1])
         == [Letter(a, b0 / 4), Letter(a, b0 % 4 * 16 + b1 / 16), Letter(a, b1 % 16 * 4)] + Pads(a, 1)
  {
    SpelledFour(a, b0 / 4, b0 % 4 * 16 + b1 / 16, b1 % 16 * 4, 0);
  }

  lemma SymbolWeighs(v: Sextet)
    ensures Weight(Symbol(v)) == v && InAlphabet(Symbol(v)) && Symbol(v) != '='
  {
  }

  lemma EncodedStep(a: Alphabet, b: seq<byte>)
    requires 3 <= |b|
    ensures Encoded(a, b) == Spelled(a, Group(b[0], b[1], b[2])) + Encoded(a, b[3..])
  {
    SpelledConcat(a, Group(b[0], b[1], b[2]), Sextets(b[3..]));
  }

  lemma GroupIsWord(b0: byte, b1: byte, b2: byte)
    ensures Word(b0 / 4, b0 % 4 * 16 + b1 / 16, b1 % 16 * 4 + b2 / 64, b2 % 64) == b0 * 65536 + b1 * 256 + b2
  {
  }

  lemma OctetsOfBytes(b0: byte, b1: byte, b2: byte)
    ensures Octets(b0 * 65536 + b1 * 256 + b2) == [b0, b1, b2]
  {
    var x := b0 * 65536 + b1 * 256 + b2;
    assert x / 65536 == b0 && x / 256 == b0 * 256 + b1;
    assert x / 256 % 256 == b1 && x % 256 == b2;
  }

  lemma WordOfLetters(v0: Sextet, v1: Sextet, v2: Sextet, v3: Sextet)
    ensures var s := Spelled(Standard, [v0, v1, v2, v3]);
      && WordOf(s) == Word(v0, v1, v2, v3)
      && forall i :: 0 <= i < 4 ==> InAlphabet(s[i]) && s[i] != '='
  {
    hide Spelled;
    SpelledFour(Standard, v0, v1, v2, v3);
    SymbolWeighs(v0);
    SymbolWeighs(v1);
    SymbolWeighs(v2);
    SymbolWeighs(v3);
    hide Symbol, Weight, InAlphabet;
  }

  /** Four symbols for a group decode to the group. */
  lemma GroupDecodes(b0: byte, b1: byte, b2: byte)
    ensures var s := Spelled(Standard, Group(b0, b1, b2));
      && (forall i :: 0 <= i < 4 ==> InAlphabet(s[i]) && s[i] != '=')
      && Octets(WordOf(s)) == [b0, b1, b2]
  {
    hide Spelled, WordOf, InAlphabet, Octets;
    var g := Group(b0, b1, b2);
    WordOfLetters(g[0], g[1], g[2], g[3]);
    assert g == [g[0], g[1], g[2], g[3]];
    GroupIsWord(b0, b1, b2);
    OctetsOfBytes(b0, b1, b2);
  }

  /** A last quantum with `p` padding characters. */
  lemma LastDecodes(s: string, p: nat, b0: byte, b1: byte, b2: byte)
    requires |s| == 4 && p == Padding(s) && forall i :: 0 <= i < 4 - p ==> InAlphabet(s[i])
    requires WordOf(s) == b0 * 65536 + b1 * 256 + b2
    ensures Accepts(s) && Decoded(s) == [b0, b1, b2][..3 - p]
  {
    OctetsOfBytes(b0, b1, b2);
    hide InAlphabet, Octets, WordOf;
  }

  lemma OneByteDecodes(b0: byte)
    ensures var s := Encoded(Standard, [b0]); Accepts(s) && Decoded(s) == [b0]
  {
    var v0: Sextet, v1: Sextet := b0 / 4, b0 % 4 * 16;
    OneByteSpelled(Standard, b0);
    SymbolWeighs(v0);
    SymbolWeighs(v1);
    GroupIsWord(b0, 0, 0);
    var s := [Symbol(v0), Symbol(v1), '=', '='];
    assert Weight('=') == 0;
    hide Spelled, Symbol, Weight, InAlphabet, Octets, Encoded, Accepts, Decoded;
    LastDecodes(s, 2, b0, 0, 0);
    assert Encoded(Standard, [b0]) == s;
  }

  lemma TwoBytesDecode(b0: byte, b1: byte)
    ensures var s := Encoded(Standard, [b0, b1]); Accepts(s) && Decoded(s) == [b0, b1]
  {
    var v0: Sextet, v1: Sextet, v2: Sextet := b0 / 4, b0 % 4 * 16 + b1 / 16, b1 % 16 * 4;
    TwoBytesSpelled(Standard, b0, b1);
    SymbolWeighs(v0);
    SymbolWeighs(v1);
    SymbolWeighs(v2);
    GroupIsWord(b0, b1, 0);
    var s := [Symbol(v0), Symbol(v1), Symbol(v2), '='];
    assert Weight('=') == 0;
    hide Spelled, Symbol, Weight, InAlphabet, Octets, Encoded, Accepts, Decoded;
    LastDecodes(s, 1, b0, b1, 0);
    assert Encoded(Standard, [b0, b1]) == s;
  }

  /** A group put before an accepted text. */
  lemma GroupBefore(b0: byte, b1: byte, b2: byte, t: string)
    requires t == "" || Accepts(t)
    ensures var s := Spelled(Standard, Group(b0, b1, b2)) + t;
      Accepts(s) && Decoded(s) == [b0, b1, b2] + Decoded(t)
  {
    var q := Spelled(Standard, Group(b0, b1, b2));
    var s := q + t;
    GroupDecodes(b0, b1, b2);
    hide Spelled, Group, Octets, InAlphabet;
    assert WordOf(s) == WordOf(q) && s[4..] == t;
    if t != "" {
      PaddingOfRest(s);
      forall i | 0 <= i < |s| - Padding(s) ensures InAlphabet(s[i]) {
        assert s[i] == if i < 4 then q[i] else t[i - 4];
      }
    }
  }

  lemma NothingEncodes()
    ensures Encoded(Standard, []) == "" && Decoded("") == []
  {
  }

  /** Decoding inverts encoding. */
  lemma {:induction false} RoundTrip(b: seq<byte>)
    requires b != []
    ensures Accepts(Encoded(Standard, b)) && Decoded(Encoded(Standard, b)) == b
  {
    hide Encoded, Decoded, Accepts, Spelled, Group;
    if |b| == 1 {
      assert b == [b[0]];
      OneByteDecodes(b[0]);
    } else if |b| == 2 {
      assert b == [b[0], b[1]];
      TwoBytesDecode(b[0], b[1]);
    } else {
      NothingEncodes();
      if |b| > 3 {
        RoundTrip(b[3..]);
      }
      EncodedStep(Standard, b);
      GroupBefore(b[0], b[1], b[2], Encoded(Standard, b[3..]));
      assert b == [b[0], b[1], b[2]] + b[3..];
    }
  }

  // ---- encoding undoes decoding -----------------------------------------

  /** The text with the unused low bits of its last symbol cleared. */
  function Canonical(s: string): (c: string)
    requires Accepts(s)
    ensures |c| == |s|
  {
    if Padding(s) == 0 then s
    else if Padding(s) == 1 then s[|s| - 2 := Symbol(Value(s[|s| - 2]) / 4 * 4)]
    else s[|s| - 3 := Symbol(Value(s[|s| - 3]) / 16 * 16)]
  }

  lemma LetterOfWeight(c: char)
    requires InAlphabet(c)
    ensures Weight(c) == Value(c) < 64 && Symbol(Value(c)) == c && c != '='
  {
  }

  /** The bytes of four groups of six bits. */
  lemma OctetsOfWord(v0: Sextet, v1: Sextet, v2: Sextet, v3: Sextet)
    ensures Octets(Word(v0, v1, v2, v3)) == [v0 * 4 + v1 / 16, v1 % 16 * 16 + v2 / 4, v2 % 4 * 64 + v3]
  {
    var b0, b1, b2 := v0 * 4 + v1 / 16, v1 % 16 * 16 + v2 / 4, v2 % 4 * 64 + v3;
    assert Word(v0, v1, v2, v3) == b0 * 65536 + b1 * 256 + b2;
    OctetsOfBytes(b0, b1, b2);
  }

  lemma OctetsRegroup(v0: Sextet, v1: Sextet, v2: Sextet, v3: Sextet)
    ensures var o := Octets(Word(v0, v1, v2, v3));
      && o[0] / 4 == v0 && o[0] % 4 * 16 + o[1] / 16 == v1 && o[1] % 16 * 4 + o[2] / 64 == v2 && o[2] % 64 == v3
      && o[0] % 4 == v1 / 16 && o[1] % 16 == v2 / 4
  {
    OctetsOfWord(v0, v1, v2, v3);
    hide Octets, Word;
  }

  /** The letters of a quantum and its weights. */
  lemma FullQuantum(s: string)
    requires 4 <= |s| && forall i :: 0 <= i < 4 ==> InAlphabet(s[i])
    ensures var o := Octets(WordOf(s)); Spelled(Standard, Group(o[0], o[1], o[2])) == s[..4]
  {
    hide Weight, Value, Symbol, InAlphabet, Octets, Word, WordOf, Spelled;
    WordOfFour(s);
    LetterOfWeight(s[0]);
    LetterOfWeight(s[1]);
    LetterOfWeight(s[2]);
    LetterOfWeight(s[3]);
    OctetsRegroup(Weight(s[0]), Weight(s[1]), Weight(s[2]), Weight(s[3]));
    SpelledFour(Standard, Weight(s[0]), Weight(s[1]), Weight(s[2]), Weight(s[3]));
  }

  lemma WordOfFour(s: string)
    requires 4 <= |s|
    ensures WordOf(s) == Word(Weight(s[0]), Weight(s[1]), Weight(s[2]), Weight(s[3]))
  {
  }

  lemma LastDecoded(s: string)
    requires |s| == 4
    ensures Decoded(s) == Octets(WordOf(s))[..3 - Padding(s)]
  {
  }

  lemma QuantumOfThree(s: string)
    requires Accepts(s) && |s| == 4 && Padding(s) == 1
    ensures Encoded(Standard, Decoded(s)) == Canonical(s)
  {
    LetterOfWeight(s[0]);
    LetterOfWeight(s[1]);
    LetterOfWeight(s[2]);
    hide Value, Symbol, InAlphabet, Octets, Word, Encoded, Decoded;
    var v0, v1, v2 := Weight(s[0]), Weight(s[1]), Weight(s[2]);
    var o := Octets(Word(v0, v1, v2, 0));
    LastDecoded(s);
    assert o[..2] == [o[0], o[1]];
    OctetsRegroup(v0, v1, v2, 0);
    TwoBytesSpelled(Standard, o[0], o[1]);
    var t := [s[0], s[1], Symbol(v2 / 4 * 4), '='];
    assert Encoded(Standard, [o[0], o[1]]) == t;
    assert Canonical(s) == t;
  }

  lemma QuantumOfTwo(s: string)
    requires Accepts(s) && |s| == 4 && Padding(s) == 2
    ensures Encoded(Standard, Decoded(s)) == Canonical(s)
  {
    LetterOfWeight(s[0]);
    LetterOfWeight(s[1]);
    hide Value, Symbol, InAlphabet, Octets, Word, Encoded, Decoded;
    var v0, v1 := Weight(s[0]), Weight(s[1]);
    var o := Octets(Word(v0, v1, 0, 0));
    LastDecoded(s);
    assert o[..1] == [o[0]];
    OctetsRegroup(v0, v1, 0, 0);
    OneByteSpelled(Standard, o[0]);
    var t := [s[0], Symbol(v1 / 16 * 16), '=', '='];
    assert Encoded(Standard, [o[0]]) == t;
    assert Canonical(s) == t;
  }

  lemma {:induction false} CanonicalOfRest(s: string)
    requires Accepts(s) && 4 < |s|
    ensures Accepts(s[4..]) && Canonical(s) == s[..4] + Canonical(s[4..])
    ensures forall i :: 0 <= i < 4 ==> InAlphabet(s[i])
  {
    hide InAlphabet, Symbol, Value;
    PaddingOfRest(s);
    var t := s[4..];
    forall i | 0 <= i < |t| - Padding(t) ensures InAlphabet(t[i]) {
      assert t[i] == s[i + 4];
    }
  }

  /** Encoding inverts decoding, up to the unused bits of the last symbol. */
  lemma {:induction false} DecodeThenEncode(s: string)
    requires Accepts(s)
    ensures Decoded(s) != [] && Encoded(Standard, Decoded(s)) == Canonical(s)
  {
    DecodedLength(s);
    if |s| == 4 {
      if Padding(s) == 0 {
        FullQuantum(s);
        assert s[..4] == s;
        var d := Decoded(s);
        EncodedStep(Standard, d);
        NothingEncodes();
        hide Spelled, Group, Octets, WordOf, Encoded;
      } else if Padding(s) == 1 {
        QuantumOfThree(s);
      } else {
        QuantumOfTwo(s);
      }
    } else {
      CanonicalOfRest(s);
      DecodeThenEncode(s[4..]);
      FullQuantum(s);
      var o, d := Octets(WordOf(s)), Decoded(s);
      hide Spelled, Group, Octets, WordOf, Encoded, Accepts;
      assert d[..3] == o && d[3..] == Decoded(s[4..]);
      EncodedStep(Standard, d);
    }
  }

  /** `s` spells `b`: groups of four letters for three bytes, and a last group that may
      have anything in the bits that its last letter does not need. */
  predicate Spells(s: string, b: seq<byte>) {
    if b == [] then s == ""
    else if |s| < 4 then false
    else if |b| == 1 then
      && |s| == 4 && s[0] == Letter(Standard, b[0] / 4) && s[2..] == "=="
      && InAlphabet(s[1]) && Value(s[1]) / 16 == b[0] % 4
    else if |b| == 2 then
      && |s| == 4 && s[0] == Letter(Standard, b[0] / 4) && s[1] == Letter(Standard, b[0] % 4 * 16 + b[1] / 16)
      && InAlphabet(s[2]) && Value(s[2]) / 4 == b[1] % 16 && s[3] == '='
    else s[..4] == Spelled(Standard, Group(b[0], b[1], b[2])) && Spells(s[4..], b[3..])
  }

  lemma SpellsOne(s: string, b0: byte)
    requires Spells(s, [b0])
    ensures Accepts(s) && Decoded(s) == [b0]
  {
    var v0: Sextet, v1 := b0 / 4, Value(s[1]);
    SymbolWeighs(v0);
    LetterOfWeight(s[1]);
    assert s[2] == s[2..][0] && s[3] == s[2..][1] && Weight('=') == 0;
    WordOfFour(s);
    hide Spelled, Symbol, Value, Weight, InAlphabet, Octets, Accepts, Decoded, WordOf;
    LastDecodes(s, 2, b0, v1 % 16 * 16, 0);
  }

  lemma SpellsTwo(s: string, b0: byte, b1: byte)
    requires Spells(s, [b0, b1])
    ensures Accepts(s) && Decoded(s) == [b0, b1]
  {
    var v0: Sextet, v1: Sextet, v2 := b0 / 4, b0 % 4 * 16 + b1 / 16, Value(s[2]);
    SymbolWeighs(v0);
    SymbolWeighs(v1);
    LetterOfWeight(s[2]);
    assert Weight('=') == 0;
    WordOfFour(s);
    hide Spelled, Symbol, Value, Weight, InAlphabet, Octets, Accepts, Decoded, WordOf;
    LastDecodes(s, 1, b0, b1, v2 % 4 * 64);
  }

  /** The decoder accepts exactly the spellings of non-empty byte sequences, and gives
      back what they spell. */
  lemma DecodesWhatIsSpelled(s: string, b: seq<byte>)
    requires b != []
    ensures Spells(s, b) <==> Accepts(s) && Decoded(s) == b
  {
    if Spells(s, b) {
      SpellingDecodes(s, b);
    }
    if Accepts(s) && Decoded(s) == b {
      DecodedIsSpelled(s);
    }
  }

  lemma SpellsStep(s: string, b: seq<byte>)
    requires |b| >= 3 && Spells(s, b)
    ensures 4 <= |s| && s[..4] == Spelled(Standard, Group(b[0], b[1], b[2])) && Spells(s[4..], b[3..])
    ensures |b| == 3 ==> s[4..] == "" && b[3..] == []
  {
  }

  lemma {:induction false} SpellingDecodes(s: string, b: seq<byte>)
    requires b != [] && Spells(s, b)
    ensures Accepts(s) && Decoded(s) == b
  {
    hide *;
    if |b| == 1 {
      assert b == [b[0]];
      SpellsOne(s, b[0]);
    } else if |b| == 2 {
      assert b == [b[0], b[1]];
      SpellsTwo(s, b[0], b[1]);
    } else {
      SpellsStep(s, b);
      NothingEncodes();
      if |b| > 3 {
        SpellingDecodes(s[4..], b[3..]);
      }
      GroupBefore(b[0], b[1], b[2], s[4..]);
      assert s == s[..4] + s[4..] && b == [b[0], b[1], b[2]] + b[3..];
    }
  }

  lemma {:induction false} DecodedIsSpelled(s: string)
    requires Accepts(s)
    ensures Spells(s, Decoded(s))
  {
    DecodedLength(s);
    if |s| == 4 && Padding(s) == 2 {
      LastIsSpelled(s);
    } else if |s| == 4 && Padding(s) == 1 {
      LastIsSpelled(s);
    } else {
      FullQuantum(s);
      var o, d := Octets(WordOf(s)), Decoded(s);
      if |s| > 4 {
        CanonicalOfRest(s);
        DecodedIsSpelled(s[4..]);
      } else {
        assert s[4..] == "";
      }
      assert d[..3] == o && d[3..] == if |s| > 4 then Decoded(s[4..]) else [];
    }
  }

  lemma LastIsSpelled(s: string)
    requires Accepts(s) && |s| == 4 && Padding(s) != 0
    ensures Spells(s, Decoded(s))
  {
    LetterOfWeight(s[0]);
    LetterOfWeight(s[1]);
    if Padding(s) == 1 {
      LetterOfWeight(s[2]);
    }
    LastDecoded(s);
    WordOfFour(s);
    var v0, v1, v2 := Weight(s[0]), Weight(s[1]), Weight(s[2]);
    assert v2 < 64 && Weight(s[3]) == 0;
    hide Value, Symbol, Octets, Word, Decoded, WordOf;
    OctetsRegroup(v0, v1, v2, 0);
  }

  /** The encoder's outputs are the texts that survive decoding and encoding. */
  lemma OutputIsCanonical(b: seq<byte>)
    requires b != []
    ensures Accepts(Encoded(Standard, b)) && Canonical(Encoded(Standard, b)) == Encoded(Standard, b)
  {
    RoundTrip(b);
    DecodeThenEncode(Encoded(Standard, b));
  }

  // ---- the decoder ------------------------------------------------------

  /** `x` shifted left by six bits, with `v` below it. */
  lemma ShiftIn(x: nat, v: nat)
    requires v < 64
    ensures Or(x * 64, v) == x * 64 + v
  {
    assert Pow2(1) == 2 && Pow2(2) == 4 && Pow2(3) == 8 && Pow2(4) == 16 && Pow2(5) == 32 && Pow2(6) == 64;
    OrIsSum(x, 6, v);
  }

  lemma LowByte(x: nat)
    ensures And(x, 0xff) == x % 256
  {
    assert Pow2(1) == 2 && Pow2(2) == 4 && Pow2(3) == 8 && Pow2(4) == 16;
    assert Pow2(5) == 32 && Pow2(6) == 64 && Pow2(7) == 128 && Pow2(8) == 256;
    MaskIsRemainder(x, 8);
  }

  /** The table tells the letters of the alphabet from other characters. */
  lemma LookupTells(c: char)
    ensures Lookup(c) == 255 <==> !InAlphabet(c)
    ensures InAlphabet(c) ==> Lookup(c) == Weight(c) < 64 && c != '='
  {
    LookupIsValue(c);
  }

  /** The first `n` symbols as one number. */
  function Number(s: string, n: nat): nat
    requires n <= |s|
  {
    if n == 0 then 0 else Number(s, n - 1) * 64 + Weight(s[n - 1])
  }

  lemma NumberOfFour(s: string)
    requires 4 <= |s|
    ensures Number(s, 4) == WordOf(s)
  {
    assert Number(s, 1) == Weight(s[0]) && Number(s, 2) == Number(s, 1) * 64 + Weight(s[1]);
    assert Number(s, 3) == Number(s, 2) * 64 + Weight(s[2]) && Number(s, 4) == Number(s, 3) * 64 + Weight(s[3]);
  }

  /** Reads four symbols, none of them padding. */
  method ReadQuantum(src: array<char>, at: nat) returns (good: bool, x: nat)
    requires at + 4 <= src.Length
    ensures good <==> forall i :: at <= i < at + 4 ==> InAlphabet(src[i])
    ensures good ==> x == WordOf(src[at..at + 4])
  {
    hide InAlphabet, Lookup, Or, Weight, WordOf;
    ghost var s := src[at..at + 4];
    x := 0;
    for j := 0 to 4
      invariant x == Number(s, j)
      invariant forall i :: at <= i < at + j ==> InAlphabet(src[i])
    {
      LookupTells(src[at + j]);
      var val := Lookup(src[at + j]);
      if val == 0xff {
        return false, x;
      }
      ShiftIn(x, val);
      x := Or(x * 64, val);
    }
    NumberOfFour(s);
    good := true;
  }

  function PadCount(s: string, n: nat): nat
    requires n <= |s|
  {
    if n == 0 then 0 else PadCount(s, n - 1) + if s[n - 1] == '=' then 1 else 0
  }

  lemma PadCountOfFour(s: string)
    requires |s| == 4
    ensures PadCount(s, 4) <= Padding(s) <==> PadCount(s, 4) == Padding(s)
    ensures PadCount(s, 4) <= Padding(s) <==> forall i :: 0 <= i < 4 - Padding(s) ==> s[i] != '='
    ensures PadCount(s, 1) <= PadCount(s, 2) <= PadCount(s, 3) <= PadCount(s, 4)
  {
    assert PadCount(s, 0) == 0;
    assert PadCount(s, 1) == if s[0] == '=' then 1 else 0;
    assert PadCount(s, 2) == PadCount(s, 1) + if s[1] == '=' then 1 else 0;
    assert PadCount(s, 3) == PadCount(s, 2) + if s[2] == '=' then 1 else 0;
    assert PadCount(s, 4) == PadCount(s, 3) + if s[3] == '=' then 1 else 0;
  }

  /** Reads the last four symbols, `padding` of them padding. */
  method ReadLastQuantum(src: array<char>, at: nat, padding: nat) returns (good: bool, x: nat)
    requires at + 4 <= src.Length && padding == Padding(src[at..at + 4])
    ensures good <==> forall i :: at <= i < at + 4 - padding ==> InAlphabet(src[i])
    ensures good ==> x == WordOf(src[at..at + 4])
  {
    assert !InAlphabet('=');
    hide InAlphabet, Lookup, Or, Value, WordOf;
    ghost var s := src[at..at + 4];
    PadCountOfFour(s);
    x := 0;
    var padc := 0;
    for j := 0 to 4
      invariant x == Number(s, j) && padc == PadCount(s, j) <= padding
      invariant forall i :: at <= i < at + j ==> src[i] == '=' || InAlphabet(src[i])
    {
      assert src[at + j] == s[j];
      if src[at + j] == '=' {
        x := x * 64;
        padc := padc + 1;
        if padc > padding {
          return false, x;
        }
      } else {
        LookupTells(src[at + j]);
        var val := Lookup(src[at + j]);
        if val == 0xff {
          return false, x;
        }
        ShiftIn(x, val);
        x := Or(x * 64, val);
      }
    }
    NumberOfFour(s);
    good := true;
  }

  lemma DecodedStep(s: string, i: nat)
    requires i + 4 <= |s| && |s| % 4 == 0 && i % 4 == 0 && (i + 4 == |s| ==> Padding(s) == 0)
    ensures Decoded(s[i..]) == Octets(WordOf(s[i..i + 4])) + Decoded(s[i + 4..])
  {
    var t := s[i..];
    assert t[4..] == s[i + 4..] && WordOf(t) == WordOf(s[i..i + 4]);
    if i + 4 == |s| {
      assert Padding(t) == 0;
    }
  }

  /** Writes three bytes. */
  method PutOctets(out: array<byte>, pos: nat, x: nat)
    requires pos + 3 <= out.Length
    modifies out
    ensures out[..pos + 3] == old(out[..pos]) + Octets(x)
  {
    LowByte(x);
    LowByte(x / 256);
    LowByte(x / 65536);
    out[pos + 2] := And(x, 0xff);
    out[pos + 1] := And(x / 256, 0xff);
    out[pos] := And(x / 65536, 0xff);
  }

  /** Writes the one or two bytes of a padded quantum. */
  method PutLast(out: array<byte>, pos: nat, x: nat, padding: nat)
    requires 1 <= padding <= 2 && pos + 3 - padding <= out.Length
    modifies out
    ensures out[..pos + 3 - padding] == old(out[..pos]) + Octets(x)[..3 - padding]
  {
    LowByte(x / 256);
    LowByte(x / 65536);
    if padding == 1 {
      out[pos + 1] := And(x / 256, 0xff);
    }
    out[pos] := And(x / 65536, 0xff);
  }

  /** Counts the padding at the end of a text of `n` symbols; more than two are too many. */
  method CountPadding(src: array<char>, n: nat) returns (padding: nat)
    requires 4 <= n <= src.Length
    ensures padding <= 2 ==> padding == Padding(src[..n]) && src[n - 1 - padding] != '='
    ensures padding > 2 ==> Padding(src[..n]) == 2 && src[n - 3] == '='
  {
    padding := 0;
    while src[n - 1 - padding] == '='
      invariant padding <= 2 && forall i :: n - padding <= i < n ==> src[i] == '='
      decreases 3 - padding
    {
      padding := padding + 1;
      if padding > 2 {
        return;
      }
    }
  }

  /** Decodes the full quanta at the start of a text of `n` symbols. */
  method DecodeFull(src: array<char>, n: nat, full: nat, out: array<byte>) returns (good: bool)
    requires n <= src.Length && n % 4 == 0 && 4 * full <= n && (4 * full == n ==> Padding(src[..n]) == 0)
    requires 3 * full <= out.Length
    modifies out
    ensures good <==> forall i :: 0 <= i < 4 * full ==> InAlphabet(src[i])
    ensures good ==> Decoded(src[..n]) == out[..3 * full] + Decoded(src[4 * full..n])
  {
    hide Decoded, Octets, WordOf, InAlphabet, Padding;
    ghost var text := src[..n];
    for i := 0 to full
      invariant forall k :: 0 <= k < 4 * i ==> InAlphabet(src[k])
      invariant Decoded(text) == out[..3 * i] + Decoded(text[4 * i..])
    {
      var ok, x := ReadQuantum(src, 4 * i);
      if !ok {
        return false;
      }
      assert src[4 * i..4 * i + 4] == text[4 * i..4 * i + 4];
      DecodedStep(text, 4 * i);
      PutOctets(out, 3 * i, x);
    }
    assert text[4 * full..] == src[4 * full..n];
    good := true;
  }

  /** Decodes the padded quantum at the end of a text of `n` symbols. */
  method DecodeLast(src: array<char>, n: nat, out: array<byte>, pos: nat, padding: nat) returns (good: bool)
    requires 4 <= n <= src.Length && 1 <= padding <= 2 && padding == Padding(src[n - 4..n])
    requires pos + 3 - padding <= out.Length
    modifies out
    ensures good <==> forall i :: n - 4 <= i < n - padding ==> InAlphabet(src[i])
    ensures good ==> out[..pos + 3 - padding] == old(out[..pos]) + Decoded(src[n - 4..n])
  {
    hide Octets, WordOf, InAlphabet;
    var x: nat;
    good, x := ReadLastQuantum(src, n - 4, padding);
    if good {
      PutLast(out, pos, x, padding);
    }
  }

  /** A text is acceptable if its full quanta are, and the letters of a padded one. */
  lemma AcceptsParts(src: array<char>, n: nat, full: nat, padding: nat)
    requires 4 <= n <= src.Length && n % 4 == 0 && padding == Padding(src[..n])
    requires full == n / 4 - if padding != 0 then 1 else 0
    ensures Accepts(src[..n]) <==>
      && (forall i :: 0 <= i < 4 * full ==> InAlphabet(src[i]))
      && (padding != 0 ==> forall i :: n - 4 <= i < n - padding ==> InAlphabet(src[i]))
    ensures padding == Padding(src[n - 4..n]) && 4 * full == if padding == 0 then n else n - 4
    ensures padding == 0 ==> Decoded(src[4 * full..n]) == []
  {
    hide InAlphabet;
    var text := src[..n];
    assert forall i :: 0 <= i < n ==> text[i] == src[i];
  }

  /** Decodes a text of `n` symbols, `padding` of them padding, into `out`. */
  method DecodeInto(src: array<char>, n: nat, padding: nat, out: array<byte>) returns (good: bool)
    requires 4 <= n <= src.Length && n % 4 == 0 && padding == Padding(src[..n])
    requires out.Length == n / 4 * 3 - padding + 1
    modifies out
    ensures good <==> Accepts(src[..n])
    ensures good ==> out[..out.Length - 1] == Decoded(src[..n])
  {
    hide *;
    var full := n / 4 - if padding != 0 then 1 else 0;
    AcceptsParts(src, n, full, padding);
    good := DecodeFull(src, n, full, out);
    if good && padding != 0 {
      good := DecodeLast(src, n, out, 3 * full, padding);
    }
  }

  /** The texts for which the decoder asks for memory: whole quanta with at most two
      padding characters at the end. */
  predicate WorthMemory(s: string) {
    0 < |s| && |s| % 4 == 0 && !(Padding(s) == 2 && s[|s| - 3] == '=')
  }

  /** How the decoder answers. */
  function Answer(s: string, memory: bool): Code {
    if !WorthMemory(s) then BadContentEncoding
    else if !memory then OutOfMemory
    else if Accepts(s) then Ok
    else BadContentEncoding
  }

  /** No acceptable text is refused unread, so with memory the answer is acceptance;
      without any, a text is refused for itself only by its length or by a third padding
      character. */
  lemma AnswerAccepts(s: string)
    ensures Answer(s, true) == if Accepts(s) then Ok else BadContentEncoding
    ensures Answer(s, false)
         == if |s| == 0 || |s| % 4 != 0 || s[|s| - 3..] == "===" then BadContentEncoding else OutOfMemory
  {
    if Accepts(s) && Padding(s) == 2 {
      assert InAlphabet(s[|s| - 3]);
    }
  }

  /** Decodes the text in `src`. */
  method DecodeText(src: array<char>, memory: bool) returns (code: Code, outptr: array?<byte>, outlen: nat)
    requires Terminated(src, 0, '\0')
    ensures code == Answer(UpTo(src[..], '\0'), memory)
    ensures memory ==> (code == Ok <==> Accepts(UpTo(src[..], '\0'))) && code != OutOfMemory
    ensures code == Ok <==> outptr != null
    ensures outptr != null ==>
      && outptr.Length == outlen + 1 && outptr[outlen] == 0
      && outptr[..outlen] == Decoded(UpTo(src[..], '\0'))
    ensures outptr == null ==> outlen == 0
    ensures outptr != null ==> fresh(outptr)
  {
    hide Decoded, UpTo, Terminated;
    var srclen := StrLen(src, 0, '\0');
    assert src[0..] == src[..];
    ghost var text := src[..srclen];
    assert text == UpTo(src[..], '\0');
    AnswerAccepts(text);
    if srclen == 0 || srclen % 4 != 0 {
      return BadContentEncoding, null, 0;
    }
    var padding := CountPadding(src, srclen);
    if padding > 2 {
      return BadContentEncoding, null, 0;
    }
    var numQuantums := srclen / 4;
    var rawlen := numQuantums * 3 - padding;
    if !memory {
      return OutOfMemory, null, 0;
    }
    var newstr := new byte[rawlen + 1];
    var good := DecodeInto(src, srclen, padding, newstr);
    if !good {
      return BadContentEncoding, null, 0;
    }
    newstr[rawlen] := 0;
    return Ok, newstr, rawlen;
  }

  // ---- the encoder ------------------------------------------------------

  lemma SmallPowers()
    ensures Pow2(2) == 4 && Pow2(4) == 16 && Pow2(6) == 64
  {
    assert Pow2(1) == 2 && Pow2(2) == 4 && Pow2(3) == 8 && Pow2(4) == 16 && Pow2(5) == 32;
  }

  lemma Shifts(a: nat)
    ensures ShiftRight(a, 2) == a / 4 && ShiftRight(a, 4) == a / 16 && ShiftRight(a, 6) == a / 64
  {
    var c := a / 4;
    assert ShiftRight(a, 2) == ShiftRight(a / 2, 1) == ShiftRight(c, 0);
    assert a / 2 / 2 == c && c / 2 / 2 == a / 16 && a / 16 / 2 / 2 == a / 64;
    assert ShiftRight(a, 4) == ShiftRight(a / 2, 3) == ShiftRight(c, 2)
        == ShiftRight(c / 2, 1) == ShiftRight(a / 16, 0);
    assert ShiftRight(a, 6) == ShiftRight(a / 2, 5) == ShiftRight(c, 4)
        == ShiftRight(c / 2, 3) == ShiftRight(a / 16, 2);
    assert ShiftRight(a / 16, 2) == ShiftRight(a / 16 / 2, 1) == ShiftRight(a / 64, 0);
  }

  lemma HighNibble(b: byte)
    ensures And(b, 0xf0) / 16 == b / 16
  {
    hide And, ShiftRight, Pow2;
    SmallPowers();
    HighMask(b, 15, 4);
    Shifts(b);
    MaskIsRemainder(b / 16, 4);
  }

  lemma HighPair(b: byte)
    ensures And(b, 0xc0) / 64 == b / 64
  {
    hide And, ShiftRight, Pow2;
    SmallPowers();
    HighMask(b, 3, 6);
    Shifts(b);
    MaskIsRemainder(b / 64, 2);
  }

  lemma SecondSymbol(b0: byte, b1: byte)
    ensures Or(And(b0, 0x03) * 16, b1 / 16) == b0 % 4 * 16 + b1 / 16
    ensures And(b0, 0x03) * 16 == b0 % 4 * 16
  {
    SmallPowers();
    MaskIsRemainder(b0, 2);
    OrIsSum(b0 % 4, 4, b1 / 16);
  }

  lemma ThirdSymbol(b1: byte, b2: byte)
    ensures Or(And(b1, 0x0f) * 4, b2 / 64) == b1 % 16 * 4 + b2 / 64
    ensures And(b1, 0x0f) * 4 == b1 % 16 * 4
  {
    SmallPowers();
    MaskIsRemainder(b1, 4);
    OrIsSum(b1 % 16, 2, b2 / 64);
  }

  lemma FourthSymbol(b2: byte)
    ensures And(b2, 0x3f) == b2 % 64
  {
    SmallPowers();
    MaskIsRemainder(b2, 6);
  }

  /** Writes four symbols for three bytes. */
  method PutGroup(a: Alphabet, output: array<char>, o: nat, b0: byte, b1: byte, b2: byte)
    requires o + 4 <= output.Length
    modifies output
    ensures output[..o + 4] == old(output[..o]) + Spelled(a, Group(b0, b1, b2))
  {
    var table64 := Table(a);
    SecondSymbol(b0, b1);
    HighPair(b2);
    ThirdSymbol(b1, b2);
    FourthSymbol(b2);
    hide And, Or, Table, Letter, Spelled;
    output[o] := table64[b0 / 4];
    output[o + 1] := table64[Or(And(b0, 0x03) * 16, b1 / 16)];
    output[o + 2] := table64[Or(And(b1, 0x0f) * 4, And(b2, 0xc0) / 64)];
    output[o + 3] := table64[And(b2, 0x3f)];
    ghost var g := Group(b0, b1, b2);
    TableEntry(a, g[0]);
    TableEntry(a, g[1]);
    TableEntry(a, g[2]);
    TableEntry(a, g[3]);
    SpelledFour(a, g[0], g[1], g[2], g[3]);
  }

  /** Writes the symbols of a last single byte, and the padding if the alphabet has any. */
  method PutOne(a: Alphabet, output: array<char>, o: nat, b0: byte) returns (o': nat)
    requires o + 4 < output.Length
    modifies output
    ensures o <= o' <= o + 4 && output[..o'] == old(output[..o]) + Encoded(a, [b0])
  {
    hide And, Or, Table, Letter, Encoded, Group;
    var table64 := Table(a);
    SecondSymbol(b0, 0);
    TableEntry(a, b0 / 4);
    TableEntry(a, b0 % 4 * 16);
    TableEntry(a, 64);
    OneByteSpelled(a, b0);
    var padstr := table64[64];
    output[o] := table64[b0 / 4];
    output[o + 1] := table64[And(b0, 0x03) * 16];
    o' := o + 2;
    if padstr != '\0' {
      output[o + 2] := padstr;
      output[o + 3] := padstr;
      o' := o + 4;
    }
  }

  /** Writes the symbols of two last bytes, and the padding if the alphabet has any. */
  method PutTwo(a: Alphabet, output: array<char>, o: nat, b0: byte, b1: byte) returns (o': nat)
    requires o + 4 < output.Length
    modifies output
    ensures o <= o' <= o + 4 && output[..o'] == old(output[..o]) + Encoded(a, [b0, b1])
  {
    hide And, Or, Table, Letter, Encoded, Group;
    var table64 := Table(a);
    SecondSymbol(b0, b1);
    HighNibble(b1);
    ThirdSymbol(b1, 0);
    TableEntry(a, b0 / 4);
    TableEntry(a, b0 % 4 * 16 + b1 / 16);
    TableEntry(a, b1 % 16 * 4);
    TableEntry(a, 64);
    TwoBytesSpelled(a, b0, b1);
    var padstr := table64[64];
    output[o] := table64[b0 / 4];
    output[o + 1] := table64[Or(And(b0, 0x03) * 16, And(b1, 0xf0) / 16)];
    output[o + 2] := table64[And(b1, 0x0f) * 4];
    o' := o + 3;
    if padstr != '\0' {
      output[o + 3] := padstr;
      o' := o + 4;
    }
  }

  /** Encodes `n` bytes into `output`. */
  method EncodeInto(a: Alphabet, inputbuff: array<byte>, n: nat, output: array<char>) returns (o: nat)
    requires n <= inputbuff.Length && output.Length == (n + 2) / 3 * 4 + 1
    modifies output
    ensures o < output.Length && output[..o] == Encoded(a, inputbuff[..n])
  {
    hide Encoded, Spelled, Group;
    var i: nat := 0;
    o := 0;
    ghost var data := inputbuff[..n];
    while n - i >= 3
      invariant i <= n && i % 3 == 0 && o == i / 3 * 4
      invariant output[..o] + Encoded(a, data[i..]) == Encoded(a, data)
    {
      PutGroup(a, output, o, inputbuff[i], inputbuff[i + 1], inputbuff[i + 2]);
      EncodedStep(a, data[i..]);
      assert data[i..][3..] == data[i + 3..];
      assert output[..o + 4] + Encoded(a, data[i + 3..]) == Encoded(a, data);
      o, i := o + 4, i + 3;
    }
    if n - i == 1 {
      assert data[i..] == [inputbuff[i]];
      o := PutOne(a, output, o, inputbuff[i]);
    } else if n - i == 2 {
      assert data[i..] == [inputbuff[i], inputbuff[i + 1]];
      o := PutTwo(a, output, o, inputbuff[i], inputbuff[i + 1]);
    } else {
      NoBytesSpelled(a);
      assert data[i..] == [];
    }
  }

  lemma NoBytesSpelled(a: Alphabet)
    ensures Encoded(a, []) == ""
  {
  }

  /** Encodes `insize` bytes, or the text up to its terminating zero if `insize` is 0. */
  method Encode(a: Alphabet, inputbuff: array<byte>, insize: nat, memory: bool)
    returns (code: Code, outptr: array?<char>, outlen: nat)
    requires if insize == 0 then Terminated(inputbuff, 0, 0) else insize <= inputbuff.Length
    ensures code == if memory then Ok else OutOfMemory
    ensures code == Ok <==> outptr != null
    ensures outptr != null ==>
      && fresh(outptr) && outlen < outptr.Length && outptr[outlen] == '\0'
      && outptr[..outlen] == Encoded(a, if insize == 0 then UpTo(inputbuff[..], 0) else inputbuff[..insize])
    ensures outptr == null ==> outlen == 0
  {
    hide Encoded, UpTo, Terminated;
    var n := insize;
    if n == 0 {
      n := StrLen(inputbuff, 0, 0);
      assert inputbuff[0..] == inputbuff[..];
    }
    if !memory {
      return OutOfMemory, null, 0;
    }
    var output := new char[(n + 2) / 3 * 4 + 1];
    var o := EncodeInto(a, inputbuff, n, output);
    output[o] := '\0';
    return Ok, output, o;
  }
}
