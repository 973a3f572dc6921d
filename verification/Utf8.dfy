/** The UTF-8 to UTF-16 conversion, against the grammar of RFC 3629 and the surrogates of RFC 2781. */
module Utf8 {
  import opened Options
  import opened Words

  /** A decoded character, its error bits, and how far the decoder moves on. */
  datatype Decoded = Decoded(c: int, e: int, advance: nat)

  /** The sequence length by the top five bits of the first byte; zero for a byte that starts none. */
  function LengthOf(first: Byte): nat {
    var i := first / 8;
    if i < 16 then 1 else if i < 24 then 0 else if i < 28 then 2 else if i < 30 then 3 else if i == 30 then 4 else 0
  }

  function Bit(b: bool): int { if b then 1 else 0 }

  /** The top two bits of a tail byte, exclusive-or 2: zero exactly for 10. */
  function TailError(b: int): int { (b / 64 + 2) % 4 }

  /** Four bytes read as a four-byte character, with the mask for the length, and shifted down to it. */
  function Loaded(len: nat, a: int, b: int, c: int, d: int): int {
    var mask := if len == 0 then 1 else if len == 1 then 128 else if len == 2 then 32 else if len == 3 then 16 else 8;
    var four := a % mask * 0x40000 + b % 64 * 0x1000 + c % 64 * 0x40 + d % 64;
    if len == 1 then four / 0x40000 else if len == 2 then four / 0x1000 else if len == 3 then four / 0x40 else four
  }

  /** The error conditions side by side, without those of the bytes beyond the length. */
  function Errors(len: nat, ch: int, b: int, c: int, d: int): int {
    var min := if len == 0 then 4194304 else if len == 1 then 0 else if len == 2 then 128 else if len == 3 then 2048
               else 65536;
    var e := Bit(ch < min) * 64 + Bit(ch / 0x800 == 0x1b) * 128 + Bit(ch > 0x10FFFF) * 256
             + TailError(b) * 16 + TailError(c) * 4 + TailError(d);
    if len == 1 then e / 64 else if len == 2 then e / 16 else if len == 3 then e / 4 else e
  }

  function Utf8Decode(s: seq<Byte>): Decoded
    requires |s| >= 4
  {
    var len := LengthOf(s[0]);
    var c := Loaded(len, s[0], s[1], s[2], s[3]);
    Decoded(c, Errors(len, c, s[1], s[2], s[3]), if len == 0 then 1 else len)
  }

  predicate Tail(b: int) { 0x80 <= b <= 0xBF }

  /** The length of the character at the front by the grammar in section 4 of RFC 3629; zero if there is none. */
  function CharLength(s: seq<Byte>): (n: nat)
    ensures n <= |s| && n <= 4
  {
    if |s| >= 1 && s[0] <= 0x7F then 1
    else if |s| >= 2 && 0xC2 <= s[0] <= 0xDF && Tail(s[1]) then 2
    else if |s| >= 3 && Second3(s[0], s[1]) && Tail(s[2]) then 3
    else if |s| >= 4 && Second4(s[0], s[1]) && Tail(s[2]) && Tail(s[3]) then 4
    else 0
  }

  predicate Second3(a: int, b: int) {
    || (a == 0xE0 && 0xA0 <= b <= 0xBF) || (0xE1 <= a <= 0xEC && Tail(b))
    || (a == 0xED && 0x80 <= b <= 0x9F) || (0xEE <= a <= 0xEF && Tail(b))
  }

  predicate Second4(a: int, b: int) {
    (a == 0xF0 && 0x90 <= b <= 0xBF) || (0xF1 <= a <= 0xF3 && Tail(b)) || (a == 0xF4 && 0x80 <= b <= 0x8F)
  }

  /** A character that UTF-8 and UTF-16 can carry. */
  predicate Scalar(c: int) { 0 <= c < 0xD800 || 0xE000 <= c <= 0x10FFFF }

  /** Section 3 of RFC 3629. */
  function Encode8(c: int): (s: seq<Byte>)
    requires Scalar(c)
    ensures 1 <= |s| <= 4
  {
    if c < 0x80 then [c]
    else if c < 0x800 then [0xC0 + c / 0x40, 0x80 + c % 0x40]
    else if c < 0x10000 then [0xE0 + c / 0x1000, 0x80 + c / 0x40 % 0x40, 0x80 + c % 0x40]
    else [0xF0 + c / 0x40000, 0x80 + c / 0x1000 % 0x40, 0x80 + c / 0x40 % 0x40, 0x80 + c % 0x40]
  }

  /** The decoder accepts exactly what the grammar does, and gives the character whose encoding it read. */
  lemma DecodeExact(s: seq<Byte>)
    requires |s| >= 4
    ensures var d := Utf8Decode(s);
      && (d.e == 0 <==> CharLength(s) > 0)
      && (d.e == 0 ==> d.advance == CharLength(s) && Scalar(d.c) && Encode8(d.c) == s[..d.advance])
  {
    var d := Utf8Decode(s);
    var len := LengthOf(s[0]);
    if len == 1 { DecodeOne(s); } else if len == 2 { DecodeTwo(s); }
    else if len == 3 { DecodeThree(s); } else if len == 4 { DecodeFour(s); }
  }

  /** No error means: the conditions on the character hold, and so do those on the tail bytes of the length. */
  lemma ErrorsMean(len: nat, ch: int, b: Byte, c: Byte, d: Byte)
    requires ch >= 0
    ensures len == 1 ==> (Errors(1, ch, b, c, d) == 0 <==> Fits(ch, 0))
    ensures len == 2 ==> (Errors(2, ch, b, c, d) == 0 <==> Fits(ch, 128) && Tail(b))
    ensures len == 3 ==> (Errors(3, ch, b, c, d) == 0 <==> Fits(ch, 2048) && Tail(b) && Tail(c))
    ensures len == 4 ==> (Errors(4, ch, b, c, d) == 0 <==> Fits(ch, 65536) && Tail(b) && Tail(c) && Tail(d))
    ensures len == 0 && ch < 4194304 ==> Errors(0, ch, b, c, d) != 0
  {
    TailErrorMeans(b);
    TailErrorMeans(c);
    TailErrorMeans(d);
  }

  predicate Fits(ch: int, min: int) { min <= ch <= 0x10FFFF && ch / 0x800 != 0x1b }

  lemma TailErrorMeans(b: Byte)
    ensures 0 <= TailError(b) < 4 && (TailError(b) == 0 <==> Tail(b))
  {
  }

  lemma Digits(x: int, y: int, z: int, w: int)
    requires 0 <= x && 0 <= y < 64 && 0 <= z < 64 && 0 <= w < 64
    ensures var v := x * 0x40000 + y * 0x1000 + z * 0x40 + w;
      && v / 0x40000 == x && v / 0x1000 == x * 64 + y && v / 0x40 == (x * 64 + y) * 64 + z
      && v / 0x1000 % 64 == y && v / 0x40 % 64 == z && v % 64 == w
  {
  }

  lemma DecodeOne(s: seq<Byte>)
    requires |s| >= 4 && LengthOf(s[0]) == 1
    ensures Utf8Decode(s).e == 0 && CharLength(s) == 1 && Utf8Decode(s).c == s[0] && Encode8(s[0]) == s[..1]
  {
    Digits(s[0], s[1] % 64, s[2] % 64, s[3] % 64);
    ErrorsMean(1, s[0], s[1], s[2], s[3]);
  }

  lemma DecodeTwo(s: seq<Byte>)
    requires |s| >= 4 && LengthOf(s[0]) == 2
    ensures var d := Utf8Decode(s);
      && (d.e == 0 <==> CharLength(s) == 2) && (CharLength(s) in {0, 2})
      && (d.e == 0 ==> Scalar(d.c) && Encode8(d.c) == s[..2])
  {
    Digits(s[0] % 32, s[1] % 64, s[2] % 64, s[3] % 64);
    var a: int, b: int := s[0], s[1];
    var v := a % 32 * 0x40 + b % 64;
    assert Utf8Decode(s).c == v;
    ErrorsMean(2, v, b, s[2], s[3]);
  }

  lemma DecodeThree(s: seq<Byte>)
    requires |s| >= 4 && LengthOf(s[0]) == 3
    ensures var d := Utf8Decode(s);
      && (d.e == 0 <==> CharLength(s) == 3) && (CharLength(s) in {0, 3})
      && (d.e == 0 ==> Scalar(d.c) && Encode8(d.c) == s[..3])
  {
    var a: int, b: int, c: int := s[0], s[1], s[2];
    Digits(a % 16, b % 64, c % 64, s[3] % 64);
    var v := a % 16 * 0x1000 + b % 64 * 0x40 + c % 64;
    assert Utf8Decode(s).c == v;
    ErrorsMean(3, v, b, c, s[3]);
    Digits(0, a % 16, b % 64, c % 64);
    ThreeBytes(a, b, c);
    if Utf8Decode(s).e == 0 { assert s[..3] == [s[0], s[1], s[2]]; }
  }

  lemma ThreeBytes(a: int, b: int, c: int)
    requires 0xE0 <= a <= 0xEF
    ensures var v := a % 16 * 0x1000 + b % 64 * 0x40 + c % 64;
      0 <= v < 0x10000 && (Tail(b) && Tail(c) ==> (Fits(v, 2048) <==> Second3(a, b)))
  {
  }

  lemma DecodeFour(s: seq<Byte>)
    requires |s| >= 4 && LengthOf(s[0]) == 4
    ensures var d := Utf8Decode(s);
      && (d.e == 0 <==> CharLength(s) == 4) && (CharLength(s) in {0, 4})
      && (d.e == 0 ==> Scalar(d.c) && Encode8(d.c) == s[..4])
  {
    var a: int, b: int, c: int, d: int := s[0], s[1], s[2], s[3];
    Digits(a % 8, b % 64, c % 64, d % 64);
    var v := a % 8 * 0x40000 + b % 64 * 0x1000 + c % 64 * 0x40 + d % 64;
    assert Utf8Decode(s).c == v;
    ErrorsMean(4, v, b, c, d);
    FourBytes(a, b, c, d);
    if Utf8Decode(s).e == 0 { assert s[..4] == [s[0], s[1], s[2], s[3]]; }
  }

  lemma FourBytes(a: int, b: int, c: int, d: int)
    requires 0xF0 <= a <= 0xF7
    ensures var v := a % 8 * 0x40000 + b % 64 * 0x1000 + c % 64 * 0x40 + d % 64;
      0 <= v && (Tail(b) && Tail(c) && Tail(d) ==> (Fits(v, 65536) <==> Second4(a, b)))
  {
  }

  /** Encodings obey the grammar, whatever follows them. */
  lemma EncodingIsChar(c: int, rest: seq<Byte>)
    requires Scalar(c)
    ensures CharLength(Encode8(c) + rest) == |Encode8(c)|
  {
    var e := Encode8(c);
    if |e| == 3 {
      SecondOfThree(c);
      assert e + rest == [e[0], e[1], e[2]] + rest;
    } else if |e| == 4 {
      SecondOfFour(c);
      assert e + rest == [e[0], e[1], e[2], e[3]] + rest;
    } else {
      TwoOrOne(c, rest);
    }
  }

  lemma TwoOrOne(c: int, rest: seq<Byte>)
    requires 0 <= c < 0x800
    ensures CharLength(Encode8(c) + rest) == |Encode8(c)|
  {
  }

  lemma SecondOfThree(c: int)
    requires 0x800 <= c < 0x10000 && Scalar(c)
    ensures Second3(0xE0 + c / 0x1000, 0x80 + c / 0x40 % 0x40) && c / 0x1000 < 16
    ensures c == c / 0x1000 * 0x1000 + c / 0x40 % 0x40 * 0x40 + c % 0x40
  {
  }

  lemma SecondOfFour(c: int)
    requires 0x10000 <= c <= 0x10FFFF
    ensures Second4(0xF0 + c / 0x40000, 0x80 + c / 0x1000 % 0x40)
    ensures c == c / 0x40000 * 0x40000 + c / 0x1000 % 0x40 * 0x1000 + c / 0x40 % 0x40 * 0x40 + c % 0x40
  {
  }

  /** A text in UTF-8 by the grammar of RFC 3629. */
  predicate WellFormed(s: seq<Byte>) {
    |s| == 0 || (CharLength(s) > 0 && WellFormed(s[CharLength(s)..]))
  }

  predicate AllScalar(cs: seq<int>) { forall i :: 0 <= i < |cs| ==> Scalar(cs[i]) }

  function EncodeAll8(cs: seq<int>): seq<Byte>
    requires AllScalar(cs)
  {
    if cs == [] then [] else Encode8(cs[0]) + EncodeAll8(cs[1..])
  }

  /** Section 2.1 of RFC 2781. */
  function Encode16(c: int): seq<int>
    requires Scalar(c)
  {
    if c < 0x10000 then [c] else [0xD800 + (c - 0x10000) / 0x400, 0xDC00 + (c - 0x10000) % 0x400]
  }

  function EncodeAll16(cs: seq<int>): seq<int>
    requires AllScalar(cs)
  {
    if cs == [] then [] else Encode16(cs[0]) + EncodeAll16(cs[1..])
  }

  /** Section 2.2 of RFC 2781: a unit in the range of the first surrogates must be followed by one in the range of the
      second, and neither stands alone. */
  function DecodeAll16(ws: seq<int>): Option<seq<int>> {
    if ws == [] then Some([])
    else if ws[0] < 0xD800 || ws[0] > 0xDFFF then Joined(ws[0], DecodeAll16(ws[1..]))
    else if ws[0] > 0xDBFF || |ws| == 1 || ws[1] < 0xDC00 || ws[1] > 0xDFFF then None
    else Joined(0x10000 + (ws[0] - 0xD800) * 0x400 + (ws[1] - 0xDC00), DecodeAll16(ws[2..]))
  }

  function Joined(c: int, rest: Option<seq<int>>): Option<seq<int>> {
    if rest.None? then None else Some([c] + rest.value)
  }

  /** A surrogate pair has its first unit in the first range and its second in the second. */
  lemma SurrogateRanges(c: int)
    requires Scalar(c)
    ensures c < 0x10000 ==> Encode16(c) == [c]
    ensures c >= 0x10000 ==>
      |Encode16(c)| == 2 && 0xD800 <= Encode16(c)[0] <= 0xDBFF && 0xDC00 <= Encode16(c)[1] <= 0xDFFF
  {
  }

  /** The UTF-16 form loses nothing. */
  lemma {:induction false} Utf16RoundTrip(cs: seq<int>)
    requires AllScalar(cs)
    ensures DecodeAll16(EncodeAll16(cs)) == Some(cs)
  {
    if cs != [] {
      Utf16RoundTrip(cs[1..]);
      SurrogateRanges(cs[0]);
      ReadsBack(cs[0], EncodeAll16(cs[1..]));
      assert [cs[0]] + cs[1..] == cs;
    }
  }

  /** One character in front is read first. */
  lemma ReadsBack(c: int, rest: seq<int>)
    requires Scalar(c)
    ensures DecodeAll16(Encode16(c) + rest) == Joined(c, DecodeAll16(rest))
  {
    var ws := Encode16(c) + rest;
    if c < 0x10000 {
      assert ws[0] == c && ws[1..] == rest;
    } else {
      assert ws[0] == Encode16(c)[0] && ws[1] == Encode16(c)[1] && ws[2..] == rest;
    }
  }

  /** The well-formed texts are exactly the encodings. */
  lemma {:induction false} EncodingsAreWellFormed(cs: seq<int>)
    requires AllScalar(cs)
    ensures WellFormed(EncodeAll8(cs))
  {
    if cs != [] {
      var rest := EncodeAll8(cs[1..]);
      EncodingIsChar(cs[0], rest);
      EncodingsAreWellFormed(cs[1..]);
      assert (Encode8(cs[0]) + rest)[|Encode8(cs[0])|..] == rest;
    }
  }

  lemma EncodeAppend(cs: seq<int>, c: int)
    requires AllScalar(cs) && Scalar(c)
    ensures AllScalar(cs + [c])
    ensures EncodeAll8(cs + [c]) == EncodeAll8(cs) + Encode8(c)
    ensures EncodeAll16(cs + [c]) == EncodeAll16(cs) + Encode16(c)
  {
    EncodeAppend8(cs, c);
    EncodeAppend16(cs, c);
  }

  lemma {:induction false} EncodeAppend8(cs: seq<int>, c: int)
    requires AllScalar(cs) && Scalar(c)
    ensures EncodeAll8(cs + [c]) == EncodeAll8(cs) + Encode8(c)
  {
    if cs == [] {
      OneCharacter(c);
      assert cs + [c] == [c];
    } else {
      EncodeAppend8(cs[1..], c);
      assert (cs + [c])[1..] == cs[1..] + [c];
      Associate(Encode8(cs[0]), EncodeAll8(cs[1..]), Encode8(c));
    }
  }

  lemma {:induction false} EncodeAppend16(cs: seq<int>, c: int)
    requires AllScalar(cs) && Scalar(c)
    ensures EncodeAll16(cs + [c]) == EncodeAll16(cs) + Encode16(c)
  {
    if cs == [] {
      OneCharacter(c);
      assert cs + [c] == [c];
    } else {
      EncodeAppend16(cs[1..], c);
      assert (cs + [c])[1..] == cs[1..] + [c];
      Associate(Encode16(cs[0]), EncodeAll16(cs[1..]), Encode16(c));
    }
  }

  lemma Associate<T>(a: seq<T>, b: seq<T>, c: seq<T>)
    ensures a + (b + c) == (a + b) + c
  {
  }

  lemma OneCharacter(c: int)
    requires Scalar(c)
    ensures EncodeAll8([c]) == Encode8(c) && EncodeAll16([c]) == Encode16(c)
  {
    assert [c][1..] == [];
    assert Encode8(c) + [] == Encode8(c) && Encode16(c) + [] == Encode16(c);
  }

  /** A text has one reading only. */
  lemma {:induction false} Encode8Injective(cs: seq<int>, ds: seq<int>)
    requires AllScalar(cs) && AllScalar(ds) && EncodeAll8(cs) == EncodeAll8(ds)
    ensures cs == ds
  {
    if cs == [] || ds == [] {
      assert cs == [] && ds == [];
    } else {
      var a, b := EncodeAll8(cs[1..]), EncodeAll8(ds[1..]);
      EncodingIsChar(cs[0], a);
      EncodingIsChar(ds[0], b);
      var n := |Encode8(cs[0])|;
      assert Encode8(cs[0]) == EncodeAll8(cs)[..n] == Encode8(ds[0]);
      assert a == EncodeAll8(cs)[n..] == b;
      SameCharacter(cs[0], ds[0]);
      Encode8Injective(cs[1..], ds[1..]);
    }
  }

  lemma SameCharacter(c: int, d: int)
    requires Scalar(c) && Scalar(d) && Encode8(c) == Encode8(d)
    ensures c == d
  {
    var x, y := Encode8(c), Encode8(d);
    assert x[0] == y[0] && |x| == |y|;
    if |x| > 1 { assert x[1] == y[1]; }
    if |x| == 3 {
      assert x[2] == y[2];
      SecondOfThree(c);
      SecondOfThree(d);
    } else if |x| == 4 {
      assert x[2] == y[2] && x[3] == y[3];
      SecondOfFour(c);
      SecondOfFour(d);
    }
  }

  /** Four bytes, or fewer followed by zeros, are all that the first character depends on. */
  lemma FourBytesDecide(t: seq<Byte>, four: seq<Byte>)
    requires |t| > 0 && |four| == 4
    requires forall i :: 0 <= i < 4 ==> four[i] == if i < |t| then t[i] else 0
    ensures CharLength(four) == CharLength(t)
  {
  }

  /** The last bytes of s, followed by zeros. */
  ghost predicate PaddedCopy(s: seq<Byte>, start: nat, buf: seq<Byte>) {
    && start <= |s| < start + 4 && |buf| == 7
    && forall i :: 0 <= i < 7 ==> buf[i] == if i < |s| - start then s[start + i] else 0
  }

  function Padded(s: seq<Byte>, start: nat): (buf: seq<Byte>)
    requires start <= |s| < start + 4
    ensures PaddedCopy(s, start, buf)
  {
    s[start..] + seq(7 - (|s| - start), _ => 0)
  }

  lemma PaddedWindow(s: seq<Byte>, start: nat, buf: seq<Byte>, p: nat)
    requires PaddedCopy(s, start, buf) && start + p < |s|
    ensures var n := CharLength(s[start + p..]);
      CharLength(buf[p..p + 4]) == n && buf[p..p + n] == s[start + p..start + p + n]
  {
    FourBytesDecide(s[start + p..], buf[p..p + 4]);
  }

  /** What was written is what was read up to p, and the rest decides. */
  ghost predicate Read(s: seq<Byte>, p: nat, cs: seq<int>, written: seq<int>) {
    && p <= |s| && AllScalar(cs) && s[..p] == EncodeAll8(cs) && written == EncodeAll16(cs)
    && (WellFormed(s) <==> WellFormed(s[p..]))
  }

  lemma ReadMore(s: seq<Byte>, p: nat, next: nat, cs: seq<int>, written: seq<int>, c: int)
    requires Read(s, p, cs, written) && p < next <= |s| && next == p + CharLength(s[p..])
    requires Scalar(c) && Encode8(c) == s[p..next]
    ensures Read(s, next, cs + [c], written + Encode16(c))
  {
    EncodeAppend(cs, c);
    assert s[..next] == s[..p] + s[p..next];
    assert s[p..][CharLength(s[p..])..] == s[next..];
  }

  lemma ReadAll(s: seq<Byte>, p: nat, cs: seq<int>, written: seq<int>)
    requires Read(s, p, cs, written) && p == |s|
    ensures WellFormed(s) && AllScalar(cs) && s == EncodeAll8(cs) && written == EncodeAll16(cs)
  {
    assert s[..p] == s && s[p..] == [];
  }

  lemma ReadNone(s: seq<Byte>, p: nat, cs: seq<int>, written: seq<int>)
    requires Read(s, p, cs, written) && p < |s| && CharLength(s[p..]) == 0
    ensures !WellFormed(s)
  {
  }

  lemma TailMore(s: seq<Byte>, start: nat, buf: seq<Byte>, p: nat, next: nat, cs: seq<int>, written: seq<int>, c: int)
    requires PaddedCopy(s, start, buf) && start + p < |s| && Read(s, start + p, cs, written)
    requires CharLength(buf[p..p + 4]) > 0 && next == p + CharLength(buf[p..p + 4])
    requires Scalar(c) && Encode8(c) == buf[p..next]
    ensures p < next && Read(s, start + next, cs + [c], written + Encode16(c))
  {
    PaddedWindow(s, start, buf, p);
    ReadMore(s, start + p, start + next, cs, written, c);
  }

  lemma TailNone(s: seq<Byte>, start: nat, buf: seq<Byte>, p: nat, cs: seq<int>, written: seq<int>)
    requires PaddedCopy(s, start, buf) && start + p < |s| && Read(s, start + p, cs, written)
    requires CharLength(buf[p..p + 4]) == 0
    ensures !WellFormed(s)
  {
    PaddedWindow(s, start, buf, p);
    ReadNone(s, start + p, cs, written);
  }

  class Utf8ToUtf16 {
    var buffer: seq<int>

    constructor ()
      ensures buffer == []
    {
      buffer := [];
    }

    /** Reads one character at p and writes it. */
    method Transcode(s: seq<Byte>, p: nat) returns (ok: bool, next: nat, ghost c: int)
      requires p + 4 <= |s|
      modifies this
      ensures ok <==> CharLength(s[p..p + 4]) > 0
      ensures ok ==> next == p + CharLength(s[p..p + 4]) && Scalar(c) && Encode8(c) == s[p..next]
      ensures buffer == if ok then old(buffer) + Encode16(c) else old(buffer)
    {
      DecodeExact(s[p..p + 4]);
      var d := Utf8Decode(s[p..p + 4]);
      ok, next, c := d.e == 0, p + d.advance, d.c;
      if !ok { return; }
      assert s[p..p + 4][..d.advance] == s[p..next];
      if d.c <= 0xFFFF {
        buffer := buffer + [d.c];
      } else {
        var cp := d.c - 0x10000;
        buffer := buffer + [0xD800 + cp / 0x400, 0xDC00 + cp % 0x400];
      }
    }

    /** The whole text: four-byte blocks while they fit, then a zero-padded copy of the last bytes. */
    method Convert(s: seq<Byte>) returns (ok: bool, ghost cs: seq<int>)
      requires buffer == []
      modifies this
      ensures ok <==> WellFormed(s)
      ensures ok ==> AllScalar(cs) && s == EncodeAll8(cs) && buffer == EncodeAll16(cs) + [0]
    {
      var p := 0;
      cs := [];
      while p + 4 <= |s|
        invariant Read(s, p, cs, buffer)
      {
        FourBytesDecide(s[p..], s[p..p + 4]);
        ghost var written := buffer;
        var next;
        ghost var c;
        ok, next, c := Transcode(s, p);
        if !ok {
          ReadNone(s, p, cs, written);
          return;
        }
        ReadMore(s, p, next, cs, written, c);
        p, cs := next, cs + [c];
      }
      ok, cs := ConvertTail(s, p, cs);
      if ok { buffer := buffer + [0]; }
    }

    /** The last characters, out of a buffer of seven bytes. */
    method ConvertTail(s: seq<Byte>, start: nat, ghost before: seq<int>) returns (ok: bool, ghost cs: seq<int>)
      requires start <= |s| < start + 4 && Read(s, start, before, buffer)
      modifies this
      ensures ok <==> WellFormed(s)
      ensures ok ==> AllScalar(cs) && s == EncodeAll8(cs) && buffer == EncodeAll16(cs)
    {
      var left := |s| - start;
      cs, ok := before, true;
      var p := 0;
      ghost var at := start;
      var buf := Padded(s, start);
      while p < left
        invariant at == start + p && Read(s, at, cs, buffer) && PaddedCopy(s, start, buf)
      {
        ghost var written := buffer;
        var next;
        ghost var c;
        ok, next, c := Transcode(buf, p);
        if !ok {
          TailNone(s, start, buf, p, cs, written);
          return;
        }
        TailMore(s, start, buf, p, next, cs, written, c);
        p, at, cs := next, start + next, cs + [c];
      }
      ReadAll(s, at, cs, buffer);
      ok := true;
    }
  }
}
