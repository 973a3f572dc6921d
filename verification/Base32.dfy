/** base32_encode, against section 6 of RFC 4648 read as bit strings, without padding characters. */
module Base32 {
  import opened Powers
  import opened Words

  type Bits = seq<bool>

  const ALPHABET := "ABCDEFGHIJKLMNOPQRSTUVWXYZ234567"

  /** The n low bits of x, most significant first. */
  function LowBits(x: nat, n: nat): (b: Bits)
    ensures |b| == n
  {
    if n == 0 then [] else LowBits(x / 2, n - 1) + [x % 2 == 1]
  }

  function Number(b: Bits): nat {
    if b == [] then 0 else 2 * Number(b[..|b| - 1]) + if b[|b| - 1] then 1 else 0
  }

  lemma {:induction false} NumberOfLowBits(x: nat, n: nat)
    requires x < Pow(2, n)
    ensures Number(LowBits(x, n)) == x
  {
    if n > 0 {
      NumberOfLowBits(x / 2, n - 1);
      assert LowBits(x, n)[..n - 1] == LowBits(x / 2, n - 1);
    }
  }

  lemma {:induction false} LowBitsOfNumber(b: Bits)
    ensures Number(b) < Pow(2, |b|) && LowBits(Number(b), |b|) == b
  {
    if b != [] {
      LowBitsOfNumber(b[..|b| - 1]);
      assert b[..|b| - 1] + [b[|b| - 1]] == b;
    }
  }

  lemma {:induction false} ShiftedRightHalf(x: nat, n: nat)
    requires n > 0
    ensures ShiftedRight(x, n) == ShiftedRight(x / 2, n - 1)
  {
    if n > 1 { ShiftedRightHalf(x, n - 1); }
  }

  lemma {:induction false} SplitBits(x: nat, m: nat, n: nat)
    ensures LowBits(x, m + n) == LowBits(ShiftedRight(x, n), m) + LowBits(x, n)
  {
    if n > 0 {
      ShiftedRightHalf(x, n);
      SplitBits(x / 2, m, n - 1);
      assert LowBits(x, m + n) == LowBits(x / 2, m + (n - 1)) + [x % 2 == 1];
    } else {
      assert LowBits(x, m) + [] == LowBits(x, m);
    }
  }

  /** Bits below k do not see a reduction modulo 2^k. */
  lemma {:induction false} WrapBits(x: nat, n: nat, k: nat)
    requires n <= k
    ensures LowBits(x % Pow(2, k), n) == LowBits(x, n)
  {
    if n > 0 {
      HalfOfWrapped(x, Pow(2, k - 1));
      WrapBits(x / 2, n - 1, k - 1);
    }
  }

  lemma HalfOfWrapped(x: int, m: int)
    requires x >= 0 && m > 0
    ensures (x % (2 * m)) / 2 == (x / 2) % m && (x % (2 * m)) % 2 == x % 2
  {
    var q, r := x / (2 * m), x % (2 * m);
    assert x == 2 * (m * q) + r;
    QuotientUnique(x / 2, m, q, r / 2);
  }

  lemma {:induction false} ShiftedLeft(x: nat, b: nat, n: nat)
    ensures LowBits(x * Pow(2, n), b + n) == LowBits(x, b) + LowBits(0, n)
  {
    if n > 0 {
      var y := x * Pow(2, n - 1);
      assert x * Pow(2, n) == 2 * y by { Doubled(x, Pow(2, n - 1)); }
      ShiftedLeft(x, b, n - 1);
    } else {
      assert x * Pow(2, 0) == x;
    }
  }

  lemma Doubled(x: int, p: int)
    ensures x * (2 * p) == 2 * (x * p)
  {
  }

  lemma SmallPowers()
    ensures Pow(2, 5) == 32 && Pow(2, 8) == 256 && Pow(2, 24) == 0x100_0000 && Pow(2, 32) == 0x1_0000_0000
  {
    assert Pow(2, 5) == 32;
    assert Pow(2, 8) == 256;
    assert Pow(2, 16) == 0x1_0000 by { PowAdd(2, 8, 8); }
    assert Pow(2, 24) == 0x100_0000 by { PowAdd(2, 16, 8); }
    assert Pow(2, 32) == 0x1_0000_0000 by { PowAdd(2, 24, 8); }
  }

  /** buffer <<= 8; buffer |= next: the unread bits grow by those of the next byte. */
  lemma ByteAppended(x: nat, next: Byte, b: nat)
    requires b <= 24
    ensures LowBits(x * 256 % 0x1_0000_0000 + next, b + 8) == LowBits(x, b) + LowBits(next, 8)
  {
    SmallPowers();
    var z := x % 0x100_0000;
    ShiftWraps(x);
    WrapBits(x, b, 24);
    ByteBehind(z, next, b);
  }

  lemma ByteBehind(z: nat, next: Byte, b: nat)
    ensures LowBits(z * 256 + next, b + 8) == LowBits(z, b) + LowBits(next, 8)
  {
    SmallPowers();
    var y := z * 256 + next;
    SplitBits(y, b, 8);
    ShiftedRightQuotient(y, 8);
    QuotientUnique(y, 256, z, next);
    WrapBits(y, 8, 8);
  }

  lemma ShiftWraps(x: nat)
    ensures x * 256 % 0x1_0000_0000 == x % 0x100_0000 * 256
  {
    QuotientUnique(x * 256, 0x1_0000_0000, x / 0x100_0000, x % 0x100_0000 * 256);
  }

  /** buffer <<= n at the end of the data: the unread bits, filled up with zeros. */
  lemma ZerosAppended(x: nat, b: nat, n: nat)
    requires b + n <= 32
    ensures LowBits(x * Pow(2, n) % 0x1_0000_0000, b + n) == LowBits(x, b) + LowBits(0, n)
  {
    SmallPowers();
    WrapBits(x * Pow(2, n), b + n, 32);
    ShiftedLeft(x, b, n);
  }

  /** 0x1F & (buffer >> (b - 5)): the first five of the unread bits, and what stays unread. */
  lemma FiveTaken(x: nat, b: nat)
    requires b >= 5
    ensures var index := ShiftedRight(x, b - 5) % 32;
      && index == Number(LowBits(x, b)[..5]) < 32 && LowBits(x, b)[5..] == LowBits(x, b - 5)
  {
    SmallPowers();
    SplitBits(x, 5, b - 5);
    WrapBits(ShiftedRight(x, b - 5), 5, 5);
    NumberOfLowBits(ShiftedRight(x, b - 5) % 32, 5);
  }

  function BitsOf(data: seq<Byte>): (b: Bits)
    ensures |b| == 8 * |data|
  {
    if data == [] then [] else LowBits(data[0], 8) + BitsOf(data[1..])
  }

  /** One character per five bits; the last group is filled up with zeros. */
  function Symbols(b: Bits): (s: string)
    ensures |s| == (|b| + 4) / 5
  {
    if b == [] then [] else if |b| < 5 then [SymbolOf(b + LowBits(0, 5 - |b|))] else [SymbolOf(b[..5])] + Symbols(b[5..])
  }

  function SymbolOf(five: Bits): char
    requires |five| == 5
  {
    LowBitsOfNumber(five);
    SmallPowers();
    Letter(Number(five))
  }

  /** Table 3 of RFC 4648: A to Z, then 2 to 7. */
  function Letter(i: nat): char
    requires i < 32
  {
    if i < 26 then ('A' as int + i) as char else ('2' as int + (i - 26)) as char
  }

  lemma AlphabetIsTable(i: nat)
    requires i < 32
    ensures ALPHABET[i] == Letter(i)
  {
  }

  /** The index of a character by the same table. */
  function IndexOf(c: char): nat {
    if 'A' <= c <= 'Z' then c as int - 'A' as int else if '2' <= c <= '7' then c as int - '2' as int + 26 else 0
  }

  /** Decoding: the five bits of each character, one after the other, cut into bytes. */
  function SymbolBits(s: string): Bits {
    if s == [] then [] else LowBits(IndexOf(s[0]), 5) + SymbolBits(s[1..])
  }

  function Bytes(b: Bits): seq<Byte> {
    if |b| < 8 then [] else [ByteOf(b[..8])] + Bytes(b[8..])
  }

  function ByteOf(eight: Bits): Byte
    requires |eight| == 8
  {
    LowBitsOfNumber(eight);
    SmallPowers();
    Number(eight)
  }

  function Decode(s: string): seq<Byte> { Bytes(SymbolBits(s)) }

  function Encoding(data: seq<Byte>): string { Symbols(BitsOf(data)) }

  lemma SymbolDecodes(five: Bits)
    requires |five| == 5
    ensures LowBits(IndexOf(SymbolOf(five)), 5) == five
  {
    LowBitsOfNumber(five);
    SmallPowers();
  }

  /** The bits come back, with the zeros that filled up the last group. */
  lemma {:induction false} SymbolsDecode(b: Bits) returns (n: nat)
    ensures n < 5 && SymbolBits(Symbols(b)) == b + LowBits(0, n)
  {
    if b == [] {
      n := 0;
    } else if |b| < 5 {
      n := 5 - |b|;
      ShortGroup(b);
    } else {
      n := SymbolsDecode(b[5..]);
      FullGroup(b, n);
    }
  }

  lemma ShortGroup(b: Bits)
    requires 0 < |b| < 5
    ensures SymbolBits(Symbols(b)) == b + LowBits(0, 5 - |b|)
  {
    var filled := b + LowBits(0, 5 - |b|);
    SymbolDecodes(filled);
    FirstSymbol(SymbolOf(filled), []);
    assert filled + [] == filled;
  }

  lemma FullGroup(b: Bits, n: nat)
    requires |b| >= 5 && SymbolBits(Symbols(b[5..])) == b[5..] + LowBits(0, n)
    ensures SymbolBits(Symbols(b)) == b + LowBits(0, n)
  {
    SymbolDecodes(b[..5]);
    FirstSymbol(SymbolOf(b[..5]), Symbols(b[5..]));
    Regroup(b, 5, LowBits(0, n));
  }

  lemma Regroup(b: Bits, k: nat, z: Bits)
    requires k <= |b|
    ensures b + z == b[..k] + (b[k..] + z)
  {
  }

  lemma Associate(a: Bits, b: Bits, c: Bits)
    ensures (a + b) + c == a + (b + c)
  {
  }

  lemma FirstSymbol(c: char, rest: string)
    ensures SymbolBits([c] + rest) == LowBits(IndexOf(c), 5) + SymbolBits(rest)
  {
    assert ([c] + rest)[1..] == rest;
  }

  lemma {:induction false} BytesOfBits(data: seq<Byte>, tail: Bits)
    requires |tail| < 8
    ensures Bytes(BitsOf(data) + tail) == data
  {
    if data != [] {
      BytesOfBits(data[1..], tail);
      FirstByte(data[0], BitsOf(data[1..]) + tail);
      Associate(LowBits(data[0], 8), BitsOf(data[1..]), tail);
    }
  }

  lemma FirstByte(first: Byte, rest: Bits)
    ensures Bytes(LowBits(first, 8) + rest) == [first] + Bytes(rest)
  {
    var b := LowBits(first, 8) + rest;
    assert b[..8] == LowBits(first, 8) && b[8..] == rest;
    SmallPowers();
    NumberOfLowBits(first, 8);
  }

  /** Decoding an encoding gives the data back. */
  lemma RoundTrip(data: seq<Byte>)
    ensures Decode(Encoding(data)) == data
    ensures |Encoding(data)| == (8 * |data| + 4) / 5
  {
    var n := SymbolsDecode(BitsOf(data));
    BytesOfBits(data, LowBits(0, n));
  }

  /** What is still to be encoded: the low bits of the accumulator and the bytes not read yet. */
  ghost function Unread(buffer: nat, bitsLeft: nat, data: seq<Byte>, next: nat): Bits
    requires next <= |data|
  {
    LowBits(buffer, bitsLeft) + BitsOf(data[next..])
  }

  lemma ReadByte(buffer: nat, bitsLeft: nat, data: seq<Byte>, next: nat)
    requires bitsLeft < 5 && next < |data|
    ensures Unread(buffer * 256 % 0x1_0000_0000 + data[next], bitsLeft + 8, data, next + 1)
         == Unread(buffer, bitsLeft, data, next)
  {
    ByteAppended(buffer, data[next], bitsLeft);
    assert data[next..][1..] == data[next + 1..];
    Associate(LowBits(buffer, bitsLeft), LowBits(data[next], 8), BitsOf(data[next + 1..]));
  }

  lemma FillUp(buffer: nat, bitsLeft: nat, data: seq<Byte>)
    requires 0 < bitsLeft < 5
    ensures var pad := 5 - bitsLeft;
      Symbols(Unread(buffer * Pow(2, pad) % 0x1_0000_0000, 5, data, |data|)) == Symbols(Unread(buffer, bitsLeft, data, |data|))
  {
    var pad := 5 - bitsLeft;
    ZerosAppended(buffer, bitsLeft, pad);
    var filled := LowBits(buffer, bitsLeft) + LowBits(0, pad);
    assert data[|data|..] == [];
    assert LowBits(buffer, bitsLeft) + [] == LowBits(buffer, bitsLeft) && filled + [] == filled;
    assert filled[..5] == filled && filled[5..] == [];
  }

  /** todo is the encoding of what is still unread. */
  ghost predicate IsLeft(todo: string, buffer: nat, bitsLeft: nat, data: seq<Byte>, next: nat) {
    bitsLeft <= 12 && 1 <= next <= |data| && todo == Symbols(Unread(buffer, bitsLeft, data, next))
  }

  lemma FirstRead(data: seq<Byte>)
    requires |data| > 0
    ensures IsLeft(Encoding(data), data[0], 8, data, 1)
  {
  }

  lemma NothingLeft(todo: string, buffer: nat, data: seq<Byte>)
    requires IsLeft(todo, buffer, 0, data, |data|)
    ensures todo == ""
  {
  }

  lemma TakeFive(todo: string, buffer: nat, bitsLeft: nat, data: seq<Byte>, next: nat)
    requires bitsLeft >= 5 && IsLeft(todo, buffer, bitsLeft, data, next)
    ensures todo != "" && todo[0] == Letter(ShiftedRight(buffer, bitsLeft - 5) % 32)
    ensures IsLeft(todo[1..], buffer, bitsLeft - 5, data, next)
  {
    FiveTaken(buffer, bitsLeft);
    var b, rest := LowBits(buffer, bitsLeft), BitsOf(data[next..]);
    assert (b + rest)[..5] == b[..5] && (b + rest)[5..] == b[5..] + rest;
  }

  /** One round of the loop: a byte is read or the last bits filled up when fewer than five are left, then five go out. */
  method NextSymbol(buffer0: nat, bitsLeft0: nat, data: seq<Byte>, next0: nat, ghost todo: string)
    returns (buffer: nat, bitsLeft: nat, next: nat, symbol: char)
    requires IsLeft(todo, buffer0, bitsLeft0, data, next0) && (bitsLeft0 > 0 || next0 < |data|)
    ensures todo != "" && symbol == todo[0] && IsLeft(todo[1..], buffer, bitsLeft, data, next)
  {
    buffer, bitsLeft, next := buffer0, bitsLeft0, next0;
    if bitsLeft < 5 {
      if next < |data| {
        ReadByte(buffer, bitsLeft, data, next);
        buffer := buffer * 256 % 0x1_0000_0000 + data[next];
        next := next + 1;
        bitsLeft := bitsLeft + 8;
      } else {
        FillUp(buffer, bitsLeft, data);
        var pad := 5 - bitsLeft;
        buffer := buffer * Pow(2, pad) % 0x1_0000_0000;
        bitsLeft := bitsLeft + pad;
      }
    }
    TakeFive(todo, buffer, bitsLeft, data, next);
    var index := ShiftedRight(buffer, bitsLeft - 5) % 32;
    bitsLeft := bitsLeft - 5;
    symbol := LookUp(index);
  }

  method LookUp(index: nat) returns (c: char)
    requires index < 32
    ensures c == Letter(index)
  {
    AlphabetIsTable(index);
    c := ALPHABET[index];
  }

  /** How many of n characters fit into a buffer of this size. */
  function Fitting(bufSize: int, n: nat): nat {
    if bufSize < 0 then 0 else if bufSize < n then bufSize else n
  }

  /** A buffer that held was after text was stored, with a terminator if there is room for it. */
  function Stored(was: string, text: string, bufSize: int): string
    requires |text| <= |was| && bufSize <= |was|
  {
    if |text| < bufSize then text + ['\0'] + was[|text| + 1..] else text + was[|text|..]
  }

  /** As much of the encoding of the first length bytes as fits. */
  method Encode(data: seq<Byte>, length: int, result: array<char>, bufSize: int) returns (count: int)
    requires length <= |data| && bufSize <= result.Length
    modifies result
    ensures length < 0 || length > 0x1000_0000 ==> count == -1 && result[..] == old(result[..])
    ensures 0 <= length <= 0x1000_0000 ==> var full := Encoding(data[..length]);
      count == Fitting(bufSize, |full|) <= result.Length && result[..] == Stored(old(result[..]), full[..count], bufSize)
  {
    if length < 0 || length > 0x1000_0000 { return -1; }
    ghost var full := Encoding(data[..length]);
    count := EncodeBits(data[..length], result, bufSize, full);
    if count < bufSize {
      Terminated(old(result[..]), full[..count], bufSize);
      result[count] := '\0';
    }
  }

  lemma Terminated(was: string, text: string, bufSize: int)
    requires |text| < bufSize <= |was|
    ensures (text + was[|text|..])[|text| := '\0'] == Stored(was, text, bufSize)
  {
  }

  /** The loop. */
  method EncodeBits(input: seq<Byte>, result: array<char>, bufSize: int, ghost full: string) returns (count: int)
    requires bufSize <= result.Length && full == Encoding(input)
    modifies result
    ensures count == Fitting(bufSize, |full|) <= result.Length && result[..] == full[..count] + old(result[..])[count..]
  {
    count := 0;
    if |input| > 0 {
      var buffer: nat, next, bitsLeft := input[0], 1, 8;
      FirstRead(input);
      while count < bufSize && (bitsLeft > 0 || next < |input|)
        invariant 0 <= count <= |full| && count <= Fitting(bufSize, result.Length)
        invariant result[..] == full[..count] + old(result[..])[count..]
        invariant IsLeft(full[count..], buffer, bitsLeft, input, next)
        decreases bufSize - count
      {
        ghost var rest := old(result[..])[count..];
        var symbol;
        buffer, bitsLeft, next, symbol := NextSymbol(buffer, bitsLeft, input, next, full[count..]);
        result[count] := symbol;
        StoreNext(full, count, rest);
        count := count + 1;
      }
      if bitsLeft == 0 && next == |input| { NothingLeft(full[count..], buffer, input); }
    }
  }

  lemma StoreNext(full: string, count: nat, rest: string)
    requires count < |full| && |rest| > 0
    ensures (full[..count] + rest)[count := full[count]] == full[..count + 1] + rest[1..]
    ensures full[count..][1..] == full[count + 1..]
  {
  }
}
