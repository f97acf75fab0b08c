/** The mobile app's base64 decoder (apps/mobile/lib/jwt.ts), with its 32-bit accumulator. */
module Base64Decoder {
  import opened Seqs

  /** A six-bit digit of the alphabet. */
  type Sextet = n: int | 0 <= n < 64
  type Byte = n: int | 0 <= n < 256

  const WORD := 0x1_0000_0000

  function Pow2(n: nat): (p: nat)
    ensures p > 0
  {
    if n == 0 then 1 else 2 * Pow2(n - 1)
  }

  /** Wrap-around to a signed 32-bit integer, as JavaScript's bitwise operators do it. */
  function ToInt32(n: int): int
  {
    var m := n % WORD;
    if m < 0x8000_0000 then m else m - WORD
  }

  /** `n >> bits` on a signed word: division rounding down. */
  function ShiftRight(n: int, bits: nat): int
  {
    n / Pow2(bits)
  }

  /** The position of `c` in the base64 alphabet, or -1. */
  function IndexOf(c: char): (i: int)
    ensures -1 <= i < 64
  {
    if 'A' <= c <= 'Z' then c as int - 'A' as int
    else if 'a' <= c <= 'z' then c as int - 'a' as int + 26
    else if '0' <= c <= '9' then c as int - '0' as int + 52
    else if c == '+' then 62
    else if c == '/' then 63
    else -1
  }

  function ReplaceUrlChars(s: string): (r: string)
    ensures |r| == |s|
  {
    seq(|s|, i requires 0 <= i < |s| => if s[i] == '-' then '+' else if s[i] == '_' then '/' else s[i])
  }

  function StripPadding(s: string): string
  {
    if s != "" && s[|s| - 1] == '=' then StripPadding(s[..|s| - 1]) else s
  }

  /** The digits of a string, characters outside the alphabet skipped. */
  function Digits(s: string): seq<Sextet>
  {
    if s == "" then []
    else
      var value := IndexOf(s[|s| - 1]);
      Digits(s[..|s| - 1]) + (if value == -1 then [] else [value])
  }

  function InputDigits(input: string): seq<Sextet>
  {
    Digits(StripPadding(ReplaceUrlChars(input)))
  }

  /** `String.fromCharCode` of each byte. */
  function FromBytes(bytes: seq<Byte>): (s: string)
    ensures |s| == |bytes|
  {
    seq(|bytes|, i requires 0 <= i < |bytes| => bytes[i] as char)
  }

  // ---------- bit streams ----------

  /** Bit `k` of `n`, counted from the low end. */
  predicate Bit(n: int, k: nat)
  {
    ShiftRight(n, k) % 2 == 1
  }

  /** The low `width` bits of `n`, most significant first. */
  function Bits(n: int, width: nat): (b: seq<bool>)
    ensures |b| == width
  {
    seq(width, i requires 0 <= i < width => Bit(n, width - 1 - i))
  }

  function DigitBits(digits: seq<Sextet>): (b: seq<bool>)
    ensures |b| == 6 * |digits|
  {
    if digits == [] then [] else Bits(digits[0], 6) + DigitBits(digits[1..])
  }

  function ByteBits(bytes: seq<Byte>): (b: seq<bool>)
    ensures |b| == 8 * |bytes|
  {
    if bytes == [] then [] else Bits(bytes[0], 8) + ByteBits(bytes[1..])
  }

  /** The number a run of bits stands for. */
  function Number(bits: seq<bool>): (n: nat)
    ensures n < Pow2(|bits|)
  {
    if bits == [] then 0 else 2 * Number(bits[..|bits| - 1]) + (if bits[|bits| - 1] then 1 else 0)
  }

  /** The whole bytes of a bit stream; a last group of fewer than eight bits is dropped. */
  function WholeBytes(bits: seq<bool>): (bytes: seq<Byte>)
    ensures |bytes| == |bits| / 8
  {
    if |bits| < 8 then []
    else
      assert Pow2(|bits[..8]|) == 256 by { SmallPowers(); }
      [Number(bits[..8])] + WholeBytes(bits[8..])
  }

  /** What an input stands for: the whole bytes of the bit stream its digits spell. */
  function Decoded(input: string): (bytes: seq<Byte>)
    ensures |bytes| == 6 * |InputDigits(input)| / 8
  {
    WholeBytes(DigitBits(InputDigits(input)))
  }

  lemma {:induction false} DigitBitsConcat(a: seq<Sextet>, b: seq<Sextet>)
    ensures DigitBits(a + b) == DigitBits(a) + DigitBits(b)
  {
    if a == [] {
      assert a + b == b;
    } else {
      assert (a + b)[1..] == a[1..] + b;
      DigitBitsConcat(a[1..], b);
    }
  }

  lemma {:induction false} ByteBitsConcat(a: seq<Byte>, b: seq<Byte>)
    ensures ByteBits(a + b) == ByteBits(a) + ByteBits(b)
  {
    if a == [] {
      assert a + b == b;
    } else {
      assert (a + b)[1..] == a[1..] + b;
      ByteBitsConcat(a[1..], b);
    }
  }

  lemma DigitBitsAppend(digits: seq<Sextet>, digit: Sextet)
    ensures DigitBits(digits + [digit]) == DigitBits(digits) + Bits(digit, 6)
  {
    DigitBitsConcat(digits, [digit]);
    assert DigitBits([digit]) == Bits(digit, 6) + DigitBits([]);
  }

  lemma ByteBitsAppend(bytes: seq<Byte>, byte: Byte)
    ensures ByteBits(bytes + [byte]) == ByteBits(bytes) + Bits(byte, 8)
  {
    ByteBitsConcat(bytes, [byte]);
    assert ByteBits([byte]) == Bits(byte, 8) + ByteBits([]);
  }

  lemma {:induction false} NumberOfBits(n: nat, width: nat)
    requires n < Pow2(width)
    ensures Number(Bits(n, width)) == n
    decreases width
  {
    if width > 0 {
      BitsSplit(n, 1, width - 1);
      assert ShiftRight(n, 1) == n / 2;
      assert Bits(n, width)[..width - 1] == Bits(n / 2, width - 1);
      NumberOfBits(n / 2, width - 1);
      assert Bits(n, width)[width - 1] == Bit(n, 0);
      assert Bit(n, 0) == (n % 2 == 1);
    }
  }

  /** Bytes are recovered from their bits, whatever fraction of a byte follows. */
  lemma {:induction false} WholeBytesOfByteBits(bytes: seq<Byte>, rest: seq<bool>)
    requires |rest| < 8
    ensures WholeBytes(ByteBits(bytes) + rest) == bytes
  {
    if bytes != [] {
      var all := ByteBits(bytes) + rest;
      assert all[..8] == Bits(bytes[0], 8);
      assert all[8..] == ByteBits(bytes[1..]) + rest;
      SmallPowers();
      NumberOfBits(bytes[0], 8);
      WholeBytesOfByteBits(bytes[1..], rest);
    }
  }

  lemma ProductAtLeast(k: int, d: int)
    requires k >= 1 && d > 0
    ensures k * d >= d
  {
  }

  lemma QuotientUnique(n: int, d: int, q: int, r: int)
    requires d > 0 && n == q * d + r && 0 <= r < d
    ensures n / d == q
  {
    var k := n / d - q;
    assert n == (n / d) * d + n % d;
    assert k * d == r - n % d;
    if k >= 1 {
      ProductAtLeast(k, d);
    } else if k <= -1 {
      ProductAtLeast(-k, d);
    }
  }

  lemma {:induction false} Pow2Add(a: nat, b: nat)
    ensures Pow2(a + b) == Pow2(a) * Pow2(b)
    decreases a
  {
    if a > 0 {
      Pow2Add(a - 1, b);
      Doubled(Pow2(a - 1), Pow2(b));
    }
  }

  lemma Doubled(x: int, y: int)
    ensures 2 * (x * y) == (2 * x) * y
  {
  }

  lemma QuotientTwice(n: int, p: nat, q: nat)
    requires p > 0 && q > 0
    ensures p * q > 0 && (n / p) / q == n / (p * q)
  {
    var once, low := DivMod(n, p);
    var twice, mid := DivMod(once, q);
    TimesTwice(twice, q, mid, p);
    ProductAtMost(mid, q - 1, p);
    Distribute(q, -1, p);
    ProductAtLeast(q, p);
    QuotientUnique(n, p * q, twice, mid * p + low);
  }

  lemma TimesTwice(twice: int, q: int, mid: int, p: int)
    ensures (twice * q + mid) * p == twice * (p * q) + mid * p
  {
    Distribute(twice * q, mid, p);
    Rotate(twice, q, p);
  }

  lemma Rotate(x: int, y: int, z: int)
    ensures (x * y) * z == x * (z * y)
  {
  }

  /** Shifting twice is shifting by the sum. */
  lemma ShiftTwice(n: int, a: nat, b: nat)
    ensures ShiftRight(ShiftRight(n, a), b) == ShiftRight(n, a + b)
  {
    Pow2Add(a, b);
    QuotientTwice(n, Pow2(a), Pow2(b));
  }

  lemma ProductAtMost(x: nat, y: nat, p: nat)
    requires x <= y
    ensures 0 <= x * p <= y * p
  {
  }

  /** A run of bits splits at any point into a shifted part and a low part. */
  lemma BitsSplit(n: int, low: nat, high: nat)
    ensures Bits(n, low + high) == Bits(ShiftRight(n, low), high) + Bits(n, low)
  {
    var whole, upper := Bits(n, low + high), Bits(ShiftRight(n, low), high);
    forall i | 0 <= i < high
      ensures whole[i] == upper[i]
    {
      var k := high - 1 - i;
      ShiftTwice(n, low, k);
      assert low + high - 1 - i == low + k;
      assert whole[i] == Bit(n, low + k);
      assert upper[i] == Bit(ShiftRight(n, low), k);
    }
  }

  lemma ParityKept(a: int, b: int, p: nat, t: int)
    requires p > 0 && a == b + (2 * t) * p
    ensures (a / p) % 2 == (b / p) % 2
  {
    var x, r := DivMod(b, p);
    Distribute(x, 2 * t, p);
    QuotientUnique(a, p, x + 2 * t, r);
    SameParity(x, t);
  }

  lemma SameParity(x: int, t: int)
    ensures (x + 2 * t) % 2 == x % 2
  {
  }

  lemma DivMod(n: int, d: nat) returns (quotient: int, rest: int)
    requires d > 0
    ensures n == quotient * d + rest && 0 <= rest < d && quotient == n / d
  {
    quotient, rest := n / d, n % d;
  }

  lemma Distribute(x: int, y: int, p: int)
    ensures (x + y) * p == x * p + y * p
  {
  }

  /** Bits above the low `width` are never seen. */
  lemma BitsCongruent(a: int, b: int, q: int, width: nat)
    requires a == b + q * Pow2(width)
    ensures Bits(a, width) == Bits(b, width)
  {
    forall k: nat | k < width
      ensures Bit(a, k) == Bit(b, k)
    {
      var p, t := Pow2(k), Pow2(width - k - 1);
      Pow2Add(k, width - k);
      Regroup(q, p, t);
      ParityKept(a, b, p, q * t);
    }
  }

  lemma Regroup(q: int, p: int, t: int)
    ensures q * (p * (2 * t)) == (2 * (q * t)) * p
  {
    assert p * (2 * t) == 2 * (t * p);
    assert q * (2 * (t * p)) == 2 * (q * (t * p));
    assert q * (t * p) == (q * t) * p;
  }

  /** A number written as a high part and `width` low bits. */
  lemma BitsJoin(high: int, low: int, width: nat, count: nat)
    requires 0 <= low < Pow2(width)
    ensures Bits(high * Pow2(width) + low, count + width) == Bits(high, count) + Bits(low, width)
  {
    var n := high * Pow2(width) + low;
    BitsSplit(n, width, count);
    QuotientUnique(n, Pow2(width), high, low);
    BitsCongruent(n, low, high, width);
  }

  lemma SmallPowers()
    ensures Pow2(2) == 4 && Pow2(4) == 16 && Pow2(6) == 64 && Pow2(8) == 256
  {
  }

  lemma Wraps(n: int) returns (q: int)
    ensures ToInt32(n) == n + q * WORD
  {
    q := -(n / WORD) - (if n % WORD < 0x8000_0000 then 0 else 1);
  }

  lemma ZeroBits(k: nat)
    ensures !Bit(0, k)
  {
    QuotientUnique(0, Pow2(k), 0, 0);
  }

  /** Shifting left by six, wrapped or not, clears the low six bits. */
  lemma LowSixClear(buffer: int)
    ensures ToInt32(buffer * 64) % 64 == 0
  {
    var q := Wraps(buffer * 64);
    assert ToInt32(buffer * 64) == 64 * (buffer + q * 0x400_0000);
  }

  /**
   * Why `|` is `+` here: the accumulator shifted by six and the digit have no bit in common, so each
   * bit of the sum is set exactly when it is set in one of them, sign bits included.
   */
  lemma OrIsPlus(buffer: int, value: Sextet, k: nat)
    ensures var shifted := ToInt32(buffer * 64);
      Bit(shifted + value, k) <==> Bit(shifted, k) || Bit(value, k)
  {
    var shifted := ToInt32(buffer * 64);
    LowSixClear(buffer);
    SmallPowers();
    var high := shifted / 64;
    if k < 6 {
      BitsCongruent(shifted + value, value, high, 6);
      BitsCongruent(shifted, 0, high, 6);
      ZeroBits(k);
      SameBits(shifted + value, value, 6, k);
      SameBits(shifted, 0, 6, k);
    } else {
      ShiftTwice(shifted + value, 6, k - 6);
      ShiftTwice(shifted, 6, k - 6);
      ShiftTwice(value, 6, k - 6);
      QuotientUnique(shifted + value, 64, high, value);
      ZeroBits(k - 6);
    }
  }

  lemma SameBits(a: int, b: int, width: nat, k: nat)
    requires k < width && Bits(a, width) == Bits(b, width)
    ensures Bit(a, k) == Bit(b, k)
  {
    assert Bits(a, width)[width - 1 - k] == Bit(a, k);
    assert Bits(b, width)[width - 1 - k] == Bit(b, k);
  }

  /** A shifted accumulator keeps its low bits and gains the six of the digit; the wrap is invisible. */
  lemma PushDigit(buffer: int, value: Sextet, bits: nat)
    requires bits in {0, 2, 4, 6}
    ensures Bits(ToInt32(buffer * 64) + value, bits + 6) == Bits(buffer, bits) + Bits(value, 6)
  {
    SmallPowers();
    var q := Wraps(buffer * 64);
    var high := buffer + q * 0x400_0000;
    assert ToInt32(buffer * 64) + value == high * 64 + value;
    BitsJoin(high, value, 6, bits);
    WrapUnseen(buffer, q, bits);
  }

  lemma WrapUnseen(buffer: int, q: int, bits: nat)
    requires bits in {0, 2, 4, 6}
    ensures Bits(buffer + q * 0x400_0000, bits) == Bits(buffer, bits)
  {
    SmallPowers();
    var t := if bits == 0 then q * 0x400_0000 else if bits == 2 then q * 0x100_0000
             else if bits == 4 then q * 0x40_0000 else q * 0x10_0000;
    BitsCongruent(buffer + q * 0x400_0000, buffer, t, bits);
  }

  /** Taking the top byte of at most twelve live bits. */
  lemma PopByte(buffer: int, bits: nat)
    requires bits in {0, 2, 4}
    ensures Bits(buffer, bits + 8) == Bits(ShiftRight(buffer, bits) % 256, 8) + Bits(buffer, bits)
  {
    SmallPowers();
    BitsSplit(buffer, bits, 8);
    var shifted := ShiftRight(buffer, bits);
    BitsCongruent(shifted, shifted % 256, shifted / 256, 8);
  }

  /** Numbers 4096 apart shift to numbers with the same low byte. */
  lemma SameLowByte(a: int, b: int, d: nat, k: nat, t: int)
    requires d > 0 && k * d == 16 && a == b + 4096 * t
    ensures (a / d) % 256 == (b / d) % 256
  {
    var x, r := DivMod(b, d);
    Distribute(x, 256 * (k * t), d);
    Regrouped(t, k, d);
    QuotientUnique(a, d, x + 256 * (k * t), r);
  }

  lemma Regrouped(t: int, k: int, d: int)
    requires k * d == 16
    ensures (256 * (k * t)) * d == 4096 * t
  {
    assert (k * t) * d == (k * d) * t;
    assert (256 * (k * t)) * d == 256 * ((k * t) * d);
  }

  /** The byte written out is decided by the low twelve bits of the accumulator. */
  lemma OnlyTwelveBitsRead(a: int, b: int, bits: nat)
    requires bits in {0, 2, 4} && (a - b) % 4096 == 0
    ensures ShiftRight(a, bits) % 256 == ShiftRight(b, bits) % 256
  {
    SmallPowers();
    var t, rest := DivMod(a - b, 4096);
    var k := if bits == 0 then 16 else if bits == 2 then 4 else 1;
    SameLowByte(a, b, Pow2(bits), k, t);
  }

  /** The bytes still to be written, from the digits still to be read and the accumulator so far. */
  function Rest(digits: seq<Sextet>, buffer: int, bits: nat): seq<Byte>
    requires bits in {0, 2, 4, 6}
    decreases |digits|
  {
    if digits == [] then []
    else
      var pushed := ToInt32(buffer * 64) + digits[0];
      if bits + 6 < 8 then Rest(digits[1..], pushed, bits + 6)
      else [ShiftRight(pushed, bits - 2) % 256] + Rest(digits[1..], pushed, bits - 2)
  }

  lemma PushedApart(a: int, b: int, value: int)
    requires (a - b) % 4096 == 0
    ensures ((ToInt32(a * 64) + value) - (ToInt32(b * 64) + value)) % 4096 == 0
  {
    var t, rest := DivMod(a - b, 4096);
    var q := Wraps(a * 64);
    var r := Wraps(b * 64);
    assert ToInt32(a * 64) - ToInt32(b * 64) == 4096 * (64 * t + (q - r) * 0x10_0000);
  }

  /**
   * From any point on, accumulators with the same low twelve bits write the same bytes: masking it, or
   * never wrapping it, would change nothing.
   */
  lemma {:induction false} RestReadsTwelveBits(digits: seq<Sextet>, a: int, b: int, bits: nat)
    requires bits in {0, 2, 4, 6} && (a - b) % 4096 == 0
    ensures Rest(digits, a, bits) == Rest(digits, b, bits)
    decreases |digits|
  {
    if digits != [] {
      var x, y := ToInt32(a * 64) + digits[0], ToInt32(b * 64) + digits[0];
      PushedApart(a, b, digits[0]);
      if bits + 6 >= 8 {
        OnlyTwelveBitsRead(x, y, bits - 2);
      }
      RestReadsTwelveBits(digits[1..], x, y, if bits + 6 < 8 then bits + 6 else bits - 2);
    }
  }

  lemma DigitsStep(s: string, i: nat)
    requires i < |s|
    ensures IndexOf(s[i]) == -1 ==> Digits(s[..i + 1]) == Digits(s[..i])
    ensures IndexOf(s[i]) != -1 ==> Digits(s[..i + 1]) == Digits(s[..i]) + [IndexOf(s[i])]
  {
    assert s[..i + 1][..i] == s[..i];
  }

  lemma ReadDigit(digits: seq<Sextet>, value: Sextet, bytes: seq<Byte>, buffer: int, bits: nat)
    requires bits in {0, 2, 4, 6}
    requires DigitBits(digits) == ByteBits(bytes) + Bits(buffer, bits)
    ensures DigitBits(digits + [value]) == ByteBits(bytes) + Bits(ToInt32(buffer * 64) + value, bits + 6)
  {
    PushDigit(buffer, value, bits);
    DigitBitsAppend(digits, value);
    Assoc(ByteBits(bytes), Bits(buffer, bits), Bits(value, 6));
  }

  lemma WriteByte(digits: seq<Sextet>, bytes: seq<Byte>, buffer: int, live: nat)
    requires live in {8, 10, 12}
    requires DigitBits(digits) == ByteBits(bytes) + Bits(buffer, live)
    ensures DigitBits(digits) == ByteBits(bytes + [ShiftRight(buffer, live - 8) % 256]) + Bits(buffer, live - 8)
  {
    var bits := live - 8;
    PopByte(buffer, bits);
    var byte := ShiftRight(buffer, bits) % 256;
    ByteBitsAppend(bytes, byte);
    Assoc(ByteBits(bytes), Bits(byte, 8), Bits(buffer, bits));
  }

  /** The bytes written and the live bits of the accumulator together are the bits of the digits read. */
  ghost predicate Accumulated(digits: seq<Sextet>, bytes: seq<Byte>, output: string, buffer: int, bits: nat)
  {
    && bits in {0, 2, 4, 6}
    && output == FromBytes(bytes)
    && DigitBits(digits) == ByteBits(bytes) + Bits(buffer, bits)
  }

  lemma Accumulate(digits: seq<Sextet>, bytes: seq<Byte>, output: string, buffer: int, bits: nat, value: Sextet)
    requires Accumulated(digits, bytes, output, buffer, bits)
    ensures var pushed, live := ToInt32(buffer * 64) + value, bits + 6;
      if live >= 8 then
        var byte := ShiftRight(pushed, live - 8) % 256;
        Accumulated(digits + [value], bytes + [byte], output + [byte as char], pushed, live - 8)
      else Accumulated(digits + [value], bytes, output, pushed, live)
  {
    var pushed, live := ToInt32(buffer * 64) + value, bits + 6;
    ReadDigit(digits, value, bytes, buffer, bits);
    if live >= 8 {
      WriteByte(digits + [value], bytes, pushed, live);
    }
  }

  lemma WholeAtTheEnd(done: seq<Sextet>, bytes: seq<Byte>, output: string, buffer: int, bits: nat)
    requires Accumulated(done, bytes, output, buffer, bits)
    ensures bytes == WholeBytes(DigitBits(done))
  {
    WholeBytesOfByteBits(bytes, Bits(buffer, bits));
  }

  lemma FirstDigit(done: seq<Sextet>, digits: seq<Sextet>)
    requires digits != []
    ensures done + digits == done + [digits[0]] + digits[1..]
  {
  }

  /** What is written and what is still to be written are these bytes. */
  ghost predicate Completes(bytes: seq<Byte>, digits: seq<Sextet>, buffer: int, bits: nat, all: seq<Byte>)
    requires bits in {0, 2, 4, 6}
  {
    bytes + Rest(digits, buffer, bits) == all
  }

  lemma CompletesShort(bytes: seq<Byte>, digits: seq<Sextet>, buffer: int, all: seq<Byte>)
    requires digits != [] && Completes(bytes, digits[1..], ToInt32(buffer * 64) + digits[0], 6, all)
    ensures Completes(bytes, digits, buffer, 0, all)
  {
  }

  lemma CompletesLong(bytes: seq<Byte>, digits: seq<Sextet>, buffer: int, bits: nat, all: seq<Byte>)
    requires digits != [] && bits in {2, 4, 6}
    requires var pushed := ToInt32(buffer * 64) + digits[0];
      Completes(bytes + [ShiftRight(pushed, bits - 2) % 256], digits[1..], pushed, bits - 2, all)
    ensures Completes(bytes, digits, buffer, bits, all)
  {
    var pushed := ToInt32(buffer * 64) + digits[0];
    Assoc(bytes, [ShiftRight(pushed, bits - 2) % 256], Rest(digits[1..], pushed, bits - 2));
  }

  lemma {:induction false} WrittenAndRest(all: seq<Sextet>, done: seq<Sextet>, digits: seq<Sextet>, bytes: seq<Byte>,
                                          output: string, buffer: int, bits: nat)
    requires all == done + digits && Accumulated(done, bytes, output, buffer, bits)
    ensures Completes(bytes, digits, buffer, bits, WholeBytes(DigitBits(all)))
    decreases |digits|
  {
    var goal := WholeBytes(DigitBits(all));
    if digits == [] {
      assert all == done && bytes + [] == bytes;
      WholeAtTheEnd(done, bytes, output, buffer, bits);
    } else {
      var pushed, others := ToInt32(buffer * 64) + digits[0], digits[1..];
      Accumulate(done, bytes, output, buffer, bits, digits[0]);
      FirstDigit(done, digits);
      if bits == 0 {
        WrittenAndRest(all, done + [digits[0]], others, bytes, output, pushed, bits + 6);
        CompletesShort(bytes, digits, buffer, goal);
      } else {
        var byte := ShiftRight(pushed, bits - 2) % 256;
        WrittenAndRest(all, done + [digits[0]], others, bytes + [byte], output + [byte as char], pushed, bits - 2);
        CompletesLong(bytes, digits, buffer, bits, goal);
      }
    }
  }

  /** The decoder's output is what is still to be written at the start. */
  lemma RestIsDecoded(input: string)
    ensures Decoded(input) == Rest(InputDigits(input), 0, 0)
  {
    var digits := InputDigits(input);
    assert [] + digits == digits;
    WrittenAndRest(digits, [], digits, [], "", 0, 0);
    assert [] + Rest(digits, 0, 0) == Rest(digits, 0, 0);
  }

  /** Whatever the input, the output is the whole bytes of its digits' bit stream. */
  method Base64Decode(input: string) returns (output: string)
    ensures output == FromBytes(Decoded(input))
  {
    var clean := StripPadding(ReplaceUrlChars(input));
    output := "";
    ghost var bytes: seq<Byte> := [];
    var buffer, bits := 0, 0;
    ghost var digits: seq<Sextet> := [];
    for i := 0 to |clean|
      invariant digits == Digits(clean[..i])
      invariant Accumulated(digits, bytes, output, buffer, bits)
    {
      DigitsStep(clean, i);
      var value := IndexOf(clean[i]);
      if value != -1 {
        Accumulate(digits, bytes, output, buffer, bits, value);
        digits := digits + [value];
        buffer := ToInt32(buffer * 64) + value;
        bits := bits + 6;
        if bits >= 8 {
          bits := bits - 8;
          var byte := ShiftRight(buffer, bits) % 256;
          output := output + [byte as char];
          bytes := bytes + [byte];
        }
      }
    }
    assert clean[..|clean|] == clean;
    WholeBytesOfByteBits(bytes, Bits(buffer, bits));
  }

  // ---------- the small functions, said outright ----------

  /** A character of the standard alphabet. */
  predicate InAlphabet(c: char)
  {
    'A' <= c <= 'Z' || 'a' <= c <= 'z' || '0' <= c <= '9' || c == '+' || c == '/'
  }

  /** Positions run through A to Z, a to z, 0 to 9, plus and slash, in this order; no other character has one. */
  lemma IndexOfExactly(c: char)
    ensures IndexOf(c) == -1 <==> !InAlphabet(c)
    ensures IndexOf('A') == 0 && IndexOf('a') == IndexOf('Z') + 1 && IndexOf('0') == IndexOf('z') + 1
    ensures IndexOf('+') == IndexOf('9') + 1 && IndexOf('/') == IndexOf('+') + 1 == 63
    ensures 'A' <= c < 'Z' || 'a' <= c < 'z' || '0' <= c < '9' ==> IndexOf((c as int + 1) as char) == IndexOf(c) + 1
  {
  }

  /** The wrapped number is the signed 32-bit one that differs by a multiple of 2 to the 32. */
  lemma Int32Exactly(n: int)
    ensures -0x8000_0000 <= ToInt32(n) < 0x8000_0000 && (n - ToInt32(n)) % 0x1_0000_0000 == 0
  {
  }

  /** What is left of a text is its beginning up to the trailing equals signs, all of them gone. */
  lemma {:induction false} StripPaddingExactly(s: string)
    ensures var kept := StripPadding(s);
      && kept <= s && (kept != "" ==> kept[|kept| - 1] != '=')
      && forall i :: |kept| <= i < |s| ==> s[i] == '='
  {
    if s != "" && s[|s| - 1] == '=' {
      StripPaddingExactly(s[..|s| - 1]);
    }
  }

  lemma ReplaceUrlCharsExactly(s: string, i: nat)
    requires i < |s|
    ensures var r := ReplaceUrlChars(s);
      && (s[i] == '-' ==> r[i] == '+') && (s[i] == '_' ==> r[i] == '/')
      && (s[i] != '-' && s[i] != '_' ==> r[i] == s[i])
  {
  }

  /** A character of the alphabet is one digit, any other is none. */
  lemma DigitOfOne(c: char)
    ensures Digits([c]) == if InAlphabet(c) then [IndexOf(c)] else []
  {
    IndexOfExactly(c);
    assert [c][..0] == "" && Digits("") == [];
  }

  /** The digits of a text are those of its parts, in order. */
  lemma {:induction false} DigitsConcat(s: string, t: string)
    ensures Digits(s + t) == Digits(s) + Digits(t)
  {
    if t == "" {
      assert s + t == s;
    } else {
      var n := |t| - 1;
      assert (s + t)[..|s + t| - 1] == s + t[..n];
      DigitsConcat(s, t[..n]);
    }
  }

  /** A byte becomes the character of its own code. */
  lemma FromBytesExactly(bytes: seq<Byte>, i: nat)
    requires i < |bytes|
    ensures |FromBytes(bytes)| == |bytes| && FromBytes(bytes)[i] as int == bytes[i]
  {
  }
}
