/** base64url as section 5 of RFC 4648 encodes it, and the round trip through the decoder. */
module Base64Url {
  import opened Base64Decoder
  import opened Seqs

  /** A 24-bit, 18-bit or 12-bit group cut into digits, most significant first. */
  function Cut(group: nat, count: nat): (digits: seq<Sextet>)
    ensures |digits| == count
    decreases count
  {
    if count == 0 then [] else Cut(group / 64, count - 1) + [group % 64]
  }

  /** The number whose big-endian bytes these are. */
  function Group(bytes: seq<Byte>): nat
  {
    if bytes == [] then 0 else Group(bytes[..|bytes| - 1]) * 256 + bytes[|bytes| - 1]
  }

  /** Three bytes make four digits; a last group of one or two is completed with zero bits. */
  function EncodeDigits(bytes: seq<Byte>): seq<Sextet>
  {
    if bytes == [] then []
    else if |bytes| == 1 then Cut(Group(bytes) * 16, 2)
    else if |bytes| == 2 then Cut(Group(bytes) * 4, 3)
    else Cut(Group(bytes[..3]), 4) + EncodeDigits(bytes[3..])
  }

  function UrlChar(digit: Sextet): (c: char)
  {
    if digit < 26 then ('A' as int + digit) as char
    else if digit < 52 then ('a' as int + (digit - 26)) as char
    else if digit < 62 then ('0' as int + (digit - 52)) as char
    else if digit == 62 then '-' else '_'
  }

  function UrlText(digits: seq<Sextet>): (s: string)
    ensures |s| == |digits|
  {
    seq(|digits|, i requires 0 <= i < |digits| => UrlChar(digits[i]))
  }

  function Padding(n: nat): string
  {
    if n == 0 then "" else Padding(n - 1) + "="
  }

  /** The encoded text, with or without its final `=` signs. */
  function Encode(bytes: seq<Byte>, padded: bool): string
  {
    UrlText(EncodeDigits(bytes)) + Padding(if padded then (3 - |bytes| % 3) % 3 else 0)
  }

  lemma {:induction false} CutBits(group: nat, count: nat)
    ensures DigitBits(Cut(group, count)) == Bits(group, 6 * count)
    decreases count
  {
    if count > 0 {
      CutBits(group / 64, count - 1);
      DigitBitsAppend(Cut(group / 64, count - 1), group % 64);
      SmallPowers();
      var low, high := group % 64, group / 64;
      assert group == high * Pow2(6) + low;
      BitsJoin(high, low, 6, 6 * (count - 1));
    }
  }

  lemma {:induction false} GroupBits(bytes: seq<Byte>)
    ensures Bits(Group(bytes), 8 * |bytes|) == ByteBits(bytes)
  {
    if bytes != [] {
      var front, last := bytes[..|bytes| - 1], bytes[|bytes| - 1];
      GroupBits(front);
      SmallPowers();
      BitsJoin(Group(front), last, 8, 8 * |front|);
      ByteBitsAppend(front, last);
      assert bytes == front + [last];
    }
  }

  /** A short last group: its bits, then `zeros` zero bits to fill the last digit. */
  lemma ShortGroupBits(bytes: seq<Byte>, zeros: nat, count: nat)
    requires 8 * |bytes| + zeros == 6 * count
    ensures DigitBits(Cut(Group(bytes) * Pow2(zeros), count)) == ByteBits(bytes) + Bits(0, zeros)
  {
    var whole, width := Group(bytes), 8 * |bytes|;
    var group := whole * Pow2(zeros);
    CutBits(group, count);
    BitsJoin(whole, 0, zeros, width);
    assert Bits(group, 6 * count) == Bits(whole, width) + Bits(0, zeros);
    GroupBits(bytes);
  }

  /** The digits spell the bytes' own bits, followed by fewer than six zero bits. */
  lemma {:induction false} EncodedBits(bytes: seq<Byte>) returns (rest: seq<bool>)
    ensures |rest| < 6 && DigitBits(EncodeDigits(bytes)) == ByteBits(bytes) + rest
  {
    SmallPowers();
    if |bytes| < 3 {
      var zeros := if bytes == [] then 0 else if |bytes| == 1 then 4 else 2;
      rest := Bits(0, zeros);
      if bytes != [] {
        ShortGroupBits(bytes, zeros, if |bytes| == 1 then 2 else 3);
      }
    } else {
      var group, tail := bytes[..3], bytes[3..];
      rest := EncodedBits(tail);
      CutBits(Group(group), 4);
      GroupBits(group);
      DigitBitsConcat(Cut(Group(group), 4), EncodeDigits(tail));
      ByteBitsConcat(group, tail);
      assert bytes == group + tail;
      Assoc(ByteBits(group), ByteBits(tail), rest);
    }
  }

  lemma {:induction false} PaddingStripped(s: string, n: nat)
    requires s == "" || s[|s| - 1] != '='
    ensures StripPadding(ReplaceUrlChars(s + Padding(n))) == ReplaceUrlChars(s)
  {
    if n == 0 {
      assert s + Padding(0) == s;
    } else {
      var longer := ReplaceUrlChars(s + Padding(n));
      assert longer[..|longer| - 1] == ReplaceUrlChars(s + Padding(n - 1));
      PaddingStripped(s, n - 1);
    }
  }

  lemma {:induction false} DigitsOfText(digits: seq<Sextet>)
    ensures Digits(ReplaceUrlChars(UrlText(digits))) == digits
  {
    if digits != [] {
      var s := ReplaceUrlChars(UrlText(digits));
      var n := |digits| - 1;
      assert s[..n] == ReplaceUrlChars(UrlText(digits[..n]));
      DigitsOfText(digits[..n]);
      assert IndexOf(s[n]) == digits[n];
      assert digits == digits[..n] + [digits[n]];
    }
  }

  /** Decoding inverts base64url for every byte sequence, padded or not. */
  lemma DecodeInvertsEncode(bytes: seq<Byte>, padded: bool)
    ensures Decoded(Encode(bytes, padded)) == bytes
  {
    var digits := EncodeDigits(bytes);
    var text := UrlText(digits);
    assert text != "" ==> text[|text| - 1] != '=';
    PaddingStripped(text, if padded then (3 - |bytes| % 3) % 3 else 0);
    DigitsOfText(digits);
    var rest := EncodedBits(bytes);
    WholeBytesOfByteBits(bytes, rest);
  }

  /** The 64 characters run through A to Z, a to z, 0 to 9, minus and underscore, in this order. */
  lemma UrlCharExactly(digit: Sextet)
    ensures UrlChar(0) == 'A' && UrlChar(25) == 'Z' && UrlChar(26) == 'a' && UrlChar(51) == 'z'
    ensures UrlChar(52) == '0' && UrlChar(61) == '9' && UrlChar(62) == '-' && UrlChar(63) == '_'
    ensures digit < 61 && digit != 25 && digit != 51 ==> UrlChar(digit + 1) as int == UrlChar(digit) as int + 1
  {
  }

  lemma {:induction false} DigitCount(bytes: seq<Byte>)
    ensures |EncodeDigits(bytes)| == (8 * |bytes| + 5) / 6
  {
    if |bytes| >= 3 {
      DigitCount(bytes[3..]);
    }
  }

  /** Padded, the text is four characters for every three bytes begun; unpadded, as few as hold the bits. */
  lemma EncodedLength(bytes: seq<Byte>)
    ensures |Encode(bytes, true)| == 4 * ((|bytes| + 2) / 3)
    ensures |Encode(bytes, false)| == (8 * |bytes| + 5) / 6
  {
    DigitCount(bytes);
    PaddingLength((3 - |bytes| % 3) % 3);
  }

  lemma {:induction false} PaddingLength(n: nat)
    ensures |Padding(n)| == n && forall i :: 0 <= i < n ==> Padding(n)[i] == '='
  {
    if n > 0 {
      PaddingLength(n - 1);
    }
  }

  lemma GroupAppend(bytes: seq<Byte>, last: Byte)
    ensures Group(bytes + [last]) == Group(bytes) * 256 + last
  {
    var more := bytes + [last];
    assert more[..|more| - 1] == bytes && more[|more| - 1] == last;
  }

  /** The vectors of section 10 of RFC 4648 for one byte and for three: "f" is "Zg==" and "foo" is "Zm9v". */
  lemma VectorOfOne(f: Byte)
    requires f == 102
    ensures EncodeDigits([f]) == [25, 32] && UrlChar(25) == 'Z' && UrlChar(32) == 'g'
  {
    GroupAppend([], f);
    assert [] + [f] == [f];
    CutLast(1632, 1);
    CutLast(25, 0);
  }

  lemma VectorOfThree(f: Byte, o: Byte)
    requires f == 102 && o == 111
    ensures EncodeDigits([f, o, o]) == [25, 38, 61, 47]
    ensures UrlChar(25) == 'Z' && UrlChar(38) == 'm' && UrlChar(61) == '9' && UrlChar(47) == 'v'
  {
    var three := [f, o, o];
    GroupAppend([], f);
    GroupAppend([f], o);
    GroupAppend([f, o], o);
    assert [] + [f] == [f] && [f] + [o] == [f, o] && [f, o] + [o] == three;
    assert three[..3] == three && three[3..] == [];
    CutOfFoo();
  }

  lemma CutOfFoo()
    ensures Cut(6713199, 4) == [25, 38, 61, 47]
  {
    CutLast(6713199, 3);
    CutLast(104893, 2);
    CutLast(1638, 1);
    CutLast(25, 0);
  }

  lemma CutLast(group: nat, count: nat)
    ensures Cut(group, count + 1) == Cut(group / 64, count) + [group % 64]
  {
  }
}
