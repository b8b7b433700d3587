/** The sentence checksum (section 5.2.3 of NMEA 0183 version 3.01) and what it
    detects. */
module Checksum {
  import opened Seqs
  import opened Text

  /** Bitwise exclusive or, bit by bit. */
  function Xor(a: nat, b: nat): nat
    decreases a + b
  {
    if a == 0 && b == 0 then 0
    else (a + b) % 2 + 2 * Xor(a / 2, b / 2)
  }

  lemma {:induction false} XorZero(a: nat)
    ensures Xor(a, 0) == a
    decreases a
  {
    if a > 0 {
      XorZero(a / 2);
    }
  }

  lemma {:induction false} XorSelf(a: nat)
    ensures Xor(a, a) == 0
    decreases a
  {
    if a > 0 {
      XorSelf(a / 2);
    }
  }

  lemma Bits(bit: nat, rest: nat)
    requires bit < 2
    ensures (bit + 2 * rest) % 2 == bit && (bit + 2 * rest) / 2 == rest
  {
  }

  lemma XorBits(a: nat, b: nat)
    ensures Xor(a, b) % 2 == (a + b) % 2
    ensures Xor(a, b) / 2 == Xor(a / 2, b / 2)
  {
    if a > 0 || b > 0 {
      Bits((a + b) % 2, Xor(a / 2, b / 2));
    }
  }

  lemma SameParity(a: nat, b: nat, c: nat)
    requires a % 2 == b % 2
    ensures (a + c) % 2 == (b + c) % 2
  {
  }

  lemma SameBits(a: nat, b: nat)
    requires a % 2 == b % 2 && a / 2 == b / 2
    ensures a == b
  {
  }

  lemma {:induction false} XorAssociates(a: nat, b: nat, c: nat)
    ensures Xor(Xor(a, b), c) == Xor(a, Xor(b, c))
    decreases a + b + c
  {
    if a > 0 || b > 0 || c > 0 {
      XorAssociates(a / 2, b / 2, c / 2);
      var x, y := Xor(a, b), Xor(b, c);
      XorBits(a, b);
      XorBits(b, c);
      SameParity(x, a + b, c);
      SameParity(y, b + c, a);
      XorBits(x, c);
      XorBits(a, y);
      SameBits(Xor(x, c), Xor(a, y));
    }
  }

  lemma {:induction false} XorCommutes(a: nat, b: nat)
    ensures Xor(a, b) == Xor(b, a)
    decreases a + b
  {
    if a > 0 || b > 0 {
      XorCommutes(a / 2, b / 2);
    }
  }

  lemma {:induction false} XorBounded(a: nat, b: nat, bits: nat, bound: nat)
    requires bound == Power2(bits) && a < bound && b < bound
    ensures Xor(a, b) < bound
    decreases bits
  {
    if bits > 0 {
      XorBounded(a / 2, b / 2, bits - 1, bound / 2);
    }
  }

  function Power2(bits: nat): nat {
    if bits == 0 then 1 else 2 * Power2(bits - 1)
  }

  lemma PowerPositive(bits: nat)
    ensures 0 < Power2(bits)
  {
  }

  lemma XorCancels(a: nat, b: nat, c: nat)
    ensures Xor(a, c) == Xor(b, c) ==> a == b
    ensures Xor(c, a) == Xor(c, b) ==> a == b
  {
    XorAssociates(a, c, c);
    XorAssociates(b, c, c);
    XorSelf(c);
    XorZero(a);
    XorZero(b);
    XorCommutes(a, c);
    XorCommutes(b, c);
  }

  /** The low eight bits that the accumulated sum has after the text. */
  function Sum(s: string): nat {
    if s == "" then 0 else Xor(Sum(s[..|s| - 1]), s[|s| - 1] as int)
  }

  /** The bit k of a number. */
  function Bit(n: nat, k: nat): (b: nat)
    ensures b < 2
  {
    if k == 0 then n % 2 else Bit(n / 2, k - 1)
  }

  lemma {:induction false} BitOfXor(a: nat, b: nat, k: nat)
    ensures Bit(Xor(a, b), k) == (Bit(a, k) + Bit(b, k)) % 2
    decreases k
  {
    XorBits(a, b);
    if k > 0 {
      BitOfXor(a / 2, b / 2, k - 1);
    }
  }

  /** In how many characters the bit k is set. */
  function Occurrences(s: string, k: nat): nat {
    if s == "" then 0 else Occurrences(s[..|s| - 1], k) + Bit(s[|s| - 1] as int, k)
  }

  lemma {:induction false} NoBits(k: nat)
    ensures Bit(0, k) == 0
    decreases k
  {
    if k > 0 {
      NoBits(k - 1);
    }
  }

  /** What the sum is, bit by bit: a bit is set in it exactly if it is set in an odd
      number of characters. */
  lemma {:induction false} SumIsParity(s: string, k: nat)
    ensures Bit(Sum(s), k) == Occurrences(s, k) % 2
    decreases |s|
  {
    if s == "" {
      NoBits(k);
    } else {
      SumIsParity(s[..|s| - 1], k);
      BitOfXor(Sum(s[..|s| - 1]), s[|s| - 1] as int, k);
    }
  }

  /** char is signed: a sum with the top bit set is a negative int. */
  function AsInt(sum: nat): int {
    if sum < 128 then sum else sum - 256
  }

  /** What check_checksum answers for the text after the '$'. */
  predicate Passes(s: string) {
    var star := Index(s, '*');
    star < |s| && AsInt(Sum(s[..star])) == StrtolHex(s[star + 1..])
  }

  lemma {:induction false} SumOfParts(a: string, b: string)
    ensures Sum(a + b) == Xor(Sum(a), Sum(b))
    decreases |b|
  {
    if b == "" {
      assert a + b == a;
      XorZero(Sum(a));
    } else {
      var n := |b| - 1;
      assert (a + b)[..|a| + n] == a + b[..n];
      SumOfParts(a, b[..n]);
      XorAssociates(Sum(a), Sum(b[..n]), b[n] as int);
    }
  }

  predicate AllBelow(s: string, bound: int) {
    forall i :: 0 <= i < |s| ==> s[i] as int < bound
  }

  lemma {:induction false} SumBounded(s: string, bits: nat)
    requires AllBelow(s, Power2(bits))
    ensures Sum(s) < Power2(bits)
    decreases |s|
  {
    if s == "" {
      PowerPositive(bits);
    } else {
      assert AllBelow(s[..|s| - 1], Power2(bits));
      SumBounded(s[..|s| - 1], bits);
      XorBounded(Sum(s[..|s| - 1]), s[|s| - 1] as int, bits, Power2(bits));
    }
  }

  lemma ByteSum(s: string)
    requires AllBelow(s, 256)
    ensures Sum(s) < 256
    ensures AllBelow(s, 128) ==> Sum(s) < 128
  {
    assert Power2(8) == 2 * Power2(7);
    assert Power2(7) == 128 by {
      assert Power2(4) == 16;
    }
    SumBounded(s, 8);
    if AllBelow(s, 128) {
      SumBounded(s, 7);
    }
  }

  /** Changing one character changes the sum. */
  lemma SumSeesOneChange(s: string, i: nat, c: char)
    requires i < |s| && c != s[i]
    ensures Sum(s[i := c]) != Sum(s)
  {
    var a, b := s[..i], s[i + 1..];
    assert s == a + ([s[i]] + b) && s[i := c] == a + ([c] + b);
    SumOfParts(a, [s[i]] + b);
    SumOfParts(a, [c] + b);
    SumOfParts([s[i]], b);
    SumOfParts([c], b);
    SumOfOne(s[i]);
    SumOfOne(c);
    XorCancels(Sum([s[i]] + b), Sum([c] + b), Sum(a));
    XorCancels(s[i] as int, c as int, Sum(b));
  }

  lemma SumOfOne(c: char)
    ensures Sum([c]) == c as int
  {
    assert Sum([c]) == Xor(Sum([c][..0]), c as int);
    XorZero(c as int);
    XorCommutes(c as int, 0);
  }

  /** Error detection: in an accepted sentence of any length, replacing exactly
      one body character by any other byte except '*' or NUL is noticed. */
  lemma OneChangeDetected(s: string, i: nat, c: char)
    requires Passes(s) && AllBelow(s, 256)
    requires i < Index(s, '*')
    requires c != s[i] && c != '*' && c != NUL && c as int < 256
    ensures !Passes(s[i := c])
  {
    var star := Index(s, '*');
    var t := s[i := c];
    IndexIsFirst(s, '*');
    assert forall j :: 0 <= j < star ==> t[..star][j] != '*';
    IndexOfFirst(t, '*', star);
    assert t[..star] == s[..star][i := c];
    assert t[star + 1..] == s[star + 1..];
    SumSeesOneChange(s[..star], i, c);
    ByteSum(s[..star]);
    ByteSum(t[..star]);
  }

  const HEX_DIGITS := "0123456789ABCDEF"

  function PrintSum(sum: nat): (s: string)
    requires sum < 256
    ensures |s| == 2
  {
    [HEX_DIGITS[sum / 16], HEX_DIGITS[sum % 16]]
  }

  /** The hexadecimal digit of d, in either case. */
  predicate IsHexDigit(c: char, d: nat)
    requires d < 16
  {
    c == HEX_DIGITS[d] || c == "0123456789abcdef"[d]
  }

  lemma HexDigitValue(c: char, d: nat)
    requires d < 16 && IsHexDigit(c, d)
    ensures HexValue(c) == d
    ensures '0' <= c <= '9' || 'A' <= c <= 'F' || 'a' <= c <= 'f'
  {
  }

  /** The two hexadecimal digits of a number, in either case. */
  predicate IsHexPair(pair: string, n: int) {
    0 <= n < 256 && |pair| == 2 && IsHexDigit(pair[0], n / 16) && IsHexDigit(pair[1], n % 16)
  }

  /** White space: a blank, or one of tab to carriage return. */
  predicate IsBlank(s: string) {
    forall i :: 0 <= i < |s| ==> s[i] == ' ' || 9 <= s[i] as int <= 13
  }

  /** What ends a hexadecimal number: the end, or no hexadecimal digit. */
  predicate EndsNumber(rest: string) {
    rest != "" ==> !('0' <= rest[0] <= '9') && !('A' <= rest[0] <= 'F') && !('a' <= rest[0] <= 'f')
  }

  lemma {:induction false} BlanksAreSkipped(blanks: string, t: string)
    requires IsBlank(blanks) && (t != "" ==> !IsSpace(t[0]))
    ensures SkipSpace(blanks + t) == t
    decreases |blanks|
  {
    if blanks == "" {
      assert blanks + t == t;
    } else {
      BlanksAreSkipped(blanks[1..], t);
      assert (blanks + t)[1..] == blanks[1..] + t;
    }
  }

  lemma PairIsRead(pair: string, n: int, rest: string)
    requires IsHexPair(pair, n) && EndsNumber(rest)
    ensures Hexadecimal(pair + rest, 0) == n
  {
    var t := pair + rest;
    HexDigitValue(pair[0], n / 16);
    HexDigitValue(pair[1], n % 16);
    assert t[1..][1..] == rest;
    assert Hexadecimal(t, 0) == Hexadecimal(t[1..], HexValue(t[0]));
    assert Hexadecimal(t[1..], HexValue(t[0])) == Hexadecimal(rest, 16 * HexValue(t[0]) + HexValue(t[1]));
  }

  predicate IsSign(sign: string) {
    sign == "" || sign == "+" || sign == "-"
  }

  lemma SignIsRead(sign: string, digits: string)
    requires IsSign(sign) && digits != "" && HexValue(digits[0]) != -1
    ensures Unsigned(sign + digits) == digits && (Negative(sign + digits) <==> sign == "-")
    ensures !IsSpace((sign + digits)[0])
  {
    assert sign == "" ==> sign + digits == digits;
  }

  /** Two hexadecimal digits are read back as the number they print, behind any white
      space and a sign, and whatever follows that is no further digit. */
  lemma PrintedSumReads(n: int, blanks: string, sign: string, pair: string, rest: string)
    requires IsBlank(blanks) && IsSign(sign) && IsHexPair(pair, n) && EndsNumber(rest)
    ensures StrtolHex(blanks + (sign + (pair + rest))) == if sign == "-" then -n else n
  {
    var digits := pair + rest;
    HexDigitValue(pair[0], n / 16);
    HexDigitValue(pair[1], n % 16);
    SignIsRead(sign, digits);
    BlanksAreSkipped(blanks, sign + digits);
    PairIsRead(pair, n, rest);
  }

  lemma StarSplits(body: string, check: string)
    requires '*' !in body
    ensures var s := body + "*" + check;
            Index(s, '*') == |body| && s[..|body|] == body && s[|body| + 1..] == check
  {
    var s := body + "*" + check;
    assert s[..|body|] == body && s[|body|] == '*';
    IndexOfFirst(s, '*', |body|);
  }

  /** What a checksum of two hexadecimal digits says, with any white space, sign and
      further text: the body is accepted if and only if the number is the sum, as a
      signed char.  So behind a sum of 128 or more, which 7-bit characters do not have,
      only a negative number is accepted. */
  lemma PrintedPassesExactly(body: string, n: int, blanks: string, sign: string, pair: string, rest: string)
    requires AllBelow(body, 256) && '*' !in body
    requires IsBlank(blanks) && IsSign(sign) && IsHexPair(pair, n) && EndsNumber(rest)
    ensures Sum(body) < 256 && (AllBelow(body, 128) ==> Sum(body) < 128)
    ensures Passes(body + "*" + (blanks + (sign + (pair + rest))))
            <==> if Sum(body) < 128 then (n == Sum(body) && sign != "-") || n == Sum(body) == 0
                 else sign == "-" && n + Sum(body) == 256
  {
    ByteSum(body);
    StarSplits(body, blanks + (sign + (pair + rest)));
    PrintedSumReads(n, blanks, sign, pair, rest);
  }

  /** A printed checksum of 7-bit characters is accepted. */
  lemma PrintedPasses(body: string)
    requires AllBelow(body, 128) && '*' !in body
    ensures Sum(body) < 128
    ensures Passes(body + "*" + PrintSum(Sum(body)))
    ensures Index(body + "*" + PrintSum(Sum(body)), '*') == |body|
  {
    ByteSum(body);
    var check := PrintSum(Sum(body));
    StarSplits(body, check);
    PrintedPassesExactly(body, Sum(body), "", "", check, "");
    assert "" + ("" + (check + "")) == check;
  }
}
