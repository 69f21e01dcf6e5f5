/** Radix conversion between byte strings and base62 text (branca/base62.go). */
module Base62 {
  import opened Numerals
  import opened Ordering

  const NUMERALS := "0123456789"
  const UPPERCASE := "ABCDEFGHIJKLMNOPQRSTUVWXYZ"
  const LOWERCASE := "abcdefghijklmnopqrstuvwxyz"
  const ALPHABET: string := NUMERALS + UPPERCASE + LOWERCASE

  datatype DecodeResult = Decoded(bytes: seq<byte>) | NonBase62

  /** The alphabet by ranges: digits, then uppercase, then lowercase letters. */
  function Symbol(d: nat): char
    requires d < 62
  {
    if d < 10 then (d + 48) as char
    else if d < 36 then (d + 55) as char
    else (d + 61) as char
  }

  /** The digit a character stands for, or -1. */
  function DigitOf(c: char): int
  {
    var x := c as int;
    if 48 <= x < 58 then x - 48
    else if 65 <= x < 91 then x - 55
    else if 97 <= x < 123 then x - 61
    else -1
  }

  lemma Numerals10()
    ensures |NUMERALS| == 10 && forall d :: 0 <= d < 10 ==> NUMERALS[d] as int == d + 48
  {
  }

  lemma Uppercase26()
    ensures |UPPERCASE| == 26 && forall d :: 0 <= d < 26 ==> UPPERCASE[d] as int == d + 65
  {
  }

  lemma Lowercase26()
    ensures |LOWERCASE| == 26 && forall d :: 0 <= d < 26 ==> LOWERCASE[d] as int == d + 97
  {
  }

  lemma Joined(a: string, b: string, c: string, d: nat)
    requires |a| == 10 && |b| == 26 && |c| == 26 && d < 62
    ensures (a + b + c)[d] == if d < 10 then a[d] else if d < 36 then b[d - 10] else c[d - 36]
  {
  }

  lemma AlphabetIsSymbols()
    ensures |ALPHABET| == 62 && forall d :: 0 <= d < 62 ==> ALPHABET[d] == Symbol(d)
  {
    Numerals10();
    Uppercase26();
    Lowercase26();
    forall d | 0 <= d < 62
      ensures ALPHABET[d] == Symbol(d)
    {
      Joined(NUMERALS, UPPERCASE, LOWERCASE, d);
    }
  }

  predicate IsAlphanumeric(c: char)
  {
    '0' <= c <= '9' || 'A' <= c <= 'Z' || 'a' <= c <= 'z'
  }

  /** Sixty-two letters and digits in ascending order: there is only one such alphabet. */
  lemma SymbolsAscend(d: nat, e: nat)
    requires d < e < 62
    ensures Symbol(d) < Symbol(e)
    ensures IsAlphanumeric(Symbol(d)) && IsAlphanumeric(Symbol(e))
  {
  }

  /** One character of the alphabet, as the encoder indexes it. */
  function SymbolAt(d: nat): (c: char)
    requires d < 62
    ensures c == Symbol(d)
  {
    AlphabetIsSymbols();
    ALPHABET[d]
  }

  lemma SymbolAndDigit(d: nat, c: char)
    ensures d < 62 ==> DigitOf(Symbol(d)) == d
    ensures -1 <= DigitOf(c) < 62
    ensures DigitOf(c) >= 0 ==> Symbol(DigitOf(c)) == c
  {
  }

  function CodeDigit(x: nat): int
    requires x < 256
  {
    DigitOf(x as char)
  }

  /** Among the byte codes, only the symbol of a digit has that digit. */
  lemma CodesOfDigits(d: nat)
    requires d < 62
    ensures forall x: nat :: x < 256 ==> (CodeDigit(x) == d <==> x == Symbol(d) as int) && CodeDigit(x) < 62
  {
    forall x: nat | x < 256
      ensures (CodeDigit(x) == d <==> x == Symbol(d) as int) && CodeDigit(x) < 62
    {
      SymbolAndDigit(d, x as char);
    }
  }

  function Text(ds: seq<nat>): (s: string)
    requires IsNumeral(ds, 62)
    ensures |s| == |ds|
  {
    seq(|ds|, i requires 0 <= i < |ds| => Symbol(ds[i]))
  }

  predicate IsText(s: string)
  {
    forall i :: 0 <= i < |s| ==> DigitOf(s[i]) >= 0
  }

  function DigitsOf(s: string): (ds: seq<nat>)
    requires IsText(s)
    ensures |ds| == |s| && IsNumeral(ds, 62)
  {
    seq(|s|, i requires 0 <= i < |s| => DigitOf(s[i]))
  }

  /** What `big.Int.Bytes` returns: big-endian, no leading zero bytes. */
  function Bytes(n: nat): seq<byte>
  {
    ValueOfDigits(n, 256);
    Digits(n, 256)
  }

  function Encode(src: seq<byte>): string
  {
    ValueOfDigits(Value(src, 256), 62);
    Text(Digits(Value(src, 256), 62))
  }

  function Decode(s: string): DecodeResult
  {
    if s == "" || !IsText(s) then NonBase62 else Decoded(Bytes(Value(DigitsOf(s), 62)))
  }

  // The algorithms

  /** The lookup table of the package: -1 everywhere, then the alphabet's positions. */
  method BuildIndex() returns (index: seq<int>)
    ensures IsIndex(index)
  {
    AlphabetIsSymbols();
    index := seq(256, i => -1);
    for i := 0 to |ALPHABET|
      invariant |index| == 256
      invariant forall x :: 0 <= x < 256 ==> index[x] == (if 0 <= CodeDigit(x) < i then CodeDigit(x) else -1)
    {
      SymbolAndDigit(i, ALPHABET[i]);
      CodesOfDigits(i);
      index := index[ALPHABET[i] as int := i];
    }
    CodesOfDigits(0);
  }

  ghost predicate IsIndex(index: seq<int>)
  {
    |index| == 256 && forall x :: 0 <= x < 256 ==> index[x] == CodeDigit(x)
  }

  lemma EncodeStep(n: nat)
    requires n > 0
    ensures 0 <= n / 62 < n && IsNumeral(Digits(n, 62), 62) && IsNumeral(Digits(n / 62, 62), 62)
    ensures Text(Digits(n, 62)) == Text(Digits(n / 62, 62)) + [Symbol(n % 62)]
  {
    ValueOfDigits(n, 62);
    ValueOfDigits(n / 62, 62);
    DigitsStep(n, 62);
    TextSnoc(Digits(n / 62, 62), n % 62);
  }

  lemma TextOfZero()
    ensures Text(Digits(0, 62)) == ""
  {
  }

  /** Repeated division yields the digits backwards; a swapping loop turns them round. */
  method Base62Encode(src: seq<byte>) returns (s: string)
    ensures s == Encode(src)
  {
    hide SymbolAt, Value;
    if |src| == 0 {
      EmptyEncoding();
      return "";
    }
    var n := Value(src, 256);
    ghost var goal := Encode(src);
    var digits: string := "";
    ValueOfDigits(n, 62);
    assert goal == Text(Digits(n, 62)) + Reversed(digits);
    hide Encode, Text, Digits, Symbol;
    while n > 0
      invariant IsNumeral(Digits(n, 62), 62)
      invariant goal == Text(Digits(n, 62)) + Reversed(digits)
      decreases n
    {
      EncodeStep(n);
      var rem := n % 62;
      n := n / 62;
      ReversedSnoc(digits, SymbolAt(rem));
      digits := digits + [SymbolAt(rem)];
    }
    TextOfZero();
    s := ReverseBySwaps(digits);
  }

  lemma EmptyEncoding()
    ensures Encode([]) == ""
  {
  }

  method ReverseBySwaps(text: string) returns (s: string)
    ensures s == Reversed(text)
  {
    s := text;
    var i, j := 0, |s| - 1;
    while i < j
      invariant |s| == |text| && 0 <= i && j == |s| - 1 - i && i <= j + 2
      invariant forall k :: 0 <= k < i ==> s[k] == text[|s| - 1 - k]
      invariant forall k :: j < k < |s| ==> s[k] == text[|s| - 1 - k]
      invariant forall k :: i <= k <= j ==> s[k] == text[k]
    {
      s := s[i := s[j]][j := s[i]];
      i, j := i + 1, j - 1;
    }
    forall k | 0 <= k < |s|
      ensures s[k] == Reversed(text)[k]
    {
      ReversedAt(text, k);
    }
  }

  method Base62Decode(index: seq<int>, s: string) returns (r: DecodeResult)
    requires IsIndex(index)
    ensures r == Decode(s)
  {
    if s == "" {
      return NonBase62;
    }
    var n := 0;
    for i := 0 to |s|
      invariant IsText(s[..i]) && n == Value(DigitsOf(s[..i]), 62)
    {
      var c := s[i];
      var d := if c as int < 256 then index[c as int] else -1;
      assert d == DigitOf(c);
      if d < 0 {
        return NonBase62;
      }
      assert s[..i + 1] == s[..i] + [c];
      assert DigitsOf(s[..i + 1]) == DigitsOf(s[..i]) + [d];
      ValueSnoc(DigitsOf(s[..i]), d, 62);
      n := n * 62;
      n := n + d;
    }
    assert s[..|s|] == s;
    return Decoded(Bytes(n));
  }

  function Reversed(s: string): (r: string)
    ensures |r| == |s|
  {
    if s == "" then "" else [s[|s| - 1]] + Reversed(s[..|s| - 1])
  }

  lemma ReversedSnoc(s: string, c: char)
    ensures Reversed(s + [c]) == [c] + Reversed(s)
  {
    assert (s + [c])[..|s|] == s;
  }

  lemma {:induction false} ReversedAt(s: string, k: nat)
    requires k < |s|
    ensures Reversed(s)[k] == s[|s| - 1 - k]
  {
    if k > 0 {
      ReversedAt(s[..|s| - 1], k - 1);
    }
  }

  lemma TextSnoc(ds: seq<nat>, d: nat)
    requires IsNumeral(ds, 62) && d < 62
    ensures Text(ds + [d]) == Text(ds) + [Symbol(d)]
  {
  }

  /** Exactly the non-empty texts over the alphabet are accepted. */
  lemma AcceptedIffAlphabet(s: string)
    ensures Decode(s).Decoded? <==> s != "" && forall c :: c in s ==> c in ALPHABET
  {
    forall c: char
      ensures c in ALPHABET <==> DigitOf(c) >= 0
    {
      AlphabetIsSymbols();
      SymbolAndDigit(0, c);
      if c in ALPHABET {
        var d :| 0 <= d < 62 && ALPHABET[d] == c;
        SymbolAndDigit(d, c);
      }
      if DigitOf(c) >= 0 {
        assert ALPHABET[DigitOf(c)] == c;
      }
    }
  }

  // Round trips

  lemma {:induction false} StrippedBytes(src: seq<byte>)
    ensures Strip<byte>(src, 0) == Strip<nat>(src, 0)
  {
    if src != [] && src[0] == 0 {
      StrippedBytes(src[1..]);
    }
  }

  lemma DigitsOfText(ds: seq<nat>)
    requires IsNumeral(ds, 62)
    ensures IsText(Text(ds)) && DigitsOf(Text(ds)) == ds
  {
    forall i | 0 <= i < |ds|
      ensures DigitOf(Text(ds)[i]) == ds[i]
    {
      SymbolAndDigit(ds[i], Text(ds)[i]);
    }
  }

  lemma {:induction false} StrippedText(s: string)
    requires IsText(s)
    ensures IsNumeral(Strip<nat>(DigitsOf(s), 0), 62) && Text(Strip<nat>(DigitsOf(s), 0)) == Strip(s, '0')
  {
    if s != "" && s[0] == '0' {
      assert DigitsOf(s)[1..] == DigitsOf(s[1..]);
      StrippedText(s[1..]);
    } else {
      forall i | 0 <= i < |s|
        ensures Symbol(DigitOf(s[i])) == s[i]
      {
        SymbolAndDigit(0, s[i]);
      }
      assert s != "" ==> DigitOf(s[0]) != 0;
      assert Text(DigitsOf(s)) == s;
    }
  }

  /** Decoding an encoding strips leading zero bytes; input of value zero encodes to the rejected "". */
  lemma DecodeEncoded(src: seq<byte>)
    ensures Value(src, 256) > 0 ==> Decode(Encode(src)) == Decoded(Strip<byte>(src, 0))
    ensures Value(src, 256) == 0 ==> Encode(src) == "" && Decode(Encode(src)) == NonBase62
  {
    var n := Value(src, 256);
    ValueOfDigits(n, 62);
    DigitsOfText(Digits(n, 62));
    DigitsOfAnyValue(src, 256);
    StrippedBytes(src);
  }

  /** Encoding a decoded text strips leading '0' characters, for every accepted text. */
  lemma EncodeDecoded(s: string)
    requires Decode(s).Decoded?
    ensures Encode(Decode(s).bytes) == Strip(s, '0')
  {
    var n := Value(DigitsOf(s), 62);
    ValueOfDigits(n, 256);
    DigitsOfAnyValue(DigitsOf(s), 62);
    StrippedText(s);
  }

  /** Exactly the texts that agree up to leading '0' characters decode alike. */
  lemma DecodesAlikeIff(s: string, t: string)
    requires Decode(s).Decoded? && Decode(t).Decoded?
    ensures Decode(s) == Decode(t) <==> Strip(s, '0') == Strip(t, '0')
  {
    EncodeDecoded(s);
    EncodeDecoded(t);
    StrippedText(s);
    StrippedText(t);
    if Strip(s, '0') == Strip(t, '0') {
      TextInjective(Strip<nat>(DigitsOf(s), 0), Strip<nat>(DigitsOf(t), 0));
      StripKeepsValue(DigitsOf(s), 62);
      StripKeepsValue(DigitsOf(t), 62);
    }
  }

  lemma TextInjective(a: seq<nat>, b: seq<nat>)
    requires IsNumeral(a, 62) && IsNumeral(b, 62) && Text(a) == Text(b)
    ensures a == b
  {
    DigitsOfText(a);
    DigitsOfText(b);
  }

  // Order and size

  predicate ShortLexText(a: string, b: string)
  {
    |a| < |b| || (|a| == |b| && Less(a, b))
  }

  lemma {:induction false} TextOrder(a: seq<nat>, b: seq<nat>)
    requires IsNumeral(a, 62) && IsNumeral(b, 62) && |a| == |b|
    ensures DigitsLess(a, b) <==> Less(Text(a), Text(b))
  {
    if a != [] {
      assert Text(a)[1..] == Text(a[1..]) && Text(b)[1..] == Text(b[1..]);
      TextOrder(a[1..], b[1..]);
    }
  }

  /** The alphabet ascends, so numeric order of the inputs is exactly shortlex order of the texts. */
  lemma EncodingOrder(x: seq<byte>, y: seq<byte>)
    ensures Value(x, 256) < Value(y, 256) <==> ShortLexText(Encode(x), Encode(y))
  {
    var a, b := Digits(Value(x, 256), 62), Digits(Value(y, 256), 62);
    OrderOfDigits(Value(x, 256), Value(y, 256), 62);
    ValueOfDigits(Value(x, 256), 62);
    ValueOfDigits(Value(y, 256), 62);
    if |a| == |b| {
      TextOrder(a, b);
    }
  }

  /** The length of an encoding is the number of base62 digits of the value. */
  lemma EncodingLength(src: seq<byte>)
    requires Value(src, 256) > 0
    ensures var k := |Encode(src)|; k > 0 && Pow(62, k - 1) <= Value(src, 256) < Pow(62, k)
  {
    DigitCount(Value(src, 256), 62);
  }

  lemma EightBytesFit()
    ensures Pow(256, 8) <= Pow(62, 11)
  {
    assert Pow(256, 2) == 65536 && Pow(256, 4) == 4294967296 by { PowAdd(256, 2, 2); }
    PowAdd(256, 4, 4);
    assert Pow(62, 2) == 3844 && Pow(62, 3) == 238328;
    assert Pow(62, 5) == 916132832 by { PowAdd(62, 2, 3); }
    PowAdd(62, 5, 5);
    PowAdd(62, 1, 10);
    assert Pow(62, 1) == 62;
  }

  lemma {:induction false} BlocksFit(q: nat)
    ensures Pow(256, 8 * q) <= Pow(62, 11 * q)
  {
    if q != 0 {
      BlocksFit(q - 1);
      EightBytesFit();
      PowAdd(256, 8, 8 * (q - 1));
      PowAdd(62, 11, 11 * (q - 1));
      MulMono(Pow(256, 8), Pow(62, 11), Pow(256, 8 * (q - 1)), Pow(62, 11 * (q - 1)));
    }
  }

  lemma MulMono(a: nat, b: nat, x: nat, y: nat)
    requires a <= b && x <= y
    ensures a * x <= b * y
  {
    assert b * y == a * x + (b - a) * x + b * (y - x);
  }

  /** Every started block of eight bytes costs at most eleven characters. */
  lemma EncodingSize(src: seq<byte>)
    ensures |Encode(src)| <= 11 * ((|src| + 7) / 8)
  {
    var q := (|src| + 7) / 8;
    if Value(src, 256) > 0 {
      ValueBound(src, 256);
      PowGrows(256, |src|, 8 * q);
      BlocksFit(q);
      EncodingLength(src);
      var k := |Encode(src)|;
      if k > 11 * q {
        PowGrows(62, 11 * q, k - 1);
      }
    }
  }
}
