/** The parts of Go's `strings` and `strconv` packages that the file-context
    evaluator relies on, over Dafny strings (sequences of Unicode scalar
    values). */
module GoStrings {
  import opened Wrappers

  // ---------------------------------------------------------------------
  // strings.Split with a one-character separator
  // ---------------------------------------------------------------------

  /** strings.Split(s, [sep]): the pieces between separators. There is always
      at least one piece, and the empty string splits to one empty piece. */
  function Split(s: string, sep: char): (r: seq<string>)
    ensures |r| >= 1
    ensures forall i :: 0 <= i < |r| ==> sep !in r[i]
    decreases |s|
  {
    if s == [] then [[]]
    else
      var rest := Split(s[1..], sep);
      if s[0] == sep then [[]] + rest
      else [[s[0]] + rest[0]] + rest[1..]
  }

  /** strings.Join(parts, [sep]). */
  function Join(parts: seq<string>, sep: char): string
  {
    if |parts| == 0 then []
    else if |parts| == 1 then parts[0]
    else parts[0] + [sep] + Join(parts[1..], sep)
  }

  /** Joining the pieces of a split gives back the original text. */
  lemma {:induction false} JoinSplit(s: string, sep: char)
    ensures Join(Split(s, sep), sep) == s
    decreases |s|
  {
    if s != [] {
      JoinSplit(s[1..], sep);
      var rest := Split(s[1..], sep);
      if s[0] != sep {
        if |rest| == 1 {
          assert Split(s, sep) == [[s[0]] + rest[0]];
        } else {
          assert Split(s, sep)[1..] == rest[1..];
          assert Join(rest, sep) == rest[0] + [sep] + Join(rest[1..], sep);
          assert s == [s[0]] + s[1..];
        }
      }
    }
  }

  /** Splitting text that holds no separator gives that text back alone. */
  lemma {:induction false} SplitNoSeparator(s: string, sep: char)
    requires sep !in s
    ensures Split(s, sep) == [s]
    decreases |s|
  {
    if s != [] {
      SplitNoSeparator(s[1..], sep);
      assert [s[0]] + s[1..] == s;
    }
  }

  // ---------------------------------------------------------------------
  // strings.Fields
  // ---------------------------------------------------------------------

  /** unicode.IsSpace: the code points with the Unicode White_Space property. */
  predicate IsSpace(c: char)
    ensures c == ' ' || c == '\t' || c == '\n' || c == '\r' ==> IsSpace(c)
    ensures IsSpace(c) ==> !IsDigit(c) && c != '+' && c != '-'
  {
    var n := c as int;
    (0x09 <= n <= 0x0D) || n == 0x20 || n == 0x85 || n == 0xA0 || n == 0x1680
    || (0x2000 <= n <= 0x200A) || n == 0x2028 || n == 0x2029 || n == 0x202F
    || n == 0x205F || n == 0x3000
  }

  /** True when no character of s is white space. */
  predicate NoSpace(s: string) {
    forall i :: 0 <= i < |s| ==> !IsSpace(s[i])
  }

  /** True when every character of s is white space. */
  predicate AllSpace(s: string) {
    forall i :: 0 <= i < |s| ==> IsSpace(s[i])
  }

  /** The length of the longest prefix of s that holds no white space. */
  function TokenLength(s: string): (n: nat)
    ensures n <= |s|
    ensures NoSpace(s[..n])
    ensures n == |s| || IsSpace(s[n])
  {
    if s == [] || IsSpace(s[0]) then 0 else 1 + TokenLength(s[1..])
  }

  /** strings.Fields(s): the maximal runs of non-space characters, in order. */
  function Fields(s: string): (r: seq<string>)
    ensures forall i :: 0 <= i < |r| ==> r[i] != [] && NoSpace(r[i])
    decreases |s|
  {
    if s == [] then []
    else if IsSpace(s[0]) then Fields(s[1..])
    else
      var n := TokenLength(s);
      [s[..n]] + Fields(s[n..])
  }

  /** Leading white space does not change the fields. */
  lemma {:induction false} FieldsSkipSpace(pad: string, s: string)
    requires AllSpace(pad)
    ensures Fields(pad + s) == Fields(s)
    decreases |pad|
  {
    if pad == [] {
      assert pad + s == s;
    } else {
      assert IsSpace(pad[0]);
      assert (pad + s)[0] == pad[0] && (pad + s)[1..] == pad[1..] + s;
      assert AllSpace(pad[1..]) by {
        forall i | 0 <= i < |pad| - 1 ensures IsSpace(pad[1..][i]) {
          assert pad[1..][i] == pad[i + 1];
        }
      }
      FieldsSkipSpace(pad[1..], s);
      assert Fields(pad + s) == Fields((pad + s)[1..]);
    }
  }

  /** A word followed by white space or by nothing is the next field. */
  lemma FieldsWord(w: string, rest: string)
    requires w != [] && NoSpace(w)
    requires rest == [] || IsSpace(rest[0])
    ensures Fields(w + rest) == [w] + Fields(rest)
  {
    TokenLengthWord(w, rest);
    assert (w + rest)[..|w|] == w;
    assert (w + rest)[|w|..] == rest;
  }

  /** White space, then a word, then white space or nothing: the word is the
      next field. */
  lemma FieldsPaddedWord(pad: string, w: string, rest: string)
    requires AllSpace(pad)
    requires w != [] && NoSpace(w)
    requires rest == [] || IsSpace(rest[0])
    ensures Fields(pad + (w + rest)) == [w] + Fields(rest)
  {
    FieldsSkipSpace(pad, w + rest);
    FieldsWord(w, rest);
  }

  /** Three words separated by white space are the next three fields. */
  lemma ThreeWords(a: string, p1: string, b: string, p2: string, c: string, rest: string)
    requires a != [] && NoSpace(a) && b != [] && NoSpace(b) && c != [] && NoSpace(c)
    requires p1 != [] && AllSpace(p1) && p2 != [] && AllSpace(p2)
    requires rest == [] || IsSpace(rest[0])
    ensures Fields(a + (p1 + (b + (p2 + (c + rest))))) == [a, b, c] + Fields(rest)
  {
    TwoPaddedWords(p1, b, p2, c, rest);
    WordThenPad(a, p1, b + (p2 + (c + rest)));
    ThreeFields(a, b, c, Fields(rest));
  }

  lemma ThreeFields(a: string, b: string, c: string, tail: seq<string>)
    ensures [a] + ([b] + ([c] + tail)) == [a, b, c] + tail
  {
    assert [a] + ([b] + ([c] + tail)) == [a] + [b] + [c] + tail;
  }

  /** A word followed by non-empty white space is the next field. */
  lemma WordThenPad(w: string, pad: string, s: string)
    requires w != [] && NoSpace(w)
    requires pad != [] && AllSpace(pad)
    ensures Fields(w + (pad + s)) == [w] + Fields(pad + s)
  {
    PadStartsWithSpace(pad, s);
    FieldsWord(w, pad + s);
  }

  /** White space, a word, white space, a word: the next two fields. */
  lemma TwoPaddedWords(p1: string, b: string, p2: string, c: string, rest: string)
    requires b != [] && NoSpace(b) && c != [] && NoSpace(c)
    requires AllSpace(p1) && p2 != [] && AllSpace(p2)
    requires rest == [] || IsSpace(rest[0])
    ensures Fields(p1 + (b + (p2 + (c + rest)))) == [b] + ([c] + Fields(rest))
  {
    FieldsPaddedWord(p2, c, rest);
    PadStartsWithSpace(p2, c + rest);
    FieldsPaddedWord(p1, b, p2 + (c + rest));
  }

  lemma PadStartsWithSpace(pad: string, s: string)
    requires pad != [] && AllSpace(pad)
    ensures IsSpace((pad + s)[0])
  {
    assert (pad + s)[0] == pad[0];
  }

  lemma {:induction false} TokenLengthWord(w: string, rest: string)
    requires NoSpace(w)
    requires rest == [] || IsSpace(rest[0])
    ensures TokenLength(w + rest) == |w|
    decreases |w|
  {
    if w == [] {
      assert w + rest == rest;
    } else {
      assert (w + rest)[1..] == w[1..] + rest;
      TokenLengthWord(w[1..], rest);
    }
  }

  /** Text made only of white space has no fields. */
  lemma {:induction false} FieldsAllSpace(pad: string)
    requires AllSpace(pad)
    ensures Fields(pad) == []
  {
    FieldsSkipSpace(pad, []);
    assert pad + [] == pad;
  }

  // ---------------------------------------------------------------------
  // strings.HasPrefix
  // ---------------------------------------------------------------------

  /** strings.HasPrefix: s begins with prefix. */
  predicate HasPrefix(s: string, prefix: string)
    ensures HasPrefix(s, prefix) <==> |prefix| <= |s| && s == prefix + s[|prefix|..]
  {
    |prefix| <= |s| && s[..|prefix|] == prefix
  }

  // ---------------------------------------------------------------------
  // strconv.Atoi and strconv.Itoa on a 64-bit platform
  // ---------------------------------------------------------------------

  const MinInt64: int := -0x8000_0000_0000_0000
  const MaxInt64: int := 0x7FFF_FFFF_FFFF_FFFF

  predicate IsDigit(c: char) {
    '0' <= c <= '9'
  }

  predicate AllDigits(s: string) {
    forall i :: 0 <= i < |s| ==> IsDigit(s[i])
  }

  function DigitValue(c: char): (d: nat)
    requires IsDigit(c)
    ensures d < 10
  {
    (c as int) - ('0' as int)
  }

  function DigitChar(d: nat): (c: char)
    requires d < 10
    ensures IsDigit(c) && DigitValue(c) == d
  {
    ('0' as int + d) as char
  }

  /** The value of a string of decimal digits, most significant first. */
  function DecimalValue(s: string): nat
    requires AllDigits(s)
  {
    if s == [] then 0 else 10 * DecimalValue(s[..|s| - 1]) + DigitValue(s[|s| - 1])
  }

  /** strconv.Atoi: an optional '+' or '-', then one or more decimal digits,
      and a value that fits a 64-bit int; anything else is an error (None). */
  function Atoi(s: string): (r: Option<int>)
    ensures r.Some? ==> MinInt64 <= r.value <= MaxInt64
    ensures r.Some? ==> s != [] && (IsDigit(s[0]) || s[0] == '+' || s[0] == '-')
    ensures r.Some? ==> (s != [] &&
      var d := if s[0] == '+' || s[0] == '-' then s[1..] else s;
      d != [] && AllDigits(d) &&
      r.value == (if s[0] == '-' then -(DecimalValue(d) as int) else DecimalValue(d)))
  {
    var signed := |s| > 0 && (s[0] == '+' || s[0] == '-');
    var digits := if signed then s[1..] else s;
    if digits == [] || !AllDigits(digits) then None
    else
      var magnitude: int := DecimalValue(digits);
      var v: int := if signed && s[0] == '-' then -magnitude else magnitude;
      if MinInt64 <= v <= MaxInt64 then Some(v) else None
  }

  /** The shortest decimal representation of a natural number. */
  function NatToDecimal(n: nat): (s: string)
    ensures s != [] && AllDigits(s)
    ensures s[0] == '0' ==> n == 0
    decreases n
  {
    if n < 10 then [DigitChar(n)]
    else
      var high := NatToDecimal(n / 10);
      assert (high + [DigitChar(n % 10)])[0] == high[0];
      high + [DigitChar(n % 10)]
  }

  /** strconv.Itoa: decimal, with a leading '-' for negative numbers. */
  function Itoa(n: int): (s: string)
    ensures s != []
    ensures s[0] == '-' <==> n < 0
    ensures n >= 0 ==> AllDigits(s)
    ensures n < 0 ==> AllDigits(s[1..])
  {
    if n < 0 then "-" + NatToDecimal(-n) else NatToDecimal(n)
  }

  /** Itoa's text is canonical: no leading zero except in "0" itself, and
      none after the '-' of a negative number. */
  lemma ItoaCanonical(n: int)
    ensures n >= 0 && Itoa(n)[0] == '0' ==> n == 0
    ensures n < 0 ==> |Itoa(n)| >= 2 && Itoa(n)[1] != '0'
  {
    if n < 0 {
      assert Itoa(n)[1..] == NatToDecimal(-n);
    }
  }

  lemma {:induction false} DecimalValueOfNat(n: nat)
    ensures DecimalValue(NatToDecimal(n)) == n
    decreases n
  {
    if n >= 10 {
      DecimalValueOfNat(n / 10);
      var s := NatToDecimal(n);
      assert s[..|s| - 1] == NatToDecimal(n / 10);
    }
  }

  /** Parsing the Itoa text of any 64-bit int gives that int back. */
  lemma AtoiItoa(n: int)
    requires MinInt64 <= n <= MaxInt64
    ensures Atoi(Itoa(n)) == Some(n)
  {
    var s := Itoa(n);
    if n < 0 {
      var d := NatToDecimal(-n);
      DecimalValueOfNat(-n);
      assert s == "-" + d;
      assert s[0] == '-' && s[1..] == d;
    } else {
      var d := NatToDecimal(n);
      DecimalValueOfNat(n);
      assert s == d && IsDigit(s[0]);
    }
  }

  /** Every digit string inside the 64-bit range parses, with or without a
      sign, to its decimal value; leading zeros are allowed. */
  lemma AtoiDigits(d: string)
    requires d != [] && AllDigits(d)
    ensures DecimalValue(d) <= MaxInt64 ==> Atoi(d) == Some(DecimalValue(d))
    ensures DecimalValue(d) <= MaxInt64 ==> Atoi("+" + d) == Some(DecimalValue(d))
    ensures DecimalValue(d) <= MaxInt64 + 1 ==> Atoi("-" + d) == Some(-(DecimalValue(d) as int))
  {
    assert IsDigit(d[0]);
    assert ("+" + d)[1..] == d;
    assert ("-" + d)[1..] == d;
  }

  /** A character other than a digit after the first position makes the
      text unparsable, so "1x" is an error and not 1. */
  lemma AtoiRejectsNonDigit(s: string, i: int)
    requires 0 < i < |s| && !IsDigit(s[i])
    ensures Atoi(s).None?
  {
    if s[0] == '+' || s[0] == '-' {
      assert s[1..][i - 1] == s[i];
    }
  }

  /** A leading zero does not change the value of a digit string. */
  lemma {:induction false} DecimalValueLeadingZero(d: string)
    requires AllDigits(d)
    ensures AllDigits("0" + d) && DecimalValue("0" + d) == DecimalValue(d)
    decreases |d|
  {
    var z := "0" + d;
    assert AllDigits(z) by {
      forall i | 0 <= i < |z| ensures IsDigit(z[i]) {
        if i > 0 { assert z[i] == d[i - 1]; }
      }
    }
    if d != [] {
      var init := d[..|d| - 1];
      assert AllDigits(init) by {
        forall i | 0 <= i < |init| ensures IsDigit(init[i]) { assert init[i] == d[i]; }
      }
      DecimalValueLeadingZero(init);
      assert z[..|z| - 1] == "0" + init;
      assert z[|z| - 1] == d[|d| - 1];
    } else {
      assert DecimalValue(z) == 10 * DecimalValue(z[..0]) + DigitValue(z[0]);
    }
  }
}
