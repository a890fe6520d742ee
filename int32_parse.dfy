/**
 * `int.TryParse(string, out int)` of the .NET base library, with its default
 * `NumberStyles.Integer`: optional leading white space, an optional sign, one or more
 * decimal digits, optional trailing white space, and a value that fits a 32-bit signed
 * integer. `TfsQueryContext.IsInteger` is exactly "TryParse succeeds".
 */
module Int32Parse {
  import opened Wrappers

  const MinInt32: int := -0x8000_0000
  const MaxInt32: int := 0x7fff_ffff

  /** The characters the parser skips as white space: U+0009 to U+000D and U+0020. */
  predicate IsWhite(c: char)
  {
    c == ' ' || ('\t' <= c <= '\r')
  }

  predicate IsDigit(c: char)
  {
    '0' <= c <= '9'
  }

  predicate AllWhite(s: string)
  {
    forall i :: 0 <= i < |s| ==> IsWhite(s[i])
  }

  predicate AllDigits(s: string)
  {
    forall i :: 0 <= i < |s| ==> IsDigit(s[i])
  }

  /** An optional sign, in the invariant culture. */
  predicate IsSign(sign: string)
  {
    sign == "" || sign == "+" || sign == "-"
  }

  /** Value of a decimal digit string, most significant digit first (unbounded). */
  function DigitsValue(digits: string): nat
    requires AllDigits(digits)
    decreases |digits|
  {
    if digits == [] then 0
    else 10 * DigitsValue(digits[..|digits| - 1]) + (digits[|digits| - 1] as int - '0' as int)
  }

  /** Value of an optional sign followed by digits. */
  function SignedValue(sign: string, digits: string): int
    requires AllDigits(digits)
  {
    if sign == "-" then -(DigitsValue(digits) as int) else DigitsValue(digits)
  }

  /** Drops leading white space (TrimStartSplits states what it leaves). */
  function TrimStart(s: string): string
    decreases |s|
  {
    if s != [] && IsWhite(s[0]) then TrimStart(s[1..]) else s
  }

  /** Drops trailing white space (TrimEndSplits states what it leaves). */
  function TrimEnd(s: string): string
    decreases |s|
  {
    if s != [] && IsWhite(s[|s| - 1]) then TrimEnd(s[..|s| - 1]) else s
  }

  /** TrimStart removes a white prefix, and exactly the longest one. */
  lemma {:induction false} TrimStartSplits(s: string)
    ensures var r := TrimStart(s);
      && |r| <= |s| && s == s[..|s| - |r|] + r
      && AllWhite(s[..|s| - |r|]) && (r == [] || !IsWhite(r[0]))
    decreases |s|
  {
    if s != [] && IsWhite(s[0]) {
      TrimStartSplits(s[1..]);
      var r := TrimStart(s[1..]);
      assert s[..|s| - |r|] == [s[0]] + s[1..][..|s[1..]| - |r|];
    } else {
      assert s[..0] == [];
    }
  }

  /** TrimEnd removes a white suffix, and exactly the longest one. */
  lemma {:induction false} TrimEndSplits(s: string)
    ensures var r := TrimEnd(s);
      && |r| <= |s| && s == r + s[|r|..]
      && AllWhite(s[|r|..]) && (r == [] || !IsWhite(r[|r| - 1]))
    decreases |s|
  {
    if s != [] && IsWhite(s[|s| - 1]) {
      var init, c := s[..|s| - 1], s[|s| - 1];
      TrimEndSplits(init);
      var r := TrimEnd(init);
      var w := init[|r|..];
      assert TrimEnd(s) == r;
      assert s == (r + w) + [c] by {
        assert s == init + [c];
      }
      assert s[|r|..] == w + [c];
      assert AllWhite(w + [c]) by {
        forall i | 0 <= i < |w| + 1 ensures IsWhite((w + [c])[i]) {
          if i < |w| { assert (w + [c])[i] == w[i]; }
        }
      }
    } else {
      assert s[|s|..] == [];
    }
  }

  /** The value, when it fits a 32-bit signed integer; the parser's overflow check. */
  function InInt32Range(v: int): Option<int>
  {
    if MinInt32 <= v <= MaxInt32 then Some(v) else None
  }

  /** 1 when the text starts with a sign, else 0. */
  function SignLength(t: string): (n: nat)
    ensures n <= |t| && IsSign(t[..n])
  {
    if t != [] && (t[0] == '+' || t[0] == '-') then 1 else 0
  }

  /** The part of TryParse after trimming: at most one sign, then only digits. */
  function ParseSignedDigits(t: string): Option<int>
  {
    var signLength := SignLength(t);
    var digits := t[signLength..];
    if digits == [] || !AllDigits(digits) then None
    else InInt32Range(SignedValue(t[..signLength], digits))
  }

  /**
   * `int.TryParse(s, out n)`: Some(n) when it returns true, None when it returns false.
   * Leading and trailing white space are dropped, then at most one sign is taken, then
   * the rest must be a non-empty run of digits whose value lies in the Int32 range.
   */
  function TryParse(s: string): (r: Option<int>)
    ensures r.Some? ==> MinInt32 <= r.value <= MaxInt32
  {
    ParseSignedDigits(TrimEnd(TrimStart(s)))
  }

  /** `TfsQueryContext.IsInteger`: the value parses as an Int32. */
  predicate IsInteger(s: string)
  {
    TryParse(s).Some?
  }

  /** `s` is white space, an optional sign, digits and white space, in that order. */
  predicate Decomposes(s: string, lead: string, sign: string, digits: string, trail: string)
  {
    && s == lead + sign + digits + trail
    && AllWhite(lead) && IsSign(sign) && digits != [] && AllDigits(digits) && AllWhite(trail)
  }

  /** Trimming a white prefix in front of text that does not start with white space. */
  lemma {:induction false} TrimStartOfWhitePrefix(white: string, rest: string)
    requires AllWhite(white)
    requires rest == [] || !IsWhite(rest[0])
    ensures TrimStart(white + rest) == rest
    decreases |white|
  {
    if white != [] {
      assert (white + rest)[1..] == white[1..] + rest;
      TrimStartOfWhitePrefix(white[1..], rest);
    } else {
      assert white + rest == rest;
    }
  }

  /** Trimming a white suffix behind text that does not end with white space. */
  lemma {:induction false} TrimEndOfWhiteSuffix(rest: string, white: string)
    requires AllWhite(white)
    requires rest == [] || !IsWhite(rest[|rest| - 1])
    ensures TrimEnd(rest + white) == rest
    decreases |white|
  {
    if white != [] {
      assert (rest + white)[..|rest + white| - 1] == rest + white[..|white| - 1];
      TrimEndOfWhiteSuffix(rest, white[..|white| - 1]);
    } else {
      assert rest + white == rest;
    }
  }

  /** A sign followed by digits is read back as that sign and those digits. */
  lemma ParseSignedDigitsOf(sign: string, digits: string)
    requires IsSign(sign) && digits != [] && AllDigits(digits)
    ensures ParseSignedDigits(sign + digits) == InInt32Range(SignedValue(sign, digits))
  {
    var t := sign + digits;
    assert IsDigit(digits[0]);
    assert t[0] == if sign == "" then digits[0] else sign[0];
    assert t[|sign|..] == digits;
    assert t[..|sign|] == sign;
  }

  /**
   * "If" direction of the grammar: white space, an optional sign, digits and white space
   * parse to the signed value of the digits exactly when that value is in the Int32 range;
   * a digit string too large for Int32 is not an integer.
   */
  lemma ParseOfParts(lead: string, sign: string, digits: string, trail: string)
    requires Decomposes(lead + sign + digits + trail, lead, sign, digits, trail)
    ensures TryParse(lead + sign + digits + trail) == InInt32Range(SignedValue(sign, digits))
  {
    var core := sign + digits;
    assert TrimStart(lead + sign + digits + trail) == core + trail by {
      assert IsDigit(digits[0]);
      assert core[0] == if sign == "" then digits[0] else sign[0];
      assert lead + sign + digits + trail == lead + (core + trail);
      TrimStartOfWhitePrefix(lead, core + trail);
    }
    assert TrimEnd(core + trail) == core by {
      assert core[|core| - 1] == digits[|digits| - 1];
      TrimEndOfWhiteSuffix(core, trail);
    }
    ParseSignedDigitsOf(sign, digits);
  }

  /**
   * "Only if" direction: whatever TryParse accepts splits into white space, an optional
   * sign, digits and white space, and the result is the signed value of those digits.
   */
  lemma PartsOfParse(s: string)
    requires IsInteger(s)
    ensures exists lead, sign, digits, trail ::
      Decomposes(s, lead, sign, digits, trail) && TryParse(s) == Some(SignedValue(sign, digits))
  {
    var a := TrimStart(s);
    TrimStartSplits(s);
    var lead := s[..|s| - |a|];
    var t := TrimEnd(a);
    TrimEndSplits(a);
    var trail := a[|t|..];
    var sign, digits := t[..SignLength(t)], t[SignLength(t)..];
    assert s == lead + ((sign + digits) + trail) by {
      assert s == lead + a;
      assert a == t + trail;
      assert t == sign + digits;
    }
    Regroup(lead, sign, digits, trail);
    assert TryParse(s) == Some(SignedValue(sign, digits)) by {
      assert TryParse(s) == ParseSignedDigits(t);
    }
    assert AllDigits(digits) && digits != [] by {
      assert ParseSignedDigits(t).Some?;
    }
    assert Decomposes(s, lead, sign, digits, trail) && TryParse(s) == Some(SignedValue(sign, digits));
  }

  /** Re-association of a four-part concatenation. */
  lemma Regroup(a: string, b: string, c: string, d: string)
    ensures a + ((b + c) + d) == a + b + c + d
  {
  }

  function DigitChar(d: nat): (c: char)
    requires d < 10
    ensures IsDigit(c) && c as int - '0' as int == d
  {
    ('0' as int + d) as char
  }

  /** Decimal digits of a natural number, as `ToString()` writes them. */
  function DecimalDigits(n: nat): (r: string)
    ensures r != [] && AllDigits(r) && DigitsValue(r) == n
    decreases n
  {
    if n < 10 then
      [DigitChar(n)]
    else
      var r := DecimalDigits(n / 10) + [DigitChar(n % 10)];
      assert r[..|r| - 1] == DecimalDigits(n / 10);
      r
  }

  /** `n.ToString()` in the invariant culture. */
  function Format(n: int): string
  {
    if n < 0 then "-" + DecimalDigits(-n) else DecimalDigits(n)
  }

  /**
   * Round trip with the decimal rendering: every Int32 written in decimal parses back to
   * itself, and every integer outside the Int32 range written in decimal is refused.
   */
  lemma FormatRoundTrip(n: int)
    ensures TryParse(Format(n)) == InInt32Range(n)
  {
    var sign := if n < 0 then "-" else "";
    var digits := DecimalDigits(if n < 0 then -n else n);
    assert Format(n) == sign + digits;
    assert sign + digits == "" + sign + digits + "";
    assert SignedValue(sign, digits) == n;
    ParseOfParts("", sign, digits, "");
  }

  /** A value whose first character is neither white space, a sign nor a digit is refused. */
  lemma NonNumericStartIsNotInteger(s: string)
    requires s != [] && !IsWhite(s[0]) && !IsDigit(s[0]) && s[0] != '+' && s[0] != '-'
    ensures !IsInteger(s)
  {
    assert TrimStart(s) == s;
    TrimEndSplits(s);
    var t := TrimEnd(s);
    assert t != [] && t[0] == s[0];
    assert SignLength(t) == 0;
  }

  /** A single decimal digit is an integer with that digit's value. */
  lemma DigitIsInteger(s: string)
    requires |s| == 1 && IsDigit(s[0])
    ensures TryParse(s) == Some(s[0] as int - '0' as int)
  {
    assert s == "" + "" + s + "";
    assert DigitsValue(s) == s[0] as int - '0' as int by {
      assert s[..0] == [];
    }
    ParseOfParts("", "", s, "");
  }

  /** The decimal renderings of the integers around the Int32 bounds. */
  lemma DecimalDigitsNearBounds()
    ensures DecimalDigits(2147483647) == "2147483647"
    ensures DecimalDigits(2147483648) == "2147483648"
    ensures DecimalDigits(2147483649) == "2147483649"
  {
    assert DecimalDigits(2) == "2";
    assert DecimalDigits(21) == "21";
    assert DecimalDigits(214) == "214";
    assert DecimalDigits(2147) == "2147";
    assert DecimalDigits(21474) == "21474";
    assert DecimalDigits(214748) == "214748";
    assert DecimalDigits(2147483) == "2147483";
    assert DecimalDigits(21474836) == "21474836";
    assert DecimalDigits(214748364) == "214748364";
  }

  /**
   * The Int32 boundaries: 2147483647 and -2147483648 are integers, while 2147483648 and
   * -2147483649, one step outside, are refused (and so get quoted by the substitution).
   */
  lemma Int32Boundaries()
    ensures TryParse("2147483647") == Some(MaxInt32)
    ensures TryParse("-2147483648") == Some(MinInt32)
    ensures !IsInteger("2147483648")
    ensures !IsInteger("-2147483649")
  {
    DecimalDigitsNearBounds();
    FormatRoundTrip(2147483647);
    FormatRoundTrip(2147483648);
    FormatRoundTrip(-2147483648);
    FormatRoundTrip(-2147483649);
    assert Format(-2147483648) == "-2147483648";
    assert Format(-2147483649) == "-2147483649";
  }
}
