/** The JavaScript string operations the normaliser and the week parser rely on. */
module Text {
  import opened Basics

  /** The characters `String.prototype.trim` removes: ECMAScript WhiteSpace and LineTerminator. */
  predicate IsJsWhitespace(c: char)
  {
    '\t' <= c <= '\r' || c == ' ' || c == '\U{00A0}' || c == '\U{1680}' || '\U{2000}' <= c <= '\U{200A}' ||
    c == '\U{2028}' || c == '\U{2029}' || c == '\U{202F}' || c == '\U{205F}' || c == '\U{3000}' || c == '\U{FEFF}'
  }

  predicate AllWhitespace(s: string)
  {
    forall k :: 0 <= k < |s| ==> IsJsWhitespace(s[k])
  }

  /** Neither end of `s` is whitespace. */
  predicate IsTrimmed(s: string)
  {
    s == [] || (!IsJsWhitespace(s[0]) && !IsJsWhitespace(s[|s| - 1]))
  }

  function TrimStart(s: string): (r: string)
    ensures |r| <= |s| && r == s[|s| - |r|..]
    ensures AllWhitespace(s[..|s| - |r|])
    ensures r == [] || !IsJsWhitespace(r[0])
  {
    if s != [] && IsJsWhitespace(s[0]) then TrimStart(s[1..]) else s
  }

  function TrimEnd(s: string): (r: string)
    ensures |r| <= |s| && r == s[..|r|]
    ensures AllWhitespace(s[|r|..])
    ensures r == [] || !IsJsWhitespace(r[|r| - 1])
  {
    if s != [] && IsJsWhitespace(s[|s| - 1]) then
      var r := TrimEnd(s[..|s| - 1]);
      assert s[|r|..] == s[..|s| - 1][|r|..] + [s[|s| - 1]];
      r
    else s
  }

  /** `r` is `s[i..j]` and only whitespace lies outside it. */
  predicate IsMiddleSlice(s: string, r: string, i: int, j: int)
  {
    0 <= i <= j <= |s| && r == s[i..j] && AllWhitespace(s[..i]) && AllWhitespace(s[j..])
  }

  /** `String.prototype.trim`: a middle slice of `s`, with only whitespace cut off either end. */
  function Trim(s: string): (r: string)
    ensures IsTrimmed(r)
    ensures |r| <= |s|
    ensures exists i, j :: IsMiddleSlice(s, r, i, j)
  {
    TrimmedStartStaysTrimmed(TrimStart(s));
    TrimIsMiddleSlice(s);
    TrimEnd(TrimStart(s))
  }

  /** Trimming the start and then the end cuts only whitespace, from the two ends. */
  lemma TrimIsMiddleSlice(s: string)
    ensures IsMiddleSlice(s, TrimEnd(TrimStart(s)), |s| - |TrimStart(s)|, |s| - |TrimStart(s)| + |TrimEnd(TrimStart(s))|)
  {
    SuffixThenPrefix(s, TrimStart(s), TrimEnd(TrimStart(s)));
  }

  /** A prefix `r` of a suffix `t` of `s`, each cut off only whitespace, is a middle slice of `s`. */
  lemma SuffixThenPrefix(s: string, t: string, r: string)
    requires |t| <= |s| && t == s[|s| - |t|..] && AllWhitespace(s[..|s| - |t|])
    requires |r| <= |t| && r == t[..|r|] && AllWhitespace(t[|r|..])
    ensures IsMiddleSlice(s, r, |s| - |t|, |s| - |t| + |r|)
  {
    var i := |s| - |t|;
    var j := i + |r|;
    assert r == s[i..j];
    assert s[j..] == t[|r|..];
  }

  lemma TrimmedStartStaysTrimmed(t: string)
    requires t == [] || !IsJsWhitespace(t[0])
    ensures IsTrimmed(TrimEnd(t))
  {
    var r := TrimEnd(t);
    if r != [] {
      assert r[0] == t[0];
    }
  }

  /** Trimming leaves nothing exactly when the string is whitespace only. */
  lemma TrimEmptyIff(s: string)
    ensures Trim(s) == [] <==> AllWhitespace(s)
  {
    var t := TrimStart(s);
    var r := TrimEnd(t);
    assert s == s[..|s| - |t|] + t;
    if r == [] {
      assert AllWhitespace(t[|r|..]);
      assert t[|r|..] == t;
    } else {
      assert r[0] == t[0] == s[|s| - |t|];
    }
  }

  /** A string with no whitespace at either end is left as it is. */
  lemma TrimOfTrimmed(s: string)
    requires IsTrimmed(s)
    ensures Trim(s) == s
  {
  }

  /** Trimming twice is trimming once. */
  lemma TrimIdempotent(s: string)
    ensures Trim(Trim(s)) == Trim(s)
  {
    TrimOfTrimmed(Trim(s));
  }

  /** `String.prototype.toLowerCase` on one character, for the Basic Latin and Latin-1 letters and the Turkish Ğ and Ş. */
  function LowerChar(c: char): (l: char)
    ensures ('A' <= c <= 'Z') ==> l as int == c as int + 32
    ensures ('a' <= c <= 'z') ==> l == c
  {
    if 'A' <= c <= 'Z' then (c as int + 32) as char
    else if '\U{00C0}' <= c <= '\U{00DE}' && c != '\U{00D7}' then (c as int + 32) as char
    else if c == '\U{011E}' then '\U{011F}'
    else if c == '\U{015E}' then '\U{015F}'
    else c
  }

  function ToLower(s: string): (r: string)
    ensures |r| == |s|
  {
    seq(|s|, k requires 0 <= k < |s| => LowerChar(s[k]))
  }

  /** Lower-casing an already lower-cased string changes nothing. */
  lemma ToLowerIdempotent(s: string)
    ensures ToLower(ToLower(s)) == ToLower(s)
  {
  }

  /** The comparison the normaliser uses: equal after lower-casing both sides. */
  predicate EqualsIgnoringCase(a: string, b: string)
  {
    ToLower(a) == ToLower(b)
  }

  predicate IsDigit(c: char) { '0' <= c <= '9' }

  predicate AllDigits(s: string)
  {
    forall k :: 0 <= k < |s| ==> IsDigit(s[k])
  }

  function DigitChar(d: nat): (c: char)
    requires d < 10
    ensures IsDigit(c)
  {
    ('0' as int + d) as char
  }

  function DigitValue(c: char): nat
    requires IsDigit(c)
  {
    c as int - '0' as int
  }

  /** Decimal rendering of a natural number, as `String(n)` gives it: no sign, no leading zero. */
  function NatToDecimal(n: nat): (r: string)
    ensures |r| > 0 && AllDigits(r)
    ensures |r| > 1 ==> r[0] != '0'
  {
    if n < 10 then [DigitChar(n)]
    else NatToDecimal(n / 10) + [DigitChar(n % 10)]
  }

  /** `String(n)` for an integer `n`. */
  function IntToDecimal(n: int): (r: string)
    ensures |r| > 0
    ensures forall k :: 0 <= k < |r| ==> !IsJsWhitespace(r[k])
    ensures n >= 0 ==> AllDigits(r) && ParseDigits(r) == n
    ensures n < 0 ==> r[0] == '-' && AllDigits(r[1..]) && ParseDigits(r[1..]) == -n
  {
    if n < 0 then
      var d := NatToDecimal(-n);
      ParseNatToDecimal(-n);
      assert ("-" + d)[1..] == d;
      "-" + d
    else
      ParseNatToDecimal(n);
      NatToDecimal(n)
  }

  /** `parseInt` on a string of decimal digits. */
  function ParseDigits(s: string): (n: nat)
    requires AllDigits(s)
    ensures s != [] ==> n % 10 == DigitValue(s[|s| - 1])
  {
    if s == [] then 0 else ParseDigits(s[..|s| - 1]) * 10 + DigitValue(s[|s| - 1])
  }

  /** `parseInt` ignores leading zeros: `"01"` is 1. */
  lemma {:induction false} ParseDigitsLeadingZero(s: string)
    requires AllDigits(s)
    ensures ParseDigits("0" + s) == ParseDigits(s)
  {
    if s != [] {
      var t := "0" + s;
      assert t[..|t| - 1] == "0" + s[..|s| - 1];
      ParseDigitsLeadingZero(s[..|s| - 1]);
    } else {
      assert ("0" + s)[..0] == [];
    }
  }

  /** The length of the run of ASCII digits `\d+` at the start of `t`. */
  function DigitRun(t: string): (n: nat)
    ensures n <= |t| && AllDigits(t[..n])
    ensures n < |t| ==> !IsDigit(t[n])
  {
    if t != [] && IsDigit(t[0]) then
      var n := 1 + DigitRun(t[1..]);
      assert t[..n] == [t[0]] + t[1..][..n - 1];
      n
    else 0
  }

  /** A leading run of digits followed by a non-digit is exactly the digits. */
  lemma {:induction false} DigitRunOfDigits(d: string, t: string)
    requires AllDigits(d)
    requires t == [] || !IsDigit(t[0])
    ensures DigitRun(d + t) == |d|
  {
    if d != [] {
      assert (d + t)[1..] == d[1..] + t;
      DigitRunOfDigits(d[1..], t);
    } else {
      assert d + t == t;
    }
  }

  /** `parseInt(s)` with no radix: leading whitespace is skipped, then an optional sign, then the
      longest run of decimal digits; `None` stands for `NaN`, when no digit follows. */
  function ParseIntPrefix(s: string): (r: Option<int>)
    ensures var t := TrimStart(s); t == [] || (!IsDigit(t[0]) && t[0] != '+' && t[0] != '-') ==> r.None?
  {
    ParseSigned(TrimStart(s))
  }

  /** The sign and digits part of `parseInt`, after the whitespace. */
  function ParseSigned(t: string): (r: Option<int>)
    ensures t == [] || (!IsDigit(t[0]) && t[0] != '+' && t[0] != '-') ==> r.None?
  {
    if t != [] && (t[0] == '+' || t[0] == '-') then
      var n := DigitRun(t[1..]);
      if n == 0 then None
      else if t[0] == '-' then Some(-(ParseDigits(t[1..][..n]) as int))
      else Some(ParseDigits(t[1..][..n]) as int)
    else
      var n := DigitRun(t);
      if n == 0 then None else Some(ParseDigits(t[..n]) as int)
  }

  /** On a digit string `parseInt` is the decimal value of the whole string. */
  lemma ParseIntPrefixOfDigits(s: string)
    requires s != [] && AllDigits(s)
    ensures ParseIntPrefix(s) == Some(ParseDigits(s) as int)
  {
    DigitsAreWholeRun(s);
    assert s[..|s|] == s;
  }

  /** A digit string has no whitespace to skip and is one run of digits. */
  lemma DigitsAreWholeRun(s: string)
    ensures s != [] && AllDigits(s) ==> TrimStart(s) == s && DigitRun(s) == |s|
  {
    if s != [] && AllDigits(s) {
      assert !IsJsWhitespace(s[0]);
      DigitRunOfDigits(s, []);
      assert s + [] == s;
    }
  }

  /** Leading whitespace is skipped up to the first other character. */
  lemma {:induction false} TrimStartSkips(w: string, t: string)
    requires AllWhitespace(w)
    requires t == [] || !IsJsWhitespace(t[0])
    ensures TrimStart(w + t) == t
  {
    if w != [] {
      assert (w + t)[0] == w[0] && (w + t)[1..] == w[1..] + t;
      TrimStartSkips(w[1..], t);
    } else {
      assert w + t == t;
    }
  }

  /** `parseInt` reads whitespace, an optional sign and the longest digit run, and ignores the rest:
      `" -12px"` is `-12`, `"+7 "` is `7` and `"42abc"` is `42`. */
  lemma ParseIntOfSignedRun(w: string, d: string, rest: string)
    requires AllWhitespace(w)
    requires d != [] && AllDigits(d)
    requires rest == [] || !IsDigit(rest[0])
    ensures ParseIntPrefix(w + ("-" + d + rest)) == Some(-(ParseDigits(d) as int))
    ensures ParseIntPrefix(w + ("+" + d + rest)) == Some(ParseDigits(d) as int)
    ensures ParseIntPrefix(w + (d + rest)) == Some(ParseDigits(d) as int)
  {
    SignedRun('-', w, d, rest);
    SignedRun('+', w, d, rest);
    UnsignedRun(w, d, rest);
  }

  /** A sign, after whitespace, applies to the digit run that follows it. */
  lemma SignedRun(sign: char, w: string, d: string, rest: string)
    requires sign == '-' || sign == '+'
    requires AllWhitespace(w)
    requires d != [] && AllDigits(d)
    requires rest == [] || !IsDigit(rest[0])
    ensures sign == '-' ==> ParseIntPrefix(w + ([sign] + d + rest)) == Some(-(ParseDigits(d) as int))
    ensures sign == '+' ==> ParseIntPrefix(w + ([sign] + d + rest)) == Some(ParseDigits(d) as int)
  {
    var u := d + rest;
    var t := [sign] + u;
    assert [sign] + d + rest == t;
    assert t[0] == sign && t[1..] == u;
    RunThenRest(d, rest);
    SignThenRun(t, d);
    ParseAfterWhitespace(w, t);
  }

  /** Without a sign, the digit run after the whitespace is the value. */
  lemma UnsignedRun(w: string, d: string, rest: string)
    requires AllWhitespace(w)
    requires d != [] && AllDigits(d)
    requires rest == [] || !IsDigit(rest[0])
    ensures ParseIntPrefix(w + (d + rest)) == Some(ParseDigits(d) as int)
  {
    var t := d + rest;
    assert t[0] == d[0];
    RunThenRest(d, rest);
    UnsignedThenRun(t, |d|);
    ParseAfterWhitespace(w, t);
  }

  /** Leading whitespace does not change what `parseInt` reads. */
  lemma ParseAfterWhitespace(w: string, t: string)
    requires AllWhitespace(w)
    requires t == [] || !IsJsWhitespace(t[0])
    ensures ParseIntPrefix(w + t) == ParseSigned(t)
  {
    TrimStartSkips(w, t);
  }

  /** A digit run ended by a non-digit is read whole. */
  lemma RunThenRest(d: string, rest: string)
    requires AllDigits(d)
    requires rest == [] || !IsDigit(rest[0])
    ensures DigitRun(d + rest) == |d| && (d + rest)[..|d|] == d
  {
    DigitRunOfDigits(d, rest);
    assert (d + rest)[..|d|] == d;
  }

  /** A sign followed by a whole digit run `d` parses as `d`'s value, negated after `-`. */
  lemma SignThenRun(t: string, d: string)
    requires t != [] && (t[0] == '-' || t[0] == '+')
    requires d != [] && DigitRun(t[1..]) == |d| && t[1..][..|d|] == d
    ensures t[0] == '-' ==> ParseSigned(t) == Some(-(ParseDigits(d) as int))
    ensures t[0] == '+' ==> ParseSigned(t) == Some(ParseDigits(d) as int)
  {
  }

  /** A run of `n > 0` digits with no sign parses as that run. */
  lemma UnsignedThenRun(t: string, n: nat)
    requires t != [] && t[0] != '-' && t[0] != '+'
    requires 0 < n && DigitRun(t) == n
    ensures ParseSigned(t) == Some(ParseDigits(t[..n]) as int)
  {
  }

  /** Text that starts with neither whitespace, a sign nor a digit parses to `NaN`. */
  lemma NonNumericIsNaN(s: string)
    requires s != [] && !IsJsWhitespace(s[0]) && !IsDigit(s[0]) && s[0] != '+' && s[0] != '-'
    ensures ParseIntPrefix(s).None?
  {
    assert TrimStart(s) == s;
  }

  /** `parseInt` of an id the normaliser makes up, or of a week id, is `NaN`. */
  lemma GeneratedIdsAreNaN(fallbackIndex: nat, rest: string)
    ensures ParseIntPrefix("auto-" + NatToDecimal(fallbackIndex)).None?
    ensures ParseIntPrefix("eay_" + rest).None?
  {
    var auto, week := "auto-" + NatToDecimal(fallbackIndex), "eay_" + rest;
    assert auto[0] == 'a' && week[0] == 'e';
  }

  /** Parsing the decimal rendering of a number gives the number back. */
  lemma {:induction false} ParseNatToDecimal(n: nat)
    ensures ParseDigits(NatToDecimal(n)) == n
  {
    if n >= 10 {
      var r := NatToDecimal(n);
      assert r[..|r| - 1] == NatToDecimal(n / 10);
      ParseNatToDecimal(n / 10);
    }
  }

  /** The sum of the values of the UTF-16 code units of `c`: what `split('')` followed by
      `charCodeAt(0)` adds up for one character (two surrogates above U+FFFF). */
  function CodeUnitSum(c: char): (sum: nat)
    ensures c as int < 0x1_0000 ==> sum == c as int
  {
    var v := c as int;
    if v < 0x1_0000 then v
    else 0xD800 + (v - 0x1_0000) / 0x400 + 0xDC00 + (v - 0x1_0000) % 0x400
  }

  function CodeUnitTotal(s: string): (total: nat)
    ensures s == [] ==> total == 0
    ensures forall k :: 0 <= k < |s| ==> CodeUnitSum(s[k]) <= total
  {
    if s == [] then 0
    else
      var init := s[..|s| - 1];
      assert forall k :: 0 <= k < |init| ==> init[k] == s[k];
      CodeUnitTotal(init) + CodeUnitSum(s[|s| - 1])
  }
}
