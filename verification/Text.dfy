/** The string operations the serialisation relies on, on integers only:
    `String(n)` (what `join` applies to each value), `Number(s)`,
    `Array.prototype.join(",")` and `String.prototype.split(",")`. */
module Text {
  import opened BinaryTrees

  predicate IsDigit(c: char)
  {
    '0' <= c <= '9'
  }

  predicate AllDigits(s: string)
  {
    forall i :: 0 <= i < |s| ==> IsDigit(s[i])
  }

  function DigitChar(d: nat): char
    requires d < 10
  {
    "0123456789"[d]
  }

  function DigitValue(c: char): nat
    requires IsDigit(c)
  {
    c as int - '0' as int
  }

  /** The decimal digits of `n`, most significant first, without leading zeros. */
  function NatToString(n: nat): (s: string)
    ensures |s| >= 1 && AllDigits(s)
    ensures s[0] == '0' ==> n == 0
  {
    if n < 10 then [DigitChar(n)] else NatToString(n / 10) + [DigitChar(n % 10)]
  }

  /** `String(v)` for an integer `v`: an optional minus sign, then the digits. */
  function NumberToString(v: int): (s: string)
    ensures |s| >= 1 && ',' !in s && s != "#"
  {
    if v < 0 then "-" + NatToString(-v) else NatToString(v)
  }

  /** `k` zero digits. */
  function Zeros(k: nat): string
  {
    seq(k, _ => '0')
  }

  /** `digits` spells `n` in decimal: the digits `String(n)` prints, after
      any number of leading zeros. */
  predicate Denotes(digits: string, n: int)
  {
    && n >= 0
    && |NatToString(n)| <= |digits|
    && digits == Zeros(|digits| - |NatToString(n)|) + NatToString(n)
  }

  /** A string of digits spells at most one number, so `Denotes` fixes the
      value a parse gives. */
  lemma DenotesUnique(s: string, a: nat, b: nat)
    requires Denotes(s, a) && Denotes(s, b)
    ensures a == b
  {
    var na, nb := NatToString(a), NatToString(b);
    NumeralStart(s, a);
    NumeralStart(s, b);
    if |na| == |nb| {
      assert na == s[|s| - |na|..] == nb;
      DigitsOfNat(a);
      DigitsOfNat(b);
    } else {
      assert false;
    }
  }

  /** Before the numeral come only zeros, and the numeral starts with its
      first digit. */
  lemma NumeralStart(s: string, n: nat)
    requires Denotes(s, n)
    ensures forall j :: 0 <= j < |s| - |NatToString(n)| ==> s[j] == '0'
    ensures s[|s| - |NatToString(n)|] == NatToString(n)[0]
  {
    var k := |s| - |NatToString(n)|;
    forall j | 0 <= j < k
      ensures s[j] == '0'
    {
      assert s[j] == Zeros(k)[j];
    }
  }

  /** A single digit spells its own value. */
  lemma DenotesDigit(c: char)
    requires IsDigit(c)
    ensures Denotes([c], DigitValue(c))
  {
    assert Zeros(0) + [c] == [c];
  }

  /** Appending a digit to a numeral for `n` gives a numeral for `10n + d`. */
  lemma DenotesSnoc(p: string, n: nat, c: char)
    requires Denotes(p, n) && IsDigit(c)
    ensures Denotes(p + [c], n * 10 + DigitValue(c))
  {
    if n == 0 {
      DenotesSnocZero(p, c);
    } else {
      DenotesSnocPositive(p, n, c);
    }
  }

  lemma DenotesSnocZero(p: string, c: char)
    requires Denotes(p, 0) && IsDigit(c)
    ensures Denotes(p + [c], DigitValue(c))
  {
    DigitCharOfValue(c);
    ZeroNumeral(p);
    assert p + [c] == Zeros(|p|) + NatToString(DigitValue(c));
  }

  lemma DenotesSnocPositive(p: string, n: nat, c: char)
    requires Denotes(p, n) && n > 0 && IsDigit(c)
    ensures Denotes(p + [c], n * 10 + DigitValue(c))
  {
    DigitCharOfValue(c);
    NatToStringSnoc(n, DigitValue(c));
    Assoc(Zeros(|p| - |NatToString(n)|), NatToString(n), [c]);
  }

  lemma DigitCharOfValue(c: char)
    requires IsDigit(c)
    ensures DigitValue(c) < 10 && DigitChar(DigitValue(c)) == c
    ensures NatToString(DigitValue(c)) == [c]
  {
  }

  /** A numeral for 0 is all zeros. */
  lemma ZeroNumeral(p: string)
    requires Denotes(p, 0)
    ensures p == Zeros(|p|)
  {
    assert NatToString(0) == ['0'];
    assert Zeros(|p| - 1) + ['0'] == Zeros(|p|);
  }

  /** The decimal numeral of `10n + d`, for positive `n`, is that of `n`
      followed by the digit `d`. */
  lemma NatToStringSnoc(n: nat, d: nat)
    requires n > 0 && d < 10
    ensures NatToString(n * 10 + d) == NatToString(n) + [DigitChar(d)]
  {
    var m := n * 10 + d;
    assert m / 10 == n && m % 10 == d;
  }

  /** The number a non-empty string of decimal digits denotes; `None` for
      the empty string or when some character is not a digit. */
  function ParseDigits(s: string): (r: Option<nat>)
    ensures r.Some? <==> s != [] && AllDigits(s)
  {
    if s == [] || !IsDigit(s[|s| - 1]) then None
    else if |s| == 1 then Some(DigitValue(s[0]))
    else
      match ParseDigits(s[..|s| - 1])
      case None => None
      case Some(n) => Some(n * 10 + DigitValue(s[|s| - 1]))
  }

  /** The digits are the decimal numeral of the value `ParseDigits` gives,
      after any leading zeros. */
  lemma {:induction false} ParseDigitsValue(s: string)
    ensures ParseDigits(s).Some? ==> Denotes(s, ParseDigits(s).value)
  {
    if s != [] && IsDigit(s[|s| - 1]) {
      var p, c := s[..|s| - 1], s[|s| - 1];
      assert s == p + [c];
      if |s| == 1 {
        DenotesDigit(c);
      } else if ParseDigits(p).Some? {
        ParseDigitsValue(p);
        DenotesSnoc(p, ParseDigits(p).value, c);
      }
    }
  }

  /** `Number(s)` restricted to integers: the empty string is 0, an optional
      sign followed by decimal digits is that integer, and anything else is
      `None` (where `Number` gives `NaN` or a value that is not an integer). */
  function ParseNumber(s: string): (r: Option<int>)
    ensures s == [] ==> r == Some(0)
    ensures r.Some? <==> s == [] || AllDigits(s) || (|s| >= 2 && (s[0] == '-' || s[0] == '+') && AllDigits(s[1..]))
    ensures r.Some? && s != [] && s[0] == '-' ==> r.value <= 0
    ensures r.Some? && (s == [] || s[0] != '-') ==> r.value >= 0
  {
    if s == [] then Some(0)
    else if s[0] == '-' || s[0] == '+' then
      match ParseDigits(s[1..])
      case None => None
      case Some(n) =>
        var magnitude: int := n;
        Some(if s[0] == '-' then -magnitude else magnitude)
    else
      match ParseDigits(s)
      case None => None
      case Some(n) => Some(n)
  }

  /** The value `ParseNumber` gives: the digits after the sign, or the whole
      string when there is none, spell its magnitude, and a `-` negates it. */
  lemma ParseNumberValue(s: string)
    ensures var r := ParseNumber(s);
      && (r.Some? && s != [] && s[0] == '-' ==> Denotes(s[1..], -r.value))
      && (r.Some? && s != [] && s[0] == '+' ==> Denotes(s[1..], r.value))
      && (r.Some? && s != [] && s[0] != '-' && s[0] != '+' ==> Denotes(s, r.value))
  {
    if s != [] {
      ParseDigitsValue(s);
      ParseDigitsValue(s[1..]);
    }
  }

  lemma {:induction false} DigitsOfNat(n: nat)
    ensures ParseDigits(NatToString(n)) == Some(n)
  {
    if n >= 10 {
      DigitsOfNat(n / 10);
      DigitValueOfChar(n % 10);
      ParseDigitsSnoc(NatToString(n / 10), DigitChar(n % 10));
    } else {
      DigitValueOfChar(n);
    }
  }

  lemma DigitValueOfChar(d: nat)
    requires d < 10
    ensures IsDigit(DigitChar(d)) && DigitValue(DigitChar(d)) == d
  {
  }

  /** Reading one more digit multiplies by ten and adds that digit. */
  lemma ParseDigitsSnoc(p: string, c: char)
    requires p != [] && IsDigit(c)
    ensures ParseDigits(p).Some? ==> ParseDigits(p + [c]) == Some(ParseDigits(p).value * 10 + DigitValue(c))
  {
    assert (p + [c])[..|p|] == p;
  }

  /** After a minus sign, digits give the negation of their value. */
  lemma ParseNegative(digits: string)
    requires ParseDigits(digits).Some?
    ensures ParseNumber("-" + digits) == Some(-(ParseDigits(digits).value as int))
  {
    assert ("-" + digits)[1..] == digits;
  }

  /** After a plus sign, or with no sign, digits give their value. */
  lemma ParseUnsigned(digits: string)
    requires ParseDigits(digits).Some?
    ensures ParseNumber("+" + digits) == Some(ParseDigits(digits).value)
    ensures ParseNumber(digits) == Some(ParseDigits(digits).value)
  {
    assert ("+" + digits)[1..] == digits;
    assert IsDigit(digits[0]);
  }

  /** `Number(String(v)) == v` for every integer `v`. */
  lemma ParseNumberToString(v: int)
    ensures ParseNumber(NumberToString(v)) == Some(v)
  {
    if v < 0 {
      NegativeRoundTrip(v);
    } else {
      NonNegativeRoundTrip(v);
    }
  }

  lemma NegativeRoundTrip(v: int)
    requires v < 0
    ensures ParseNumber(NumberToString(v)) == Some(v)
  {
    var digits := NatToString(-v);
    assert NumberToString(v) == "-" + digits;
    DigitsOfNat(-v);
    ParseNegative(digits);
  }

  lemma NonNegativeRoundTrip(v: nat)
    ensures ParseNumber(NumberToString(v)) == Some(v)
  {
    var digits := NatToString(v);
    assert NumberToString(v) == digits;
    DigitsOfNat(v);
    ParseUnsigned(digits);
  }

  /** Distinct integers print differently. */
  lemma NumberToStringInjective(v: int, w: int)
    requires NumberToString(v) == NumberToString(w)
    ensures v == w
  {
    ParseNumberToString(v);
    ParseNumberToString(w);
  }

  /** `xs.join(",")`. */
  function Join(xs: seq<string>): string
  {
    if xs == [] then []
    else if |xs| == 1 then xs[0]
    else xs[0] + [','] + Join(xs[1..])
  }

  /** `join(",")` keeps the pieces in order with one comma between each two
      and none at either end: the first piece starts the string, the last one
      ends it, and comma-free pieces give exactly `|xs| - 1` commas. */
  lemma {:induction false} JoinPieces(xs: seq<string>)
    ensures xs == [] ==> Join(xs) == []
    ensures xs != [] ==> |Join(xs)| >= |xs[0]| && Join(xs)[..|xs[0]|] == xs[0]
    ensures xs != [] ==> |Join(xs)| >= |xs[|xs| - 1]| && Join(xs)[|Join(xs)| - |xs[|xs| - 1]|..] == xs[|xs| - 1]
    ensures xs != [] && (forall i :: 0 <= i < |xs| ==> ',' !in xs[i]) ==> Commas(Join(xs)) == |xs| - 1
  {
    if |xs| == 1 {
      CommaFree(xs[0]);
    } else if |xs| > 1 {
      var rest := Join(xs[1..]);
      JoinPieces(xs[1..]);
      assert xs[|xs| - 1] == xs[1..][|xs[1..]| - 1];
      CommasAppend(xs[0], [',']);
      CommasAppend(xs[0] + [','], rest);
      CommaFree(xs[0]);
      assert Join(xs) == xs[0] + [','] + rest;
      assert (xs[0] + [','] + rest)[..|xs[0]|] == xs[0];
    }
  }

  /** The number of commas in `s`. */
  function Commas(s: string): nat
  {
    if s == [] then 0 else (if s[0] == ',' then 1 else 0) + Commas(s[1..])
  }

  lemma {:induction false} CommasAppend(a: string, b: string)
    ensures Commas(a + b) == Commas(a) + Commas(b)
  {
    if a == [] {
      assert a + b == b;
    } else {
      assert (a + b)[1..] == a[1..] + b;
      CommasAppend(a[1..], b);
    }
  }

  lemma {:induction false} CommaFree(s: string)
    ensures ',' !in s ==> Commas(s) == 0
  {
    if s != [] {
      CommaFree(s[1..]);
    }
  }

  /** `s.split(",")`: the pieces between commas, at least one (possibly empty).
      Joining them again gives `s` back, and no piece holds a comma. */
  function Split(s: string): (parts: seq<string>)
    ensures |parts| >= 1 && Join(parts) == s
    ensures forall i :: 0 <= i < |parts| ==> ',' !in parts[i]
  {
    if s == [] then [[]]
    else
      var rest := Split(s[1..]);
      if s[0] == ',' then
        [[]] + rest
      else
        assert s == [s[0]] + s[1..];
        JoinCons(s[0], rest);
        [[s[0]] + rest[0]] + rest[1..]
  }

  lemma JoinCons(c: char, xs: seq<string>)
    requires |xs| >= 1
    ensures Join([[c] + xs[0]] + xs[1..]) == [c] + Join(xs)
  {
    var ys := [[c] + xs[0]] + xs[1..];
    assert ys[1..] == xs[1..];
    if |xs| > 1 {
      Assoc([c], xs[0], [',']);
      Assoc([c], xs[0] + [','], Join(xs[1..]));
    }
  }

  /** Splitting a joined list of comma-free pieces gives the pieces back. */
  lemma {:induction false} SplitJoin(xs: seq<string>)
    requires |xs| >= 1
    requires forall i :: 0 <= i < |xs| ==> ',' !in xs[i]
    ensures Split(Join(xs)) == xs
  {
    if |xs| == 1 {
      SplitPrefix(xs[0], []);
    } else {
      SplitJoin(xs[1..]);
      var tail := [','] + Join(xs[1..]);
      assert Join(xs) == xs[0] + tail;
      SplitPrefix(xs[0], tail);
      assert tail[1..] == Join(xs[1..]);
      assert Split(tail) == [[]] + xs[1..];
      assert xs[0] + [] == xs[0];
      assert xs == [xs[0]] + xs[1..];
    }
  }

  /** Characters before the first comma go to the first piece. */
  lemma {:induction false} SplitPrefix(a: string, s: string)
    requires ',' !in a
    ensures Split(a + s) == [a + Split(s)[0]] + Split(s)[1..]
  {
    if a != [] {
      SplitPrefix(a[1..], s);
      assert (a + s)[0] == a[0] != ',';
      assert (a + s)[1..] == a[1..] + s;
      var rest := Split(a[1..] + s);
      assert rest[1..] == Split(s)[1..];
      assert a == [a[0]] + a[1..];
      Assoc([a[0]], a[1..], Split(s)[0]);
    } else {
      assert a + s == s;
      var parts := Split(s);
      assert a + parts[0] == parts[0];
      assert parts == [parts[0]] + parts[1..];
    }
  }
}
