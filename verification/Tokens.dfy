/** Decimal token amounts and base units (miden-client/crates/rust-client/src/utils.rs). */
module Tokens {
  import opened Common

  const U64_MAX := 0xFFFF_FFFF_FFFF_FFFF
  const MAX_DECIMALS := 12

  datatype TokenParseError = MaxDecimals | MultipleDecimalPoints | ParseU64 | TooManyDecimals
  datatype Result<T> = Ok(value: T) | Err(error: TokenParseError)

  // Decimal digits

  predicate IsDigit(c: char) { '0' <= c <= '9' }

  predicate AllDigits(s: string) { forall i :: 0 <= i < |s| ==> IsDigit(s[i]) }

  function Pow10(n: nat): (p: nat)
    ensures p > 0
  {
    if n == 0 then 1 else 10 * Pow10(n - 1)
  }

  lemma {:induction false} Pow10Add(m: nat, n: nat)
    ensures Pow10(m + n) == Pow10(m) * Pow10(n)
  {
    if n > 0 {
      Pow10Add(m, n - 1);
      Assoc(Pow10(m), 10, Pow10(n - 1));
    }
  }

  lemma Assoc(a: nat, b: nat, c: nat)
    ensures a * (b * c) == b * (a * c) && a * (b * c) == a * b * c
  {
  }

  /** The number a string of digits stands for. */
  function Val(s: string): nat
    requires AllDigits(s)
  {
    if |s| == 0 then 0 else 10 * Val(s[..|s| - 1]) + (s[|s| - 1] as int - '0' as int)
  }

  lemma {:induction false} ValConcat(s: string, t: string)
    requires AllDigits(s) && AllDigits(t)
    ensures AllDigits(s + t) && Val(s + t) == Val(s) * Pow10(|t|) + Val(t)
  {
    if |t| == 0 {
      assert s + t == s;
    } else {
      var n := |t| - 1;
      ValConcat(s, t[..n]);
      assert (s + t)[..|s + t| - 1] == s + t[..n];
      Assoc(Val(s), 10, Pow10(n));
    }
  }

  function Zeros(n: nat): (s: string)
    ensures |s| == n && forall i :: 0 <= i < n ==> s[i] == '0'
  {
    seq(n, _ => '0')
  }

  lemma {:induction false} ValZeros(n: nat)
    ensures Val(Zeros(n)) == 0
  {
    if n > 0 {
      ValZeros(n - 1);
      assert Zeros(n)[..n - 1] == Zeros(n - 1);
    }
  }

  lemma ValTrailing(s: string, n: nat)
    requires AllDigits(s)
    ensures AllDigits(s + Zeros(n)) && Val(s + Zeros(n)) == Val(s) * Pow10(n)
  {
    ValConcat(s, Zeros(n));
    ValZeros(n);
  }

  lemma ValPart(s: string, t: string)
    requires AllDigits(s) && AllDigits(t)
    ensures AllDigits(s + t) && Val(s) <= Val(s + t) && Val(t) <= Val(s + t)
  {
    ValConcat(s, t);
    Grows(Val(s), Pow10(|t|));
  }

  lemma Grows(a: nat, b: nat)
    requires b > 0
    ensures a <= a * b
  {
  }

  // Library functions

  /** A number after an optional plus sign. */
  function Unsigned(s: string): string {
    if |s| > 0 && s[0] == '+' then s[1..] else s
  }

  function ParseU64Of(s: string): Option<nat> {
    var t := Unsigned(s);
    if |t| > 0 && AllDigits(t) && Val(t) <= U64_MAX then Some(Val(t)) else None
  }

  /** `split('.')`. */
  function Parts(s: string): (parts: seq<string>)
    ensures |parts| > 0
  {
    if |s| == 0 then [""]
    else
      var n, before := |s| - 1, Parts(s[..|s| - 1]);
      if s[n] == '.' then before + [""] else before[|before| - 1 := before[|before| - 1] + [s[n]]]
  }

  /** `trim_end_matches('0')`. */
  function TrimZeros(s: string): (t: string)
    ensures t <= s && s == t + Zeros(|s| - |t|)
    ensures |t| > 0 ==> t[|t| - 1] != '0'
  {
    if |s| > 0 && s[|s| - 1] == '0' then TrimZeros(s[..|s| - 1]) else s
  }

  /** `u64::to_string`. */
  function Decimal(n: nat): (s: string)
    ensures |s| > 0 && AllDigits(s) && Val(s) == n
  {
    if n < 10 then [Digit(n)]
    else
      var s := Decimal(n / 10) + [Digit(n % 10)];
      assert s[..|s| - 1] == Decimal(n / 10);
      s
  }

  function Digit(n: nat): (c: char)
    requires n < 10
    ensures IsDigit(c) && c as int - '0' as int == n
  {
    ('0' as int + n) as char
  }

  method Split(s: string) returns (parts: seq<string>)
    ensures parts == Parts(s)
  {
    parts := [""];
    assert s[..0] == "";
    for i := 0 to |s|
      invariant parts == Parts(s[..i])
    {
      assert s[..i + 1][..i] == s[..i];
      if s[i] == '.' {
        parts := parts + [""];
      } else {
        parts := parts[|parts| - 1 := parts[|parts| - 1] + [s[i]]];
      }
    }
    assert s[..|s|] == s;
  }

  predicate NoPoint(s: string) { forall i :: 0 <= i < |s| ==> s[i] != '.' }

  function Join(parts: seq<string>): string
    requires |parts| > 0
  {
    if |parts| == 1 then parts[0] else Join(parts[..|parts| - 1]) + "." + parts[|parts| - 1]
  }

  lemma JoinLast(parts: seq<string>, tail: string)
    requires |parts| > 0
    ensures Join(parts[|parts| - 1 := parts[|parts| - 1] + tail]) == Join(parts) + tail
    ensures Join(parts + [tail]) == Join(parts) + "." + tail
  {
    var k := |parts| - 1;
    var longer := parts[k := parts[k] + tail];
    assert longer[..k] == parts[..k] && (parts + [tail])[..k + 1] == parts;
  }

  /** Splitting undoes joining: the parts hold no point, and with points between them they are the string. */
  lemma {:induction false} PartsJoin(s: string)
    ensures Join(Parts(s)) == s
  {
    hide Join;
    if |s| == 0 {
      JoinOne(s);
    } else {
      var n, before := |s| - 1, Parts(s[..|s| - 1]);
      PartsJoin(s[..n]);
      assert s == s[..n] + [s[n]];
      JoinLast(before, if s[n] == '.' then "" else [s[n]]);
    }
  }

  lemma JoinOne(s: string)
    ensures Join([s]) == s
  {
  }

  lemma {:induction false} PartsHoldNoPoint(s: string)
    ensures forall i :: 0 <= i < |Parts(s)| ==> NoPoint(Parts(s)[i])
  {
    if |s| > 0 { PartsHoldNoPoint(s[..|s| - 1]); }
  }

  lemma {:induction false} PartsWhole(s: string)
    requires NoPoint(s)
    ensures Parts(s) == [s]
  {
    if |s| > 0 {
      PartsWhole(s[..|s| - 1]);
      assert s == s[..|s| - 1] + [s[|s| - 1]];
    }
  }

  lemma {:induction false} PartsPair(i: string, f: string)
    requires NoPoint(i) && NoPoint(f)
    ensures Parts(i + "." + f) == [i, f]
    decreases |f|
  {
    var s := i + "." + f;
    if |f| == 0 {
      assert s[..|s| - 1] == i;
      PartsWhole(i);
    } else {
      assert s[..|s| - 1] == i + "." + f[..|f| - 1];
      PartsPair(i, f[..|f| - 1]);
      assert f == f[..|f| - 1] + [f[|f| - 1]];
    }
  }

  // Parsing

  ghost predicate Parses(s: string) { ParseU64Of(s).Some? }

  /** A character other than zero after the first `n`. */
  ghost predicate SignificantBeyond(f: string, n: nat) {
    exists k :: n <= k < |f| && f[k] != '0'
  }

  /** The amount `i.f` in base units, times ten to the length of `f`. */
  ghost function Scaled(i: string, f: string, n: nat): nat
    requires AllDigits(i) && AllDigits(f)
  {
    (Val(i) * Pow10(|f|) + Val(f)) * Pow10(n)
  }

  /** What the result must be for the parts of the string: the exact amount, or an error exactly when a part is no
      number, when a digit would be lost, when the fraction carries a plus sign (each part on its own may), or when the
      exact amount does not fit. */
  ghost predicate Correct(i: string, f: string, hasPoint: bool, n: nat, r: Result<nat>) {
    if !Parses(i) || (hasPoint && !Parses(f)) then r == Err(ParseU64)
    else if SignificantBeyond(f, n) then r == Err(TooManyDecimals)
    else if !AllDigits(f) then r == Err(ParseU64)
    else if Scaled(Unsigned(i), f, n) > U64_MAX * Pow10(|f|) then r == Err(ParseU64)
    else r.Ok? && r.value * Pow10(|f|) == Scaled(Unsigned(i), f, n)
  }

  lemma TrimmedTail(f: string)
    ensures forall k :: |TrimZeros(f)| <= k < |f| ==> f[k] == '0'
  {
    var t := TrimZeros(f);
    forall k | |t| <= k < |f| ensures f[k] == '0' { assert f[k] == (t + Zeros(|f| - |t|))[k]; }
  }

  lemma TrimLength(f: string, n: nat)
    ensures |TrimZeros(f)| > n <==> SignificantBeyond(f, n)
  {
    hide TrimZeros;
    var t := TrimZeros(f);
    TrimmedTail(f);
    if |t| > n { assert f[|t| - 1] == t[|t| - 1]; }
  }

  /** The fraction as `n` digits. */
  ghost function Padded(f: string, n: nat): (p: string)
    requires |TrimZeros(f)| <= n
    ensures |p| == n
  {
    TrimZeros(f) + Zeros(n - |TrimZeros(f)|)
  }

  lemma TrimmedValue(f: string)
    requires AllDigits(f)
    ensures AllDigits(TrimZeros(f)) && Val(f) == Val(TrimZeros(f)) * Pow10(|f| - |TrimZeros(f)|)
  {
    hide Val, TrimZeros;
    var t := TrimZeros(f);
    assert AllDigits(t) by { assert forall j :: 0 <= j < |t| ==> t[j] == f[j]; }
    ValTrailing(t, |f| - |t|);
  }

  /** Trimming a fraction and padding it to `n` digits rescales its value. */
  lemma PaddedValue(f: string, n: nat)
    requires AllDigits(f) && |TrimZeros(f)| <= n
    ensures AllDigits(Padded(f, n)) && Val(Padded(f, n)) * Pow10(|f|) == Val(f) * Pow10(n)
  {
    hide Val, Pow10, TrimZeros;
    var t := TrimZeros(f);
    var a, b := |f| - |t|, n - |t|;
    TrimmedValue(f);
    ValTrailing(t, b);
    Pow10Add(b, |f|);
    Pow10Add(a, n);
    assert b + |f| == a + n;
    Assoc2(Val(t), Pow10(b), Pow10(|f|));
    Assoc2(Val(t), Pow10(a), Pow10(n));
  }

  lemma Assoc2(a: nat, b: nat, c: nat)
    ensures a * b * c == a * (b * c)
  {
  }

  /** The digits of both parts together are the exact amount. */
  lemma CombinedValue(i: string, f: string, padded: string, n: nat)
    requires AllDigits(i) && AllDigits(f) && AllDigits(padded) && |padded| == n
    requires Val(padded) * Pow10(|f|) == Val(f) * Pow10(n)
    ensures AllDigits(i + padded) && Val(i + padded) * Pow10(|f|) == Scaled(i, f, n)
  {
    ValConcat(i, padded);
    Rescale(Val(i), Val(f), Val(padded), Pow10(n), Pow10(|f|));
  }

  lemma Rescale(i: nat, f: nat, p: nat, n: nat, m: nat)
    requires p * m == f * n
    ensures (i * n + p) * m == (i * m + f) * n
  {
    assert (i * n + p) * m == i * n * m + p * m;
    assert (i * m + f) * n == i * m * n + f * n;
  }

  lemma Order(a: nat, b: nat, c: nat)
    requires c > 0
    ensures a <= b <==> a * c <= b * c
  {
  }

  lemma UnsignedConcat(i: string, p: string)
    requires |i| > 0
    ensures Unsigned(i + p) == Unsigned(i) + p
  {
  }

  /** The last step: parsing the integer part followed by the padded fraction. */
  lemma CombinedParse(i: string, f: string, n: nat)
    requires Parses(i) && |TrimZeros(f)| <= n
    ensures var r := ParseU64Of(i + Padded(f, n));
            if !AllDigits(f) then r.None?
            else if Scaled(Unsigned(i), f, n) > U64_MAX * Pow10(|f|) then r.None?
            else r.Some? && r.value * Pow10(|f|) == Scaled(Unsigned(i), f, n)
  {
    hide Val, Pow10, Scaled, Padded;
    var padded, u := Padded(f, n), Unsigned(i);
    UnsignedConcat(i, padded);
    if AllDigits(f) {
      PaddedValue(f, n);
      CombinedValue(u, f, padded, n);
      Order(Val(u + padded), U64_MAX, Pow10(|f|));
    } else {
      PaddedKeepsSigns(f, n);
      var k :| 0 <= k < |padded| && !IsDigit(padded[k]);
      assert (u + padded)[|u| + k] == padded[k];
    }
  }

  lemma PaddedKeepsSigns(f: string, n: nat)
    requires !AllDigits(f) && |TrimZeros(f)| <= n
    ensures !AllDigits(Padded(f, n))
  {
    hide TrimZeros;
    TrimmedTail(f);
    var k :| 0 <= k < |f| && !IsDigit(f[k]);
    assert Padded(f, n)[k] == f[k];
  }

  /** Converts a decimal number into base units. */
  method TokensToBaseUnits(s: string, n: nat) returns (r: Result<nat>)
    ensures r == Err(MaxDecimals) <==> n > MAX_DECIMALS
    ensures r == Err(MultipleDecimalPoints) <==> n <= MAX_DECIMALS && |Parts(s)| > 2
    ensures n <= MAX_DECIMALS && |Parts(s)| == 1 ==> Correct(s, "", false, n, r)
    ensures n <= MAX_DECIMALS && |Parts(s)| == 2 ==> Correct(Parts(s)[0], Parts(s)[1], true, n, r)
    ensures r.Ok? ==> r.value <= U64_MAX
  {
    hide ParseU64Of, Scaled, Val, TrimZeros;
    if n > MAX_DECIMALS { return Err(MaxDecimals); }
    var parts := Split(s);
    if |parts| > 2 { return Err(MultipleDecimalPoints); }
    OnePart(s);
    var k := 0;
    while k < |parts|
      invariant k <= |parts| && forall j :: 0 <= j < k ==> Parses(parts[j])
    {
      if ParseU64Of(parts[k]).None? { return Err(ParseU64); }
      k := k + 1;
    }
    var fraction := if |parts| > 1 then parts[1] else "";
    var fractional := TrimZeros(fraction);
    TrimLength(fraction, n);
    if |fractional| > n { return Err(TooManyDecimals); }
    ghost var trimmed := fractional;
    while |fractional| < n
      invariant |trimmed| <= |fractional| <= n && fractional == trimmed + Zeros(|fractional| - |trimmed|)
    {
      fractional := fractional + "0";
    }
    CombinedParse(parts[0], fraction, n);
    assert fractional[0..n] == fractional;
    match ParseU64Of(parts[0] + fractional[0..n])
    case None => return Err(ParseU64);
    case Some(v) =>
      FitsU64(parts[0] + fractional[0..n]);
      return Ok(v);
  }

  lemma FitsU64(s: string)
    ensures ParseU64Of(s).Some? ==> ParseU64Of(s).value <= U64_MAX
  {
  }

  lemma {:induction false} OnePart(s: string)
    ensures |Parts(s)| == 1 ==> Parts(s) == [s]
  {
    if |s| > 0 { OnePart(s[..|s| - 1]); assert s == s[..|s| - 1] + [s[|s| - 1]]; }
  }

  // Printing

  function BaseUnitsToTokens(units: nat, decimals: nat): string {
    var str := Decimal(units);
    var len := |str|;
    if decimals == 0 then str
    else if decimals >= len then "0." + Zeros(decimals - len) + str
    else str[..len - decimals] + "." + str[len - decimals..]
  }

  /** The printed amount is an integer part and exactly `decimals` digits that together make the units. */
  lemma PrintedParts(units: nat, decimals: nat) returns (i: string, f: string)
    requires decimals > 0
    ensures BaseUnitsToTokens(units, decimals) == i + "." + f
    ensures |i| > 0 && |f| == decimals && AllDigits(i) && AllDigits(f)
    ensures Val(i) * Pow10(decimals) + Val(f) == units
  {
    hide Val, Pow10, Decimal;
    var str := Decimal(units);
    var len := |str|;
    if decimals >= len {
      i, f := "0", Zeros(decimals - len) + str;
      ValConcat(Zeros(decimals - len), str);
      ValZeros(decimals - len);
      ValZeros(1);
      assert i == Zeros(1) && "0." + Zeros(decimals - len) + str == i + "." + f;
    } else {
      i, f := str[..len - decimals], str[len - decimals..];
      assert str == i + f;
      ValConcat(i, f);
    }
  }

  lemma DigitsHaveNoPoint(s: string)
    requires AllDigits(s)
    ensures NoPoint(s) && Unsigned(s) == s
  {
    if |s| > 0 { assert IsDigit(s[0]); }
  }

  /** Reading back a printed amount gives the amount, for every u64 and every number of decimals within the limit. */
  method PrintThenParse(units: nat, decimals: nat) returns (r: Result<nat>)
    requires units <= U64_MAX && decimals <= MAX_DECIMALS
    ensures r == Ok(units)
  {
    hide Val, Pow10, Decimal;
    var s := BaseUnitsToTokens(units, decimals);
    r := TokensToBaseUnits(s, decimals);
    PrintedSplit(units, decimals);
    PrintedIsCorrect(units, decimals, r);
  }

  lemma PrintedSplit(units: nat, decimals: nat)
    ensures |Parts(BaseUnitsToTokens(units, decimals))| == if decimals == 0 then 1 else 2
  {
    if decimals == 0 {
      DigitsHaveNoPoint(Decimal(units));
      PartsWhole(Decimal(units));
    } else {
      var i, f := PrintedParts(units, decimals);
      DigitsHaveNoPoint(i);
      DigitsHaveNoPoint(f);
      PartsPair(i, f);
    }
  }

  lemma PrintedIsCorrect(units: nat, decimals: nat, r: Result<nat>)
    requires units <= U64_MAX
    requires var s := BaseUnitsToTokens(units, decimals);
             && |Parts(s)| <= 2
             && if |Parts(s)| == 1 then Correct(s, "", false, decimals, r) else Correct(Parts(s)[0], Parts(s)[1], true, decimals, r)
    ensures r == Ok(units)
  {
    if decimals == 0 {
      var s := Decimal(units);
      DigitsHaveNoPoint(s);
      PartsWhole(s);
      assert Val("") == 0 && Pow10(0) == 1;
    } else {
      var i, f := PrintedParts(units, decimals);
      PairIsCorrect(units, decimals, i, f, r);
    }
  }

  lemma PairIsCorrect(units: nat, decimals: nat, i: string, f: string, r: Result<nat>)
    requires units <= U64_MAX && |i| > 0 && |f| == decimals > 0 && AllDigits(i) && AllDigits(f)
    requires Val(i) * Pow10(decimals) + Val(f) == units
    requires |Parts(i + "." + f)| == 2 ==> Correct(Parts(i + "." + f)[0], Parts(i + "." + f)[1], true, decimals, r)
    ensures r == Ok(units)
  {
    DigitsHaveNoPoint(i);
    DigitsHaveNoPoint(f);
    PartsPair(i, f);
    ValConcat(i, f);
    ValPart(i, f);
    var p := Pow10(decimals);
    Order(units, U64_MAX, p);
    assert Scaled(i, f, decimals) == units * p;
    assert !SignificantBeyond(f, decimals);
    if r.Ok? { Order(r.value, units, p); Order(units, r.value, p); }
  }

  /** An amount is a 64-bit number of units, so with the most decimals allowed it is below 18,446,745 whole tokens. */
  lemma LargestAmount(units: nat)
    ensures units <= U64_MAX <==> units < 0x1_0000_0000 * 0x1_0000_0000
    ensures units <= U64_MAX ==> units / Pow10(MAX_DECIMALS) <= 18_446_744
    ensures exists u: nat {:trigger u / Pow10(MAX_DECIMALS)} :: u <= U64_MAX && u / Pow10(MAX_DECIMALS) == 18_446_744
  {
    assert Pow10(2) == 100;
    assert Pow10(4) == 10_000;
    assert Pow10(6) == 1_000_000;
    assert Pow10(8) == 100_000_000;
    assert Pow10(10) == 10_000_000_000;
    assert U64_MAX / Pow10(MAX_DECIMALS) == 18_446_744;
  }
}
