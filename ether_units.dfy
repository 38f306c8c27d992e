/**
 * The ether fixed-point conversions of ethers v5 (`ethers.utils.formatEther` and
 * `ethers.utils.parseEther`): a wei amount is an integer, and its ether text is a
 * decimal number with at most 18 fractional digits.
 */
module EtherUnits {
  import opened Wrappers

  /** The number of fractional digits of one ether. */
  const Decimals: nat := 18

  function Pow10(k: nat): (p: nat)
    ensures 1 <= p
  {
    if k == 0 then 1 else 10 * Pow10(k - 1)
  }

  /** The number of wei in one ether, 10^18. */
  const WeiPerEther: nat := 1_000_000_000_000_000_000

  lemma WeiPerEtherIsPow10()
    ensures WeiPerEther == Pow10(Decimals)
  {
    assert Pow10(6) == 1_000_000;
    assert Pow10(12) == 1_000_000_000_000;
  }

  // ---------------------------------------------------------------------------
  // Digits

  predicate IsDigit(c: char) {
    '0' <= c <= '9'
  }

  predicate AllDigits(s: string) {
    forall c | c in s :: IsDigit(c)
  }

  function DigitChar(d: nat): (c: char)
    requires d < 10
    ensures IsDigit(c)
  {
    ('0' as int + d) as char
  }

  function DigitValue(c: char): (d: nat)
    requires IsDigit(c)
    ensures d < 10
  {
    c as int - '0' as int
  }

  /** The canonical decimal text of n: no leading zero, "0" for zero (BigNumber's `toString`). */
  function Decimal(n: nat): (s: string)
    ensures AllDigits(s) && |s| >= 1
    ensures s[0] != '0' || n == 0
    decreases n
  {
    if n < 10 then [DigitChar(n)] else Decimal(n / 10) + [DigitChar(n % 10)]
  }

  /** The value of a string of decimal digits, leading zeros allowed (`BigNumber.from`). */
  function DigitsValue(s: string): (v: nat)
    requires AllDigits(s)
    decreases |s|
  {
    if s == [] then 0
    else
      assert forall c | c in s[..|s| - 1] :: c in s;
      10 * DigitsValue(s[..|s| - 1]) + DigitValue(s[|s| - 1])
  }

  function Zeros(k: nat): (z: string)
    ensures |z| == k && AllDigits(z)
    ensures forall i | 0 <= i < k :: z[i] == '0'
  {
    seq(k, _ => '0')
  }

  /** Prepends zeros up to the given width. */
  function PadLeft(s: string, width: nat): (r: string)
  {
    if |s| < width then Zeros(width - |s|) + s else s
  }

  /** Appends zeros up to the given width. */
  function PadRight(s: string, width: nat): (r: string)
  {
    if |s| < width then s + Zeros(width - |s|) else s
  }

  /** Drops every trailing '0'. */
  function TrimTrailingZeros(s: string): (r: string)
    ensures |r| <= |s| && r == s[..|r|]
    ensures r == [] || r[|r| - 1] != '0'
    decreases |s|
  {
    if s != [] && s[|s| - 1] == '0' then TrimTrailingZeros(s[..|s| - 1]) else s
  }

  /**
   * Splits s at every occurrence of sep, as JavaScript's `String.prototype.split`
   * with a one-character separator does.
   */
  function Split(s: string, sep: char): (parts: seq<string>)
    ensures |parts| >= 1
    ensures forall i | 0 <= i < |parts| :: sep !in parts[i]
    ensures forall i, c | 0 <= i < |parts| && c in parts[i] :: c in s
    decreases |s|
  {
    if s == [] then [[]]
    else
      var rest := Split(s[1..], sep);
      assert forall c | c in s[1..] :: c in s;
      if s[0] == sep then [[]] + rest
      else [[s[0]] + rest[0]] + rest[1..]
  }

  // ---------------------------------------------------------------------------
  // formatEther

  /** The ether text of a non-negative wei amount. */
  function FormatUnsigned(wei: nat): (s: string)
  {
    var fraction := PadLeft(Decimal(wei % WeiPerEther), Decimals);
    // keep everything up to the last non-zero digit, or a single "0"
    var trimmed := TrimTrailingZeros(fraction);
    Decimal(wei / WeiPerEther) + "." + (if trimmed == "" then "0" else trimmed)
  }

  /**
   * `formatEther`: the whole ether, a dot, and the fractional digits without trailing
   * zeros (at least one digit); a negative amount gets a leading '-'.
   */
  function FormatEther(wei: int): (s: string)
  {
    if wei < 0 then "-" + FormatUnsigned(-wei) else FormatUnsigned(wei)
  }

  // ---------------------------------------------------------------------------
  // parseEther

  predicate DigitOrDot(c: char) {
    IsDigit(c) || c == '.'
  }

  /** The text matches `^-?[0-9.]+$`. */
  predicate WellFormed(s: string) {
    var body := if |s| > 0 && s[0] == '-' then s[1..] else s;
    |body| > 0 && forall c | c in body :: DigitOrDot(c)
  }

  /** The unsigned part of `parseEther`, once the sign has been removed. */
  function ParseUnsigned(body: string): (r: Option<nat>)
    requires forall c | c in body :: DigitOrDot(c)
  {
    if body == "." then None   // "missing value"
    else
      var comps := Split(body, '.');
      if |comps| > 2 then None   // "too many decimal points"
      else
        var whole := if comps[0] == "" then "0" else comps[0];
        var fraction := if |comps| < 2 || comps[1] == "" then "0" else comps[1];
        assert forall i | 0 <= i < |comps| :: AllDigits(comps[i]) by {
          forall i, c | 0 <= i < |comps| && c in comps[i] ensures IsDigit(c) {
            assert c in body && c != '.';
            assert DigitOrDot(c);
          }
        }
        assert AllDigits("0");
        assert AllDigits(whole) && AllDigits(fraction);
        var significant := TrimTrailingZeros(fraction);
        if |significant| > Decimals then None   // "fractional component exceeds decimals"
        else
          var padded := PadRight(if significant == "" then "0" else significant, Decimals);
          assert AllDigits(padded);
          Some(DigitsValue(whole) * WeiPerEther + DigitsValue(padded))
  }

  /**
   * `parseEther`: the wei amount that an ether text denotes, or None where ethers
   * throws (an invalid character, a lone dot, two dots, more than 18 significant
   * fractional digits).
   */
  function ParseEther(s: string): (r: Option<int>)
  {
    if !WellFormed(s) then None
    else if s[0] == '-' then
      match ParseUnsigned(s[1..])
      case None => None
      case Some(wei) => Some(-(wei as int))
    else
      match ParseUnsigned(s)
      case None => None
      case Some(wei) => Some(wei)
  }

  // ---------------------------------------------------------------------------
  // The round trip

  lemma {:induction false} DecimalValue(n: nat)
    ensures DigitsValue(Decimal(n)) == n
    decreases n
  {
    if n >= 10 {
      var s := Decimal(n);
      assert s[..|s| - 1] == Decimal(n / 10);
      DecimalValue(n / 10);
    }
  }

  lemma {:induction false} DecimalLength(n: nat, k: nat)
    requires 1 <= k && n < Pow10(k)
    ensures |Decimal(n)| <= k
    decreases k
  {
    if n >= 10 {
      DecimalLength(n / 10, k - 1);
    }
  }

  lemma {:induction false} LeadingZerosValue(k: nat, s: string)
    requires AllDigits(s)
    ensures AllDigits(Zeros(k) + s) && DigitsValue(Zeros(k) + s) == DigitsValue(s)
    decreases |s|
  {
    var z := Zeros(k) + s;
    if s == [] {
      assert z == Zeros(k);
      ZerosValue(k);
    } else {
      assert z[..|z| - 1] == Zeros(k) + s[..|s| - 1];
      LeadingZerosValue(k, s[..|s| - 1]);
    }
  }

  lemma {:induction false} ZerosValue(k: nat)
    ensures DigitsValue(Zeros(k)) == 0
  {
    if k > 0 {
      assert Zeros(k)[..k - 1] == Zeros(k - 1);
      ZerosValue(k - 1);
    }
  }

  /** Trimming drops only zeros: what was cut off is a run of zeros. */
  lemma {:induction false} TrimmedZeros(s: string)
    ensures s == TrimTrailingZeros(s) + Zeros(|s| - |TrimTrailingZeros(s)|)
    decreases |s|
  {
    if s != [] && s[|s| - 1] == '0' {
      var p := s[..|s| - 1];
      TrimmedZeros(p);
      var t := TrimTrailingZeros(p);
      assert Zeros(|s| - |t|) == Zeros(|p| - |t|) + ['0'];
      assert s == p + ['0'];
    }
  }

  /** Two parts without the separator are split apart again. */
  lemma {:induction false} SplitAtSeparator(a: string, b: string, sep: char)
    requires sep !in a && sep !in b
    ensures Split(a + [sep] + b, sep) == [a, b]
    decreases |a|
  {
    if a == [] {
      assert a + [sep] + b == [sep] + b;
      assert ([sep] + b)[1..] == b;
      SplitWithout(b, sep);
    } else {
      var s := a + [sep] + b;
      assert s[1..] == a[1..] + [sep] + b;
      SplitAtSeparator(a[1..], b, sep);
      assert [a[0]] + a[1..] == a;
    }
  }

  lemma {:induction false} SplitWithout(s: string, sep: char)
    requires sep !in s
    ensures Split(s, sep) == [s]
    decreases |s|
  {
    if s != [] {
      SplitWithout(s[1..], sep);
      assert [s[0]] + s[1..] == s;
    }
  }

  /** The parts glued back together with the separator between them. */
  function Join(parts: seq<string>, sep: char): (s: string)
    requires |parts| >= 1
    decreases |parts|
  {
    if |parts| == 1 then parts[0] else parts[0] + [sep] + Join(parts[1..], sep)
  }

  /** Joining the parts of a split with its separator gives back the text. */
  lemma {:induction false} JoinSplit(s: string, sep: char)
    ensures Join(Split(s, sep), sep) == s
    decreases |s|
  {
    if s != [] {
      var rest := Split(s[1..], sep);
      JoinSplit(s[1..], sep);
      if s[0] != sep {
        var parts := Split(s, sep);
        assert parts[1..] == rest[1..];
        if |rest| > 1 {
          assert Join(rest, sep) == rest[0] + [sep] + Join(rest[1..], sep);
        }
      }
      assert [s[0]] + s[1..] == s;
    }
  }

  /** A split has one part more than the text has separators. */
  lemma {:induction false} SplitCount(s: string, sep: char)
    ensures |Split(s, sep)| == multiset(s)[sep] + 1
    decreases |s|
  {
    if s != [] {
      SplitCount(s[1..], sep);
      assert s == [s[0]] + s[1..];
      assert multiset(s) == multiset([s[0]]) + multiset(s[1..]);
    }
  }

  /** The fractional digits that formatEther prints denote the remainder exactly. */
  lemma FractionRoundTrip(r: nat)
    requires r < WeiPerEther
    ensures var p := PadLeft(Decimal(r), Decimals);
            var t := TrimTrailingZeros(p);
            var printed := if t == "" then "0" else t;
            var significant := TrimTrailingZeros(printed);
            && AllDigits(printed)
            && 0 < |printed| <= Decimals
            && |significant| <= Decimals
            && PadRight(if significant == "" then "0" else significant, Decimals) == p
            && AllDigits(p) && DigitsValue(p) == r
  {
    PaddedFraction(r);
    TrimPadRoundTrip(PadLeft(Decimal(r), Decimals));
  }

  /** The remainder padded to 18 digits still denotes the remainder. */
  lemma PaddedFraction(r: nat)
    requires r < WeiPerEther
    ensures var p := PadLeft(Decimal(r), Decimals);
            |p| == Decimals && AllDigits(p) && DigitsValue(p) == r
  {
    var d := Decimal(r);
    RemainderDigits(r);
    var p := PadLeft(d, Decimals);
    assert p == Zeros(Decimals - |d|) + d;
    LeadingZerosValue(Decimals - |d|, d);
    DecimalValue(r);
  }

  /** A remainder modulo one ether has at most 18 digits. */
  lemma RemainderDigits(r: nat)
    requires r < WeiPerEther
    ensures |Decimal(r)| <= Decimals
  {
    WeiPerEtherIsPow10();
    DecimalLength(r, Decimals);
  }

  /**
   * Printing an 18-digit fraction without its trailing zeros (at least "0") and
   * padding the parsed digits back to 18 places gives the same 18 digits.
   */
  lemma TrimPadRoundTrip(p: string)
    requires |p| == Decimals && AllDigits(p)
    ensures var t := TrimTrailingZeros(p);
            var printed := if t == "" then "0" else t;
            var significant := TrimTrailingZeros(printed);
            && AllDigits(printed)
            && 0 < |printed| <= Decimals
            && |significant| <= Decimals
            && PadRight(if significant == "" then "0" else significant, Decimals) == p
  {
    var t := TrimTrailingZeros(p);
    TrimmedZeros(p);
    assert forall c | c in t :: c in p;
    if t == "" {
      assert p == Zeros(Decimals);
      assert TrimTrailingZeros("0") == "";
      assert PadRight("0", Decimals) == Zeros(Decimals);
    } else {
      assert TrimTrailingZeros(t) == t;
      assert PadRight(t, Decimals) == p;
    }
  }

  /** A text made of whole digits, a dot and fractional digits parses to their fixed-point value. */
  lemma ParseParts(whole: string, fraction: string)
    requires AllDigits(whole) && AllDigits(fraction) && whole != [] && fraction != []
    requires |TrimTrailingZeros(fraction)| <= Decimals
    ensures var s := whole + "." + fraction;
            var t := TrimTrailingZeros(fraction);
            var padded := PadRight(if t == "" then "0" else t, Decimals);
            && (forall c | c in s :: DigitOrDot(c))
            && AllDigits(padded)
            && ParseUnsigned(s) == Some(DigitsValue(whole) * WeiPerEther + DigitsValue(padded))
  {
    var s := whole + "." + fraction;
    assert forall c | c in s :: c in whole || c == '.' || c in fraction;
    SplitAtSeparator(whole, fraction, '.');
    assert s != ".";
    var t := TrimTrailingZeros(fraction);
    assert forall c | c in t :: c in fraction;
  }

  /** parseEther recovers every amount that formatEther prints, for non-negative amounts. */
  lemma UnsignedRoundTrip(wei: nat)
    ensures forall c | c in FormatUnsigned(wei) :: DigitOrDot(c)
    ensures FormatUnsigned(wei)[0] != '-'
    ensures ParseUnsigned(FormatUnsigned(wei)) == Some(wei)
  {
    var q, r := wei / WeiPerEther, wei % WeiPerEther;
    var p := PadLeft(Decimal(r), Decimals);
    var t := TrimTrailingZeros(p);
    var printed := if t == "" then "0" else t;
    FractionRoundTrip(r);
    var whole := Decimal(q);
    assert FormatUnsigned(wei) == whole + "." + printed;
    ParseParts(whole, printed);
    assert whole[0] in whole;
    DecimalValue(q);
    assert wei == q * WeiPerEther + r;
  }

  /** The round trip the dispersal relies on: `parseEther(formatEther(x)) == x`. */
  lemma EtherRoundTrip(wei: int)
    ensures ParseEther(FormatEther(wei)) == Some(wei)
  {
    var u := FormatUnsigned(if wei < 0 then -wei else wei);
    UnsignedRoundTrip(if wei < 0 then -wei else wei);
    var s := FormatEther(wei);
    if wei < 0 {
      assert s == "-" + u && s[1..] == u;
      assert WellFormed(s);
    } else {
      assert s == u && WellFormed(s);
    }
  }
  // ---------------------------------------------------------------------------
  // What parseEther rejects, and its sign

  /** A text with two or more dots is rejected ("too many decimal points"), as "1.2.3" is. */
  lemma ParseEtherDots(s: string)
    requires multiset(s)['.'] > 1
    ensures ParseEther(s).None?
  {
    if WellFormed(s) {
      var body := if s[0] == '-' then s[1..] else s;
      assert multiset(body)['.'] == multiset(s)['.'] by {
        if s[0] == '-' {
          assert s == [s[0]] + s[1..];
          assert multiset(s) == multiset([s[0]]) + multiset(s[1..]);
        }
      }
      SplitCount(body, '.');
      assert body != "." by {
        assert multiset(".")['.'] == 1;
      }
    }
  }

  /** More than 18 significant fractional digits are rejected ("fractional component exceeds decimals"). */
  lemma ParseEtherTooPrecise(whole: string, fraction: string)
    requires AllDigits(whole) && AllDigits(fraction)
    requires |TrimTrailingZeros(fraction)| > Decimals
    ensures ParseEther(whole + "." + fraction).None?
  {
    var s := whole + "." + fraction;
    assert forall c | c in s :: c in whole || c == '.' || c in fraction;
    assert s[0] != '-' by {
      if whole != [] { assert s[0] == whole[0] && whole[0] in whole; }
    }
    assert |s| > 1;
    SplitAtSeparator(whole, fraction, '.');
  }

  /** A leading '-' negates the amount of an unsigned text. */
  lemma ParseEtherNegated(s: string)
    requires ParseEther(s).Some? && s[0] != '-'
    ensures ParseEther("-" + s) == Some(-ParseEther(s).value)
  {
    var t := "-" + s;
    assert t[1..] == s;
  }

  /** formatEther prints text parseEther accepts, signed exactly when the amount is negative. */
  lemma FormatEtherSign(wei: int)
    ensures WellFormed(FormatEther(wei))
    ensures FormatEther(wei)[0] == '-' <==> wei < 0
  {
    var u := FormatUnsigned(if wei < 0 then -wei else wei);
    UnsignedRoundTrip(if wei < 0 then -wei else wei);
    var s := FormatEther(wei);
    if wei < 0 {
      assert s == "-" + u && s[1..] == u;
    }
  }
}
