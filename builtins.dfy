/** Models of the JavaScript built-ins the handlers rely on:
    `undefined` as `Option`, `Array.prototype.find` and `parseInt`. */
module Builtins {

  /** A value that may be absent (`undefined` in the source). */
  datatype Option<+T> = None | Some(value: T)

  /** `Array.prototype.find`, returning the position of the first element
      that satisfies `p` instead of the element itself. */
  function FindFirst<T>(s: seq<T>, p: T -> bool): (r: Option<nat>)
    ensures r.Some? ==> r.value < |s| && p(s[r.value])
    ensures r.Some? ==> forall j :: 0 <= j < r.value ==> !p(s[j])
    ensures r.None? <==> forall j :: 0 <= j < |s| ==> !p(s[j])
  {
    if |s| == 0 then None
    else if p(s[0]) then Some(0)
    else
      match FindFirst(s[1..], p)
      case None => None
      case Some(k) => Some(k + 1)
  }

  predicate IsDigit(ch: char) {
    '0' <= ch <= '9'
  }

  predicate AllDigits(s: string) {
    forall i :: 0 <= i < |s| ==> IsDigit(s[i])
  }

  /** The longest prefix of `s` made of decimal digits. */
  function DigitPrefix(s: string): (r: string)
    ensures r <= s && AllDigits(r)
    ensures |r| < |s| ==> !IsDigit(s[|r|])
  {
    if |s| == 0 || !IsDigit(s[0]) then [] else [s[0]] + DigitPrefix(s[1..])
  }

  /** The number a string of decimal digits denotes (0 for the empty string). */
  function DigitsValue(ds: string): nat
    requires AllDigits(ds)
  {
    if |ds| == 0 then 0
    else DigitsValue(ds[..|ds| - 1]) * 10 + (ds[|ds| - 1] as int - '0' as int)
  }

  /** `s` without one leading sign character. */
  function Unsigned(s: string): string {
    if |s| > 0 && (s[0] == '-' || s[0] == '+') then s[1..] else s
  }

  /** `parseInt(s)` with no radix, restricted to an optional sign followed by
      a decimal digit prefix; `None` stands for `NaN`. */
  function ParseInt(s: string): (r: Option<int>)
    ensures r.None? <==> |Unsigned(s)| == 0 || !IsDigit(Unsigned(s)[0])
    ensures r.Some? && r.value < 0 ==> s[0] == '-'
    ensures r.Some? && s[0] == '-' ==> r.value <= 0
    ensures |Unsigned(s)| > 0 && AllDigits(Unsigned(s)) ==>
      r == Some((if s[0] == '-' then -1 else 1) * DigitsValue(Unsigned(s)))
  {
    var negative := |s| > 0 && s[0] == '-';
    var ds := DigitPrefix(Unsigned(s));
    assert AllDigits(Unsigned(s)) ==> |ds| == |Unsigned(s)| && ds == Unsigned(s);
    var magnitude: int := if ds == [] then 0 else DigitsValue(ds);
    if ds == [] then None
    else if negative then Some(-magnitude)
    else Some(magnitude)
  }

  /** The decimal rendering of `n`, as the path segment `/users/<n>` carries it. */
  function Decimal(n: nat): (s: string)
    ensures |s| > 0 && AllDigits(s)
    ensures DigitsValue(s) == n
  {
    if n < 10 then [('0' as int + n) as char]
    else
      var s := Decimal(n / 10) + [('0' as int + n % 10) as char];
      assert s[..|s| - 1] == Decimal(n / 10);
      s
  }

  /** The digit prefix of a run of digits followed by a non-digit is that run. */
  lemma {:induction false} DigitPrefixStops(ds: string, tail: string)
    requires AllDigits(ds)
    requires tail == [] || !IsDigit(tail[0])
    ensures DigitPrefix(ds + tail) == ds
  {
    if |ds| > 0 {
      assert (ds + tail)[0] == ds[0];
      assert (ds + tail)[1..] == ds[1..] + tail;
      DigitPrefixStops(ds[1..], tail);
    }
  }

  /** `parseInt` stops at the first character that is not a digit: what
      follows a signed run of digits does not change the result. */
  lemma ParseIgnoresTail(s: string, tail: string)
    requires |Unsigned(s)| > 0 && AllDigits(Unsigned(s))
    requires tail == [] || !IsDigit(tail[0])
    ensures ParseInt(s + tail) == ParseInt(s)
  {
    assert (s + tail)[0] == s[0];
    if s[0] == '-' || s[0] == '+' {
      assert (s + tail)[1..] == s[1..] + tail;
    }
    assert Unsigned(s + tail) == Unsigned(s) + tail;
    DigitPrefixStops(Unsigned(s), tail);
  }

  lemma ParseTrailingJunk()
    ensures ParseInt("12abc") == Some(12)
  {
    assert Unsigned("12") == "12" && AllDigits("12");
    assert DigitsValue("12") == 12 by {
      assert "12"[..1] == "1";
    }
    ParseIgnoresTail("12", "abc");
    assert "12" + "abc" == "12abc";
  }

  /** Parsing the decimal rendering of a natural number gives that number back. */
  lemma ParseDecimal(n: nat)
    ensures ParseInt(Decimal(n)) == Some(n)
  {
  }
}
