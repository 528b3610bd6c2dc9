/**
 * The JavaScript string operations the date codec relies on: `indexOf`, `substr`,
 * `replace` with a string pattern, number-to-string conversion and the unary `+`
 * applied to a string (ECMA-262 5.1, sections 15.5.4.7, B.2.3, 15.5.4.11, 9.8.1 and 9.3.1).
 */
module JsText {
  import opened Wrappers

  /** `p` occurs in `s` starting at index `i`. */
  predicate OccursAt(s: string, p: string, i: int)
  {
    0 <= i && i + |p| <= |s| && s[i..i + |p|] == p
  }

  /** `s.indexOf(p)`: the first index where `p` occurs, or -1 when it does not occur. */
  function IndexOf(s: string, p: string): (r: int)
    ensures r == -1 || OccursAt(s, p, r)
    ensures r == -1 <==> forall j :: 0 <= j <= |s| ==> !OccursAt(s, p, j)
    ensures forall j :: 0 <= j < r ==> !OccursAt(s, p, j)
  {
    IndexFrom(s, p, 0)
  }

  function IndexFrom(s: string, p: string, i: nat): (r: int)
    requires forall j :: 0 <= j < i ==> !OccursAt(s, p, j)
    ensures r == -1 || (i <= r && OccursAt(s, p, r))
    ensures r == -1 <==> forall j :: 0 <= j <= |s| ==> !OccursAt(s, p, j)
    ensures forall j :: 0 <= j < r ==> !OccursAt(s, p, j)
    decreases |s| - i
  {
    if i + |p| > |s| then
      assert forall j :: i <= j ==> !OccursAt(s, p, j);
      -1
    else if s[i..i + |p|] == p then i
    else IndexFrom(s, p, i + 1)
  }

  /** The first occurrence of `p` in `s` is at `i`. */
  lemma IndexOfIs(s: string, p: string, i: int)
    requires OccursAt(s, p, i)
    requires forall j :: 0 <= j < i ==> !OccursAt(s, p, j)
    ensures IndexOf(s, p) == i
  {
  }

  /** A string whose characters all differ from the first character of `p` does not hold `p`. */
  lemma IndexOfAbsent(s: string, p: string)
    requires |p| > 0 && forall i :: 0 <= i < |s| ==> s[i] != p[0]
    ensures IndexOf(s, p) == -1
  {
    forall j | 0 <= j <= |s| ensures !OccursAt(s, p, j) {
      if j + |p| <= |s| {
        assert s[j..j + |p|][0] == s[j];
      }
    }
  }

  /** Searching `a + b` where no character of `a` starts `p` finds the first occurrence in `b`. */
  lemma IndexOfAfterPrefix(a: string, b: string, p: string)
    requires |p| > 0 && forall i :: 0 <= i < |a| ==> a[i] != p[0]
    ensures IndexOf(a + b, p) == if IndexOf(b, p) == -1 then -1 else |a| + IndexOf(b, p)
  {
    var s := a + b;
    forall j | 0 <= j < |a| ensures !OccursAt(s, p, j) {
      assert s[j] == a[j];
    }
    forall j | |a| <= j <= |s| ensures OccursAt(s, p, j) <==> OccursAt(b, p, j - |a|) {
      if j + |p| <= |s| {
        assert s[j..j + |p|] == b[j - |a|..j - |a| + |p|];
      }
    }
    var k := IndexOf(b, p);
    if k == -1 {
      forall j | 0 <= j <= |s| ensures !OccursAt(s, p, j) {
        if |a| <= j {
          assert !OccursAt(b, p, j - |a|);
        }
      }
    } else {
      IndexOfIs(s, p, |a| + k);
    }
  }

  /** Replacing in `a + b`, where no character of `a` starts `p`, replaces in `b`. */
  lemma ReplaceAfterPrefix(a: string, b: string, p: string, rep: string)
    requires |p| > 0 && forall i :: 0 <= i < |a| ==> a[i] != p[0]
    ensures ReplaceFirst(a + b, p, rep) == a + ReplaceFirst(b, p, rep)
  {
    IndexOfAfterPrefix(a, b, p);
    var k := IndexOf(b, p);
    if k != -1 {
      ReplaceSplice(a, b, p, rep, k);
    }
  }

  lemma ReplaceSplice(a: string, b: string, p: string, rep: string, k: int)
    requires 0 <= k && k + |p| <= |b|
    requires IndexOf(b, p) == k && IndexOf(a + b, p) == |a| + k
    ensures ReplaceFirst(a + b, p, rep) == a + ReplaceFirst(b, p, rep)
  {
    ReplaceFirstAt(a + b, p, rep, |a| + k);
    ReplaceFirstAt(b, p, rep, k);
    SpliceConcat(a, b, k, |p|, rep);
  }

  /** `s` with the `n` characters at `i` replaced by `rep`. */
  function Splice(s: string, i: nat, n: nat, rep: string): (r: string)
    requires i + n <= |s|
    ensures |r| == |s| - n + |rep|
  {
    s[..i] + rep + s[i + n..]
  }

  lemma ReplaceFirstAt(s: string, p: string, rep: string, i: nat)
    requires IndexOf(s, p) == i
    ensures i + |p| <= |s| && ReplaceFirst(s, p, rep) == Splice(s, i, |p|, rep)
  {
  }

  lemma SpliceConcat(a: string, b: string, k: nat, n: nat, rep: string)
    requires k + n <= |b|
    ensures Splice(a + b, |a| + k, n, rep) == a + Splice(b, k, n, rep)
  {
    var s := a + b;
    assert s[..|a| + k] == a + b[..k];
    assert s[|a| + k + n..] == b[k + n..];
  }

  /** Replacing a pattern that starts the string. */
  lemma ReplaceAtStart(p: string, b: string, rep: string)
    ensures ReplaceFirst(p + b, p, rep) == rep + b
  {
    IndexOfIs(p + b, p, 0);
    assert (p + b)[|p|..] == b;
  }

  /** `s.substr(start, length)`: a negative start counts from the end of `s`. */
  function Substr(s: string, start: int, length: int): (r: string)
    ensures |r| <= |s|
    ensures 0 <= start && 0 <= length && start + length <= |s| ==> r == s[start..start + length]
    ensures start < 0 && 0 <= |s| + start && 0 <= length && |s| + start + length <= |s| ==>
              r == s[|s| + start..|s| + start + length]
    ensures 0 <= start <= |s| <= start + length ==> r == s[start..]
  {
    var st := if start < 0 then (if |s| + start > 0 then |s| + start else 0) else start;
    var len := if length < 0 then 0 else if length < |s| - st then length else |s| - st;
    if len <= 0 then "" else s[st..st + len]
  }

  /** `s.replace(p, rep)` with a string pattern: only the first occurrence is replaced. */
  function ReplaceFirst(s: string, p: string, rep: string): (r: string)
    ensures IndexOf(s, p) == -1 ==> r == s
  {
    var i := IndexOf(s, p);
    if i < 0 then s else Splice(s, i, |p|, rep)
  }

  predicate IsDigit(c: char)
  {
    '0' <= c <= '9'
  }

  predicate AllDigits(s: string)
  {
    forall i :: 0 <= i < |s| ==> IsDigit(s[i])
  }

  function DigitChar(d: int): (c: char)
    requires 0 <= d < 10
    ensures IsDigit(c)
  {
    ('0' as int + d) as char
  }

  /** `'' + n` for a natural number `n`: its decimal digits, most significant first. */
  function NatToString(n: nat): (s: string)
    ensures 1 <= |s| && AllDigits(s)
    ensures n < 10 <==> |s| == 1
    decreases n
  {
    if n < 10 then [DigitChar(n)] else NatToString(n / 10) + [DigitChar(n % 10)]
  }

  /** `'' + n` for an integer `n`: a minus sign before the digits of a negative number. */
  function IntToString(n: int): (s: string)
    ensures n >= 0 ==> s == NatToString(n)
    ensures n < 0 ==> s == "-" + NatToString(-n)
  {
    if n < 0 then "-" + NatToString(-n) else NatToString(n)
  }

  /** The value of a string of decimal digits; the empty string has value 0. */
  function DigitsValue(s: string): (v: nat)
    requires AllDigits(s)
  {
    if s == [] then 0 else DigitsValue(s[..|s| - 1]) * 10 + (s[|s| - 1] as int - '0' as int)
  }

  /**
   * The unary `+` on a string, for the strings this model admits: a string of decimal
   * digits (the empty string included) gives its value; any other string gives NaN (`None`).
   */
  function ToNumber(s: string): (r: Option<int>)
    ensures r.Some? <==> AllDigits(s)
    ensures s == "" ==> r == Some(0)
  {
    if AllDigits(s) then Some(DigitsValue(s)) else None
  }

  /** `'0'` in front of a single digit does not change its value. */
  lemma LeadingZero(c: char)
    requires IsDigit(c)
    ensures AllDigits("0" + [c]) && ToNumber("0" + [c]) == Some(c as int - '0' as int)
  {
    var s := "0" + [c];
    assert s[..1] == "0" && s[..1][..0] == [];
    assert DigitsValue("0") == 0;
    assert DigitsValue(s) == DigitsValue(s[..1]) * 10 + (c as int - '0' as int);
  }

  /** A number below 100 has at most two digits. */
  lemma NatToStringTwoDigits(n: nat)
    requires 10 <= n <= 99
    ensures |NatToString(n)| == 2
  {
    assert NatToString(n) == NatToString(n / 10) + [DigitChar(n % 10)];
  }

  /** Reading back the digits of `n` gives `n`. */
  lemma {:induction false} NatToStringRoundTrip(n: nat)
    ensures ToNumber(NatToString(n)) == Some(n)
    decreases n
  {
    var s := NatToString(n);
    if n >= 10 {
      NatToStringRoundTrip(n / 10);
      assert s[..|s| - 1] == NatToString(n / 10);
      assert DigitsValue(s) == DigitsValue(NatToString(n / 10)) * 10 + n % 10;
    }
  }

  /** A four-digit year is written with four characters. */
  lemma NatToStringFourDigits(n: nat)
    requires 1000 <= n <= 9999
    ensures |NatToString(n)| == 4
  {
    assert NatToString(n) == NatToString(n / 10) + [DigitChar(n % 10)];
    assert NatToString(n / 10) == NatToString(n / 100) + [DigitChar(n / 10 % 10)];
    assert NatToString(n / 100) == NatToString(n / 1000) + [DigitChar(n / 100 % 10)];
  }

  /** Numbers up to 9999 have at most four digits. */
  lemma NatToStringAtMostFourDigits(n: nat)
    requires n <= 9999
    ensures |NatToString(n)| <= 4
  {
    if n >= 10 {
      assert NatToString(n) == NatToString(n / 10) + [DigitChar(n % 10)];
      if n / 10 >= 10 {
        assert NatToString(n / 10) == NatToString(n / 100) + [DigitChar(n / 10 % 10)];
        if n / 100 >= 10 {
          assert NatToString(n / 100) == NatToString(n / 1000) + [DigitChar(n / 100 % 10)];
        }
      }
    }
  }

  /**
   * `a % 7` with JavaScript's `%` operator (ECMA-262 5.1, section 11.5.3): the remainder takes
   * the sign of the dividend, so for a negative dividend it is the floored remainder less 7, or 0.
   */
  function Rem7(a: int): (r: int)
    ensures a >= 0 ==> r == a % 7
    ensures a < 0 ==> r == if a % 7 == 0 then 0 else a % 7 - 7
  {
    if a >= 0 then a % 7 else -((-a) % 7)
  }
}
