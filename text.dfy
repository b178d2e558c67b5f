/** The string operations the pages rely on: decimal text of numbers
    (`toString`, `padStart`), `Number(...)` on digit strings, `split`,
    `startsWith` and `trim`. */
module Text {
  import opened Base

  predicate IsDigit(c: char) { '0' <= c <= '9' }

  predicate AllDigits(s: string) { forall i :: 0 <= i < |s| ==> IsDigit(s[i]) }

  function DigitChar(d: nat): (c: char)
    requires d < 10
    ensures IsDigit(c) && c as int - '0' as int == d
  {
    ('0' as int + d) as char
  }

  /** Decimal text of a natural number, as `n.toString()` writes it. */
  function NatToString(n: nat): (s: string)
    ensures 1 <= |s| && AllDigits(s)
    decreases n
  {
    if n < 10 then [DigitChar(n)] else NatToString(n / 10) + [DigitChar(n % 10)]
  }

  /** The value of a run of decimal digits (leading zeros allowed). */
  function DigitsValue(s: string): nat
    requires AllDigits(s)
  {
    if s == [] then 0 else DigitsValue(s[..|s| - 1]) * 10 + (s[|s| - 1] as int - '0' as int)
  }

  lemma {:induction false} NatToStringValue(n: nat)
    ensures DigitsValue(NatToString(n)) == n
    decreases n
  {
    if n >= 10 {
      var s := NatToString(n);
      assert s[..|s| - 1] == NatToString(n / 10);
      NatToStringValue(n / 10);
    } else {
      assert NatToString(n)[..0] == [];
    }
  }

  function Pow10(k: nat): (p: nat)
    ensures p >= 1
  {
    if k == 0 then 1 else 10 * Pow10(k - 1)
  }

  /** A number below 10^k has at most k digits. */
  lemma {:induction false} NatToStringLength(n: nat, k: nat)
    requires 1 <= k && n < Pow10(k)
    ensures |NatToString(n)| <= k
    decreases k
  {
    if n >= 10 {
      assert k >= 2;
      NatToStringLength(n / 10, k - 1);
    }
  }

  /** A number at least 10^(k-1) has at least k digits. */
  lemma {:induction false} NatToStringLengthAtLeast(n: nat, k: nat)
    requires 1 <= k && Pow10(k - 1) <= n
    ensures k <= |NatToString(n)|
    decreases k
  {
    if k >= 2 {
      assert n >= 10;
      NatToStringLengthAtLeast(n / 10, k - 1);
    }
  }

  lemma NatToStringInjective(a: nat, b: nat)
    ensures NatToString(a) == NatToString(b) <==> a == b
  {
    NatToStringValue(a);
    NatToStringValue(b);
  }

  function Repeat(c: char, k: nat): (s: string)
    ensures |s| == k && forall i :: 0 <= i < k ==> s[i] == c
  {
    seq(k, _ => c)
  }

  /** `s.padStart(width, fill)` for a one-character fill. */
  function PadStart(s: string, width: nat, fill: char): (r: string)
    ensures |r| == if |s| >= width then |s| else width
    ensures r == Repeat(fill, |r| - |s|) + s
  {
    if |s| >= width then s else Repeat(fill, width - |s|) + s
  }

  lemma {:induction false} ZerosValue(k: nat)
    ensures AllDigits(Repeat('0', k)) && DigitsValue(Repeat('0', k)) == 0
    decreases k
  {
    if k > 0 {
      assert Repeat('0', k)[..k - 1] == Repeat('0', k - 1);
      ZerosValue(k - 1);
    }
  }

  /** Leading zeros do not change the value of a digit string. */
  lemma {:induction false} LeadingZerosValue(k: nat, s: string)
    requires AllDigits(s)
    ensures AllDigits(Repeat('0', k) + s)
    ensures DigitsValue(Repeat('0', k) + s) == DigitsValue(s)
    decreases |s|
  {
    var z := Repeat('0', k);
    if s == [] {
      assert z + s == z;
      ZerosValue(k);
    } else {
      var t := z + s;
      assert t[..|t| - 1] == z + s[..|s| - 1];
      LeadingZerosValue(k, s[..|s| - 1]);
    }
  }

  /** A natural number padded with zeros reads back as itself. */
  lemma PaddedNatValue(n: nat, width: nat)
    ensures AllDigits(PadStart(NatToString(n), width, '0'))
    ensures DigitsValue(PadStart(NatToString(n), width, '0')) == n
  {
    var s := NatToString(n);
    LeadingZerosValue(|PadStart(s, width, '0')| - |s|, s);
    NatToStringValue(n);
  }

  /** `i.toString()` for an integer. */
  function IntToString(i: int): string
  {
    if i < 0 then "-" + NatToString(-i) else NatToString(i)
  }

  /** `Number(s)` on text of the form `digits` or `-digits`; every other
      text stands for `NaN` (`None`). */
  function ParseInt(s: string): Option<int>
  {
    if |s| >= 2 && s[0] == '-' && AllDigits(s[1..]) then Some(0 - DigitsValue(s[1..]))
    else if |s| >= 1 && AllDigits(s) then Some(DigitsValue(s))
    else None
  }

  /** `i.toString().padStart(width, '0')`. */
  function PadInt(i: int, width: nat): string
  {
    PadStart(IntToString(i), width, '0')
  }

  /** Zero padding reads back: `Number(String(i).padStart(w, '0')) == i`,
      except that zeros put in front of a minus sign make the text `NaN`. */
  lemma PadIntRoundTrip(i: int, width: nat)
    requires i >= 0 || width <= |IntToString(i)|
    ensures ParseInt(PadInt(i, width)) == Some(i)
  {
    if i >= 0 {
      PaddedNatRead(i, width);
    } else {
      NegativeRead(-i);
    }
  }

  lemma PaddedNatRead(n: nat, width: nat)
    ensures ParseInt(PadStart(NatToString(n), width, '0')) == Some(n)
  {
    var t := PadStart(NatToString(n), width, '0');
    PaddedNatValue(n, width);
    assert |t| >= 1 && IsDigit(t[0]);
  }

  lemma NegativeRead(n: nat)
    requires n > 0
    ensures ParseInt("-" + NatToString(n)) == Some(0 - n)
  {
    var digits := NatToString(n);
    var t := "-" + digits;
    assert t[1..] == digits;
    NatToStringValue(n);
  }

  predicate StartsWith(s: string, prefix: string)
  {
    |prefix| <= |s| && s[..|prefix|] == prefix
  }

  /** `s.indexOf(c)` when `c` occurs in `s`. */
  function IndexOf(s: string, c: char): (i: nat)
    requires c in s
    ensures i < |s| && s[i] == c && c !in s[..i]
  {
    if s[0] == c then 0
    else
      var k := IndexOf(s[1..], c);
      assert s[..k + 1] == [s[0]] + s[1..][..k];
      k + 1
  }

  /** `s.split(c)` for a one-character separator. */
  function Split(s: string, c: char): (parts: seq<string>)
    ensures 1 <= |parts|
    decreases |s|
  {
    if c in s then
      var i := IndexOf(s, c);
      [s[..i]] + Split(s[i + 1..], c)
    else [s]
  }

  /** There is more than one part exactly when the separator occurs, and no
      part holds it. */
  lemma {:induction false} SplitSpec(s: string, c: char)
    ensures |Split(s, c)| == 1 <==> c !in s
    ensures forall k :: 0 <= k < |Split(s, c)| ==> c !in Split(s, c)[k]
    decreases |s|
  {
    if c in s {
      var i := IndexOf(s, c);
      SplitSpec(s[i + 1..], c);
    }
  }

  /** Splitting text that starts with a separator-free field and a separator. */
  lemma SplitAfterField(a: string, c: char, b: string)
    requires c !in a
    ensures Split(a + [c] + b, c) == [a] + Split(b, c)
  {
    var s := a + [c] + b;
    assert s[|a|] == c;
    assert s[..|a|] == a;
    var i := IndexOf(s, c);
    assert i == |a|;
    assert s[..i] == a;
    assert s[i + 1..] == b;
  }

  /** In digits followed by a separator, the first separator is the one
      after the digits. */
  lemma FirstAfterDigits(digits: string, c: char, rest: string)
    requires AllDigits(digits) && !IsDigit(c)
    ensures c in digits + [c] + rest
    ensures IndexOf(digits + [c] + rest, c) == |digits|
  {
    var s := digits + [c] + rest;
    assert s[|digits|] == c;
    assert s[..|digits|] == digits;
  }

  /** The characters `String.prototype.trim` removes: white space and line terminators. */
  predicate IsWhitespace(c: char)
  {
    c == ' ' || c == '\t' || c == '\n' || c == '\r' || c == '\U{B}' || c == '\U{C}'
    || c == '\U{A0}' || c == '\U{1680}' || ('\U{2000}' <= c <= '\U{200A}')
    || c == '\U{2028}' || c == '\U{2029}' || c == '\U{202F}' || c == '\U{205F}'
    || c == '\U{3000}' || c == '\U{FEFF}'
  }

  function TrimStart(s: string): (r: string)
    ensures r == [] || !IsWhitespace(r[0])
    ensures r == [] <==> forall i :: 0 <= i < |s| ==> IsWhitespace(s[i])
  {
    if s != [] && IsWhitespace(s[0]) then TrimStart(s[1..]) else s
  }

  function TrimEnd(s: string): (r: string)
    ensures r == [] <==> forall i :: 0 <= i < |s| ==> IsWhitespace(s[i])
  {
    if s != [] && IsWhitespace(s[|s| - 1]) then TrimEnd(s[..|s| - 1]) else s
  }

  /** `s.trim()`. */
  function Trim(s: string): string
  {
    TrimEnd(TrimStart(s))
  }

  /** `!s.trim()`: nothing but white space is left out of the text. */
  predicate IsBlank(s: string)
  {
    Trim(s) == []
  }

  lemma BlankIffAllWhitespace(s: string)
    ensures IsBlank(s) <==> forall i :: 0 <= i < |s| ==> IsWhitespace(s[i])
  {
    var t := TrimStart(s);
    if t != [] {
      assert !IsWhitespace(t[0]);
    }
  }

  /** `Number(s)` for the texts a form field can hold: surrounding white
      space is ignored, an empty text is 0, `digits` and `-digits` are
      their value, and anything else is `NaN` (`None`). */
  function ToNumber(s: string): Option<int>
  {
    var t := Trim(s);
    if t == [] then Some(0) else ParseInt(t)
  }

  /** Text that neither starts nor ends with white space is its own trim. */
  lemma TrimKeeps(s: string)
    requires s != [] && !IsWhitespace(s[0]) && !IsWhitespace(s[|s| - 1])
    ensures Trim(s) == s
  {
  }

  /** Zero-padded numbers hold only digits and a leading minus sign. */
  lemma PadIntChars(i: int, width: nat)
    ensures var t := PadInt(i, width);
      t != [] && IsDigit(t[|t| - 1]) && (IsDigit(t[0]) || t[0] == '-')
      && forall k :: 0 <= k < |t| ==> IsDigit(t[k]) || t[k] == '-'
  {
    var t := PadInt(i, width);
    if i < 0 {
      var u := IntToString(i);
      assert u == "-" + NatToString(-i);
      assert PadStart(u, width, '0') == Repeat('0', |t| - |u|) + u;
      assert |t| == |u| || width > |u|;
    } else {
      PaddedNatValue(i, width);
    }
  }

  /** `Number` reads a two-digit field back: `Number(String(i).padStart(2, '0')) == i`. */
  lemma ToNumberPadInt(i: int)
    ensures ToNumber(PadInt(i, 2)) == Some(i)
  {
    var t := PadInt(i, 2);
    PadIntChars(i, 2);
    TrimKeeps(t);
    PadIntRoundTrip(i, 2);
  }

  /** The code-unit order of strings (`a <= b` on JavaScript strings). */
  predicate LexLessEq(a: string, b: string)
    decreases |a|
  {
    a == [] || (b != [] && (a[0] < b[0] || (a[0] == b[0] && LexLessEq(a[1..], b[1..]))))
  }

  lemma {:induction false} LexTotal(a: string, b: string)
    ensures LexLessEq(a, b) || LexLessEq(b, a)
    decreases |a|
  {
    if a != [] && b != [] && a[0] == b[0] {
      LexTotal(a[1..], b[1..]);
    }
  }

  /** Comparing texts whose first parts have the same length: the first
      parts decide unless they are equal. */
  lemma {:induction false} LexAppend(a: string, x: string, b: string, y: string)
    requires |a| == |b|
    ensures LexLessEq(a + x, b + y) <==> (a != b && LexLessEq(a, b)) || (a == b && LexLessEq(x, y))
    decreases |a|
  {
    if a != [] {
      assert (a + x)[1..] == a[1..] + x;
      assert (b + y)[1..] == b[1..] + y;
      LexAppend(a[1..], x, b[1..], y);
      assert a == [a[0]] + a[1..];
      assert b == [b[0]] + b[1..];
    } else {
      assert a + x == x && b + y == y;
    }
  }
}
