/**
  Decimal rendering and parsing of natural numbers, as used by the bot's
  f-strings (`{n}`, `{n:02d}`) and by `int()` on the clock string, and
  Python's `str.split` on a one-character separator.
*/
module Decimal {
  import opened Wrappers

  predicate IsDigit(c: char) { '0' <= c <= '9' }

  function DigitValue(c: char): (d: nat)
    requires IsDigit(c)
    ensures d < 10
  {
    (c as int) - ('0' as int)
  }

  function DigitChar(d: nat): (c: char)
    requires d < 10
    ensures IsDigit(c) && DigitValue(c) == d
  {
    ('0' as int + d) as char
  }

  /** `str(n)` for a natural number: no leading zeros, "0" for zero. */
  function Show(n: nat): (s: string)
    ensures |s| >= 1 && forall i :: 0 <= i < |s| ==> IsDigit(s[i])
    ensures |s| >= 2 <==> n >= 10
    ensures s[0] == '0' <==> n == 0
  {
    if n < 10 then [DigitChar(n)] else Show(n / 10) + [DigitChar(n % 10)]
  }

  /** `f"{n:02d}"`: zero-padded to at least two digits. */
  function Pad2(n: nat): (s: string)
    ensures |s| >= 2 && forall i :: 0 <= i < |s| ==> IsDigit(s[i])
    ensures n < 100 ==> |s| == 2
  {
    if n < 10 then "0" + Show(n) else Show(n)
  }

  /** The value of a digit string read most significant digit first. */
  function ValueOf(s: string): nat
    requires forall i :: 0 <= i < |s| ==> IsDigit(s[i])
  {
    if s == [] then 0 else ValueOf(s[..|s| - 1]) * 10 + DigitValue(s[|s| - 1])
  }

  /** `int(s)` restricted to plain non-empty digit strings; anything else is an error. */
  function ParseNat(s: string): (r: Option<nat>)
    ensures r.Some? <==> s != [] && forall i :: 0 <= i < |s| ==> IsDigit(s[i])
  {
    if s != [] && forall i :: 0 <= i < |s| ==> IsDigit(s[i]) then Some(ValueOf(s)) else None
  }

  lemma {:induction false} ValueOfShow(n: nat)
    ensures ValueOf(Show(n)) == n
  {
    if n >= 10 {
      var s := Show(n);
      assert s[..|s| - 1] == Show(n / 10);
      ValueOfShow(n / 10);
    }
  }

  /** Reading back what `str(n)` printed gives `n`. */
  lemma ParseShow(n: nat)
    ensures ParseNat(Show(n)) == Some(n)
  {
    ValueOfShow(n);
  }

  /** Leading zeros do not change the value. */
  lemma {:induction false} ValueOfLeadingZero(s: string)
    requires forall i :: 0 <= i < |s| ==> IsDigit(s[i])
    ensures ValueOf("0" + s) == ValueOf(s)
  {
    if s != [] {
      assert ("0" + s)[..|"0" + s| - 1] == "0" + s[..|s| - 1];
      ValueOfLeadingZero(s[..|s| - 1]);
    }
  }

  /** Reading back what `{n:02d}` printed gives `n`. */
  lemma ParsePad2(n: nat)
    ensures ParseNat(Pad2(n)) == Some(n)
  {
    ValueOfShow(n);
    if n < 10 {
      ValueOfLeadingZero(Show(n));
    }
  }

  /** Index of the first `sep` in `s`, or `|s|` when there is none. */
  function FirstIndex(s: string, sep: char): (i: nat)
    ensures i <= |s|
    ensures forall k :: 0 <= k < i ==> s[k] != sep
    ensures i < |s| ==> s[i] == sep
  {
    if s == [] || s[0] == sep then 0 else 1 + FirstIndex(s[1..], sep)
  }

  /** Python's `s.split(sep)` for a one-character separator. */
  function Split(s: string, sep: char): (parts: seq<string>)
    ensures |parts| >= 1
    ensures |parts| == 1 <==> sep !in s
    decreases |s|
  {
    var i := FirstIndex(s, sep);
    if i == |s| then [s] else [s[..i]] + Split(s[i + 1..], sep)
  }

  lemma SplitNoSeparator(s: string, sep: char)
    requires forall k :: 0 <= k < |s| ==> s[k] != sep
    ensures Split(s, sep) == [s]
  {
  }

  /** Splitting at the first separator. */
  lemma {:induction false} SplitFirst(a: string, b: string, sep: char)
    requires forall k :: 0 <= k < |a| ==> a[k] != sep
    ensures Split(a + [sep] + b, sep) == [a] + Split(b, sep)
  {
    var s := a + [sep] + b;
    assert FirstIndex(s, sep) == |a| by {
      assert s == a + ([sep] + b);
      FirstIndexPast(a, [sep] + b, sep);
      assert FirstIndex([sep] + b, sep) == 0;
    }
    assert s[..|a|] == a && s[|a| + 1..] == b;
  }

  lemma {:induction false} FirstIndexPast(a: string, b: string, sep: char)
    requires forall k :: 0 <= k < |a| ==> a[k] != sep
    ensures FirstIndex(a + b, sep) == |a| + FirstIndex(b, sep)
  {
    if a != [] {
      assert (a + b)[1..] == a[1..] + b;
      FirstIndexPast(a[1..], b, sep);
    } else {
      assert a + b == b;
    }
  }
}
