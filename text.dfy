/** Decimal printing and parsing of integers and splitting of strings, as Python's
    `str(int)`, `int(str)`, `str.split(sep)` and the `_get_n_digits` helper use them. */
module Text {
  import opened Common

  predicate IsDigit(c: char) { '0' <= c <= '9' }

  predicate AllDigits(s: string) { forall i :: 0 <= i < |s| ==> IsDigit(s[i]) }

  function DigitChar(d: nat): (c: char)
    requires d < 10
    ensures IsDigit(c) && c as int - '0' as int == d
  {
    ('0' as int + d) as char
  }

  function DigitValue(c: char): (d: nat)
    requires IsDigit(c)
    ensures d < 10 && DigitChar(d) == c
  {
    c as int - '0' as int
  }

  /** `str(n)` for a non-negative int: its decimal digits, without a leading zero. */
  function Show(n: nat): (s: string)
    ensures |s| >= 1 && AllDigits(s)
    ensures s[0] == '0' <==> n == 0
    ensures n == 0 ==> s == "0"
  {
    if n < 10 then [DigitChar(n)] else Show(n / 10) + [DigitChar(n % 10)]
  }

  /** `int(s)` for a string of decimal digits (leading zeros allowed). */
  function Read(s: string): (n: nat)
    requires AllDigits(s)
    ensures n < Pow10(|s|)
  {
    if s == [] then 0 else 10 * Read(s[..|s| - 1]) + DigitValue(s[|s| - 1])
  }

  lemma {:induction false} ReadShow(n: nat)
    ensures Read(Show(n)) == n
  {
    if n >= 10 {
      var s := Show(n);
      assert s[..|s| - 1] == Show(n / 10);
      ReadShow(n / 10);
    }
  }

  /** A leading "0" does not change the value `int()` reads. */
  lemma {:induction false} ReadLeadingZero(s: string)
    requires AllDigits(s)
    ensures AllDigits("0" + s) && Read("0" + s) == Read(s)
  {
    if s != [] {
      var t := "0" + s;
      assert t[..|t| - 1] == "0" + s[..|s| - 1];
      ReadLeadingZero(s[..|s| - 1]);
    }
  }

  function Pow10(k: nat): (p: nat)
    ensures p >= 1
  {
    if k == 0 then 1 else 10 * Pow10(k - 1)
  }

  /** `_get_n_digits`: 1 for zero, otherwise the number of decimal digits, that is the
      `d` with 10^(d-1) <= n < 10^d. A negative argument makes `math.log10` raise a
      domain error, modelled as None. */
  function DigitCount(n: int): (r: Option<nat>)
    ensures r.None? <==> n < 0
    ensures 0 <= n < 10 ==> r == Some(1)
    ensures n >= 10 ==> r.Some? && r.value >= 2
    ensures n > 0 ==> r.Some? && r.value >= 1 && Pow10(r.value - 1) <= n < Pow10(r.value)
  {
    if n < 0 then None
    else if n < 10 then Some(1)
    else Some(DigitCount(n / 10).value + 1)
  }

  /** The digit count is the length of the printed number. */
  lemma {:induction false} DigitCountIsLength(n: nat)
    ensures DigitCount(n) == Some(|Show(n)|)
  {
    if n >= 10 {
      DigitCountIsLength(n / 10);
    }
  }

  /** `sep` starts at position `i` of `s`. */
  predicate OccursAt(s: string, sep: string, i: nat)
  {
    i + |sep| <= |s| && s[i..i + |sep|] == sep
  }

  /** The first position at or after `from` where `sep` starts, or |s| when there is none. */
  function FirstOccurrence(s: string, sep: string, from: nat): (i: nat)
    requires sep != [] && from <= |s|
    ensures from <= i <= |s|
    ensures i < |s| ==> OccursAt(s, sep, i)
    ensures forall j :: from <= j < i ==> !OccursAt(s, sep, j)
    decreases |s| - from
  {
    if from == |s| then |s|
    else if OccursAt(s, sep, from) then from
    else FirstOccurrence(s, sep, from + 1)
  }

  /** `s.split(sep)`: the pieces between successive left-most occurrences of `sep`. */
  function Split(s: string, sep: string): (parts: seq<string>)
    requires sep != []
    ensures |parts| >= 1
    decreases |s|
  {
    var i := FirstOccurrence(s, sep, 0);
    if i == |s| then [s] else [s[..i]] + Split(s[i + |sep|..], sep)
  }

  /** A piece that cannot begin the separator is split off intact. */
  lemma SplitAfter(a: string, sep: string, b: string)
    requires sep != []
    requires forall k :: 0 <= k < |a| ==> a[k] != sep[0]
    ensures Split(a + sep + b, sep) == [a] + Split(b, sep)
  {
    var s := a + sep + b;
    assert s[|a|..|a| + |sep|] == sep;
    assert OccursAt(s, sep, |a|);
    assert s[..|a|] == a;
    assert s[|a| + |sep|..] == b;
  }

  /** A string in which the separator cannot begin is one piece. */
  lemma SplitNone(a: string, sep: string)
    requires sep != []
    requires forall k :: 0 <= k < |a| ==> a[k] != sep[0]
    ensures Split(a, sep) == [a]
  {
  }
}
