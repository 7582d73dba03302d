/** Python's `int(s)` on a string and `str(n)` on an integer.

    `int` is modelled as: strip surrounding ASCII whitespace, accept one optional
    `+` or `-`, then one or more ASCII digits. */
module Integers {
  import opened Wrappers

  /** The characters `int` skips around a number: tab through carriage
      return, and space. The information separators `\x1c` to `\x1f`, which
      `str.strip` would remove, are not among them. */
  predicate IsSpace(c: char)
  {
    c == ' ' || ('\t' <= c <= '\r')
  }

  predicate IsDigit(c: char)
  {
    '0' <= c <= '9'
  }

  predicate AllDigits(s: string)
  {
    forall i :: 0 <= i < |s| ==> IsDigit(s[i])
  }

  function TrimLeft(s: string): (r: string)
    ensures |r| <= |s| && r == s[|s| - |r|..]
    ensures |r| > 0 ==> !IsSpace(r[0])
    decreases |s|
  {
    if |s| > 0 && IsSpace(s[0]) then TrimLeft(s[1..]) else s
  }

  function TrimRight(s: string): (r: string)
    ensures |r| <= |s| && r == s[..|r|]
    ensures |r| > 0 ==> !IsSpace(r[|r| - 1])
    decreases |s|
  {
    if |s| > 0 && IsSpace(s[|s| - 1]) then TrimRight(s[..|s| - 1]) else s
  }

  /** `s.strip()` restricted to the whitespace above. */
  function Trim(s: string): string
  {
    TrimRight(TrimLeft(s))
  }

  function DigitValue(c: char): nat
    requires IsDigit(c)
  {
    (c as int) - ('0' as int)
  }

  /** The number a string of decimal digits denotes, most significant first. */
  function DigitsValue(s: string): nat
    requires AllDigits(s)
  {
    if |s| == 0 then 0 else DigitsValue(s[..|s| - 1]) * 10 + DigitValue(s[|s| - 1])
  }

  /** `int(s)`: `None` stands for the `ValueError` Python raises. Whatever it
      accepts contains a digit. */
  function ParseInt(s: string): (r: Option<int>)
    ensures r.Some? ==> exists i :: 0 <= i < |s| && IsDigit(s[i])
  {
    StrippedDigit(s);
    ParseStripped(Trim(s))
  }

  /** A number the strip leaves behind has a digit, and that digit is in the
      original string. */
  lemma StrippedDigit(s: string)
    ensures ParseStripped(Trim(s)).Some? ==> exists i :: 0 <= i < |s| && IsDigit(s[i])
  {
    var u := TrimLeft(s);
    var t := Trim(s);
    if ParseStripped(t).Some? {
      var j := if t[0] == '+' || t[0] == '-' then 1 else 0;
      assert IsDigit(t[j]);
      assert t[j] == u[j] == s[|s| - |u| + j];
    }
  }

  /** A bare run of digits reads as its decimal value. */
  lemma ParseDigits(s: string)
    requires |s| > 0 && AllDigits(s)
    ensures ParseInt(s) == Some(DigitsValue(s))
  {
    assert IsDigit(s[0]) && IsDigit(s[|s| - 1]);
    TrimNoSpace(s);
  }

  /** A minus sign followed by a run of digits reads as the negated value. */
  lemma ParseNegativeDigits(s: string)
    requires |s| > 1 && s[0] == '-' && AllDigits(s[1..])
    ensures ParseInt(s) == Some(-(DigitsValue(s[1..]) as int))
  {
    assert IsDigit(s[1..][|s| - 2]);
    TrimNoSpace(s);
  }

  /** A plus sign followed by a run of digits reads as the value itself. */
  lemma ParsePositiveDigits(s: string)
    requires |s| > 1 && s[0] == '+' && AllDigits(s[1..])
    ensures ParseInt(s) == Some(DigitsValue(s[1..]))
  {
    assert IsDigit(s[1..][|s| - 2]);
    TrimNoSpace(s);
  }

  /** The shape of an integer literal without whitespace: digits, possibly
      after one sign. */
  predicate IntForm(t: string)
  {
    (|t| > 0 && AllDigits(t)) || (|t| > 1 && (t[0] == '+' || t[0] == '-') && AllDigits(t[1..]))
  }

  /** The converse of the digit lemmas: whatever `int` accepts is an integer
      literal with only whitespace around it, and reads as that literal does.
      So `int("1a")` and `int("1 2")` are refused. */
  lemma ParseIntForm(s: string)
    requires ParseInt(s).Some?
    ensures exists w1, t, w2 ::
              && AllSpace(w1) && AllSpace(w2) && s == w1 + t + w2
              && IntForm(t) && ParseInt(t) == ParseInt(s)
  {
    var w1, t, w2 := TrimSplit(s);
    StrippedForm(t);
    ParsePadded(w1, t, w2);
  }

  /** The strip cuts a string into leading whitespace, the stripped middle,
      and trailing whitespace. */
  lemma TrimSplit(s: string) returns (w1: string, t: string, w2: string)
    ensures AllSpace(w1) && AllSpace(w2) && s == w1 + t + w2 && t == Trim(s)
  {
    var u := TrimLeft(s);
    t := TrimRight(u);
    w1 := s[..|s| - |u|];
    w2 := u[|t|..];
    TrimLeftDropsSpaces(s);
    TrimRightDropsSpaces(u);
    SplitThree(s, |s| - |u|, |t|);
  }

  lemma SplitThree(s: string, k: nat, m: nat)
    requires k + m <= |s|
    ensures s == s[..k] + s[k..][..m] + s[k..][m..]
  {
    assert s == s[..k] + s[k..];
    assert s[k..] == s[k..][..m] + s[k..][m..];
  }

  lemma StrippedForm(t: string)
    ensures ParseStripped(t).Some? ==> IntForm(t)
  {
  }

  /** What the left strip removes is whitespace. */
  lemma {:induction false} TrimLeftDropsSpaces(s: string)
    ensures AllSpace(s[..|s| - |TrimLeft(s)|])
    decreases |s|
  {
    if |s| > 0 && IsSpace(s[0]) {
      var r := s[1..];
      TrimLeftDropsSpaces(r);
      var k := |s| - |TrimLeft(s)|;
      assert TrimLeft(s) == TrimLeft(r);
      forall i | 0 <= i < k ensures IsSpace(s[..k][i]) {
        if i > 0 {
          assert s[..k][i] == r[..k - 1][i - 1];
        }
      }
    } else {
      assert s[..|s| - |TrimLeft(s)|] == [];
    }
  }

  /** What the right strip removes is whitespace. */
  lemma {:induction false} TrimRightDropsSpaces(s: string)
    ensures AllSpace(s[|TrimRight(s)|..])
    decreases |s|
  {
    if |s| > 0 && IsSpace(s[|s| - 1]) {
      var p := s[..|s| - 1];
      TrimRightDropsSpaces(p);
      var k := |TrimRight(s)|;
      assert TrimRight(s) == TrimRight(p);
      forall i | 0 <= i < |s| - k ensures IsSpace(s[k..][i]) {
        if i < |s| - k - 1 {
          assert s[k..][i] == p[k..][i];
        }
      }
    } else {
      assert s[|TrimRight(s)|..] == [];
    }
  }

  /** `int` on a string with no surrounding whitespace. */
  function ParseStripped(t: string): Option<int>
  {
    if |t| > 0 && (t[0] == '+' || t[0] == '-') then
      var digits := t[1..];
      if |digits| > 0 && AllDigits(digits) then
        var magnitude: int := DigitsValue(digits);
        Some(if t[0] == '-' then -magnitude else magnitude)
      else
        None
    else if |t| > 0 && AllDigits(t) then
      Some(DigitsValue(t))
    else
      None
  }

  function DigitChar(d: nat): (c: char)
    requires d < 10
    ensures IsDigit(c) && DigitValue(c) == d
  {
    (('0' as int) + d) as char
  }

  /** `str(n)` for a natural number: its decimal digits. */
  function ShowNat(n: nat): (r: string)
    ensures |r| >= 1 && AllDigits(r)
    ensures DigitsValue(r) == n
    ensures r[0] == '0' ==> n == 0
  {
    if n < 10 then
      [DigitChar(n)]
    else
      var r := ShowNat(n / 10) + [DigitChar(n % 10)];
      assert r[..|r| - 1] == ShowNat(n / 10);
      assert r[0] == ShowNat(n / 10)[0];
      r
  }

  /** `str(n)`: decimal digits with a leading `-` when negative. */
  function ShowInt(n: int): (r: string)
    ensures |r| >= 1
    ensures r[0] == '-' <==> n < 0
    ensures r[0] == '0' ==> r == "0"
    ensures n < 0 ==> |r| >= 2 && r[1] != '0'
    ensures forall i :: 0 <= i < |r| ==> IsDigit(r[i]) || (i == 0 && r[i] == '-' && n < 0)
  {
    if n < 0 then "-" + ShowNat(-n) else ShowNat(n)
  }

  lemma TrimNoSpace(s: string)
    requires |s| > 0 && !IsSpace(s[0]) && !IsSpace(s[|s| - 1])
    ensures Trim(s) == s
  {
  }

  /** `int(str(n)) == n`: the decimal rendering parses back to the same number. */
  lemma ParseShow(n: int)
    ensures ParseInt(ShowInt(n)) == Some(n)
  {
    var s := ShowInt(n);
    TrimNoSpace(s);
    if n < 0 {
      assert s[1..] == ShowNat(-n);
    }
  }

  /** A string with no digit in it is never an integer (for instance the empty
      component of `"1->->3"`). */
  lemma ParseNeedsDigit(s: string)
    requires forall i :: 0 <= i < |s| ==> !IsDigit(s[i])
    ensures ParseInt(s) == None
  {
  }

  predicate AllSpace(w: string)
  {
    forall i :: 0 <= i < |w| ==> IsSpace(w[i])
  }

  lemma {:induction false} TrimLeftSpaces(w: string, s: string)
    requires AllSpace(w)
    ensures TrimLeft(w + s) == TrimLeft(s)
    decreases |w|
  {
    if |w| > 0 {
      assert (w + s)[0] == w[0] && (w + s)[1..] == w[1..] + s;
      TrimLeftSpaces(w[1..], s);
    } else {
      assert w + s == s;
    }
  }

  lemma {:induction false} TrimRightSpaces(s: string, w: string)
    requires AllSpace(w)
    ensures TrimRight(s + w) == TrimRight(s)
    decreases |w|
  {
    if |w| > 0 {
      var u := s + w;
      assert u[|u| - 1] == w[|w| - 1] && u[..|u| - 1] == s + w[..|w| - 1];
      TrimRightSpaces(s, w[..|w| - 1]);
    } else {
      assert s + w == s;
    }
  }

  lemma {:induction false} TrimAppendSpaces(s: string, w: string)
    requires AllSpace(w)
    ensures Trim(s + w) == Trim(s)
    decreases |s|
  {
    if |s| == 0 {
      assert s + w == [] + w;
      TrimLeftSpaces(w, []);
      assert w + [] == w;
    } else if IsSpace(s[0]) {
      assert (s + w)[0] == s[0] && (s + w)[1..] == s[1..] + w;
      TrimAppendSpaces(s[1..], w);
    } else {
      assert (s + w)[0] == s[0];
      TrimRightSpaces(s, w);
    }
  }

  /** Whitespace around a string does not change what `int` reads, whether
      or not the string is an integer. */
  lemma ParsePadded(w1: string, s: string, w2: string)
    requires AllSpace(w1) && AllSpace(w2)
    ensures ParseInt(w1 + s + w2) == ParseInt(s)
  {
    TrimPadded(w1, s, w2);
  }

  lemma TrimPadded(w1: string, s: string, w2: string)
    requires AllSpace(w1) && AllSpace(w2)
    ensures Trim(w1 + s + w2) == Trim(s)
  {
    assert w1 + s + w2 == w1 + (s + w2);
    TrimLeftSpaces(w1, s + w2);
    assert Trim(w1 + (s + w2)) == Trim(s + w2);
    TrimAppendSpaces(s, w2);
  }

  /** For instance `int(" 12\n")` is 12. */
  lemma ParsePaddedExample()
    ensures ParseInt(" " + ShowInt(12) + "\n") == Some(12)
  {
    ParsePadded(" ", ShowInt(12), "\n");
    ParseShow(12);
  }

  /** `int` does not skip an information separator: a string that starts
      with one of `\x1c` to `\x1f`, such as `"\x1c5"`, is an error. */
  lemma SeparatorNotSpace(s: string)
    requires |s| > 0 && '\U{1C}' <= s[0] <= '\U{1F}'
    ensures ParseInt(s) == None
  {
    assert TrimLeft(s) == s;
    var t := Trim(s);
    if |t| > 0 {
      assert t[0] == s[0];
    }
    StrippedRefused(t);
  }

  /** A stripped string that starts with neither a sign nor a digit is refused. */
  lemma StrippedRefused(t: string)
    requires |t| > 0 ==> !IsDigit(t[0]) && t[0] != '+' && t[0] != '-'
    ensures ParseStripped(t) == None
  {
  }
}
