/** Decimal text as printf's %d, %ld and %.3ld write it, and reading it back. */
module Decimal {
  import opened Text

  predicate IsDigit(c: char) { '0' <= c <= '9' }

  predicate AllDigits(s: string) { forall i :: 0 <= i < |s| ==> IsDigit(s[i]) }

  function Show(n: nat): (s: string)
    ensures s != "" && AllDigits(s)
  {
    if n < 10 then [('0' as int + n) as char]
    else Show(n / 10) + [('0' as int + n % 10) as char]
  }

  function Value(s: string): nat
    requires AllDigits(s)
  {
    if s == "" then 0 else Value(s[..|s| - 1]) * 10 + (s[|s| - 1] as int - '0' as int)
  }

  lemma {:induction false} ValueShow(n: nat)
    ensures Value(Show(n)) == n
  {
    if n >= 10 {
      ValueShow(n / 10);
      assert Show(n)[..|Show(n)| - 1] == Show(n / 10);
    } else {
      assert Show(n)[..0] == "";
    }
  }

  function PowerOfTen(k: nat): (p: nat)
    ensures p > 0
  {
    if k == 0 then 1 else 10 * PowerOfTen(k - 1)
  }

  lemma {:induction false} ShowLength(n: nat, k: nat)
    requires k > 0 && n < PowerOfTen(k)
    ensures |Show(n)| <= k
    decreases k
  {
    if n >= 10 {
      assert k > 1 by { assert PowerOfTen(1) == 10; }
      ShowLength(n / 10, k - 1);
    }
  }

  /** The last digit stands for the units, no zero stands in front, and every decimal digit is its own character. */
  lemma {:induction false} ShowDigits(n: nat)
    ensures Show(n)[|Show(n)| - 1] == "0123456789"[n % 10]
    ensures n >= 10 ==> Show(n)[..|Show(n)| - 1] == Show(n / 10) && Show(n)[0] != '0'
    ensures n < 10 ==> |Show(n)| == 1
    decreases n
  {
    DigitIs(n % 10);
    if n >= 10 {
      ShowDigits(n / 10);
      DigitIs(n / 10 % 10);
      if n / 10 < 10 {
        DigitIs(n / 10);
      }
    }
  }

  lemma DigitIs(d: nat)
    requires d < 10
    ensures "0123456789"[d] as int == 48 + d
  {
    assert d == 0 || d == 1 || d == 2 || d == 3 || d == 4 || d == 5 || d == 6 || d == 7 || d == 8 || d == 9;
  }

  /** %ld */
  function ShowInt(n: int): (s: string)
    ensures s != "" && forall i :: 0 <= i < |s| ==> IsDigit(s[i]) || s[i] == '-'
  {
    if n < 0 then "-" + Show(-n) else Show(n)
  }

  function Zeros(n: nat): (s: string)
    ensures |s| == n && forall i :: 0 <= i < n ==> s[i] == '0'
  {
    seq(n, _ => '0')
  }

  /** Show with at least `width` digits. */
  function ShowWide(n: nat, width: nat): (s: string)
    ensures s != "" && AllDigits(s) && |s| == if |Show(n)| < width then width else |Show(n)|
  {
    var s := Show(n);
    if |s| < width then Zeros(width - |s|) + s else s
  }

  lemma {:induction false} ValueZeros(k: nat, s: string)
    requires AllDigits(s)
    ensures AllDigits(Zeros(k) + s) && Value(Zeros(k) + s) == Value(s)
    decreases |s|, k
  {
    var t := Zeros(k) + s;
    if s != "" {
      ValueZeros(k, s[..|s| - 1]);
      assert t[..|t| - 1] == Zeros(k) + s[..|s| - 1];
    } else if k > 0 {
      ValueZeros(k - 1, "");
      assert t[..|t| - 1] == Zeros(k - 1) + "";
    }
  }

  /** %.3ld when the width is 3: the sign does not count. */
  function ShowIntWide(n: int, width: nat): (s: string)
    ensures s != "" && forall i :: 0 <= i < |s| ==> IsDigit(s[i]) || s[i] == '-'
  {
    if n < 0 then "-" + ShowWide(-n, width) else ShowWide(n, width)
  }

  function ParseNat(s: string): Option<nat> {
    if s != "" && AllDigits(s) then Some(Value(s)) else None
  }

  function ParseInt(s: string): Option<int> {
    if s != "" && s[0] == '-' then
      if ParseNat(s[1..]).Some? then Some(0 - ParseNat(s[1..]).value) else None
    else
      if ParseNat(s).Some? then Some(ParseNat(s).value) else None
  }

  lemma ParseShow(n: nat)
    ensures ParseNat(Show(n)) == Some(n)
  {
    ValueShow(n);
  }

  lemma ParseShowInt(n: int)
    ensures ParseInt(ShowInt(n)) == Some(n)
  {
    if n < 0 {
      ParseShow(-n);
      assert ShowInt(n)[1..] == Show(-n);
    } else {
      ParseShow(n);
    }
  }

  lemma ValueWide(n: nat, width: nat)
    ensures Value(ShowWide(n, width)) == n
  {
    hide Value, Show;
    ValueShow(n);
    ValueZeros(if |Show(n)| < width then width - |Show(n)| else 0, Show(n));
  }

  lemma ParseShowIntWide(n: int, width: nat)
    ensures ParseInt(ShowIntWide(n, width)) == Some(n)
  {
    hide Value, ShowWide;
    var m: nat := if n < 0 then -n else n;
    ValueWide(m, width);
    if n < 0 {
      assert ShowIntWide(n, width)[1..] == ShowWide(m, width);
    }
  }
}
