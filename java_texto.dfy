/** The two pieces of java.lang used by the validation rules: String.trim() and
    Integer.toString(). */
module JavaTexto {

  /** Every character is one that String.trim() strips (code point at most U+0020). */
  predicate IsBlank(s: string) {
    forall i :: 0 <= i < |s| ==> s[i] <= ' '
  }

  /** Drops the leading characters at most U+0020. */
  function TrimStart(s: string): (r: string)
    ensures |r| <= |s| && r == s[|s| - |r|..]
    ensures IsBlank(s[..|s| - |r|])
    ensures r != [] ==> r[0] > ' '
    decreases |s|
  {
    if |s| > 0 && s[0] <= ' ' then
      var r := TrimStart(s[1..]);
      assert s[..|s| - |r|] == [s[0]] + s[1..][..|s| - 1 - |r|];
      r
    else s
  }

  /** Drops the trailing characters at most U+0020. */
  function TrimEnd(s: string): (r: string)
    ensures |r| <= |s| && r == s[..|r|]
    ensures IsBlank(s[|r|..])
    ensures r != [] ==> r[|r| - 1] > ' '
    decreases |s|
  {
    if |s| > 0 && s[|s| - 1] <= ' ' then
      var r := TrimEnd(s[..|s| - 1]);
      assert s[|r|..] == s[..|s| - 1][|r|..] + [s[|s| - 1]];
      r
    else s
  }

  /** String.trim(): the string without its leading and trailing characters at
      most U+0020; so s.trim().equals("") holds exactly when s is blank. */
  function Trim(s: string): (r: string)
    ensures r == "" <==> IsBlank(s)
    ensures r != "" ==> r[0] > ' ' && r[|r| - 1] > ' '
  {
    TrimEnd(TrimStart(s))
  }

  function Pow10(n: nat): nat {
    if n == 0 then 1 else 10 * Pow10(n - 1)
  }

  function DigitChar(d: nat): (c: char)
    requires d < 10
    ensures '0' <= c <= '9'
  {
    (48 + d) as char
  }

  /** Integer.toString of a non-negative k: a non-empty run of decimal digits with
      no leading zero (this model relies only on its length). */
  function NatToString(k: nat): (r: string)
    ensures |r| >= 1
    ensures forall i :: 0 <= i < |r| ==> '0' <= r[i] <= '9'
    ensures r[0] == '0' ==> k == 0
    decreases k
  {
    if k < 10 then [DigitChar(k)] else NatToString(k / 10) + [DigitChar(k % 10)]
  }

  /** Integer.toString(n): a minus sign for a negative n, then the digits of |n|. */
  function IntegerToString(n: int): (r: string)
    ensures |r| >= 1
    ensures r[0] == '-' <==> n < 0
  {
    if n < 0 then "-" + NatToString(-n) else NatToString(n)
  }

  /** k has at most n decimal digits exactly when k < 10^n. */
  lemma {:induction false} NatToStringFits(k: nat, n: nat)
    requires n >= 1
    ensures |NatToString(k)| <= n <==> k < Pow10(n)
    decreases k
  {
    if k < 10 {
      Pow10AtLeastTen(n);
    } else if n == 1 {
      assert |NatToString(k)| == |NatToString(k / 10)| + 1;
    } else {
      NatToStringFits(k / 10, n - 1);
      assert |NatToString(k)| == |NatToString(k / 10)| + 1;
      assert Pow10(n) == 10 * Pow10(n - 1);
      assert k / 10 < Pow10(n - 1) <==> k < 10 * Pow10(n - 1);
    }
  }

  lemma {:induction false} Pow10AtLeastTen(n: nat)
    requires n >= 1
    ensures Pow10(n) >= 10
  {
    if n > 1 {
      Pow10AtLeastTen(n - 1);
    }
  }

  /** The decimal text of n has length four exactly for 1000..9999 and for -999..-100
      (the minus sign takes one of the four places). */
  lemma IntegerToStringLength4(n: int)
    ensures |IntegerToString(n)| == 4 <==> 1000 <= n <= 9999 || -999 <= n <= -100
  {
    if n < 0 {
      NatToStringFits(-n, 3);
      NatToStringFits(-n, 2);
      assert Pow10(2) == 100 && Pow10(3) == 1000;
    } else {
      NatToStringFits(n, 4);
      NatToStringFits(n, 3);
      assert Pow10(3) == 1000 && Pow10(4) == 10000;
    }
  }

  /** Integer.toString(n).length() == 4, characterised by the range of n. */
  function HasFourCharacters(n: int): (b: bool)
    ensures b <==> 1000 <= n <= 9999 || -999 <= n <= -100
  {
    IntegerToStringLength4(n);
    |IntegerToString(n)| == 4
  }

  /** s.trim().equals(""), characterised without trimming. */
  function TrimsToEmpty(s: string): (b: bool)
    ensures b <==> IsBlank(s)
  {
    Trim(s) == ""
  }
}
