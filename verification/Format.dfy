/** Decimal text as `sprintf("%d")` writes it, and its value. */
module Format {
  import opened CString
  import opened Wrappers

  function Digits(n: nat): (t: string)
    ensures t != [] && forall i :: 0 <= i < |t| ==> '0' <= t[i] <= '9'
  {
    var last := ['0' + (n % 10) as char];
    if n < 10 then last else Digits(n / 10) + last
  }

  function Decimal(n: int): (t: string)
    ensures t != [] && forall i :: 0 <= i < |t| ==> t[i] == '-' || '0' <= t[i] <= '9'
  {
    if n < 0 then "-" + Digits(-n) else Digits(n)
  }

  // ----- reading it

  /** The digits from index `i` on, read from left to right behind digits worth `v`. */
  function ValueFrom(t: string, i: nat, v: int): int
    requires i <= |t|
    decreases |t| - i
  {
    if i == |t| then v else ValueFrom(t, i + 1, 10 * v + (t[i] as int - '0' as int))
  }

  function Value(t: string): int {
    if t != "" && t[0] == '-' then -ValueFrom(t, 1, 0) else ValueFrom(t, 0, 0)
  }

  lemma {:induction false} ValueOfLast(t: string, c: char, i: nat, v: int)
    requires i <= |t|
    ensures ValueFrom(t + [c], i, v) == 10 * ValueFrom(t, i, v) + (c as int - '0' as int)
    decreases |t| - i
  {
    var u := t + [c];
    if i < |t| {
      ValueOfLast(t, c, i + 1, 10 * v + (t[i] as int - '0' as int));
    } else {
      assert ValueFrom(u, i, v) == ValueFrom(u, i + 1, 10 * v + (c as int - '0' as int));
    }
  }

  lemma {:induction false} ValueOfDigits(sign: string, n: nat)
    ensures ValueFrom(sign + Digits(n), |sign|, 0) == n
    decreases n
  {
    var last := '0' + (n % 10) as char;
    if n < 10 {
      assert Digits(n) == [last];
      ValueOfLast(sign, last, |sign|, 0);
    } else {
      ValueOfDigits(sign, n / 10);
      assert sign + Digits(n) == sign + Digits(n / 10) + [last];
      ValueOfLast(sign + Digits(n / 10), last, |sign|, 0);
    }
  }

  lemma {:induction false} NoLeadingZero(n: nat)
    requires n > 0
    ensures Digits(n)[0] != '0'
    decreases n
  {
    if n >= 10 {
      NoLeadingZero(n / 10);
    }
  }

  /** Read from left to right, a decimal text has the value it was written for; it has no leading zero, and a
      sign exactly when that is negative. */
  lemma ValueOfDecimal(n: int)
    ensures Value(Decimal(n)) == n
    ensures Decimal(n)[0] == '-' <==> n < 0
    ensures n != 0 ==> '0' != if n < 0 then Decimal(n)[1] else Decimal(n)[0]
  {
    if n < 0 {
      ValueOfDigits("-", -n);
      NoLeadingZero(-n);
    } else {
      ValueOfDigits("", n);
      assert "" + Digits(n) == Digits(n);
      if n > 0 {
        NoLeadingZero(n);
      }
    }
  }

  /** One text in full. */
  lemma DecimalExample()
    ensures Decimal(-907) == "-907" && Decimal(0) == "0"
  {
    assert Digits(9) == "9" && Digits(90) == "90";
  }

  // ----- taking a text apart

  /** What stands behind `front`, if the text starts with it. */
  function Behind(t: string, front: string): Option<string> {
    if |front| <= |t| && t[..|front|] == front then Some(t[|front|..]) else None
  }

  lemma BehindIs(front: string, rest: string)
    ensures Behind(front + rest, front) == Some(rest)
  {
  }

  /** Where a word ends: at the first `c` behind it. */
  lemma EndsAt(word: string, c: char, rest: string)
    requires c !in word && rest != "" && rest[0] == c
    ensures var t := word + rest; IndexOf(t, c) == |word| && t[..|word|] == word && t[|word|..] == rest
  {
    var t := word + rest;
    assert t[..|word|] == word;
    IndexOfIs(t, c, |word|);
  }
}
