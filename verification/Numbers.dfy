/** What the hex text of a blacklist line means: the numbers that are spelled in it, each as a byte. */
module Numbers {
  import opened CString
  import opened HexText

  /** The two character classes, character by character, and what each digit is worth. */
  lemma CharClasses(c: char)
    ensures IsSpace(c) <==>
            c == ' ' || c == '\t' || c == '\n' || c == '\U{000B}' || c == '\U{000C}' || c == '\r' || c == '\U{00A0}'
    ensures IsHexDigit(c) <==> c in "0123456789abcdefABCDEF"
    ensures '0' <= c <= '9' ==> DigitValue(c) == c as int - 48
    ensures 'A' <= c <= 'F' ==> DigitValue(c) == c as int - 55
    ensures 'a' <= c <= 'f' ==> DigitValue(c) == c as int - 87
  {
  }

  // ----- spelling

  /** A number as it may be spelled: behind white space, with or without `0x`, with leading zeros, in either case. */
  datatype Number = Number(space: string, prefix: string, zeros: nat, n: nat, upper: bool)

  /** The digits of a number, without leading zeros. */
  function Hex(n: nat, upper: bool): (t: string)
    ensures t != "" && forall k :: 0 <= k < |t| ==> IsHexDigit(t[k])
  {
    (if n < 16 then "" else Hex(n / 16, upper)) + [HexDigit(n % 16, upper)]
  }

  function Zeros(k: nat): (t: string)
    ensures |t| == k && forall i :: 0 <= i < k ==> t[i] == '0'
  {
    if k == 0 then "" else Zeros(k - 1) + "0"
  }

  function Digits(x: Number): (t: string)
    ensures t != "" && forall k :: 0 <= k < |t| ==> IsHexDigit(t[k])
  {
    Zeros(x.zeros) + Hex(x.n, x.upper)
  }

  function Spell(x: Number): string {
    x.space + (x.prefix + Digits(x))
  }

  function SpellAll(xs: seq<Number>): string {
    if xs == [] then "" else Spell(xs[0]) + SpellAll(xs[1..])
  }

  predicate White(s: string) {
    forall k :: 0 <= k < |s| ==> IsSpace(s[k])
  }

  /** Numbers that can be told apart: white space between them. */
  predicate Separated(xs: seq<Number>) {
    && (forall i :: 0 <= i < |xs| ==> White(xs[i].space) && xs[i].prefix in ["", "0x", "0X"])
    && (forall i :: 0 < i < |xs| ==> xs[i].space != "")
  }

  /** Each number cut to a byte. */
  function Bytes(xs: seq<Number>): (s: string)
    ensures |s| == |xs| && forall i :: 0 <= i < |xs| ==> s[i] as int == xs[i].n % 256
  {
    seq(|xs|, i requires 0 <= i < |xs| => (xs[i].n % 256) as char)
  }

  // ----- one number

  /** `t` has `s` at index `i`. */
  predicate At(t: string, i: nat, s: string) {
    i + |s| <= |t| && forall k :: i <= k < i + |s| ==> t[k] == s[k - i]
  }

  lemma AtParts(t: string, i: nat, a: string, b: string)
    requires At(t, i, a + b)
    ensures At(t, i, a) && At(t, i + |a|, b)
  {
  }

  lemma {:induction false} SpaceEndIs(t: string, i: nat, j: nat)
    requires i <= j <= |t| && (forall k :: i <= k < j ==> IsSpace(t[k])) && (j < |t| ==> !IsSpace(t[j]))
    ensures SpaceEnd(t, i) == j
    decreases j - i
  {
    if i < j {
      SpaceEndIs(t, i + 1, j);
    }
  }

  lemma {:induction false} DigitEndIs(t: string, i: nat, j: nat)
    requires i <= j <= |t| && (forall k :: i <= k < j ==> IsHexDigit(t[k])) && (j < |t| ==> !IsHexDigit(t[j]))
    ensures DigitEnd(t, i) == j
    decreases j - i
  {
    if i < j {
      DigitEndIs(t, i + 1, j);
    }
  }

  lemma {:induction false} ZerosValue(t: string, d: nat, k: nat)
    requires At(t, d, Zeros(k))
    ensures (forall i :: d <= i < d + k ==> t[i] == '0') && HexValue(t, d, d + k) == 0
    decreases k
  {
    if k > 0 {
      AtParts(t, d, Zeros(k - 1), "0");
      ZerosValue(t, d, k - 1);
    }
  }

  lemma {:induction false} DigitsValue(t: string, d: nat, k: nat, n: nat, upper: bool)
    requires At(t, d, Zeros(k)) && At(t, d + k, Hex(n, upper))
    ensures var e := d + k + |Hex(n, upper)|;
            (forall i :: d <= i < e ==> IsHexDigit(t[i])) && HexValue(t, d, e) == n
    decreases n
  {
    var front, c := if n < 16 then "" else Hex(n / 16, upper), HexDigit(n % 16, upper);
    var h := d + k + |front|;
    AtParts(t, d + k, front, [c]);
    if n < 16 {
      ZerosValue(t, d, k);
    } else {
      DigitsValue(t, d, k, n / 16, upper);
    }
    LastDigit(t, d, h, n / 16);
  }

  lemma LastDigit(t: string, d: nat, h: nat, v: nat)
    requires d <= h < |t| && (forall k :: d <= k <= h ==> IsHexDigit(t[k])) && HexValue(t, d, h) == v
    ensures HexValue(t, d, h + 1) == 16 * v + DigitValue(t[h])
  {
  }

  lemma FourParts(t: string, i: nat, a: string, b: string, c: string, d: string)
    requires At(t, i, a + (b + (c + d)))
    ensures At(t, i, a) && At(t, i + |a|, b) && At(t, i + |a| + |b|, c) && At(t, i + |a| + |b| + |c|, d)
    ensures |a + (b + (c + d))| == |a| + |b| + |c| + |d|
  {
    AtParts(t, i, a, b + (c + d));
    AtParts(t, i + |a|, b, c + d);
    AtParts(t, i + |a| + |b|, c, d);
  }

  /** A spelled number at index `i`, with no digit behind it, is one group and worth its low byte. */
  lemma NumberAt(t: string, i: nat, x: Number, e: nat)
    requires White(x.space) && x.prefix in ["", "0x", "0X"]
    requires At(t, i, Spell(x)) && e == i + |Spell(x)| && (e < |t| ==> IsSpace(t[e]))
    ensures GroupEnd(t, i) == e > i && GroupByte(t, i) as int == x.n % 256
  {
    var d := i + |x.space| + |x.prefix|;
    FourParts(t, i, x.space, x.prefix, Zeros(x.zeros), Hex(x.n, x.upper));
    DigitsAt(t, i, x, d, e);
    GroupIs(t, i, d, e);
  }

  lemma DigitsAt(t: string, i: nat, x: Number, d: nat, e: nat)
    requires White(x.space) && x.prefix in ["", "0x", "0X"] && (e < |t| ==> IsSpace(t[e]))
    requires d == i + |x.space| + |x.prefix| && e == d + x.zeros + |Hex(x.n, x.upper)|
    requires At(t, i, x.space) && At(t, i + |x.space|, x.prefix)
    requires At(t, d, Zeros(x.zeros)) && At(t, d + x.zeros, Hex(x.n, x.upper))
    ensures i <= d < e <= |t| && DigitStart(t, i) == d
    ensures (forall k :: d <= k < e ==> IsHexDigit(t[k])) && HexValue(t, d, e) == x.n
  {
    DigitsValue(t, d, x.zeros, x.n, x.upper);
    StartsAt(t, i, x.space, x.prefix, d, e);
  }

  lemma GroupIs(t: string, i: nat, d: nat, e: nat)
    requires i <= d < e <= |t| && DigitStart(t, i) == d
    requires (forall k :: d <= k < e ==> IsHexDigit(t[k])) && (e < |t| ==> !IsHexDigit(t[e]))
    ensures GroupEnd(t, i) == e && GroupByte(t, i) as int == HexValue(t, d, e) % 256
  {
    DigitEndIs(t, d, e);
  }

  lemma StartsAt(t: string, i: nat, space: string, prefix: string, d: nat, e: nat)
    requires White(space) && prefix in ["", "0x", "0X"]
    requires d == i + |space| + |prefix| < e <= |t| && (forall k :: d <= k < e ==> IsHexDigit(t[k]))
    requires (e < |t| ==> IsSpace(t[e])) && At(t, i, space) && At(t, i + |space|, prefix)
    ensures DigitStart(t, i) == d
  {
    SpaceEndIs(t, i, i + |space|);
  }

  // ----- all of them

  lemma {:induction false} TrailAt(t: string, i: nat, trail: string)
    requires White(trail) && At(t, i, trail) && i + |trail| == |t|
    ensures Decodable(t, i) && DecodeFrom(t, i) == if trail == "" then "" else [NUL]
  {
    SpaceEndIs(t, i, |t|);
    assert DigitEnd(t, |t|) == |t|;
  }

  lemma FirstNumber(t: string, i: nat, x: Number, tail: string, e: nat)
    requires White(x.space) && x.prefix in ["", "0x", "0X"] && (tail != "" ==> IsSpace(tail[0]))
    requires At(t, i, Spell(x) + tail) && i + |Spell(x) + tail| == |t| && e == i + |Spell(x)|
    ensures At(t, e, tail) && e + |tail| == |t|
    ensures GroupEnd(t, i) == e > i && GroupByte(t, i) as int == x.n % 256
  {
    AtParts(t, i, Spell(x), tail);
    NumberAt(t, i, x, e);
  }

  lemma BytesStep(x: Number, later: seq<Number>, c: char, end: string)
    requires c as int == x.n % 256
    ensures Bytes([x] + later) + end == [c] + (Bytes(later) + end)
  {
  }

  lemma {:induction false} SpellStep(x: Number, later: seq<Number>, trail: string)
    ensures SpellAll([x] + later) + trail == Spell(x) + (SpellAll(later) + trail)
  {
    assert ([x] + later)[1..] == later;
  }

  lemma {:induction false} NumbersAt(t: string, i: nat, xs: seq<Number>, trail: string)
    requires Separated(xs) && White(trail)
    requires At(t, i, SpellAll(xs) + trail) && i + |SpellAll(xs) + trail| == |t|
    ensures Decodable(t, i) && DecodeFrom(t, i) == Bytes(xs) + (if trail == "" then "" else [NUL])
    decreases |xs|
  {
    if xs == [] {
      assert SpellAll(xs) + trail == trail;
      TrailAt(t, i, trail);
      assert Bytes(xs) == "";
    } else {
      var x, later := xs[0], xs[1..];
      var e := i + |Spell(x)|;
      assert xs == [x] + later;
      SpellStep(x, later, trail);
      SpaceBehind(later, trail);
      FirstNumber(t, i, x, SpellAll(later) + trail, e);
      NumbersAt(t, e, later, trail);
      DecodeStep(t, i, GroupByte(t, i), e, DecodeFrom(t, e));
      BytesStep(x, later, GroupByte(t, i), if trail == "" then "" else [NUL]);
    }
  }

  lemma SpaceBehind(later: seq<Number>, trail: string)
    requires White(trail) && (forall i :: 0 <= i < |later| ==> White(later[i].space) && later[i].space != "")
    ensures var tail := SpellAll(later) + trail; tail != "" ==> IsSpace(tail[0])
  {
  }

  /** Numbers spelled in hex, with any number of digits, leading zeros, `0x` or not, and any white space
      before and between them, are decoded to their low bytes; white space behind them to one zero byte more. */
  lemma SpelledNumbers(xs: seq<Number>, trail: string)
    requires Separated(xs) && White(trail)
    ensures Spelt(SpellAll(xs) + trail)
    ensures Decode(SpellAll(xs) + trail) == Bytes(xs) + (if trail == "" then "" else [NUL])
  {
    NumbersAt(SpellAll(xs) + trail, 0, xs, trail);
    DecodableIff(SpellAll(xs) + trail);
  }

  lemma ExampleNumbers()
    ensures Spell(Number("", "", 0, 5, false)) == "5"
    ensures Spell(Number(" ", "0x", 1, 0x41, false)) == " 0x041"
  {
    assert Hex(4, false) == "4";
  }

  lemma ExampleText(a: Number, b: Number)
    requires Spell(a) == "5" && Spell(b) == " 0x041"
    ensures SpellAll([a, b]) + " " == "5 0x041 "
  {
    SpellStep(a, [b], " ");
    SpellStep(b, [], " ");
    assert [a] + [b] == [a, b] && [b] + [] == [b];
  }

  /** One text in full: one digit, then a prefix, a leading zero and two digits, and a space at the end. */
  lemma SpelledExample()
    ensures Decode("5 0x041 ") == ['\U{0005}', 'A', NUL]
  {
    var a, b := Number("", "", 0, 5, false), Number(" ", "0x", 1, 0x41, false);
    ExampleNumbers();
    ExampleText(a, b);
    SpelledNumbers([a, b], " ");
    ExampleBytes(a, b);
  }

  lemma ExampleBytes(a: Number, b: Number)
    requires a.n == 5 && b.n == 0x41
    ensures Bytes([a, b]) + [NUL] == ['\U{0005}', 'A', NUL]
  {
  }
}
