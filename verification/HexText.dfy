/** Decoding of the hex text of a blacklist line (`gethex` and `convert`). */
module HexText {
  import opened CString

  /** `isspace` of the kernel's character table. */
  predicate IsSpace(c: char) {
    c == ' ' || '\t' <= c <= '\r' || c == '\U{A0}'
  }

  predicate IsHexDigit(c: char) {
    '0' <= c <= '9' || 'A' <= c <= 'F' || 'a' <= c <= 'f'
  }

  function DigitValue(c: char): (v: nat)
    requires IsHexDigit(c)
    ensures v < 16
  {
    if c <= '9' then c as int - '0' as int
    else if c <= 'F' then c as int - 'A' as int + 10
    else c as int - 'a' as int + 10
  }

  /** The `x` of a prefix: behind a `0` that starts a group. */
  predicate PrefixX(t: string, k: nat) {
    0 < k < |t| && (t[k] == 'x' || t[k] == 'X') && t[k - 1] == '0' && (k == 1 || IsSpace(t[k - 2]))
  }

  predicate SpeltAt(t: string, k: nat) {
    k < |t| && (IsSpace(t[k]) || IsHexDigit(t[k]) || PrefixX(t, k))
  }

  /** Hex digits, white space, and prefixes in front of groups, only. */
  predicate Spelt(t: string) {
    forall k :: 0 <= k < |t| ==> SpeltAt(t, k)
  }

  /** Where the white space that starts at index `i` ends. */
  function SpaceEnd(t: string, i: nat): (j: nat)
    requires i <= |t|
    ensures i <= j <= |t|
    ensures j < |t| ==> !IsSpace(t[j])
    ensures forall k :: i <= k < j ==> IsSpace(t[k])
    decreases |t| - i
  {
    if i < |t| && IsSpace(t[i]) then SpaceEnd(t, i + 1) else i
  }

  /** Where the hex digits that start at index `i` end. */
  function DigitEnd(t: string, i: nat): (j: nat)
    requires i <= |t|
    ensures i <= j <= |t|
    ensures j < |t| ==> !IsHexDigit(t[j])
    ensures forall k :: i <= k < j ==> IsHexDigit(t[k])
    decreases |t| - i
  {
    if i < |t| && IsHexDigit(t[i]) then DigitEnd(t, i + 1) else i
  }

  /** Index behind a `0x` at index `i`, if there is one: `strtoul` in base 16 skips it. */
  function PrefixEnd(t: string, i: nat): (j: nat)
    requires i <= |t|
    ensures i <= j <= |t|
  {
    if i + 1 < |t| && t[i] == '0' && (t[i + 1] == 'x' || t[i + 1] == 'X') then i + 2 else i
  }

  /** Value of the hex digits between two indices. */
  function HexValue(t: string, i: nat, j: nat): nat
    requires i <= j <= |t|
    requires forall k :: i <= k < j ==> IsHexDigit(t[k])
  {
    if i == j then 0 else 16 * HexValue(t, i, j - 1) + DigitValue(t[j - 1])
  }

  /** Where the digits of the group at index `i` start: behind the white space and a prefix. */
  function DigitStart(t: string, i: nat): (j: nat)
    requires i <= |t|
    ensures i <= j <= |t|
  {
    PrefixEnd(t, SpaceEnd(t, i))
  }

  /** What `gethex` returns when it starts at index `i`: the digits there, cast to `char`, that is,
      the low eight bits of their value. */
  function GroupByte(t: string, i: nat): char
    requires i <= |t|
  {
    var d := DigitStart(t, i);
    (HexValue(t, d, DigitEnd(t, d)) % 256) as char
  }

  /** Where `gethex` leaves the cursor. */
  function GroupEnd(t: string, i: nat): (j: nat)
    requires i <= |t|
    ensures i <= j <= |t|
    ensures j < |t| ==> !IsHexDigit(t[j])
  {
    DigitEnd(t, DigitStart(t, i))
  }

  /** From index `i` on every `gethex` moves the cursor. */
  predicate Decodable(t: string, i: nat)
    requires i <= |t|
    decreases |t| - i
  {
    i == |t| || (GroupEnd(t, i) > i && Decodable(t, GroupEnd(t, i)))
  }

  /** The characters `convert` still writes when its cursor is at index `i`, up to the group that
      keeps it for ever, if there is one. */
  function DecodeFrom(t: string, i: nat): string
    requires i <= |t|
    decreases |t| - i
  {
    if i == |t| || GroupEnd(t, i) == i then [] else [GroupByte(t, i)] + DecodeFrom(t, GroupEnd(t, i))
  }

  function Decode(t: string): string {
    DecodeFrom(t, 0)
  }

  // ----- which texts `convert` comes to an end on

  /** Where a group may start: at the start of the text or behind another group. */
  predicate Boundary(t: string, i: nat) {
    i <= |t| && (i == 0 || i == |t| || (!IsHexDigit(t[i]) && !PrefixX(t, i)))
  }

  lemma GroupSpelt(t: string, i: nat, k: nat)
    requires Boundary(t, i) && i <= k < GroupEnd(t, i)
    ensures SpeltAt(t, k)
  {
    var s, d := SpaceEnd(t, i), DigitStart(t, i);
    if s < k < d {
      assert k == s + 1 && (s > i ==> IsSpace(t[s - 1]));
    }
  }

  lemma GroupStops(t: string, i: nat)
    requires Boundary(t, i) && i < GroupEnd(t, i)
    ensures Boundary(t, GroupEnd(t, i))
  {
    var d, e := DigitStart(t, i), GroupEnd(t, i);
    assert forall k :: d <= k < e ==> IsHexDigit(t[k]);
  }

  /** From a place where a group may start, every group moves the cursor exactly when the rest is spelt right. */
  lemma {:induction false} DecodableIffFrom(t: string, i: nat)
    requires Boundary(t, i)
    ensures Decodable(t, i) <==> forall k :: i <= k < |t| ==> SpeltAt(t, k)
    decreases |t| - i
  {
    var e := GroupEnd(t, i);
    if i < e {
      GroupStops(t, i);
      DecodableIffFrom(t, e);
      forall k | i <= k < e ensures SpeltAt(t, k) {
        GroupSpelt(t, i, k);
      }
    } else if i < |t| {
      assert !SpeltAt(t, i);
    }
  }

  lemma DecodableIff(t: string)
    ensures Decodable(t, 0) <==> Spelt(t)
  {
    DecodableIffFrom(t, 0);
  }

  /** The cursor of `convert` after `n` turns of its loop. */
  function CursorAfter(t: string, n: nat): (i: nat)
    ensures i <= |t|
  {
    if n == 0 then 0 else GroupEnd(t, CursorAfter(t, n - 1))
  }

  lemma {:induction false} DecodableStep(t: string, i: nat, e: nat)
    requires i <= |t| && e == GroupEnd(t, i) && !Decodable(t, i)
    ensures !Decodable(t, e)
  {
  }

  lemma {:induction false} NeverDecodable(t: string, n: nat, i: nat)
    requires !Decodable(t, 0) && i == CursorAfter(t, n)
    ensures !Decodable(t, i)
  {
    if n > 0 {
      var h := CursorAfter(t, n - 1);
      NeverDecodable(t, n - 1, h);
      DecodableStep(t, h, i);
    }
  }

  lemma {:induction false} EndsAfter(t: string, n: nat) returns (m: nat)
    requires Decodable(t, CursorAfter(t, n))
    ensures CursorAfter(t, m) == |t|
    decreases |t| - CursorAfter(t, n)
  {
    m := n;
    if CursorAfter(t, n) < |t| {
      m := EndsAfter(t, n + 1);
    }
  }

  /** The loop of `convert` comes to an end exactly on texts that are spelt right; on any other it writes
      bytes for ever. */
  lemma ConvertEndsIff(t: string)
    ensures (exists n: nat :: CursorAfter(t, n) == |t|) <==> Spelt(t)
  {
    DecodableIff(t);
    if Decodable(t, 0) {
      var n := EndsAfter(t, 0);
    } else {
      forall n: nat ensures CursorAfter(t, n) != |t| {
        NeverDecodable(t, n, CursorAfter(t, n));
      }
    }
  }

  /** On `4G` the cursor gets to the `G` and stays there. */
  lemma {:induction false} StuckText(n: nat)
    ensures CursorAfter("4G", n + 1) == 1
  {
    assert DigitEnd("4G", 1) == 1;
    if n > 0 {
      StuckText(n - 1);
    }
  }

  /** Whatever follows a group that is not the last is white space, and the group after that is longer than it. */
  lemma NextGroup(t: string, i: nat)
    requires i < |t| && Decodable(t, i)
    ensures GroupEnd(t, i) < |t| ==> IsSpace(t[GroupEnd(t, i)])
    ensures GroupEnd(t, i) < |t| && IsSpace(t[i]) ==> GroupEnd(t, i) >= i + 2
  {
  }

  /** A text decodes to at most half its length plus one, so the hex buffer is large
      enough; one less still when the text starts with a separator. */
  lemma {:induction false} DecodeLength(t: string, i: nat)
    requires i <= |t| && Decodable(t, i)
    ensures |DecodeFrom(t, i)| <= (|t| - i) / 2 + 1
    ensures i == |t| || IsSpace(t[i]) ==> |DecodeFrom(t, i)| <= (|t| - i + 1) / 2
    decreases |t| - i
  {
    if i < |t| {
      NextGroup(t, i);
      DecodeLength(t, GroupEnd(t, i));
    }
  }

  /** A hex digit in upper or lower case. */
  function HexDigit(v: nat, upper: bool): (c: char)
    requires v < 16
    ensures IsHexDigit(c) && !IsSpace(c) && DigitValue(c) == v
    ensures ('A' <= c <= 'F' ==> upper) && ('a' <= c <= 'f' ==> !upper)
  {
    if v < 10 then ('0' as int + v) as char
    else if upper then ('A' as int + v - 10) as char
    else ('a' as int + v - 10) as char
  }

  predicate IsBytes(bytes: string) {
    forall i :: 0 <= i < |bytes| ==> bytes[i] as int < 256
  }

  /** Bytes as two-digit hex separated by single spaces, in either case. */
  function Print(bytes: string, upper: bool): (t: string)
    requires IsBytes(bytes)
    ensures |t| == if bytes == [] then 0 else 3 * |bytes| - 1
    ensures forall i :: 0 <= i < |t| ==> IsHexDigit(t[i]) || t[i] == ' '
  {
    if bytes == [] then ""
    else
      var front, last := bytes[..|bytes| - 1], bytes[|bytes| - 1] as int;
      (if front == [] then "" else Print(front, upper) + " ") + [HexDigit(last / 16, upper), HexDigit(last % 16, upper)]
  }

  lemma TwoDigitStart(t: string, d: nat, i: nat)
    requires d + 2 <= |t| && IsHexDigit(t[d]) && IsHexDigit(t[d + 1]) && !IsSpace(t[d])
    requires i == d || (i + 1 == d && t[i] == ' ')
    ensures DigitStart(t, i) == d
  {
    assert SpaceEnd(t, d) == d;
  }

  lemma TwoDigitValue(t: string, d: nat)
    requires d + 2 <= |t| && IsHexDigit(t[d]) && IsHexDigit(t[d + 1])
    requires d + 2 < |t| ==> !IsHexDigit(t[d + 2])
    ensures DigitEnd(t, d) == d + 2 && HexValue(t, d, d + 2) == 16 * DigitValue(t[d]) + DigitValue(t[d + 1])
  {
    assert DigitEnd(t, d + 2) == d + 2;
    assert HexValue(t, d, d + 1) == DigitValue(t[d]);
  }

  /** Two digits at `d` that no third follows, reached directly or from a space before them. */
  lemma TwoDigitGroup(t: string, d: nat, i: nat)
    requires d + 2 <= |t| && IsHexDigit(t[d]) && IsHexDigit(t[d + 1]) && !IsSpace(t[d])
    requires d + 2 < |t| ==> t[d + 2] == ' '
    requires i == d || (i + 1 == d && t[i] == ' ')
    ensures GroupByte(t, i) == (16 * DigitValue(t[d]) + DigitValue(t[d + 1])) as char && GroupEnd(t, i) == d + 2
  {
    TwoDigitStart(t, d, i);
    TwoDigitValue(t, d);
  }

  /** A hex digit of one value, that is no white space. */
  ghost predicate IsDigit(c: char, v: nat) {
    IsHexDigit(c) && !IsSpace(c) && DigitValue(c) == v
  }

  /** `t` has the digits of `bytes[k]` at their place, between spaces or ends. */
  ghost predicate PrintedAt(t: string, bytes: string, k: nat) {
    && k < |bytes| && |t| == 3 * |bytes| - 1 && bytes[k] as int < 256
    && IsDigit(t[3 * k], bytes[k] as int / 16) && IsDigit(t[3 * k + 1], bytes[k] as int % 16)
    && (3 * k + 2 < |t| ==> t[3 * k + 2] == ' ')
    && (k > 0 ==> t[3 * k - 1] == ' ')
  }

  lemma {:induction false} PrintPlaces(bytes: string, k: nat, upper: bool)
    requires IsBytes(bytes) && k < |bytes|
    ensures PrintedAt(Print(bytes, upper), bytes, k)
    decreases |bytes|
  {
    if k + 1 < |bytes| {
      PrintPlaces(bytes[..|bytes| - 1], k, upper);
    }
  }

  /** The group at the digits of `bytes[k]`, or at the space before them, is that byte. */
  ghost predicate GroupAt(t: string, bytes: string, k: nat, i: nat) {
    && k < |bytes| && |t| == 3 * |bytes| - 1 && (i == 3 * k || i + 1 == 3 * k)
    && GroupByte(t, i) == bytes[k] && GroupEnd(t, i) == 3 * k + 2
  }

  lemma PrintedGroup(t: string, bytes: string, k: nat, i: nat)
    requires PrintedAt(t, bytes, k)
    requires i == 3 * k || (k > 0 && i == 3 * k - 1)
    ensures GroupAt(t, bytes, k, i)
  {
    TwoDigitGroup(t, 3 * k, i);
  }

  lemma {:induction false} DecodeStep(t: string, i: nat, byte: char, e: nat, rest: string)
    requires i < e <= |t| && GroupByte(t, i) == byte && GroupEnd(t, i) == e
    requires Decodable(t, e) && DecodeFrom(t, e) == rest
    ensures Decodable(t, i) && DecodeFrom(t, i) == [byte] + rest
  {
  }

  /** Decoding a printed text from the digits of byte `k`, or from the space before them. */
  lemma {:induction false} DecodePrintFrom(t: string, bytes: string, k: nat, i: nat)
    requires forall j, l: nat :: 0 <= j < |bytes| && (l == 3 * j || (j > 0 && l == 3 * j - 1)) ==> GroupAt(t, bytes, j, l)
    requires GroupAt(t, bytes, k, i)
    ensures Decodable(t, i) && DecodeFrom(t, i) == bytes[k..]
    decreases |bytes| - k
  {
    var e := 3 * k + 2;
    if k + 1 < |bytes| {
      DecodePrintFrom(t, bytes, k + 1, e);
    }
    DecodeStep(t, i, bytes[k], e, bytes[k + 1..]);
    assert bytes[k..] == [bytes[k]] + bytes[k + 1..];
  }

  /** Decoding undoes printing, for every byte string. */
  lemma DecodePrint(bytes: string, upper: bool)
    requires IsBytes(bytes)
    ensures Decodable(Print(bytes, upper), 0) && Decode(Print(bytes, upper)) == bytes
  {
    if bytes != [] {
      var t := Print(bytes, upper);
      forall k, i: nat | 0 <= k < |bytes| && (i == 3 * k || (k > 0 && i == 3 * k - 1)) ensures GroupAt(t, bytes, k, i) {
        PrintPlaces(bytes, k, upper);
        PrintedGroup(t, bytes, k, i);
      }
      DecodePrintFrom(t, bytes, 0, 0);
    }
  }

  /** `strtoul` in base 16 from index `d` of the C string `t` held at `s`. */
  method Strtoul(buf: array<char>, s: nat, ghost t: string, d: nat) returns (value: nat, end: nat)
    requires Holds(buf, s, t, 0, |t|) && d <= |t|
    ensures end == DigitEnd(t, PrefixEnd(t, d)) && value == HexValue(t, PrefixEnd(t, d), end)
  {
    var p := SkipPrefix(buf, s, t, d);
    end := p;
    value := 0;
    while IsHexDigit(buf[s + end])
      invariant p <= end <= |t| && DigitEnd(t, end) == DigitEnd(t, p)
      invariant value == HexValue(t, p, end)
      decreases |t| - end
    {
      HeldAt(buf, s, t, 0, |t|, end);
      value := 16 * value + DigitValue(buf[s + end]);
      end := end + 1;
    }
    HeldAt(buf, s, t, 0, |t|, end);
  }

  /** The part of `strtoul` that steps over a prefix. */
  method SkipPrefix(buf: array<char>, s: nat, ghost t: string, d: nat) returns (p: nat)
    requires Holds(buf, s, t, 0, |t|) && d <= |t|
    ensures p == PrefixEnd(t, d)
  {
    HeldAt(buf, s, t, 0, |t|, d);
    if buf[s + d] != '0' {
      return d;
    }
    HeldAt(buf, s, t, 0, |t|, d + 1);
    return if buf[s + d + 1] == 'x' || buf[s + d + 1] == 'X' then d + 2 else d;
  }

  /** `gethex`: skip white space from index `i` of the C string `t` held at `s`, convert
      the group that follows and report where it ends. */
  method GetHex(buf: array<char>, s: nat, ghost t: string, i: nat) returns (value: char, end: nat)
    requires Holds(buf, s, t, 0, |t|) && i <= |t|
    ensures value == GroupByte(t, i) && end == GroupEnd(t, i)
  {
    var d := i;
    while IsSpace(buf[s + d])
      invariant i <= d <= |t| && SpaceEnd(t, d) == SpaceEnd(t, i)
      decreases |t| - d
    {
      HeldAt(buf, s, t, 0, |t|, d);
      d := d + 1;
    }
    HeldAt(buf, s, t, 0, |t|, d);
    var v;
    v, end := Strtoul(buf, s, t, d);
    value := (v % 256) as char;
  }

  /** The places of the cursor during `convert` from index `i` on: `decoded[k]` is the group at `ends[k]`. */
  ghost predicate Cursors(t: string, i: nat, ends: seq<nat>, decoded: string) {
    && |ends| == |decoded| + 1 && ends[0] == i && ends[|decoded|] == |t|
    && forall k :: 0 <= k < |decoded| ==> GroupOf(t, ends[k], decoded[k], ends[k + 1])
  }

  predicate GroupOf(t: string, i: nat, c: char, e: nat) {
    i < e <= |t| && GroupByte(t, i) == c && GroupEnd(t, i) == e
  }

  lemma {:induction false} CursorsFrom(t: string, i: nat) returns (ends: seq<nat>)
    requires i <= |t| && Decodable(t, i)
    ensures Cursors(t, i, ends, DecodeFrom(t, i))
    decreases |t| - i
  {
    if i == |t| {
      ends := [i];
    } else {
      var later := CursorsFrom(t, GroupEnd(t, i));
      ends := [i] + later;
    }
  }

  /** `convert`: decode the C string `t` held at `s` into `out` and report the decoded length. */
  method Convert(buf: array<char>, s: nat, out: array<char>, ghost t: string) returns (length: nat)
    requires buf != out && Holds(buf, s, t, 0, |t|) && Decodable(t, 0)
    requires |t| / 2 + 1 <= out.Length
    modifies out
    ensures length <= out.Length && out[..length] == Decode(t)
  {
    DecodeLength(t, 0);
    ghost var ends := CursorsFrom(t, 0);
    length := ConvertAll(buf, s, out, t, Decode(t), ends);
  }

  /** The loop of `convert`, along the places of its cursor. */
  method ConvertAll(buf: array<char>, s: nat, out: array<char>, ghost t: string, ghost decoded: string, ghost ends: seq<nat>)
    returns (length: nat)
    requires buf != out && Holds(buf, s, t, 0, |t|) && Cursors(t, 0, ends, decoded) && |decoded| <= out.Length
    modifies out
    ensures length == |decoded| && out[..length] == decoded
  {
    var p := 0;
    length := 0;
    HeldAt(buf, s, t, 0, |t|, 0);
    while buf[s + p] != NUL
      invariant Holds(buf, s, t, 0, |t|) && length <= |decoded| && p == ends[length] <= |t|
      invariant buf[s + p] == NUL <==> p == |t|
      invariant forall k :: 0 <= k < length ==> out[k] == decoded[k]
      decreases |t| - p
    {
      assert length < |decoded|;
      assert GroupOf(t, ends[length], decoded[length], ends[length + 1]);
      var v, e := GetHex(buf, s, t, p);
      out[length] := v;
      length := length + 1;
      p := e;
      HeldAt(buf, s, t, 0, |t|, p);
    }
    assert length < |decoded| ==> GroupOf(t, ends[length], decoded[length], ends[length + 1]);
    assert out[..length] == decoded;
  }
}
