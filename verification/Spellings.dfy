/** A blacklist written by hand: names, commas, and numbers spelled in any way that hex text allows. */
module Spellings {
  import opened CString
  import opened Blacklist
  import opened Lines
  import opened Numbers
  import opened Verdicts
  import HexText

  /** One line: a name, the numbers behind its comma, and the white space at its end. */
  datatype Spelling = Spelling(name: string, numbers: seq<Number>, trail: string)

  function LineFor(s: Spelling): string {
    s.name + "," + (SpellAll(s.numbers) + s.trail)
  }

  predicate GoodSpelling(s: Spelling, P: nat) {
    ',' !in s.name && Separated(s.numbers) && White(s.trail) && GoodLine(LineFor(s), P)
  }

  function LinesFor(spellings: seq<Spelling>): (lines: seq<string>)
    ensures |lines| == |spellings| && forall i :: 0 <= i < |lines| ==> lines[i] == LineFor(spellings[i])
  {
    seq(|spellings|, i requires 0 <= i < |spellings| => LineFor(spellings[i]))
  }

  /** The line decodes to its numbers, each cut to a byte, and to a zero byte for white space at its end. */
  lemma SpelledLine(s: Spelling, P: nat)
    requires GoodSpelling(s, P)
    ensures HasPattern(LineFor(s)) && Pattern(LineFor(s)) == Bytes(s.numbers) + (if s.trail == "" then "" else ['\0'])
  {
    var line, hex := LineFor(s), SpellAll(s.numbers) + s.trail;
    assert line[|s.name|] == ',' && line[..|s.name|] == s.name;
    IndexOfIs(line, ',', |s.name|);
    assert Text(line) == hex;
    SpelledNumbers(s.numbers, s.trail);
    HexText.DecodableIff(hex);
  }

  lemma SpelledMatches(data: string, s: Spelling, P: nat)
    requires GoodSpelling(s, P) && forall n <- s.numbers :: n.n % 256 != 0
    ensures MatchesPattern(data, LineFor(s)) <==> Occurs(data, Bytes(s.numbers))
  {
    SpelledLine(s, P);
    var bytes := Bytes(s.numbers);
    assert forall i :: 0 <= i < |bytes| ==> bytes[i] as int == s.numbers[i].n % 256 != 0;
    CStrEnds(bytes, "");
    assert bytes + [NUL] + "" == bytes + [NUL] && bytes + "" == bytes;
  }

  /** A file without NUL characters is reported exactly when it is not empty and the bytes of some line occur in
      it, whichever way its numbers are spelled, as long as none of them is worth zero. */
  lemma SpelledScan(spellings: seq<Spelling>, data: string, P: nat)
    requires 3 <= P && NUL !in data
    requires forall s <- spellings :: GoodSpelling(s, P) && forall n <- s.numbers :: n.n % 256 != 0
    ensures Infected(Unlines(LinesFor(spellings)), data, P) <==>
            data != "" && exists i :: 0 <= i < |spellings| && Occurs(data, Bytes(spellings[i].numbers))
  {
    var lines := LinesFor(spellings);
    forall i | 0 <= i < |lines|
      ensures GoodLine(lines[i], P) && ',' in lines[i]
      ensures MatchesPattern(data, lines[i]) <==> Occurs(data, Bytes(spellings[i].numbers))
    {
      var s := spellings[i];
      assert s in spellings && LineFor(s)[|s.name|] == ',';
      SpelledMatches(data, s, P);
    }
    VerdictNulFree(lines, data, P);
    forall k: nat | k < |lines| ensures MatchesLine(data, lines, k) <==> Occurs(data, Bytes(spellings[k].numbers)) {
    }
  }
}
