/** A blacklist written from named byte strings: what the scanner reports. */
module Signatures {
  import opened CString
  import opened Blacklist
  import opened FileModel
  import opened Lines
  import opened Verdicts
  import HexText
  import PageScan
  import Refills

  /** A named byte string, spelled in upper or lower case; the name is free text without comma, line
      feed or NUL. */
  datatype Signature = Signature(name: string, bytes: string, upper: bool)

  /** The line that a blacklist holds for a signature. */
  function Line(s: Signature): string
    requires HexText.IsBytes(s.bytes)
  {
    s.name + "," + HexText.Print(s.bytes, s.upper)
  }

  predicate GoodSignature(s: Signature, P: nat) {
    && ',' !in s.name && '\n' !in s.name && NUL !in s.name
    && HexText.IsBytes(s.bytes) && |Line(s)| < P
  }

  predicate GoodSignatures(signatures: seq<Signature>, P: nat) {
    forall i :: 0 <= i < |signatures| ==> GoodSignature(signatures[i], P)
  }

  /** No signature has a zero byte. */
  predicate ZeroFree(signatures: seq<Signature>) {
    forall i :: 0 <= i < |signatures| ==> NUL !in signatures[i].bytes
  }

  function LinesOf(signatures: seq<Signature>, P: nat): (lines: seq<string>)
    requires GoodSignatures(signatures, P)
    ensures |lines| == |signatures| && forall i :: 0 <= i < |lines| ==> lines[i] == Line(signatures[i])
  {
    if signatures == [] then [] else [Line(signatures[0])] + LinesOf(signatures[1..], P)
  }

  lemma HexHasNoBreak(hex: string)
    requires forall i :: 0 <= i < |hex| ==> HexText.IsHexDigit(hex[i]) || hex[i] == ' '
    ensures '\n' !in hex && NUL !in hex
  {
  }

  /** The line of a signature decodes to its bytes. */
  lemma SignatureLine(s: Signature, P: nat)
    requires GoodSignature(s, P)
    ensures GoodLine(Line(s), P) && HasPattern(Line(s)) && Pattern(Line(s)) == s.bytes
  {
    var line, hex := Line(s), HexText.Print(s.bytes, s.upper);
    assert line[|s.name|] == ',';
    assert line[..|s.name|] == s.name;
    IndexOfIs(line, ',', |s.name|);
    assert Text(line) == hex;
    HexText.DecodePrint(s.bytes, s.upper);
    HexHasNoBreak(hex);
  }

  lemma SignatureLines(signatures: seq<Signature>, P: nat)
    requires GoodSignatures(signatures, P)
    ensures var lines := LinesOf(signatures, P);
            && GoodLines(lines, P) && AllCommas(lines, |lines|)
            && forall i :: 0 <= i < |lines| ==> HasPattern(lines[i]) && Pattern(lines[i]) == signatures[i].bytes
  {
    var lines := LinesOf(signatures, P);
    forall i | 0 <= i < |lines|
      ensures GoodLine(lines[i], P) && HasPattern(lines[i]) && Pattern(lines[i]) == signatures[i].bytes
    {
      SignatureLine(signatures[i], P);
    }
  }

  /** One blacklist in full. */
  lemma BlacklistExample()
    ensures GoodSignatures([Signature("V", "AJ", true)], 4096) && ZeroFree([Signature("V", "AJ", true)])
    ensures Unlines(LinesOf([Signature("V", "AJ", true)], 4096)) == "V,41 4A\n"
  {
    var s := Signature("V", "AJ", true);
    PrintExample();
    assert Line(s) == "V,41 4A";
    assert [s][1..] == [] && LinesOf([s], 4096) == [Line(s)];
    assert [Line(s)][1..] == [];
  }

  lemma PrintExample()
    ensures HexText.IsBytes("AJ") && HexText.Print("AJ", true) == "41 4A"
  {
    assert "AJ"[..1] == "A";
    assert HexText.Print("", true) == "" && HexText.Print("A", true) == "41";
  }

  // ----- the verdict on any file

  /** The signature stands in the file up to its first zero byte, with no NUL from the start of the last
      page that begins there or before. */
  ghost predicate Shown(data: string, s: Signature, P: nat) {
    |s.bytes| + 1 < P && PageScan.SomeVisible(data, CStr(s.bytes), P - 1, |s.bytes|)
  }

  /** End to end, for any file: it is reported exactly when it is not empty and shows a signature. */
  lemma SignatureScan(signatures: seq<Signature>, data: string, P: nat)
    requires 3 <= P && GoodSignatures(signatures, P)
    ensures Infected(Unlines(LinesOf(signatures, P)), data, P) <==>
            data != "" && exists i :: 0 <= i < |signatures| && Shown(data, signatures[i], P)
  {
    var lines := LinesOf(signatures, P);
    SignatureLines(signatures, P);
    VerdictExact(lines, data, P);
    forall k: nat ensures ShownLine(data, lines, k, P) <==> k < |signatures| && Shown(data, signatures[k], P) {
    }
  }

  lemma BytesFit(s: Signature, P: nat)
    requires 3 <= P && GoodSignature(s, P)
    ensures |s.bytes| + 1 < P
  {
    SignatureLine(s, P);
    PatternFits(Line(s), P);
  }

  /** A file without NUL characters shows a signature without zero bytes wherever it occurs. */
  lemma ShownIffOccurs(data: string, s: Signature, P: nat)
    requires 3 <= P && GoodSignature(s, P) && NUL !in data && NUL !in s.bytes
    ensures Shown(data, s, P) <==> Occurs(data, s.bytes)
  {
    BytesFit(s, P);
    WholeCStr(s.bytes);
    PageScan.VisibleIffOccurs(data, s.bytes, P - 1, |s.bytes|);
  }

  /** On a file without NUL characters, for signatures without zero bytes: reported exactly when one of
      them occurs in it. */
  lemma SignatureScanNulFree(signatures: seq<Signature>, data: string, P: nat)
    requires 3 <= P && GoodSignatures(signatures, P) && ZeroFree(signatures) && NUL !in data
    ensures Infected(Unlines(LinesOf(signatures, P)), data, P) <==>
            data != "" && exists i :: 0 <= i < |signatures| && Occurs(data, signatures[i].bytes)
  {
    SignatureScan(signatures, data, P);
    forall i | 0 <= i < |signatures| ensures Shown(data, signatures[i], P) <==> Occurs(data, signatures[i].bytes) {
      ShownIffOccurs(data, signatures[i], P);
    }
  }

  /** A signature of a single zero byte has every non-empty file reported. */
  lemma ZeroByteReportsAll(name: string, P: nat)
    requires 3 <= P && GoodSignature(Signature(name, [NUL], false), P)
    ensures ReportsAll(LinesOf([Signature(name, [NUL], false)], P), P)
  {
    var s := Signature(name, [NUL], false);
    var lines := LinesOf([s], P);
    SignatureLines([s], P);
    assert CStr([NUL]) == "";
    assert BlankLine(lines, 0);
    EverythingReportedIff(lines, P);
  }

  /** A signature is cut at its first zero byte: the file "A" is reported for 41 00 42. */
  lemma ZeroByteCuts(name: string, P: nat)
    requires 3 <= P && GoodSignature(Signature(name, ['A', NUL, 'B'], false), P)
    ensures Infected(Unlines(LinesOf([Signature(name, ['A', NUL, 'B'], false)], P)), "A", P)
    ensures !Occurs("A", ['A', NUL, 'B'])
  {
    var bytes := ['A', NUL, 'B'];
    var s := Signature(name, bytes, false);
    SignatureLine(s, P);
    StrLenIs(bytes, 1);
    assert CStr(bytes) == "A" == FalseAlarm(bytes);
    FalseAlarmHits(Line(s), P);
    SignatureLines([s], P);
    var lines := LinesOf([s], P);
    assert HitLine("A", lines, 0, P);
    InfectedIff(lines, "A", P);
  }

  // ----- the scanner

  /** Every line written for a signature decodes. */
  lemma SignatureTexts(signatures: seq<Signature>, P: nat)
    requires GoodSignatures(signatures, P)
    ensures GoodLines(LinesOf(signatures, P), P)
    ensures forall data: string :: TextsOk(Unlines(LinesOf(signatures, P)), data, P)
  {
    var lines := LinesOf(signatures, P);
    SignatureLines(signatures, P);
    LinesInOrder(lines, P);
    ReachedShorter(lines);
    forall k: nat | k < |Reached(lines)| ensures TextOk(Reached(lines)[k]) {
      ReachedIs(lines, k);
    }
  }

  /** The scanner itself on a blacklist written from signatures whose lines never fill a page. */
  method ScanForSignatures(input: File, blacklist: File, signatures: seq<Signature>, P: nat) returns (found: bool)
    requires 3 <= P && input != blacklist && blacklist.pos == 0
    requires |input.data| < 0x8000_0000 && |blacklist.data| < 0x8000_0000
    requires GoodSignatures(signatures, P) && blacklist.data == Unlines(LinesOf(signatures, P))
    requires GoodLines(LinesOf(signatures, P), P) && Refills.NeverBrimful(input.data, LinesOf(signatures, P), 0, P)
    modifies input`pos, blacklist`pos
    ensures found <==> input.data != "" && exists i :: 0 <= i < |signatures| && Shown(input.data, signatures[i], P)
    ensures NUL !in input.data && ZeroFree(signatures) ==>
              (found <==> input.data != "" && exists i :: 0 <= i < |signatures| && Occurs(input.data, signatures[i].bytes))
  {
    ghost var lines := LinesOf(signatures, P);
    SignatureTexts(signatures, P);
    Refills.RefillsOkIff(input.data, lines, P);
    SignatureScan(signatures, input.data, P);
    if NUL !in input.data && ZeroFree(signatures) {
      SignatureScanNulFree(signatures, input.data, P);
    }
    ghost var handed;
    found, handed := CheckInBlacklist(input, blacklist, P);
  }
}
