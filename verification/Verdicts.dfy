/** What the scanner's verdict means for a blacklist seen as lines: for any file, when it is sound,
    and what it says when a line of the blacklist is empty, cut short, or out of reach. */
module Verdicts {
  import opened CString
  import opened Blacklist
  import opened Lines
  import HexText
  import PageScan

  /** The line has a text that can be decoded. */
  predicate HasPattern(line: string) {
    ',' in line && HexText.Decodable(Text(line), 0)
  }

  function Pattern(line: string): string
    requires HasPattern(line)
  {
    HexText.Decode(Text(line))
  }

  lemma PatternFits(line: string, P: nat)
    requires 3 <= P && |line| < P && HasPattern(line)
    ensures |Pattern(line)| + 1 < P
  {
    HexText.DecodeLength(Text(line), 0);
  }

  // ----- which line hits which file

  /** The line's pattern stands in the file, with no NUL from the start of the last page that begins
      there or before. */
  ghost predicate ShowsPattern(data: string, line: string, P: nat) {
    && HasPattern(line) && |Pattern(line)| + 1 < P
    && PageScan.SomeVisible(data, CStr(Pattern(line)), P - 1, |Pattern(line)|)
  }

  /** The line's pattern occurs in the file. */
  ghost predicate MatchesPattern(data: string, line: string) {
    HasPattern(line) && Occurs(data, CStr(Pattern(line)))
  }

  lemma HitIff(data: string, line: string, P: nat)
    requires 3 <= P
    ensures Hit(data, line, P) <==> data != "" && ShowsPattern(data, line, P)
  {
    if HasPattern(line) && |Pattern(line)| + 1 < P {
      PageScan.SeenIffVisible(data, CStr(Pattern(line)), P - 1, |Pattern(line)|);
    }
  }

  lemma HitMatches(data: string, line: string, P: nat)
    requires Hit(data, line, P)
    ensures MatchesPattern(data, line)
  {
    PageScan.SeenOccurs(data, CStr(Pattern(line)), P - 1, |Pattern(line)|);
  }

  lemma HitIffMatches(data: string, line: string, P: nat)
    requires 3 <= P && |line| < P && NUL !in data
    ensures Hit(data, line, P) <==> data != "" && MatchesPattern(data, line)
  {
    if HasPattern(line) {
      PatternFits(line, P);
      PageScan.SeenIffOccurs(data, CStr(Pattern(line)), P - 1, |Pattern(line)|);
    }
  }

  // ----- the verdict

  /** A verdict is a hit of one of the lines before the first one without a comma. */
  lemma InfectedIff(lines: seq<string>, data: string, P: nat)
    requires GoodLines(lines, P)
    ensures Infected(Unlines(lines), data, P) <==> exists k: nat :: HitLine(data, lines, k, P)
  {
    LinesInOrder(lines, P);
    ReachedShorter(lines);
    var reached := Reached(lines);
    if Infected(Unlines(lines), data, P) {
      var line :| line in reached && Hit(data, line, P);
      var k: nat :| k < |reached| && reached[k] == line;
      ReachedIs(lines, k);
      assert HitLine(data, lines, k, P);
    }
    if k: nat :| HitLine(data, lines, k, P) {
      ReachedIs(lines, k);
      assert reached[k] in reached;
    }
  }

  /** Line `k` stands before the first line without a comma. */
  predicate IsReached(lines: seq<string>, k: nat) {
    k < |lines| && AllCommas(lines, k)
  }

  ghost predicate HitLine(data: string, lines: seq<string>, k: nat, P: nat) {
    IsReached(lines, k) && Hit(data, lines[k], P)
  }

  ghost predicate ShownLine(data: string, lines: seq<string>, k: nat, P: nat) {
    IsReached(lines, k) && ShowsPattern(data, lines[k], P)
  }

  ghost predicate MatchesLine(data: string, lines: seq<string>, k: nat) {
    IsReached(lines, k) && MatchesPattern(data, lines[k])
  }

  /** The verdict on any file, NUL characters included: positive exactly when it is not empty and some
      line before the first one without a comma decodes to a pattern that is visible in it. */
  lemma VerdictExact(lines: seq<string>, data: string, P: nat)
    requires 3 <= P && GoodLines(lines, P)
    ensures Infected(Unlines(lines), data, P) <==> data != "" && exists k: nat :: ShownLine(data, lines, k, P)
  {
    InfectedIff(lines, data, P);
    forall k: nat ensures HitLine(data, lines, k, P) <==> data != "" && ShownLine(data, lines, k, P) {
      if IsReached(lines, k) {
        HitIff(data, lines[k], P);
      }
    }
  }

  /** The verdict on a file without NUL characters: positive exactly when it is not empty and some line
      before the first one without a comma decodes to a pattern that occurs in the whole file. */
  lemma VerdictNulFree(lines: seq<string>, data: string, P: nat)
    requires 3 <= P && GoodLines(lines, P) && NUL !in data
    ensures Infected(Unlines(lines), data, P) <==> data != "" && exists k: nat :: MatchesLine(data, lines, k)
  {
    InfectedIff(lines, data, P);
    forall k: nat ensures HitLine(data, lines, k, P) <==> data != "" && MatchesLine(data, lines, k) {
      if IsReached(lines, k) {
        HitIffMatches(data, lines[k], P);
      }
    }
  }

  // ----- soundness

  /** A non-empty byte string without zero bytes. */
  predicate Genuine(pattern: string) {
    pattern != "" && NUL !in pattern
  }

  lemma WholeCStr(s: string)
    requires NUL !in s
    ensures CStr(s) == s
  {
    assert s[..StrLen(s)] <= s;
  }

  /** A positive verdict on any file, when all patterns are genuine: one of them occurs in it, whole. */
  lemma VerdictSound(lines: seq<string>, data: string, P: nat) returns (k: nat)
    requires GoodLines(lines, P) && Infected(Unlines(lines), data, P)
    requires forall i: nat :: IsReached(lines, i) && HasPattern(lines[i]) ==> Genuine(Pattern(lines[i]))
    ensures IsReached(lines, k) && HasPattern(lines[k])
    ensures Genuine(Pattern(lines[k])) && Occurs(data, Pattern(lines[k]))
  {
    InfectedIff(lines, data, P);
    k :| HitLine(data, lines, k, P);
    HitMatches(data, lines[k], P);
    WholeCStr(Pattern(lines[k]));
  }

  /** A file without NUL on which a pattern hits that is empty or has a zero byte. */
  function FalseAlarm(pattern: string): string {
    if CStr(pattern) == "" then "A" else CStr(pattern)
  }

  lemma FalseAlarmHits(line: string, P: nat)
    requires 3 <= P && |line| < P && HasPattern(line)
    ensures Hit(FalseAlarm(Pattern(line)), line, P)
  {
    var data := FalseAlarm(Pattern(line));
    assert OccursAt(data, CStr(Pattern(line)), 0);
    HitIffMatches(data, line, P);
  }

  lemma ZeroOccurs(data: string, pattern: string)
    ensures Occurs(data, pattern) && NUL in pattern ==> NUL in data
  {
    if Occurs(data, pattern) {
      var o :| 0 <= o <= |data| && OccursAt(data, pattern, o);
      assert forall i :: 0 <= i < |pattern| ==> pattern[i] == data[o..o + |pattern|][i] == data[o + i];
    }
  }

  /** Hits of a line prove a byte string in the file exactly when its pattern is genuine: an empty one
      and one with a zero byte are reported for files that do not contain them. */
  lemma LineSoundIff(line: string, P: nat)
    requires 3 <= P && |line| < P && HasPattern(line)
    ensures (forall data: string :: Hit(data, line, P) ==> Pattern(line) != "" && Occurs(data, Pattern(line)))
            <==> Genuine(Pattern(line))
  {
    var pattern := Pattern(line);
    if Genuine(pattern) {
      WholeCStr(pattern);
      forall data: string | Hit(data, line, P) ensures Occurs(data, pattern) {
        HitMatches(data, line, P);
      }
    } else {
      var data := FalseAlarm(pattern);
      FalseAlarmHits(line, P);
      ZeroOccurs(data, pattern);
    }
  }

  /** The pattern of a reached line is empty, or its first byte is zero. */
  ghost predicate BlankLine(lines: seq<string>, k: nat) {
    IsReached(lines, k) && HasPattern(lines[k]) && CStr(Pattern(lines[k])) == ""
  }

  lemma BlankHits(data: string, line: string, P: nat)
    requires 3 <= P && |line| < P && HasPattern(line) && CStr(Pattern(line)) == "" && data != ""
    ensures Hit(data, line, P)
  {
    PatternFits(line, P);
    assert PageScan.Visible(data, "", P - 1, |Pattern(line)|, 0);
    HitIff(data, line, P);
  }

  lemma BlankOnly(line: string, P: nat)
    requires Hit([NUL], line, P)
    ensures HasPattern(line) && CStr(Pattern(line)) == ""
  {
    HitMatches([NUL], line, P);
    OnlyZeros(CStr(Pattern(line)));
  }

  lemma OnlyZeros(needle: string)
    requires Occurs([NUL], needle)
    ensures forall i :: 0 <= i < |needle| ==> needle[i] == NUL
  {
    var o :| 0 <= o <= 1 && OccursAt([NUL], needle, o);
    assert forall i :: 0 <= i < |needle| ==> needle[i] == [NUL][o..o + |needle|][i];
  }

  /** Every file that is not empty is reported. */
  ghost predicate ReportsAll(lines: seq<string>, P: nat) {
    forall data: string :: data != "" ==> Infected(Unlines(lines), data, P)
  }

  lemma BlankReportsAll(lines: seq<string>, P: nat, k: nat)
    requires 3 <= P && GoodLines(lines, P) && BlankLine(lines, k)
    ensures ReportsAll(lines, P)
  {
    forall data: string | data != "" ensures Infected(Unlines(lines), data, P) {
      BlankHits(data, lines[k], P);
      assert HitLine(data, lines, k, P);
      InfectedIff(lines, data, P);
    }
  }

  /** That is so exactly when some reached line is such a blank one. */
  lemma EverythingReportedIff(lines: seq<string>, P: nat)
    requires 3 <= P && GoodLines(lines, P)
    ensures ReportsAll(lines, P) <==> exists k: nat :: BlankLine(lines, k)
  {
    if ReportsAll(lines, P) {
      assert Infected(Unlines(lines), [NUL], P);
      InfectedIff(lines, [NUL], P);
      var k: nat :| HitLine([NUL], lines, k, P);
      BlankOnly(lines[k], P);
      assert BlankLine(lines, k);
    }
    if k: nat :| BlankLine(lines, k) {
      BlankReportsAll(lines, P, k);
    }
  }

  // ----- a line out of reach

  lemma CommaHits(data: string, P: nat)
    requires 3 <= P
    ensures Hit(data, ",", P) <==> data != ""
  {
    assert Text(",") == "";
    if data != "" {
      BlankHits(data, ",", P);
    }
  }

  /** What the verdict is when an over-long line, or a last line without its line feed, stands behind
      `lines`: its pattern is lost, and if it starts with its comma every non-empty file is reported. */
  lemma OutOfReachLost(lines: seq<string>, rest: string, data: string, P: nat)
    requires 3 <= P && GoodLines(lines, P) && OutOfReach(rest, P)
    ensures Infected(Unlines(lines) + rest, data, P) <==>
            Infected(Unlines(lines), data, P) || (rest[0] == ',' && data != "" && AllCommas(lines, |lines|))
  {
    LinesInOrder(lines, P);
    var cut := LinesBeforeCut(lines, rest, P);
    if AllCommas(lines, |lines|) {
      CommaHits(data, P);
      assert cut[0] == [rest[0]];
      assert forall line :: line in Reached(lines) + cut <==> line in Reached(lines) || line in cut;
      if rest[0] == ',' {
        assert cut[0] in cut;
        assert data == "" ==> forall line :: !Hit(data, line, P);
      }
    }
  }

  /** A blacklist with a NUL in it is worth as much as if it ended there, with a line feed. */
  lemma NulEnds(lines: seq<string>, part: string, more: string, data: string, P: nat)
    requires GoodLines(lines, P) && GoodLine(part, P)
    ensures Infected(Unlines(lines) + (part + (['\0'] + more)), data, P) <==>
            Infected(Unlines(lines) + (part + (['\n'] + "")), data, P)
  {
    LinesBeforeNul(lines, part, more, P);
    LinesBeforeEnd(lines, part, '\n', "", P);
    WithBlank(Reached(lines), if AllCommas(lines, |lines|) then [part] else [], data, P);
  }

  lemma WithBlank(reached: seq<string>, last: seq<string>, data: string, P: nat)
    ensures (exists line <- reached + (last + [""]) :: Hit(data, line, P)) <==> exists line <- reached + last :: Hit(data, line, P)
    ensures last + [] == last
  {
    assert forall line :: line in reached + (last + [""]) <==> line in reached + last || line == "";
  }

  lemma TextsBehind(lines: seq<string>, cut: seq<string>, data: string, P: nat)
    requires cut != [] && TextOk(cut[0]) && (|cut| == 1 || Hit(data, cut[0], P))
    ensures AllTextsOk(lines + cut, data, P) <==> AllTextsOk(lines, data, P)
  {
    var all := lines + cut;
    assert all[|lines|] == cut[0] && forall i :: 0 <= i < |lines| ==> all[i] == lines[i];
  }

  /** The lines looked at up to the first hit can be decoded with such a line behind `lines` exactly when
      they can without it: what is looked at of it always can. */
  lemma OutOfReachTexts(lines: seq<string>, rest: string, data: string, P: nat)
    requires 3 <= P && GoodLines(lines, P) && OutOfReach(rest, P)
    requires rest[0] != ',' || data != ""
    ensures TextsOk(Unlines(lines) + rest, data, P) <==> TextsOk(Unlines(lines), data, P)
  {
    LinesInOrder(lines, P);
    var cut := LinesBeforeCut(lines, rest, P);
    if AllCommas(lines, |lines|) {
      CommaHits(data, P);
      assert Text(",") == "" && cut[0] == [rest[0]];
      TextsBehind(Reached(lines), cut, data, P);
    } else {
      assert Reached(lines) + [] == Reached(lines);
    }
  }
}
