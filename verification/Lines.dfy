/** A blacklist as a text file of lines: which of them the scanner looks at. */
module Lines {
  import opened CString
  import opened Blacklist

  /** The text file made of `lines`, each ended by a line feed. */
  function Unlines(lines: seq<string>): string {
    if lines == [] then [] else lines[0] + "\n" + Unlines(lines[1..])
  }

  /** A line that a text file can hold and that fits in a page together with its line feed. */
  predicate GoodLine(line: string, P: nat) {
    '\n' !in line && NUL !in line && |line| < P
  }

  predicate GoodLines(lines: seq<string>, P: nat) {
    forall i :: 0 <= i < |lines| ==> GoodLine(lines[i], P)
  }

  /** The lines up to and including the first one without a comma. */
  function Reached(lines: seq<string>): seq<string> {
    if lines == [] then []
    else if ',' !in lines[0] then [lines[0]]
    else [lines[0]] + Reached(lines[1..])
  }

  /** None of the first `k` lines ends the scan. */
  predicate AllCommas(lines: seq<string>, k: nat) {
    k <= |lines| && forall j :: 0 <= j < k ==> ',' in lines[j]
  }

  /** The lines reached when `tail` stands behind `lines`. */
  function ReachedThen(lines: seq<string>, tail: seq<string>): seq<string> {
    if lines == [] then tail
    else if ',' !in lines[0] then [lines[0]]
    else [lines[0]] + ReachedThen(lines[1..], tail)
  }

  lemma AllCommasStep(lines: seq<string>, k: nat)
    requires 0 < k <= |lines|
    ensures AllCommas(lines, k) <==> ',' in lines[0] && AllCommas(lines[1..], k - 1)
  {
    assert forall j :: 0 < j < k ==> lines[j] == lines[1..][j - 1];
  }

  lemma {:induction false} ReachedIs(lines: seq<string>, k: nat)
    requires k < |lines|
    ensures k < |Reached(lines)| <==> AllCommas(lines, k)
    ensures k < |Reached(lines)| ==> Reached(lines)[k] == lines[k]
    decreases k
  {
    if k > 0 {
      ReachedIs(lines[1..], k - 1);
      AllCommasStep(lines, k);
    }
  }

  lemma {:induction false} ReachedThenIs(lines: seq<string>, tail: seq<string>)
    ensures ReachedThen(lines, tail) == Reached(lines) + (if AllCommas(lines, |lines|) then tail else [])
    decreases |lines|
  {
    if lines != [] {
      AllCommasStep(lines, |lines|);
      ReachedThenIs(lines[1..], tail);
      var some := if AllCommas(lines[1..], |lines| - 1) then tail else [];
      assert [lines[0]] + (Reached(lines[1..]) + some) == [lines[0]] + Reached(lines[1..]) + some;
    }
  }

  lemma {:induction false} ReachedShorter(lines: seq<string>)
    ensures |Reached(lines)| <= |lines|
  {
    if lines != [] {
      ReachedShorter(lines[1..]);
    }
  }

  // ----- reading the lines off the file

  /** One line of the file, read off at its position. */
  lemma FirstLine(b: string, p: nat, line: string, rest: string, P: nat)
    requires p <= |b| && b[p..] == line + "\n" + rest && GoodLine(line, P)
    ensures p < |b| && Handed(b, p, P) == line && NextStart(b, p, P) == p + |line| + 1
    ensures b[p + |line| + 1..] == rest
  {
    var e := p + |line|;
    assert b[p..][|line|] == '\n';
    assert forall i :: 0 <= i < |line| ==> b[p + i] == b[p..][i] == line[i];
    assert forall i :: p <= i < e ==> b[i] == line[i - p];
    assert forall i :: p <= i < e ==> b[i] != '\n' && b[i] != NUL;
    assert b[p..e] == line;
    assert b[e + 1..] == b[p..][|line| + 1..];
  }

  /** The first of several lines, whatever stands behind them. */
  lemma UnlinesStep(b: string, p: nat, lines: seq<string>, rest: string, P: nat)
    requires lines != [] && p <= |b| && b[p..] == Unlines(lines) + rest && GoodLines(lines, P)
    ensures var next := p + |lines[0]| + 1;
            && p < next <= |b| && b[next..] == Unlines(lines[1..]) + rest
            && Handed(b, p, P) == lines[0] && NextStart(b, p, P) == next
  {
    assert b[p..] == lines[0] + "\n" + (Unlines(lines[1..]) + rest);
    FirstLine(b, p, lines[0], Unlines(lines[1..]) + rest, P);
  }

  lemma {:induction false} HandedStep(b: string, p: nat, P: nat, line: string, next: nat, tail: seq<string>)
    requires p < |b| && Handed(b, p, P) == line && NextStart(b, p, P) == next
    requires ',' in line ==> HandedLines(b, next, P) == tail
    ensures HandedLines(b, p, P) == if ',' in line then [line] + tail else [line]
  {
  }

  /** Lines that fit a page are looked at in order, whole, each once, whatever stands behind them. */
  lemma {:induction false} LinesThenRest(b: string, p: nat, lines: seq<string>, rest: string, P: nat)
    requires p <= |b| && b[p..] == Unlines(lines) + rest && GoodLines(lines, P)
    ensures |rest| <= |b| && HandedLines(b, p, P) == ReachedThen(lines, HandedLines(b, |b| - |rest|, P))
    decreases |lines|
  {
    if lines != [] {
      var next, later := p + |lines[0]| + 1, lines[1..];
      UnlinesStep(b, p, lines, rest, P);
      LinesThenRest(b, next, later, rest, P);
      HandedStep(b, p, P, lines[0], next, HandedLines(b, next, P));
    }
  }

  /** In a file of such lines the scanner looks at the file's own lines up to the first one without a comma. */
  lemma LinesInOrder(lines: seq<string>, P: nat)
    requires GoodLines(lines, P)
    ensures HandedLines(Unlines(lines), 0, P) == Reached(lines)
  {
    var b := Unlines(lines);
    assert b[0..] == b == b + "";
    LinesThenRest(b, 0, lines, "", P);
    ReachedThenIs(lines, []);
    assert Reached(lines) + [] == Reached(lines);
  }

  lemma {:induction false} ReachedPrefix(lines: seq<string>, k: nat)
    requires k <= |lines| && (forall j :: 0 <= j < k ==> ',' in lines[j]) && (k < |lines| ==> ',' !in lines[k])
    ensures Reached(lines) == lines[..if k < |lines| then k + 1 else k]
    decreases |lines|
  {
    if lines != [] {
      var later := lines[1..];
      assert lines == [lines[0]] + later;
      if k > 0 {
        ReachedPrefix(later, k - 1);
      }
    }
  }

  /** The same, line by line: with `k` the first line without a comma the first `k + 1` lines are looked at, and
      all of them when every line has one. */
  lemma LinesExact(lines: seq<string>, k: nat, P: nat)
    requires GoodLines(lines, P) && k <= |lines| && (forall j :: 0 <= j < k ==> ',' in lines[j])
    requires k < |lines| ==> ',' !in lines[k]
    ensures HandedLines(Unlines(lines), 0, P) == lines[..if k < |lines| then k + 1 else k]
  {
    LinesInOrder(lines, P);
    ReachedPrefix(lines, k);
  }

  // ----- a line out of reach

  /** No line end within a page: an over-long line, or a last line without a line feed. */
  predicate OutOfReach(rest: string, P: nat) {
    rest != [] && forall i :: 0 <= i < |rest| && i < P ==> rest[i] != '\n' && rest[i] != NUL
  }

  /** A last line without a line feed is one, of any length, and so is any line longer than a page. */
  lemma OutOfReachLines(rest: string, P: nat)
    requires rest != "" && forall i :: 0 <= i < |rest| && i < P ==> rest[i] != '\n' && rest[i] != '\0'
    ensures OutOfReach(rest, P)
  {
  }

  /** Such a line is handed over cut to its first character, which ends the scan unless it is a comma. */
  lemma {:induction false} CutToOne(b: string, rest: string, P: nat)
    requires |rest| <= |b| && b[|b| - |rest|..] == rest && OutOfReach(rest, P)
    ensures var handed := HandedLines(b, |b| - |rest|, P);
            if rest[0] == ',' then [","] <= handed else handed == [[rest[0]]]
  {
    var p := |b| - |rest|;
    var e := LineEnd(b, p);
    assert e < |b| ==> b[e] == rest[e - p];
    assert b[p] == rest[0];
    assert Handed(b, p, P) == [rest[0]];
  }

  /** The lines looked at when one out of reach stands behind `lines`. */
  lemma LinesBeforeCut(lines: seq<string>, rest: string, P: nat) returns (cut: seq<string>)
    requires GoodLines(lines, P) && OutOfReach(rest, P)
    ensures HandedLines(Unlines(lines) + rest, 0, P) == Reached(lines) + (if AllCommas(lines, |lines|) then cut else [])
    ensures if rest[0] == ',' then [","] <= cut else cut == [[rest[0]]]
  {
    var b := Unlines(lines) + rest;
    assert b[0..] == b;
    LinesThenRest(b, 0, lines, rest, P);
    CutToOne(b, rest, P);
    cut := HandedLines(b, |b| - |rest|, P);
    ReachedThenIs(lines, cut);
  }

  // ----- a NUL in the blacklist

  /** What is handed over of a line that a NUL or a line feed ends, and from there on. */
  lemma {:induction false} EndedLine(b: string, part: string, end: char, more: string, P: nat)
    requires var rest := part + ([end] + more); |rest| <= |b| && b[|b| - |rest|..] == rest
    requires GoodLine(part, P) && (end == NUL || (end == '\n' && more == ""))
    ensures HandedLines(b, |b| - |part + ([end] + more)|, P) == [part] + (if end == NUL && ',' in part then [""] else [])
  {
    var rest := part + ([end] + more);
    var p := |b| - |rest|;
    var q := p + |part|;
    assert forall i :: p <= i < q ==> b[i] == rest[i - p] == part[i - p];
    assert b[q] == rest[|part|] == end;
    assert LineEnd(b, p) == q && b[p..q] == part;
    if end == NUL {
      assert LineEnd(b, q) == q;
      assert HandedLines(b, q, P) == [""];
    } else {
      assert HandedLines(b, q + 1, P) == [];
    }
  }

  /** The lines looked at when something stands behind good lines. */
  lemma LinesThen(b: string, lines: seq<string>, rest: string, P: nat)
    requires GoodLines(lines, P) && b == Unlines(lines) + rest
    ensures HandedLines(b, 0, P) == Reached(lines) + (if AllCommas(lines, |lines|) then HandedLines(b, |b| - |rest|, P) else [])
  {
    assert b[0..] == b;
    LinesThenRest(b, 0, lines, rest, P);
    ReachedThenIs(lines, HandedLines(b, |b| - |rest|, P));
  }

  lemma LinesBeforeEnd(lines: seq<string>, part: string, end: char, more: string, P: nat)
    requires GoodLines(lines, P) && GoodLine(part, P) && (end == NUL || (end == '\n' && more == ""))
    ensures HandedLines(Unlines(lines) + (part + ([end] + more)), 0, P) ==
            Reached(lines) + (if AllCommas(lines, |lines|) then [part] + (if end == NUL && ',' in part then [""] else []) else [])
  {
    var rest := part + ([end] + more);
    var b := Unlines(lines) + rest;
    LinesThen(b, lines, rest, P);
    assert b[|b| - |rest|..] == rest;
    EndedLine(b, part, end, more, P);
  }

  /** A NUL ends the line in front of it, and then the scan: what stands behind it is not looked at. */
  lemma LinesBeforeNul(lines: seq<string>, part: string, more: string, P: nat)
    requires GoodLines(lines, P) && GoodLine(part, P)
    ensures HandedLines(Unlines(lines) + (part + (['\0'] + more)), 0, P) ==
            Reached(lines) + (if AllCommas(lines, |lines|) then [part] + (if ',' in part then [""] else []) else [])
  {
    LinesBeforeEnd(lines, part, NUL, more, P);
  }
}
