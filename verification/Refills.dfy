/** Which blacklists can be scanned: when no refill fills the page to the brim with whole lines. */
module Refills {
  import opened CString
  import opened Blacklist
  import opened Lines
  import Verdicts

  // ----- packing lines into pages

  /** Where line `i` starts in the file of `lines`. */
  function StartOf(lines: seq<string>, i: nat): nat
    requires i <= |lines|
  {
    if i == 0 then 0 else StartOf(lines, i - 1) + |lines[i - 1]| + 1
  }

  /** Putting whole lines from line `i` on into a page of `P` characters of which `used` are taken,
      until the next one does not fit: the characters then taken, and the first line left. */
  function Pack(lines: seq<string>, i: nat, used: nat, P: nat): (r: (nat, nat))
    requires i <= |lines|
    ensures i <= r.1 <= |lines| && r.0 - used == StartOf(lines, r.1) - StartOf(lines, i)
    ensures r.1 < |lines| ==> r.0 + |lines[r.1]| + 1 > P
    ensures used <= P ==> r.0 <= P
    ensures i < |lines| && used + |lines[i]| + 1 <= P ==> r.1 > i && r.0 > used
    decreases |lines| - i
  {
    if i == |lines| || used + |lines[i]| + 1 > P then (used, i)
    else Pack(lines, i + 1, used + |lines[i]| + 1, P)
  }

  /** None of the lines `i` to `j` ends the scan. */
  ghost predicate GoesOn(data: string, lines: seq<string>, i: nat, j: nat, P: nat) {
    j <= |lines| && forall k :: i <= k < j ==> !EndsScan(data, lines[k], P)
  }

  /** Packing the lines page after page never fills a page to the brim, up to the page in which the
      scan of `data` ends. */
  ghost predicate NeverBrimful(data: string, lines: seq<string>, i: nat, P: nat)
    requires GoodLines(lines, P) && i <= |lines|
    decreases |lines| - i
  {
    i == |lines| ||
    var (used, j) := Pack(lines, i, 0, P);
    used < P && (GoesOn(data, lines, i, j, P) ==> NeverBrimful(data, lines, j, P))
  }

  // ----- the lines at their places in the file

  ghost predicate LaidAt(b: string, lines: seq<string>, i: nat, P: nat) {
    && i < |lines|
    && var p, e := StartOf(lines, i), StartOf(lines, i) + |lines[i]|;
       && StartOf(lines, i + 1) == e + 1 <= |b|
       && Handed(b, p, P) == lines[i] && NextStart(b, p, P) == e + 1
       && b[e] == '\n' && forall k :: p <= k < e ==> b[k] != '\n'
  }

  /** The lines stand at their places. */
  ghost predicate InPlace(b: string, lines: seq<string>, P: nat) {
    forall i :: 0 <= i < |lines| ==> LaidAt(b, lines, i, P)
  }

  /** No NUL up to a page behind `s`, and no line feed in that page. */
  ghost predicate NoEndBehind(b: string, s: nat, P: nat) {
    && s <= |b|
    && (forall k :: 0 <= k < |b| && k < s + P ==> b[k] != NUL)
    && (forall k :: s <= k < |b| && k < s + P ==> b[k] != '\n')
  }

  /** The lines stand at their places, and behind them no line end is within a page. */
  ghost predicate Laid(b: string, lines: seq<string>, P: nat) {
    InPlace(b, lines, P) && NoEndBehind(b, StartOf(lines, |lines|), P)
  }

  lemma {:induction false} UnlinesAt(lines: seq<string>, rest: string, i: nat, P: nat)
    requires i <= |lines| && GoodLines(lines, P)
    ensures var b := Unlines(lines) + rest;
            && StartOf(lines, i) <= |b| && b[StartOf(lines, i)..] == Unlines(lines[i..]) + rest
            && (i < |lines| ==> LaidAt(b, lines, i, P))
    decreases i
  {
    var b, p := Unlines(lines) + rest, StartOf(lines, i);
    if i == 0 {
      assert lines[0..] == lines && b[0..] == b;
    } else {
      UnlinesAt(lines, rest, i - 1, P);
      FirstOf(b, StartOf(lines, i - 1), lines, rest, i - 1, P);
    }
    if i < |lines| {
      FirstOf(b, p, lines, rest, i, P);
    }
  }

  lemma FirstOf(b: string, p: nat, lines: seq<string>, rest: string, i: nat, P: nat)
    requires i < |lines| && GoodLines(lines, P) && p <= |b| && b[p..] == Unlines(lines[i..]) + rest
    ensures var e := p + |lines[i]|;
            && e < |b| && b[e + 1..] == Unlines(lines[i + 1..]) + rest
            && Handed(b, p, P) == lines[i] && NextStart(b, p, P) == e + 1
            && b[e] == '\n' && forall k :: p <= k < e ==> b[k] != '\n'
  {
    var line, later, e := lines[i], Unlines(lines[i + 1..]) + rest, p + |lines[i]|;
    assert lines[i..][1..] == lines[i + 1..];
    assert b[p..] == line + "\n" + later;
    FirstLine(b, p, line, later, P);
    assert b[e] == b[p..][|line|] == '\n';
    assert forall k :: p <= k < e ==> b[k] == b[p..][k - p] == line[k - p];
  }

  lemma {:induction false} NulFree(lines: seq<string>, P: nat)
    requires GoodLines(lines, P)
    ensures NUL !in Unlines(lines)
  {
    if lines != [] {
      NulFree(lines[1..], P);
    }
  }

  lemma TailFree(front: string, rest: string, P: nat)
    requires NUL !in front && (rest == "" || OutOfReach(rest, P))
    ensures NoEndBehind(front + rest, |front|, P)
  {
    var b, n := front + rest, |front|;
    assert forall k :: 0 <= k < |b| ==> b[k] == if k < n then front[k] else rest[k - n];
  }

  lemma UnlinesLaid(lines: seq<string>, rest: string, P: nat)
    requires GoodLines(lines, P) && (rest == "" || OutOfReach(rest, P))
    ensures StartOf(lines, |lines|) == |Unlines(lines)| && Laid(Unlines(lines) + rest, lines, P)
  {
    var b := Unlines(lines) + rest;
    NulFree(lines, P);
    TailFree(Unlines(lines), rest, P);
    forall i | 0 <= i <= |lines| ensures i < |lines| ==> LaidAt(b, lines, i, P) {
      UnlinesAt(lines, rest, i, P);
    }
    UnlinesAt(lines, rest, |lines|, P);
    assert lines[|lines|..] == [];
    assert |b| - StartOf(lines, |lines|) == |rest|;
  }

  lemma {:induction false} StartsGrow(lines: seq<string>, i: nat, j: nat)
    requires i <= j <= |lines|
    ensures StartOf(lines, i) + (j - i) <= StartOf(lines, j)
    decreases j
  {
    if i < j {
      StartsGrow(lines, i, j - 1);
    }
  }

  // ----- one refill

  lemma LineAt(b: string, lines: seq<string>, i: nat, p: nat, P: nat)
    requires InPlace(b, lines, P) && i < |lines| && p == StartOf(lines, i)
    ensures p < |b| && Handed(b, p, P) == lines[i] && NextStart(b, p, P) == StartOf(lines, i + 1)
  {
    assert LaidAt(b, lines, i, P);
  }

  lemma LineInPage(b: string, lines: seq<string>, j: nat, q: nat, P: nat)
    requires InPlace(b, lines, P) && j < |lines| && q == StartOf(lines, j)
    ensures var e := q + |lines[j]|;
            && e < |b| && b[e] == '\n' && StartOf(lines, j + 1) == e + 1
            && forall k :: q <= k < e ==> b[k] != '\n'
  {
    assert LaidAt(b, lines, j, P);
  }

  /** A page whose last line feed is in front of `q` is cut there. */
  lemma CutBefore(b: string, p: nat, q: nat, P: nat)
    requires p < q <= |b| && q - p <= P && b[q - 1] == '\n'
    requires forall k :: p <= k < |b| && k < p + P ==> b[k] != NUL
    requires forall k :: q <= k < |b| && k < p + P ==> b[k] != '\n'
    ensures Kept(b, p, P) == q - p && (BadRefill(b, p, P) <==> q - p == P)
  {
    assert AfterBreak(b, p, PageEnd(b, p, P)) == q;
  }

  lemma FeedBefore(b: string, lines: seq<string>, j: nat, q: nat, P: nat)
    requires InPlace(b, lines, P) && 0 < j <= |lines| && q == StartOf(lines, j)
    ensures 0 < q <= |b| && b[q - 1] == '\n'
  {
    LineInPage(b, lines, j - 1, StartOf(lines, j - 1), P);
  }

  /** Line `j`, if there is one, starts at `q` and reaches to `end` or beyond without a line feed. */
  lemma NoFeedBehind(b: string, lines: seq<string>, j: nat, q: nat, end: nat, P: nat)
    requires Laid(b, lines, P) && j <= |lines| && q == StartOf(lines, j)
    requires end <= q + (if j < |lines| then |lines[j]| else P)
    ensures forall k :: q <= k < |b| && k < end ==> b[k] != '\n'
  {
    if j < |lines| {
      LineInPage(b, lines, j, q, P);
    }
  }

  /** The refill at `p` keeps the lines that end at `q`, where line `j` starts, when those fit the page and
      line `j`, if there is one, does not. */
  lemma PageFull(b: string, lines: seq<string>, p: nat, j: nat, q: nat, P: nat)
    requires Laid(b, lines, P) && 0 < j <= |lines| && q == StartOf(lines, j)
    requires p < q <= |b| && q - p <= P && (j < |lines| ==> q - p + |lines[j]| + 1 > P)
    ensures Kept(b, p, P) == q - p && (BadRefill(b, p, P) <==> q - p == P)
  {
    FeedBefore(b, lines, j, q, P);
    StartsGrow(lines, j, |lines|);
    NoFeedBehind(b, lines, j, q, p + P, P);
    CutBefore(b, p, q, P);
  }

  lemma GoesOnStep(data: string, lines: seq<string>, i: nat, j: nat, P: nat, ends: bool)
    requires i < j <= |lines| && EndsScan(data, lines[i], P) == ends
    ensures GoesOn(data, lines, i, j, P) <==> !ends && GoesOn(data, lines, i + 1, j, P)
  {
  }

  lemma GoesOnSplit(data: string, lines: seq<string>, i: nat, j: nat, P: nat)
    requires i <= j <= |lines|
    ensures GoesOn(data, lines, i, |lines|, P) <==> GoesOn(data, lines, i, j, P) && GoesOn(data, lines, j, |lines|, P)
  {
  }

  /** The scan ends in the page exactly when one of its lines ends it. */
  lemma {:induction false} EndsIn(b: string, data: string, lines: seq<string>, i: nat, p: nat, j: nat, q: nat, P: nat)
    requires InPlace(b, lines, P) && i <= j <= |lines|
    requires p == StartOf(lines, i) && q == StartOf(lines, j) && p <= q <= |b|
    ensures EndsWithin(b, data, p, q, P) <==> !GoesOn(data, lines, i, j, P)
    decreases j - i
  {
    if i < j {
      var next, ends := StartOf(lines, i + 1), EndsScan(data, lines[i], P);
      StartsGrow(lines, i + 1, j);
      LineAt(b, lines, i, p, P);
      EndsStep(b, data, p, q, P, next, ends);
      EndsIn(b, data, lines, i + 1, next, j, q, P);
      GoesOnStep(data, lines, i, j, P, ends);
    }
  }

  lemma {:induction false} RefillsOkFrom(b: string, data: string, lines: seq<string>, i: nat, P: nat)
    requires 0 < P && GoodLines(lines, P) && Laid(b, lines, P) && i <= |lines| && StartOf(lines, i) <= |b|
    ensures StartOf(lines, |lines|) <= |b|
    ensures RefillsOk(b, data, StartOf(lines, i), P) <==>
            && NeverBrimful(data, lines, i, P)
            && (GoesOn(data, lines, i, |lines|, P) ==> RefillsOk(b, data, StartOf(lines, |lines|), P))
    decreases |lines| - i
  {
    if i < |lines| {
      var (used, j) := Pack(lines, i, 0, P);
      StartsGrow(lines, i, j);
      StartsGrow(lines, j, |lines|);
      var p, q := StartOf(lines, i), StartOf(lines, j);
      PageFull(b, lines, p, j, q, P);
      EndsIn(b, data, lines, i, p, j, q, P);
      OnePage(b, data, p, q, P, !GoesOn(data, lines, i, j, P), used == P);
      RefillsOkFrom(b, data, lines, j, P);
      GoesOnSplit(data, lines, i, j, P);
    }
  }

  /** A file can be scanned for a blacklist of good lines without running over the page exactly when
      packing the lines into pages, up to the one in which the scan ends, never fills one to the brim. */
  lemma RefillsOkIff(data: string, lines: seq<string>, P: nat)
    requires 0 < P && GoodLines(lines, P)
    ensures RefillsOk(Unlines(lines), data, 0, P) <==> NeverBrimful(data, lines, 0, P)
  {
    UnlinesLaid(lines, "", P);
    assert Unlines(lines) + "" == Unlines(lines);
    RefillsOkFrom(Unlines(lines), data, lines, 0, P);
  }

  /** The scan of the empty file, which has no hits, makes the most refills. */
  lemma {:induction false} EmptyFileWorst(data: string, lines: seq<string>, i: nat, P: nat)
    requires GoodLines(lines, P) && i <= |lines| && NeverBrimful("", lines, i, P)
    ensures NeverBrimful(data, lines, i, P)
    decreases |lines| - i
  {
    if i < |lines| {
      var (used, j) := Pack(lines, i, 0, P);
      forall k | i <= k < j && EndsScan("", lines[k], P) ensures EndsScan(data, lines[k], P) {
      }
      if GoesOn(data, lines, i, j, P) {
        assert GoesOn("", lines, i, j, P);
        EmptyFileWorst(data, lines, j, P);
      }
    }
  }

  /** So packing without regard to hits says which blacklists are safe for every file. */
  lemma SafeForEveryFileIff(lines: seq<string>, P: nat)
    requires 0 < P && GoodLines(lines, P)
    ensures (forall data: string :: RefillsOk(Unlines(lines), data, 0, P)) <==> NeverBrimful("", lines, 0, P)
  {
    RefillsOkIff("", lines, P);
    if NeverBrimful("", lines, 0, P) {
      forall data: string ensures RefillsOk(Unlines(lines), data, 0, P) {
        RefillsOkIff(data, lines, P);
        EmptyFileWorst(data, lines, 0, P);
      }
    }
  }

  /** A single line that takes up the whole page is enough: the page read from that blacklist is left
      without a terminator. */
  lemma {:induction false} FullPageBreaks(data: string, line: string, P: nat)
    requires GoodLine(line, P) && |line| + 1 == P
    ensures var b := Unlines([line]);
            !RefillsOk(b, data, 0, P) && PageEnd(b, 0, P) == |b| == P && NUL !in Ended(b, P)
  {
    RefillsOkIff(data, [line], P);
    assert Pack([line], 1, P, P) == (P, 1);
    var b := Unlines([line]);
    assert [line][1..] == [] && b == line + "\n";
    assert LastEnd(b, P - 1) == P - 1;
  }

  /** A line without a comma on an earlier page keeps a brimful page from being read. */
  lemma {:induction false} EndsBeforeFullPage(data: string, line: string, full: string, P: nat)
    requires GoodLine(full, P) && |full| + 1 == P
    requires GoodLine(line, P) && |line| + 1 < P && ',' !in line
    ensures RefillsOk(Unlines([line, full]), data, 0, P)
  {
    RefillsOkIff(data, [line, full], P);
    assert Pack([line, full], 1, |line| + 1, P) == (|line| + 1, 1);
  }

  // ----- blacklists with a line out of reach

  /** Such a line makes one more refill, of one character, and ends the scan unless it starts with its
      comma and the file is empty. */
  lemma {:induction false} RefillAtCut(b: string, data: string, p: nat, P: nat)
    requires 3 <= P && p < |b| && OutOfReach(b[p..], P)
    ensures RefillsOk(b, data, p, P) <==> (b[p] == ',' && data == "" ==> RefillsOk(b, data, p + 1, P))
  {
    var rest := b[p..];
    CutToOne(b, rest, P);
    assert forall k :: p <= k < |b| ==> b[k] == rest[k - p];
    assert Handed(b, p, P) == [b[p]] by {
      assert LineEnd(b, p) < |b| ==> b[LineEnd(b, p)] == rest[LineEnd(b, p) - p];
    }
    assert Kept(b, p, P) == 1 && !BadRefill(b, p, P);
    Verdicts.CommaHits(data, P);
    var ends := EndsScan(data, [b[p]], P);
    assert ends <==> !(b[p] == ',' && data == "") by {
      assert b[p] == ',' ==> [b[p]] == ",";
    }
    EndsStep(b, data, p, p + 1, P, NextStart(b, p, P), ends);
    OnePage(b, data, p, p + 1, P, ends, false);
  }

  /** When the scanner can be run on good lines with one out of reach behind them: for a non-empty file, or
      when that line does not start with its comma, exactly when it can be run on the good lines. */
  lemma OutOfReachRuns(data: string, lines: seq<string>, rest: string, P: nat)
    requires 3 <= P && GoodLines(lines, P) && OutOfReach(rest, P)
    requires rest[0] != ',' || data != ""
    ensures RefillsOk(Unlines(lines) + rest, data, 0, P) <==> NeverBrimful(data, lines, 0, P)
    ensures TextsOk(Unlines(lines) + rest, data, P) <==> TextsOk(Unlines(lines), data, P)
  {
    var b, p := Unlines(lines) + rest, |Unlines(lines)|;
    UnlinesLaid(lines, rest, P);
    RefillsOkFrom(b, data, lines, 0, P);
    assert b[p..] == rest;
    RefillAtCut(b, data, p, P);
    Verdicts.OutOfReachTexts(lines, rest, data, P);
  }
}
