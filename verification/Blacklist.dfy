/** The blacklist scanner `check_in_blacklist`: the blacklist is streamed through one page,
    cut at line ends, tokenised in place and decoded; the input file is searched for every
    decoded pattern. */
module Blacklist {
  import opened Wrappers
  import opened CString
  import opened FileModel
  import HexText
  import PageScan

  // ----- the lines of a blacklist, position by position

  /** The first line feed or NUL at or after `p`. */
  function LineEnd(b: string, p: nat): (e: nat)
    requires p <= |b|
    ensures p <= e <= |b|
    ensures e < |b| ==> b[e] == '\n' || b[e] == NUL
    ensures forall i :: p <= i < e ==> b[i] != '\n' && b[i] != NUL
    decreases |b| - p
  {
    if p == |b| || b[p] == '\n' || b[p] == NUL then p else LineEnd(b, p + 1)
  }

  /** The line at `p` is terminated, and within one page of its start. */
  predicate Fits(b: string, p: nat, P: nat)
    requires p <= |b|
  {
    LineEnd(b, p) < |b| && LineEnd(b, p) - p < P
  }

  /** Where the line handed over for `p` ends: one character on, when no line end is in reach. */
  function HandedEnd(b: string, p: nat, P: nat): (e: nat)
    requires p < |b|
    ensures p <= e <= |b|
  {
    if Fits(b, p, P) then LineEnd(b, p) else p + 1
  }

  function Handed(b: string, p: nat, P: nat): string
    requires p < |b|
  {
    b[p..HandedEnd(b, p, P)]
  }

  function NextStart(b: string, p: nat, P: nat): (n: nat)
    requires p < |b|
    ensures p <= n <= |b|
    ensures HandedEnd(b, p, P) > p ==> n > p
  {
    if Fits(b, p, P) && b[LineEnd(b, p)] == '\n' then LineEnd(b, p) + 1 else HandedEnd(b, p, P)
  }

  /** Every line the scanner looks at from `p` on; the first one without a comma ends the scan. */
  function HandedLines(b: string, p: nat, P: nat): seq<string>
    requires p <= |b|
    decreases |b| - p
  {
    if p == |b| then []
    else if ',' !in Handed(b, p, P) then [Handed(b, p, P)]
    else [Handed(b, p, P)] + HandedLines(b, NextStart(b, p, P), P)
  }

  /** The hex text of a line: all that follows its first comma. */
  function Text(line: string): string
    requires ',' in line
  {
    line[IndexOf(line, ',') + 1..]
  }

  predicate TextOk(line: string) {
    ',' in line ==> HexText.Decodable(Text(line), 0)
  }

  /** A line's pattern is seen by the paged search of `data`. */
  ghost predicate Hit(data: string, line: string, P: nat) {
    && ',' in line && HexText.Decodable(Text(line), 0)
    && var pattern := HexText.Decode(Text(line));
       |pattern| + 1 < P && PageScan.Seen(data, CStr(pattern), P - 1, |pattern|)
  }

  /** The verdict of the scanner. */
  ghost predicate Infected(b: string, data: string, P: nat) {
    exists line <- HandedLines(b, 0, P) :: Hit(data, line, P)
  }

  /** The scan ends with this line: it has no comma, or it is a hit. */
  ghost predicate EndsScan(data: string, line: string, P: nat) {
    ',' !in line || Hit(data, line, P)
  }

  /** Every line before the first hit, and the hit, can be decoded. */
  ghost predicate AllTextsOk(lines: seq<string>, data: string, P: nat) {
    forall i :: 0 <= i < |lines| && (forall j :: 0 <= j < i ==> !Hit(data, lines[j], P)) ==> TextOk(lines[i])
  }

  /** Every line that is looked at can be decoded. */
  ghost predicate TextsOk(b: string, data: string, P: nat) {
    AllTextsOk(HandedLines(b, 0, P), data, P)
  }

  // ----- refills

  /** Where the page read at `p` ends. */
  function PageEnd(b: string, p: nat, P: nat): (e: nat)
    requires p <= |b|
    ensures p <= e <= |b|
  {
    if |b| - p <= P then |b| else p + P
  }

  /** Index just after the last line feed in `b[lo..hi]`, `lo` when there is none. */
  function AfterBreak(b: string, lo: nat, hi: nat): (n: nat)
    requires lo <= hi <= |b|
    ensures lo <= n <= hi
    ensures n > lo ==> b[n - 1] == '\n'
    ensures forall i :: n <= i < hi ==> b[i] != '\n'
    decreases hi - lo
  {
    if lo == hi || b[hi - 1] == '\n' then hi else AfterBreak(b, lo, hi - 1)
  }

  /** How much of the page `b[lo..hi]` is kept: up to its first NUL, else through its last line feed,
      else one character. */
  function Cut(b: string, lo: nat, hi: nat): (n: nat)
    requires lo < hi <= |b|
    ensures n <= hi - lo
  {
    if FindChar(b, lo, hi, NUL) < hi then FindChar(b, lo, hi, NUL) - lo
    else if AfterBreak(b, lo, hi) > lo then AfterBreak(b, lo, hi) - lo
    else 1
  }

  /** A page filled to the brim whose last character is its last line feed: no room is left
      for the terminator. */
  predicate Brimful(b: string, lo: nat, hi: nat, P: nat)
    requires lo < hi <= |b|
  {
    hi - lo == P && b[hi - 1] == '\n' && FindChar(b, lo, hi, NUL) == hi
  }

  /** How much the refill at `p` keeps. */
  function Kept(b: string, p: nat, P: nat): (n: nat)
    requires p < |b| && 0 < P
    ensures p + n <= |b|
  {
    Cut(b, p, PageEnd(b, p, P))
  }

  /** The refill at `p` fills the page to the brim. */
  predicate BadRefill(b: string, p: nat, P: nat)
    requires p < |b| && 0 < P
  {
    Brimful(b, p, PageEnd(b, p, P), P)
  }

  /** A page is cut the same way seen as a string of its own. */
  lemma CutShift(b: string, lo: nat, hi: nat, P: nat)
    requires lo < hi <= |b|
    ensures Cut(b[lo..hi], 0, hi - lo) == Cut(b, lo, hi)
    ensures Brimful(b[lo..hi], 0, hi - lo, P) <==> Brimful(b, lo, hi, P)
  {
    var page, n := b[lo..hi], hi - lo;
    assert forall i :: lo <= i < hi ==> page[i - lo] == b[i];
    var z, y := FindChar(b, lo, hi, NUL), FindChar(page, 0, n, NUL);
    assert z - lo == y by {
      assert z < hi ==> page[z - lo] == NUL;
      assert y < n ==> b[lo + y] == page[y];
    }
    var l, k := AfterBreak(b, lo, hi), AfterBreak(page, 0, n);
    assert l - lo == k by {
      assert l > lo ==> page[l - 1 - lo] == '\n';
      assert k > 0 ==> b[lo + k - 1] == page[k - 1];
    }
  }

  /** Between `cur` and `fp` stands a line that ends the scan. */
  ghost predicate EndsWithin(b: string, data: string, cur: nat, fp: nat, P: nat)
    requires cur <= |b|
    decreases |b| - cur
  {
    cur < fp && cur < |b| && (EndsScan(data, Handed(b, cur, P), P) || EndsWithin(b, data, NextStart(b, cur, P), fp, P))
  }

  /** Neither the refill at `p` nor one that the scan of `data` makes after it is a bad one. */
  ghost predicate RefillsOk(b: string, data: string, p: nat, P: nat)
    requires p <= |b| && 0 < P
    decreases |b| - p, 1
  {
    p == |b| || (!BadRefill(b, p, P) && RefillsBehind(b, data, p, p + Kept(b, p, P), P))
  }

  /** The same for the refills behind a page that keeps `b[p..q]`. */
  ghost predicate RefillsBehind(b: string, data: string, p: nat, q: nat, P: nat)
    requires p <= q <= |b| && 0 < P
    decreases |b| - p, 0
  {
    p == q || EndsWithin(b, data, p, q, P) || RefillsOk(b, data, q, P)
  }

  /** The same, with the next line at `cur` and the page kept up to `fp`. */
  ghost predicate RefillsAhead(b: string, data: string, cur: nat, fp: nat, P: nat)
    requires cur <= fp <= |b| && 0 < P
  {
    EndsWithin(b, data, cur, fp, P) || RefillsOk(b, data, fp, P)
  }

  /** How far the page is kept when the line at `cur` is cut off: a page used up is refilled first. */
  function KeptTo(b: string, cur: nat, fp: nat, P: nat): (n: nat)
    requires cur <= fp <= |b| && cur < |b| && 0 < P
    ensures n <= |b|
  {
    if cur < fp then fp else cur + Kept(b, cur, P)
  }

  // ----- `remove_garbage_value`

  /** The last line end of a buffer at or before `i`, or 0. */
  function LastEnd(buf: string, i: nat): (e: nat)
    requires i < |buf|
    ensures e <= i && (e > 0 ==> buf[e] == '\n' || buf[e] == NUL)
    ensures forall k :: e < k <= i ==> buf[k] != '\n' && buf[k] != NUL
  {
    if i == 0 || buf[i] == '\n' || buf[i] == NUL then i else LastEnd(buf, i - 1)
  }

  /** A buffer whose first `size` characters were read, after the step that puts in a terminator. */
  function Ended(buf: string, size: nat): (e: string)
    requires 0 < size <= |buf|
    ensures |e| == |buf|
  {
    var i := LastEnd(buf, size - 1);
    if i + 1 < |buf| && buf[i] != NUL then buf[i + 1 := NUL] else buf
  }

  /** The step leaves a terminator in the buffer, and so a string that `strlen` can measure, exactly when
      the page does not fill it to the brim. */
  lemma EndedIff(buf: string, size: nat)
    requires 0 < size <= |buf| && |buf| > 1
    ensures NUL in Ended(buf, size) <==> !Brimful(buf, 0, size, |buf|)
  {
    var i, z, e := LastEnd(buf, size - 1), FindChar(buf, 0, size, NUL), Ended(buf, size);
    if z < size {
      assert e[z] == NUL;
    } else if i + 1 < |buf| {
      assert e[i + 1] == NUL;
    }
  }

  /** The same for the page that is read at position `p` of a blacklist. */
  lemma UnterminatedIff(b: string, p: nat, buf: string)
    requires p < |b| && |buf| > 1
    requires var n := PageEnd(b, p, |buf|) - p; n <= |buf| && buf[..n] == b[p..p + n]
    ensures NUL in Ended(buf, PageEnd(b, p, |buf|) - p) <==> !BadRefill(b, p, |buf|)
  {
    var n := PageEnd(b, p, |buf|) - p;
    EndedIff(buf, n);
    CutShift(buf, 0, n, |buf|);
    CutShift(b, p, p + n, |buf|);
  }

  /** What the step leaves when it leaves a terminator. */
  lemma EndedKeeps(buf: string, size: nat)
    requires 0 < size <= |buf| && |buf| > 1 && !Brimful(buf, 0, size, |buf|)
    ensures var n, e := Cut(buf, 0, size), Ended(buf, size);
            n < |buf| && e[n] == NUL && e[..n] == buf[..n] && NUL !in e[..n]
  {
    var i, z := LastEnd(buf, size - 1), FindChar(buf, 0, size, NUL);
    assert z < size ==> z <= i;
    assert z == size ==> Cut(buf, 0, size) == i + 1;
  }

  /** The first part of `remove_garbage_value`: look back for the last line end and put a terminator behind it. */
  method EndPage(data: array<char>, size: nat)
    requires 0 < size <= data.Length
    modifies data
    ensures data[..] == Ended(old(data[..]), size)
  {
    ghost var buf := data[..];
    var i := size - 1;
    if data[i] != '\n' && data[i] != NUL {
      while i > 0
        invariant 0 <= i < size && LastEnd(buf, i) == LastEnd(buf, size - 1)
      {
        if data[i] == '\n' || data[i] == NUL {
          break;
        }
        i := i - 1;
      }
    }
    if i + 1 < data.Length && data[i] != NUL {
      i := i + 1;
      data[i] := NUL;
    }
  }

  /** `remove_garbage_value`: terminate the page after its last line end and report what is kept. */
  method RemoveGarbageValue(data: array<char>, size: nat) returns (len: nat)
    requires 0 < size <= data.Length && !Brimful(data[..size], 0, size, data.Length)
    requires data.Length > 1
    modifies data
    ensures len == Cut(old(data[..size]), 0, size)
    ensures len < data.Length && data[..len] == old(data[..len]) && data[len] == NUL && NUL !in data[..len]
  {
    ghost var buf := data[..];
    assert data[..size] == buf[0..size];
    CutShift(buf, 0, size, data.Length);
    EndedKeeps(buf, size);
    EndPage(data, size);
    len := StrLen(data[..]);
    StrLenIs(data[..], Cut(buf, 0, size));
  }

  // ----- what is left in the work buffer

  /** The page keeps `b[cur..fp]`: whole lines, or one that a NUL ends, or the single character kept
      of a line that does not fit. */
  ghost predicate Loaded(b: string, cur: nat, fp: nat, P: nat) {
    && cur <= fp <= |b| && fp - cur < P
    && (forall k :: cur <= k < fp ==> b[k] != NUL)
    && (cur == fp || b[fp - 1] == '\n' || (fp < |b| && b[fp] == NUL) || (fp == cur + 1 && !Fits(b, cur, P)))
  }

  /** A refill leaves the page loaded, and empty only in front of a NUL. */
  lemma RefillLoads(b: string, p: nat, P: nat)
    requires p < |b| && 1 < P && !BadRefill(b, p, P)
    ensures Loaded(b, p, p + Kept(b, p, P), P) && (Kept(b, p, P) == 0 ==> b[p] == NUL)
  {
    assert LineEnd(b, p) < PageEnd(b, p, P) ==> Fits(b, p, P);
  }

  lemma {:induction false} EndsStep(b: string, data: string, p: nat, q: nat, P: nat, next: nat, ends: bool)
    requires p < q <= |b| && EndsScan(data, Handed(b, p, P), P) == ends && NextStart(b, p, P) == next
    ensures EndsWithin(b, data, p, q, P) <==> ends || EndsWithin(b, data, next, q, P)
  {
  }

  lemma {:induction false} RefillsInside(b: string, data: string, cur: nat, fp: nat, P: nat)
    requires cur < fp <= |b| && 0 < P && RefillsAhead(b, data, cur, fp, P) && !EndsScan(data, Handed(b, cur, P), P)
    ensures NextStart(b, cur, P) <= fp ==> RefillsAhead(b, data, NextStart(b, cur, P), fp, P)
  {
    EndsStep(b, data, cur, fp, P, NextStart(b, cur, P), false);
  }

  /** One page settles one refill. */
  lemma {:induction false} OnePage(b: string, data: string, p: nat, q: nat, P: nat, ends: bool, bad: bool)
    requires 0 < P && p < q <= |b| && Kept(b, p, P) == q - p
    requires EndsWithin(b, data, p, q, P) == ends && BadRefill(b, p, P) == bad
    ensures RefillsOk(b, data, p, P) <==> !bad && (ends || RefillsOk(b, data, q, P))
  {
  }

  lemma NoneKept(b: string, p: nat, P: nat)
    requires p < |b| && 0 < P && Kept(b, p, P) == 0
    ensures b[p] == NUL && !BadRefill(b, p, P) && Handed(b, p, P) == ""
  {
  }

  lemma {:induction false} RefillsAtEnd(b: string, data: string, p: nat, q: nat, P: nat)
    requires p < |b| && 0 < P && RefillsOk(b, data, p, P) && q == p + Kept(b, p, P)
    ensures !BadRefill(b, p, P)
    ensures !EndsScan(data, Handed(b, p, P), P) && NextStart(b, p, P) <= q ==>
              RefillsAhead(b, data, NextStart(b, p, P), q, P)
  {
    if p == q {
      NoneKept(b, p, P);
    } else {
      OnePage(b, data, p, q, P, EndsWithin(b, data, p, q, P), BadRefill(b, p, P));
      if !EndsScan(data, Handed(b, p, P), P) {
        RefillsInside(b, data, p, q, P);
      }
    }
  }

  /** A line in front of which the refills are good leaves good ones behind it, unless it ends the scan. */
  lemma {:induction false} RefillsStep(b: string, data: string, cur: nat, fp: nat, to: nat, P: nat)
    requires cur <= fp <= |b| && cur < |b| && 0 < P && RefillsAhead(b, data, cur, fp, P) && to == KeptTo(b, cur, fp, P)
    ensures cur == fp ==> !BadRefill(b, fp, P)
    ensures !EndsScan(data, Handed(b, cur, P), P) && NextStart(b, cur, P) <= to ==>
              RefillsAhead(b, data, NextStart(b, cur, P), to, P)
  {
    if cur == fp {
      RefillsAtEnd(b, data, fp, to, P);
    } else if !EndsScan(data, Handed(b, cur, P), P) {
      RefillsInside(b, data, cur, fp, P);
    }
  }

  /** `strsep` on the page yields exactly the line handed over for its position. */
  lemma NextLine(b: string, cur: nat, fp: nat, P: nat)
    requires 0 < P && cur < |b| && Loaded(b, cur, fp, P) && (cur == fp ==> b[cur] == NUL)
    ensures var e := FindChar(b, cur, fp, '\n');
            && HandedEnd(b, cur, P) == e
            && (if e < fp then NextStart(b, cur, P) == e + 1 && Loaded(b, e + 1, fp, P) else NextStart(b, cur, P) == fp)
  {
    var e := FindChar(b, cur, fp, '\n');
    assert forall k :: cur <= k < e ==> b[k] != '\n' && b[k] != NUL;
  }

  /** The text of a line, by positions. */
  lemma TextRange(b: string, lo: nat, hi: nat)
    requires lo <= hi <= |b|
    ensures var i := FindChar(b, lo, hi, ',');
            && (i < hi <==> ',' in b[lo..hi])
            && (i < hi ==> Text(b[lo..hi]) == b[i + 1..hi])
  {
    var line, i := b[lo..hi], FindChar(b, lo, hi, ',');
    assert forall k :: 0 <= k < |line| ==> line[k] == b[lo + k];
    if i < hi {
      assert line[i - lo] == ',';
      assert forall k :: 0 <= k < i - lo ==> line[..i - lo][k] == line[k];
      IndexOfIs(line, ',', i - lo);
    }
  }

  /** A place in the blacklist `b`: the next line starts at `cur`, the part kept in the page ends at `fp`. */
  datatype Place = Place(b: string, P: nat, cur: nat, fp: nat)

  /** What the tokeniser keeps: the page is loaded and the work pointer stands at `cur` in it. */
  ghost predicate Tokens(page: array<char>, work: Option<nat>, at: Place)
    reads page
  {
    && 0 < at.P && Loaded(at.b, at.cur, at.fp, at.P)
    && match work
       case Some(w) => Holds(page, w, at.b, at.cur, at.fp)
       case None => at.cur == at.fp
  }

  // ----- progress of the outer loop

  /** The lines handed over so far are no hits, and those still to be looked at are the ones from `cur` on. */
  ghost predicate Progress(b: string, data: string, P: nat, handed: seq<string>, cur: nat) {
    && cur <= |b| && HandedLines(b, 0, P) == handed + HandedLines(b, cur, P)
    && forall i :: 0 <= i < |handed| ==> !Hit(data, handed[i], P)
  }

  /** What a finished scan says: its verdict, and which lines it took: all that are to be looked at, or
      those up to and including the first hit. */
  ghost predicate Scanned(b: string, data: string, P: nat, handed: seq<string>, found: bool) {
    && (found <==> Infected(b, data, P))
    && handed <= HandedLines(b, 0, P)
    && (if found then handed != [] && Hit(data, handed[|handed| - 1], P) else handed == HandedLines(b, 0, P))
    && forall i :: 0 <= i < |handed| && (i + 1 < |handed| || !found) ==> !Hit(data, handed[i], P)
  }

  /** The same in full: without a hit all lines are taken, else those up to and including the first hit. */
  lemma ScannedSays(b: string, data: string, P: nat, handed: seq<string>, found: bool)
    requires Scanned(b, data, P, handed, found)
    ensures found <==> exists line <- HandedLines(b, 0, P) :: Hit(data, line, P)
    ensures handed <= HandedLines(b, 0, P) && (!found ==> handed == HandedLines(b, 0, P))
    ensures found ==> handed != [] && Hit(data, handed[|handed| - 1], P)
    ensures forall i :: 0 <= i < |handed| - 1 ==> !Hit(data, handed[i], P)
  {
  }

  lemma {:induction false} HandedFrom(b: string, P: nat, cur: nat)
    requires cur < |b|
    ensures var line, next := Handed(b, cur, P), NextStart(b, cur, P);
            if ',' in line then next > cur && HandedLines(b, cur, P) == [line] + HandedLines(b, next, P)
            else HandedLines(b, cur, P) == [line]
  {
  }

  lemma OneMore(all: seq<string>, handed: seq<string>, line: string, rest: seq<string>)
    requires all == handed + ([line] + rest)
    ensures all == handed + [line] + rest && handed + [line] <= all
  {
  }

  lemma {:induction false} LineAhead(b: string, P: nat, handed: seq<string>, cur: nat)
    requires cur < |b| && HandedLines(b, 0, P) == handed + HandedLines(b, cur, P)
    ensures var line := Handed(b, cur, P); var now := handed + [line];
            && now <= HandedLines(b, 0, P)
            && if ',' in line then NextStart(b, cur, P) > cur && HandedLines(b, 0, P) == now + HandedLines(b, NextStart(b, cur, P), P)
               else HandedLines(b, 0, P) == now
  {
    var line := Handed(b, cur, P);
    HandedFrom(b, P, cur);
    if ',' in line {
      OneMore(HandedLines(b, 0, P), handed, line, HandedLines(b, NextStart(b, cur, P), P));
    }
  }

  /** What the line at `cur` decides: a hit settles the verdict, a line without a comma ends the scan
      with no hit, and any other line is stepped over. */
  lemma {:induction false} ProgressStep(b: string, data: string, P: nat, handed: seq<string>, cur: nat)
    requires Progress(b, data, P, handed, cur) && cur < |b|
    ensures var line := Handed(b, cur, P); var now := handed + [line];
            if Hit(data, line, P) then Scanned(b, data, P, now, true)
            else if ',' !in line then Scanned(b, data, P, now, false)
            else NextStart(b, cur, P) > cur && Progress(b, data, P, now, NextStart(b, cur, P))
  {
    LineAhead(b, P, handed, cur);
    var now := handed + [Handed(b, cur, P)];
    assert now[|handed|] in HandedLines(b, 0, P);
    assert now[|now| - 1] == Handed(b, cur, P);
  }

  lemma {:induction false} NextTextOk(b: string, data: string, P: nat, handed: seq<string>, cur: nat)
    requires Progress(b, data, P, handed, cur) && cur < |b| && TextsOk(b, data, P)
    ensures TextOk(Handed(b, cur, P))
  {
    var lines := HandedLines(b, 0, P);
    assert lines[|handed|] == Handed(b, cur, P);
    assert forall j :: 0 <= j < |handed| ==> lines[j] == handed[j];
  }

  /** A scan that ends without a hit has looked at every line. */
  lemma ProgressEnd(b: string, data: string, P: nat, handed: seq<string>)
    requires Progress(b, data, P, handed, |b|)
    ensures Scanned(b, data, P, handed, false)
  {
  }

  // ----- the scanner

  /** `strsep`: end the C string `b[lo..hi]` held at `s` at its first `c`; the rest, if any, follows it. */
  method Strsep(buf: array<char>, s: nat, c: char, ghost b: string, ghost lo: nat, ghost hi: nat) returns (next: Option<nat>)
    requires Holds(buf, s, b, lo, hi) && c != NUL
    modifies buf
    ensures var i := FindChar(b, lo, hi, c);
            && Holds(buf, s, b, lo, i)
            && (if i < hi then next == Some(s + (i - lo) + 1) && Holds(buf, next.value, b, i + 1, hi) else next == None)
    ensures forall k :: s + (hi - lo) < k < buf.Length ==> buf[k] == old(buf[k])
  {
    var i := s;
    while buf[i] != c && buf[i] != NUL
      invariant s <= i <= s + (hi - lo)
      invariant FindChar(b, lo + (i - s), hi, c) == FindChar(b, lo, hi, c)
      decreases s + (hi - lo) - i
    {
      assert buf[s + (lo + (i - s) - lo)] == buf[i];
      i := i + 1;
    }
    assert buf[s + (lo + (i - s) - lo)] == buf[i];
    if buf[i] == NUL {
      return None;
    }
    buf[i] := NUL;
    return Some(i + 1);
  }

  method ReadPage(blacklist: File, page: array<char>) returns (n: nat)
    requires page.Length > 0 && blacklist.pos < |blacklist.data|
    modifies page, blacklist`pos
    ensures old(blacklist.pos) + n == PageEnd(blacklist.data, old(blacklist.pos), page.Length)
    ensures 0 < n <= page.Length && page[..n] == blacklist.data[old(blacklist.pos)..old(blacklist.pos) + n]
    ensures Cut(page[..n], 0, n) == Kept(blacklist.data, old(blacklist.pos), page.Length)
    ensures Brimful(page[..n], 0, n, page.Length) <==> BadRefill(blacklist.data, old(blacklist.pos), page.Length)
  {
    CutShift(blacklist.data, blacklist.pos, PageEnd(blacklist.data, blacklist.pos, page.Length), page.Length);
    n := blacklist.Read(page, 0, page.Length);
  }

  /** A refill: read a page, cut it, and put the file cursor just after what is kept. */
  method LoadPage(blacklist: File, page: array<char>) returns (len: nat)
    requires page.Length > 1 && blacklist.pos < |blacklist.data|
    requires !BadRefill(blacklist.data, blacklist.pos, page.Length)
    modifies page, blacklist`pos
    ensures len == Kept(blacklist.data, old(blacklist.pos), page.Length)
    ensures blacklist.pos == old(blacklist.pos) + len
    ensures Holds(page, 0, blacklist.data, old(blacklist.pos), blacklist.pos)
  {
    var fp := blacklist.pos;
    var n := ReadPage(blacklist, page);
    ghost var full := page[..n];
    len := RemoveGarbageValue(page, n);
    assert page[..len] == full[..len] == blacklist.data[fp..fp + len];
    blacklist.pos := fp + len;
    SliceHeld(page, len, blacklist.data, fp);
  }

  /** Refill the page in front of position `at.fp`. */
  method Reload(blacklist: File, page: array<char>, ghost at: Place) returns (len: nat)
    requires at.cur == at.fp < |at.b| && 1 < at.P == page.Length && !BadRefill(at.b, at.fp, at.P)
    requires at.b == blacklist.data && at.fp == blacklist.pos
    modifies page, blacklist`pos
    ensures len == Kept(at.b, at.fp, at.P) && blacklist.pos == at.fp + len
    ensures Tokens(page, Some(0), at.(fp := at.fp + len)) && (len == 0 ==> at.b[at.cur] == NUL)
  {
    RefillLoads(at.b, at.fp, at.P);
    len := LoadPage(blacklist, page);
  }

  /** Refill the page when the work buffer is used up. */
  method Refresh(blacklist: File, page: array<char>, work: Option<nat>, ghost at: Place)
    returns (w: nat, len: nat, ghost now: Place)
    requires Tokens(page, work, at)
    requires at.b == blacklist.data && at.P == page.Length > 1 && at.fp == blacklist.pos
    requires at.fp < |at.b| || (work.Some? && page[work.value] != NUL)
    requires at.cur == at.fp ==> !BadRefill(at.b, at.fp, at.P)
    modifies page, blacklist`pos
    ensures at.cur < |at.b| && now == at.(fp := KeptTo(at.b, at.cur, at.fp, at.P))
    ensures blacklist.pos == now.fp == at.fp + len
    ensures Tokens(page, Some(w), now) && (now.cur == now.fp ==> at.b[at.cur] == NUL)
  {
    if work.Some? {
      HeldStart(page, work.value, at.b, at.cur, at.fp);
      if page[work.value] != NUL {
        return work.value, 0, at;
      }
    }
    len := Reload(blacklist, page, at);
    return 0, len, at.(fp := at.fp + len);
  }

  /** Cut the line that ends at `e` off what is kept, then its name off the line; `line` is the C string
      that stands in the page in between. */
  method TakeLine(page: array<char>, w: nat, ghost b: string, ghost cur: nat, ghost fp: nat, ghost e: nat)
    returns (rest: Option<nat>, text: Option<nat>, ghost line: string)
    requires Holds(page, w, b, cur, fp) && e == FindChar(b, cur, fp, '\n')
    modifies page
    ensures if e < fp then rest.Some? && Holds(page, rest.value, b, e + 1, fp) else rest == None
    ensures var c := FindChar(b, cur, e, ',');
            if c < e then text.Some? && Holds(page, text.value, b, c + 1, e) else text == None
    ensures line == b[cur..e]
  {
    rest := Strsep(page, w, '\n', b, cur, fp);
    line := CStr(page[w..]);
    HeldString(page, w, b, cur, e);
    text := Strsep(page, w, ',', b, cur, e);
  }

  /** The place after the line at `cur`. */
  ghost function After(at: Place): Place
    requires at.cur < |at.b|
  {
    at.(cur := NextStart(at.b, at.cur, at.P))
  }

  /** The text of the line at `cur` is held at `text`; None when it has no comma. */
  ghost predicate TextHeld(page: array<char>, text: Option<nat>, at: Place)
    requires at.cur < |at.b|
    reads page
  {
    var e := HandedEnd(at.b, at.cur, at.P);
    var c := FindChar(at.b, at.cur, e, ',');
    if c < e then text.Some? && Holds(page, text.value, at.b, c + 1, e) else text == None
  }

  /** Tokenise the line at `cur`. */
  method CutLine(page: array<char>, w: nat, ghost at: Place)
    returns (rest: Option<nat>, text: Option<nat>, ghost line: string)
    requires Tokens(page, Some(w), at) && at.cur < |at.b| && (at.cur == at.fp ==> at.b[at.cur] == NUL)
    modifies page
    ensures Tokens(page, rest, After(at)) && TextHeld(page, text, at) && line == Handed(at.b, at.cur, at.P)
    ensures HandedEnd(at.b, at.cur, at.P) - at.cur < at.P
  {
    NextLine(at.b, at.cur, at.fp, at.P);
    rest, text, line := TakeLine(page, w, at.b, at.cur, at.fp, HandedEnd(at.b, at.cur, at.P));
  }

  /** One turn of the tokeniser: refill if need be, then cut off the line at `cur` and its name. */
  method FetchLine(blacklist: File, page: array<char>, work: Option<nat>, ghost at: Place)
    returns (rest: Option<nat>, text: Option<nat>, len: nat, ghost now: Place, ghost line: string)
    requires Tokens(page, work, at)
    requires at.b == blacklist.data && at.P == page.Length > 1 && at.fp == blacklist.pos
    requires at.fp < |at.b| || (work.Some? && page[work.value] != NUL)
    requires at.cur == at.fp ==> !BadRefill(at.b, at.fp, at.P)
    modifies page, blacklist`pos
    ensures at.cur < |at.b| && now == at.(fp := KeptTo(at.b, at.cur, at.fp, at.P))
    ensures blacklist.pos == now.fp == at.fp + len
    ensures Tokens(page, rest, After(now)) && TextHeld(page, text, now) && line == Handed(now.b, now.cur, now.P)
    ensures HandedEnd(now.b, now.cur, now.P) - now.cur < now.P
  {
    var w;
    w, len, now := Refresh(blacklist, page, work, at);
    rest, text, line := CutLine(page, w, now);
  }

  /** Decode the text held at `at` and search the input for it. */
  method SearchPattern(input: File, page: array<char>, at: nat, hex: array<char>, window: array<char>, ghost line: string)
    returns (hit: bool)
    requires ',' in line && TextOk(line) && Holds(page, at, Text(line), 0, |Text(line)|)
    requires page != hex && hex != window && page != window
    requires 3 <= hex.Length == window.Length && |line| < hex.Length && |input.data| < 0x8000_0000
    modifies hex, window, input`pos
    ensures hit <==> Hit(input.data, line, hex.Length)
  {
    HexText.DecodeLength(Text(line), 0);
    var length := HexText.Convert(page, at, hex, Text(line));
    ghost var pattern := hex[..length];
    hex[length] := NUL;
    assert hex[..length] == pattern;
    PageScan.TerminatedPage(hex[..], pattern);
    hit := PageScan.ScanFile(input, window, CStr(hex[..]), length);
  }

  lemma HeldText(page: array<char>, text: Option<nat>, at: Place)
    requires at.cur < |at.b| && TextHeld(page, text, at)
    ensures var line := Handed(at.b, at.cur, at.P);
            if ',' in line then text.Some? && Holds(page, text.value, Text(line), 0, |Text(line)|) else text == None
  {
    var e := HandedEnd(at.b, at.cur, at.P);
    TextRange(at.b, at.cur, e);
    if text.Some? {
      HoldsSlice(page, text.value, at.b, FindChar(at.b, at.cur, e, ',') + 1, e);
    }
  }

  /** Search for the pattern of the line at `at.cur`, unless it has no comma. */
  method SearchLine(input: File, page: array<char>, text: Option<nat>, hex: array<char>, window: array<char>, ghost at: Place)
    returns (hit: bool)
    requires at.cur < |at.b| && TextHeld(page, text, at) && HandedEnd(at.b, at.cur, at.P) - at.cur < at.P
    requires TextOk(Handed(at.b, at.cur, at.P))
    requires page != hex && hex != window && page != window
    requires 3 <= at.P == hex.Length == window.Length && |input.data| < 0x8000_0000
    modifies hex, window, input`pos
    ensures text.None? <==> ',' !in Handed(at.b, at.cur, at.P)
    ensures hit <==> Hit(input.data, Handed(at.b, at.cur, at.P), at.P)
  {
    HeldText(page, text, at);
    if text.None? {
      return false;
    }
    hit := SearchPattern(input, page, text.value, hex, window, Handed(at.b, at.cur, at.P));
  }

  /** One turn of the outer loop: fetch the line at `at.cur` and search for its pattern. */
  method ScanLine(input: File, blacklist: File, page: array<char>, hex: array<char>, window: array<char>,
                  work: Option<nat>, ghost at: Place)
    returns (rest: Option<nat>, len: nat, over: bool, hit: bool, ghost next: Place, ghost line: string)
    requires input != blacklist && page != hex && hex != window && page != window && |input.data| < 0x8000_0000
    requires Tokens(page, work, at) && RefillsAhead(at.b, input.data, at.cur, at.fp, at.P)
    requires at.b == blacklist.data && 3 <= at.P == page.Length == hex.Length == window.Length && at.fp == blacklist.pos
    requires at.fp < |at.b| || (work.Some? && page[work.value] != NUL)
    requires at.cur < |at.b| ==> TextOk(Handed(at.b, at.cur, at.P))
    modifies page, hex, window, blacklist`pos, input`pos
    ensures at.cur < |at.b| && line == Handed(at.b, at.cur, at.P)
    ensures (over <==> ',' !in line) && (hit <==> Hit(input.data, line, at.P))
    ensures next == Place(at.b, at.P, NextStart(at.b, at.cur, at.P), at.fp + len) && blacklist.pos == next.fp
    ensures Tokens(page, rest, next) && (!over && !hit ==> RefillsAhead(next.b, input.data, next.cur, next.fp, next.P))
  {
    StillAhead(page, work, at);
    RefillsStep(at.b, input.data, at.cur, at.fp, KeptTo(at.b, at.cur, at.fp, at.P), at.P);
    var text;
    ghost var now;
    rest, text, len, now, line := FetchLine(blacklist, page, work, at);
    hit := SearchLine(input, page, text, hex, window, now);
    over := text.None?;
    next := After(now);
  }

  /** Something is left to look at while the loop goes on, and only then. */
  lemma StillAhead(page: array<char>, work: Option<nat>, at: Place)
    requires Tokens(page, work, at)
    ensures at.fp < |at.b| || (work.Some? && page[work.value] != NUL) <==> at.cur < |at.b|
  {
    if work.Some? {
      HeldStart(page, work.value, at.b, at.cur, at.fp);
    }
  }

  /** The scanner, with the lines it took from the page as a ghost result. */
  method CheckInBlacklist(input: File, blacklist: File, P: nat) returns (found: bool, ghost handed: seq<string>)
    requires 3 <= P && input != blacklist
    requires |input.data| < 0x8000_0000 && |blacklist.data| < 0x8000_0000
    requires blacklist.pos == 0
    requires RefillsOk(blacklist.data, input.data, 0, P) && TextsOk(blacklist.data, input.data, P)
    modifies input`pos, blacklist`pos
    ensures Scanned(blacklist.data, input.data, P, handed, found)
  {
    var page, window, hex := new char[P], new char[P], new char[P];
    var size, fp := |blacklist.data|, 0;
    var work: Option<nat> := None;
    ghost var b, data := blacklist.data, input.data;
    ghost var at := Place(b, P, 0, 0);
    handed := [];
    while size > 0 || (work.Some? && page[work.value] != NUL)
      invariant size == |b| - fp && blacklist.pos == fp
      invariant at.b == b && at.P == P && at.fp == fp && Tokens(page, work, at)
      invariant RefillsAhead(b, data, at.cur, fp, P)
      invariant Progress(b, data, P, handed, at.cur)
      decreases |b| - at.cur
    {
      StillAhead(page, work, at);
      ProgressStep(b, data, P, handed, at.cur);
      NextTextOk(b, data, P, handed, at.cur);
      var len, over, hit;
      ghost var line;
      work, len, over, hit, at, line := ScanLine(input, blacklist, page, hex, window, work, at);
      handed := handed + [line];
      fp := fp + len;
      size := size - len;
      if over || hit {
        return hit, handed;
      }
    }
    StillAhead(page, work, at);
    ProgressEnd(b, data, P, handed);
    return false, handed;
  }
}
