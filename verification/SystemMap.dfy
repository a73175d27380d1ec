/** The search for the system-call table in System.map (`find_sys_call_table`).  The line buffer is
    never cleared between lines, so every line is read over the stale tail of longer ones. */
module SystemMap {
  import opened Wrappers
  import opened CString
  import opened FileModel

  const MAX_VERSION_LEN: nat := 256
  const PATTERN: string := "sys_call_table"

  /** `data[lo..hi]` is a line that a line feed ends. */
  predicate LineAt(data: string, lo: nat, hi: nat) {
    && lo <= hi < |data| && data[hi] == '\n'
    && (lo == 0 || data[lo - 1] == '\n')
    && forall k :: lo <= k < hi ==> data[k] != '\n'
  }

  /** Every line, the unfinished last one included, is shorter than 255 characters. */
  ghost predicate ShortLines(data: string) {
    forall p: nat :: BreakAhead(data, p)
  }

  predicate BreakAhead(data: string, p: nat) {
    p + 255 <= |data| ==> exists k :: p <= k < p + 255 && data[k] == '\n'
  }

  /** In a map of fewer than 255 characters all lines are short. */
  lemma ShortMap(data: string)
    requires |data| < 255
    ensures ShortLines(data)
  {
  }

  predicate Matches(line: string) {
    Occurs(line, PATTERN)
  }

  /** `data[lo..hi]` is the first terminated line that contains the pattern. */
  ghost predicate FirstMatch(data: string, lo: nat, hi: nat) {
    && LineAt(data, lo, hi) && Matches(data[lo..hi])
    && forall l: nat, h: nat :: LineAt(data, l, h) && l < lo ==> !Matches(data[l..h])
  }

  // ----- how far the map is read

  /** The first line feed at or after `lo`, or the end. */
  function BreakAt(data: string, lo: nat): (hi: nat)
    requires lo <= |data|
    ensures lo <= hi <= |data| && (hi < |data| ==> data[hi] == '\n')
    ensures forall k :: lo <= k < hi ==> data[k] != '\n'
    decreases |data| - lo
  {
    if lo == |data| || data[lo] == '\n' then lo else BreakAt(data, lo + 1)
  }

  /** Where reading on from the line at `lo` stops: behind the first terminated line that contains the
      pattern, or at the end. */
  function Stop(data: string, lo: nat): (n: nat)
    requires lo <= |data|
    ensures BreakAt(data, lo) <= n <= |data| && (BreakAt(data, lo) < |data| ==> BreakAt(data, lo) < n)
    decreases |data| - lo
  {
    var hi := BreakAt(data, lo);
    if hi == |data| then hi
    else if Matches(data[lo..hi]) then hi + 1
    else Stop(data, hi + 1)
  }

  /** What is read of the map. */
  function ReadPart(data: string): string {
    data[..Stop(data, 0)]
  }

  lemma BreakIs(data: string, lo: nat, i: nat)
    requires lo + i <= |data| && forall k :: lo <= k < lo + i ==> data[k] != '\n'
    ensures lo + i <= BreakAt(data, lo) && (lo + i < |data| && data[lo + i] == '\n' ==> BreakAt(data, lo) == lo + i)
  {
  }

  /** A first match in what is read is one in the map. */
  lemma FirstMatchRead(data: string, n: nat, lo: nat, hi: nat)
    requires n <= |data| && FirstMatch(data[..n], lo, hi)
    ensures FirstMatch(data, lo, hi) && data[lo..hi] == data[..n][lo..hi]
  {
    var part := data[..n];
    assert forall k :: 0 <= k < n ==> part[k] == data[k];
    assert part[lo..hi] == data[lo..hi];
    forall l: nat, h: nat | LineAt(data, l, h) && l < lo ensures !Matches(data[l..h]) {
      assert h < lo by {
        assert part[lo - 1] == data[lo - 1] == '\n';
      }
      assert LineAt(part, l, h) && part[l..h] == data[l..h];
    }
  }

  // ----- the stale tail

  /** No occurrence of the pattern starts at or after index `i` of the buffer. */
  ghost predicate NoneFrom(e: string, i: nat) {
    forall o: nat :: i <= o ==> !OccursAt(e, PATTERN, o)
  }

  lemma WriteKeeps(e: string, i: nat, c: char)
    requires i < |e| && NoneFrom(e, i)
    ensures NoneFrom(e[i := c], i + 1)
  {
    var f := e[i := c];
    forall o: nat | OccursAt(f, PATTERN, o) ensures o <= i {
      if i < o {
        assert f[o..o + |PATTERN|] == e[o..o + |PATTERN|];
        assert OccursAt(e, PATTERN, o);
      }
    }
  }

  /** An occurrence cannot reach over a line feed, nor over a NUL. */
  lemma NoBreakInside(e: string, o: nat, i: nat)
    requires OccursAt(e, PATTERN, o) && o <= i < o + |PATTERN|
    ensures e[i] != '\n' && e[i] != NUL
  {
    assert e[i] == e[o..o + |PATTERN|][i - o] == PATTERN[i - o];
  }

  /** When the line feed arrives at `i`, the buffer matches exactly when the line before it does. */
  lemma BufferMatchesLine(e: string, i: nat)
    requires i < |e| && e[i] == '\n' && (forall k :: 0 <= k < i ==> e[k] != NUL) && NoneFrom(e, i + 1)
    ensures Occurs(CStr(e), PATTERN) <==> Matches(e[..i])
    ensures !Matches(e[..i]) ==> NoneFrom(e, 0)
  {
    var n := StrLen(e);
    assert i < n;
    forall o: nat ensures OccursAt(e[..n], PATTERN, o) ==> OccursAt(e[..i], PATTERN, o) && OccursAt(e, PATTERN, o)
      ensures OccursAt(e[..i], PATTERN, o) ==> OccursAt(e[..n], PATTERN, o)
      ensures OccursAt(e, PATTERN, o) ==> OccursAt(e[..i], PATTERN, o)
    {
      OccursInSlice(e, PATTERN, 0, n, o);
      OccursInSlice(e, PATTERN, 0, i, o);
      assert e[0..n] == e[..n] && e[0..i] == e[..i];
      if OccursAt(e, PATTERN, o) {
        assert o <= i;
        if i < o + |PATTERN| {
          NoBreakInside(e, o, i);
        }
      }
    }
    if Occurs(e[..n], PATTERN) {
      var o: nat :| o <= n && OccursAt(e[..n], PATTERN, o);
      assert OccursAt(e[..i], PATTERN, o);
    }
    if Occurs(e[..i], PATTERN) {
      var o: nat :| o <= i && OccursAt(e[..i], PATTERN, o);
      assert OccursAt(e[..n], PATTERN, o);
    }
    if !Matches(e[..i]) {
      forall o: nat ensures !OccursAt(e, PATTERN, o) {
        assert OccursAt(e[..i], PATTERN, o) ==> o <= i;
      }
    }
  }

  /** Ending the buffer at its start leaves nothing to find. */
  lemma Emptied(e: string)
    requires |e| > 0 && NoneFrom(e, 0)
    ensures NoneFrom(e[0 := NUL], 0)
  {
    WriteKeeps(e, 0, NUL);
    if OccursAt(e[0 := NUL], PATTERN, 0) {
      NoBreakInside(e[0 := NUL], 0, 0);
    }
  }

  // ----- the first word

  /** `w` is the part of the line before its first space; without one it only starts with the line. */
  predicate FirstWord(line: string, w: string) {
    if ' ' in line then w == line[..IndexOf(line, ' ')] else line <= w
  }

  lemma BufferWord(e: string, i: nat)
    requires i < |e| && e[i] == '\n' && forall k :: 0 <= k < i ==> e[k] != NUL
    ensures FirstWord(e[..i], CStr(e)[..IndexOf(CStr(e), ' ')])
  {
    var line, c := e[..i], CStr(e);
    var j := IndexOf(c, ' ');
    assert i < |c| && c[..i] == line;
    if ' ' in line {
      var k := IndexOf(line, ' ');
      assert forall x :: 0 <= x < k ==> c[..k][x] == line[..k][x];
      assert c[k] == line[k];
      IndexOfIs(c, ' ', k);
      assert c[..k] == line[..k];
    } else {
      assert forall k :: 0 <= k < i ==> c[k] == line[k];
      assert i <= j;
      assert c[..j][..i] == line;
    }
  }

  // ----- the search

  /** The buffer while the line that starts at `lo` is read: its first `i` characters are in, nothing
      from there on can match, and its last character is still NUL, so that the string in it ends. */
  ghost predicate Reading(e: string, data: string, lo: nat, i: nat) {
    && |e| == MAX_VERSION_LEN && e[MAX_VERSION_LEN - 1] == NUL && i < 255 && lo + i <= |data|
    && (lo == 0 || data[lo - 1] == '\n')
    && (forall k :: 0 <= k < i ==> e[k] == data[lo + k] && e[k] != '\n')
    && NoneFrom(e, i)
  }

  /** No terminated line before `lo` contains the pattern. */
  ghost predicate NoneBefore(data: string, lo: nat) {
    forall l: nat, h: nat :: LineAt(data, l, h) && l < lo ==> !Matches(data[l..h])
  }

  lemma LineDone(e: string, data: string, lo: nat, i: nat)
    requires Reading(e, data, lo, i) && lo + i < |data| && data[lo + i] == '\n' && NUL !in data
    requires NoneBefore(data, lo)
    ensures LineAt(data, lo, lo + i) && e[..i] == data[lo..lo + i] && StrLen(e[i := '\n']) < |e|
    ensures var full := e[i := '\n'];
            && full[..i] == e[..i] && FirstWord(e[..i], CStr(full)[..IndexOf(CStr(full), ' ')])
            && (Occurs(CStr(full), PATTERN) <==> Matches(data[lo..lo + i]))
            && (!Matches(data[lo..lo + i]) ==>
                  Reading(full[0 := NUL], data, lo + i + 1, 0) && NoneBefore(data, lo + i + 1))
  {
    var full := e[i := '\n'];
    WriteKeeps(e, i, '\n');
    Terminated(full, MAX_VERSION_LEN - 1);
    assert forall k :: lo <= k < lo + i ==> data[k] == e[k - lo];
    BufferMatchesLine(full, i);
    BufferWord(full, i);
    assert full[..i] == e[..i] == data[lo..lo + i];
    if !Matches(data[lo..lo + i]) {
      Emptied(full);
      forall l: nat, h: nat | LineAt(data, l, h) && lo <= l < lo + i + 1 ensures l == lo && h == lo + i {
      }
    }
  }

  lemma CharIn(e: string, data: string, lo: nat, i: nat)
    requires Reading(e, data, lo, i) && lo + i < |data| && data[lo + i] != '\n' && ShortLines(data)
    ensures Reading(e[i := data[lo + i]], data, lo, i + 1)
  {
    WriteKeeps(e, i, data[lo + i]);
    assert forall k :: lo <= k < lo + i ==> data[k] == e[k - lo];
    assert BreakAhead(data, lo);
  }

  lemma AtEnd(e: string, data: string, lo: nat, i: nat)
    requires Reading(e, data, lo, i) && lo + i == |data| && NoneBefore(data, lo)
    ensures forall l: nat, h: nat :: LineAt(data, l, h) ==> !Matches(data[l..h])
  {
    assert forall k :: lo <= k < |data| ==> data[k] == e[k - lo];
    forall l: nat, h: nat | LineAt(data, l, h) ensures l < lo {
    }
  }

  /** While the line that starts at `lo` is read, in the part that is read, there is more of that part
      exactly when there is more of the map. */
  ghost predicate Ahead(data: string, n: nat, lo: nat) {
    lo <= n <= |data| && Stop(data, lo) == n
  }

  lemma MoreToRead(data: string, n: nat, lo: nat, i: nat)
    requires Ahead(data, n, lo) && lo + i <= n && forall k :: lo <= k < lo + i ==> data[k] != '\n'
    ensures lo + i < |data| <==> lo + i < n
    ensures lo + i < n && data[lo + i] == '\n' && !Matches(data[lo..lo + i]) ==> Ahead(data, n, lo + i + 1)
  {
    BreakIs(data, lo, i);
  }

  /** The characters of the line that starts at `lo`, in the buffer and in the map. */
  lemma MoreOfMap(e: string, data: string, n: nat, lo: nat, i: nat)
    requires Ahead(data, n, lo) && Reading(e, data[..n], lo, i)
    ensures lo + i < |data| <==> lo + i < n
    ensures lo + i < n && data[lo + i] == '\n' && !Matches(data[..n][lo..lo + i]) ==> Ahead(data, n, lo + i + 1)
  {
    var part := data[..n];
    assert forall k :: lo <= k < lo + i ==> data[k] == part[k] == e[k - lo];
    assert part[lo..lo + i] == data[lo..lo + i];
    MoreToRead(data, n, lo, i);
  }

  lemma NothingInZeros(e: string)
    requires forall k :: 0 <= k < |e| ==> e[k] == NUL
    ensures NoneFrom(e, 0)
  {
    forall o: nat ensures !OccursAt(e, PATTERN, o) {
      if OccursAt(e, PATTERN, o) {
        NoBreakInside(e, o, o);
      }
    }
  }

  /** Read one character of the map into the buffer. */
  method ReadChar(f: File, entry: array<char>, i: nat) returns (n: nat)
    requires f.pos <= |f.data| && i < entry.Length
    modifies f`pos, entry
    ensures n == (if old(f.pos) < |f.data| then 1 else 0) && f.pos == old(f.pos) + n
    ensures entry[..] == if n == 1 then old(entry[..])[i := f.data[old(f.pos)]] else old(entry[..])
  {
    ghost var c := f.pos;
    n := f.Read(entry, i, 1);
    assert n == 1 ==> entry[i] == entry[i..i + n][0] == f.data[c..c + n][0] == f.data[c];
  }

  /** The buffer and the map while the line that starts at `lo` is read, of a map of which `n` characters
      will be read. */
  ghost predicate Scanning(e: string, data: string, n: nat, lo: nat, i: nat) {
    Ahead(data, n, lo) && Reading(e, data[..n], lo, i) && NoneBefore(data[..n], lo)
  }

  lemma ScanStart(e: string, data: string)
    requires |e| == MAX_VERSION_LEN && forall k :: 0 <= k < |e| ==> e[k] == NUL
    ensures Scanning(e, data, Stop(data, 0), 0, 0)
  {
    NothingInZeros(e);
  }

  lemma ScanChar(e: string, data: string, n: nat, lo: nat, i: nat)
    requires Scanning(e, data, n, lo, i) && lo + i < |data| && data[lo + i] != '\n' && ShortLines(data[..n])
    ensures Scanning(e[i := data[lo + i]], data, n, lo, i + 1)
  {
    MoreOfMap(e, data, n, lo, i);
    CharIn(e, data[..n], lo, i);
  }

  lemma ScanBreak(e: string, data: string, n: nat, lo: nat, i: nat)
    requires Scanning(e, data, n, lo, i) && lo + i < |data| && data[lo + i] == '\n' && NUL !in data[..n]
    ensures var c := CStr(e[i := '\n']);
            if Occurs(c, PATTERN) then FirstMatch(data, lo, lo + i) && FirstWord(data[lo..lo + i], c[..IndexOf(c, ' ')])
            else Scanning(e[i := '\n'][0 := NUL], data, n, lo + i + 1, 0)
  {
    var part := data[..n];
    MoreOfMap(e, data, n, lo, i);
    LineDone(e, part, lo, i);
    if Matches(part[lo..lo + i]) {
      assert FirstMatch(part, lo, lo + i);
      FirstMatchRead(data, n, lo, lo + i);
    }
  }

  lemma ScanEnd(e: string, data: string, n: nat, lo: nat, i: nat)
    requires Scanning(e, data, n, lo, i) && lo + i >= |data|
    ensures forall l: nat, h: nat :: LineAt(data, l, h) ==> !Matches(data[l..h])
  {
    MoreOfMap(e, data, n, lo, i);
    assert data[..n] == data;
    AtEnd(e, data, lo, i);
  }

  /** A line feed has come in: take the first word if the line matches, else start over in the buffer. */
  method EndLine(entry: array<char>, ghost e: string, ghost data: string, ghost n: nat, ghost lo: nat, ghost i: nat)
    returns (word: Option<string>)
    requires Scanning(e, data, n, lo, i) && lo + i < |data| && data[lo + i] == '\n' && NUL !in data[..n]
    requires entry[..] == e[i := '\n']
    modifies entry
    ensures match word
      case Some(w) => FirstMatch(data, lo, lo + i) && FirstWord(data[lo..lo + i], w)
      case None => Scanning(entry[..], data, n, lo + i + 1, 0)
  {
    ScanBreak(e, data, n, lo, i);
    ghost var full := entry[..];
    var line := CStr(entry[..]);
    if Occurs(line, PATTERN) {
      return Some(line[..IndexOf(line, ' ')]);
    }
    entry[0] := NUL;
    assert entry[..] == full[0 := NUL];
    return None;
  }

  /** The reading loop: the first word of the first line that contains the pattern, if there is one. */
  method FindSysCallTable(f: File) returns (word: Option<string>)
    requires f.pos == 0 && NUL !in ReadPart(f.data) && ShortLines(ReadPart(f.data))
    modifies f`pos
    ensures match word
      case Some(w) => exists lo: nat, hi: nat :: FirstMatch(f.data, lo, hi) && FirstWord(f.data[lo..hi], w)
      case None => forall lo: nat, hi: nat :: LineAt(f.data, lo, hi) ==> !Matches(f.data[lo..hi])
  {
    var entry := new char[MAX_VERSION_LEN](_ => NUL);
    var i := 0;
    ghost var lo: nat, n, data := 0, Stop(f.data, 0), f.data;
    ScanStart(entry[..], data);
    while true
      invariant f.pos == lo + i <= |data| && i < 255 && Scanning(entry[..], data, n, lo, i)
      decreases |data| - f.pos
    {
      ghost var e := entry[..];
      var got := ReadChar(f, entry, i);
      if got != 1 {
        ScanEnd(e, data, n, lo, i);
        break;
      }
      if entry[i] == '\n' || i == MAX_VERSION_LEN {
        word := EndLine(entry, e, data, n, lo, i);
        if word.Some? {
          return;
        }
        lo := lo + i + 1;
        i := 0;
        continue;
      }
      ScanChar(e, data, n, lo, i);
      i := i + 1;
    }
    return None;
  }

  /** A map whose lines behind the first match are of any length is read no further than that match. */
  lemma StopsAtMatch(line: string, later: string)
    requires '\n' !in line && Matches(line)
    ensures ReadPart(line + "\n" + later) == line + "\n"
  {
    var data := line + "\n" + later;
    BreakIs(data, 0, |line|);
    assert data[0..|line|] == line;
    assert data[..|line| + 1] == line + "\n";
  }

  lemma {:induction false} StopIs(data: string, lo: nat, hi: nat, l: nat)
    requires FirstMatch(data, lo, hi) && l <= lo && (l == 0 || data[l - 1] == '\n')
    ensures Stop(data, l) == hi + 1
    decreases lo - l
  {
    var h := BreakAt(data, l);
    if l == lo {
      assert h == hi;
    } else {
      assert h < lo;
      assert LineAt(data, l, h);
      StopIs(data, lo, hi, h + 1);
    }
  }

  lemma {:induction false} StopAtEnd(data: string, l: nat)
    requires l <= |data| && (l == 0 || data[l - 1] == '\n')
    requires forall lo: nat, hi: nat :: LineAt(data, lo, hi) ==> !Matches(data[lo..hi])
    ensures Stop(data, l) == |data|
    decreases |data| - l
  {
    var h := BreakAt(data, l);
    if h < |data| {
      assert LineAt(data, l, h);
      StopAtEnd(data, h + 1);
    }
  }

  /** A map is read up to the end of its first match, and to its end when there is none. */
  lemma ReadExactly(data: string)
    ensures forall lo: nat, hi: nat :: FirstMatch(data, lo, hi) ==> ReadPart(data) == data[..hi + 1]
    ensures (forall lo: nat, hi: nat :: LineAt(data, lo, hi) ==> !Matches(data[lo..hi])) ==> ReadPart(data) == data
  {
    forall lo: nat, hi: nat | FirstMatch(data, lo, hi) ensures ReadPart(data) == data[..hi + 1] {
      StopIs(data, lo, hi, 0);
    }
    if forall lo: nat, hi: nat :: LineAt(data, lo, hi) ==> !Matches(data[lo..hi]) {
      StopAtEnd(data, 0);
    }
  }

  // ----- maps in full

  /** A line matches when the name of the table stands in it. */
  lemma MatchesIff(line: string)
    ensures Matches(line) <==> exists a: string, b: string :: line == a + "sys_call_table" + b
  {
    OccursIff(line, "sys_call_table");
  }

  /** There is one first match at most. */
  lemma FirstMatchOnce(data: string, lo: nat, hi: nat, l: nat, h: nat)
    requires FirstMatch(data, lo, hi) && FirstMatch(data, l, h)
    ensures l == lo && h == hi
  {
  }

  /** A line behind lines without the name is the first match, if it has it. */
  lemma MatchBehind(before: string, line: string, later: string)
    requires before != "" ==> before[|before| - 1] == '\n'
    requires !Occurs(before, "sys_call_table") && '\n' !in line && Occurs(line, "sys_call_table")
    ensures var data := before + (line + ("\n" + later)); var hi := |before| + |line|;
            hi < |data| && data[|before|..hi] == line && FirstMatch(data, |before|, hi)
  {
    var data, lo := before + (line + ("\n" + later)), |before|;
    assert forall k :: 0 <= k < lo ==> data[k] == before[k];
    assert forall k :: lo <= k < lo + |line| ==> data[k] == line[k - lo];
    assert data[lo..lo + |line|] == line;
    forall l: nat, h: nat | LineAt(data, l, h) && l < lo ensures !Matches(data[l..h]) {
      assert h < lo;
      assert data[l..h] == before[l..h];
      NoneInSlice(before, l, h);
    }
  }

  lemma NoneInSlice(before: string, l: nat, h: nat)
    requires l <= h <= |before| && !Occurs(before, "sys_call_table")
    ensures !Matches(before[l..h])
  {
    forall o: nat ensures !OccursAt(before[l..h], PATTERN, o) {
      OccursInSlice(before, PATTERN, l, h, o);
      assert OccursAt(before, "sys_call_table", l + o) ==> l + o <= |before|;
    }
  }

  lemma WordOf(word: string, rest: string)
    requires ' ' !in word && '\n' !in word && '\n' !in rest && Occurs(rest, "sys_call_table")
    ensures var line := word + (" " + rest);
            && '\n' !in line && Occurs(line, "sys_call_table")
            && forall w :: FirstWord(line, w) <==> w == word
  {
    var line := word + (" " + rest);
    var o :| 0 <= o <= |rest| && OccursAt(rest, PATTERN, o);
    assert line[|word| + 1..] == rest;
    assert line[|word| + 1..|line|] == rest;
    OccursInSlice(line, PATTERN, |word| + 1, |line|, o);
    assert line[|word|] == ' ' && line[..|word|] == word;
    IndexOfIs(line, ' ', |word|);
  }

  /** A map whose first line with the name of the table starts with `word`: there is a first match, and the
      word that the search takes from it is `word`. */
  lemma TableFound(before: string, word: string, rest: string, later: string)
    requires before != "" ==> before[|before| - 1] == '\n'
    requires !Occurs(before, "sys_call_table") && Occurs(rest, "sys_call_table")
    requires ' ' !in word && '\n' !in word && '\n' !in rest
    ensures var data := before + (word + (" " + rest) + ("\n" + later));
            && (exists lo: nat, hi: nat :: FirstMatch(data, lo, hi) && FirstWord(data[lo..hi], word))
            && (forall lo: nat, hi: nat, w :: FirstMatch(data, lo, hi) && FirstWord(data[lo..hi], w) ==> w == word)
  {
    var line, lo := word + (" " + rest), |before|;
    var data := before + (line + ("\n" + later));
    WordOf(word, rest);
    MatchBehind(before, line, later);
    OneWord(data, lo, lo + |line|, word);
  }

  lemma OneWord(data: string, lo: nat, hi: nat, word: string)
    requires FirstMatch(data, lo, hi) && forall w :: FirstWord(data[lo..hi], w) <==> w == word
    ensures forall l: nat, h: nat, w :: FirstMatch(data, l, h) && FirstWord(data[l..h], w) ==> w == word
  {
    forall l: nat, h: nat, w | FirstMatch(data, l, h) && FirstWord(data[l..h], w) ensures w == word {
      FirstMatchOnce(data, lo, hi, l, h);
    }
  }
}
