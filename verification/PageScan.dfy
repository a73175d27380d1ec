/** Searching a file for one pattern through a page-sized window, as the inner loop of
    `check_in_blacklist` does, against searching the whole file at once. */
module PageScan {
  import opened CString
  import opened FileModel

  /** Where page `k` starts: each page advances by the window less the decoded length. */
  function Start(w: nat, len: nat, k: nat): nat
    requires len < w
  {
    if k == 0 then 0 else Start(w, len, k - 1) + (w - len)
  }

  /** The window of at most `w` characters at `s`. */
  function Page(data: string, w: nat, s: nat): string
    requires s <= |data|
  {
    if |data| - s <= w then data[s..] else data[s..s + w]
  }

  /** Page `k` is read at all: the page before it ended short of the end of the file. */
  ghost predicate PageRead(data: string, w: nat, len: nat, k: nat)
    requires len < w
  {
    if k == 0 then data != "" else Start(w, len, k) + len < |data|
  }

  /** The window at `s` shows the occurrence at `o`: all of it is inside and no NUL stands before it. */
  ghost predicate ShownAt(data: string, needle: string, w: nat, s: nat, o: nat) {
    s <= o && o + |needle| <= s + w && OccursAt(data, needle, o) && NUL !in data[s..o]
  }

  ghost predicate Shows(data: string, needle: string, w: nat, len: nat, k: nat, o: nat)
    requires len < w
  {
    PageRead(data, w, len, k) && ShownAt(data, needle, w, Start(w, len, k), o)
  }

  /** Some page that is read shows some occurrence. */
  ghost predicate Seen(data: string, needle: string, w: nat, len: nat)
    requires len < w
  {
    exists k: nat, o: nat :: Shows(data, needle, w, len, k, o)
  }

  // ----- one page

  lemma NoNulInside(data: string, needle: string, w: nat, s: nat, o: nat, i: nat)
    requires NUL !in needle && ShownAt(data, needle, w, s, o)
    requires s <= i < o + |needle|
    ensures data[i] != NUL
  {
    if i < o {
      assert data[i] == data[s..o][i - s];
    } else {
      assert data[i] == data[o..o + |needle|][i - o] == needle[i - o];
    }
  }

  lemma HitIsShown(data: string, needle: string, w: nat, s: nat, n: nat) returns (o: nat)
    requires s + n <= |data| && n <= w && NUL !in data[s..s + n] && Occurs(data[s..s + n], needle)
    ensures ShownAt(data, needle, w, s, o)
  {
    var i :| 0 <= i <= n && OccursAt(data[s..s + n], needle, i);
    OccursInSlice(data, needle, s, s + n, i);
    o := s + i;
    assert data[s..o] == data[s..s + n][..i];
  }

  lemma ShownIsHit(data: string, needle: string, w: nat, s: nat, n: nat, o: nat)
    requires s + n <= |data| && NUL !in needle && ShownAt(data, needle, w, s, o)
    requires s + n == |data| || n >= w || data[s + n] == NUL
    ensures Occurs(data[s..s + n], needle)
  {
    if s + n < o + |needle| {
      NoNulInside(data, needle, w, s, o, s + n);
    }
    OccursInSlice(data, needle, s, s + n, o - s);
    assert OccursAt(data[s..s + n], needle, o - s);
  }

  lemma PageHit(data: string, needle: string, w: nat, s: nat)
    requires s <= |data| && NUL !in needle
    ensures Occurs(CStr(Page(data, w, s)), needle) <==> exists o: nat :: ShownAt(data, needle, w, s, o)
  {
    var page := Page(data, w, s);
    var n := StrLen(page);
    assert CStr(page) == data[s..s + n];
    if Occurs(CStr(page), needle) {
      var o := HitIsShown(data, needle, w, s, n);
    }
    if o: nat :| ShownAt(data, needle, w, s, o) {
      assert n < |page| ==> data[s + n] == page[n];
      ShownIsHit(data, needle, w, s, n, o);
    }
  }

  // ----- which pages are read

  lemma {:induction false} StartMonotone(w: nat, len: nat, j: nat, k: nat)
    requires len < w && j <= k
    ensures Start(w, len, j) + (k - j) <= Start(w, len, k)
    decreases k
  {
    if j < k {
      StartMonotone(w, len, j, k - 1);
    }
  }

  /** Once a page is not read, no later page is. */
  lemma NoLaterPage(data: string, w: nat, len: nat, k: nat, j: nat)
    requires len < w && k <= j && !PageRead(data, w, len, k)
    ensures !PageRead(data, w, len, j)
  {
    StartMonotone(w, len, k, j);
  }

  /** Where the last page that is read and starts at or before `o` starts, counted from a page at `s`,
      in a file of `n` characters. */
  function LastStart(n: nat, w: nat, len: nat, o: nat, s: nat): (r: nat)
    requires len < w && s <= o
    ensures s <= r <= o
    decreases o - s
  {
    if s + w < n && s + (w - len) <= o then LastStart(n, w, len, o, s + (w - len)) else s
  }

  lemma {:induction false} LastStartPage(data: string, w: nat, len: nat, o: nat, i: nat) returns (k: nat)
    requires len < w && PageRead(data, w, len, i) && Start(w, len, i) <= o
    ensures PageRead(data, w, len, k) && Start(w, len, k) == LastStart(|data|, w, len, o, Start(w, len, i))
    ensures !PageRead(data, w, len, k + 1) || o < Start(w, len, k + 1)
    decreases o - Start(w, len, i)
  {
    if PageRead(data, w, len, i + 1) && Start(w, len, i + 1) <= o {
      k := LastStartPage(data, w, len, o, i + 1);
    } else {
      k := i;
    }
  }

  lemma {:induction false} StartIs(w: nat, len: nat, k: nat)
    requires len < w
    ensures Start(w, len, k) == k * (w - len)
  {
    if k > 0 {
      StartIs(w, len, k - 1);
    }
  }

  /** Where that is: at a multiple of the window less the decoded length, at or before `o`, of a page that is
      read, and either the next page starts behind `o` or this one reaches the end of the file. */
  lemma LastStartIs(data: string, w: nat, len: nat, o: nat) returns (k: nat)
    requires len < w && data != ""
    ensures LastStart(|data|, w, len, o, 0) == k * (w - len) <= o
    ensures k == 0 || k * (w - len) + len < |data|
    ensures o < (k + 1) * (w - len) || k * (w - len) + w >= |data|
  {
    k := LastStartPage(data, w, len, o, 0);
    StartIs(w, len, k);
  }

  // ----- the whole file

  /** Soundness, for any file: what a page shows occurs in the file. */
  lemma SeenOccurs(data: string, needle: string, w: nat, len: nat)
    requires len < w && Seen(data, needle, w, len)
    ensures Occurs(data, needle)
  {
    var k: nat, o: nat :| Shows(data, needle, w, len, k, o);
  }

  /** Completeness: whatever the file length and page size, every occurrence lies whole inside
      some page that is read, also when it straddles the end of another. */
  lemma EveryOccurrenceInSomePage(data: string, needle: string, w: nat, len: nat, o: nat) returns (k: nat)
    requires |needle| <= len < w && data != "" && OccursAt(data, needle, o)
    ensures PageRead(data, w, len, k) && Start(w, len, k) == LastStart(|data|, w, len, o, 0)
    ensures Start(w, len, k) <= o && o + |needle| <= Start(w, len, k) + w
  {
    k := LastStartPage(data, w, len, o, 0);
  }

  /** No page that is read starts between the last such start at or before `o` and `o`. */
  lemma NoLaterStart(data: string, w: nat, len: nat, o: nat, j: nat)
    requires len < w && PageRead(data, w, len, j) && Start(w, len, j) <= o
    ensures data != "" && Start(w, len, j) <= LastStart(|data|, w, len, o, 0)
  {
    var k := LastStartPage(data, w, len, o, 0);
    if j <= k {
      StartMonotone(w, len, j, k);
    } else {
      StartMonotone(w, len, k + 1, j);
    }
  }

  /** The pattern stands at `o`, with no NUL from the start of the last page that begins there or
      before: where the pages start depends on lengths alone. */
  predicate Visible(data: string, needle: string, w: nat, len: nat, o: nat)
    requires len < w
  {
    OccursAt(data, needle, o) && NUL !in data[LastStart(|data|, w, len, o, 0)..o]
  }

  ghost predicate SomeVisible(data: string, needle: string, w: nat, len: nat)
    requires len < w
  {
    exists o: nat :: Visible(data, needle, w, len, o)
  }

  /** Which occurrences some page shows, for any file, NUL characters included. */
  lemma ShownIffVisible(data: string, needle: string, w: nat, len: nat, o: nat)
    requires |needle| <= len < w
    ensures (exists k: nat :: Shows(data, needle, w, len, k, o)) <==> data != "" && Visible(data, needle, w, len, o)
  {
    if k: nat :| Shows(data, needle, w, len, k, o) {
      NoLaterStart(data, w, len, o, k);
      var s, r := Start(w, len, k), LastStart(|data|, w, len, o, 0);
      assert data[r..o] == data[s..o][r - s..];
    }
    if data != "" && Visible(data, needle, w, len, o) {
      var k := EveryOccurrenceInSomePage(data, needle, w, len, o);
      assert Shows(data, needle, w, len, k, o);
    }
  }

  /** The paged search of any file finds the pattern exactly when one of its occurrences is visible. */
  lemma SeenIffVisible(data: string, needle: string, w: nat, len: nat)
    requires |needle| <= len < w
    ensures Seen(data, needle, w, len) <==> data != "" && SomeVisible(data, needle, w, len)
  {
    if Seen(data, needle, w, len) {
      var k: nat, o: nat :| Shows(data, needle, w, len, k, o);
      ShownIffVisible(data, needle, w, len, o);
    }
    if o: nat :| Visible(data, needle, w, len, o) {
      ShownIffVisible(data, needle, w, len, o);
    }
  }

  lemma VisibleIffOccurs(data: string, needle: string, w: nat, len: nat)
    requires len < w && NUL !in data
    ensures SomeVisible(data, needle, w, len) <==> Occurs(data, needle)
  {
    forall o: nat ensures Visible(data, needle, w, len, o) <==> OccursAt(data, needle, o) {
    }
  }

  /** In a file without NUL characters nothing is missed. */
  lemma SeenIffOccurs(data: string, needle: string, w: nat, len: nat)
    requires |needle| <= len < w && NUL !in data
    ensures Seen(data, needle, w, len) <==> data != "" && Occurs(data, needle)
  {
    SeenIffVisible(data, needle, w, len);
    VisibleIffOccurs(data, needle, w, len);
  }

  /** A NUL does hide what follows it on its page: the paged search can miss. */
  lemma NulHides()
    ensures var data := ['A', NUL, 'B'];
            Occurs(data, "B") && forall w: nat :: w >= 3 ==> !Seen(data, "B", w, 1)
  {
    var data := ['A', NUL, 'B'];
    assert OccursAt(data, "B", 2);
    forall w: nat | w >= 3 ensures !Seen(data, "B", w, 1) {
      SeenIffVisible(data, "B", w, 1);
      forall o: nat ensures !Visible(data, "B", w, 1, o) {
        if OccursAt(data, "B", o) {
          assert data[o..o + 1][0] == 'B';
          assert data[0..2][1] == NUL;
        }
      }
    }
  }

  // ----- the loop

  lemma TerminatedPage(buffer: string, page: string)
    requires |page| < |buffer| && buffer[..|page|] == page && buffer[|page|] == NUL
    ensures CStr(buffer) == CStr(page)
  {
    var n := StrLen(page);
    assert forall i :: 0 <= i < |page| ==> buffer[i] == buffer[..|page|][i] == page[i];
    assert buffer[..n] == page[..n];
    StrLenIs(buffer, n);
  }

  /** None of the first `k` pages shows an occurrence. */
  ghost predicate NoneBefore(data: string, needle: string, w: nat, len: nat, k: nat)
    requires len < w
  {
    forall j: nat, o: nat :: j < k ==> !Shows(data, needle, w, len, j, o)
  }

  /** Searching page `k` settles it, one way or the other. */
  lemma PageSearched(data: string, needle: string, w: nat, len: nat, k: nat)
    requires len < w && NUL !in needle && PageRead(data, w, len, k) && Start(w, len, k) <= |data|
    requires NoneBefore(data, needle, w, len, k)
    ensures if Occurs(CStr(Page(data, w, Start(w, len, k))), needle) then Seen(data, needle, w, len)
            else NoneBefore(data, needle, w, len, k + 1)
  {
    var s := Start(w, len, k);
    PageHit(data, needle, w, s);
    if Occurs(CStr(Page(data, w, s)), needle) {
      var o: nat :| ShownAt(data, needle, w, s, o);
      assert Shows(data, needle, w, len, k, o);
    }
  }

  lemma NoneAtAll(data: string, needle: string, w: nat, len: nat, k: nat)
    requires len < w && NoneBefore(data, needle, w, len, k) && !PageRead(data, w, len, k)
    ensures !Seen(data, needle, w, len)
  {
    forall j: nat, o: nat ensures !Shows(data, needle, w, len, j, o) {
      if k <= j {
        NoLaterPage(data, w, len, k, j);
      }
    }
  }

  /** Read one window into `buf` and terminate it. */
  method ReadWindow(input: File, buf: array<char>) returns (n: nat)
    requires buf.Length > 0 && input.pos <= |input.data|
    modifies input`pos, buf
    ensures n == |Page(input.data, buf.Length - 1, old(input.pos))|
    ensures input.pos == old(input.pos) + n
    ensures CStr(buf[..]) == CStr(Page(input.data, buf.Length - 1, old(input.pos)))
  {
    ghost var page := Page(input.data, buf.Length - 1, input.pos);
    n := input.Read(buf, 0, buf.Length - 1);
    assert buf[..n] == page;
    buf[n] := NUL;
    assert buf[..n] == page;
    TerminatedPage(buf[..], page);
  }

  /** Read page `k` and search it. */
  method SearchPage(input: File, buf: array<char>, needle: string, ghost len: nat, ghost k: nat)
    returns (n: nat, found: bool)
    requires NUL !in needle && len < buf.Length - 1 && input.pos <= |input.data|
    requires PageRead(input.data, buf.Length - 1, len, k) && input.pos == Start(buf.Length - 1, len, k)
    requires NoneBefore(input.data, needle, buf.Length - 1, len, k)
    modifies input`pos, buf
    ensures n == (if |input.data| - old(input.pos) <= buf.Length - 1 then |input.data| - old(input.pos) else buf.Length - 1)
    ensures input.pos == old(input.pos) + n
    ensures if found then Seen(input.data, needle, buf.Length - 1, len)
            else NoneBefore(input.data, needle, buf.Length - 1, len, k + 1)
  {
    PageSearched(input.data, needle, buf.Length - 1, len, k);
    n := ReadWindow(input, buf);
    found := Occurs(CStr(buf[..]), needle);
  }

  /** The inner loop: read a window, search it, step back by the decoded length, until the end. */
  method ScanFile(input: File, buf: array<char>, needle: string, len: nat) returns (found: bool)
    requires NUL !in needle && |needle| <= len && len < buf.Length - 1
    requires |input.data| < 0x8000_0000
    modifies input`pos, buf
    ensures found <==> Seen(input.data, needle, buf.Length - 1, len)
  {
    ghost var data, w := input.data, buf.Length - 1;
    ghost var k: nat := 0;
    var originalSize := |input.data|;
    var size := originalSize;
    input.pos := 0;
    while size > 0
      invariant 0 <= size == |data| - input.pos
      invariant size > 0 ==> PageRead(data, w, len, k) && input.pos == Start(w, len, k)
      invariant size == 0 ==> !PageRead(data, w, len, k)
      invariant NoneBefore(data, needle, w, len, k)
      decreases size
    {
      var n, hit := SearchPage(input, buf, needle, len, k);
      if hit {
        return true;
      }
      if input.pos != originalSize {
        input.pos := input.pos - len;
        size := size - n + len;
      } else {
        size := size - n;
      }
      k := k + 1;
      buf[0] := NUL;
    }
    NoneAtAll(data, needle, w, len, k);
    return false;
  }
}
