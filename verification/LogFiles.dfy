/** A log file that is opened without truncation and written from its start again by one writer after another. */
module LogFiles {

  function Concat(rs: seq<string>): string {
    if rs == [] then "" else Concat(rs[..|rs| - 1]) + rs[|rs| - 1]
  }

  function Lengths(rs: seq<string>): seq<nat> {
    seq(|rs|, i requires 0 <= i < |rs| => |rs[i]|)
  }

  /** Characters written at index `used` of a buffer or a file: older ones beyond them stay. */
  function Overlay(image: string, used: nat, r: string): (s: string)
    requires used <= |image|
    ensures |s| == if used + |r| < |image| then |image| else used + |r|
    ensures s[..used + |r|] == image[..used] + r
    ensures forall k :: 0 <= k < |s| ==> s[k] == if used <= k < used + |r| then r[k - used] else image[k]
  {
    image[..used] + r + (if used + |r| < |image| then image[used + |r|..] else "")
  }

  /** What a file holds when `w` is written over `before` from its start on. */
  function Over(before: string, w: string): (s: string)
    ensures |s| == if |w| < |before| then |before| else |w|
    ensures forall k :: 0 <= k < |s| ==> s[k] == if k < |w| then w[k] else before[k]
  {
    w + (if |w| < |before| then before[|w|..] else "")
  }

  /** The file after several lives that each wrote a text: every life opens it without truncating it
      and writes from its start. */
  function Layered(start: string, ws: seq<string>): string {
    if ws == [] then start else Over(Layered(start, ws[..|ws| - 1]), ws[|ws| - 1])
  }

  lemma Snoc(start: string, ws: seq<string>, front: seq<string>, last: string)
    requires ws == front + [last]
    ensures Layered(start, ws) == Over(Layered(start, front), last) && Concat(ws) == Concat(front) + last
  {
    assert ws[..|ws| - 1] == front;
  }

  lemma TwoLayers(a: string, b: string)
    ensures Layered("", [a, b]) == Over(a, b)
  {
    Snoc("", [a, b], [a], b);
    Snoc("", [a], [], a);
    assert Over("", a) == a;
  }

  /** Each character is the one written by the last life that wrote that far. */
  lemma {:induction false} LastWriter(start: string, ws: seq<string>, i: nat, k: nat)
    requires i < |ws| && k < |ws[i]| && forall j :: i < j < |ws| ==> |ws[j]| <= k
    ensures k < |Layered(start, ws)| && Layered(start, ws)[k] == ws[i][k]
    decreases |ws|
  {
    if i + 1 < |ws| {
      LastWriter(start, ws[..|ws| - 1], i, k);
    }
  }

  /** The texts are all empty. */
  predicate NoneWritten(ws: seq<string>) {
    forall i :: 0 <= i < |ws| ==> ws[i] == ""
  }

  lemma {:induction false} OnlyText(ws: seq<string>, i: nat)
    requires i < |ws| && forall j :: 0 <= j < |ws| && j != i ==> ws[j] == ""
    ensures Concat(ws) == ws[i]
    decreases |ws|
  {
    var front, last := ws[..|ws| - 1], ws[|ws| - 1];
    if i + 1 < |ws| {
      OnlyText(front, i);
      assert ws[i] + "" == ws[i];
    } else {
      NoneWrittenIff(front);
      assert "" + last == last;
    }
  }

  /** Of what stood in the file and what was written to it at most one text is not empty. */
  predicate AtMostOne(start: string, ws: seq<string>) {
    && (forall i, j :: 0 <= i < j < |ws| ==> ws[i] == "" || ws[j] == "")
    && (start == "" || NoneWritten(ws))
  }

  lemma {:induction false} LayeredShorter(start: string, ws: seq<string>)
    ensures |start| <= |Layered(start, ws)| <= |start| + |Concat(ws)|
    decreases |ws|
  {
    if ws != [] {
      LayeredShorter(start, ws[..|ws| - 1]);
    }
  }

  lemma {:induction false} NoneWrittenIff(ws: seq<string>)
    ensures Concat(ws) == "" <==> NoneWritten(ws)
    decreases |ws|
  {
    if ws != [] {
      var front := ws[..|ws| - 1];
      NoneWrittenIff(front);
      assert |Concat(ws)| == |Concat(front)| + |ws[|ws| - 1]|;
      assert forall i :: 0 <= i < |front| ==> front[i] == ws[i];
    }
  }

  lemma AtMostOneStep(start: string, ws: seq<string>, front: seq<string>, last: string)
    requires ws == front + [last]
    ensures AtMostOne(start, ws) <==> AtMostOne(start, front) && (last == "" || (start == "" && NoneWritten(front)))
  {
    var n := |front|;
    assert ws[n] == last && forall i :: 0 <= i < n ==> ws[i] == front[i];
    if AtMostOne(start, ws) {
      assert forall i :: 0 <= i < n ==> ws[i] == "" || ws[n] == "";
    }
    if AtMostOne(start, front) && (last == "" || (start == "" && NoneWritten(front))) {
      forall i, j | 0 <= i < j < |ws| ensures ws[i] == "" || ws[j] == "" {
        assert j < n ==> front[i] == "" || front[j] == "";
      }
    }
  }

  /** Nothing that stood in the file or was written to it is lost, if and only if at most one of these
      texts is not empty. */
  lemma {:induction false} NoneLostIff(start: string, ws: seq<string>)
    ensures Layered(start, ws) == start + Concat(ws) <==> AtMostOne(start, ws)
    decreases |ws|
  {
    if ws == [] {
      assert start + "" == start;
    } else {
      var front, last := ws[..|ws| - 1], ws[|ws| - 1];
      NoneLostIff(start, front);
      AtMostOneStep(start, ws, front, last);
      LayeredShorter(start, front);
      NoneWrittenIff(front);
      var before := Layered(start, front);
      if last == "" {
        assert Over(before, last) == before && Concat(front) + last == Concat(front);
      } else if start == "" && NoneWritten(front) {
        assert Over(before, last) == last && start + (Concat(front) + last) == last;
      } else {
        assert |Over(before, last)| < |start + (Concat(front) + last)|;
      }
    }
  }

  // ----- the file

  /** The log file: its contents stay when the module goes. */
  class LogFile {
    var data: string
    var pos: nat

    constructor (data: string)
      ensures this.data == data && pos == 0
    {
      this.data := data;
      pos := 0;
    }

    /** `filp_open` for writing, without truncation. */
    method Open()
      modifies `pos
      ensures pos == 0
    {
      pos := 0;
    }

    /** `vfs_write` at the file's own position. */
    method Write(text: string)
      requires pos <= |data|
      modifies this
      ensures data == Overlay(old(data), old(pos), text) && pos == old(pos) + |text|
    {
      data := Overlay(data, pos, text);
      pos := pos + |text|;
    }
  }

  lemma WriteOver(start: string, w: string, text: string)
    ensures Overlay(Over(start, w), |w|, text) == Over(start, w + text)
  {
  }
}
