/** The trace module's log buffer: records are copied in without a terminator and a flush writes
    `strlen` characters, so a flushed block ends with whatever older rounds left behind. */
module TraceLog {
  import opened CString
  import opened LogFiles

  // ----- the buffer, as its characters up to the high-water mark

  /** What one flush writes: `image`, of which the first `used` characters are this round's. */
  datatype Block = Block(image: string, used: nat)

  /** The log since load: flushed blocks, and the non-NUL characters of the buffer with the used part in front. */
  datatype Log = Log(blocks: seq<Block>, image: string, used: nat)

  const EMPTY := Log([], "", 0)

  predicate WellFormed(l: Log, P: nat) {
    l.used <= |l.image| < P && forall i :: 0 <= i < |l.blocks| ==> l.blocks[i].used <= |l.blocks[i].image|
  }

  /** A record as every `trace_*` function builds it: not empty, no NUL, shorter than the page. */
  predicate GoodRecord(r: string, P: nat) {
    0 < |r| < P && NUL !in r
  }

  function Flush(l: Log): Log {
    l.(blocks := l.blocks + [Block(l.image, l.used)], used := 0)
  }

  /** Append a record, flushing first when it does not fit into what is vacant. */
  function Append(l: Log, r: string, P: nat): (n: Log)
    requires WellFormed(l, P) && GoodRecord(r, P)
    ensures WellFormed(n, P)
  {
    var f := if P - l.used <= |r| then Flush(l) else l;
    f.(image := Overlay(f.image, f.used, r), used := f.used + |r|)
  }

  /** The log after a sequence of records. */
  function Logged(rs: seq<string>, P: nat): (l: Log)
    requires 0 < P && forall i :: 0 <= i < |rs| ==> GoodRecord(rs[i], P)
    ensures WellFormed(l, P)
  {
    if rs == [] then EMPTY else Append(Logged(rs[..|rs| - 1], P), rs[|rs| - 1], P)
  }

  /** `trace_exit`: a last flush if anything is in the buffer. */
  function Finish(l: Log): Log {
    if l.used > 0 then Flush(l) else l
  }

  /** The log file: all blocks in order. */
  function FileOf(blocks: seq<Block>): string {
    if blocks == [] then "" else FileOf(blocks[..|blocks| - 1]) + blocks[|blocks| - 1].image
  }

  /** The blocks without the characters beyond their used length. */
  function UsefulOf(blocks: seq<Block>): string
    requires forall i :: 0 <= i < |blocks| ==> blocks[i].used <= |blocks[i].image|
  {
    if blocks == [] then ""
    else UsefulOf(blocks[..|blocks| - 1]) + blocks[|blocks| - 1].image[..blocks[|blocks| - 1].used]
  }

  // ----- nothing is lost

  lemma FlushAdds(l: Log, P: nat)
    requires WellFormed(l, P)
    ensures WellFormed(Flush(l), P)
    ensures UsefulOf(Flush(l).blocks) == UsefulOf(l.blocks) + l.image[..l.used]
    ensures FileOf(Flush(l).blocks) == FileOf(l.blocks) + l.image
  {
    var blocks := Flush(l).blocks;
    assert blocks[..|blocks| - 1] == l.blocks;
  }

  lemma AppendAdds(l: Log, r: string, P: nat)
    requires WellFormed(l, P) && GoodRecord(r, P)
    ensures var n := Append(l, r, P);
            UsefulOf(n.blocks) + n.image[..n.used] == UsefulOf(l.blocks) + l.image[..l.used] + r
  {
    FlushAdds(l, P);
    var u, a := UsefulOf(l.blocks), l.image[..l.used];
    assert u + (a + r) == u + a + r;
    assert l.image[..0] + r == r;
  }

  /** The used parts of the blocks and of the buffer are exactly the records, in call order. */
  lemma {:induction false} RecordsInOrder(rs: seq<string>, P: nat)
    requires 0 < P && forall i :: 0 <= i < |rs| ==> GoodRecord(rs[i], P)
    ensures var l := Logged(rs, P); UsefulOf(l.blocks) + l.image[..l.used] == Concat(rs)
    decreases |rs|
  {
    if rs != [] {
      RecordsInOrder(rs[..|rs| - 1], P);
      AppendAdds(Logged(rs[..|rs| - 1], P), rs[|rs| - 1], P);
    }
  }

  /** After unload: removing from each block what lies beyond its used length leaves all records. */
  lemma NothingLost(rs: seq<string>, P: nat)
    requires 0 < P && forall i :: 0 <= i < |rs| ==> GoodRecord(rs[i], P)
    ensures WellFormed(Finish(Logged(rs, P)), P)
    ensures UsefulOf(Finish(Logged(rs, P)).blocks) == Concat(rs)
  {
    var l := Logged(rs, P);
    RecordsInOrder(rs, P);
    FlushAdds(l, P);
    assert l.used == 0 ==> UsefulOf(l.blocks) + l.image[..0] == UsefulOf(l.blocks);
  }

  // ----- how long a flush is

  /** The largest used length of a sequence of blocks. */
  function MaxUsed(blocks: seq<Block>): nat {
    if blocks == [] then 0
    else
      var m, u := MaxUsed(blocks[..|blocks| - 1]), blocks[|blocks| - 1].used;
      if m < u then u else m
  }

  /** Every block, and the buffer, is as long as the largest used length since load, and what a block
      shows beyond its used part is what the block before it had there. */
  ghost predicate HighWater(l: Log) {
    && |l.image| == (if MaxUsed(l.blocks) < l.used then l.used else MaxUsed(l.blocks))
    && (forall i :: 0 <= i < |l.blocks| ==> |l.blocks[i].image| == MaxUsed(l.blocks[..i + 1]))
    && (forall i :: 0 < i < |l.blocks| ==> StaleTail(l.blocks[i - 1].image, l.blocks[i].image, l.blocks[i].used))
    && (l.blocks != [] ==> StaleTail(l.blocks[|l.blocks| - 1].image, l.image, l.used))
  }

  /** Beyond `used`, `image` repeats `before`. */
  ghost predicate StaleTail(before: string, image: string, used: nat) {
    |before| <= |image| && (forall k :: used <= k < |image| ==> k < |before| && image[k] == before[k])
  }

  lemma MaxUsedFlush(l: Log)
    requires HighWater(l)
    ensures MaxUsed(Flush(l).blocks) == |l.image|
    ensures forall i :: 0 <= i < |Flush(l).blocks| ==> |Flush(l).blocks[i].image| == MaxUsed(Flush(l).blocks[..i + 1])
  {
    var blocks := Flush(l).blocks;
    assert blocks[..|l.blocks|] == l.blocks && blocks[..|blocks|] == blocks;
    forall i | 0 <= i < |blocks| ensures |blocks[i].image| == MaxUsed(blocks[..i + 1]) {
      assert i < |l.blocks| ==> blocks[..i + 1] == l.blocks[..i + 1];
    }
  }

  lemma FlushHighWater(l: Log, P: nat)
    requires WellFormed(l, P) && HighWater(l)
    ensures HighWater(Flush(l))
  {
    var n := Flush(l);
    MaxUsedFlush(l);
    forall i | 0 < i < |n.blocks| ensures StaleTail(n.blocks[i - 1].image, n.blocks[i].image, n.blocks[i].used) {
      if i < |l.blocks| {
        assert StaleTail(l.blocks[i - 1].image, l.blocks[i].image, l.blocks[i].used);
      }
    }
  }

  lemma OverlayHighWater(l: Log, r: string, P: nat)
    requires WellFormed(l, P) && HighWater(l) && l.used + |r| < P
    ensures HighWater(l.(image := Overlay(l.image, l.used, r), used := l.used + |r|))
  {
    var image, used := Overlay(l.image, l.used, r), l.used + |r|;
    if l.blocks != [] {
      var before := l.blocks[|l.blocks| - 1].image;
      forall k | used <= k < |image| ensures k < |before| && image[k] == before[k] {
        assert image[k] == l.image[k];
      }
    }
  }

  lemma AppendHighWater(l: Log, r: string, P: nat)
    requires WellFormed(l, P) && GoodRecord(r, P) && HighWater(l)
    ensures HighWater(Append(l, r, P))
  {
    if P - l.used <= |r| {
      FlushHighWater(l, P);
      OverlayHighWater(Flush(l), r, P);
    } else {
      OverlayHighWater(l, r, P);
    }
  }

  /** Each flush is exactly as long as the largest used length since load. */
  lemma {:induction false} FlushLengths(rs: seq<string>, P: nat)
    requires 0 < P && forall i :: 0 <= i < |rs| ==> GoodRecord(rs[i], P)
    ensures HighWater(Logged(rs, P)) && HighWater(Finish(Logged(rs, P)))
    decreases |rs|
  {
    if rs != [] {
      FlushLengths(rs[..|rs| - 1], P);
      AppendHighWater(Logged(rs[..|rs| - 1], P), rs[|rs| - 1], P);
    }
    FlushHighWater(Logged(rs, P), P);
  }

  /** What a flush writes beyond the records of its round is what the flush before it wrote there. */
  lemma StaleEnd(rs: seq<string>, P: nat, i: nat, k: nat)
    requires 0 < P && forall j :: 0 <= j < |rs| ==> GoodRecord(rs[j], P)
    ensures var blocks := Finish(Logged(rs, P)).blocks;
            0 < i < |blocks| && blocks[i].used <= k < |blocks[i].image| ==>
              k < |blocks[i - 1].image| && blocks[i].image[k] == blocks[i - 1].image[k]
  {
    FlushLengths(rs, P);
  }

  // ----- when the file is exactly the records

  lemma {:induction false} StaleLength(blocks: seq<Block>)
    requires forall i :: 0 <= i < |blocks| ==> blocks[i].used <= |blocks[i].image|
    ensures |UsefulOf(blocks)| <= |FileOf(blocks)|
    ensures |UsefulOf(blocks)| == |FileOf(blocks)| <==>
            forall i :: 0 <= i < |blocks| ==> blocks[i].used == |blocks[i].image|
    ensures (forall i :: 0 <= i < |blocks| ==> blocks[i].used == |blocks[i].image|) ==> UsefulOf(blocks) == FileOf(blocks)
    decreases |blocks|
  {
    if blocks != [] {
      var front, last := blocks[..|blocks| - 1], blocks[|blocks| - 1];
      StaleLength(front);
      assert forall i :: 0 <= i < |front| ==> front[i] == blocks[i];
      if |UsefulOf(blocks)| == |FileOf(blocks)| {
        assert last.used == |last.image|;
      }
      assert last.image[..|last.image|] == last.image;
    }
  }

  /** Every flush happened when the used length was at its largest since load. */
  ghost predicate AtHighWater(blocks: seq<Block>) {
    forall i :: 0 <= i < |blocks| ==> blocks[i].used == MaxUsed(blocks[..i + 1])
  }

  lemma BlocksExactIff(l: Log, P: nat)
    requires WellFormed(l, P) && HighWater(l)
    ensures FileOf(l.blocks) == UsefulOf(l.blocks) <==> AtHighWater(l.blocks)
  {
    StaleLength(l.blocks);
  }

  // ----- the same by the lengths of the records alone

  /** Packing records of these lengths into rounds: the totals of the full rounds and of the open one. */
  function Rounds(lens: seq<nat>, P: nat): (seq<nat>, nat) {
    if lens == [] then ([], 0)
    else
      var (full, used) := Rounds(lens[..|lens| - 1], P);
      var n := lens[|lens| - 1];
      if P - used <= n then (full + [used], n) else (full, used + n)
  }

  /** The totals of all rounds, the last one included unless it is empty. */
  function Totals(lens: seq<nat>, P: nat): seq<nat> {
    var (full, used) := Rounds(lens, P);
    if used > 0 then full + [used] else full
  }

  predicate NeverShrinks(totals: seq<nat>) {
    forall i :: 0 < i < |totals| ==> totals[i - 1] <= totals[i]
  }

  /** The totals are the used lengths of the blocks. */
  ghost predicate UsedAre(blocks: seq<Block>, totals: seq<nat>) {
    |blocks| == |totals| && forall i :: 0 <= i < |blocks| ==> blocks[i].used == totals[i]
  }

  lemma {:induction false} RoundsAre(rs: seq<string>, P: nat)
    requires 0 < P && forall i :: 0 <= i < |rs| ==> GoodRecord(rs[i], P)
    ensures var l, r := Logged(rs, P), Rounds(Lengths(rs), P); UsedAre(l.blocks, r.0) && l.used == r.1
    decreases |rs|
  {
    if rs != [] {
      var front := rs[..|rs| - 1];
      RoundsAre(front, P);
      assert Lengths(rs)[..|rs| - 1] == Lengths(front);
    }
  }

  lemma TotalsAre(rs: seq<string>, P: nat)
    requires 0 < P && forall i :: 0 <= i < |rs| ==> GoodRecord(rs[i], P)
    ensures UsedAre(Finish(Logged(rs, P)).blocks, Totals(Lengths(rs), P))
  {
    RoundsAre(rs, P);
  }

  lemma {:induction false} MaxOfGrowing(blocks: seq<Block>, i: nat)
    requires i < |blocks| && forall j :: 0 < j <= i ==> blocks[j - 1].used <= blocks[j].used
    ensures MaxUsed(blocks[..i + 1]) == blocks[i].used
    decreases i
  {
    assert blocks[..i + 1][..i] == blocks[..i];
    if i > 0 {
      MaxOfGrowing(blocks, i - 1);
    }
  }

  lemma MaxStep(blocks: seq<Block>, i: nat)
    requires 0 < i < |blocks|
    ensures MaxUsed(blocks[..i]) <= MaxUsed(blocks[..i + 1])
  {
    assert blocks[..i + 1][..i] == blocks[..i];
  }

  lemma HighWaterIffGrowing(blocks: seq<Block>, totals: seq<nat>)
    requires UsedAre(blocks, totals)
    ensures AtHighWater(blocks) <==> NeverShrinks(totals)
  {
    if NeverShrinks(totals) {
      forall i | 0 <= i < |blocks| ensures blocks[i].used == MaxUsed(blocks[..i + 1]) {
        MaxOfGrowing(blocks, i);
      }
    }
    if AtHighWater(blocks) {
      forall i | 0 < i < |totals| ensures totals[i - 1] <= totals[i] {
        MaxStep(blocks, i);
        assert blocks[i - 1].used == MaxUsed(blocks[..i - 1 + 1]);
      }
    }
  }

  /** What one life of the module writes into its file. */
  function Written(rs: seq<string>, P: nat): string
    requires 0 < P && forall i :: 0 <= i < |rs| ==> GoodRecord(rs[i], P)
  {
    FileOf(Finish(Logged(rs, P)).blocks)
  }

  /** After unload what was written is exactly the concatenation of all records if and only if packing
      the records into rounds never gives a round that is shorter than the one before it. */
  lemma ExactIff(rs: seq<string>, P: nat)
    requires 0 < P && forall i :: 0 <= i < |rs| ==> GoodRecord(rs[i], P)
    ensures Written(rs, P) == Concat(rs) <==> NeverShrinks(Totals(Lengths(rs), P))
  {
    NothingLost(rs, P);
    FlushLengths(rs, P);
    BlocksExactIff(Finish(Logged(rs, P)), P);
    TotalsAre(rs, P);
    HighWaterIffGrowing(Finish(Logged(rs, P)).blocks, Totals(Lengths(rs), P));
  }

  lemma LoggedOne(r: string, P: nat)
    requires GoodRecord(r, P)
    ensures Logged([r], P) == Log([], r, |r|)
  {
    assert [r][..0] == [];
    assert Overlay("", 0, r) == r;
  }

  lemma OneBlock(a: Block)
    ensures FileOf([a]) == a.image
  {
    assert [a][..0] == [];
    assert "" + a.image == a.image;
  }

  lemma TwoBlocks(a: Block, b: Block)
    ensures FileOf([a, b]) == a.image + b.image
  {
    assert [a, b][..1] == [a];
    OneBlock(a);
  }

  lemma WrittenOne(r: string, P: nat)
    requires GoodRecord(r, P)
    ensures Written([r], P) == r
  {
    LoggedOne(r, P);
    OneBlock(Block(r, |r|));
    assert [] + [Block(r, |r|)] == [Block(r, |r|)];
  }

  lemma AppendFlushes(l: Log, r: string, P: nat)
    requires WellFormed(l, P) && GoodRecord(r, P) && P - l.used <= |r|
    ensures Append(l, r, P) == Log(l.blocks + [Block(l.image, l.used)], Overlay(l.image, 0, r), |r|)
  {
  }

  lemma AppendFits(l: Log, r: string, P: nat)
    requires WellFormed(l, P) && GoodRecord(r, P) && l.used + |r| < P
    ensures Append(l, r, P) == Log(l.blocks, Overlay(l.image, l.used, r), l.used + |r|)
  {
  }

  lemma {:induction false} StillFits(rs: seq<string>, P: nat)
    requires 0 < P && (forall i :: 0 <= i < |rs| ==> GoodRecord(rs[i], P)) && |Concat(rs)| < P
    ensures Logged(rs, P) == Log([], Concat(rs), |Concat(rs)|)
    decreases |rs|
  {
    if rs != [] {
      var front, last := rs[..|rs| - 1], rs[|rs| - 1];
      StillFits(front, P);
      AppendFits(Logged(front, P), last, P);
      assert Overlay(Concat(front), |Concat(front)|, last) == Concat(front) + last;
    }
  }

  /** Records that fit the page together are written by one flush, at unload. */
  lemma OneFlush(rs: seq<string>, P: nat)
    requires 0 < P && (forall i :: 0 <= i < |rs| ==> GoodRecord(rs[i], P)) && 0 < |Concat(rs)| < P
    ensures Finish(Logged(rs, P)).blocks == [Block(Concat(rs), |Concat(rs)|)] && Written(rs, P) == Concat(rs)
  {
    StillFits(rs, P);
    OneBlock(Block(Concat(rs), |Concat(rs)|));
  }

  lemma LoggedTwo(a: string, b: string, P: nat)
    requires GoodRecord(a, P) && GoodRecord(b, P)
    ensures WellFormed(Log([], a, |a|), P) && Logged([a, b], P) == Append(Log([], a, |a|), b, P)
  {
    LoggedOne(a, P);
    assert [a, b][..1] == [a];
  }

  /** A flush below the high-water mark does repeat older characters: a shorter record that no
      longer fits is followed in the file by the rest of the longer one before it. */
  lemma StaleCharactersAppear(long: string, short: string, P: nat)
    requires GoodRecord(long, P) && GoodRecord(short, P) && |short| < |long| && P <= |long| + |short|
    ensures Written([long, short], P) == long + short + long[|short|..]
  {
    var image := Overlay(long, 0, short);
    LoggedTwo(long, short, P);
    AppendFlushes(Log([], long, |long|), short, P);
    TwoBlocks(Block(long, |long|), Block(image, |short|));
    assert [] + [Block(long, |long|)] + [Block(image, |short|)] == [Block(long, |long|), Block(image, |short|)];
    assert long + image == long + short + long[|short|..];
  }

  // ----- one life after another

  predicate GoodLives(lives: seq<seq<string>>, P: nat) {
    forall i, j :: 0 <= i < |lives| && 0 <= j < |lives[i]| ==> GoodRecord(lives[i][j], P)
  }

  /** What each life writes. */
  function Texts(lives: seq<seq<string>>, P: nat): (ws: seq<string>)
    requires 0 < P && GoodLives(lives, P)
    ensures |ws| == |lives| && forall i :: 0 <= i < |lives| ==> ws[i] == Written(lives[i], P)
  {
    seq(|lives|, i requires 0 <= i < |lives| => Written(lives[i], P))
  }

  /** A life writes something exactly when it has a record. */
  lemma WrittenEmptyIff(rs: seq<string>, P: nat)
    requires 0 < P && forall i :: 0 <= i < |rs| ==> GoodRecord(rs[i], P)
    ensures Written(rs, P) == "" <==> rs == []
  {
    NothingLost(rs, P);
    StaleLength(Finish(Logged(rs, P)).blocks);
    if rs != [] {
      assert |Concat(rs)| >= |rs[|rs| - 1]|;
    }
  }

  /** All that stood in the file and all that the lives of the module wrote is there, one after the
      other, if and only if at most one life has records, and none has if the file was not empty. */
  lemma LivesKeptIff(start: string, lives: seq<seq<string>>, P: nat)
    requires 0 < P && GoodLives(lives, P)
    ensures Layered(start, Texts(lives, P)) == start + Concat(Texts(lives, P)) <==>
            && (forall i, j :: 0 <= i < j < |lives| ==> lives[i] == [] || lives[j] == [])
            && (start == "" || forall i :: 0 <= i < |lives| ==> lives[i] == [])
  {
    var ws := Texts(lives, P);
    NoneLostIff(start, ws);
    forall i | 0 <= i < |lives| ensures ws[i] == "" <==> lives[i] == [] {
      WrittenEmptyIff(lives[i], P);
    }
  }

  /** The used parts of what each life writes are its records, and an empty file ends up with all that the
      lives write, one after the other, if and only if at most one of them has records. */
  lemma FileOfLives(lives: seq<seq<string>>, P: nat)
    requires 0 < P && GoodLives(lives, P)
    ensures forall i :: 0 <= i < |lives| ==> UsefulOf(Finish(Logged(lives[i], P)).blocks) == Concat(lives[i])
    ensures Layered("", Texts(lives, P)) == Concat(Texts(lives, P)) <==>
            forall i, j :: 0 <= i < j < |lives| ==> lives[i] == [] || lives[j] == []
  {
    forall i | 0 <= i < |lives| ensures UsefulOf(Finish(Logged(lives[i], P)).blocks) == Concat(lives[i]) {
      NothingLost(lives[i], P);
    }
    LivesKeptIff("", lives, P);
    assert "" + Concat(Texts(lives, P)) == Concat(Texts(lives, P));
  }

  /** When one life alone has records, an empty file ends up with exactly those if and only if packing
      them into rounds never gives a shorter round after a longer one. */
  lemma OneLifeExactIff(lives: seq<seq<string>>, i: nat, P: nat)
    requires 0 < P && GoodLives(lives, P) && i < |lives|
    requires forall j :: 0 <= j < |lives| && j != i ==> lives[j] == []
    ensures Layered("", Texts(lives, P)) == Concat(lives[i]) <==> NeverShrinks(Totals(Lengths(lives[i]), P))
  {
    var ws := Texts(lives, P);
    forall j | 0 <= j < |lives| && j != i ensures ws[j] == "" {
      WrittenEmptyIff(lives[j], P);
    }
    OnlyText(ws, i);
    NoneLostIff("", ws);
    assert "" + Concat(ws) == Concat(ws);
    ExactIff(lives[i], P);
  }

  /** A record is gone after a reload: the second life writes over the first. */
  lemma ReloadOverwrites(first: string, second: string, P: nat)
    requires GoodRecord(first, P) && GoodRecord(second, P) && |first| <= |second|
    ensures GoodLives([[first], [second]], P) && Layered("", Texts([[first], [second]], P)) == second
  {
    WrittenOne(first, P);
    WrittenOne(second, P);
    var ws := Texts([[first], [second]], P);
    assert ws == [first, second];
    TwoLayers(first, second);
    assert Over(first, second) == second;
  }

  // ----- the module

  /** The module's globals: the page that holds the records, its vacant room, and the log file. */
  class TraceModule {
    const buf: array<char>
    var vacant: int
    const out: LogFile
    ghost const start: string
    ghost var log: Log

    /** The file holds what this life has flushed, over what was there when it was opened. */
    ghost predicate Filed()
      reads this, out
    {
      out.data == Over(start, FileOf(log.blocks)) && out.pos == |FileOf(log.blocks)|
    }

    /** The buffer is the log's image followed by NUL characters only; just after a flush its first
        character is NUL until the next record overwrites it. */
    ghost predicate Held(flushed: bool)
      reads this, buf
    {
      && WellFormed(log, buf.Length)
      && (forall k :: 0 <= k < |log.image| ==> log.image[k] != NUL && (buf[k] == log.image[k] || (k == 0 && flushed)))
      && (forall k :: |log.image| <= k < buf.Length ==> buf[k] == NUL)
      && (flushed ==> log.used == 0)
    }

    ghost predicate Ready(flushed: bool)
      reads this, buf
    {
      Held(flushed) && vacant == buf.Length - log.used
    }

    ghost predicate Valid()
      reads this, buf, out
    {
      Ready(false) && Filed()
    }

    /** `trace_init`, with a buffer of zeros. */
    constructor (P: nat, file: LogFile)
      requires 0 < P
      modifies file`pos
      ensures Valid() && buf.Length == P && log == EMPTY && out == file && start == old(file.data) && fresh(buf)
    {
      buf := new char[P](_ => NUL);
      vacant := P;
      out := file;
      start := file.data;
      log := EMPTY;
      new;
      out.Open();
    }

    /** `write_to_file` of `strlen` characters of the buffer. */
    method WriteOut()
      requires Held(false) && Filed()
      modifies out, `log
      ensures Held(false) && Filed() && log == Flush(old(log))
    {
      StrLenIs(buf[..], |log.image|);
      assert buf[..|log.image|] == log.image;
      WriteOver(start, FileOf(log.blocks), log.image);
      FlushAdds(log, buf.Length);
      out.Write(buf[..StrLen(buf[..])]);
      log := Flush(log);
    }

    /** Write the buffer out and start a new round. */
    method Drain()
      requires Valid()
      modifies this, buf, out
      ensures Ready(true) && Filed() && log == Flush(old(log))
    {
      WriteOut();
      Restart();
    }

    method Restart()
      requires Held(false) && log.used == 0
      modifies `vacant, buf
      ensures Ready(true)
    {
      vacant := buf.Length;
      buf[0] := NUL;
    }

    /** `strncpy` of a record behind the used part. */
    method Copy(record: string, ghost flushed: bool)
      requires Ready(flushed) && GoodRecord(record, buf.Length) && |record| < vacant
      modifies this, buf
      ensures Ready(false)
      ensures var l := old(log); log == l.(image := Overlay(l.image, l.used, record), used := l.used + |record|)
    {
      ghost var b := buf[..];
      var at := buf.Length - vacant;
      for i := 0 to |record|
        modifies buf
        invariant forall k :: at <= k < at + i ==> buf[k] == record[k - at]
        invariant forall k :: 0 <= k < at || at + i <= k < buf.Length ==> buf[k] == b[k]
      {
        buf[at + i] := record[i];
      }
      vacant := vacant - |record|;
      ghost var image := Overlay(log.image, log.used, record);
      log := log.(image := image, used := log.used + |record|);
    }

    /** The append-or-flush pattern that every `trace_*` function repeats. */
    method Trace(record: string)
      requires Valid() && GoodRecord(record, buf.Length)
      modifies this, buf, out
      ensures Valid() && log == Append(old(log), record, buf.Length)
    {
      if vacant <= |record| {
        Drain();
        Copy(record, true);
      } else {
        Copy(record, false);
      }
    }

    /** `trace_exit` up to closing the file. */
    method Exit()
      requires Valid()
      modifies out, `log
      ensures log == Finish(old(log)) && Filed()
    {
      if vacant < buf.Length {
        WriteOut();
      }
    }
  }

  /** A whole life of the module: load, any records, unload. */
  method TraceLife(file: LogFile, rs: seq<string>, P: nat)
    requires 0 < P && forall i :: 0 <= i < |rs| ==> GoodRecord(rs[i], P)
    modifies file
    ensures file.data == Over(old(file.data), Written(rs, P))
  {
    var m := new TraceModule(P, file);
    for i := 0 to |rs|
      invariant fresh(m) && fresh(m.buf) && m.out == file && m.start == old(file.data)
      invariant m.Valid() && m.buf.Length == P && m.log == Logged(rs[..i], P)
    {
      assert rs[..i + 1][..i] == rs[..i];
      m.Trace(rs[i]);
    }
    assert rs[..|rs|] == rs;
    m.Exit();
  }

  /** Any number of lives on one file. */
  method TraceLives(file: LogFile, lives: seq<seq<string>>, P: nat)
    requires 0 < P && GoodLives(lives, P)
    modifies file
    ensures file.data == Layered(old(file.data), Texts(lives, P))
  {
    ghost var ws := Texts(lives, P);
    for i := 0 to |lives|
      invariant file.data == Layered(old(file.data), ws[..i])
    {
      TraceLife(file, lives[i], P);
      assert ws[..i + 1][..i] == ws[..i];
    }
    assert ws[..|lives|] == ws;
  }
}
