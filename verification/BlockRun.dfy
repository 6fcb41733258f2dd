/** Whole runs of the SIMD validators, on the lane-level specification: block
    after block, with or without the ASCII fast path, then the zero-padded tail
    or the end-of-input test. */
module BlockRun {
  import opened Utf8
  import opened Automaton
  import opened LazyAutomaton
  import opened PrefixSum
  import opened Kernel

  datatype Path = Plain | AsciiPath

  /** `previous`, and whether has_error is still zero. */
  datatype RunState = RunState(previous: Processed, clean: bool)

  function Zeros(n: nat): (z: Vec)
    ensures |z| == n && AllAscii(z) && forall k :: 0 <= k < n ==> z[k] == 0
  {
    seq(n, _ => 0)
  }

  function Start(w: nat): (st: RunState)
    requires w >= 5
    ensures Valid(st.previous, w)
  {
    var z := Zeros(w);
    assert Nibbles(z) == z;
    RunState(Processed(z, z, z), true)
  }

  /** One block. The fast path tests only that no character is unfinished, and
      hands `previous` on unchanged. */
  function Block(path: Path, st: RunState, cur: Vec): (st': RunState)
    requires Valid(st.previous, |cur|)
    ensures Valid(st'.previous, |cur|)
  {
    if path.AsciiPath? && AllAscii(cur) then
      RunState(st.previous, st.clean && !Unfinished(st.previous.carries))
    else
      RunState(Process(st.previous, cur), st.clean && BlockClean(st.previous, cur))
  }

  predicate Blocks(w: nat, blocks: seq<Vec>) {
    w >= 5 && forall i :: 0 <= i < |blocks| ==> |blocks[i]| == w
  }

  function RunBlocks(path: Path, w: nat, blocks: seq<Vec>): (st: RunState)
    requires Blocks(w, blocks)
    ensures Valid(st.previous, w)
  {
    if blocks == [] then Start(w)
    else Block(path, RunBlocks(path, w, blocks[..|blocks| - 1]), blocks[|blocks| - 1])
  }

  function Flatten(blocks: seq<Vec>): seq<Byte> {
    if blocks == [] then [] else Flatten(blocks[..|blocks| - 1]) + blocks[|blocks| - 1]
  }

  // ----- the invariant of all runs

  /** What ties a run to the automaton, on either path. */
  predicate Tracks(st: RunState, w: nat, q: LazyState) {
    && (st.clean <==> q != REJECT)
    && (st.clean ==> Describes(st.previous, w, q))
  }

  lemma {:induction false} StartTracks(w: nat)
    requires w >= 5
    ensures Tracks(Start(w), w, 0)
  {
  }

  /** A block of ASCII passes exactly between characters, and if it passes, the
      stale `previous` still describes the state. */
  lemma {:induction false} FastBlockTracks(st: RunState, cur: Vec, q: LazyState)
    requires Tracks(st, |cur|, q) && Valid(st.previous, |cur|) && AllAscii(cur)
    ensures Tracks(Block(AsciiPath, st, cur), |cur|, LazyRun(q, cur))
  {
    if st.clean { UnfinishedIffOwed(st.previous, |cur|, q); }
    LazyAscii(q, cur);
  }

  lemma {:induction false} FullBlockTracks(st: RunState, cur: Vec, q: LazyState)
    requires Tracks(st, |cur|, q) && Valid(st.previous, |cur|)
    ensures Tracks(Block(Plain, st, cur), |cur|, LazyRun(q, cur))
  {
    if st.clean {
      BlockFlags(st.previous, cur, q);
      if BlockClean(st.previous, cur) { BlockSimulates(st.previous, cur, q); }
    } else {
      LazyRejectAbsorbs(cur);
    }
  }

  /** After any number of blocks, on either path, has_error is zero exactly when
      the lazy automaton has not rejected the bytes read, and then the last
      carry and the last byte of `previous` alone give its state. */
  lemma {:induction false} RunTracks(path: Path, w: nat, blocks: seq<Vec>)
    requires Blocks(w, blocks)
    ensures Tracks(RunBlocks(path, w, blocks), w, LazyRun(0, Flatten(blocks)))
  {
    if blocks == [] {
      StartTracks(w);
    } else {
      var before, cur := blocks[..|blocks| - 1], blocks[|blocks| - 1];
      RunTracks(path, w, before);
      LazyConcat(0, Flatten(before), cur);
      var st, q := RunBlocks(path, w, before), LazyRun(0, Flatten(before));
      if path.AsciiPath? && AllAscii(cur) {
        FastBlockTracks(st, cur, q);
      } else {
        FullBlockTracks(st, cur, q);
      }
    }
  }

  /** has_error is zero after whole blocks exactly when they are a prefix of a
      well-formed string, or a well-formed string and a single C0 or C1. */
  lemma {:induction false} CleanIffViable(path: Path, w: nat, blocks: seq<Vec>)
    requires Blocks(w, blocks)
    ensures RunBlocks(path, w, blocks).clean <==> Viable(Flatten(blocks)) || EndsPending(Flatten(blocks))
  {
    var s := Flatten(blocks);
    RunTracks(path, w, blocks);
    LazyStates(s);
    NotRejectedIffViable(s);
  }

  /** The fast path is invisible: after every block its has_error is zero exactly
      when that of the plain kernel is. */
  lemma {:induction false} AsciiPathRefines(w: nat, blocks: seq<Vec>)
    requires Blocks(w, blocks)
    ensures RunBlocks(AsciiPath, w, blocks).clean == RunBlocks(Plain, w, blocks).clean
  {
    RunTracks(AsciiPath, w, blocks);
    RunTracks(Plain, w, blocks);
  }

  predicate AllAsciiBlocks(blocks: seq<Vec>) {
    forall i :: 0 <= i < |blocks| ==> AllAscii(blocks[i])
  }

  /** The blocks with a byte that is not ASCII. */
  function NotAscii(w: nat, blocks: seq<Vec>): (r: seq<Vec>)
    requires Blocks(w, blocks)
    ensures Blocks(w, r)
  {
    if blocks == [] then []
    else
      var init, cur := NotAscii(w, blocks[..|blocks| - 1]), blocks[|blocks| - 1];
      if AllAscii(cur) then init else init + [cur]
  }

  lemma {:induction false} RunAnother(path: Path, w: nat, blocks: seq<Vec>, cur: Vec)
    requires Blocks(w, blocks) && |cur| == w
    ensures Blocks(w, blocks + [cur])
    ensures RunBlocks(path, w, blocks + [cur]) == Block(path, RunBlocks(path, w, blocks), cur)
  {
    assert (blocks + [cur])[..|blocks|] == blocks;
  }

  /** What the fast path skips: `previous` is what the plain kernel would leave if
      the ASCII blocks were not there at all. */
  lemma {:induction false} FastPathSkips(w: nat, blocks: seq<Vec>)
    requires Blocks(w, blocks)
    ensures RunBlocks(AsciiPath, w, blocks).previous == RunBlocks(Plain, w, NotAscii(w, blocks)).previous
  {
    if blocks != [] {
      var init, cur := blocks[..|blocks| - 1], blocks[|blocks| - 1];
      FastPathSkips(w, init);
      if !AllAscii(cur) { RunAnother(Plain, w, NotAscii(w, init), cur); }
    }
  }

  lemma {:induction false} NotAsciiBefore(w: nat, blocks: seq<Vec>, ascii: seq<Vec>)
    requires Blocks(w, blocks) && Blocks(w, ascii) && AllAsciiBlocks(ascii)
    ensures NotAscii(w, blocks + ascii) == NotAscii(w, blocks)
  {
    if ascii == [] {
      assert blocks + ascii == blocks;
    } else {
      var init := ascii[..|ascii| - 1];
      NotAsciiBefore(w, blocks, init);
      assert (blocks + ascii)[..|blocks + ascii| - 1] == blocks + init;
    }
  }

  /** However many ASCII blocks come after others, `previous` stays as it was. */
  lemma {:induction false} AsciiBlocksKeepPrevious(w: nat, blocks: seq<Vec>, ascii: seq<Vec>)
    requires Blocks(w, blocks) && Blocks(w, ascii) && AllAsciiBlocks(ascii)
    ensures RunBlocks(AsciiPath, w, blocks + ascii).previous == RunBlocks(AsciiPath, w, blocks).previous
  {
    FastPathSkips(w, blocks);
    FastPathSkips(w, blocks + ascii);
    NotAsciiBefore(w, blocks, ascii);
  }

  /** The plain kernel keeps the last block and its carries, whatever came before. */
  lemma {:induction false} PlainPrevious(w: nat, blocks: seq<Vec>, k: nat)
    requires Blocks(w, blocks) && blocks != [] && 3 <= k < w
    ensures var previous, cur := RunBlocks(Plain, w, blocks).previous, blocks[|blocks| - 1];
      && previous.rawBytes == cur
      && previous.highNibbles[k] == cur[k] / 16
      && previous.carries[k] == Reach(cur, k)
  {
    var before, cur := RunBlocks(Plain, w, blocks[..|blocks| - 1]).previous, blocks[|blocks| - 1];
    CarryReach(before.carries[w - 1], before.carries[w - 2], InitialLengths(cur), k);
    assert Process(before, cur).carries[k] == LaneCarry(before.carries, cur, k);
  }

  /** The automaton state that the last lane of a block stands for. */
  function LastLaneState(prev: Processed): LazyState
    requires |prev.carries| == |prev.rawBytes| > 0
  {
    StateOf(prev.carries[|prev.carries| - 1], prev.rawBytes[|prev.rawBytes| - 1])
  }

  lemma {:induction false} LastLaneTracks(st: RunState, w: nat, q: LazyState)
    requires w >= 5 && Tracks(st, w, q) && st.clean
    ensures |st.previous.carries| == |st.previous.rawBytes| > 0 && LastLaneState(st.previous) == q
  {
  }

  /** The DFA state of the bytes read so far is a function of the last lane,
      except that a final C0 or C1 is rejected there and only PENDING here. */
  lemma {:induction false} DfaStateFromLastLane(path: Path, w: nat, blocks: seq<Vec>)
    requires Blocks(w, blocks) && RunBlocks(path, w, blocks).clean
    ensures var q := LastLaneState(RunBlocks(path, w, blocks).previous);
      && (q == PENDING <==> EndsPending(Flatten(blocks)))
      && Run(0, Flatten(blocks)) == (if q == PENDING then REJECT else q)
  {
    var s := Flatten(blocks);
    RunTracks(path, w, blocks);
    LastLaneTracks(RunBlocks(path, w, blocks), w, LazyRun(0, s));
    LazyStates(s);
  }

  lemma {:induction false} TrackedCarries(st: RunState, s: seq<Byte>, cur: Vec, k: nat)
    requires Valid(st.previous, |cur|) && Tracks(st, |cur|, LazyRun(0, s)) && st.clean && 1 <= k < |cur|
    requires forall j :: 0 <= j <= k ==> !BadLane(st.previous, cur, j)
    ensures Process(st.previous, cur).carries[k] == 1 + LazyMissing(LazyRun(0, s + cur[..k + 1]))
  {
    LazyConcat(0, s, cur[..k + 1]);
    CarryCounts(st.previous, cur, LazyRun(0, s), k);
  }

  /** Carry correctness across registers, on runs. While has_error is zero and no
      lane up to k is flagged, the carry of lane k >= 1 is one more than the bytes
      that everything read up to its byte is missing. */
  lemma {:induction false} CarryCountsMissing(path: Path, w: nat, blocks: seq<Vec>, st: RunState, cur: Vec, k: nat)
    requires Blocks(w, blocks) && st == RunBlocks(path, w, blocks) && st.clean && |cur| == w && 1 <= k < w
    requires forall j :: 0 <= j <= k ==> !BadLane(st.previous, cur, j)
    ensures Process(st.previous, cur).carries[k] == 1 + LazyMissing(LazyRun(0, Flatten(blocks) + cur[..k + 1]))
  {
    RunTracks(path, w, blocks);
    TrackedCarries(st, Flatten(blocks), cur, k);
  }

  /** In lane 0, flagged or not, the excess over the announced length is what the
      blocks before are missing, plus the overcount. */
  lemma {:induction false} LaneZeroCountsMissing(path: Path, w: nat, blocks: seq<Vec>, st: RunState, cur: Vec)
    requires Blocks(w, blocks) && st == RunBlocks(path, w, blocks) && st.clean && |cur| == w
    ensures Process(st.previous, cur).carries[0] ==
      InitialLength(cur[0]) + LazyMissing(LazyRun(0, Flatten(blocks))) + Minus(st.previous.carries[w - 2], 2)
  {
    RunTracks(path, w, blocks);
    LaneZeroCounts(st.previous, cur, LazyRun(0, Flatten(blocks)));
  }

  // ----- the verdict

  /** The whole blocks of an input. */
  function WholeBlocks(w: nat, s: seq<Byte>): (blocks: seq<Vec>)
    requires w >= 5
    ensures Blocks(w, blocks)
  {
    if |s| < w then [] else [s[..w]] + WholeBlocks(w, s[w..])
  }

  function Rest(w: nat, s: seq<Byte>): (r: seq<Byte>)
    requires w >= 5
    ensures |r| < w
  {
    if |s| < w then s else Rest(w, s[w..])
  }

  function Pad(w: nat, rest: seq<Byte>): (cur: Vec)
    requires |rest| <= w
    ensures |cur| == w
  {
    rest + Zeros(w - |rest|)
  }

  predicate Verdict(path: Path, w: nat, s: seq<Byte>)
    requires w >= 5
  {
    var st, rest := RunBlocks(path, w, WholeBlocks(w, s)), Rest(w, s);
    if rest == [] then st.clean && !Unfinished(st.previous.carries)
    else Block(Plain, st, Pad(w, rest)).clean
  }

  lemma {:induction false} FlattenCons(b: Vec, blocks: seq<Vec>)
    ensures Flatten([b] + blocks) == b + Flatten(blocks)
  {
    if blocks == [] {
      assert Flatten([b]) == Flatten([]) + b;
      assert [b] + blocks == [b];
    } else {
      var init := blocks[..|blocks| - 1];
      FlattenCons(b, init);
      assert ([b] + blocks)[..|blocks|] == [b] + init;
    }
  }

  lemma {:induction false} Rejoin(s: seq<Byte>, w: nat, b: seq<Byte>, c: seq<Byte>)
    requires w <= |s| && b + c == s[w..]
    ensures (s[..w] + b) + c == s
  {
    assert (s[..w] + b) + c == s[..w] + (b + c);
  }

  lemma {:induction false} Reassemble(w: nat, s: seq<Byte>)
    requires w >= 5
    ensures Flatten(WholeBlocks(w, s)) + Rest(w, s) == s
    decreases |s|
  {
    if |s| < w {
      assert WholeBlocks(w, s) == [] && Rest(w, s) == s;
    } else {
      var blocks, rest := WholeBlocks(w, s[w..]), Rest(w, s[w..]);
      Reassemble(w, s[w..]);
      FlattenCons(s[..w], blocks);
      Rejoin(s, w, Flatten(blocks), rest);
      assert Flatten(WholeBlocks(w, s)) == s[..w] + Flatten(blocks);
    }
  }

  lemma {:induction false} EndTest(st: RunState, w: nat, s: seq<Byte>)
    requires Valid(st.previous, w) && Tracks(st, w, LazyRun(0, s))
    ensures st.clean && !Unfinished(st.previous.carries) <==> WellFormed(s)
  {
    if st.clean { UnfinishedIffOwed(st.previous, w, LazyRun(0, s)); }
    LazyStates(s);
  }

  lemma {:induction false} FullBlockVerdict(st: RunState, cur: Vec, q: LazyState)
    requires Tracks(st, |cur|, q) && Valid(st.previous, |cur|)
    ensures Block(Plain, st, cur).clean <==> LazyRun(q, cur) != REJECT
  {
    FullBlockTracks(st, cur, q);
  }

  lemma {:induction false} PaddingPasses(s: seq<Byte>, rest: seq<Byte>, w: nat)
    requires |rest| < w
    ensures LazyRun(LazyRun(0, s), Pad(w, rest)) != REJECT <==> WellFormed(s + rest)
  {
    var zeros := Zeros(w - |rest|);
    LazyConcat(0, s, rest + zeros);
    assert s + (rest + zeros) == (s + rest) + zeros;
    LazyAsciiTail(s + rest, zeros);
  }

  lemma {:induction false} TailTest(st: RunState, w: nat, s: seq<Byte>, rest: seq<Byte>)
    requires Valid(st.previous, w) && Tracks(st, w, LazyRun(0, s)) && |rest| < w
    ensures Block(Plain, st, Pad(w, rest)).clean <==> WellFormed(s + rest)
  {
    FullBlockVerdict(st, Pad(w, rest), LazyRun(0, s));
    PaddingPasses(s, rest, w);
  }

  /** Every SIMD validator, at every width and on either path, accepts exactly
      the well-formed strings. */
  lemma {:induction false} VerdictIsWellFormed(path: Path, w: nat, s: seq<Byte>)
    requires w >= 5
    ensures Verdict(path, w, s) <==> WellFormed(s)
  {
    var blocks, rest := WholeBlocks(w, s), Rest(w, s);
    var st := RunBlocks(path, w, blocks);
    RunTracks(path, w, blocks);
    Reassemble(w, s);
    if rest == [] {
      assert Flatten(blocks) + rest == Flatten(blocks);
      EndTest(st, w, Flatten(blocks));
    } else {
      TailTest(st, w, Flatten(blocks), rest);
    }
  }
}
