/**
  The block table of mm/heap.c as a value: one byte per block, holding TAKEN,
  IS_FIRST and HAS_NEXT bits, read as an encoding of a set of disjoint runs.
 */
module HeapTable {
  import opened Machine

  type Entry = bv8

  const FREE: Entry := 0x00
  const TAKEN: Entry := 0x01
  const HAS_NEXT: Entry := 0x80
  const IS_FIRST: Entry := 0x40

  /** A run of blocks is named by its first block and maps to its length. */
  type Runs = map<nat, nat>

  predicate IsFree(e: Entry) {
    e & 0x0F == FREE
  }

  /** What block i of the run of n blocks at b is marked with. */
  function RunEntry(b: nat, n: nat, i: nat): Entry
    requires b <= i < b + n
  {
    TAKEN | (if i == b then IS_FIRST else 0) | (if i < b + n - 1 then HAS_NEXT else 0)
  }

  predicate Covers(runs: Runs, b: nat, i: nat) {
    b in runs && b <= i < b + runs[b]
  }

  /** The table is exactly the marking of these runs: every block of every run is marked, every other block is FREE. */
  ghost predicate Encodes(t: seq<Entry>, runs: Runs) {
    && (forall b :: b in runs ==> runs[b] >= 1 && b + runs[b] <= |t|)
    && (forall b, i :: b in runs && b <= i < b + runs[b] ==> t[i] == RunEntry(b, runs[b], i))
    && (forall i :: 0 <= i < |t| && t[i] != FREE ==> exists b :: Covers(runs, b, i))
  }

  /** The bytes of a table: 0x41 for a run of one block, 0xC1, 0x81 .. 0x81, 0x01 for a longer one, and 0 elsewhere. */
  lemma TableBytes(t: seq<Entry>, runs: Runs, i: nat)
    requires Encodes(t, runs) && i < |t|
    ensures (!exists b :: Covers(runs, b, i)) ==> t[i] == 0x00
    ensures forall b :: Covers(runs, b, i) ==>
      t[i] == if runs[b] == 1 then 0x41 else if i == b then 0xC1 else if i + 1 < b + runs[b] then 0x81 else 0x01
  {
    forall b | Covers(runs, b, i)
      ensures t[i] == if runs[b] == 1 then 0x41 else if i == b then 0xC1 else if i + 1 < b + runs[b] then 0x81 else 0x01
    {
      assert t[i] == RunEntry(b, runs[b], i);
    }
  }

  /** Two different runs of an encoding share no block. */
  lemma RunsDisjoint(t: seq<Entry>, runs: Runs, a: nat, b: nat)
    requires Encodes(t, runs) && a in runs && b in runs && a != b
    ensures a + runs[a] <= b || b + runs[b] <= a
  {
    assert t[a] == RunEntry(a, runs[a], a);
    assert t[b] == RunEntry(b, runs[b], b);
  }

  /** A block starts a run exactly when its IS_FIRST bit is set. */
  lemma FirstBitMeansStart(t: seq<Entry>, runs: Runs, i: nat)
    requires Encodes(t, runs) && i < |t|
    ensures i in runs <==> t[i] & IS_FIRST != 0
  {
    if i in runs {
      assert t[i] == RunEntry(i, runs[i], i);
    } else if t[i] != FREE {
      var b :| Covers(runs, b, i);
      assert t[i] == RunEntry(b, runs[b], i);
    }
  }

  lemma FreeMeansUncovered(t: seq<Entry>, runs: Runs, i: nat)
    requires Encodes(t, runs) && i < |t|
    ensures IsFree(t[i]) <==> t[i] == FREE
    ensures IsFree(t[i]) <==> !exists b :: Covers(runs, b, i)
  {
    if exists b :: Covers(runs, b, i) {
      var b :| Covers(runs, b, i);
      assert t[i] == RunEntry(b, runs[b], i);
    }
  }

  /** The table determines its runs: no two sets of runs have the same encoding. */
  lemma {:induction false} DecodingUnique(t: seq<Entry>, r1: Runs, r2: Runs)
    requires Encodes(t, r1) && Encodes(t, r2)
    ensures r1 == r2
  {
    forall b: nat ensures b in r1 <==> b in r2 {
      if b < |t| {
        FirstBitMeansStart(t, r1, b);
        FirstBitMeansStart(t, r2, b);
      }
    }
    forall b | b in r1 ensures r1[b] == r2[b] {
      LongerRunClash(t, r1, r2, b);
      LongerRunClash(t, r2, r1, b);
    }
  }

  lemma LongerRunClash(t: seq<Entry>, r1: Runs, r2: Runs, b: nat)
    requires Encodes(t, r1) && Encodes(t, r2) && b in r1 && b in r2
    ensures r1[b] <= r2[b]
  {
    var last := b + r2[b] - 1;
    assert t[last] == RunEntry(b, r2[b], last);
  }

  /** The runs determine the table: freeing back to the same runs is freeing back to the same bytes. */
  lemma EncodingUnique(t1: seq<Entry>, t2: seq<Entry>, runs: Runs)
    requires |t1| == |t2| && Encodes(t1, runs) && Encodes(t2, runs)
    ensures t1 == t2
  {
    forall i | 0 <= i < |t1| ensures t1[i] == t2[i] {
      FreeMeansUncovered(t1, runs, i);
      FreeMeansUncovered(t2, runs, i);
      if t1[i] != FREE {
        var b :| Covers(runs, b, i);
        assert t1[i] == RunEntry(b, runs[b], i) == t2[i];
      }
    }
  }

  // ----- searching and marking

  predicate Fits(t: seq<Entry>, b: nat, n: nat) {
    b + n <= |t| && forall i :: b <= i < b + n ==> IsFree(t[i])
  }

  /** First fit: the lowest start of n consecutive free blocks at or after `from`, or -ENOMEM. */
  function FirstFitFrom(t: seq<Entry>, n: nat, from: nat): int
    decreases |t| - from
  {
    if from + n > |t| then ENOMEM
    else if n <= |t| && Fits(t, from, n) then from
    else if from < |t| then FirstFitFrom(t, n, from + 1)
    else ENOMEM
  }

  function FirstFit(t: seq<Entry>, n: nat): int {
    FirstFitFrom(t, n, 0)
  }

  /** First fit fails exactly when no place fits, and otherwise no lower place fits. */
  lemma {:induction false} FirstFitMeaning(t: seq<Entry>, n: nat, from: nat)
    requires n > 0
    ensures var r := FirstFitFrom(t, n, from);
      if r < 0 then r == -3 && forall b: nat :: from <= b ==> !Fits(t, b, n)
      else from <= r && Fits(t, r, n) && forall b: nat :: from <= b < r ==> !Fits(t, b, n)
    decreases |t| - from
  {
    if from + n <= |t| && !Fits(t, from, n) {
      FirstFitMeaning(t, n, from + 1);
    }
  }

  /** A place that fits with no lower place fitting is what first fit returns. */
  lemma FirstFitIs(t: seq<Entry>, n: nat, r: int)
    requires n > 0
    requires if r < 0 then r == ENOMEM && forall b: nat :: !Fits(t, b, n)
             else Fits(t, r, n) && forall b: nat :: b < r ==> !Fits(t, b, n)
    ensures r == FirstFit(t, n)
  {
    FirstFitMeaning(t, n, 0);
  }

  /** A request for n blocks that is refused. */
  ghost predicate NoRoom(t: seq<Entry>, n: nat) {
    n == 0 || forall b: nat :: !Fits(t, b, n)
  }

  function Marked(t: seq<Entry>, b: nat, n: nat): seq<Entry> {
    seq(|t|, i requires 0 <= i < |t| => if b <= i < b + n then RunEntry(b, n, i) else t[i])
  }

  /** Marking n free blocks adds exactly that run. */
  lemma MarkedEncodes(t: seq<Entry>, runs: Runs, b: nat, n: nat)
    requires Encodes(t, runs) && n > 0 && Fits(t, b, n)
    ensures b !in runs
    ensures Encodes(Marked(t, b, n), runs[b := n])
    ensures forall a :: a in runs ==> a + runs[a] <= b || b + n <= a
  {
    var t', runs' := Marked(t, b, n), runs[b := n];
    assert IsFree(t[b]);
    forall a | a in runs ensures a + runs[a] <= b || b + n <= a {
      assert t[a] == RunEntry(a, runs[a], a);
    }
    forall i | 0 <= i < |t'| && t'[i] != FREE ensures exists a :: Covers(runs', a, i) {
      if b <= i < b + n {
        assert Covers(runs', b, i);
      } else {
        var a :| Covers(runs, a, i);
        assert Covers(runs', a, i);
      }
    }
  }

  ghost function FreeBlocks(t: seq<Entry>): set<nat> {
    set i: nat | i < |t| && IsFree(t[i])
  }

  /** The n blocks from b on. */
  ghost function Blocks(b: nat, n: nat): (r: set<nat>)
    ensures |r| == n && forall i :: i in r <==> b <= i < b + n
  {
    if n == 0 then {} else Blocks(b, n - 1) + {b + n - 1}
  }

  /** Taking a run uses up exactly its free blocks. */
  lemma RunTaken(t: seq<Entry>, b: nat, n: nat)
    requires Fits(t, b, n)
    ensures FreeBlocks(Marked(t, b, n)) == FreeBlocks(t) - Blocks(b, n)
    ensures |FreeBlocks(Marked(t, b, n))| == |FreeBlocks(t)| - n
  {
    assert Blocks(b, n) <= FreeBlocks(t);
    assert FreeBlocks(Marked(t, b, n)) == FreeBlocks(t) - Blocks(b, n);
  }

  // ----- freeing

  /** The block after the last one that freeing from b clears: the walk stops past the first block without HAS_NEXT. */
  function WalkEnd(t: seq<Entry>, b: nat): (r: nat)
    requires b < |t|
    ensures b < r <= |t|
    decreases |t| - b
  {
    if t[b] & HAS_NEXT == 0 || b + 1 == |t| then b + 1 else WalkEnd(t, b + 1)
  }

  function Freed(t: seq<Entry>, b: nat): seq<Entry> {
    if b >= |t| then t
    else seq(|t|, i requires 0 <= i < |t| => if b <= i < WalkEnd(t, b) then FREE else t[i])
  }

  lemma {:induction false} WalkEndIs(t: seq<Entry>, b: nat, e: nat)
    requires b < e <= |t|
    requires forall i :: b <= i < e - 1 ==> t[i] & HAS_NEXT != 0
    requires t[e - 1] & HAS_NEXT == 0 || e == |t|
    ensures WalkEnd(t, b) == e
    decreases e - b
  {
    if b + 1 < e {
      assert t[b] & HAS_NEXT != 0;
      WalkEndIs(t, b + 1, e);
    }
  }

  /** From any block of a run the walk stops where the run stops. */
  lemma WalkStopsWithRun(t: seq<Entry>, runs: Runs, a: nat, i: nat)
    requires Encodes(t, runs) && Covers(runs, a, i)
    ensures WalkEnd(t, i) == a + runs[a]
  {
    forall k | i <= k < a + runs[a] ensures t[k] == RunEntry(a, runs[a], k) {
    }
    WalkEndIs(t, i, a + runs[a]);
  }

  /** Freeing a run start removes exactly that run. */
  lemma FreedEncodes(t: seq<Entry>, runs: Runs, b: nat)
    requires Encodes(t, runs) && b in runs
    ensures b < |t|
    ensures Encodes(Freed(t, b), runs - {b})
  {
    assert Covers(runs, b, b);
    WalkStopsWithRun(t, runs, b, b);
    var t', runs' := Freed(t, b), runs - {b};
    forall a, i | a in runs' && a <= i < a + runs'[a] ensures t'[i] == RunEntry(a, runs'[a], i) {
      RunsDisjoint(t, runs, a, b);
    }
    forall i | 0 <= i < |t'| && t'[i] != FREE ensures exists a :: Covers(runs', a, i) {
      var a :| Covers(runs, a, i);
      assert Covers(runs', a, i);
    }
  }

  /** Freeing a free block, or one past the table, changes nothing. */
  lemma FreedUnused(t: seq<Entry>, runs: Runs, b: nat)
    requires Encodes(t, runs) && (b < |t| ==> IsFree(t[b]))
    ensures Freed(t, b) == t
  {
    if b < |t| {
      FreeMeansUncovered(t, runs, b);
      assert WalkEnd(t, b) == b + 1;
    }
    assert |Freed(t, b)| == |t| && forall i :: 0 <= i < |t| ==> Freed(t, b)[i] == t[i];
  }

  /** Freeing from the middle of a run leaves its front pointing at a free block: no set of runs encodes the result. */
  lemma FreedMidRun(t: seq<Entry>, runs: Runs, b: nat, runs': Runs)
    requires Encodes(t, runs) && b < |t| && !IsFree(t[b]) && b !in runs
    ensures !Encodes(Freed(t, b), runs')
  {
    FreeMeansUncovered(t, runs, b);
    var a :| Covers(runs, a, b);
    WalkStopsWithRun(t, runs, a, b);
    var t' := Freed(t, b);
    var front := b - 1;
    assert t'[front] == RunEntry(a, runs[a], front) && t'[b] == FREE;
    if exists c :: Covers(runs', c, front) {
      var c :| Covers(runs', c, front);
      assert t'[front] & HAS_NEXT != 0;
    }
  }

  /** What a caller can check before a free: the block is outside the table, free, or the first of its run. */
  predicate CleanToFree(t: seq<Entry>, b: nat) {
    b >= |t| || IsFree(t[b]) || t[b] & IS_FIRST != 0
  }

  function RunsAfterFree(t: seq<Entry>, runs: Runs, b: nat): Runs {
    if b in runs then runs - {b} else runs
  }

  /** A free keeps the table an encoding exactly when the block is clean to free. */
  lemma FreeKeepsEncoding(t: seq<Entry>, runs: Runs, b: nat)
    requires Encodes(t, runs)
    ensures CleanToFree(t, b) ==> Encodes(Freed(t, b), RunsAfterFree(t, runs, b))
    ensures CleanToFree(t, b) <==> exists r :: Encodes(Freed(t, b), r)
  {
    if b < |t| {
      FirstBitMeansStart(t, runs, b);
    }
    if CleanToFree(t, b) {
      if b in runs {
        FreedEncodes(t, runs, b);
      } else {
        FreedUnused(t, runs, b);
      }
      assert Encodes(Freed(t, b), RunsAfterFree(t, runs, b));
    } else {
      forall r ensures !Encodes(Freed(t, b), r) {
        FreedMidRun(t, runs, b, r);
      }
    }
  }

  /** Freeing a run just marked restores the table byte for byte. */
  lemma MarkThenFree(t: seq<Entry>, runs: Runs, b: nat, n: nat)
    requires Encodes(t, runs) && n > 0 && Fits(t, b, n)
    ensures Freed(Marked(t, b, n), b) == t
  {
    MarkedEncodes(t, runs, b, n);
    FreedEncodes(Marked(t, b, n), runs[b := n], b);
    assert runs[b := n] - {b} == runs;
    EncodingUnique(Freed(Marked(t, b, n), b), t, runs);
  }

  // ----- many frees, of any blocks at all

  /** No run covers the block: a free that starts there meets nothing. */
  predicate Unused(t: seq<Entry>, b: nat) {
    b >= |t| || t[b] == FREE
  }

  /** A free from a block that is not FREE clears it, one from an unused block changes nothing, and no free fills a
      block. */
  lemma FreeOnlyClears(t: seq<Entry>, b: nat)
    ensures |Freed(t, b)| == |t|
    ensures forall k :: 0 <= k < |t| ==> Freed(t, b)[k] == t[k] || Freed(t, b)[k] == FREE
    ensures Unused(t, b) ==> Freed(t, b) == t
    ensures b < |t| ==> Freed(t, b)[b] == FREE
  {
    assert b < |t| ==> b < WalkEnd(t, b);
    if b < |t| && t[b] == FREE {
      WalkEndIs(t, b, b + 1);
      assert Freed(t, b) == t;
    }
  }

  /** One free after the other. */
  function FreedAll(t: seq<Entry>, bs: seq<nat>): seq<Entry>
    decreases |bs|
  {
    if bs == [] then t else Freed(FreedAll(t, bs[..|bs| - 1]), bs[|bs| - 1])
  }

  lemma NothingFreed(t: seq<Entry>)
    ensures FreedAll(t, []) == t
  {
  }

  lemma FreedAllStep(t: seq<Entry>, bs: seq<nat>, b: nat)
    ensures FreedAll(t, bs + [b]) == Freed(FreedAll(t, bs), b)
  {
    assert (bs + [b])[..|bs|] == bs;
  }

  lemma {:induction false} FreedAllJoins(t: seq<Entry>, bs: seq<nat>, more: seq<nat>)
    ensures FreedAll(FreedAll(t, bs), more) == FreedAll(t, bs + more)
    decreases |more|
  {
    if more == [] {
      assert bs + more == bs;
    } else {
      var front := more[..|more| - 1];
      FreedAllJoins(t, bs, front);
      assert (bs + more)[..|bs + more| - 1] == bs + front;
    }
  }

  ghost predicate InRuns(runs: Runs, own: set<nat>, b: nat) {
    exists r :: r in own && Covers(runs, r, b)
  }

  /** Whether a free leaves all runs but these alone: the block is outside the table, free, or in one of them. */
  ghost predicate Harmless(t: seq<Entry>, runs: Runs, own: set<nat>, b: nat) {
    Unused(t, b) || InRuns(runs, own, b)
  }

  /** The run of n blocks at r as it was, cut off at c. */
  predicate CutAt(t0: seq<Entry>, t: seq<Entry>, r: nat, n: nat, c: nat)
    requires |t| == |t0| && r + n <= |t|
  {
    r <= c <= r + n && (forall k :: r <= k < c ==> t[k] == t0[k]) && forall k :: c <= k < r + n ==> t[k] == FREE
  }

  /** Each of these runs is cut off somewhere, and no other block has changed. */
  ghost predicate CutDown(t0: seq<Entry>, runs: Runs, own: set<nat>, t: seq<Entry>)
    requires Encodes(t0, runs) && own <= runs.Keys
  {
    && |t| == |t0|
    && (forall k :: 0 <= k < |t| && !InRuns(runs, own, k) ==> t[k] == t0[k])
    && forall r :: r in own ==> exists c: nat :: CutAt(t0, t, r, runs[r], c)
  }

  /** From inside a cut run the walk stops at the cut. */
  lemma WalkStopsAtCut(t0: seq<Entry>, runs: Runs, t: seq<Entry>, r: nat, c: nat, b: nat)
    requires Encodes(t0, runs) && |t| == |t0| && r in runs && r <= b < c && CutAt(t0, t, r, runs[r], c)
    ensures b < |t| && WalkEnd(t, b) == if c < r + runs[r] then c + 1 else c
  {
    assert forall k :: r <= k < c ==> t[k] == RunEntry(r, runs[r], k);
    WalkEndIs(t, b, if c < r + runs[r] then c + 1 else c);
  }

  /** A free inside one of these runs, or of no run at all, cuts one of them further down and changes nothing else. */
  lemma CutByFree(t0: seq<Entry>, runs: Runs, own: set<nat>, t: seq<Entry>, b: nat)
    requires Encodes(t0, runs) && own <= runs.Keys && CutDown(t0, runs, own, t) && Harmless(t0, runs, own, b)
    ensures CutDown(t0, runs, own, Freed(t, b))
  {
    FreeOnlyClears(t, b);
    if !Unused(t, b) {
      assert InRuns(runs, own, b);
      var r :| r in own && Covers(runs, r, b);
      var c: nat :| CutAt(t0, t, r, runs[r], c);
      WalkStopsAtCut(t0, runs, t, r, c, b);
      var t' := Freed(t, b);
      assert CutAt(t0, t', r, runs[r], b);
      forall q | q in own && q != r ensures exists c: nat :: CutAt(t0, t', q, runs[q], c) {
        RunsDisjoint(t0, runs, q, r);
        var c': nat :| CutAt(t0, t, q, runs[q], c');
        assert CutAt(t0, t', q, runs[q], c');
      }
      forall k | 0 <= k < |t| && !InRuns(runs, own, k) ensures t'[k] == t0[k] {
        assert !Covers(runs, r, k);
      }
    }
  }

  lemma CutRunCleared(t0: seq<Entry>, runs: Runs, own: set<nat>, t: seq<Entry>, r: nat)
    requires Encodes(t0, runs) && own <= runs.Keys && CutDown(t0, runs, own, t) && r in own && t[r] == FREE
    ensures forall k: nat :: Covers(runs, r, k) ==> k < |t| && t[k] == FREE
  {
    var c: nat :| CutAt(t0, t, r, runs[r], c);
    assert c > r ==> t[r] == t0[r] == RunEntry(r, runs[r], r);
  }

  /** Cut down to nothing, the runs are gone and the others are left. */
  lemma CutToNothing(t0: seq<Entry>, runs: Runs, own: set<nat>, t: seq<Entry>)
    requires Encodes(t0, runs) && own <= runs.Keys && CutDown(t0, runs, own, t)
    requires forall r :: r in own ==> r < |t| && t[r] == FREE
    ensures Encodes(t, runs - own)
  {
    hide CutDown, RunEntry;
    assert |t| == |t0| && forall k :: 0 <= k < |t| && !InRuns(runs, own, k) ==> t[k] == t0[k] by {
      CutMeans(t0, runs, own, t);
    }
    forall r | r in own ensures forall k: nat :: Covers(runs, r, k) ==> k < |t| && t[k] == FREE {
      CutRunCleared(t0, runs, own, t, r);
    }
    LeftAlone(t0, runs, own, t);
  }

  lemma CutMeans(t0: seq<Entry>, runs: Runs, own: set<nat>, t: seq<Entry>)
    requires Encodes(t0, runs) && own <= runs.Keys && CutDown(t0, runs, own, t)
    ensures |t| == |t0| && forall k :: 0 <= k < |t| && !InRuns(runs, own, k) ==> t[k] == t0[k]
  {
  }

  lemma LeftAlone(t0: seq<Entry>, runs: Runs, own: set<nat>, t: seq<Entry>)
    requires Encodes(t0, runs) && |t| == |t0|
    requires forall k :: 0 <= k < |t| && !InRuns(runs, own, k) ==> t[k] == t0[k]
    requires forall r: nat, k: nat :: r in own && Covers(runs, r, k) ==> k < |t| && t[k] == FREE
    ensures Encodes(t, runs - own)
  {
    hide RunEntry;
    var rest := runs - own;
    forall a: nat, k: nat | a in rest && a <= k < a + rest[a] ensures k < |t| && t[k] == RunEntry(a, rest[a], k) {
      forall r | r in own ensures !Covers(runs, r, k) {
        if Covers(runs, r, k) {
          RunsDisjoint(t0, runs, a, r);
        }
      }
      assert !InRuns(runs, own, k);
    }
    forall k | 0 <= k < |t| && t[k] != FREE ensures exists a :: Covers(rest, a, k) {
      assert !InRuns(runs, own, k);
      var a :| Covers(runs, a, k);
      assert Covers(rest, a, k);
    }
  }

  /** All of these runs but those of `own` are still there. */
  ghost predicate Keeps(runs: Runs, own: set<nat>, runs': Runs) {
    forall r :: r in runs && r !in own ==> r in runs' && runs'[r] == runs[r]
  }

  /** A table cleared at a block of a run that must stay encodes no runs that include it. */
  lemma ClearedIsLost(t0: seq<Entry>, runs: Runs, own: set<nat>, t: seq<Entry>, b: nat, runs': Runs)
    requires Encodes(t0, runs) && !Harmless(t0, runs, own, b) && |t| == |t0| && t[b] == FREE
    requires Keeps(runs, own, runs')
    ensures !Encodes(t, runs')
  {
    var r :| Covers(runs, r, b);
    assert Covers(runs', r, b);
    if Encodes(t, runs') {
      assert false;
    }
  }

  lemma {:induction false} FreedAllClears(t: seq<Entry>, bs: seq<nat>)
    ensures |FreedAll(t, bs)| == |t|
    ensures forall k :: 0 <= k < |bs| && bs[k] < |t| ==> FreedAll(t, bs)[bs[k]] == FREE
    decreases |bs|
  {
    if bs != [] {
      var front, b := bs[..|bs| - 1], bs[|bs| - 1];
      FreedAllClears(t, front);
      FreeOnlyClears(FreedAll(t, front), b);
      forall k | 0 <= k < |bs| && bs[k] < |t| ensures FreedAll(t, bs)[bs[k]] == FREE {
        assert k < |bs| - 1 ==> bs[k] == front[k];
      }
    }
  }

  lemma {:induction false} FreedAllCuts(t: seq<Entry>, runs: Runs, own: set<nat>, bs: seq<nat>)
    requires Encodes(t, runs) && own <= runs.Keys && forall k :: 0 <= k < |bs| ==> Harmless(t, runs, own, bs[k])
    ensures CutDown(t, runs, own, FreedAll(t, bs))
    decreases |bs|
  {
    hide Encodes, Harmless, CutDown;
    if bs == [] {
      NothingCut(t, runs, own);
    } else {
      var front, b := bs[..|bs| - 1], bs[|bs| - 1];
      assert forall k :: 0 <= k < |front| ==> front[k] == bs[k];
      FreedAllCuts(t, runs, own, front);
      CutByFree(t, runs, own, FreedAll(t, front), b);
    }
  }

  lemma NothingCut(t: seq<Entry>, runs: Runs, own: set<nat>)
    requires Encodes(t, runs) && own <= runs.Keys
    ensures CutDown(t, runs, own, t)
  {
    forall r | r in own ensures exists c: nat :: CutAt(t, t, r, runs[r], c) {
      assert CutAt(t, t, r, runs[r], r + runs[r]);
    }
  }

  /** Frees that include the starts of these runs, in any order and among frees of any other blocks, leave exactly the
      other runs if every free is harmless. If any is not, no runs that include all the others fit the table. */
  lemma FreedAllExact(t: seq<Entry>, runs: Runs, own: set<nat>, bs: seq<nat>)
    requires Encodes(t, runs) && own <= runs.Keys && forall r :: r in own ==> r in bs
    ensures |FreedAll(t, bs)| == |t|
    ensures (forall k :: 0 <= k < |bs| ==> Harmless(t, runs, own, bs[k])) ==> Encodes(FreedAll(t, bs), runs - own)
    ensures forall k, runs' :: 0 <= k < |bs| && !Harmless(t, runs, own, bs[k]) && Keeps(runs, own, runs') ==>
      !Encodes(FreedAll(t, bs), runs')
  {
    hide Encodes, Harmless, CutDown, Keeps, FreedAll;
    FreedAllClears(t, bs);
    if forall k :: 0 <= k < |bs| ==> Harmless(t, runs, own, bs[k]) {
      FreedAllCuts(t, runs, own, bs);
      StartsCleared(t, runs, own, bs);
      CutToNothing(t, runs, own, FreedAll(t, bs));
    }
    forall k, runs' | 0 <= k < |bs| && !Harmless(t, runs, own, bs[k]) && Keeps(runs, own, runs')
      ensures !Encodes(FreedAll(t, bs), runs')
    {
      HarmIsInside(t, runs, own, bs[k]);
      ClearedIsLost(t, runs, own, FreedAll(t, bs), bs[k], runs');
    }
  }

  lemma HarmIsInside(t: seq<Entry>, runs: Runs, own: set<nat>, b: nat)
    requires !Harmless(t, runs, own, b)
    ensures b < |t|
  {
  }

  lemma StartsCleared(t: seq<Entry>, runs: Runs, own: set<nat>, bs: seq<nat>)
    requires Encodes(t, runs) && own <= runs.Keys && (forall r :: r in own ==> r in bs)
    requires |FreedAll(t, bs)| == |t| && forall k :: 0 <= k < |bs| && bs[k] < |t| ==> FreedAll(t, bs)[bs[k]] == FREE
    ensures forall r :: r in own ==> r < |t| && FreedAll(t, bs)[r] == FREE
  {
  }

  // ----- whole runs

  datatype Op = Alloc(blocks: nat) | Free(block: nat)

  function Step(t: seq<Entry>, op: Op): seq<Entry> {
    match op
    case Alloc(n) =>
      var r := FirstFit(t, n);
      if n == 0 || r < 0 then t else Marked(t, r, n)
    case Free(b) => Freed(t, b)
  }

  function StepRuns(t: seq<Entry>, runs: Runs, op: Op): Runs {
    match op
    case Alloc(n) =>
      var r := FirstFit(t, n);
      if n == 0 || r < 0 then runs else runs[r := n]
    case Free(b) => RunsAfterFree(t, runs, b)
  }

  function Execute(t: seq<Entry>, ops: seq<Op>): seq<Entry>
    decreases |ops|
  {
    if ops == [] then t else Execute(Step(t, ops[0]), ops[1..])
  }

  function ExecuteRuns(t: seq<Entry>, runs: Runs, ops: seq<Op>): Runs
    decreases |ops|
  {
    if ops == [] then runs else ExecuteRuns(Step(t, ops[0]), StepRuns(t, runs, ops[0]), ops[1..])
  }

  /** Every free in the run meets a block that is clean to free at that moment. */
  ghost predicate CleanRun(t: seq<Entry>, ops: seq<Op>)
    decreases |ops|
  {
    ops == [] || ((ops[0].Free? ==> CleanToFree(t, ops[0].block)) && CleanRun(Step(t, ops[0]), ops[1..]))
  }

  /** Over any clean run the table stays the exact encoding of the runs that the same steps make of the abstract run
      set. */
  lemma {:induction false} ExecutionEncodes(t: seq<Entry>, runs: Runs, ops: seq<Op>)
    requires Encodes(t, runs) && CleanRun(t, ops)
    ensures Encodes(Execute(t, ops), ExecuteRuns(t, runs, ops))
    decreases |ops|
  {
    if ops != [] {
      match ops[0]
      case Alloc(n) =>
        if n > 0 {
          FirstFitMeaning(t, n, 0);
          if FirstFit(t, n) >= 0 {
            MarkedEncodes(t, runs, FirstFit(t, n), n);
          }
        }
        ExecutionEncodes(Step(t, ops[0]), StepRuns(t, runs, ops[0]), ops[1..]);
      case Free(b) =>
        FreeKeepsEncoding(t, runs, b);
        ExecutionEncodes(Step(t, ops[0]), StepRuns(t, runs, ops[0]), ops[1..]);
    }
  }

  /** A table of free bytes encodes no runs: what `heap_create` starts from. */
  lemma AllFreeEncodesNothing(t: seq<Entry>)
    requires forall i :: 0 <= i < |t| ==> t[i] == FREE
    ensures Encodes(t, map[])
  {
  }
}
