/** The search for free space in `create`: sort by starting block, then sweep the gaps. */
module BmfsSweep {
  import opened Bytes
  import opened Bmfs

  // ---------- the comparator ----------

  function Sub64(a: int, b: int): nat {
    (a - b) % U64
  }

  // `StartingBlockCmp`
  function StartingBlockCmp(ea: Entry, eb: Entry): int {
    if Deleted(ea) then 1
    else if Deleted(eb) then -1
    else ToInt32(Sub64(ea.start, eb.start))
  }

  // On block numbers that fit a 31-bit disk the truncated difference still orders live records.
  lemma ComparatorOrders(ea: Entry, eb: Entry)
    requires Live(ea) && Live(eb) && ea.start < I32 && eb.start < I32
    ensures StartingBlockCmp(ea, eb) < 0 <==> ea.start < eb.start
    ensures StartingBlockCmp(ea, eb) == 0 <==> ea.start == eb.start
  {
    ExactDelta(ea.start - eb.start);
  }

  // ---------- sorting ----------

  // `out` holds the records `recs[perm[0]], recs[perm[1]], ...`, each exactly once.
  ghost predicate Reordered(recs: seq<Entry>, out: seq<Entry>, perm: seq<nat>) {
    && |out| == |perm| == |recs|
    && (forall i :: 0 <= i < |perm| ==> perm[i] < |recs| && out[i] == recs[perm[i]])
    && (forall i, j :: 0 <= i < j < |perm| ==> perm[i] != perm[j])
    && (forall c :: 0 <= c < |recs| ==> c in perm)
  }

  // `k` live records by starting block, then the deleted ones in whatever order.
  ghost predicate LiveFirst(out: seq<Entry>, k: nat) {
    && k <= |out|
    && (forall i :: 0 <= i < k ==> Live(out[i]))
    && (forall i :: k <= i < |out| ==> Deleted(out[i]))
    && (forall i, j :: 0 <= i < j < k ==> out[i].start <= out[j].start)
  }

  ghost predicate Sorts(recs: seq<Entry>, out: seq<Entry>, perm: seq<nat>, k: nat) {
    Reordered(recs, out, perm) && LiveFirst(out, k)
  }

  // qsort with StartingBlockCmp. The C library promises no more than the contract: a reordering in
  // which the live records come first, in order; that of the deleted records is not determined.
  method Qsort(recs: seq<Entry>) returns (out: seq<Entry>)
    requires forall i :: 0 <= i < |recs| ==> (Live(recs[i]) || Deleted(recs[i])) && recs[i].start < I32
    ensures exists perm, k :: Sorts(recs, out, perm, k)
  {
    out := [];
    ghost var perm: seq<nat>, k: nat := [], 0;
    for n := 0 to |recs|
      invariant Sorts(recs[..n], out, perm, k)
    {
      var e := recs[n];
      var p := 0;
      while p < |out| && StartingBlockCmp(e, out[p]) >= 0
        invariant p <= |out|
        invariant Live(e) ==> p <= k && forall i :: 0 <= i < p ==> out[i].start <= e.start
      {
        if Live(e) && p < k { ComparatorOrders(e, out[p]); }
        p := p + 1;
      }
      if Live(e) && p < k { ComparatorOrders(e, out[p]); }
      InsertedSorts(recs[..n], out, perm, k, e, p);
      assert recs[..n + 1] == recs[..n] + [e];
      out := out[..p] + [e] + out[p..];
      perm := perm[..p] + [n] + perm[p..];
      k := if Live(e) then k + 1 else k;
    }
    assert recs[..|recs|] == recs;
  }

  lemma InsertedSorts(recs: seq<Entry>, out: seq<Entry>, perm: seq<nat>, k: nat, e: Entry, p: nat)
    requires Sorts(recs, out, perm, k) && p <= |out|
    requires Live(e) || Deleted(e)
    requires Live(e) ==> p <= k && forall i :: 0 <= i < k ==> if i < p then out[i].start <= e.start else e.start <= out[i].start
    requires Deleted(e) ==> k <= p
    ensures Sorts(recs + [e], out[..p] + [e] + out[p..], perm[..p] + [|recs|] + perm[p..], if Live(e) then k + 1 else k)
  {
    InsertedReorders(recs, out, perm, e, p);
    InsertedLiveFirst(out, k, e, p);
  }

  lemma InsertedReorders(recs: seq<Entry>, out: seq<Entry>, perm: seq<nat>, e: Entry, p: nat)
    requires Reordered(recs, out, perm) && p <= |out|
    ensures Reordered(recs + [e], out[..p] + [e] + out[p..], perm[..p] + [|recs|] + perm[p..])
  {
    var perm' := perm[..p] + [|recs|] + perm[p..];
    InsertedOnce(perm, |recs|, p);
    forall c | 0 <= c < |recs + [e]|
      ensures c in perm'
    {
      if c < |recs| {
        assert c in perm;
      }
    }
  }

  lemma InsertedOnce(perm: seq<nat>, n: nat, p: nat)
    requires p <= |perm| && forall i :: 0 <= i < |perm| ==> perm[i] < n
    requires forall i, j :: 0 <= i < j < |perm| ==> perm[i] != perm[j]
    ensures
      var perm' := perm[..p] + [n] + perm[p..];
      && (forall c :: c in perm' <==> c == n || c in perm)
      && forall i, j :: 0 <= i < j < |perm'| ==> perm'[i] != perm'[j]
  {
    var perm' := perm[..p] + [n] + perm[p..];
    assert perm'[p] == n;
    forall c | c in perm
      ensures c in perm'
    {
      var i :| 0 <= i < |perm| && perm[i] == c;
      assert perm'[if i < p then i else i + 1] == c;
    }
  }

  lemma InsertedLiveFirst(out: seq<Entry>, k: nat, e: Entry, p: nat)
    requires LiveFirst(out, k) && p <= |out|
    requires Live(e) || Deleted(e)
    requires Live(e) ==> p <= k && forall i :: 0 <= i < k ==> if i < p then out[i].start <= e.start else e.start <= out[i].start
    requires Deleted(e) ==> k <= p
    ensures LiveFirst(out[..p] + [e] + out[p..], if Live(e) then k + 1 else k)
  {
    var out' := out[..p] + [e] + out[p..];
    assert forall i :: 0 <= i < |out'| ==> out'[i] == if i < p then out[i] else if i == p then e else out[i - 1];
  }

  // ---------- the sweep ----------

  // The loop from `es` on, `prev` being the end of the previous file: the start block, or 0.
  // Differences of block numbers are unsigned.
  function Sweep(es: seq<Entry>, prev: nat, blocks: nat, n: nat): nat
    requires 0 < blocks
  {
    var limit := if es == [] || Deleted(es[0]) then blocks - 1 else es[0].start;
    if Sub64(limit, prev) >= n then prev
    else if es == [] then 0
    else Sweep(es[1..], es[0].End(), blocks, n)
  }

  // What the sweep comes to once no gap between files fits: the end of the first deleted record
  // with `n` blocks between it and the last block, or 0.
  function StaleChoice(ds: seq<Entry>, blocks: nat, n: nat): nat {
    if ds == [] then 0
    else if ds[0].End() + n + 1 <= blocks then ds[0].End()
    else StaleChoice(ds[1..], blocks, n)
  }

  lemma {:induction false} SweepStale(ds: seq<Entry>, blocks: nat, n: nat)
    requires 0 < blocks < U64 && ds != [] && forall i :: 0 <= i < |ds| ==> Deleted(ds[i]) && ExtentOk(ds[i], blocks)
    ensures Sweep(ds[1..], ds[0].End(), blocks, n) == StaleChoice(ds, blocks, n)
    decreases |ds|
  {
    assert Sub64(blocks - 1, ds[0].End()) == blocks - 1 - ds[0].End();
    if ds[0].End() + n + 1 > blocks && |ds| > 1 {
      SweepStale(ds[1..], blocks, n);
    }
  }

  // All files of the directory, each once, by starting block, then deleted records.
  ghost predicate SortedDir(dir: seq<Entry>, blocks: nat, out: seq<Entry>, k: nat) {
    && LiveFirst(out, k)
    && (forall i :: 0 <= i < |out| ==> ExtentOk(out[i], blocks))
    && (forall i, j :: 0 <= i < j < k ==> out[i].End() <= out[j].start)
    && (forall i :: 0 <= i < k ==> IsFile(dir, out[i]))
    && (forall d :: Listed(dir, d) ==> Among(out, k, dir[d]))
  }

  ghost predicate IsFile(dir: seq<Entry>, e: Entry) {
    exists d :: Listed(dir, d) && dir[d] == e
  }

  ghost predicate Among(out: seq<Entry>, k: nat, e: Entry)
    requires k <= |out|
  {
    exists i :: 0 <= i < k && out[i] == e
  }

  // A free run is one that stays clear of the sorted files.
  lemma RunFree(dir: seq<Entry>, blocks: nat, out: seq<Entry>, k: nat, s: nat, n: nat)
    requires SortedDir(dir, blocks, out, k) && 1 <= s && s + n + 1 <= blocks
    ensures FreeRun(dir, blocks, s, n) <==> forall i :: 0 <= i < k ==> Apart(s, n, out[i])
  {
    forall d | Listed(dir, d) && forall i :: 0 <= i < k ==> Apart(s, n, out[i])
      ensures Apart(s, n, dir[d])
    {
      assert Among(out, k, dir[d]);
    }
  }

  // The sweep over the files finds exactly the lowest free run; only when there is none does it
  // go on to the deleted records.
  lemma {:induction false} SweepIsFirstFit(dir: seq<Entry>, blocks: nat, out: seq<Entry>, k: nat, t: nat, prev: nat, n: nat)
    requires t <= k <= |out| && SortedDir(dir, blocks, out, k) && 0 < n && 2 <= blocks < U64
    requires prev == (if t == 0 then 1 else out[t - 1].End())
    requires forall s :: 1 <= s < prev ==> !FreeRun(dir, blocks, s, n)
    ensures
      var lowest := LowestRun(dir, blocks, 1, n);
      Sweep(out[t..], prev, blocks, n) == if lowest != 0 then lowest else StaleChoice(out[k..], blocks, n)
    decreases k - t
  {
    hide SortedDir, FreeRun, Sweep;
    var limit := if t < k then out[t].start else blocks - 1;
    SweepStep(dir, blocks, out, k, t, prev, n);
    if limit - prev >= n {
      GapIsFree(dir, blocks, out, k, t, prev, n);
    } else {
      GapTooSmall(dir, blocks, out, k, t, prev, n);
      if t < k {
        SweepIsFirstFit(dir, blocks, out, k, t + 1, out[t].End(), n);
      }
    }
  }

  // One round of the loop; the gap it measures never underflows.
  lemma SweepStep(dir: seq<Entry>, blocks: nat, out: seq<Entry>, k: nat, t: nat, prev: nat, n: nat)
    requires SortedDir(dir, blocks, out, k) && 0 < n && 2 <= blocks < U64
    requires t <= k && prev == (if t == 0 then 1 else out[t - 1].End())
    ensures k <= |out|
    ensures
      var limit := if t < k then out[t].start else blocks - 1;
      && 1 <= prev <= limit
      && Sweep(out[t..], prev, blocks, n) ==
         if limit - prev >= n then prev
         else if t < k then Sweep(out[t + 1..], out[t].End(), blocks, n)
         else StaleChoice(out[k..], blocks, n)
  {
    hide SortedDir;
    GapBounds(dir, blocks, out, k, t, prev);
    var limit := if t < k then out[t].start else blocks - 1;
    assert Sub64(limit, prev) == limit - prev;
    if t < k {
      assert out[t..][1..] == out[t + 1..];
    } else if k < |out| {
      SweepStale(out[k..], blocks, n);
    }
  }

  lemma GapBounds(dir: seq<Entry>, blocks: nat, out: seq<Entry>, k: nat, t: nat, prev: nat)
    requires SortedDir(dir, blocks, out, k) && 2 <= blocks
    requires t <= k && prev == (if t == 0 then 1 else out[t - 1].End())
    ensures k <= |out| && (t < k ==> !Deleted(out[t]))
    ensures 1 <= prev <= (if t < k then out[t].start else blocks - 1)
    ensures forall i :: 0 <= i < |out| ==> ExtentOk(out[i], blocks)
    ensures forall i :: k <= i < |out| ==> Deleted(out[i])
  {
    assert 0 < t < k ==> out[t - 1].End() <= out[t].start;
  }

  lemma GapIsFree(dir: seq<Entry>, blocks: nat, out: seq<Entry>, k: nat, t: nat, prev: nat, n: nat)
    requires SortedDir(dir, blocks, out, k) && 0 < n && 2 <= blocks
    requires t <= k && prev == (if t == 0 then 1 else out[t - 1].End())
    requires prev + n <= (if t < k then out[t].start else blocks - 1)
    ensures FreeRun(dir, blocks, prev, n)
  {
    assert t < k ==> ExtentOk(out[t], blocks);
    forall i | 0 <= i < k
      ensures Apart(prev, n, out[i])
    {
      if i + 1 < t { assert out[i].End() <= out[t - 1].start; }
      if t < i { assert out[t].End() <= out[i].start; }
    }
    RunFree(dir, blocks, out, k, prev, n);
  }

  lemma GapTooSmall(dir: seq<Entry>, blocks: nat, out: seq<Entry>, k: nat, t: nat, prev: nat, n: nat)
    requires SortedDir(dir, blocks, out, k) && 0 < n && 2 <= blocks
    requires t <= k && prev == (if t == 0 then 1 else out[t - 1].End())
    requires (if t < k then out[t].start else blocks - 1) < prev + n
    ensures forall s :: prev <= s && (t < k ==> s < out[t].End()) ==> !FreeRun(dir, blocks, s, n)
  {
    forall s | prev <= s && (t < k ==> s < out[t].End())
      ensures !FreeRun(dir, blocks, s, n)
    {
      if t < k && s + n + 1 <= blocks {
        RunFree(dir, blocks, out, k, s, n);
        assert !Apart(s, n, out[t]);
      }
    }
  }

  // The copy of the directory that `create` sorts: its records before the terminator. Without a
  // terminator the count of records stays 0.
  function NumUsed(dir: seq<Entry>): nat {
    if Terminator(dir) < |dir| then Terminator(dir) else 0
  }

  lemma SortedCopy(dir: seq<Entry>, blocks: nat, out: seq<Entry>, perm: seq<nat>, k: nat)
    requires DirOk(dir, blocks) && Terminator(dir) < |dir| && Sorts(dir[..NumUsed(dir)], out, perm, k)
    ensures SortedDir(dir, blocks, out, k)
  {
    forall i | 0 <= i < |out|
      ensures out[i] == dir[perm[i]] && ExtentOk(out[i], blocks) && (i < k ==> IsFile(dir, out[i]) && Listed(dir, perm[i]))
    {
      assert out[i] == dir[..NumUsed(dir)][perm[i]];
      assert i < k ==> Listed(dir, perm[i]);
    }
    forall i, j | 0 <= i < j < k
      ensures out[i].End() <= out[j].start
    {
      assert Separate(dir[perm[i]], dir[perm[j]]);
    }
    forall d | Listed(dir, d)
      ensures Among(out, k, dir[d])
    {
      assert d in perm;
      var i :| 0 <= i < |perm| && perm[i] == d;
      assert out[i] == dir[d];
    }
  }

  // Is there a deleted record that the sweep would take for free space?
  predicate StaleRoom(dir: seq<Entry>, blocks: nat, n: nat) {
    exists i :: 0 <= i < |dir| && i < Terminator(dir) && Deleted(dir[i]) && dir[i].End() + n + 1 <= blocks
  }

  lemma {:induction false} StaleChoiceMeaning(ds: seq<Entry>, blocks: nat, n: nat)
    requires forall i :: 0 <= i < |ds| ==> ExtentOk(ds[i], blocks)
    ensures
      var r := StaleChoice(ds, blocks, n);
      && (r != 0 ==> exists i :: 0 <= i < |ds| && r == ds[i].End() && r + n + 1 <= blocks)
      && (r == 0 ==> forall i :: 0 <= i < |ds| ==> blocks < ds[i].End() + n + 1)
  {
    if ds != [] {
      StaleChoiceMeaning(ds[1..], blocks, n);
    }
  }

  // What the sort and sweep of `create` come to: the lowest free run; without one, the end of some
  // deleted record if there is such a record with room behind it; otherwise nothing.
  lemma ChoiceMeaning(dir: seq<Entry>, blocks: nat, n: nat, out: seq<Entry>, perm: seq<nat>, k: nat)
    requires DirOk(dir, blocks) && 0 < n && 2 <= blocks < U64 && Terminator(dir) < |dir|
    requires Sorts(dir[..NumUsed(dir)], out, perm, k)
    ensures
      var start := Sweep(out, 1, blocks, n);
      var lowest := LowestRun(dir, blocks, 1, n);
      if lowest != 0 then start == lowest
      else (start != 0 <==> StaleRoom(dir, blocks, n)) && (start != 0 ==> 1 <= start && start + n + 1 <= blocks)
  {
    hide SortedDir, DirOk, Sweep, LowestRun, StaleRoom, Reordered;
    SortedCopy(dir, blocks, out, perm, k);
    assert out[0..] == out;
    SweepIsFirstFit(dir, blocks, out, k, 0, 1, n);
    GapBounds(dir, blocks, out, k, 0, 1);
    StaleChoiceMeaning(out[k..], blocks, n);
    StaleChoiceIff(dir, blocks, n, out, perm, k);
  }

  lemma StaleChoiceIff(dir: seq<Entry>, blocks: nat, n: nat, out: seq<Entry>, perm: seq<nat>, k: nat)
    requires Sorts(dir[..NumUsed(dir)], out, perm, k) && Terminator(dir) < |dir|
    requires forall i :: 0 <= i < |out| ==> ExtentOk(out[i], blocks)
    ensures StaleChoice(out[k..], blocks, n) != 0 <==> StaleRoom(dir, blocks, n)
  {
    var used := dir[..NumUsed(dir)];
    StaleChoiceMeaning(out[k..], blocks, n);
    if StaleRoom(dir, blocks, n) {
      var i :| 0 <= i < |dir| && i < Terminator(dir) && Deleted(dir[i]) && dir[i].End() + n + 1 <= blocks;
      assert i in perm;
      var j :| 0 <= j < |perm| && perm[j] == i;
      assert out[j] == used[perm[j]] == dir[i];
      assert out[k..][j - k] == out[j];
    }
    if StaleChoice(out[k..], blocks, n) != 0 {
      var j :| 0 <= j < |out[k..]| && StaleChoice(out[k..], blocks, n) == out[k..][j].End();
      assert out[k + j] == used[perm[k + j]] == dir[perm[k + j]];
    }
  }
}
