/** The grouped parallel decode of src/decompress.rs as a step relation, and why it equals sequential decode. */
module ParallelDecode {
  import opened Bytes
  import opened Lzma
  import opened Format
  import opened Decompress

  /** One chunk: where its output goes, and what decoding it yields. */
  datatype Job = Job(at: nat, size: nat, result: Result<seq<byte>>) {
    function End(): nat { at + size }
  }

  /** The destination slices, cut one after the other from a buffer of `len` bytes, leave nothing over. */
  predicate Tiled(jobs: seq<Job>, from: nat, len: nat) {
    if jobs == [] then from == len
    else
      && jobs[0].at == from && jobs[0].End() <= len && (jobs[0].result.Ok? ==> |jobs[0].result.value| == jobs[0].size)
      && Tiled(jobs[1..], jobs[0].End(), len)
  }

  lemma {:induction false} TiledAt(jobs: seq<Job>, from: nat, len: nat, i: nat, j: nat)
    requires Tiled(jobs, from, len) && i <= j < |jobs|
    ensures from <= jobs[j].at && jobs[j].End() <= len
    ensures jobs[j].result.Ok? ==> |jobs[j].result.value| == jobs[j].size
    ensures i < j ==> jobs[i].End() <= jobs[j].at
    ensures Tiled(jobs[j..], jobs[j].at, len)
  {
    if j == 0 {
      assert jobs[0..] == jobs;
    } else {
      assert jobs[1..][j - 1..] == jobs[j..];
      if i == 0 {
        TiledAt(jobs[1..], jobs[0].End(), len, 0, j - 1);
      } else {
        TiledAt(jobs[1..], jobs[0].End(), len, i - 1, j - 1);
      }
    }
  }

  // ---- Thread groups ----

  datatype Group = Group(lo: nat, hi: nat)

  /** `chunks_mut(c)` over the indices from `lo` to `n`. */
  function Groups(lo: nat, n: nat, c: nat): (gs: seq<Group>)
    requires c > 0
    decreases n - lo
  {
    if lo >= n then []
    else var hi := if lo + c <= n then lo + c else n; [Group(lo, hi)] + Groups(hi, n, c)
  }

  /** Consecutive non-empty groups that visit every index from `lo` to `n` once. */
  predicate Partition(gs: seq<Group>, lo: nat, n: nat) {
    if gs == [] then lo == n
    else gs[0].lo == lo < gs[0].hi && Partition(gs[1..], gs[0].hi, n)
  }

  lemma {:induction false} GroupsPartition(lo: nat, n: nat, c: nat)
    requires c > 0 && lo <= n
    ensures Partition(Groups(lo, n, c), lo, n)
    decreases n - lo
  {
    if lo < n {
      GroupsPartition(if lo + c <= n then lo + c else n, n, c);
    }
  }

  lemma {:induction false} GroupBounds(gs: seq<Group>, lo: nat, n: nat, g: nat)
    requires Partition(gs, lo, n) && g < |gs|
    ensures lo <= gs[g].lo < gs[g].hi <= n
  {
    if g > 0 {
      GroupBounds(gs[1..], gs[0].hi, n, g - 1);
    } else if |gs| > 1 {
      GroupBounds(gs[1..], gs[0].hi, n, 0);
    }
  }

  lemma {:induction false} GroupOf(gs: seq<Group>, lo: nat, n: nat, i: nat) returns (g: nat)
    requires Partition(gs, lo, n) && lo <= i < n
    ensures g < |gs| && gs[g].lo <= i < gs[g].hi
    ensures forall h :: 0 <= h < |gs| && h != g ==> gs[h].hi <= i || i < gs[h].lo
    ensures forall h :: g < h < |gs| ==> i < gs[h].lo
  {
    if i < gs[0].hi {
      g := 0;
      forall h | 0 < h < |gs| ensures i < gs[h].lo {
        GroupBounds(gs[1..], gs[0].hi, n, h - 1);
      }
    } else {
      var k := GroupOf(gs[1..], gs[0].hi, n, i);
      g := k + 1;
      forall h | 0 <= h < |gs| && h != g ensures (gs[h].hi <= i || i < gs[h].lo) && (g < h ==> i < gs[h].lo) {
        if h > 0 {
          assert gs[h] == gs[1..][h - 1];
        }
      }
    }
  }

  // ---- The step relation ----

  datatype Worker = Worker(next: nat, failed: Option<Error>)

  datatype State = State(out: seq<byte>, workers: seq<Worker>)

  predicate Active(gs: seq<Group>, s: State, g: nat) {
    g < |gs| && g < |s.workers| && s.workers[g].failed.None? && s.workers[g].next < gs[g].hi
  }

  /** Thread `g` decodes its next chunk into its slice, or stops at an error. */
  function StepOf(jobs: seq<Job>, s: State, g: nat): State
    requires g < |s.workers| && s.workers[g].next < |jobs|
    requires jobs[s.workers[g].next].End() <= |s.out|
  {
    var i := s.workers[g].next;
    match jobs[i].result
    case Err(e) => s.(workers := s.workers[g := Worker(i, Some(e))])
    case Ok(plain) => State(Splice(s.out, jobs[i].at, jobs[i].End(), plain), s.workers[g := Worker(i + 1, None)])
  }

  predicate Done(jobs: seq<Job>, out: seq<byte>, i: nat) {
    i < |jobs| && jobs[i].result.Ok? && jobs[i].End() <= |out| && out[jobs[i].at..jobs[i].End()] == jobs[i].result.value
  }

  ghost predicate WorkerInv(jobs: seq<Job>, grp: Group, out: seq<byte>, w: Worker) {
    && grp.lo <= w.next <= grp.hi <= |jobs|
    && (forall i :: grp.lo <= i < w.next ==> Done(jobs, out, i))
    && (w.failed.Some? ==> w.next < grp.hi && jobs[w.next].result == Err(w.failed.value))
  }

  ghost predicate Inv(jobs: seq<Job>, gs: seq<Group>, len: nat, s: State) {
    && Tiled(jobs, 0, len) && Partition(gs, 0, |jobs|) && |s.out| == len && |s.workers| == |gs|
    && forall g :: 0 <= g < |gs| ==> WorkerInv(jobs, gs[g], s.out, s.workers[g])
  }

  function Start(gs: seq<Group>): seq<Worker> {
    seq(|gs|, g requires 0 <= g < |gs| => Worker(gs[g].lo, None))
  }

  lemma StartInv(jobs: seq<Job>, gs: seq<Group>, out: seq<byte>)
    requires Tiled(jobs, 0, |out|) && Partition(gs, 0, |jobs|)
    ensures Inv(jobs, gs, |out|, State(out, Start(gs)))
  {
    forall g | 0 <= g < |gs| ensures WorkerInv(jobs, gs[g], out, Start(gs)[g]) {
      GroupBounds(gs, 0, |jobs|, g);
    }
  }

  /** Writing one slice leaves every other slice alone. */
  lemma WriteKeepsDone(jobs: seq<Job>, out: seq<byte>, i: nat, k: nat)
    requires Tiled(jobs, 0, |out|) && i < |jobs| && jobs[i].result.Ok? && k < |jobs| && k != i && Done(jobs, out, k)
    requires jobs[i].End() <= |out| && |jobs[i].result.value| == jobs[i].size
    ensures Done(jobs, Splice(out, jobs[i].at, jobs[i].End(), jobs[i].result.value), k)
  {
    hide Splice;
    var a, b := jobs[i], jobs[k];
    if i < k {
      TiledAt(jobs, 0, |out|, i, k);
    } else {
      TiledAt(jobs, 0, |out|, k, i);
    }
    SpliceElsewhere(out, a.at, a.End(), a.result.value, b.at, b.End());
  }

  lemma StepInBounds(jobs: seq<Job>, gs: seq<Group>, len: nat, s: State, g: nat)
    requires Inv(jobs, gs, len, s) && Active(gs, s, g)
    ensures s.workers[g].next < |jobs| && jobs[s.workers[g].next].End() <= |s.out|
  {
    assert WorkerInv(jobs, gs[g], s.out, s.workers[g]);
    TiledAt(jobs, 0, len, 0, s.workers[g].next);
  }

  lemma StepInv(jobs: seq<Job>, gs: seq<Group>, len: nat, s: State, g: nat)
    requires Inv(jobs, gs, len, s) && Active(gs, s, g)
    requires s.workers[g].next < |jobs| && jobs[s.workers[g].next].End() <= |s.out|
    ensures Inv(jobs, gs, len, StepOf(jobs, s, g))
  {
    var i, t := s.workers[g].next, StepOf(jobs, s, g);
    assert WorkerInv(jobs, gs[g], s.out, s.workers[g]);
    TiledAt(jobs, 0, len, 0, i);
    var owner := GroupOf(gs, 0, |jobs|, i);
    assert owner == g;
    forall h | 0 <= h < |gs| ensures WorkerInv(jobs, gs[h], t.out, t.workers[h]) {
      assert WorkerInv(jobs, gs[h], s.out, s.workers[h]);
      if jobs[i].result.Ok? {
        forall k | gs[h].lo <= k < s.workers[h].next ensures Done(jobs, t.out, k) {
          WriteKeepsDone(jobs, s.out, i, k);
        }
        if h == g {
          assert Done(jobs, t.out, i);
        }
      }
    }
  }

  // ---- The result ----

  /** Joining the threads in order: the first error found, if any. */
  function FirstFailure(workers: seq<Worker>): Option<Error> {
    if workers == [] then None
    else if workers[0].failed.Some? then workers[0].failed
    else FirstFailure(workers[1..])
  }

  function Join(s: State): Result<seq<byte>> {
    match FirstFailure(s.workers)
    case None => Ok(s.out)
    case Some(e) => Err(e)
  }

  function Results(jobs: seq<Job>): (rs: seq<Result<seq<byte>>>)
    ensures |rs| == |jobs| && forall i :: 0 <= i < |jobs| ==> rs[i] == jobs[i].result
  {
    seq(|jobs|, i requires 0 <= i < |jobs| => jobs[i].result)
  }

  lemma {:induction false} AllDone(jobs: seq<Job>, from: nat, out: seq<byte>)
    requires Tiled(jobs, from, |out|) && from <= |out| && forall i :: 0 <= i < |jobs| ==> Done(jobs, out, i)
    ensures Sequential(Results(jobs)) == Ok(out[from..])
  {
    if jobs != [] {
      var rest := jobs[1..];
      assert Done(jobs, out, 0);
      forall i | 0 <= i < |rest| ensures Done(rest, out, i) {
        assert Done(jobs, out, i + 1);
      }
      AllDone(rest, jobs[0].End(), out);
      assert Results(jobs)[1..] == Results(rest);
      assert out[from..] == out[from..jobs[0].End()] + out[jobs[0].End()..];
    }
  }

  lemma {:induction false} ErrorAt(results: seq<Result<seq<byte>>>, i: nat)
    requires i < |results| && results[i].Err? && forall k :: 0 <= k < i ==> results[k].Ok?
    ensures Sequential(results) == results[i]
  {
    if i > 0 {
      ErrorAt(results[1..], i - 1);
    }
  }

  lemma {:induction false} FirstFailureAt(workers: seq<Worker>)
    ensures match FirstFailure(workers)
            case None => forall g :: 0 <= g < |workers| ==> workers[g].failed.None?
            case Some(e) => exists g :: 0 <= g < |workers| && workers[g].failed == Some(e)
                                        && forall h :: 0 <= h < g ==> workers[h].failed.None?
  {
    if workers != [] && workers[0].failed.None? {
      var rest := workers[1..];
      FirstFailureAt(rest);
      match FirstFailure(rest)
      case None =>
        forall g | 0 <= g < |workers| ensures workers[g].failed.None? {
          if g > 0 {
            assert workers[g] == rest[g - 1];
          }
        }
      case Some(e) =>
        var g :| 0 <= g < |rest| && rest[g].failed == Some(e) && forall h :: 0 <= h < g ==> rest[h].failed.None?;
        forall h | 0 <= h < g + 1 ensures workers[h].failed.None? {
          if h > 0 {
            assert workers[h] == rest[h - 1];
          }
        }
        assert workers[g + 1].failed == Some(e);
    }
  }

  ghost predicate Stopped(gs: seq<Group>, s: State) {
    forall g :: 0 <= g < |gs| ==> !Active(gs, s, g)
  }

  /** Chunks before `bound` are decoded once the groups holding them have run to their ends. */
  lemma DoneBefore(jobs: seq<Job>, gs: seq<Group>, len: nat, s: State, g: nat, bound: nat)
    requires Inv(jobs, gs, len, s) && Stopped(gs, s) && g <= |gs| && bound <= |jobs|
    requires forall h :: 0 <= h < g ==> s.workers[h].failed.None?
    requires g < |gs| ==> bound <= s.workers[g].next
    ensures forall i :: 0 <= i < bound ==> Done(jobs, s.out, i)
  {
    forall i | 0 <= i < bound ensures Done(jobs, s.out, i) {
      var h := GroupOf(gs, 0, |jobs|, i);
      assert WorkerInv(jobs, gs[h], s.out, s.workers[h]);
      if g < |gs| {
        assert WorkerInv(jobs, gs[g], s.out, s.workers[g]);
      }
      if h < g {
        assert !Active(gs, s, h);
      } else if g < h {
        LaterGroups(gs, 0, |jobs|, g, h);
      }
    }
  }

  lemma {:induction false} LaterGroups(gs: seq<Group>, lo: nat, n: nat, g: nat, h: nat)
    requires Partition(gs, lo, n) && g < h < |gs|
    ensures gs[g].hi <= gs[h].lo
  {
    if g == 0 {
      GroupBounds(gs[1..], gs[0].hi, n, h - 1);
    } else {
      LaterGroups(gs[1..], gs[0].hi, n, g - 1, h - 1);
    }
  }

  /** Once no thread can move, joining yields what decoding in chunk order would: the bytes, or the first error. */
  lemma StoppedIsSequential(jobs: seq<Job>, gs: seq<Group>, len: nat, s: State)
    requires Inv(jobs, gs, len, s) && Stopped(gs, s)
    ensures Join(s) == Sequential(Results(jobs))
  {
    FirstFailureAt(s.workers);
    match FirstFailure(s.workers)
    case None =>
      DoneBefore(jobs, gs, len, s, |gs|, |jobs|);
      AllDone(jobs, 0, s.out);
      assert s.out[0..] == s.out;
    case Some(e) =>
      var g: nat :| 0 <= g < |s.workers| && s.workers[g].failed == Some(e) && forall h :: 0 <= h < g ==> s.workers[h].failed.None?;
      assert WorkerInv(jobs, gs[g], s.out, s.workers[g]);
      var i := s.workers[g].next;
      DoneBefore(jobs, gs, len, s, g, i);
      forall k | 0 <= k < i ensures Results(jobs)[k].Ok? {
        assert Done(jobs, s.out, k);
      }
      ErrorAt(Results(jobs), i);
  }

  // ---- Runs ----

  ghost predicate IsRun(jobs: seq<Job>, gs: seq<Group>, len: nat, run: seq<State>) {
    && run != [] && |run[0].out| == len && run[0].workers == Start(gs)
    && forall i :: 0 <= i < |run| - 1 ==> CanStep(jobs, gs, run[i], run[i + 1])
  }

  ghost predicate CanStep(jobs: seq<Job>, gs: seq<Group>, s: State, t: State) {
    exists g: nat :: Moves(jobs, gs, s, t, g)
  }

  ghost predicate Moves(jobs: seq<Job>, gs: seq<Group>, s: State, t: State, g: nat) {
    Active(gs, s, g) && s.workers[g].next < |jobs| && jobs[s.workers[g].next].End() <= |s.out| && t == StepOf(jobs, s, g)
  }

  lemma {:induction false} RunInv(jobs: seq<Job>, gs: seq<Group>, len: nat, run: seq<State>, k: nat)
    requires Tiled(jobs, 0, len) && Partition(gs, 0, |jobs|) && IsRun(jobs, gs, len, run) && k < |run|
    ensures Inv(jobs, gs, len, run[k])
  {
    if k == 0 {
      StartInv(jobs, gs, run[0].out);
    } else {
      RunInv(jobs, gs, len, run, k - 1);
      assert CanStep(jobs, gs, run[k - 1], run[k - 1 + 1]);
      var g: nat :| Moves(jobs, gs, run[k - 1], run[k], g);
      StepInv(jobs, gs, len, run[k - 1], g);
    }
  }

  /** Every interleaving of every grouping that runs to a stop gives the sequential result, errors included. */
  lemma ParallelRefinesSequential(jobs: seq<Job>, gs: seq<Group>, len: nat, run: seq<State>)
    requires Tiled(jobs, 0, len) && Partition(gs, 0, |jobs|) && IsRun(jobs, gs, len, run)
    requires Stopped(gs, run[|run| - 1])
    ensures Join(run[|run| - 1]) == Sequential(Results(jobs))
  {
    RunInv(jobs, gs, len, run, |run| - 1);
    StoppedIsSequential(jobs, gs, len, run[|run| - 1]);
  }

  // ---- Termination ----

  function WorkLeft(gs: seq<Group>, workers: seq<Worker>): nat
    requires |gs| == |workers|
  {
    if gs == [] then 0
    else (if workers[0].failed.Some? || workers[0].next > gs[0].hi then 0 else gs[0].hi - workers[0].next) + WorkLeft(gs[1..], workers[1..])
  }

  lemma {:induction false} WorkDecreases(gs: seq<Group>, workers: seq<Worker>, g: nat, w: Worker)
    requires |gs| == |workers| && g < |gs| && workers[g].failed.None? && workers[g].next < gs[g].hi
    requires w.failed.Some? || w.next == workers[g].next + 1
    ensures WorkLeft(gs, workers[g := w]) < WorkLeft(gs, workers)
  {
    if g == 0 {
      assert workers[0 := w][1..] == workers[1..];
    } else {
      WorkDecreases(gs[1..], workers[1..], g - 1, w);
      assert workers[g := w][1..] == workers[1..][g - 1 := w];
    }
  }

  // ---- The decoder ----

  /** The jobs of a header: destinations cut in order. */
  function JobsOf(codec: Codec, data: seq<byte>, es: seq<ChunkEntry>, at: nat): (jobs: seq<Job>)
    requires forall e :: e in es ==> InFile(e, |data|)
    ensures |jobs| == |es| && forall i :: 0 <= i < |es| ==> jobs[i].result == DecodeChunk(codec, data, es[i])
  {
    if es == [] then []
    else [Job(at, es[0].meta.origSize, DecodeChunk(codec, data, es[0]))] + JobsOf(codec, data, es[1..], at + es[0].meta.origSize)
  }

  lemma FirstJob(codec: Codec, data: seq<byte>, es: seq<ChunkEntry>, at: nat)
    requires es != [] && forall e :: e in es ==> InFile(e, |data|)
    ensures var jobs := JobsOf(codec, data, es, at);
            jobs[0].at == at && jobs[1..] == JobsOf(codec, data, es[1..], at + es[0].meta.origSize)
  {
    hide DecodeChunk;
  }

  /** `split_at_mut` is always in range, and the slices use up the buffer. */
  lemma {:induction false} JobsTiled(codec: Codec, data: seq<byte>, es: seq<ChunkEntry>, at: nat)
    requires forall e :: e in es ==> InFile(e, |data|)
    ensures Tiled(JobsOf(codec, data, es, at), at, at + TotalOrig(es))
  {
    if es != [] {
      JobsTiled(codec, data, es[1..], at + es[0].meta.origSize);
    }
  }

  method CopyAt(a: array<byte>, at: nat, s: seq<byte>)
    requires at + |s| <= a.Length
    modifies a
    ensures a[..] == Splice(old(a[..]), at, at + |s|, s)
  {
    ghost var was := a[..];
    for i := 0 to |s|
      invariant forall k :: 0 <= k < at || at + i <= k < a.Length ==> a[k] == was[k]
      invariant forall k :: 0 <= k < i ==> a[at + k] == s[k]
    {
      a[at + i] := s[i];
    }
    assert a[at..at + |s|] == s;
    assert a[..] == a[..at] + a[at..at + |s|] + a[at + |s|..];
  }

  /** The offsets of the destination slices: what `split_at_mut` leaves in `rest` each time. */
  method CutSlices(codec: Codec, data: seq<byte>, es: seq<ChunkEntry>) returns (ats: seq<nat>)
    requires forall e :: e in es ==> InFile(e, |data|)
    ensures |ats| == |es| && forall i :: 0 <= i < |es| ==> ats[i] == JobsOf(codec, data, es, 0)[i].at
  {
    hide JobsOf;
    ats := [];
    var rest: nat := 0;
    ghost var jobs := JobsOf(codec, data, es, 0);
    assert es[0..] == es;
    for i := 0 to |es|
      invariant |ats| == i && forall k :: 0 <= k < i ==> ats[k] == jobs[k].at
      invariant jobs[i..] == JobsOf(codec, data, es[i..], rest)
    {
      ats := ats + [rest];
      FirstJob(codec, data, es[i..], rest);
      assert es[i..][1..] == es[i + 1..] && jobs[i..][1..] == jobs[i + 1..] && jobs[i] == jobs[i..][0];
      rest := rest + es[i].meta.origSize;
    }
  }

  lemma ResultsAreDecoded(codec: Codec, data: seq<byte>, es: seq<ChunkEntry>)
    requires forall e :: e in es ==> InFile(e, |data|)
    ensures Results(JobsOf(codec, data, es, 0)) == DecodeAll(codec, data, es)
  {
    hide DecodeChunk, JobsOf;
  }

  /** Threads scheduled in an arbitrary order, each writing its own slices of one output buffer. */
  method RunGroups(codec: Codec, data: seq<byte>, es: seq<ChunkEntry>, gs: seq<Group>, output: array<byte>) returns (workers: seq<Worker>)
    requires (forall e :: e in es ==> InFile(e, |data|)) && output.Length == TotalOrig(es) && Partition(gs, 0, |es|)
    modifies output
    ensures |workers| == |gs|
    ensures Join(State(output[..], workers)) == Sequential(DecodeAll(codec, data, es))
  {
    hide DecodeChunk, Tiled, Partition, Splice, JobsOf, DecodeAll;
    ghost var jobs := JobsOf(codec, data, es, 0);
    JobsTiled(codec, data, es, 0);
    var ats := CutSlices(codec, data, es);
    workers := Start(gs);
    StartInv(jobs, gs, output[..]);
    while exists g :: 0 <= g < |gs| && workers[g].failed.None? && workers[g].next < gs[g].hi
      invariant Inv(jobs, gs, output.Length, State(output[..], workers))
      decreases WorkLeft(gs, workers)
    {
      var g: nat :| 0 <= g < |gs| && workers[g].failed.None? && workers[g].next < gs[g].hi;
      ghost var s := State(output[..], workers);
      assert Active(gs, s, g);
      StepInBounds(jobs, gs, output.Length, s, g);
      StepInv(jobs, gs, output.Length, s, g);
      var i := workers[g].next;
      TiledAt(jobs, 0, output.Length, 0, i);
      var r := RunChunk(codec, data, es[i]);
      var w := Worker(i + 1, None);
      match r {
        case Err(e) => w := Worker(i, Some(e));
        case Ok(plain) => CopyAt(output, ats[i], plain);
      }
      WorkDecreases(gs, workers, g, w);
      workers := workers[g := w];
      assert State(output[..], workers) == StepOf(jobs, s, g);
    }
    ghost var s := State(output[..], workers);
    assert Stopped(gs, s);
    StoppedIsSequential(jobs, gs, output.Length, s);
    ResultsAreDecoded(codec, data, es);
  }

  /** `decompress_bytes` on a machine with `cores` cores: the result does not depend on them. */
  method DecompressArchive(codec: Codec, data: seq<byte>, cores: nat) returns (r: Result<seq<byte>>)
    requires cores >= 1
    ensures r == DecompressBytes(codec, data)
  {
    hide ParseHeader, DecodeChunk, Sequential;
    var header :- ReadHeader(data);
    HeaderSound(data);
    var es := header.chunks;
    ConsecutiveInFile(es, Format.RecordBase(|es|), |data|);
    if |es| == 1 {
      var plain :- RunChunk(codec, data, es[0]);
      if |plain| != header.origSize {
        return Err(BadArchive);
      }
      return Ok(plain);
    }
    var output := new byte[header.origSize](_ => 0);
    var threads := if cores < |es| then cores else |es|;
    var size := (|es| + threads - 1) / threads;
    var gs := Groups(0, |es|, size);
    GroupsPartition(0, |es|, size);
    var workers := RunGroups(codec, data, es, gs, output);
    var g: nat := 0;
    assert workers[0..] == workers;
    while g < |workers|
      invariant g <= |workers| && FirstFailure(workers) == FirstFailure(workers[g..])
    {
      if workers[g].failed.Some? {
        return Err(workers[g].failed.value);
      }
      assert workers[g..][1..] == workers[g + 1..];
      g := g + 1;
    }
    return Ok(output[..]);
  }
}
