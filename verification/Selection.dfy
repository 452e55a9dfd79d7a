/** Best-of selection: shorter wins, ties keep the earlier candidate. */
module Selection {
  import opened Bytes

  /** The payload of each pass, or None where the encoder failed. */
  type Outcomes = seq<Option<seq<byte>>>

  datatype Best = Best(size: nat, pass: nat, payload: seq<byte>)

  /** The update under the lock in src/compress.rs: lower size, then lower pass index. */
  function Improve(best: Option<Best>, pass: nat, payload: seq<byte>): Option<Best> {
    if best.None? || |payload| < best.value.size || (|payload| == best.value.size && pass < best.value.pass)
    then Some(Best(|payload|, pass, payload))
    else best
  }

  predicate Succeeded(outcomes: Outcomes, p: nat) {
    p < |outcomes| && outcomes[p].Some?
  }

  /** Pass `p` precedes or equals pass `q` in the order (payload length, pass index). */
  predicate NotWorse(outcomes: Outcomes, p: nat, q: nat)
    requires Succeeded(outcomes, p) && Succeeded(outcomes, q)
  {
    var m, n := |outcomes[p].value|, |outcomes[q].value|;
    m < n || (m == n && p <= q)
  }

  /** `best` is the lexicographic minimum over the successful passes of `done`. */
  ghost predicate IsBest(outcomes: Outcomes, done: set<nat>, best: Option<Best>) {
    match best
    case None => forall q :: q in done ==> !Succeeded(outcomes, q)
    case Some(b) =>
      && b.pass in done && Succeeded(outcomes, b.pass)
      && b.payload == outcomes[b.pass].value && b.size == |b.payload|
      && forall q :: q in done && Succeeded(outcomes, q) ==> NotWorse(outcomes, b.pass, q)
  }

  lemma BestUnique(outcomes: Outcomes, done: set<nat>, a: Option<Best>, b: Option<Best>)
    requires IsBest(outcomes, done, a) && IsBest(outcomes, done, b)
    ensures a == b
  {
    if a.Some? && b.Some? {
      assert NotWorse(outcomes, a.value.pass, b.value.pass) && NotWorse(outcomes, b.value.pass, a.value.pass);
    }
  }

  lemma ImproveKeepsBest(outcomes: Outcomes, done: set<nat>, best: Option<Best>, p: nat)
    requires IsBest(outcomes, done, best) && Succeeded(outcomes, p)
    ensures IsBest(outcomes, done + {p}, Improve(best, p, outcomes[p].value))
  {
  }

  lemma FailureKeepsBest(outcomes: Outcomes, done: set<nat>, best: Option<Best>, p: nat)
    requires IsBest(outcomes, done, best) && !Succeeded(outcomes, p)
    ensures IsBest(outcomes, done + {p}, best)
  {
  }

  function Passes(n: nat): (s: set<nat>)
    ensures forall p: nat :: p in s <==> p < n
  {
    if n == 0 then {} else Passes(n - 1) + {n - 1}
  }

  /** The candidates considered in index order. */
  function BestOfFirst(outcomes: Outcomes, n: nat): Option<Best>
    requires n <= |outcomes|
  {
    if n == 0 then None
    else
      var best := BestOfFirst(outcomes, n - 1);
      if outcomes[n - 1].None? then best else Improve(best, n - 1, outcomes[n - 1].value)
  }

  function Winner(outcomes: Outcomes): Option<Best> {
    BestOfFirst(outcomes, |outcomes|)
  }

  lemma {:induction false} BestOfFirstIsBest(outcomes: Outcomes, n: nat)
    requires n <= |outcomes|
    ensures IsBest(outcomes, Passes(n), BestOfFirst(outcomes, n))
  {
    if n > 0 {
      BestOfFirstIsBest(outcomes, n - 1);
      assert Passes(n) == Passes(n - 1) + {n - 1};
      if outcomes[n - 1].None? {
        FailureKeepsBest(outcomes, Passes(n - 1), BestOfFirst(outcomes, n - 1), n - 1);
      } else {
        ImproveKeepsBest(outcomes, Passes(n - 1), BestOfFirst(outcomes, n - 1), n - 1);
      }
    }
  }

  /** Whatever is best over all passes is the winner. */
  lemma BestIsWinner(outcomes: Outcomes, best: Option<Best>)
    requires IsBest(outcomes, Passes(|outcomes|), best)
    ensures best == Winner(outcomes)
  {
    BestOfFirstIsBest(outcomes, |outcomes|);
    BestUnique(outcomes, Passes(|outcomes|), best, Winner(outcomes));
  }

  /** The winner is an earliest shortest success; there is none exactly when every pass failed. */
  lemma WinnerIsEarliestShortest(outcomes: Outcomes)
    ensures var w := Winner(outcomes);
            && (w.None? <==> forall p :: 0 <= p < |outcomes| ==> outcomes[p].None?)
            && (w.Some? ==>
                  && w.value.pass < |outcomes| && outcomes[w.value.pass] == Some(w.value.payload) && w.value.size == |w.value.payload|
                  && (forall q :: 0 <= q < |outcomes| && outcomes[q].Some? ==> w.value.size <= |outcomes[q].value|)
                  && (forall q :: 0 <= q < w.value.pass && outcomes[q].Some? ==> w.value.size < |outcomes[q].value|))
  {
    BestOfFirstIsBest(outcomes, |outcomes|);
    var w := Winner(outcomes);
    if w.Some? {
      forall q | 0 <= q < |outcomes| && outcomes[q].Some?
        ensures w.value.size <= |outcomes[q].value| && (q < w.value.pass ==> w.value.size < |outcomes[q].value|)
      {
        assert q in Passes(|outcomes|) && Succeeded(outcomes, q);
        assert NotWorse(outcomes, w.value.pass, q);
      }
    } else {
      forall p | 0 <= p < |outcomes| ensures outcomes[p].None? {
        assert p in Passes(|outcomes|);
      }
    }
  }
}
