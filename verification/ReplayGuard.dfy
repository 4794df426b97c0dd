/** The nonce replay guard of `rate_limit.rs`: a set and a queue that together index a rolling window of nonces. */
module ReplayGuard {
  import opened Bytes

  /** How many nonces a guard of capacity `cap` remembers. */
  function Reach(cap: nat): (r: nat)
    ensures r >= 1
  {
    if cap == 0 then 1 else cap
  }

  /** The last `n` elements of a history, or all of them. */
  function Last(history: seq<Bytes32>, n: nat): (r: seq<Bytes32>)
    ensures |r| == if |history| < n then |history| else n
  {
    if |history| <= n then history else history[|history| - n..]
  }

  /** Equal nonces have at least `n` other accepted nonces between them. */
  ghost predicate ReplayFree(history: seq<Bytes32>, n: nat) {
    forall i, j :: 0 <= i < j < |history| && history[i] == history[j] ==> j - i - 1 >= n
  }

  /** Accepting a nonce outside the window keeps repetitions that far apart. */
  lemma ReplayFreeGrows(history: seq<Bytes32>, n: nat, nonce: Bytes32)
    requires ReplayFree(history, n) && nonce !in Last(history, n)
    ensures ReplayFree(history + [nonce], n)
  {
    var start := if |history| <= n then 0 else |history| - n;
    forall i | start <= i < |history|
      ensures history[i] != nonce
    {
      assert Last(history, n)[i - start] == history[i];
    }
  }

  /** Inside the window all nonces differ. */
  lemma WindowDistinct(history: seq<Bytes32>, n: nat)
    requires ReplayFree(history, n)
    ensures forall i, j :: 0 <= i < j < |Last(history, n)| ==> Last(history, n)[i] != Last(history, n)[j]
  {
    forall i, j | 0 <= i < j < |Last(history, n)|
      ensures Last(history, n)[i] != Last(history, n)[j]
    {
      LastAt(history, n, i);
      LastAt(history, n, j);
    }
  }

  lemma LastAt(history: seq<Bytes32>, n: nat, i: nat)
    requires i < |Last(history, n)|
    ensures Last(history, n)[i] == history[|history| - |Last(history, n)| + i]
  {
  }

  function Members(s: seq<Bytes32>): set<Bytes32> {
    set x | x in s
  }

  /** The window after one more nonce: the oldest leaves once the window is full. */
  lemma WindowSlides(history: seq<Bytes32>, n: nat, nonce: Bytes32)
    requires n >= 1
    ensures var w := Last(history, n);
            Last(history + [nonce], n) == (if |w| == n then w[1..] else w) + [nonce]
  {
  }

  /** `NonceReplayGuard`, with the nonces it accepted so far. */
  class NonceReplayGuard {
    var seen: set<Bytes32>
    var order: seq<Bytes32>
    const cap: nat
    ghost var accepted: seq<Bytes32>

    /** The queue is the end of the history, the set indexes the queue, and repetitions are far apart. */
    ghost predicate Valid()
      reads this
    {
      && order == Last(accepted, Reach(cap))
      && seen == Members(order)
      && ReplayFree(accepted, Reach(cap))
    }

    constructor WithCapacity(cap: nat)
      ensures Valid() && accepted == [] && this.cap == cap
    {
      seen := {};
      order := [];
      this.cap := cap;
      accepted := [];
    }

    /** Refuses exactly the nonces among the last `Reach(cap)` accepted ones. */
    method Register(nonce: Bytes32) returns (ok: bool)
      requires Valid()
      modifies this
      ensures Valid()
      ensures ok <==> nonce !in Last(old(accepted), Reach(cap))
      ensures accepted == if ok then old(accepted) + [nonce] else old(accepted)
    {
      if nonce in seen {
        return false;
      }
      WindowDistinct(accepted, Reach(cap));
      WindowSlides(accepted, Reach(cap), nonce);
      ReplayFreeGrows(accepted, Reach(cap), nonce);
      if |order| >= cap {
        if order != [] {
          var evicted := order[0];
          order := order[1..];
          seen := seen - {evicted};
        }
      }
      seen := seen + {nonce};
      order := order + [nonce];
      accepted := accepted + [nonce];
      return true;
    }

    method CurrentSize() returns (n: nat)
      requires Valid()
      ensures n == if |accepted| < Reach(cap) then |accepted| else Reach(cap)
    {
      n := |order|;
    }
  }
}
