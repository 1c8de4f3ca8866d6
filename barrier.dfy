/**
 * hpx::distributed::barrier: the generation bookkeeping of a barrier
 * spread over several localities.  Every wait names a generation; the
 * barrier remembers the last one in `generation` and rejects zero and
 * non-increasing numbers with bad_parameter.
 */
module Barrier {
  import opened Wrappers

  const TwoTo64: int := 0x1_0000_0000_0000_0000
  type SizeT = x: int | 0 <= x < TwoTo64

  /** size_t(-1): the default generation_arg, meaning "use the next one". */
  const NextGeneration: SizeT := TwoTo64 - 1

  datatype Error = BadParameter(where: string, message: string)

  const BarrierName := "hpx::distributed::barrier"
  const ZeroGenerationMessage := "the generation number shouldn't be zero"
  const NotIncreasingMessage := "the generation number be must continuously increasing"

  /**
   * One call of wait(async, generation) on a barrier whose last
   * generation is `current`: the new last generation and either the
   * generation the communication runs under or the error.
   */
  function WaitStep(current: SizeT, generation: SizeT): (SizeT, Result<SizeT, Error>)
  {
    if generation == 0 then
      (current, Failure(BadParameter(BarrierName, ZeroGenerationMessage)))
    else if generation != NextGeneration then
      (generation,
       if current >= generation then Failure(BadParameter(BarrierName, NotIncreasingMessage))
       else Success(generation))
    else
      var next := (current + 1) % TwoTo64;
      (next, Success(next))
  }

  /** find_rank: the index of the first occurrence of `rank`; its presence is asserted. */
  function FindRank(ranks: seq<SizeT>, rank: SizeT): (i: nat)
    requires rank in ranks
    ensures i < |ranks| && ranks[i] == rank
    ensures rank !in ranks[..i]
  {
    if ranks[0] == rank then 0
    else
      assert rank in ranks[1..];
      1 + FindRank(ranks[1..], rank)
  }

  class Barrier {
    const basename: string
    /** The num_sites_arg and this_site_arg given to the communicator, when given. */
    const numSites: Option<SizeT>
    const thisSite: Option<SizeT>
    var generation: SizeT

    /** barrier(basename, generation, root_site) */
    constructor (basename: string)
      ensures this.basename == basename && numSites == None && thisSite == None
      ensures generation == 0
    {
      this.basename := basename;
      numSites := None;
      thisSite := None;
      generation := 0;
    }

    /** barrier(basename, num, generation, root_site) */
    constructor WithSites(basename: string, num: SizeT)
      ensures this.basename == basename && numSites == Some(num) && thisSite == None
      ensures generation == 0
    {
      this.basename := basename;
      numSites := Some(num);
      thisSite := None;
      generation := 0;
    }

    /** barrier(basename, num, rank, generation, root_site) */
    constructor WithRank(basename: string, num: SizeT, rank: SizeT)
      ensures this.basename == basename && numSites == Some(num) && thisSite == Some(rank)
      ensures generation == 0
    {
      this.basename := basename;
      numSites := Some(num);
      thisSite := Some(rank);
      generation := 0;
    }

    /** barrier(basename, ranks, rank): as many sites as ranks, this site at rank's index. */
    constructor FromRanks(basename: string, ranks: seq<SizeT>, rank: SizeT)
      requires rank in ranks && |ranks| < TwoTo64
      ensures this.basename == basename && numSites == Some(|ranks|)
      ensures thisSite.Some? && thisSite.value < |ranks| && ranks[thisSite.value] == rank
      ensures rank !in ranks[..thisSite.value]
      ensures generation == 0
    {
      this.basename := basename;
      numSites := Some(|ranks|);
      thisSite := Some(FindRank(ranks, rank));
      generation := 0;
    }

    /** detach: the communicator is released and the generation count starts over. */
    method Detach()
      modifies this
      ensures generation == 0
    {
      generation := 0;
    }

    /** wait(async, generation), up to the communication it then starts. */
    method Wait(g: SizeT) returns (r: Result<SizeT, Error>)
      modifies this
      ensures (generation, r) == WaitStep(old(generation), g)
    {
      if g == 0 {
        return Failure(BadParameter(BarrierName, ZeroGenerationMessage));
      }
      var used := g;
      if g != NextGeneration {
        var previous := generation;
        generation := g;
        if previous >= g {
          return Failure(BadParameter(BarrierName, NotIncreasingMessage));
        }
      } else {
        generation := (generation + 1) % TwoTo64;
        used := generation;
      }
      return Success(used);
    }
  }

  // ---------------------------------------------------------------------
  // Properties of one wait

  /** Generation 0 is refused and the barrier keeps its generation. */
  lemma ZeroGenerationRejected(current: SizeT)
    ensures WaitStep(current, 0).0 == current
    ensures WaitStep(current, 0).1 == Failure(BadParameter(BarrierName, ZeroGenerationMessage))
  {
  }

  /**
   * An explicit generation becomes the barrier's generation whether or not
   * it is accepted, and it is accepted exactly when it exceeds the previous one.
   */
  lemma ExplicitGeneration(current: SizeT, g: SizeT)
    requires g != 0 && g != NextGeneration
    ensures WaitStep(current, g).0 == g
    ensures WaitStep(current, g).1.Success? <==> current < g
    ensures WaitStep(current, g).1.Success? ==> WaitStep(current, g).1.value == g
    ensures WaitStep(current, g).1.Failure? ==> WaitStep(current, g).1.error.message == NotIncreasingMessage
  {
  }

  /** Without an explicit generation the next one is used, wrapping like size_t. */
  lemma NextGenerationIncrements(current: SizeT)
    ensures WaitStep(current, NextGeneration).1 == Success(WaitStep(current, NextGeneration).0)
    ensures current < NextGeneration ==> WaitStep(current, NextGeneration).0 == current + 1
    ensures current == NextGeneration ==> WaitStep(current, NextGeneration).0 == 0
  {
  }

  /** A wait that goes ahead leaves the barrier at the generation it used. */
  lemma SuccessRecordsGeneration(current: SizeT, g: SizeT)
    requires WaitStep(current, g).1.Success?
    ensures WaitStep(current, g).1.value == WaitStep(current, g).0
    ensures current < NextGeneration ==> WaitStep(current, g).0 > current
  {
  }

  // ---------------------------------------------------------------------
  // Runs of waits

  /**
   * wait with the check made before the generation is replaced: a refused
   * generation leaves the barrier as it was.
   */
  function WaitStepChecked(current: SizeT, generation: SizeT): (r: (SizeT, Result<SizeT, Error>))
    ensures r.1.Failure? ==> r.0 == current
    ensures r.1.Success? ==> r.0 == r.1.value
  {
    var (next, result) := WaitStep(current, generation);
    if result.Failure? then (current, result) else (next, result)
  }

  function Step(checked: bool, current: SizeT, g: SizeT): (SizeT, Result<SizeT, Error>) {
    if checked then WaitStepChecked(current, g) else WaitStep(current, g)
  }

  /** The generations under which the waits of `gens` go ahead, in order. */
  function Accepted(checked: bool, current: SizeT, gens: seq<SizeT>): seq<SizeT>
    decreases |gens|
  {
    if |gens| == 0 then []
    else
      var (next, result) := Step(checked, current, gens[0]);
      (if result.Success? then [result.value] else []) + Accepted(checked, next, gens[1..])
  }

  /** No wait of the run asks for the next generation when none is left below size_t(-1). */
  predicate NoWrap(checked: bool, current: SizeT, gens: seq<SizeT>)
    decreases |gens|
  {
    |gens| == 0 ||
    ((gens[0] == NextGeneration ==> current < NextGeneration) &&
     NoWrap(checked, Step(checked, current, gens[0]).0, gens[1..]))
  }

  predicate StrictlyIncreasing(s: seq<SizeT>) {
    forall i, j :: 0 <= i < j < |s| ==> s[i] < s[j]
  }

  /** As written, a refused generation lowers the barrier's generation, so 5 can be accepted twice. */
  lemma AsWrittenAcceptsGenerationTwice()
    ensures Accepted(false, 0, [5, 3, 5]) == [5, 5]
    ensures NoWrap(false, 0, [5, 3, 5])
  {
    assert [5, 3, 5][1..] == [3, 5];
    assert [3, 5][1..] == [5];
  }

  /**
   * With the check made first, the generations a run goes ahead under
   * strictly increase and exceed the starting one.
   */
  lemma {:induction false} CheckedGenerationsIncrease(current: SizeT, gens: seq<SizeT>)
    requires NoWrap(true, current, gens)
    ensures StrictlyIncreasing(Accepted(true, current, gens))
    ensures forall x :: x in Accepted(true, current, gens) ==> x > current
    decreases |gens|
  {
    if |gens| > 0 {
      var (next, result) := WaitStepChecked(current, gens[0]);
      CheckedGenerationsIncrease(next, gens[1..]);
      var tail := Accepted(true, next, gens[1..]);
      assert next >= current by {
        if result.Success? && gens[0] != NextGeneration {
          assert current < gens[0];
        }
      }
      if result.Success? {
        assert next > current by {
          if gens[0] != NextGeneration {
            assert current < gens[0];
          }
        }
        var all := [result.value] + tail;
        assert Accepted(true, current, gens) == all;
        forall i, j | 0 <= i < j < |all|
          ensures all[i] < all[j]
        {
          if i > 0 {
            assert all[i] == tail[i - 1] && all[j] == tail[j - 1];
          } else {
            assert all[j] in tail;
          }
        }
      }
    }
  }
}
