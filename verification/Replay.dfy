/** The linked chain follows every run of the reference model. */
module Replay {
  import opened Records
  import opened ChainModel
  import opened ChainInvariants
  import opened ChainRuns
  import opened Chain

  /** From a fresh chain on, the operations of a run take the linked blocks, branches, caches,
      pointers and the database through exactly the states of the run, and maintenance is never
      fatal in it. */
  method Follow(chain: BlockChain, steps: seq<Step>, ghost ss: seq<State>)
    requires chain.Valid() && IsRun(chain.genesis, chain.universe, chain.rules, ss, steps) && chain.abs == ss[0]
    modifies chain, chain.db, chain.branches, chain.nodes
    ensures chain.Valid() && chain.abs == ss[|steps|]
  {
    hide IsRun, BlockChain.Coupled, BlockChain.Backed, Leaves, ForkRefused, HashIdentity, ChecksBlocks;
    assert |ss| == |steps| + 1 by { RunLength(chain.genesis, chain.universe, chain.rules, ss, steps); }
    for k := 0 to |steps|
      invariant chain.Valid() && chain.abs == ss[k]
      invariant fresh(chain.nodes - old(chain.nodes))
      invariant forall j | 0 <= j < |chain.branches|
          :: chain.branches[j] in old(chain.branches) || fresh(chain.branches[j])
    {
      RunAt(chain.genesis, chain.universe, chain.rules, ss, steps, k);
      match steps[k] {
        case Add(blocks, local, now, coins) => chain.AddBlocks(blocks, local, now, coins);
        case Maintenance => var fatal := chain.Maintain();
      }
    }
  }

  lemma {:induction false} RunLength(g: Block, u: set<Block>, r: Rules, ss: seq<State>, steps: seq<Step>)
    requires IsRun(g, u, r, ss, steps)
    ensures |ss| == |steps| + 1
  {
  }

  lemma {:induction false} RunAt(g: Block, u: set<Block>, r: Rules, ss: seq<State>, steps: seq<Step>, k: nat)
    requires IsRun(g, u, r, ss, steps) && k < |steps|
    ensures |ss| == |steps| + 1
    ensures Next(r, ss[k], steps[k], ss[k + 1]) && Fits(ss[k]) && Orderly(r, u, ss[k], steps[k])
  {
    hide Next, Fits, Orderly, HashIdentity, ChecksBlocks, WellFormed;
  }
}
