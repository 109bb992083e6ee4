/** The plain walk along parents, with a callback that may stop it. */
module Cache {
  import opened Options
  import opened Wire
  import opened Shares
  import opened Difficulties
  import opened Window

  /** How far the callback lets a chain be visited: up to and including the first share it refuses. */
  function UntilRefused(chain: seq<Share>, depth: nat, refuses: (Share, nat) -> bool): seq<Share> {
    if chain == [] then []
    else if refuses(chain[0], depth) then [chain[0]]
    else [chain[0]] + UntilRefused(chain[1..], depth + 1, refuses)
  }

  /** What is visited from `current` at `depth` on: the chain, as far as depth and callback let it. */
  function Rest(shares: map<Hash, Share>, current: Share, depth: nat, maxDepth: int,
                refuses: (Share, nat) -> bool): seq<Share>
  {
    if depth >= maxDepth then [] else UntilRefused(Chain(shares, current, maxDepth - depth), depth, refuses)
  }

  method WalkParentChainFromMap(shares: map<Hash, Share>, share: Option<Share>, maxDepth: int,
                                refuses: (Share, nat) -> bool)
    returns (visited: seq<Share>, failed: bool)
    ensures visited == (if share.Some? then Rest(shares, share.value, 0, maxDepth, refuses) else [])
    ensures (failed <==> visited != [] && refuses(visited[|visited| - 1], |visited| - 1))
  {
    hide Rest;
    visited, failed := [], false;
    if share.None? {
      return;
    }
    ghost var all := Rest(shares, share.value, 0, maxDepth, refuses);
    var current, depth := share.value, 0;
    while depth < maxDepth
      invariant |visited| == depth && visited + Rest(shares, current, depth, maxDepth, refuses) == all
      invariant visited != [] ==> !refuses(visited[|visited| - 1], |visited| - 1)
    {
      UnfoldRest(shares, current, depth, maxDepth, refuses);
      visited := visited + [current];
      if refuses(current, depth) {
        return visited, true;
      }
      if current.parent == ZeroHash() {
        return;
      }
      if current.parent !in shares {
        return;
      }
      current := shares[current.parent];
      depth := depth + 1;
    }
    NoRest(shares, current, depth, maxDepth, refuses);
  }

  lemma NoRest(shares: map<Hash, Share>, current: Share, depth: nat, maxDepth: int, refuses: (Share, nat) -> bool)
    requires depth >= maxDepth
    ensures Rest(shares, current, depth, maxDepth, refuses) == []
  {
  }

  lemma UnfoldRest(shares: map<Hash, Share>, current: Share, depth: nat, maxDepth: int,
                   refuses: (Share, nat) -> bool)
    requires depth < maxDepth
    ensures var rest := Rest(shares, current, depth, maxDepth, refuses);
            if refuses(current, depth) || current.parent == ZeroHash() || current.parent !in shares
            then rest == [current]
            else rest == [current] + Rest(shares, shares[current.parent], depth + 1, maxDepth, refuses)
  {
    UnfoldChain(shares, current, maxDepth - depth, depth, refuses);
  }

  lemma UnfoldChain(shares: map<Hash, Share>, current: Share, left: nat, depth: nat, refuses: (Share, nat) -> bool)
    requires left > 0
    ensures var rest := UntilRefused(Chain(shares, current, left), depth, refuses);
            if refuses(current, depth) || current.parent == ZeroHash() || current.parent !in shares
            then rest == [current]
            else rest == [current] + UntilRefused(Chain(shares, shares[current.parent], left - 1), depth + 1, refuses)
  {
    var chain := Chain(shares, current, left);
    assert chain[0] == current;
    if current.parent == ZeroHash() || current.parent !in shares {
      assert chain[1..] == [];
    } else {
      assert chain[1..] == Chain(shares, shares[current.parent], left - 1);
    }
  }

  lemma {:induction false} NeverRefused(chain: seq<Share>, depth: nat, refuses: (Share, nat) -> bool)
    requires forall s, d :: !refuses(s, d)
    ensures UntilRefused(chain, depth, refuses) == chain
    decreases |chain|
  {
    if chain != [] {
      NeverRefused(chain[1..], depth + 1, refuses);
    }
  }

  /** The shares of a window are the first ones the plain walk of depth 2160 visits from the tip. */
  lemma WindowFollowsWalk(shares: map<Hash, Share>, tip: Share, mainchainDiff: Difficulty,
                          refuses: (Share, nat) -> bool)
    requires ZeroHash() !in shares && forall s, d :: !refuses(s, d)
    ensures Visited(WindowOf(shares, tip, mainchainDiff)) <= Rest(shares, tip, 0, PPLNS_WINDOW, refuses)
  {
    hide WindowOf, Visited, Chain, UntilRefused;
    WalkBounded(shares, tip, mainchainDiff);
    NeverRefused(Chain(shares, tip, PPLNS_WINDOW), 0, refuses);
  }

  /**
   * A walk, said of the visited shares: each is the known parent of the one before, which was neither refused nor
   * a genesis block, and the last one was refused, the deepest allowed, or without a known parent.
   */
  predicate Walked(shares: map<Hash, Share>, current: Share, depth: nat, maxDepth: int,
                   refuses: (Share, nat) -> bool, visited: seq<Share>)
  {
    && visited != [] && visited[0] == current && |visited| <= maxDepth - depth
    && (forall i :: 0 <= i < |visited| - 1 ==>
          && !refuses(visited[i], depth + i)
          && visited[i].parent != ZeroHash() && visited[i].parent in shares
          && visited[i + 1] == shares[visited[i].parent])
    && var last := visited[|visited| - 1];
       || refuses(last, depth + |visited| - 1) || |visited| == maxDepth - depth
       || last.parent == ZeroHash() || last.parent !in shares
  }

  lemma {:induction false} RestWalks(shares: map<Hash, Share>, current: Share, depth: nat, maxDepth: int,
                                     refuses: (Share, nat) -> bool)
    requires depth < maxDepth
    ensures Walked(shares, current, depth, maxDepth, refuses, Rest(shares, current, depth, maxDepth, refuses))
    decreases maxDepth - depth
  {
    hide Rest;
    UnfoldRest(shares, current, depth, maxDepth, refuses);
    var rest := Rest(shares, current, depth, maxDepth, refuses);
    if !refuses(current, depth) && current.parent != ZeroHash() && current.parent in shares {
      var parent := shares[current.parent];
      if depth + 1 < maxDepth {
        RestWalks(shares, parent, depth + 1, maxDepth, refuses);
        var tail := Rest(shares, parent, depth + 1, maxDepth, refuses);
        assert rest == [current] + tail;
        forall i | 0 <= i < |rest| - 1
          ensures && !refuses(rest[i], depth + i)
                  && rest[i].parent != ZeroHash() && rest[i].parent in shares
                  && rest[i + 1] == shares[rest[i].parent]
        {
          assert i > 0 ==> rest[i] == tail[i - 1] && rest[i + 1] == tail[i];
        }
        assert rest[|rest| - 1] == tail[|tail| - 1];
      } else {
        NoRest(shares, parent, depth + 1, maxDepth, refuses);
        assert rest == [current];
      }
    }
  }
}
