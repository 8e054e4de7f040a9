/**
 * Conflict resolution (app.js `resolveConflicts`): a fold over the peers' answers to
 * `GET /blocks` that adopts the first strictly longest chain passing full validation.
 */
module Consensus {
  import opened Wrappers
  import opened Blocks
  import opened Settings
  import opened Validation
  import opened Ledger

  /** One registry entry and what fetching its chain gave: `None` for any failure. */
  datatype PeerReply = PeerReply(url: string, chain: Option<seq<WireBlock>>)

  /** The loop state: `maxLength` and `newChain` (`null` until a candidate is kept). */
  datatype Scan = Scan(maxLength: nat, newChain: Option<seq<Block>>)

  datatype Resolution = Resolution(node: Node, replaced: bool)

  /** A reply that offers a chain at all: from another node, fetched, and fully valid once rebuilt. */
  predicate Eligible(h: Hashing, cfg: Config, r: PeerReply)
  {
    !IsSelf(cfg, r.url) && r.chain.Some? && ValidateChain(h, cfg, Rebuild(h, r.chain.value))
  }

  function Offered(r: PeerReply): nat
  {
    if r.chain.Some? then |r.chain.value| else 0
  }

  /** Reply `m` is eligible and no earlier eligible reply is as long. */
  ghost predicate FirstOfItsLength(h: Hashing, cfg: Config, replies: seq<PeerReply>, m: nat)
  {
    && m < |replies|
    && Eligible(h, cfg, replies[m])
    && forall k :: 0 <= k < m && Eligible(h, cfg, replies[k]) ==> Offered(replies[k]) < Offered(replies[m])
  }

  /** One iteration of the loop body. */
  function Visit(h: Hashing, cfg: Config, acc: Scan, r: PeerReply): Scan
  {
    if !IsSelf(cfg, r.url) && r.chain.Some? then
      var received := Rebuild(h, r.chain.value);
      if |received| > acc.maxLength && ValidateChain(h, cfg, received) then Scan(|received|, Some(received))
      else acc
    else
      acc
  }

  /**
   * What the loop state holds after visiting `replies`: the longest eligible chain, the first
   * one of that length, kept only if it beats the local length; otherwise the local length.
   */
  ghost predicate Summarises(h: Hashing, cfg: Config, localLength: nat, replies: seq<PeerReply>, s: Scan)
  {
    && (s.newChain.None? ==> s.maxLength == localLength)
    && (s.newChain.Some? ==> localLength < s.maxLength == |s.newChain.value| && ChainValid(h, cfg, s.newChain.value))
    && (forall k :: 0 <= k < |replies| && Eligible(h, cfg, replies[k]) ==> Offered(replies[k]) <= s.maxLength)
    && (s.newChain.Some? ==>
          exists m: nat :: (FirstOfItsLength(h, cfg, replies, m)
            && Offered(replies[m]) == s.maxLength && s.newChain.value == Rebuild(h, replies[m].chain.value)))
  }

  /** The loop over `replies`, starting from the local length. */
  function ScanPeers(h: Hashing, cfg: Config, localLength: nat, replies: seq<PeerReply>): (s: Scan)
    ensures Summarises(h, cfg, localLength, replies, s)
    decreases |replies|
  {
    if |replies| == 0 then
      Scan(localLength, None)
    else
      var acc := ScanPeers(h, cfg, localLength, replies[..|replies| - 1]);
      VisitExtends(h, cfg, localLength, replies, acc);
      Visit(h, cfg, acc, replies[|replies| - 1])
  }

  /** One more iteration extends the summary from all but the last reply to all of them. */
  lemma VisitExtends(h: Hashing, cfg: Config, localLength: nat, replies: seq<PeerReply>, acc: Scan)
    requires 0 < |replies|
    requires Summarises(h, cfg, localLength, replies[..|replies| - 1], acc)
    ensures Summarises(h, cfg, localLength, replies, Visit(h, cfg, acc, replies[|replies| - 1]))
  {
    var last := |replies| - 1;
    var r := replies[last];
    if Eligible(h, cfg, r) && acc.maxLength < Offered(r) {
      VisitAdopts(h, cfg, localLength, replies, acc);
    } else {
      VisitKeeps(h, cfg, localLength, replies, acc);
    }
  }

  /** A last reply that is eligible and longer than the best so far becomes the candidate. */
  lemma VisitAdopts(h: Hashing, cfg: Config, localLength: nat, replies: seq<PeerReply>, acc: Scan)
    requires 0 < |replies|
    requires Summarises(h, cfg, localLength, replies[..|replies| - 1], acc)
    requires Eligible(h, cfg, replies[|replies| - 1]) && acc.maxLength < Offered(replies[|replies| - 1])
    ensures Summarises(h, cfg, localLength, replies, Visit(h, cfg, acc, replies[|replies| - 1]))
  {
    var last := |replies| - 1;
    var prefix := replies[..last];
    var s := Visit(h, cfg, acc, replies[last]);
    assert s == Scan(Offered(replies[last]), Some(Rebuild(h, replies[last].chain.value)));
    forall k | 0 <= k < |replies| && Eligible(h, cfg, replies[k])
      ensures Offered(replies[k]) <= s.maxLength
    {
      if k < last {
        assert prefix[k] == replies[k];
      }
    }
    forall k | 0 <= k < last && Eligible(h, cfg, replies[k])
      ensures Offered(replies[k]) < Offered(replies[last])
    {
      assert prefix[k] == replies[k];
    }
    assert FirstOfItsLength(h, cfg, replies, last);
  }

  /** Any other last reply leaves the loop state as it was. */
  lemma VisitKeeps(h: Hashing, cfg: Config, localLength: nat, replies: seq<PeerReply>, acc: Scan)
    requires 0 < |replies|
    requires Summarises(h, cfg, localLength, replies[..|replies| - 1], acc)
    requires !(Eligible(h, cfg, replies[|replies| - 1]) && acc.maxLength < Offered(replies[|replies| - 1]))
    ensures Summarises(h, cfg, localLength, replies, Visit(h, cfg, acc, replies[|replies| - 1]))
  {
    var last := |replies| - 1;
    var prefix := replies[..last];
    assert Visit(h, cfg, acc, replies[last]) == acc;
    forall k | 0 <= k < |replies| && Eligible(h, cfg, replies[k])
      ensures Offered(replies[k]) <= acc.maxLength
    {
      if k < last {
        assert prefix[k] == replies[k];
      }
    }
    if acc.newChain.Some? {
      var m: nat :| FirstOfItsLength(h, cfg, prefix, m)
        && Offered(prefix[m]) == acc.maxLength && acc.newChain.value == Rebuild(h, prefix[m].chain.value);
      forall k | 0 <= k < m && Eligible(h, cfg, replies[k])
        ensures Offered(replies[k]) < Offered(replies[m])
      {
        assert prefix[k] == replies[k];
      }
      assert prefix[m] == replies[m];
      assert FirstOfItsLength(h, cfg, replies, m);
    }
  }

  /**
   * `resolveConflicts`: replaces and saves the chain when the scan kept a candidate, and
   * reports whether it did. The chain never gets shorter.
   */
  function ResolveConflicts(h: Hashing, cfg: Config, n: Node, replies: seq<PeerReply>): (r: Resolution)
    ensures r.replaced <==> exists k :: 0 <= k < |replies| && Eligible(h, cfg, replies[k]) && |n.chain| < Offered(replies[k])
    ensures !r.replaced ==> r.node == n
    ensures r.replaced ==> |n.chain| < |r.node.chain| && ChainValid(h, cfg, r.node.chain)
    ensures r.replaced ==> r.node.saved == r.node.chain && r.node.peers == n.peers
    ensures r.replaced ==> exists m: nat :: FirstOfItsLength(h, cfg, replies, m) && r.node.chain == Rebuild(h, replies[m].chain.value)
    ensures r.replaced ==> forall k :: 0 <= k < |replies| && Eligible(h, cfg, replies[k]) ==> Offered(replies[k]) <= |r.node.chain|
    ensures Valid(h, n) ==> Valid(h, r.node)
  {
    var s := ScanPeers(h, cfg, |n.chain|, replies);
    match s.newChain
    case Some(c) =>
      assert exists k :: 0 <= k < |replies| && Eligible(h, cfg, replies[k]) && |n.chain| < Offered(replies[k]) by {
        var m: nat :| FirstOfItsLength(h, cfg, replies, m) && Offered(replies[m]) == s.maxLength
          && s.newChain.value == Rebuild(h, replies[m].chain.value);
      }
      Resolution(n.(chain := c, saved := c), true)
    case None =>
      Resolution(n, false)
  }

  /** Resolving again against the same answers changes nothing. */
  lemma ResolveStable(h: Hashing, cfg: Config, n: Node, replies: seq<PeerReply>)
    ensures !ResolveConflicts(h, cfg, ResolveConflicts(h, cfg, n, replies).node, replies).replaced
  {
  }

  /**
   * The `chain-response` handler decides exactly as a resolution against one other peer that
   * sent the same array.
   */
  lemma AcceptChainAgreesWithResolve(h: Hashing, cfg: Config, n: Node, url: string, msg: seq<WireBlock>)
    requires !IsSelf(cfg, url)
    ensures AcceptChain(h, cfg, n, Some(msg)) == ResolveConflicts(h, cfg, n, [PeerReply(url, Some(msg))]).node
  {
  }
}
