/**
 * Proof-of-authority validation (app.js `validateBlock`, `validateChain`).
 */
module Validation {
  import opened Wrappers
  import opened Blocks
  import opened Settings

  /** The three checks applied to a non-genesis block against its predecessor. */
  predicate LinksTo(h: Hashing, cfg: Config, prev: Block, cur: Block)
  {
    && cur.hash == CalculateHash(h, cur)
    && cur.previousHash == prev.hash
    && IsAuthorized(cfg, cur.validator)
  }

  /**
   * `validateBlock` against the current tip `latest`. A block with index 0 takes the genesis
   * branch, which looks at neither the tip nor the hash; no other branch looks at the index.
   */
  function ValidateBlock(h: Hashing, cfg: Config, latest: Block, b: Block): (ok: bool)
    ensures ok ==> IsAuthorized(cfg, b.validator)
    ensures ok ==> b.previousHash == (if b.index == 0 then "0" else latest.hash)
    ensures ok && b.index != 0 ==> HashConsistent(h, b)
  {
    if b.index == 0 then
      b.validator == "genesis" && b.previousHash == "0"
    else
      LinksTo(h, cfg, latest, b)
  }

  /** Position `i` of a chain passes the per-position checks of `validateChain`. */
  predicate StepValid(h: Hashing, cfg: Config, c: seq<Block>, i: nat)
    requires 1 <= i < |c|
  {
    LinksTo(h, cfg, c[i - 1], c[i])
  }

  /** What `validateChain` accepts: every position from 1 on passes; position 0 is never inspected. */
  predicate ChainValid(h: Hashing, cfg: Config, c: seq<Block>)
  {
    forall i :: 1 <= i < |c| ==> StepValid(h, cfg, c, i)
  }

  /** The loop of `validateChain` from position `from`: the first failing position, if any. */
  function FirstFault(h: Hashing, cfg: Config, c: seq<Block>, from: nat): (r: Option<nat>)
    requires 1 <= from
    ensures r.None? <==> forall i :: from <= i < |c| ==> StepValid(h, cfg, c, i)
    ensures r.Some? ==> from <= r.value < |c| && !StepValid(h, cfg, c, r.value)
    ensures r.Some? ==> forall i :: from <= i < r.value ==> StepValid(h, cfg, c, i)
    decreases |c| - from
  {
    if from >= |c| then None
    else if !StepValid(h, cfg, c, from) then Some(from)
    else FirstFault(h, cfg, c, from + 1)
  }

  /** `validateChain`: walks from position 1 and stops at the first failure. */
  function ValidateChain(h: Hashing, cfg: Config, c: seq<Block>): (ok: bool)
    ensures ok <==> ChainValid(h, cfg, c)
  {
    FirstFault(h, cfg, c, 1).None?
  }

  /** The genesis branch: decided by validator and previous hash alone, whatever the tip. */
  lemma GenesisRuleIgnoresTip(h: Hashing, cfg: Config, tip1: Block, tip2: Block, b: Block)
    requires b.index == 0
    ensures ValidateBlock(h, cfg, tip1, b) == ValidateBlock(h, cfg, tip2, b)
    ensures ValidateBlock(h, cfg, tip1, b) <==> b.validator == "genesis" && b.previousHash == "0"
  {
  }

  /**
   * For a rebuilt block the hash check always passes, so a non-genesis block is accepted exactly
   * when it links to the tip and its validator is authorised, whatever hash it arrived with.
   */
  lemma RebuiltHashCheckVacuous(h: Hashing, cfg: Config, latest: Block, w: WireBlock)
    requires w.index != 0
    ensures ValidateBlock(h, cfg, latest, FromJSON(h, w))
        <==> w.previousHash == latest.hash && IsAuthorized(cfg, w.validator)
  {
  }

  /** Position `i` of a received array passes once rebuilt: it links to its rebuilt predecessor and names an authorised validator. */
  predicate WireStepValid(h: Hashing, cfg: Config, ws: seq<WireBlock>, i: nat)
    requires 1 <= i < |ws|
  {
    ws[i].previousHash == FromJSON(h, ws[i - 1]).hash && IsAuthorized(cfg, ws[i].validator)
  }

  /**
   * The same for whole chains: a received array passes full validation once rebuilt exactly
   * when each position links to its rebuilt predecessor and names an authorised validator,
   * whatever hashes the array carried.
   */
  lemma {:induction false} RebuiltChainHashCheckVacuous(h: Hashing, cfg: Config, ws: seq<WireBlock>)
    ensures ValidateChain(h, cfg, Rebuild(h, ws)) <==> forall i :: 1 <= i < |ws| ==> WireStepValid(h, cfg, ws, i)
  {
    var bs := Rebuild(h, ws);
    forall i | 1 <= i < |ws|
      ensures StepValid(h, cfg, bs, i) <==> WireStepValid(h, cfg, ws, i)
    {
      assert bs[i] == FromJSON(h, ws[i]);
      assert bs[i - 1] == FromJSON(h, ws[i - 1]);
    }
  }

  /** The index of a rebuilt non-genesis block is never compared with anything. */
  lemma IndexNeverChecked(h: Hashing, cfg: Config, latest: Block, w: WireBlock, otherIndex: int)
    requires w.index != 0 && otherIndex != 0
    ensures ValidateBlock(h, cfg, latest, FromJSON(h, w)) == ValidateBlock(h, cfg, latest, FromJSON(h, w.(index := otherIndex)))
  {
  }

  /** A non-genesis block signed by an identity off the allow-list is refused, however well it links. */
  lemma UnauthorizedRejected(h: Hashing, cfg: Config, latest: Block, b: Block)
    requires b.index != 0 && !IsAuthorized(cfg, b.validator)
    ensures !ValidateBlock(h, cfg, latest, b)
  {
  }

  /** Position 0 is never inspected: every chain of at most one block is valid. */
  lemma ShortChainsValid(h: Hashing, cfg: Config, c: seq<Block>)
    requires |c| <= 1
    ensures ValidateChain(h, cfg, c)
  {
  }

  /**
   * A forged first block passes full validation as long as it carries the hash the second
   * block links to: its index, validator, previous hash and content are never looked at.
   */
  lemma {:induction false} ForgedGenesisAccepted(h: Hashing, cfg: Config, c: seq<Block>, forged: Block)
    requires 0 < |c| && ChainValid(h, cfg, c) && forged.hash == c[0].hash
    ensures ChainValid(h, cfg, c[0 := forged])
  {
    var d := c[0 := forged];
    forall i | 1 <= i < |d|
      ensures StepValid(h, cfg, d, i)
    {
      assert StepValid(h, cfg, c, i);
      assert d[i] == c[i];
      assert d[i - 1].hash == c[i - 1].hash;
    }
  }

  /** Appending a block that passes the non-genesis branch against the tip keeps a chain valid. */
  lemma {:induction false} AppendKeepsChainValid(h: Hashing, cfg: Config, c: seq<Block>, b: Block)
    requires 0 < |c| && ChainValid(h, cfg, c)
    requires b.index != 0 && ValidateBlock(h, cfg, c[|c| - 1], b)
    ensures ChainValid(h, cfg, c + [b])
  {
    var d := c + [b];
    forall i | 1 <= i < |d|
      ensures StepValid(h, cfg, d, i)
    {
      if i < |c| {
        assert StepValid(h, cfg, c, i);
        assert d[i] == c[i] && d[i - 1] == c[i - 1];
      }
    }
  }

  /**
   * The genesis branch lets a block with index 0 through against any tip; appended to a chain
   * whose tip hash is not "0", it makes the chain fail full validation.
   */
  lemma GenesisShapedAppendBreaksChain(h: Hashing, cfg: Config, c: seq<Block>, b: Block)
    requires 0 < |c| && c[|c| - 1].hash != "0"
    requires b.index == 0 && ValidateBlock(h, cfg, c[|c| - 1], b)
    ensures !ChainValid(h, cfg, c + [b])
  {
    var d := c + [b];
    assert d[|c|] == b && d[|c| - 1] == c[|c| - 1];
    assert !StepValid(h, cfg, d, |c|);
  }
}
