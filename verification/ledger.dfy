/**
 * The node's ledger (app.js `Blockchain` and the handlers that mutate `docChain.chain`).
 * Each handler is one atomic step from a `Node` to a `Node`.
 */
module Ledger {
  import opened Wrappers
  import opened Blocks
  import opened Settings
  import opened Validation

  /**
   * `chain` is `docChain.chain`; `saved` is the chain that `blockchain.json` reloads to
   * (the file stores all six fields, and reloading rebuilds every block through the
   * constructor); `peers` is `NETWORK_NODES`.
   */
  datatype Node = Node(chain: seq<Block>, saved: seq<Block>, peers: set<string>)

  /**
   * What every reachable node satisfies: the chain is never empty, the file matches memory
   * after every step, and every block was built by the constructor.
   */
  ghost predicate Valid(h: Hashing, n: Node)
  {
    && 0 < |n.chain|
    && n.saved == n.chain
    && forall i :: 0 <= i < |n.chain| ==> HashConsistent(h, n.chain[i])
  }

  /** `getLatestBlock()`. */
  function Latest(n: Node): Block
    requires 0 < |n.chain|
  {
    n.chain[|n.chain| - 1]
  }

  /** `c` begins with `prefix`: no earlier entry was removed or altered. */
  predicate Extends(c: seq<Block>, prefix: seq<Block>)
  {
    |prefix| <= |c| && c[..|prefix|] == prefix
  }

  predicate HasHash(c: seq<Block>, x: string)
  {
    exists i :: 0 <= i < |c| && c[i].hash == x
  }

  /**
   * Start-up: the `Blockchain` constructor loads `blockchain.json` (`loaded`, empty when the
   * file is missing) and, if that yields no block, creates and saves the genesis block; the
   * server then seeds the registry with its own address.
   */
  function Init(h: Hashing, cfg: Config, loaded: seq<WireBlock>): (n: Node)
    ensures Valid(h, n)
    ensures |loaded| == 0 ==> n.chain == [Genesis(h)]
    ensures 0 < |loaded| ==> |n.chain| == |loaded| && forall i :: 0 <= i < |loaded| ==> SameContent(loaded[i], n.chain[i])
    ensures n.peers == {IpUrl(cfg)}
  {
    var chain := if |loaded| == 0 then [Genesis(h)] else Rebuild(h, loaded);
    Node(chain, chain, {IpUrl(cfg)})
  }

  /** A successful local append: the new node and the `new-block` message it emits. */
  datatype Appended = Appended(node: Node, broadcast: WireBlock)

  /**
   * `addBlock`: throws "Invalid block" unless the block validates against the tip; otherwise
   * appends it, saves the chain and broadcasts all six fields.
   */
  function AddBlock(h: Hashing, cfg: Config, n: Node, b: Block): (r: Result<Appended, Error>)
    requires 0 < |n.chain|
    ensures r.Failure? <==> !ValidateBlock(h, cfg, Latest(n), b)
    ensures r.Failure? ==> r.error == InvalidBlock
    ensures r.Success? ==> |r.value.node.chain| == |n.chain| + 1 && Extends(r.value.node.chain, n.chain)
    ensures r.Success? ==> Latest(r.value.node) == b && r.value.node.peers == n.peers
    ensures r.Success? ==> r.value.node.saved == r.value.node.chain
    ensures r.Success? && HashConsistent(h, b) ==> FromJSON(h, r.value.broadcast) == b
    ensures r.Success? && Valid(h, n) && HashConsistent(h, b) ==> Valid(h, r.value.node)
    ensures r.Success? && ChainValid(h, cfg, n.chain) && b.index != 0 ==> ChainValid(h, cfg, r.value.node.chain)
  {
    if !ValidateBlock(h, cfg, Latest(n), b) then
      Failure(InvalidBlock)
    else
      var chain := n.chain + [b];
      assert chain[..|n.chain|] == n.chain;
      assert ChainValid(h, cfg, n.chain) && b.index != 0 ==> ChainValid(h, cfg, chain) by {
        if ChainValid(h, cfg, n.chain) && b.index != 0 {
          AppendKeepsChainValid(h, cfg, n.chain, b);
        }
      }
      Success(Appended(n.(chain := chain, saved := chain), ToWire(b)))
  }

  /** The form fields of `/addDocument`. */
  datatype DocumentForm = DocumentForm(
    documentId: Option<string>,
    title: Option<string>,
    issuer: Option<string>,
    recipient: Option<string>,
    issueDate: Option<string>)

  /** What the upload collaborators computed: the file's SHA-256 and its encrypted path. */
  datatype Upload = Upload(documentHash: string, encryptedPath: string)

  function RecordOf(form: DocumentForm, upload: Upload): Payload
  {
    Record(DocumentRecord(form.documentId, form.title, form.issuer, form.recipient, form.issueDate,
      Some(upload.documentHash), Some(upload.encryptedPath), true))
  }

  /** The block `/addDocument` assembles: next position, current time, own name, linked to the tip. */
  function NextBlock(h: Hashing, cfg: Config, n: Node, now: int, data: Payload): Block
    requires 0 < |n.chain|
  {
    NewBlock(h, |n.chain|, now, data, Latest(n).hash, cfg.nodeName)
  }

  /**
   * `/addDocument`: refused when no file was uploaded; otherwise the assembled block always
   * validates (its index is not 0, it links to the tip, its hash is its own and the node's name
   * is authorised), so it is appended.
   */
  function SubmitDocument(h: Hashing, cfg: Config, n: Node, form: DocumentForm, upload: Option<Upload>, now: int)
    : (r: Result<Appended, Error>)
    requires 0 < |n.chain|
    ensures r.Failure? <==> upload.None?
    ensures r.Failure? ==> r.error == NoFileUploaded
    ensures r.Success? ==> |r.value.node.chain| == |n.chain| + 1 && Extends(r.value.node.chain, n.chain)
    ensures r.Success? ==> var b := Latest(r.value.node);
      && b.index == |n.chain| && b.timestamp == now && b.documentData == RecordOf(form, upload.value)
      && b.previousHash == Latest(n).hash && b.validator == cfg.nodeName && HashConsistent(h, b)
    ensures r.Success? ==> r.value.node.peers == n.peers && r.value.node.saved == r.value.node.chain
    ensures r.Success? ==> FromJSON(h, r.value.broadcast) == Latest(r.value.node)
    ensures r.Success? && Valid(h, n) ==> Valid(h, r.value.node)
    ensures r.Success? && ChainValid(h, cfg, n.chain) ==> ChainValid(h, cfg, r.value.node.chain)
  {
    if upload.None? then
      Failure(NoFileUploaded)
    else
      var b := NextBlock(h, cfg, n, now, RecordOf(form, upload.value));
      assert ValidateBlock(h, cfg, Latest(n), b) by {
        OwnNameAuthorized(cfg);
      }
      AddBlock(h, cfg, n, b)
  }

  /**
   * The socket `new-block` handler: rebuilds the block (dropping the hash it came with); if it
   * validates against the tip and no block in the chain has its hash, appends and saves it;
   * otherwise changes nothing. It never re-broadcasts.
   */
  function IngestBlock(h: Hashing, cfg: Config, n: Node, w: WireBlock): (r: Node)
    requires 0 < |n.chain|
    ensures r.peers == n.peers
    ensures r.chain == n.chain || r.chain == n.chain + [FromJSON(h, w)]
    ensures r.chain != n.chain <==> ValidateBlock(h, cfg, Latest(n), FromJSON(h, w)) && !HasHash(n.chain, FromJSON(h, w).hash)
    ensures r.chain == n.chain ==> r == n
    ensures r.chain != n.chain ==> r.saved == r.chain
    ensures Valid(h, n) ==> Valid(h, r)
  {
    var b := FromJSON(h, w);
    if ValidateBlock(h, cfg, Latest(n), b) && !HasHash(n.chain, b.hash) then
      assert |n.chain + [b]| != |n.chain|;
      n.(chain := n.chain + [b], saved := n.chain + [b])
    else
      n
  }

  /** Receiving the same block twice has the effect of receiving it once. */
  lemma IngestIdempotent(h: Hashing, cfg: Config, n: Node, w: WireBlock)
    requires 0 < |n.chain|
    ensures IngestBlock(h, cfg, IngestBlock(h, cfg, n, w), w) == IngestBlock(h, cfg, n, w)
  {
  }

  /**
   * The socket `chain-response` handler: a received array (`None` when it is not one) replaces
   * the chain only when it is strictly longer and its rebuilt blocks pass full validation.
   */
  function AcceptChain(h: Hashing, cfg: Config, n: Node, msg: Option<seq<WireBlock>>): (r: Node)
    ensures r.peers == n.peers
    ensures |n.chain| <= |r.chain|
    ensures r.chain == n.chain ==> r == n
    ensures r.chain != n.chain ==> |n.chain| < |r.chain| && ChainValid(h, cfg, r.chain) && r.saved == r.chain
    ensures r.chain != n.chain ==> msg.Some? && |r.chain| == |msg.value|
    ensures r.chain != n.chain ==> forall i :: 0 <= i < |msg.value| ==> SameContent(msg.value[i], r.chain[i])
    ensures msg.Some? && |n.chain| < |msg.value| && ChainValid(h, cfg, Rebuild(h, msg.value)) ==> r.chain != n.chain
    ensures Valid(h, n) ==> Valid(h, r)
  {
    if msg.Some? then
      var received := Rebuild(h, msg.value);
      if |received| > |n.chain| && ValidateChain(h, cfg, received) then
        n.(chain := received, saved := received)
      else
        n
    else
      n
  }

  /**
   * End to end, assuming the `new-block` message reaches Y (the code itself does not carry it
   * between servers): node X submits a document; a node Y holding the same chain, whose
   * allow-list names X, and which holds no block with the new hash, ends up with exactly X's
   * new chain.
   */
  lemma BroadcastReplicates(h: Hashing, cfgX: Config, cfgY: Config, x: Node, y: Node,
                            form: DocumentForm, upload: Upload, now: int)
    requires 0 < |x.chain| && y.chain == x.chain
    requires IsAuthorized(cfgY, cfgX.nodeName)
    requires !HasHash(y.chain, NextBlock(h, cfgX, x, now, RecordOf(form, upload)).hash)
    ensures SubmitDocument(h, cfgX, x, form, Some(upload), now).Success?
    ensures var sent := SubmitDocument(h, cfgX, x, form, Some(upload), now).value;
      IngestBlock(h, cfgY, y, sent.broadcast).chain == sent.node.chain
  {
  }
}
