/**
 * Ledger entries (app.js `Block`): five content fields plus a hash that the
 * constructor computes once from them.
 *
 * SHA-256 and `JSON.stringify` are not modelled; they enter as the two functions of a
 * `Hashing` value that every operation receives. Nothing is assumed about them, in
 * particular the digest is not assumed to be injective.
 */
module Blocks {
  import opened Wrappers
  import Decimal

  /** The attestation record that `/addDocument` assembles; `None` is a form field left undefined. */
  datatype DocumentRecord = DocumentRecord(
    documentId: Option<string>,
    title: Option<string>,
    issuer: Option<string>,
    recipient: Option<string>,
    issueDate: Option<string>,
    documentHash: Option<string>,
    filePath: Option<string>,
    verificationStatus: bool)

  /**
   * `documentData`: `null`, `undefined` (which `JSON.stringify` does not turn into "null"),
   * the genesis description string, or a record.
   */
  datatype Payload =
    | Null
    | Undefined
    | Text(text: string)
    | Record(record: DocumentRecord)

  /** The two foreign functions the self-hash depends on. */
  datatype Hashing = Hashing(digest: string -> string, stringify: Payload -> string)

  /** A `Block` instance: built only through `NewBlock`, so its hash is its own. */
  datatype Block = Block(
    index: int,
    timestamp: int,
    documentData: Payload,
    previousHash: string,
    validator: string,
    hash: string)

  /**
   * A block as it travels in JSON (socket message, HTTP body, file): the hash is just data.
   * Numbers are integers within JavaScript's exact range, and `previousHash` and `validator`
   * are present strings.
   */
  datatype WireBlock = WireBlock(
    index: int,
    timestamp: int,
    documentData: Payload,
    previousHash: string,
    validator: string,
    hash: string)

  const GENESIS_TEXT: string := "Genesis Block - Document Validation System"

  /** The digest input: plain concatenation in the order index, previousHash, timestamp, data, validator. */
  function HashInput(h: Hashing, index: int, previousHash: string, timestamp: int, data: Payload, validator: string): string
  {
    Decimal.IntToString(index) + previousHash + Decimal.IntToString(timestamp) + h.stringify(data) + validator
  }

  function HashInputOf(h: Hashing, b: Block): string
  {
    HashInput(h, b.index, b.previousHash, b.timestamp, b.documentData, b.validator)
  }

  /** `calculateHash()`: recomputes the digest from the stored content fields. */
  function CalculateHash(h: Hashing, b: Block): string
  {
    h.digest(HashInputOf(h, b))
  }

  /** The stored hash plays no part in its own recomputation. */
  lemma CalculateHashIgnoresStoredHash(h: Hashing, b: Block, x: string)
    ensures CalculateHash(h, b.(hash := x)) == CalculateHash(h, b)
  {
  }

  /** The stored hash is the one the content fields recompute to. */
  predicate HashConsistent(h: Hashing, b: Block)
  {
    b.hash == CalculateHash(h, b)
  }

  /** The five content fields of a wire block and a block agree. */
  predicate SameContent(w: WireBlock, b: Block)
  {
    && w.index == b.index
    && w.timestamp == b.timestamp
    && w.documentData == b.documentData
    && w.previousHash == b.previousHash
    && w.validator == b.validator
  }

  /** The `Block` constructor: keeps the content fields and derives the hash from them. */
  function NewBlock(h: Hashing, index: int, timestamp: int, data: Payload, previousHash: string, validator: string): (b: Block)
    ensures HashConsistent(h, b)
    ensures SameContent(WireBlock(index, timestamp, data, previousHash, validator, b.hash), b)
  {
    var content := Block(index, timestamp, data, previousHash, validator, "");
    content.(hash := CalculateHash(h, content))
  }

  /** `Block.fromJSON`: rebuilds through the constructor; whatever hash the JSON carried is dropped. */
  function FromJSON(h: Hashing, w: WireBlock): (b: Block)
    ensures HashConsistent(h, b)
    ensures SameContent(w, b)
  {
    NewBlock(h, w.index, w.timestamp, w.documentData, w.previousHash, w.validator)
  }

  /** The object `broadcastBlock` emits and `JSON.stringify` writes: all six fields. */
  function ToWire(b: Block): WireBlock
  {
    WireBlock(b.index, b.timestamp, b.documentData, b.previousHash, b.validator, b.hash)
  }

  /** Rebuilds every block of a received or loaded JSON array, position by position. */
  function Rebuild(h: Hashing, ws: seq<WireBlock>): (bs: seq<Block>)
    ensures |bs| == |ws|
    ensures forall i :: 0 <= i < |ws| ==> SameContent(ws[i], bs[i]) && HashConsistent(h, bs[i])
  {
    seq(|ws|, i requires 0 <= i < |ws| => FromJSON(h, ws[i]))
  }

  /** `createGenesisBlock()`. */
  function Genesis(h: Hashing): (g: Block)
    ensures g.index == 0 && g.timestamp == 0 && g.previousHash == "0" && g.validator == "genesis"
    ensures g.documentData == Text(GENESIS_TEXT)
    ensures HashConsistent(h, g)
  {
    NewBlock(h, 0, 0, Text(GENESIS_TEXT), "0", "genesis")
  }

  /** A block is determined by its content fields once its hash is consistent. */
  lemma ContentDeterminesBlock(h: Hashing, w: WireBlock, b: Block)
    requires SameContent(w, b) && HashConsistent(h, b)
    ensures b == FromJSON(h, w)
  {
  }

  /** A broadcast block is rebuilt by the receiver into exactly the sender's block. */
  lemma WireRoundTrip(h: Hashing, b: Block)
    requires HashConsistent(h, b)
    ensures FromJSON(h, ToWire(b)) == b
  {
  }

  /** The hash a wire block carries is kept only when it is the one its content recomputes to. */
  lemma FromJSONKeepsWireHashIff(h: Hashing, w: WireBlock)
    ensures FromJSON(h, w) == Block(w.index, w.timestamp, w.documentData, w.previousHash, w.validator, w.hash)
        <==> w.hash == h.digest(HashInput(h, w.index, w.previousHash, w.timestamp, w.documentData, w.validator))
  {
  }

  /** Two wire blocks that differ only in the hash they carry rebuild to the same block. */
  lemma WireHashIgnored(h: Hashing, w: WireBlock, forged: string)
    ensures FromJSON(h, w.(hash := forged)) == FromJSON(h, w)
  {
  }

  /** How many of the five content fields of two blocks differ. */
  function ChangedFields(b1: Block, b2: Block): nat
  {
    (if b1.index != b2.index then 1 else 0)
    + (if b1.timestamp != b2.timestamp then 1 else 0)
    + (if b1.documentData != b2.documentData then 1 else 0)
    + (if b1.previousHash != b2.previousHash then 1 else 0)
    + (if b1.validator != b2.validator then 1 else 0)
  }

  lemma ConcatCancel(x1: string, x2: string, y1: string, y2: string)
    requires |x1| == |x2| && x1 + y1 == x2 + y2
    ensures x1 == x2 && y1 == y2
  {
    assert x1 == (x1 + y1)[..|x1|];
    assert y1 == (x1 + y1)[|x1|..];
  }

  /**
   * Changing exactly one content field changes the digest input (for the payload, provided
   * its serialisation changes). Whether the digest then changes is up to the digest.
   */
  lemma SingleFieldChangeAltersHashInput(h: Hashing, b1: Block, b2: Block)
    requires ChangedFields(b1, b2) == 1
    requires b1.documentData != b2.documentData ==> h.stringify(b1.documentData) != h.stringify(b2.documentData)
    ensures HashInputOf(h, b1) != HashInputOf(h, b2)
  {
    var i1, i2 := Decimal.IntToString(b1.index), Decimal.IntToString(b2.index);
    var t1, t2 := Decimal.IntToString(b1.timestamp), Decimal.IntToString(b2.timestamp);
    var s1, s2 := h.stringify(b1.documentData), h.stringify(b2.documentData);
    if b1.index != b2.index {
      if i1 == i2 {
        Decimal.IntToStringInjective(b1.index, b2.index);
      }
    }
    if b1.timestamp != b2.timestamp {
      if t1 == t2 {
        Decimal.IntToStringInjective(b1.timestamp, b2.timestamp);
      }
    }
    OnePartChangeAlters(i1, b1.previousHash, t1, s1, b1.validator, i2, b2.previousHash, t2, s2, b2.validator);
  }

  /** Five-part concatenations that differ in exactly one part are different strings. */
  lemma OnePartChangeAlters(
    a1: string, b1: string, c1: string, d1: string, e1: string,
    a2: string, b2: string, c2: string, d2: string, e2: string)
    requires (if a1 != a2 then 1 else 0) + (if b1 != b2 then 1 else 0) + (if c1 != c2 then 1 else 0)
           + (if d1 != d2 then 1 else 0) + (if e1 != e2 then 1 else 0) == 1
    ensures a1 + b1 + c1 + d1 + e1 != a2 + b2 + c2 + d2 + e2
  {
    if a1 != a2 {
      MiddleChangeAlters([], a1, a2, b1 + c1 + d1 + e1);
      assert a1 + b1 + c1 + d1 + e1 == [] + a1 + (b1 + c1 + d1 + e1);
      assert a2 + b2 + c2 + d2 + e2 == [] + a2 + (b1 + c1 + d1 + e1);
    } else if b1 != b2 {
      MiddleChangeAlters(a1, b1, b2, c1 + d1 + e1);
      assert a1 + b1 + c1 + d1 + e1 == a1 + b1 + (c1 + d1 + e1);
      assert a2 + b2 + c2 + d2 + e2 == a1 + b2 + (c1 + d1 + e1);
    } else if c1 != c2 {
      MiddleChangeAlters(a1 + b1, c1, c2, d1 + e1);
      assert a1 + b1 + c1 + d1 + e1 == (a1 + b1) + c1 + (d1 + e1);
      assert a2 + b2 + c2 + d2 + e2 == (a1 + b1) + c2 + (d1 + e1);
    } else if d1 != d2 {
      MiddleChangeAlters(a1 + b1 + c1, d1, d2, e1);
    } else {
      MiddleChangeAlters(a1 + b1 + c1 + d1, e1, e2, []);
      assert a1 + b1 + c1 + d1 + e1 == (a1 + b1 + c1 + d1) + e1 + [];
      assert a2 + b2 + c2 + d2 + e2 == (a1 + b1 + c1 + d1) + e2 + [];
    }
  }

  /** Replacing the middle part of `prefix + m + suffix` by a different string changes the whole. */
  lemma MiddleChangeAlters(prefix: string, m1: string, m2: string, suffix: string)
    requires m1 != m2
    ensures prefix + m1 + suffix != prefix + m2 + suffix
  {
    if prefix + m1 + suffix == prefix + m2 + suffix {
      assert |m1| == |m2|;
      assert prefix + m1 + suffix == prefix + (m1 + suffix);
      assert prefix + m2 + suffix == prefix + (m2 + suffix);
      ConcatCancel(prefix, prefix, m1 + suffix, m2 + suffix);
      ConcatCancel(m1, m2, suffix, suffix);
    }
  }

  /**
   * The plain concatenation is ambiguous: index 1 with previous hash "1" + p and index 11
   * with previous hash p give the same digest input, so the two different blocks get the
   * same hash under every digest.
   */
  lemma HashInputAmbiguous(h: Hashing, p: string, timestamp: int, data: Payload, validator: string)
    ensures NewBlock(h, 1, timestamp, data, "1" + p, validator) != NewBlock(h, 11, timestamp, data, p, validator)
    ensures NewBlock(h, 1, timestamp, data, "1" + p, validator).hash == NewBlock(h, 11, timestamp, data, p, validator).hash
  {
    assert Decimal.IntToString(1) == "1";
    assert Decimal.IntToString(11) == Decimal.NatToString(1) + [Decimal.DigitChar(1)] == "11";
    assert HashInput(h, 1, "1" + p, timestamp, data, validator) == HashInput(h, 11, p, timestamp, data, validator);
  }
}
