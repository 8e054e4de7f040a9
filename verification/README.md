# Document-attestation ledger: a Dafny model

This project models the ledger logic of a small permissioned blockchain node (`app.js`). Each
node keeps a hash-chained list of document-attestation blocks. Blocks are accepted on proof of
authority, meaning the validator named in the block must be on a fixed allow-list. A node
emits each new block as a `new-block` socket message, accepts such messages, and can replace
its chain by a longer valid one offered by a peer. The model states and proves what each
ledger operation does:

- block construction and its self-hash (`Blocks`);
- the block and chain validation rules (`Validation`, with the allow-list in `Settings`);
- the node's chain as a state machine: start-up, local append, document submission, peer
  ingestion and chain replacement (`Ledger`);
- conflict resolution over the peers' replies (`Consensus`);
- the peer registry (`Registry`);
- the first-match document lookups (`Lookup`).

SHA-256 and `JSON.stringify` are foreign library calls. They enter the model as the two
functions of a `Hashing` value, and nothing is assumed about them; in particular the digest is
not assumed to be injective. Numbers in the digest input are rendered in decimal, as the
number-to-string conversion of JavaScript's `+` does for integers up to 2^53 (`Decimal`;
larger values are under "Left out"). A `WireBlock` is a block as
JSON carries it, with a hash that is only data. A `Block` is a constructor-built instance.
Every path that receives or loads blocks rebuilds them through the constructor. The model
shows that this makes the hash check of both validators vacuous: a received hash is never
compared with anything (`Validation.RebuiltHashCheckVacuous` for one block,
`Validation.RebuiltChainHashCheckVacuous` for a whole chain).

A node is `Node(chain, saved, peers)`, and its tip (`getLatestBlock`) is `Ledger.Latest`:

- `saved` is the chain that `blockchain.json` reloads to;
- `peers` is `NETWORK_NODES`.

`Ledger.Valid` is the invariant every handler preserves: the chain is non-empty, the file
matches memory, and every block was built by the constructor. This is why the handlers may
assume a non-empty chain.

Quirks of the code that the model pins down, each as a proved lemma:

- the genesis branch of `validateBlock` ignores the tip, so a peer can push a second
  "genesis" block, and it then breaks full validation (`Validation.GenesisShapedAppendBreaksChain`);
- `index` is never checked (`Validation.IndexNeverChecked`);
- `validateChain` checks position 0 only through its hash (`Validation.ForgedGenesisAccepted`);
- the digest input is a plain concatenation, so two different blocks can share a hash under
  every digest (`Blocks.HashInputAmbiguous`).

Three behaviours of the code are worth stating on their own, and the model follows each:

- The hash is recomputed through the constructor on every load, fetch and socket receipt
  (app.js:161-169, 283-285, 425-431), so the hash a block carries in is always replaced by
  the recomputed one.
- `validateBlock` links a new block to the current tip, not to the entry at position
  `index - 1`, and never compares `index` (app.js:210-228).
- `addBlock` pushes the block before it saves (app.js:203-204), and a failed write throws
  with the block already in memory; nothing rolls the append back (app.js:245-252). Saving is
  modelled as always succeeding.

## Model

| member | source | states |
|---|---|---|
| Decimal.IntToStringRoundTrip | app.js:152-154 | the decimal rendering of `index` and `timestamp` in the digest input can be parsed back, so distinct numbers give distinct text |
| Decimal.IntToStringInjective | app.js:152-154 | two numbers rendered to the same text are equal |
| Blocks.CalculateHashIgnoresStoredHash | app.js:148-159 | `calculateHash` reads only the five content fields: replacing a block's stored hash by anything never changes the recomputed digest. What the digest input does and does not separate is stated by Blocks.SingleFieldChangeAltersHashInput and Blocks.HashInputAmbiguous |
| Blocks.NewBlock | app.js:139-146 | the constructor keeps the five content fields as given and stores the digest they recompute to |
| Blocks.FromJSON | app.js:161-169 | a block rebuilt from JSON has the JSON's content fields and a hash consistent with them, whatever hash the JSON carried |
| Blocks.Rebuild | app.js:283-285 | rebuilding a received array keeps its length; every position has the same content and a consistent hash |
| Blocks.Genesis | app.js:184-192 | the genesis block has index 0, timestamp 0, previous hash "0", validator "genesis", the fixed description text, and a consistent hash |
| Blocks.WireRoundTrip | app.js:425-431 | a broadcast block (all six fields) is rebuilt by the receiver into exactly the sender's block |
| Blocks.WireHashIgnored | app.js:425-431 | two incoming blocks that differ only in the hash they carry are rebuilt identically |
| Blocks.FromJSONKeepsWireHashIff | app.js:161-169 | rebuilding keeps a received block unchanged exactly when its hash is the digest of its content |
| Blocks.ContentDeterminesBlock | app.js:161-169 | a constructed block is the block rebuilt from its content fields |
| Blocks.SingleFieldChangeAltersHashInput | app.js:148-159 | changing exactly one of index, previous hash, timestamp, payload (when its serialisation changes) or validator changes the digest input |
| Blocks.HashInputAmbiguous | app.js:151-157 | index 1 with previous hash "1"+p and index 11 with previous hash p are different blocks with the same hash under every digest |
| Settings.AuthorizedValidators | app.js:55-62 | the allow-list has six entries, among them "genesis", with the node's own name last |
| Settings.OwnNameAuthorized | app.js:55-62 | the node's own name is on its allow-list, whatever the name is |
| Validation.ValidateBlock | app.js:210-229 | `validateBlock` itself: an accepted block always names an allow-listed validator ("genesis" is on the list) and links to "0" on the index-0 branch or to the tip otherwise, with a consistent hash on that branch. The exact rule is stated by Validation.GenesisRuleIgnoresTip, Validation.RebuiltHashCheckVacuous, Validation.IndexNeverChecked and Validation.UnauthorizedRejected |
| Validation.GenesisRuleIgnoresTip | app.js:210-216 | a block with index 0 is accepted exactly when its validator is "genesis" and its previous hash is "0", whatever the tip |
| Validation.RebuiltHashCheckVacuous | app.js:218-228 | a rebuilt non-genesis block is accepted exactly when it links to the tip and its validator is authorised, whatever hash it arrived with |
| Validation.RebuiltChainHashCheckVacuous | app.js:315-346 | a received array passes full validation once rebuilt exactly when every position from 1 on links to its rebuilt predecessor's hash and names an authorised validator, whatever hashes the array carried |
| Validation.IndexNeverChecked | app.js:210-228 | changing a rebuilt non-genesis block's index to any other non-zero value never changes the verdict |
| Validation.UnauthorizedRejected | app.js:221-228 | a non-genesis block whose validator is off the allow-list is refused, however well it links |
| Validation.FirstFault | app.js:315-346 | the scan from a position returns none exactly when every later position passes, and otherwise the first failing position |
| Validation.ValidateChain | app.js:308-348 | full validation accepts exactly the chains where every position from 1 on has a consistent hash, links to its predecessor's stored hash, and has an authorised validator |
| Validation.ShortChainsValid | app.js:315 | every chain of at most one block passes full validation |
| Validation.ForgedGenesisAccepted | app.js:315-346 | replacing the first block of a valid chain by any block carrying the same hash keeps the chain valid |
| Validation.AppendKeepsChainValid | app.js:218-228 | appending a non-genesis block accepted against the tip keeps a chain fully valid |
| Validation.GenesisShapedAppendBreaksChain | app.js:214-216 | an index-0 block accepted by the genesis branch, appended to a chain whose tip hash is not "0", makes the chain fail full validation |
| Ledger.Init | app.js:173-192 | start-up yields exactly the genesis block when nothing was loaded, and otherwise the loaded blocks rebuilt position by position; the file matches memory; the registry holds the node's own address, which the server adds on start (line 893) |
| Ledger.AddBlock | app.js:198-208 | a block that fails validation is refused with the chain unchanged; otherwise the chain grows by that block at the end and nothing before it changes; the chain is saved; the broadcast rebuilds into the block; validity is preserved |
| Ledger.SubmitDocument | app.js:539-569 | without an uploaded file the submission is refused; with one it always succeeds and appends a block at index `length`, with the current time, the assembled record, a link to the tip, the node's own name and a consistent hash; the registry is unchanged, the chain is saved, and the broadcast message rebuilds into the new block; full validity is preserved |
| Ledger.IngestBlock | app.js:422-456 | an incoming block is appended exactly when it validates against the tip and no block in the chain has its hash; otherwise the node is unchanged; nothing else changes |
| Ledger.IngestIdempotent | app.js:433-449 | receiving the same block twice has the same effect as receiving it once |
| Ledger.AcceptChain | app.js:458-475 | a received chain replaces the local one exactly when it is strictly longer and fully valid once rebuilt; the chain never shrinks and the replacement is saved |
| Ledger.BroadcastReplicates | app.js:422-452 | if the submitting node's `new-block` message is delivered, a peer with the same chain that authorises the sender and lacks the new hash ends with exactly the sender's new chain (delivery itself is assumed, see "Left out") |
| Consensus.ScanPeers | app.js:276-298 | after the loop over the replies, the state holds the longest chain offered by a non-self, reachable peer that validates, and the first such chain of that length, kept only if it beats the local length |
| Consensus.ResolveConflicts | app.js:272-306 | the chain is replaced, and true returned, exactly when some eligible peer offers a strictly longer valid chain; the new chain is the first of maximal length; otherwise the node is unchanged |
| Consensus.ResolveStable | app.js:287-293 | resolving a second time against the same replies replaces nothing |
| Consensus.AcceptChainAgreesWithResolve | app.js:458-475 | the chain-response handler decides exactly as resolution against a single non-self peer sending the same array |
| Registry.AddStrings | app.js:513-517 | the element-by-element loop adds exactly the string elements of the array |
| Registry.AddAll | app.js:365-371 | the element-by-element merge adds exactly the listed nodes |
| Registry.RegisterNode | app.js:491-508 | a missing, non-string or empty URL is refused and the registry is unchanged; any other URL is added and the reply lists the whole registry |
| Registry.SyncNodes | app.js:510-520 | a body whose `nodes` is not an array changes nothing; otherwise the registry becomes its union with the string elements |
| Registry.SocketRegister | app.js:411-420 | an absent or empty announced URL is ignored; any other is added |
| Registry.MergeRegistration | app.js:355-382 | no 2xx answer, or a truthy `nodes` that is not an array, yields false and no change; otherwise the result is true and a listed `nodes` array is merged by union |
| Registry.ApplyOnlyAdds | app.js:355-520 | each registry update keeps every known URL and adds only URLs its message carried |
| Registry.ApplyIdempotent | app.js:355-520 | replaying a registry update has no further effect |
| Registry.RegistryMonotone | app.js:355-520 | no sequence of registry updates removes a URL, and every URL it adds was carried by one of the messages |
| Registry.RegisterTwiceIsOnce | app.js:491-508 | registering A, then B, then A again adds exactly {A, B} |
| Lookup.Find | app.js:665-668 | returns none exactly when no block has a record matching the key, and otherwise the first matching position |
| Lookup.VerifyDocument | app.js:653-668 | without an uploaded file the request is refused; otherwise the answer is the first block recording the file's hash, or none when no block does |
| Lookup.VerifyDocumentById | app.js:761-773 | a falsy id (missing, empty, or a falsy non-string) is refused; a truthy non-string id, which `===` never equals to a stored id, finds nothing; a non-empty string id finds the first block whose record has that id, or none when no block does |
| Lookup.FirstMatchSurvivesAppend | app.js:665-668 | appending blocks never changes an existing first match |
| Lookup.AppendedRecordFound | app.js:770-773 | a record appended to a chain with no match is the one a later lookup finds |

## Left out

- SHA-256 and `JSON.stringify` (app.js:148-159) are foreign library calls. They are the parameters `Hashing.digest` and `Hashing.stringify`, with no properties assumed.
- AES encryption and decryption and `calculateFileHash` (app.js:101-132) are crypto and file I/O. Their results enter `/addDocument` and `/verifyDocument` as inputs (`Upload`, `uploadedHash`).
- `saveToFile` and `loadFromFile` (app.js:245-270) are file I/O. Saving is the `saved` field, set after every mutation. Loading is the `loaded` input of `Ledger.Init`, with a missing file given as an empty list. A write failure and an unparsable file are not modelled.
- `broadcastBlock` and every `io.emit` are network output. The broadcast block is returned as a value (`Appended.broadcast`). The `network-update` and `node-registered` announcements are not modelled.
- Delivery between nodes is assumed, not modelled, and this code does not provide it. `io.emit` (app.js:241) reaches only the sockets connected to the emitting server. The client socket opened towards the bootstrap node (app.js:906-916) registers no `new-block` or `chain-response` listener. `resolveConflicts` (app.js:272) has no caller. `Ledger.BroadcastReplicates` and `Consensus.ResolveConflicts` therefore state what would happen if the message or the replies arrived.
- axios requests, the bootstrap connection and the `request-chain` responder (app.js:477-479, 887-921) are network plumbing. Peer answers are input lists (`PeerReply`, `RegistrationReply`). The registry iteration order is the order of the reply list.
- `getLocalIpAddress`, the port and a random `NODE_NAME` come from the operating system or randomness. They are the fields of `Settings.Config`.
- Express routing, uploads, CORS, the HTML pages and the read-only endpoints (`/blocks`, `/documents`, `/node-info`, `/nodes`, `/ping`, `/network/nodes`) form the presentation layer and are not modelled.
- Connection tracking (`activeConnections`, `page_view`) and the browser script are UI bookkeeping with no ledger logic, and are not modelled.
- `pendingBlocks` is never used by the code, so it is not modelled.
- Interleaving between the awaits of `resolveConflicts` and concurrent appends is not modelled. Each handler is one atomic step.
- Decimal.IntToString: block `index` and `timestamp` are modelled as integers rendered in plain decimal. JavaScript numbers agree with that only up to 2^53 (`Number.MAX_SAFE_INTEGER`). Above it, `JSON.parse` rounds distinct received values to one number and `+` prints the shortest round-tripping digits padded with zeros (2^64 prints as "18446744073709552000"). A magnitude above 2^53, a number at or above 1e21 (rendered with an exponent), a fractional number, or a non-number field in received JSON is not modelled.
- Blocks.WireBlock: `previousHash` and `validator` are strings. A received block missing either field, or holding a non-string there, cannot be represented. In the code a missing `previousHash` makes the digest input start with "NaN" (`index + undefined`), and `validateChain` still accepts such a block at position 0 (app.js:315).
- Registry.SocketRegister: the registry holds strings only. A truthy non-string `nodeUrl`, which the code would add to the JavaScript set, cannot be represented. A `register-node` event without a `data` object throws on `data.nodeUrl` (app.js:412); this is not modelled.
- Registry.MergeRegistration: a `nodes` array is a list of strings. Non-string elements, which the code adds to the set unchecked (app.js:366-370), cannot be represented.
- Blocks.Payload: `documentData` is `null`, `undefined`, a string or a record of optional strings. Other JSON values cannot be represented: numbers, booleans, arrays, objects with other fields, or record fields holding `null` or non-strings. Such values would give other digest inputs in the code. JSON key order is not represented either: `JSON.stringify` follows the key order in which `JSON.parse` read a received or loaded record, while `Hashing.stringify` gives one text per record value. The model assumes the order `/addDocument` builds (app.js:550-559). A record received with its keys in another order hashes differently in the code and can make `validateChain` refuse a chain that the model accepts.
- A `new-block` message without a body throws outside the handler's `try`. This is not modelled.
