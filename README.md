# Star registry notary service, modelled in Dafny

This project models the core of a star-registration notary service. The
service has two parts:

- **The validation mem pool.** A wallet owner asks to validate their
  address. They get a challenge message `address:timestamp:starRegistry`,
  which they must sign within 300 seconds. A correct signature turns the
  request valid and gives it a fresh 1800-second window. An expiry timer
  removes a request whose window runs out.
- **The registry chain.** This is a hash-linked chain of star blocks in a
  LevelDB store. Blocks are keyed by height. The store creates a genesis
  block lazily. Blocks can be looked up by height, by hash and by owner
  address.

The `POST /block` handler ties the two parts together. It appends a block
only for a validated request, and then retires that request.

Modules, one per source file or component:

| file | module | models |
|---|---|---|
| `wrappers.dfy` | `Wrappers` | `Option`, `Result` and the error kinds (not found, not validated, missing data) |
| `encoding.dfy` | `Encoding` | decimal rendering, LevelDB's bytewise key order, UTF-8, lower-case hex, pairwise hex decoding |
| `star.dfy` | `StarValue` | `Star.js` |
| `registry_block.dfy` | `RegistryBlock` | `StarRegistryBlock.js` |
| `mempool_manager.dfy` | `MemPoolManager` | `StarMemPoolManager.js`: `MemPool`, the request and response records, `StarMemPoolManager` |
| `block_store.dfy` | `BlockStore` | the LevelDB instance behind the chain |
| `registry_controller.dfy` | `RegistryController` | the data-access methods of `StarRegistryServiceController.js` and its `POST /block` handler |
| `scenario.dfy` | `Scenario` | client code proved from the contracts: a full registration, a corrected signature, an expiry |

How the model represents the source:

- **Clock.** The clock is a parameter `nowMs`. Every timestamp made by
  `getTime().toString().slice(0, -3)` is the whole number of seconds
  `nowMs / 1000`.
- **Signature check.** `bitcoinMessage.verify` is the manager's function
  field `verify`. It is otherwise uninterpreted, and a throw counts as
  `false`.
- **Hash.** `SHA256(JSON.stringify(block))` is the controller's function
  field `digest`. Nothing is assumed about it except where a lemma says so.
  The lemma `HashLookupFindsBlock` assumes it has no collisions.
- **Timers.** Each timer table is a map from wallet address to the time in
  ms when its timer is due. A timer armed at clock `nowMs` for a window of
  w seconds is due at `nowMs + w * 1000`, as `setTimeout` is given. When a
  timer fires, the model calls the matching `Expire…` method with the
  clock. A timer can only fire while its entry is in the map and once its
  due time has passed. The pool invariant `Consistent` records that each
  request's timer is due in the second its window ends.
- **Stores.** Both stores keep records, not JSON text.
  - The mem pool is a map from address to request.
  - The chain store is a map from height to block. Next to it, the store
    keeps the list of stored heights in LevelDB's iteration order.

Behaviour of the code that the model keeps as written:

- **Scan order.** LevelDB stores each height under its decimal string and
  iterates the keys bytewise. Block 10 is therefore read before block 2
  (`TenBeforeTwo`). `getBlockByAddress` returns its blocks in that order,
  not in height order. `getBlockByHash` keeps the *last* matching block in
  that order, not the first.
- **Field swap in new blocks.** `StarRegistryBlock` calls
  `new Star(star.ra, star.dec, hex(story))`, but the parameters of `Star`
  are `(dec, ra, mag, cen, story)`. So in a stored block:
  - `dec` holds the request's `ra`, and `ra` holds its `dec`;
  - `mag` holds the hex story;
  - `story` is `''`.

  The controller decodes `body.star.story` for its responses, so that
  decoding always yields `''` (`StoryLandsInMag`).
- **Genesis block.** The genesis star goes through `Star` twice. The
  genesis block therefore ends up with dec `9h 56m 1.0s`, ra
  `69 deg 29m 24.9s`, and no story at all (`GenesisBlock`).
- **Return value of `ensureGenesisBlock`.** It returns the current height,
  not a block.
- **`addValidationRequest` on an existing request.** It answers from the
  stored request whatever that request's state is, including after the
  request has been validated.

## Model

| member | source | states |
|---|---|---|
| `StarValue.NewStar` | Star.js:6-12 | the field at each position 0..4 (dec, ra, mag, cen, story) is the argument passed at that position, and `''` when there is none |
| `StarValue.MissingLikeEmpty` | Star.js:8-12 | passing `undefined` at a position builds the same star as passing `''` there |
| `StarValue.UnsuppliedFieldsEmpty` | Star.js:6-12 | every field beyond the arguments supplied is `''`, and arguments past the fifth are ignored |
| `RegistryBlock.HexStory` | StarRegistryBlock.js:10 | the story becomes two lower-case hex digits per UTF-8 byte |
| `RegistryBlock.NewBlock` | StarRegistryBlock.js:8-17 | a new block has hash `''`, height 0, previous hash `''`, the given address, time in whole seconds; its star has dec = payload ra, ra = payload dec, mag = hex story, cen and story `''` |
| `RegistryBlock.StoryLandsInMag` | StarRegistryBlock.js:10 | for an ASCII story, hex2ascii of the block's `mag` gives the story back, while hex2ascii of its `story` field gives `''` |
| `Encoding.AsciiHexRoundTrip` | StarRegistryServiceController.js:321 | decoding with hex2ascii the hex of the UTF-8 bytes of an ASCII text gives back that text |
| `MemPoolManager.ChallengeMessage` | StarMemPoolManager.js:128 | the message is the address, a colon, the request time in decimal, then `:starRegistry` |
| `MemPoolManager.ChallengeMessageInjective` | StarMemPoolManager.js:125-128 | for one address, two challenge messages are equal only when their request times are |
| `MemPoolManager.NewRequest` | StarMemPoolManager.js:123-132 | a new request carries the address, the time in whole seconds, the challenge message for that time, the given window, registerStar false and a pending signature |
| `MemPoolManager.ValidationResponseOf` | StarMemPoolManager.js:165-172 | the response copies address, timestamp and message from the request and reports the seconds left in its window |
| `MemPoolManager.StarValidationResponseOf` | StarMemPoolManager.js:182-197 | the response carries the request's flag and signature state, and its status agrees field by field with a ValidationResponse made at the same moment |
| `MemPoolManager.DueMeansWindowElapsed` | StarMemPoolManager.js:251-256 | once a timer armed for a request's window is due, no time is left in that window |
| `MemPoolManager.FreshRequestRemaining` | StarMemPoolManager.js:171 | a request answered when it is made reports its whole window as remaining |
| `MemPoolManager.RemainingCountsDown` | StarMemPoolManager.js:194 | the remaining window never grows with the clock and drops by exactly the whole seconds elapsed |
| `MemPoolManager.MemPool.Push` | StarMemPoolManager.js:76-81 | the pool afterwards maps the key to the value, all else unchanged; resolves with the value |
| `MemPoolManager.MemPool.Get` | StarMemPoolManager.js:90-95 | succeeds exactly when the key is stored, with the stored value; NotFound otherwise |
| `MemPoolManager.MemPool.Pop` | StarMemPoolManager.js:104-109 | the key is no longer stored, all else unchanged (absent keys included); resolves with the key |
| `MemPoolManager.StarMemPoolManager.constructor` | StarMemPoolManager.js:211-215 | both timer tables start empty over an empty pool, which is consistent |
| `MemPoolManager.StarMemPoolManager.GetMemPoolRequest` | StarMemPoolManager.js:408-420 | the stored request when there is one, NotFound otherwise |
| `MemPoolManager.StarMemPoolManager.RemoveMemPoolRequest` | StarMemPoolManager.js:427-436 | the address's request is gone, nothing else in the pool changes |
| `MemPoolManager.StarMemPoolManager.AddValidationRequest` | StarMemPoolManager.js:233-264 | for a stored address: the response from the stored request and no change at all; otherwise a request with message `addr:ts:starRegistry`, window 300, registerStar false, pending, a validation timer due in 300 s, response window 300; keeps the pool consistent |
| `MemPoolManager.StarMemPoolManager.VerifyMessageSignature` | StarMemPoolManager.js:286-343 | NotFound and no change without a request; no change for a valid one; if the signature of the stored message verifies: validation timer removed, registerStar true, valid, timestamp now, window 1800, verification timer due in 1800 s, request stored; otherwise only the state becomes invalid, timers untouched, request stored |
| `MemPoolManager.StarMemPoolManager.GetValidatedStarRequest` | StarMemPoolManager.js:364-376 | succeeds exactly when the request has registerStar and is valid; NotFound or NotValidated otherwise; changes nothing |
| `MemPoolManager.StarMemPoolManager.RemoveValidatedStarRequest` | StarMemPoolManager.js:387-399 | deletes the request and the verification timer entry and nothing else |
| `MemPoolManager.StarMemPoolManager.ExpireValidationRequest` | StarMemPoolManager.js:251-256 | the validation timer fires only once due; it deletes the request, whose window has then run out, and its own entry, and nothing else |
| `MemPoolManager.StarMemPoolManager.ExpireVerificationRequest` | StarMemPoolManager.js:318-322 | the verification timer fires only once due; it deletes the request, whose window has then run out, and its own entry, and nothing else |
| `BlockStore.LevelDb.Scan` | StarRegistryServiceController.js:368-372 | a key stream yields one block per stored key, the block at the i-th key in iteration order, and exactly the stored blocks |
| `BlockStore.TenBeforeTwo` | StarRegistryServiceController.js:368-373 | LevelDB's scans visit block 10 before block 2 |
| `BlockStore.OrderedListUnique` | StarRegistryServiceController.js:368-373 | the scan order of the stored heights is determined by the set of stored heights |
| `BlockStore.LevelDb.Put` | StarRegistryServiceController.js:407 | the store afterwards maps the key to the block, all else unchanged, and its scan list stays in key order |
| `RegistryController.LastByHashIsLastMatch` | StarRegistryServiceController.js:364-380 | the hash lookup finds nothing exactly when no scanned block has the hash, else a block with the hash after which no scanned block has it |
| `RegistryController.ByAddressMembers` | StarRegistryServiceController.js:383-399 | the address lookup holds exactly the scanned blocks whose body address matches |
| `RegistryController.HashLookupFindsBlock` | StarRegistryServiceController.js:364-380 | in a linked chain under a collision-free digest, looking up a stored block's hash returns that block |
| `RegistryController.AppendChained` | StarRegistryServiceController.js:310-318 | a block carrying the next height, the last block's hash and the digest of itself with an empty hash extends a chain to a longer chain |
| `RegistryController.StarRegistryServiceController.GenesisChained` | StarRegistryServiceController.js:69-73 | the store holding only the genesis block at height 0 is a chain |
| `RegistryController.StarRegistryServiceController.Link` | StarRegistryServiceController.js:313-315 | the linked block keeps body and time, takes the given height and previous hash, and its hash is the digest of itself with the hash it came in with |
| `RegistryController.StarRegistryServiceController.GenesisBlock` | StarRegistryServiceController.js:69-71 | genesis has height 0, previous hash `''`, address `"0"`, hash = digest of itself with hash `''`, and star (dec `9h 56m 1.0s`, ra `69 deg 29m 24.9s`, the rest `''`) |
| `RegistryController.StarRegistryServiceController.constructor` | StarRegistryServiceController.js:47-60 | the store holds genesis afterwards when it was empty, and is unchanged otherwise |
| `RegistryController.StarRegistryServiceController.GetBlockHeight` | StarRegistryServiceController.js:335-348 | the number of stored keys minus one, so -1 on an empty store |
| `RegistryController.StarRegistryServiceController.GetBlock` | StarRegistryServiceController.js:351-361 | the block stored at the height, NotFound when the key is absent |
| `RegistryController.StarRegistryServiceController.GetBlockByHash` | StarRegistryServiceController.js:364-380 | None exactly when no stored block has the hash; otherwise a stored block with that hash, the last one in scan order |
| `RegistryController.StarRegistryServiceController.GetBlockByAddress` | StarRegistryServiceController.js:383-399 | exactly the stored blocks with that body address, in scan order |
| `RegistryController.StarRegistryServiceController.PutBlock` | StarRegistryServiceController.js:402-415 | the store afterwards maps the height to the block, all else unchanged |
| `RegistryController.StarRegistryServiceController.EnsureGenesisBlock` | StarRegistryServiceController.js:63-87 | on an empty store writes exactly the genesis block at 0 and returns 0; otherwise changes nothing and returns the height; preserves the chain invariant |
| `RegistryController.StarRegistryServiceController.AddBlock` | StarRegistryServiceController.js:306-328 | after genesis, with h the height: the block gets height h + 1 and the hash of block h, is hashed, and only key h + 1 is written; NotFound when block h is missing, with the store then unchanged; on a linked chain it always succeeds and keeps the chain linked |
| `RegistryController.StarRegistryServiceController.AppendKeepsChain` | StarRegistryServiceController.js:310-318 | appending a block linked to the last one keeps heights dense from 0, every hash sealed and every block linked to its predecessor |
| `RegistryController.StarRegistryServiceController.PostStarBlock` | StarRegistryServiceController.js:265-303 | an empty address, dec, ra or story is rejected with neither store touched; without a validated request nothing changes; any failure leaves the chain store as it was; on success the block is appended as addBlock does and then only the request and its verification timer are removed; on a linked chain a validated request always succeeds |
| `Scenario.RegistrationScenario` | StarRegistryServiceController.js:265-303 | request, sign and post on a new registry give block 1 of the address in a linked chain, after which the request is gone |

## Left out

- HTTP plumbing is not modelled: the Hapi server, route registration,
  request parsing, `boom` status codes and logging (`StarLog`, `toString`).
  The request-validation and signature handlers are therefore out too:
  their `trim` and empty checks sit in front of the manager. The
  `StarRegistryNotaryService.js` bootstrap is out as well.
- `PostStarBlock` assumes the payload, its address and its star are present
  and that dec, ra and story are strings. A missing field makes the source
  answer 400 or throw, and that path is not modelled.
- The `decodedStory` field that lookups and `addBlock` add to their
  responses is not modelled. It is set after the block is stored and is
  never persisted.
- The `hex2ascii` package is not part of this model. Its decoding is
  modelled as one character per pair of hex digits, with a trailing odd
  digit dropped.
- Cryptography is left out. `bitcoinMessage.verify` is the uninterpreted
  function field `verify`. `SHA256` of `JSON.stringify` is the
  uninterpreted function field `digest`.
- `JSON.stringify` and `JSON.parse` through both stores are taken as an
  exact round trip.
- LevelDB and level-mem internals are not modelled: promises, streams and
  storage errors. In the model `put` and `del` always succeed, and `get`
  fails only for an absent key.
- The `boom.badImplementation()` value that `ensureGenesisBlock` returns
  when storage fails is not modelled.
- The `=== 'invalid'` check in the `POST /block` handler is not modelled,
  because it can never be true.
- Real timer scheduling is not modelled. A firing may happen at any clock
  from its due time on, not exactly at it. The model also does not capture
  the race between a firing timer and a concurrent verification, or the
  unawaited `ensureGenesisBlock` call in the controller constructor racing
  with early requests. Every operation runs to completion, one at a time.
- A timer table holds one entry per address, as the source's object does.
  `RemoveValidatedStarRequest` on a request that is still pending leaves
  its validation timer scheduled. A new request for that address then
  overwrites the entry. In the source the old timer still fires, and it
  deletes the new request early. The model keeps only one entry, so it
  does not capture that second firing.
- The clock is a natural number of ms taken as `nowMs / 1000` seconds. This
  matches `slice(0, -3)` only for clocks of at least 1000 ms.
- Strings are sequences of Unicode scalar values. JavaScript strings with
  lone surrogates, which `Buffer` would turn into replacement characters,
  are not represented.
