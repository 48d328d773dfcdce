/**
 * StarRegistryServiceController.js: the data-access layer of the registry
 * chain over its LevelDB instance (height, genesis, append, the lookups by
 * height, hash and address) and the `POST /block` handler that ties the
 * chain to the mem pool: a star is appended only for a validated request,
 * which is retired afterwards.
 */
module RegistryController {
  import opened Wrappers
  import opened Encoding
  import opened StarValue
  import opened RegistryBlock
  import opened BlockStore
  import opened MemPoolManager

  const GenesisDec := "69 deg 29m 24.9s"
  const GenesisRa := "9h 56m 1.0s"
  const GenesisStory :=
    "star-registry-notary-service Udacity Project - Genesis block STAR: Found with www.google.com/sky (Fireball Galaxy)"

  /** The star the controller builds for the genesis block: `new Star(GenesisDec, GenesisRa, GenesisStory)`. */
  function GenesisStar(): Star
  {
    NewStar([Some(GenesisDec), Some(GenesisRa), Some(GenesisStory)])
  }

  /** A Star handed to StarRegistryBlock is read through its `ra`, `dec` and `story` properties. */
  function PayloadOf(s: Star): StarPayload
  {
    StarPayload(s.ra, s.dec, s.story)
  }

  /**
   * The chain invariant: heights 0 .. n-1 are stored, each block records its
   * own height and the digest of itself taken with an empty hash, genesis
   * has no predecessor and every later block names its predecessor's hash.
   */
  ghost predicate Chained(blocks: map<nat, Block>, digest: Block -> string)
  {
    && (forall k: nat :: k in blocks <==> k < |blocks|)
    && (forall k :: k in blocks ==> blocks[k].height == k && blocks[k].hash == digest(blocks[k].(hash := "")))
    && (0 in blocks ==> blocks[0].previousBlockHash == "")
    && (forall k: nat :: 0 < k < |blocks| ==> LinkedToPredecessor(blocks, k))
  }

  /** Block `k` names the hash of block `k - 1`. */
  ghost predicate LinkedToPredecessor(blocks: map<nat, Block>, k: nat)
    requires 0 < k
  {
    k in blocks && k - 1 in blocks && blocks[k].previousBlockHash == blocks[k - 1].hash
  }

  /** A digest without collisions. */
  ghost predicate Injective(digest: Block -> string)
  {
    forall x, y :: digest(x) == digest(y) ==> x == y
  }

  /** What `getBlockByHash` keeps from a scan: the last block with that hash. */
  function LastByHash(s: seq<Block>, hash: string): Option<Block>
  {
    if s == [] then None
    else if s[|s| - 1].hash == hash then Some(s[|s| - 1])
    else LastByHash(s[..|s| - 1], hash)
  }

  /** What `getBlockByAddress` collects from a scan: the blocks of that address, in scan order. */
  function ByAddress(s: seq<Block>, address: string): seq<Block>
  {
    if s == [] then []
    else ByAddress(s[..|s| - 1], address) + (if s[|s| - 1].body.address == address then [s[|s| - 1]] else [])
  }

  /** LastByHash finds nothing exactly when no block has the hash, and otherwise the last block that has it. */
  lemma {:induction false} LastByHashIsLastMatch(s: seq<Block>, hash: string)
    ensures LastByHash(s, hash).None? <==> forall i :: 0 <= i < |s| ==> s[i].hash != hash
    ensures LastByHash(s, hash).Some? ==>
      exists i :: 0 <= i < |s| && s[i] == LastByHash(s, hash).value && s[i].hash == hash
                  && forall j :: i < j < |s| ==> s[j].hash != hash
  {
    if s != [] {
      var n := |s| - 1;
      if s[n].hash == hash {
        assert s[n] == LastByHash(s, hash).value;
      } else {
        var p := s[..n];
        LastByHashIsLastMatch(p, hash);
        assert forall i :: 0 <= i < n ==> p[i] == s[i];
        if LastByHash(p, hash).Some? {
          var i :| 0 <= i < |p| && p[i] == LastByHash(p, hash).value && p[i].hash == hash
                   && forall j :: i < j < |p| ==> p[j].hash != hash;
          assert s[i] == LastByHash(s, hash).value;
        }
      }
    }
  }

  /** ByAddress holds exactly the scanned blocks of the address, and no more of them than the scan. */
  lemma {:induction false} ByAddressMembers(s: seq<Block>, address: string)
    ensures forall b :: b in ByAddress(s, address) <==> b in s && b.body.address == address
    ensures |ByAddress(s, address)| <= |s|
  {
    if s != [] {
      var n := |s| - 1;
      ByAddressMembers(s[..n], address);
      assert s == s[..n] + [s[n]];
    }
  }

  /** In a chain under a collision-free digest no two blocks share a hash. */
  lemma ChainedHashesDistinct(blocks: map<nat, Block>, digest: Block -> string, j: nat, k: nat)
    requires Chained(blocks, digest) && Injective(digest)
    requires j in blocks && k in blocks && j != k
    ensures blocks[j].hash != blocks[k].hash
  {
  }

  /** A block sealed with the next height and the last block's hash extends a chain. */
  lemma AppendChained(blocks: map<nat, Block>, digest: Block -> string, b: Block)
    requires Chained(blocks, digest) && |blocks| > 0
    requires b.height == |blocks| && b.previousBlockHash == blocks[|blocks| - 1].hash
    requires b.hash == digest(b.(hash := ""))
    ensures Chained(blocks[|blocks| := b], digest)
  {
    var n := |blocks|;
    var after := blocks[n := b];
    assert n !in blocks;
    assert |after| == n + 1;
    forall k: nat ensures k in after <==> k < |after| {
    }
    forall k: nat | 0 < k < |after| ensures LinkedToPredecessor(after, k) {
      if k < n {
        assert LinkedToPredecessor(blocks, k);
      }
    }
  }

  /** Looking up a stored block's hash finds that block. */
  lemma HashLookupFindsBlock(db: LevelDb, digest: Block -> string, k: nat)
    requires db.Valid() && Chained(db.blocks, digest) && Injective(digest)
    requires k in db.blocks
    ensures LastByHash(db.Scan(), db.blocks[k].hash) == Some(db.blocks[k])
  {
    var s, x := db.Scan(), db.blocks[k].hash;
    LastByHashIsLastMatch(s, x);
    var i :| 0 <= i < |db.keys| && db.keys[i] == k;
    assert s[i].hash == x;
    var m :| 0 <= m < |s| && s[m] == LastByHash(s, x).value && s[m].hash == x;
    if db.keys[m] != k {
      ChainedHashesDistinct(db.blocks, digest, db.keys[m], k);
    }
  }

  class StarRegistryServiceController {
    const db: LevelDb
    const manager: StarMemPoolManager
    /** `SHA256(JSON.stringify(block)).toString()`. */
    const digest: Block -> string

    ghost predicate Valid()
      reads this, db, manager, manager.memPool
    {
      db.Valid() && manager.Consistent()
    }

    /** `block.height`, `block.previousBlockHash` and then `block.hash` assigned as addBlock does. */
    function Link(block: Block, height: nat, previousBlockHash: string): (b: Block)
      ensures b.body == block.body && b.time == block.time
      ensures b.height == height && b.previousBlockHash == previousBlockHash
      ensures b.hash == digest(b.(hash := block.hash))
    {
      var linked := block.(height := height, previousBlockHash := previousBlockHash);
      linked.(hash := digest(linked))
    }

    /** The genesis block written at clock `nowMs`. */
    function GenesisBlock(nowMs: nat): (g: Block)
      ensures g.height == 0 && g.previousBlockHash == "" && g.body.address == "0"
      ensures g.hash == digest(g.(hash := ""))
      ensures g.time == nowMs / 1000
      // both positional swaps: dec and ra trade places, and the story is not kept anywhere
      ensures g.body.star == Star(GenesisRa, GenesisDec, "", "", "")
    {
      var genesis := NewBlock("0", PayloadOf(GenesisStar()), nowMs);
      genesis.(hash := digest(genesis))
    }

    /** The store once ensureGenesisBlock has run. */
    function WithGenesis(blocks: map<nat, Block>, nowMs: nat): map<nat, Block>
    {
      if |blocks| == 0 then map[0 := GenesisBlock(nowMs)] else blocks
    }

    constructor (db: LevelDb, manager: StarMemPoolManager, digest: Block -> string, nowMs: nat)
      requires db.Valid() && manager.Consistent()
      modifies db
      ensures this.db == db && this.manager == manager && this.digest == digest
      ensures Valid()
      ensures db.blocks == WithGenesis(old(db.blocks), nowMs)
      ensures old(Chained(db.blocks, digest)) ==> Chained(db.blocks, digest)
    {
      this.db := db;
      this.manager := manager;
      this.digest := digest;
      new;
      var _ := EnsureGenesisBlock(nowMs);
    }

    /** getBlockHeight: one less than the number of keys a key stream visits. */
    method GetBlockHeight() returns (h: int)
      requires db.Valid()
      ensures h == |db.blocks| - 1
    {
      h := -1;
      var i := 0;
      while i < |db.keys|
        invariant 0 <= i <= |db.keys|
        invariant h == i - 1
      {
        h := h + 1;
        i := i + 1;
      }
    }

    /** getBlock: the block stored at `height`, or NotFound. */
    method GetBlock(height: nat) returns (r: Result<Block>)
      ensures r.Ok? <==> height in db.blocks
      ensures r.Ok? ==> r.value == db.blocks[height]
      ensures r.Err? ==> r.error == NotFound
    {
      if height in db.blocks {
        r := Ok(db.blocks[height]);
      } else {
        r := Err(NotFound);
      }
    }

    /** getBlockByHash: None when no stored block has the hash, else the last one in scan order. */
    method GetBlockByHash(hash: string) returns (r: Option<Block>)
      requires db.Valid()
      ensures r == LastByHash(db.Scan(), hash)
      ensures r.None? <==> forall b :: b in db.blocks.Values ==> b.hash != hash
      ensures r.Some? ==> r.value in db.blocks.Values && r.value.hash == hash
    {
      ghost var s := db.Scan();
      r := None;
      var i := 0;
      while i < |db.keys|
        invariant 0 <= i <= |db.keys|
        invariant r == LastByHash(s[..i], hash)
      {
        var blockValue := db.blocks[db.keys[i]];
        assert s[..i + 1][..i] == s[..i];
        if blockValue.hash == hash {
          r := Some(blockValue);
        }
        i := i + 1;
      }
      assert s[..i] == s;
      LastByHashIsLastMatch(s, hash);
      if r.None? {
        forall b | b in db.blocks.Values ensures b.hash != hash {
          assert b in s;
        }
      }
    }

    /** getBlockByAddress: the stored blocks of `address`, in scan order. */
    method GetBlockByAddress(address: string) returns (blocks: seq<Block>)
      requires db.Valid()
      ensures blocks == ByAddress(db.Scan(), address)
      ensures forall b :: b in blocks <==> b in db.blocks.Values && b.body.address == address
    {
      ghost var s := db.Scan();
      blocks := [];
      var i := 0;
      while i < |db.keys|
        invariant 0 <= i <= |db.keys|
        invariant blocks == ByAddress(s[..i], address)
      {
        var blockValue := db.blocks[db.keys[i]];
        assert s[..i + 1][..i] == s[..i];
        if blockValue.body.address == address {
          blocks := blocks + [blockValue];
        }
        i := i + 1;
      }
      assert s[..i] == s;
      ByAddressMembers(s, address);
    }

    /** putBlock: stores `block` under key `height`. */
    method PutBlock(height: nat, block: Block)
      requires db.Valid()
      modifies db
      ensures db.Valid()
      ensures db.blocks == old(db.blocks)[height := block]
    {
      db.Put(height, block);
    }

    /** ensureGenesisBlock: on an empty store writes the genesis block at 0; returns the height. */
    method EnsureGenesisBlock(nowMs: nat) returns (h: int)
      requires db.Valid()
      modifies db
      ensures db.Valid()
      ensures db.blocks == WithGenesis(old(db.blocks), nowMs)
      ensures old(|db.blocks|) == 0 ==> db.blocks == map[0 := GenesisBlock(nowMs)] && h == 0
      ensures old(|db.blocks|) > 0 ==> unchanged(db) && h == |db.blocks| - 1
      ensures old(Chained(db.blocks, digest)) ==> Chained(db.blocks, digest)
    {
      h := GetBlockHeight();
      if h == -1 {
        var genesis := NewBlock("0", PayloadOf(GenesisStar()), nowMs);
        genesis := genesis.(hash := digest(genesis));
        PutBlock(0, genesis);
        h := h + 1;
        assert db.blocks == map[0 := GenesisBlock(nowMs)];
        GenesisChained(nowMs);
      }
    }

    /**
     * addBlock: after ensureGenesisBlock, links `block` to the block at the
     * current height and writes it at the next one; fails if the block at
     * the current height is missing.
     */
    method AddBlock(block: Block, nowMs: nat) returns (r: Result<Block>)
      requires db.Valid()
      modifies db
      ensures db.Valid()
      ensures var g := WithGenesis(old(db.blocks), nowMs);
              var h := |g| - 1;
              if h in g then
                && r == Ok(Link(block, h + 1, g[h].hash))
                && db.blocks == g[h + 1 := r.value]
              else
                r == Err(NotFound) && db.blocks == g
      ensures r.Err? ==> db.blocks == old(db.blocks)
      ensures old(Chained(db.blocks, digest)) && block.hash == "" ==> r.Ok? && Chained(db.blocks, digest)
    {
      ghost var chained := Chained(db.blocks, digest);
      ghost var g := WithGenesis(db.blocks, nowMs);
      var blockHeight := EnsureGenesisBlock(nowMs);
      assert db.blocks == g && blockHeight == |g| - 1;
      var latestBlock := GetBlock(blockHeight);
      if latestBlock.Err? {
        assert |old(db.blocks)| != 0;
        r := Err(latestBlock.error);
        return;
      }
      var linked := block.(height := blockHeight + 1);
      linked := linked.(previousBlockHash := latestBlock.value.hash);
      linked := linked.(hash := digest(linked));
      assert linked == Link(block, blockHeight + 1, g[blockHeight].hash);
      PutBlock(linked.height, linked);
      r := Ok(linked);
      if chained && block.hash == "" {
        AppendKeepsChain(old(db.blocks), g, block, nowMs);
      }
    }

    /** The store holding only the genesis block is a chain. */
    lemma GenesisChained(nowMs: nat)
      ensures Chained(map[0 := GenesisBlock(nowMs)], digest)
    {
      var g := map[0 := GenesisBlock(nowMs)];
      assert |g| == 1;
      forall k: nat ensures k in g <==> k < |g| {
      }
    }

    lemma AppendKeepsChain(before: map<nat, Block>, g: map<nat, Block>, block: Block, nowMs: nat)
      requires Chained(before, digest) && g == WithGenesis(before, nowMs) && block.hash == ""
      ensures Chained(g, digest) && |g| - 1 in g
      ensures Chained(g[|g| := Link(block, |g|, g[|g| - 1].hash)], digest)
    {
      if |before| == 0 {
        GenesisChained(nowMs);
      }
      var b := Link(block, |g|, g[|g| - 1].hash);
      assert b.(hash := "") == b.(hash := block.hash);
      AppendChained(g, digest, b);
    }

    /**
     * The `POST /block` handler: rejects a request with an empty field before
     * touching either store, appends a block only for a validated request and
     * then retires that request.
     */
    method PostStarBlock(walletAddress: string, star: StarPayload, nowMs: nat) returns (r: Result<Block>)
      requires Valid()
      modifies db, manager, manager.memPool
      ensures Valid()
      ensures walletAddress == "" || star.dec == "" || star.ra == "" || star.story == "" ==>
        r == Err(MissingData) && unchanged(db) && unchanged(manager, manager.memPool)
      ensures !old(manager.IsValidated(walletAddress)) ==>
        r.Err? && unchanged(db) && unchanged(manager, manager.memPool)
      ensures r.Err? ==> unchanged(manager, manager.memPool) && db.blocks == old(db.blocks)
      ensures r.Ok? ==>
        var g := WithGenesis(old(db.blocks), nowMs);
        var h := |g| - 1;
        && old(manager.IsValidated(walletAddress))
        && h in g
        && r.value == Link(NewBlock(walletAddress, star, nowMs), h + 1, g[h].hash)
        && db.blocks == g[h + 1 := r.value]
        && manager.memPool.entries == old(manager.memPool.entries) - {walletAddress}
        && manager.timeoutMessageVerificationRequests == old(manager.timeoutMessageVerificationRequests) - {walletAddress}
        && manager.timeoutValidationRequests == old(manager.timeoutValidationRequests)
      ensures walletAddress != "" && star.dec != "" && star.ra != "" && star.story != ""
              && old(manager.IsValidated(walletAddress)) && old(Chained(db.blocks, digest)) ==>
        r.Ok? && Chained(db.blocks, digest)
    {
      if walletAddress == "" || star.dec == "" || star.ra == "" || star.story == "" {
        r := Err(MissingData);
        return;
      }
      var starValidationRequest := manager.GetValidatedStarRequest(walletAddress, nowMs);
      if starValidationRequest.Err? {
        r := Err(starValidationRequest.error);
        return;
      }
      var block := NewBlock(walletAddress, star, nowMs);
      r := AddBlock(block, nowMs);
      if r.Err? {
        return;
      }
      manager.RemoveValidatedStarRequest(walletAddress);
    }
  }
}
