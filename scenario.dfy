/**
 * Client code for the registry, proved from the contracts alone: the
 * register-a-star walk-through, and a corrected resubmission after a wrong
 * signature. The signature scheme is a stand-in that accepts exactly
 * "signed:" followed by the message.
 */
module Scenario {
  import opened Wrappers
  import opened Encoding
  import opened RegistryBlock
  import opened BlockStore
  import opened MemPoolManager
  import opened RegistryController

  /** The stand-in signature scheme: a signature is "signed:" followed by the message. */
  function StandInVerify(message: string, address: string, signature: string): bool
  {
    signature == "signed:" + message
  }

  /**
   * A new address asks for validation and signs its challenge: the request
   * is then validated, and the chain store is not touched.
   */
  method SignChallenge(manager: StarMemPoolManager, address: string, nowMs: nat)
    requires manager.Consistent() && manager.verify == StandInVerify
    requires address !in manager.memPool.entries
    modifies manager, manager.memPool
    ensures manager.Consistent() && manager.IsValidated(address)
  {
    var challenge := manager.AddValidationRequest(address, nowMs);
    assert manager.memPool.entries[address].message == challenge.message;
    var verified := manager.VerifyMessageSignature(address, "signed:" + challenge.message, nowMs);
    assert verified.Ok? && verified.value.registerStar && verified.value.status.validationWindow == VerificationWindow;
  }

  /** A registry over a new, empty store and mem pool: the store holds just the genesis block. */
  method NewRegistry(digest: Block -> string, nowMs: nat) returns (controller: StarRegistryServiceController)
    ensures fresh(controller) && fresh(controller.db) && fresh(controller.manager) && fresh(controller.manager.memPool)
    ensures controller.Valid() && controller.digest == digest && controller.manager.verify == StandInVerify
    ensures controller.manager.memPool.entries == map[]
    ensures Chained(controller.db.blocks, digest) && |controller.db.blocks| == 1
  {
    var db := new LevelDb();
    var pool := new MemPool();
    var manager := new StarMemPoolManager(pool, StandInVerify);
    controller := new StarRegistryServiceController(db, manager, digest, nowMs);
    controller.GenesisChained(nowMs);
  }

  /**
   * addr1 asks for validation, signs the challenge and registers a star: the
   * chain grows to height 1 with the star's block as block 1 of a linked
   * chain, and the request is gone afterwards.
   */
  method RegistrationScenario(digest: Block -> string, nowMs: nat) returns (block: Block)
    ensures block.height == 1 && block.body.address == "addr1"
  {
    var controller := NewRegistry(digest, nowMs);
    var db, manager := controller.db, controller.manager;

    SignChallenge(manager, "addr1", nowMs);
    assert controller.Valid() && Chained(db.blocks, digest);

    var posted := controller.PostStarBlock("addr1", StarPayload("1h", "2deg", "hi"), nowMs);
    assert posted.Ok?;
    block := posted.value;
    assert Chained(db.blocks, digest) && db.blocks[1] == block;

    assert "addr1" !in manager.memPool.entries;
  }

  /**
   * A wrong signature leaves the request invalid with its short window still
   * running; a corrected one within that window makes it valid with the long
   * window.
   */
  method ResubmissionScenario(nowMs: nat, laterMs: nat)
    requires nowMs <= laterMs
  {
    var pool := new MemPool();
    var manager := new StarMemPoolManager(pool, StandInVerify);

    var challenge := manager.AddValidationRequest("addr2", nowMs);
    var wrong := manager.VerifyMessageSignature("addr2", "forged", laterMs);
    assert wrong.Ok? && !wrong.value.registerStar && wrong.value.status.messageSignature == Invalid;
    assert pool.entries["addr2"].requestTimeStamp == nowMs / 1000;
    assert "addr2" in manager.timeoutValidationRequests;

    var right := manager.VerifyMessageSignature("addr2", "signed:" + challenge.message, laterMs);
    assert right.Ok? && right.value.registerStar && right.value.status.messageSignature == Valid;
    assert "addr2" !in manager.timeoutValidationRequests && "addr2" in manager.timeoutMessageVerificationRequests;
  }

  /** Once the validation timer has fired, the signed challenge finds no request. */
  method ExpiryScenario(nowMs: nat, laterMs: nat)
    requires nowMs + ValidationWindow * 1000 <= laterMs
  {
    var pool := new MemPool();
    var manager := new StarMemPoolManager(pool, StandInVerify);

    var challenge := manager.AddValidationRequest("addr3", nowMs);
    manager.ExpireValidationRequest("addr3", laterMs);
    var late := manager.VerifyMessageSignature("addr3", "signed:" + challenge.message, laterMs);
    assert late == Err(NotFound);
  }
}
