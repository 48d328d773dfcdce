/**
 * StarMemPoolManager.js: the in-memory pool of validation requests, keyed
 * by wallet address, and the manager that creates, verifies, hands out and
 * retires them. Each request in the pool has one armed expiry timer: the
 * validation timer while its signature is pending or invalid, the
 * verification timer once it is valid. A timer is an entry in a map from
 * address to the time (ms) it is due; its firing is an explicit method.
 */
module MemPoolManager {
  import opened Wrappers
  import opened Encoding

  /** Seconds a new request stays in the pool before its signature is verified. */
  const ValidationWindow := 5 * 60
  /** Seconds a verified request stays in the pool waiting for its star. */
  const VerificationWindow := 30 * 60

  datatype MessageSignature = Pending | Valid | Invalid

  /** A pool entry (MemPoolRequest); `requestTimeStamp` in whole seconds. */
  datatype Request = Request(
    walletAddress: string,
    requestTimeStamp: nat,
    message: string,
    validationWindow: int,
    registerStar: bool,
    messageSignature: MessageSignature)

  /**
   * The message the wallet owner has to sign: the address, a colon, the
   * request time in decimal, and ":starRegistry".
   */
  function ChallengeMessage(walletAddress: string, timeStamp: nat): (m: string)
    ensures |m| == |walletAddress| + |Decimal(timeStamp)| + 14
    ensures m[..|walletAddress|] == walletAddress && m[|walletAddress|] == ':'
    ensures m[|walletAddress| + 1..|m| - 13] == Decimal(timeStamp)
    ensures m[|m| - 13..] == ":starRegistry"
  {
    walletAddress + ":" + Decimal(timeStamp) + ":starRegistry"
  }

  /** For one address, the challenge message determines the request time. */
  lemma ChallengeMessageInjective(walletAddress: string, t1: nat, t2: nat)
    requires ChallengeMessage(walletAddress, t1) == ChallengeMessage(walletAddress, t2)
    ensures t1 == t2
  {
    var m1, m2 := ChallengeMessage(walletAddress, t1), ChallengeMessage(walletAddress, t2);
    assert Decimal(t1) == m1[|walletAddress| + 1..|m1| - 13];
    assert Decimal(t2) == m2[|walletAddress| + 1..|m2| - 13];
    DecimalInjective(t1, t2);
  }

  /** `new MemPoolRequest(walletAddress, requestWindow)` at clock `nowMs`. */
  function NewRequest(walletAddress: string, requestWindow: int, nowMs: nat): (r: Request)
    ensures r.walletAddress == walletAddress && r.requestTimeStamp == Seconds(nowMs)
    ensures r.message == ChallengeMessage(walletAddress, Seconds(nowMs))
    ensures r.validationWindow == requestWindow
    ensures !r.registerStar && r.messageSignature == Pending
  {
    var timeStamp := Seconds(nowMs);
    Request(walletAddress, timeStamp, ChallengeMessage(walletAddress, timeStamp), requestWindow, false, Pending)
  }

  /** Seconds left in a request's window at clock `nowMs`. */
  function Remaining(req: Request, nowMs: nat): int
  {
    req.validationWindow - (Seconds(nowMs) - req.requestTimeStamp)
  }

  datatype ValidationResponse = ValidationResponse(
    walletAddress: string, requestTimeStamp: nat, message: string, validationWindow: int)

  datatype Status = Status(
    address: string, requestTimeStamp: nat, message: string, validationWindow: int,
    messageSignature: MessageSignature)

  datatype StarValidationResponse = StarValidationResponse(registerStar: bool, status: Status)

  /** `new ValidationResponse(req)`: the request with the time left in its window. */
  function ValidationResponseOf(req: Request, nowMs: nat): (r: ValidationResponse)
    ensures r.walletAddress == req.walletAddress && r.requestTimeStamp == req.requestTimeStamp
    ensures r.message == req.message
    ensures r.validationWindow == Remaining(req, nowMs)
  {
    ValidationResponse(req.walletAddress, req.requestTimeStamp, req.message, Remaining(req, nowMs))
  }

  /**
   * `new StarValidationResponse(req)`: the request's flag and fields, with
   * the same time left as a ValidationResponse made at that moment.
   */
  function StarValidationResponseOf(req: Request, nowMs: nat): (r: StarValidationResponse)
    ensures r.registerStar == req.registerStar && r.status.messageSignature == req.messageSignature
    ensures var v := ValidationResponseOf(req, nowMs);
      && r.status.address == v.walletAddress && r.status.requestTimeStamp == v.requestTimeStamp
      && r.status.message == v.message && r.status.validationWindow == v.validationWindow
  {
    StarValidationResponse(req.registerStar,
      Status(req.walletAddress, req.requestTimeStamp, req.message, Remaining(req, nowMs), req.messageSignature))
  }

  /** A request answered at the moment it is made reports its whole window. */
  lemma FreshRequestRemaining(walletAddress: string, requestWindow: int, nowMs: nat)
    ensures Remaining(NewRequest(walletAddress, requestWindow, nowMs), nowMs) == requestWindow
    ensures ValidationResponseOf(NewRequest(walletAddress, requestWindow, nowMs), nowMs).validationWindow == requestWindow
  {
  }

  /** The time left never grows as the clock advances, and drops by the seconds elapsed. */
  lemma RemainingCountsDown(req: Request, nowMs: nat, laterMs: nat)
    requires nowMs <= laterMs
    ensures Remaining(req, laterMs) <= Remaining(req, nowMs)
    ensures Remaining(req, nowMs) - Remaining(req, laterMs) == Seconds(laterMs) - Seconds(nowMs)
  {
  }

  /** A timer armed at `nowMs` for `window` seconds is due in the second the window ends. */
  lemma DueSecond(nowMs: nat, window: nat)
    ensures Seconds(nowMs + window * 1000) == Seconds(nowMs) + window
  {
  }

  /** Once the timer armed for a request's window is due, no time is left in that window. */
  lemma DueMeansWindowElapsed(req: Request, dueMs: nat, nowMs: nat)
    requires Seconds(dueMs) == req.requestTimeStamp + req.validationWindow
    requires dueMs <= nowMs
    ensures Remaining(req, nowMs) <= 0
  {
    RemainingCountsDown(req, dueMs, nowMs);
  }

  /** The level-mem store behind the pool, holding requests by wallet address. */
  class MemPool {
    var entries: map<string, Request>

    constructor ()
      ensures entries == map[]
    {
      entries := map[];
    }

    /** Stores `value` under `key`; resolves with `value`. */
    method Push(key: string, value: Request) returns (r: Request)
      modifies this
      ensures entries == old(entries)[key := value]
      ensures r == value
    {
      entries := entries[key := value];
      r := value;
    }

    /** The request stored under `key`, or NotFound. */
    method Get(key: string) returns (r: Result<Request>)
      ensures r.Ok? <==> key in entries
      ensures r.Ok? ==> r.value == entries[key]
      ensures r.Err? ==> r.error == NotFound
    {
      if key in entries {
        r := Ok(entries[key]);
      } else {
        r := Err(NotFound);
      }
    }

    /** Deletes `key` (deleting an absent key succeeds); resolves with `key`. */
    method Pop(key: string) returns (r: string)
      modifies this
      ensures entries == old(entries) - {key}
      ensures r == key
    {
      entries := entries - {key};
      r := key;
    }
  }

  class StarMemPoolManager {
    const memPool: MemPool
    /** `bitcoinMessage.verify(message, address, signature)`; a throw counts as false. */
    const verify: (string, string, string) -> bool
    /** Armed validation timers (short window): address -> due time in ms. */
    var timeoutValidationRequests: map<string, nat>
    /** Armed verification timers (long window): address -> due time in ms. */
    var timeoutMessageVerificationRequests: map<string, nat>

    /**
     * Every request is stored under its own address; a request is valid
     * exactly when it may register a star; a pending or invalid request has
     * the short window and an armed validation timer, a valid one the long
     * window and an armed verification timer, each due in the second its
     * window ends; no verification timer outlives its request.
     */
    ghost predicate Consistent()
      reads this, memPool
    {
      && timeoutMessageVerificationRequests.Keys <= memPool.entries.Keys
      && forall a :: a in memPool.entries ==> EntryConsistent(a)
    }

    /** The stored request of `a` as Consistent describes it. */
    ghost predicate EntryConsistent(a: string)
      reads this, memPool
      requires a in memPool.entries
    {
      var req := memPool.entries[a];
      && req.walletAddress == a
      && (req.registerStar <==> req.messageSignature == Valid)
      && (req.messageSignature == Valid ==>
            req.validationWindow == VerificationWindow
            && a in timeoutMessageVerificationRequests && a !in timeoutValidationRequests
            && Seconds(timeoutMessageVerificationRequests[a]) == req.requestTimeStamp + req.validationWindow)
      && (req.messageSignature != Valid ==>
            req.validationWindow == ValidationWindow
            && a in timeoutValidationRequests && a !in timeoutMessageVerificationRequests
            && Seconds(timeoutValidationRequests[a]) == req.requestTimeStamp + req.validationWindow)
    }

    /** The request for `walletAddress` may register a star. */
    ghost predicate IsValidated(walletAddress: string)
      reads this, memPool
    {
      walletAddress in memPool.entries
      && memPool.entries[walletAddress].registerStar
      && memPool.entries[walletAddress].messageSignature == Valid
    }

    constructor (memPool: MemPool, verify: (string, string, string) -> bool)
      requires memPool.entries == map[]
      ensures this.memPool == memPool && this.verify == verify
      ensures timeoutValidationRequests == map[] && timeoutMessageVerificationRequests == map[]
      ensures Consistent()
    {
      this.memPool := memPool;
      this.verify := verify;
      timeoutValidationRequests := map[];
      timeoutMessageVerificationRequests := map[];
    }

    /** getMemPoolRequest: the stored request, or NotFound. */
    method GetMemPoolRequest(walletAddress: string) returns (r: Result<Request>)
      ensures r.Ok? <==> walletAddress in memPool.entries
      ensures r.Ok? ==> r.value == memPool.entries[walletAddress]
      ensures r.Err? ==> r.error == NotFound
    {
      r := memPool.Get(walletAddress);
    }

    /** removeMemPoolRequest. */
    method RemoveMemPoolRequest(walletAddress: string)
      modifies memPool
      ensures memPool.entries == old(memPool.entries) - {walletAddress}
    {
      var _ := memPool.Pop(walletAddress);
    }

    /**
     * addValidationRequest: answers from the stored request if there is one,
     * changing nothing; otherwise stores a new pending request and arms its
     * validation timer.
     */
    method AddValidationRequest(walletAddress: string, nowMs: nat) returns (r: ValidationResponse)
      requires Consistent()
      modifies this, memPool
      ensures Consistent()
      ensures walletAddress in old(memPool.entries) ==>
        && r == ValidationResponseOf(old(memPool.entries[walletAddress]), nowMs)
        && unchanged(this, memPool)
      ensures walletAddress !in old(memPool.entries) ==>
        var timeStamp := nowMs / 1000;
        && memPool.entries == old(memPool.entries)[walletAddress :=
             Request(walletAddress, timeStamp, ChallengeMessage(walletAddress, timeStamp),
                     ValidationWindow, false, Pending)]
        && timeoutValidationRequests == old(timeoutValidationRequests)[walletAddress := nowMs + ValidationWindow * 1000]
        && timeoutMessageVerificationRequests == old(timeoutMessageVerificationRequests)
        && r == ValidationResponse(walletAddress, timeStamp, memPool.entries[walletAddress].message, ValidationWindow)
    {
      var existing := GetMemPoolRequest(walletAddress);
      if existing.Ok? {
        r := ValidationResponseOf(existing.value, nowMs);
        return;
      }
      var req := NewRequest(walletAddress, ValidationWindow, nowMs);
      DueSecond(nowMs, ValidationWindow);
      var _ := memPool.Push(walletAddress, req);
      timeoutValidationRequests := timeoutValidationRequests[walletAddress := nowMs + req.validationWindow * 1000];
      forall a | a in memPool.entries && a != walletAddress ensures EntryConsistent(a) {
        assert old(EntryConsistent(a));
      }
      r := ValidationResponseOf(req, nowMs);
    }

    /**
     * verifyMessageSignature: NotFound without a request; a valid request is
     * answered as it is; otherwise the signature of the stored message is
     * checked, and the request becomes valid with a fresh long window (its
     * timers swapped) or invalid with its window still running.
     */
    method VerifyMessageSignature(walletAddress: string, messageSignature: string, nowMs: nat)
      returns (r: Result<StarValidationResponse>)
      requires Consistent()
      modifies this, memPool
      ensures Consistent()
      ensures walletAddress !in old(memPool.entries) ==> r == Err(NotFound) && unchanged(this, memPool)
      ensures walletAddress in old(memPool.entries) && old(memPool.entries[walletAddress]).messageSignature == Valid ==>
        && r == Ok(StarValidationResponseOf(old(memPool.entries[walletAddress]), nowMs))
        && unchanged(this, memPool)
      ensures walletAddress in old(memPool.entries) && old(memPool.entries[walletAddress]).messageSignature != Valid ==>
        var req := old(memPool.entries[walletAddress]);
        if verify(req.message, walletAddress, messageSignature) then
          var verified := req.(registerStar := true, messageSignature := Valid,
                               requestTimeStamp := nowMs / 1000, validationWindow := VerificationWindow);
          && memPool.entries == old(memPool.entries)[walletAddress := verified]
          && timeoutValidationRequests == old(timeoutValidationRequests) - {walletAddress}
          && timeoutMessageVerificationRequests ==
               old(timeoutMessageVerificationRequests)[walletAddress := nowMs + VerificationWindow * 1000]
          && r == Ok(StarValidationResponseOf(verified, nowMs))
          && r.value.registerStar && r.value.status.validationWindow == VerificationWindow
        else
          && memPool.entries == old(memPool.entries)[walletAddress := req.(messageSignature := Invalid)]
          && timeoutValidationRequests == old(timeoutValidationRequests)
          && timeoutMessageVerificationRequests == old(timeoutMessageVerificationRequests)
          && r == Ok(StarValidationResponseOf(req.(messageSignature := Invalid), nowMs))
          && !r.value.registerStar
    {
      var found := GetMemPoolRequest(walletAddress);
      if found.Err? {
        r := Err(found.error);
        return;
      }
      var req := found.value;
      if req.messageSignature == Valid {
        r := Ok(StarValidationResponseOf(req, nowMs));
        return;
      }
      var verified := verify(req.message, walletAddress, messageSignature);
      if verified {
        timeoutValidationRequests := timeoutValidationRequests - {walletAddress};
        req := req.(registerStar := true);
        req := req.(messageSignature := Valid);
        req := req.(requestTimeStamp := Seconds(nowMs));
        req := req.(validationWindow := VerificationWindow);
        timeoutMessageVerificationRequests :=
          timeoutMessageVerificationRequests[walletAddress := nowMs + req.validationWindow * 1000];
        DueSecond(nowMs, VerificationWindow);
      } else {
        req := req.(messageSignature := Invalid);
      }
      var _ := memPool.Push(walletAddress, req);
      forall a | a in memPool.entries && a != walletAddress ensures EntryConsistent(a) {
        assert old(EntryConsistent(a));
      }
      r := Ok(StarValidationResponseOf(req, nowMs));
    }

    /** getValidatedStarRequest: the response for a validated request, an error otherwise; changes nothing. */
    method GetValidatedStarRequest(walletAddress: string, nowMs: nat) returns (r: Result<StarValidationResponse>)
      ensures r.Ok? <==> IsValidated(walletAddress)
      ensures r.Ok? ==> r.value == StarValidationResponseOf(memPool.entries[walletAddress], nowMs)
      ensures walletAddress !in memPool.entries ==> r == Err(NotFound)
      ensures walletAddress in memPool.entries && !IsValidated(walletAddress) ==> r == Err(NotValidated)
    {
      var found := GetMemPoolRequest(walletAddress);
      if found.Err? {
        r := Err(found.error);
      } else if found.value.registerStar && found.value.messageSignature == Valid {
        r := Ok(StarValidationResponseOf(found.value, nowMs));
      } else {
        r := Err(NotValidated);
      }
    }

    /** removeValidatedStarRequest: drops the request and cancels its verification timer. */
    method RemoveValidatedStarRequest(walletAddress: string)
      requires Consistent()
      modifies this, memPool
      ensures Consistent()
      ensures memPool.entries == old(memPool.entries) - {walletAddress}
      ensures timeoutMessageVerificationRequests == old(timeoutMessageVerificationRequests) - {walletAddress}
      ensures timeoutValidationRequests == old(timeoutValidationRequests)
    {
      RemoveMemPoolRequest(walletAddress);
      timeoutMessageVerificationRequests := timeoutMessageVerificationRequests - {walletAddress};
    }

    /** The validation timer of `walletAddress` fires once due: the request, whose window has run out, and the timer go. */
    method ExpireValidationRequest(walletAddress: string, nowMs: nat)
      requires Consistent()
      requires walletAddress in timeoutValidationRequests && timeoutValidationRequests[walletAddress] <= nowMs
      modifies this, memPool
      ensures Consistent()
      ensures walletAddress in old(memPool.entries) ==> Remaining(old(memPool.entries[walletAddress]), nowMs) <= 0
      ensures memPool.entries == old(memPool.entries) - {walletAddress}
      ensures timeoutValidationRequests == old(timeoutValidationRequests) - {walletAddress}
      ensures timeoutMessageVerificationRequests == old(timeoutMessageVerificationRequests)
    {
      if walletAddress in memPool.entries {
        DueMeansWindowElapsed(memPool.entries[walletAddress], timeoutValidationRequests[walletAddress], nowMs);
      }
      RemoveMemPoolRequest(walletAddress);
      timeoutValidationRequests := timeoutValidationRequests - {walletAddress};
    }

    /** The verification timer of `walletAddress` fires once due: the request, whose window has run out, and the timer go. */
    method ExpireVerificationRequest(walletAddress: string, nowMs: nat)
      requires Consistent()
      requires walletAddress in timeoutMessageVerificationRequests && timeoutMessageVerificationRequests[walletAddress] <= nowMs
      modifies this, memPool
      ensures Consistent()
      ensures walletAddress in old(memPool.entries) ==> Remaining(old(memPool.entries[walletAddress]), nowMs) <= 0
      ensures memPool.entries == old(memPool.entries) - {walletAddress}
      ensures timeoutMessageVerificationRequests == old(timeoutMessageVerificationRequests) - {walletAddress}
      ensures timeoutValidationRequests == old(timeoutValidationRequests)
    {
      if walletAddress in memPool.entries {
        DueMeansWindowElapsed(memPool.entries[walletAddress], timeoutMessageVerificationRequests[walletAddress], nowMs);
      }
      RemoveMemPoolRequest(walletAddress);
      timeoutMessageVerificationRequests := timeoutMessageVerificationRequests - {walletAddress};
    }
  }
}
