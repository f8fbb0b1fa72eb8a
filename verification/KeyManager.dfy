/** Key management of a protected file: the rotation of the session master key, and saving and
    restoring the key of the metadata node. */
module KeyManager {
  type Bytes = seq<bv8>

  datatype Option<T> = None | Some(value: T)

  const MAX_MASTER_KEY_USAGES := 65536
  const UINT32_MAX := 0xffff_ffff
  const MAX_LABEL_LEN := 64
  const EINVAL := 22
  const SGX_ERROR_FILE_NO_KEY_ID := 0x7002

  const MASTER_KEY_NAME := "SGX-PROTECTED-FS-MASTER-KEY"
  const RANDOM_KEY_NAME := "SGX-PROTECTED-FS-RANDOM-KEY"
  const METADATA_KEY_NAME := "SGX-PROTECTED-FS-METADATA-KEY"

  /** The input of the derivation function in counter mode: the counter, the label, the context
      (a node number and a nonce in a field of 32 bytes) and the output length in bits. */
  datatype KdfInput = KdfInput(index: nat, name: string, nodeNumber: nat, nonce: Bytes, outputLen: nat)

  /** A request for a sealing key of the enclave's signer with the default masks. */
  datatype SealRequest = SealRequest(cpuSvn: Bytes, isvSvn: nat, keyId: Bytes)

  /** What chance brings while a key is made: the random bytes, whether they could be had, and how
      the call that makes the key went; 0 is success. */
  datatype Chance = Chance(randomStatus: int, random: Bytes, callStatus: int)
  {
    predicate Succeeds() {
      randomStatus == 0 && callStatus == 0
    }

    function ErrorAfter(before: int): int {
      if randomStatus != 0 then randomStatus else if callStatus != 0 then callStatus else before
    }
  }

  function Zeros(n: nat): Bytes {
    seq(n, i => 0)
  }

  function NodeInput(name: string, nodeNumber: nat, nonce16: Bytes): KdfInput {
    KdfInput(1, name, nodeNumber, nonce16 + Zeros(16), 0x80)
  }

  function MetaInput(nonce32: Bytes): KdfInput {
    KdfInput(1, METADATA_KEY_NAME, 0, nonce32, 0x80)
  }

  lemma ConcatInjective(a: Bytes, b: Bytes, z: Bytes)
    requires a + z == b + z
    ensures a == b
  {
    assert |a| == |b|;
    assert a == (a + z)[..|a|] && b == (b + z)[..|b|];
  }

  /** Two node keys with the same input are for the same label, the same node and the same random bytes. */
  lemma NodeInputsDiffer(name: string, node: nat, nonce: Bytes, name': string, node': nat, nonce': Bytes)
    requires |nonce| == |nonce'| == 16
    ensures NodeInput(name, node, nonce) == NodeInput(name', node', nonce')
      <==> name == name' && node == node' && nonce == nonce'
  {
    if nonce + Zeros(16) == nonce' + Zeros(16) { ConcatInjective(nonce, nonce', Zeros(16)); }
  }

  lemma LabelsDiffer()
    ensures MASTER_KEY_NAME[..17] == RANDOM_KEY_NAME[..17] == METADATA_KEY_NAME[..17]
    ensures MASTER_KEY_NAME[17] == 'M' && MASTER_KEY_NAME[18] == 'A' && |MASTER_KEY_NAME| == 27
    ensures RANDOM_KEY_NAME[17] == 'R' && |RANDOM_KEY_NAME| == 27
    ensures METADATA_KEY_NAME[17] == 'M' && METADATA_KEY_NAME[18] == 'E' && |METADATA_KEY_NAME| == 29
  {}

  /** Master keys, node keys and metadata keys are derived from different inputs, whatever the node and
      the random bytes are, and their labels fit. */
  lemma PurposesDiffer(node: nat, node': nat, nonce: Bytes, nonce': Bytes, nonce32: Bytes)
    ensures NodeInput(MASTER_KEY_NAME, node, nonce) != NodeInput(RANDOM_KEY_NAME, node', nonce')
    ensures MetaInput(nonce32) != NodeInput(MASTER_KEY_NAME, node, nonce)
    ensures MetaInput(nonce32) != NodeInput(RANDOM_KEY_NAME, node, nonce)
    ensures |MASTER_KEY_NAME| <= MAX_LABEL_LEN && |RANDOM_KEY_NAME| <= MAX_LABEL_LEN && |METADATA_KEY_NAME| <= MAX_LABEL_LEN
  {
    LabelsDiffer();
  }

  // ------------------------------------------------------- how often a master key is used

  /** The 32-bit usage counter, and how many derivations each session master key has served;
      the last entry belongs to the key in use. */
  datatype Usage = Usage(count: nat, uses: seq<nat>)

  const FIRST_KEY := Usage(0, [0])

  function UseCurrent(uses: seq<nat>): seq<nat>
    requires uses != []
  {
    uses[|uses| - 1 := uses[|uses| - 1] + 1]
  }

  /** One call of derive_random_node_key. `rekeyed` says whether a new master key, if one is
      due, can be made. */
  function Derive(u: Usage, rekeyed: bool): Usage
    requires u.uses != []
  {
    if u.count <= MAX_MASTER_KEY_USAGES then Usage((u.count + 1) % (UINT32_MAX + 1), UseCurrent(u.uses))
    else if rekeyed then Usage(0, UseCurrent(u.uses + [0]))
    else Usage((u.count + 1) % (UINT32_MAX + 1), u.uses)
  }

  /** A sequence of calls, the last one outermost. */
  datatype Calls = Start | Then(before: Calls, rekeyed: bool)

  function After(c: Calls): (u: Usage)
    ensures u.uses != []
  {
    match c
    case Start => FIRST_KEY
    case Then(before, rekeyed) => Derive(After(before), rekeyed)
  }

  /** The first key may serve one derivation less than its successors, which serve one as soon
      as they are made. */
  function Limit(e: nat): (l: nat)
    ensures l == if e == 0 then 65537 else 65538
  {
    if e == 0 then MAX_MASTER_KEY_USAGES + 1 else MAX_MASTER_KEY_USAGES + 2
  }

  predicate WithinLimits(u: Usage) {
    forall e | 0 <= e < |u.uses| :: u.uses[e] <= Limit(e)
  }

  /** The last call wrapped the counter round: it stood at the top and no new key could be made. */
  predicate JustWrapped(c: Calls) {
    c.Then? && !c.rekeyed && After(c.before).count == UINT32_MAX
  }

  predicate CalledAfterWrap(c: Calls) {
    c.Then? && (CalledAfterWrap(c.before) || JustWrapped(c.before))
  }

  /** What the counter says about the use of the current key, until it has wrapped round. */
  predicate InStep(u: Usage) {
    u.uses != [] && u.count <= UINT32_MAX &&
    var e := |u.uses| - 1;
    if u.count <= MAX_MASTER_KEY_USAGES + 1 then u.uses[e] == u.count + (if e == 0 then 0 else 1)
    else u.uses[e] == Limit(e)
  }

  lemma DeriveKeepsStep(u: Usage, rekeyed: bool)
    requires InStep(u) && WithinLimits(u)
    ensures WithinLimits(Derive(u, rekeyed))
    ensures rekeyed || u.count != UINT32_MAX ==> InStep(Derive(u, rekeyed))
    ensures !rekeyed && u.count == UINT32_MAX ==>
      var v := Derive(u, rekeyed); v.count == 0 && v.uses[|v.uses| - 1] == Limit(|v.uses| - 1)
  {}

  lemma {:induction false} LimitsKept(c: Calls)
    requires !CalledAfterWrap(c)
    ensures WithinLimits(After(c))
    ensures if JustWrapped(c)
      then After(c).count == 0 && After(c).uses[|After(c).uses| - 1] == Limit(|After(c).uses| - 1)
      else InStep(After(c))
  {
    if c.Then? {
      LimitsKept(c.before);
      DeriveKeepsStep(After(c.before), c.rekeyed);
    }
  }

  lemma {:induction false} UsesOnlyGrow(c: Calls, e: nat)
    requires c.Then? && e < |After(c.before).uses|
    ensures e < |After(c).uses| && After(c.before).uses[e] <= After(c).uses[e]
  {}

  lemma {:induction false} LimitBroken(c: Calls)
    requires CalledAfterWrap(c)
    ensures !WithinLimits(After(c))
  {
    if CalledAfterWrap(c.before) {
      LimitBroken(c.before);
      var u := After(c.before);
      var e :| 0 <= e < |u.uses| && u.uses[e] > Limit(e);
      UsesOnlyGrow(c, e);
    } else {
      LimitsKept(c.before);
      var u := After(c.before);
      assert After(c).uses[|u.uses| - 1] == Limit(|u.uses| - 1) + 1;
    }
  }

  /** No session master key serves more derivations than its limit, over any sequence of calls
      with any failures, exactly as long as no call follows one that wrapped the counter round. */
  lemma MasterKeyLimits(c: Calls)
    ensures WithinLimits(After(c)) <==> !CalledAfterWrap(c)
  {
    if CalledAfterWrap(c) { LimitBroken(c); } else { LimitsKept(c); }
  }

  /** How many of the last calls failed to make a new master key. */
  function Failures(c: Calls): nat {
    if c.Then? && !c.rekeyed && After(c.before).count > MAX_MASTER_KEY_USAGES then 1 + Failures(c.before) else 0
  }

  lemma CountAfter(u: Usage, rekeyed: bool)
    requires u.uses != [] && u.count <= UINT32_MAX
    ensures Derive(u, rekeyed).count ==
      if u.count > MAX_MASTER_KEY_USAGES && (rekeyed || u.count == UINT32_MAX) then 0 else u.count + 1
  {}

  lemma {:induction false} CountInRange(c: Calls)
    ensures After(c).count <= UINT32_MAX
  {
    if c.Then? {
      CountInRange(c.before);
      CountAfter(After(c.before), c.rekeyed);
    }
  }

  lemma {:induction false} CountedFailures(c: Calls)
    ensures After(c).count <= MAX_MASTER_KEY_USAGES + 1 + Failures(c)
  {
    if c.Then? {
      CountedFailures(c.before);
      CountInRange(c.before);
      CountAfter(After(c.before), c.rekeyed);
    }
  }

  /** The counter only wraps round after more than four thousand million failures in a row. */
  lemma WrapTakesManyFailures(c: Calls)
    requires JustWrapped(c)
    ensures Failures(c) >= 0xffff_ffff - 65536
  {
    CountedFailures(c.before);
  }

  function Succeeding(n: nat): Calls {
    if n == 0 then Start else Then(Succeeding(n - 1), true)
  }

  /** Both limits are reached when nothing fails: the first key serves its limit, then the
      second serves one derivation per call. */
  lemma {:induction false} LimitsReached(n: nat)
    requires n <= Limit(0) + Limit(1)
    ensures After(Succeeding(n)) ==
      if n <= Limit(0) then Usage(n, [n]) else Usage(n - Limit(0) - 1, [Limit(0), n - Limit(0)])
  {
    if n > 0 {
      LimitsReached(n - 1);
      DeriveSucceeds(n - 1);
    }
  }

  lemma DeriveSucceeds(n: nat)
    requires n < Limit(0) + Limit(1)
    ensures n < Limit(0) ==> Derive(Usage(n, [n]), true) == Usage(n + 1, [n + 1])
    ensures n == Limit(0) ==> Derive(Usage(n, [n]), true) == Usage(0, [n, 1])
    ensures n > Limit(0) ==>
      var m := n - Limit(0); Derive(Usage(m - 1, [Limit(0), m]), true) == Usage(m, [Limit(0), m + 1])
  {}

  // ------------------------------------------------------- the file

  class ProtectedFile {
    // The message authentication code and the processor's key derivation are deterministic.
    const cmac: (Bytes, KdfInput) -> Bytes
    const sealKey: SealRequest -> Bytes

    var sessionMasterKey: Bytes
    var masterKeyCount: nat
    var curKey: Bytes
    var useUserKdkKey: bool
    var userKdkKey: Bytes
    var lastError: int

    // The plain part of the metadata node.
    var metaDataKeyId: Bytes
    var metaCpuSvn: Bytes
    var metaIsvSvn: nat

    // The security version numbers of the processor and the enclave, from the report.
    var reportCpuSvn: Bytes
    var reportIsvSvn: nat

    ghost var uses: seq<nat>

    ghost function Usages(): Usage
      reads this`masterKeyCount, this`uses
    {
      Usage(masterKeyCount, uses)
    }

    constructor (cmac: (Bytes, KdfInput) -> Bytes, sealKey: SealRequest -> Bytes, userKey: Option<Bytes>,
                 cpuSvn: Bytes, isvSvn: nat)
      ensures this.cmac == cmac && this.sealKey == sealKey && Usages() == FIRST_KEY
      ensures useUserKdkKey == userKey.Some?
    {
      this.cmac, this.sealKey := cmac, sealKey;
      sessionMasterKey, masterKeyCount, curKey := Zeros(16), 0, Zeros(16);
      useUserKdkKey, userKdkKey := userKey.Some?, if userKey.Some? then userKey.value else Zeros(16);
      lastError := 0;
      metaDataKeyId, metaCpuSvn, metaIsvSvn := Zeros(32), Zeros(16), 0;
      reportCpuSvn, reportIsvSvn := cpuSvn, isvSvn;
      uses := [0];
    }

    function Blob(key: Bytes, name: string, physicalNodeNumber: nat, e: Chance): Option<Bytes> {
      if |name| <= MAX_LABEL_LEN && e.Succeeds() then Some(cmac(key, NodeInput(name, physicalNodeNumber, e.random)))
      else None
    }

    method GenerateSecureBlob(key: Bytes, name: string, physicalNodeNumber: nat, e: Chance) returns (output: Option<Bytes>)
      requires |e.random| == 16
      modifies this`lastError
      ensures output == Blob(key, name, physicalNodeNumber, e)
      ensures output.Some? <==> |name| <= 64 && e.randomStatus == 0 && e.callStatus == 0
      ensures output.Some? ==>
        output.value == cmac(key, KdfInput(1, name, physicalNodeNumber, e.random + Zeros(16), 128))
      ensures lastError == if |name| > MAX_LABEL_LEN then EINVAL else e.ErrorAfter(old(lastError))
      ensures lastError ==
        if |name| > 64 then 22 else if e.randomStatus != 0 then e.randomStatus
        else if e.callStatus != 0 then e.callStatus else old(lastError)
    {
      if |name| > MAX_LABEL_LEN {
        lastError := EINVAL;
        return None;
      }
      if e.randomStatus != 0 {
        lastError := e.randomStatus;
        return None;
      }
      if e.callStatus != 0 {
        lastError := e.callStatus;
        return None;
      }
      output := Some(cmac(key, NodeInput(name, physicalNodeNumber, e.random)));
    }

    /** A new session master key, derived from the zero key. */
    method InitSessionMasterKey(e: Chance) returns (ok: bool)
      requires |e.random| == 16
      modifies this`lastError, this`sessionMasterKey, this`masterKeyCount, this`uses
      ensures ok <==> e.Succeeds()
      ensures ok ==>
        && masterKeyCount == 0 && uses == old(uses) + [0]
        && sessionMasterKey == cmac(Zeros(16), NodeInput(MASTER_KEY_NAME, 0, e.random))
      ensures !ok ==>
        masterKeyCount == old(masterKeyCount) && uses == old(uses) && sessionMasterKey == old(sessionMasterKey)
      ensures lastError == e.ErrorAfter(old(lastError))
    {
      var key := GenerateSecureBlob(Zeros(16), MASTER_KEY_NAME, 0, e);
      if key.None? {
        return false;
      }
      sessionMasterKey := key.value;
      masterKeyCount := 0;
      uses := uses + [0];
      ok := true;
    }

    /** Derives the key of a node from the session master key, after making a new master key
        when the old one has been used up; `e` is for the master key and `f` for the node's. */
    method DeriveRandomNodeKey(physicalNodeNumber: nat, e: Chance, f: Chance) returns (ok: bool)
      requires masterKeyCount <= UINT32_MAX && uses != [] && |e.random| == |f.random| == 16
      modifies this`lastError, this`sessionMasterKey, this`masterKeyCount, this`uses, this`curKey
      ensures Usages() == Derive(old(Usages()), e.Succeeds())
      ensures masterKeyCount ==
        if old(masterKeyCount) == 0xffff_ffff || (old(masterKeyCount) > 65536 && e.Succeeds()) then 0
        else old(masterKeyCount) + 1
      ensures |uses| == |old(uses)| + (if old(masterKeyCount) > 65536 && e.Succeeds() then 1 else 0)
      ensures ok <==> (old(masterKeyCount) > MAX_MASTER_KEY_USAGES ==> e.Succeeds()) && f.Succeeds()
      ensures curKey == if ok then cmac(sessionMasterKey, NodeInput(RANDOM_KEY_NAME, physicalNodeNumber, f.random)) else old(curKey)
      ensures lastError ==
        if old(masterKeyCount) > MAX_MASTER_KEY_USAGES && !e.Succeeds() then e.ErrorAfter(old(lastError))
        else f.ErrorAfter(old(lastError))
      ensures |uses| == |old(uses)| ==> sessionMasterKey == old(sessionMasterKey)
      ensures |uses| > |old(uses)| ==> sessionMasterKey == cmac(Zeros(16), NodeInput(MASTER_KEY_NAME, 0, e.random))
    {
      var usedUp := masterKeyCount > MAX_MASTER_KEY_USAGES;
      masterKeyCount := (masterKeyCount + 1) % (UINT32_MAX + 1);
      if usedUp {
        var made := InitSessionMasterKey(e);
        if !made {
          return false;
        }
      }
      uses := UseCurrent(uses);
      var key := GenerateSecureBlob(sessionMasterKey, RANDOM_KEY_NAME, physicalNodeNumber, f);
      if key.None? {
        return false;
      }
      curKey := key.value;
      ok := true;
    }

    // ------------------------------------------------------- the metadata key

    /** The key that the stored metadata stands for. */
    function MetaDataKey(): Bytes
      reads this`useUserKdkKey, this`userKdkKey, this`metaDataKeyId, this`metaCpuSvn, this`metaIsvSvn
    {
      if useUserKdkKey then cmac(userKdkKey, MetaInput(metaDataKeyId))
      else sealKey(SealRequest(metaCpuSvn, metaIsvSvn, metaDataKeyId))
    }

    method GenerateFromUserKdk(restore: bool, e: Chance) returns (ok: bool)
      requires |e.random| == 32
      modifies this`lastError, this`curKey, this`metaDataKeyId
      ensures ok <==> (restore || e.randomStatus == 0) && e.callStatus == 0
      ensures curKey ==
        if ok then cmac(userKdkKey, KdfInput(1, METADATA_KEY_NAME, 0, metaDataKeyId, 128)) else old(curKey)
      ensures metaDataKeyId == if ok && !restore then e.random else old(metaDataKeyId)
      ensures lastError ==
        if !restore && e.randomStatus != 0 then e.randomStatus
        else if e.callStatus != 0 then e.callStatus else old(lastError)
    {
      var nonce := metaDataKeyId;
      if !restore {
        if e.randomStatus != 0 {
          lastError := e.randomStatus;
          return false;
        }
        nonce := e.random;
      }
      if e.callStatus != 0 {
        lastError := e.callStatus;
        return false;
      }
      curKey := cmac(userKdkKey, MetaInput(nonce));
      if !restore {
        metaDataKeyId := nonce;
      }
      ok := true;
    }

    /** A new metadata key. What is needed to make it again is stored, unless making it failed. */
    method GenerateRandomMetaDataKey(e: Chance) returns (ok: bool)
      requires |e.random| == 32
      modifies this`lastError, this`curKey, this`metaDataKeyId, this`metaCpuSvn, this`metaIsvSvn
      ensures ok <==> e.Succeeds()
      ensures lastError == e.ErrorAfter(old(lastError))
      ensures ok ==> metaDataKeyId == e.random && curKey == MetaDataKey()
      ensures ok && useUserKdkKey ==> curKey == cmac(userKdkKey, KdfInput(1, METADATA_KEY_NAME, 0, e.random, 128))
      ensures ok && !useUserKdkKey ==> curKey == sealKey(SealRequest(reportCpuSvn, reportIsvSvn, e.random))
      ensures ok && !useUserKdkKey ==> metaCpuSvn == reportCpuSvn && metaIsvSvn == reportIsvSvn
      ensures !ok ==>
        && curKey == old(curKey) && metaDataKeyId == old(metaDataKeyId)
        && metaCpuSvn == old(metaCpuSvn) && metaIsvSvn == old(metaIsvSvn)
    {
      if useUserKdkKey {
        ok := GenerateFromUserKdk(false, e);
        return;
      }
      if e.randomStatus != 0 {
        lastError := e.randomStatus;
        return false;
      }
      var request := SealRequest(reportCpuSvn, reportIsvSvn, e.random);
      if e.callStatus != 0 {
        lastError := e.callStatus;
        return false;
      }
      curKey := sealKey(request);
      metaDataKeyId := request.keyId;
      metaCpuSvn := request.cpuSvn;
      metaIsvSvn := request.isvSvn;
      ok := true;
    }

    /** Makes the stored metadata key again, or takes an imported one. */
    method RestoreCurrentMetaDataKey(importKey: Option<Bytes>, e: Chance) returns (ok: bool)
      requires |e.random| == 32
      modifies this`lastError, this`curKey, this`metaDataKeyId
      ensures ok <==> importKey.Some? || (e.callStatus == 0 && (useUserKdkKey || metaDataKeyId != Zeros(32)))
      ensures curKey == if importKey.Some? then importKey.value else if ok then MetaDataKey() else old(curKey)
      ensures importKey.None? && ok && !useUserKdkKey ==>
        curKey == sealKey(SealRequest(metaCpuSvn, metaIsvSvn, metaDataKeyId))
      ensures lastError ==
        if importKey.Some? then old(lastError)
        else if !useUserKdkKey && metaDataKeyId == Zeros(32) then 0x7002
        else if e.callStatus != 0 then e.callStatus else old(lastError)
      ensures metaDataKeyId == old(metaDataKeyId)
    {
      if importKey.Some? {
        curKey := importKey.value;
        return true;
      }
      if useUserKdkKey {
        ok := GenerateFromUserKdk(true, e);
        return;
      }
      if metaDataKeyId == Zeros(32) {
        lastError := SGX_ERROR_FILE_NO_KEY_ID;
        return false;
      }
      var request := SealRequest(metaCpuSvn, metaIsvSvn, metaDataKeyId);
      if e.callStatus != 0 {
        lastError := e.callStatus;
        return false;
      }
      curKey := sealKey(request);
      ok := true;
    }

    /** A metadata key that was generated is restored, whatever keys were derived in between and
        whatever the report's security version numbers have become; only a sealing key whose
        random key id is zero cannot be. */
    method GenerateAndRestore(e: Chance, cpuSvn: Bytes, isvSvn: nat, otherKey: Bytes, f: Chance) returns (key: Bytes, ok: bool)
      requires |e.random| == |f.random| == 32
      modifies this`lastError, this`curKey, this`metaDataKeyId, this`metaCpuSvn, this`metaIsvSvn
      modifies this`reportCpuSvn, this`reportIsvSvn
      ensures ok ==> curKey == key
      ensures ok <==> e.Succeeds() && f.callStatus == 0 && (useUserKdkKey || e.random != Zeros(32))
      ensures ok ==> lastError == old(lastError)
    {
      ok := GenerateRandomMetaDataKey(e);
      key := curKey;
      if ok {
        reportCpuSvn, reportIsvSvn, curKey := cpuSvn, isvSvn, otherKey;
        ok := RestoreCurrentMetaDataKey(None, f);
      }
    }
  }
}
