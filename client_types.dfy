/** The simplified receipt of the sync client and its conversion from a wire
    receipt: a total, lossy projection that keeps the shared `common` part of
    every receipt kind and drops the rest. */
module ClientTypes {
  import opened Wrappers
  import opened Primitives
  import Proto = ProtoReceipt

  datatype TransactionHash = TransactionHash(felt: Felt)

  datatype Fee = Fee(felt: Felt)

  datatype ContractAddress = ContractAddress(felt: Felt)

  datatype EthereumAddress = EthereumAddress(h160: H160)

  datatype L2ToL1MessagePayloadElem = L2ToL1MessagePayloadElem(felt: Felt)

  /** The per-builtin instance counters, 64 bits wide in process. */
  datatype BuiltinCounters = BuiltinCounters(
    outputBuiltin: U64,
    pedersenBuiltin: U64,
    rangeCheckBuiltin: U64,
    ecdsaBuiltin: U64,
    bitwiseBuiltin: U64,
    ecOpBuiltin: U64,
    keccakBuiltin: U64,
    poseidonBuiltin: U64,
    segmentArenaBuiltin: U64)

  datatype ExecutionResources = ExecutionResources(
    builtinInstanceCounter: BuiltinCounters,
    nSteps: U64,
    nMemoryHoles: U64)

  datatype L2ToL1Message = L2ToL1Message(
    fromAddress: ContractAddress,
    payload: seq<L2ToL1MessagePayloadElem>,
    toAddress: EthereumAddress)

  /** A receipt without events and execution status. An empty `revertError`
      means the transaction was not reverted. */
  datatype Receipt = Receipt(
    transactionHash: TransactionHash,
    actualFee: Fee,
    executionResources: ExecutionResources,
    l2ToL1Messages: seq<L2ToL1Message>,
    revertError: string)

  /** The conversion reports its failures as an error value; it has none. */
  datatype ConversionError = ConversionError(message: string)

  predicate IsReverted(r: Receipt) {
    r.revertError != ""
  }

  /** `TryFrom<p2p_proto::receipt::Receipt>`: every kind is accepted, and the
      result is made from the `common` part alone. */
  function Normalize(proto: Proto.Receipt): (r: Result<Receipt, ConversionError>)
    ensures r == Ok(FromCommon(proto.common))
  {
    match proto
    case Invoke(common) => Ok(FromCommon(common))
    case Declare(common) => Ok(FromCommon(common))
    case L1Handler(common, _) => Ok(FromCommon(common))
    case Deploy(common, _) => Ok(FromCommon(common))
    case DeployAccount(common, _) => Ok(FromCommon(common))
  }

  function FromCommon(common: Proto.ReceiptCommon): (r: Receipt)
    ensures r.transactionHash.felt == common.transactionHash.felt
    ensures r.actualFee.felt == common.actualFee
    ensures CountersPreserved(common.executionResources, r.executionResources)
    ensures |r.l2ToL1Messages| == |common.messagesSent|
    ensures forall i :: 0 <= i < |common.messagesSent| ==> MessagePreserved(common.messagesSent[i], r.l2ToL1Messages[i])
    ensures r.revertError == common.revertReason
  {
    Receipt(
      TransactionHash(common.transactionHash.felt),
      Fee(common.actualFee),
      FromResources(common.executionResources),
      FromMessages(common.messagesSent),
      common.revertReason)
  }

  /** Every counter has the same numeric value on both sides. */
  ghost predicate CountersPreserved(w: Proto.ExecutionResources, e: ExecutionResources) {
    var b, c := w.builtins, e.builtinInstanceCounter;
    && c.outputBuiltin as int == b.output as int
    && c.pedersenBuiltin as int == b.pedersen as int
    && c.rangeCheckBuiltin as int == b.rangeCheck as int
    && c.ecdsaBuiltin as int == b.ecdsa as int
    && c.bitwiseBuiltin as int == b.bitwise as int
    && c.ecOpBuiltin as int == b.ecOp as int
    && c.keccakBuiltin as int == b.keccak as int
    && c.poseidonBuiltin as int == b.poseidon as int
    && c.segmentArenaBuiltin as int == b.segmentArena as int
    && e.nSteps as int == w.steps as int
    && e.nMemoryHoles as int == w.memoryHoles as int
  }

  function FromResources(w: Proto.ExecutionResources): (e: ExecutionResources)
    ensures CountersPreserved(w, e)
  {
    var b := w.builtins;
    ExecutionResources(
      BuiltinCounters(
        Widen(b.output), Widen(b.pedersen), Widen(b.rangeCheck), Widen(b.ecdsa),
        Widen(b.bitwise), Widen(b.ecOp), Widen(b.keccak), Widen(b.poseidon),
        Widen(b.segmentArena)),
      Widen(w.steps),
      Widen(w.memoryHoles))
  }

  /** A message keeps its addresses and its payload, element for element. */
  ghost predicate MessagePreserved(w: Proto.MessageToL1, m: L2ToL1Message) {
    && m.fromAddress.felt == w.fromAddress
    && m.toAddress.h160 == w.toAddress.h160
    && |m.payload| == |w.payload|
    && forall j :: 0 <= j < |w.payload| ==> m.payload[j].felt == w.payload[j]
  }

  function FromPayload(payload: seq<Felt>): (r: seq<L2ToL1MessagePayloadElem>)
    ensures |r| == |payload|
    ensures forall j :: 0 <= j < |payload| ==> r[j].felt == payload[j]
  {
    if payload == [] then [] else [L2ToL1MessagePayloadElem(payload[0])] + FromPayload(payload[1..])
  }

  function FromMessage(w: Proto.MessageToL1): (m: L2ToL1Message)
    ensures MessagePreserved(w, m)
  {
    L2ToL1Message(ContractAddress(w.fromAddress), FromPayload(w.payload), EthereumAddress(w.toAddress.h160))
  }

  function FromMessages(ws: seq<Proto.MessageToL1>): (ms: seq<L2ToL1Message>)
    ensures |ms| == |ws|
    ensures forall i :: 0 <= i < |ws| ==> MessagePreserved(ws[i], ms[i])
  {
    if ws == [] then [] else [FromMessage(ws[0])] + FromMessages(ws[1..])
  }

  /** Nothing of `common` is lost: equal results come only from equal
      common parts. */
  lemma FromCommonInjective(a: Proto.ReceiptCommon, b: Proto.ReceiptCommon)
    requires FromCommon(a) == FromCommon(b)
    ensures a == b
  {
    MessagesInjective(a.messagesSent, b.messagesSent);
  }

  lemma MessagesInjective(a: seq<Proto.MessageToL1>, b: seq<Proto.MessageToL1>)
    requires FromMessages(a) == FromMessages(b)
    ensures a == b
  {
    assert |a| == |b|;
    forall i | 0 <= i < |a|
      ensures a[i] == b[i]
    {
      assert MessagePreserved(a[i], FromMessages(a)[i]);
      assert MessagePreserved(b[i], FromMessages(b)[i]);
      assert a[i].payload == b[i].payload;
    }
  }

  /** Two receipts normalise to the same value exactly when their `common`
      parts are equal, whatever their kinds. */
  lemma NormalizeDependsOnlyOnCommon(x: Proto.Receipt, y: Proto.Receipt)
    ensures Normalize(x) == Normalize(y) <==> x.common == y.common
  {
    if Normalize(x) == Normalize(y) {
      FromCommonInjective(x.common, y.common);
    }
  }

  /** The revert sentinel is relayed: the result is reverted exactly when the
      wire revert reason is non-empty. */
  lemma NormalizeKeepsRevertStatus(proto: Proto.Receipt)
    ensures Normalize(proto).Ok?
    ensures IsReverted(Normalize(proto).value) <==> proto.common.revertReason != ""
  {
  }
}
