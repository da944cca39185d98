/** The wire receipts of the sync protocol (`p2p_proto::receipt`), reduced to
    what the receipt normalisation reads: the shared `common` part of every
    kind, and one opaque field for the kinds that carry more. */
module ProtoReceipt {
  import opened Primitives

  datatype Hash = Hash(felt: Felt)

  datatype EthereumAddress = EthereumAddress(h160: H160)

  /** The per-builtin instance counters, 32 bits wide on the wire. */
  datatype BuiltinCounter = BuiltinCounter(
    output: U32,
    pedersen: U32,
    rangeCheck: U32,
    ecdsa: U32,
    bitwise: U32,
    ecOp: U32,
    keccak: U32,
    poseidon: U32,
    segmentArena: U32)

  datatype ExecutionResources = ExecutionResources(builtins: BuiltinCounter, steps: U32, memoryHoles: U32)

  datatype MessageToL1 = MessageToL1(fromAddress: Felt, payload: seq<Felt>, toAddress: EthereumAddress)

  /** The part shared by every receipt kind, limited to exactly the five
      fields the normalisation reads; any other wire field is not modelled. */
  datatype ReceiptCommon = ReceiptCommon(
    transactionHash: Hash,
    actualFee: Felt,
    messagesSent: seq<MessageToL1>,
    executionResources: ExecutionResources,
    revertReason: string)

  /** One wire receipt per transaction kind. The L1-handler, deploy and
      deploy-account kinds carry a further kind-specific field, modelled as
      one opaque `extra` value. */
  datatype Receipt =
    | Invoke(common: ReceiptCommon)
    | Declare(common: ReceiptCommon)
    | L1Handler(common: ReceiptCommon, extra: Felt)
    | Deploy(common: ReceiptCommon, extra: Felt)
    | DeployAccount(common: ReceiptCommon, extra: Felt)
}
