/** The wire messages of the state-diff sync protocol (the generated
    `proto::state` types, and `proto::common::Fin`).

    A protobuf message-typed field is an `Option` in the generated code whether
    or not the schema calls it optional; a repeated field is a sequence; the
    `state_diff_message` oneof is an `Option` over its cases. */
module ProtoState {
  import opened Wrappers
  import opened Primitives

  /** `proto::common::Address`. */
  datatype Address = Address(felt: Felt)

  /** The iteration descriptor of a sync request (range, step, direction over
      blocks). Its own codec is not part of this model: it is one opaque value. */
  datatype Iteration = Iteration(descriptor: nat)

  datatype ContractStoredValue = ContractStoredValue(key: Option<Felt>, value: Option<Felt>)

  datatype ContractDiff = ContractDiff(
    address: Option<Address>,
    nonce: Option<Felt>,
    classHash: Option<Felt>,
    isReplaced: Option<bool>,
    values: seq<ContractStoredValue>,
    domain: U32)

  datatype StateDiffsRequest = StateDiffsRequest(iteration: Option<Iteration>)

  /** `proto::common::Fin`: the empty end-of-stream marker. */
  datatype Fin = Fin

  /** The cases of the `state_diff_message` oneof. */
  datatype StateDiffMessage = ContractDiffCase(diff: ContractDiff) | FinCase(fin: Fin)

  datatype StateDiffsResponse = StateDiffsResponse(stateDiffMessage: Option<StateDiffMessage>)
}
