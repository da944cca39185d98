# State-diff sync codecs and receipt normalisation

A model of two pure conversion layers of a Starknet full node's peer-to-peer
sync subsystem.

- **State-diff sync messages.** The domain records `ContractStoredValue`,
  `ContractDiff` and `StateDiffsRequest`, the tagged union
  `StateDiffsResponse` (a contract diff, or the `Fin` end-of-stream
  terminator, which is also the type's default), their wire messages, and the
  encoders and decoders between the two. Decoding is fallible; its only error
  is a missing required field, named after the field (for an unset oneof, after
  the caller's field name). Encoding is total.
- **Receipt normalisation.** The conversion from the five kinds of wire
  receipt (invoke, declare, L1 handler, deploy, deploy account) into one
  simplified `Receipt`: transaction hash, fee, eleven execution counters
  widened from 32 to 64 bits, the outbound L2-to-L1 messages, and the revert
  reason (empty means not reverted). It never fails and reads only the shared
  `common` part of each receipt.

Files: `wrappers.dfy` (Option, Result), `primitives.dfy` (field elements,
fixed-width integers, the decode error, `ProtoField`), `proto_state.dfy` and
`proto_receipt.dfy` (the wire messages), `state.dfy` (the sync messages and
their codecs), `client_types.dfy` (the simplified receipt and its
normalisation).

The codecs of the three records come from derive macros in the source. They
are written out by hand from the field shapes: a required message field is
decoded through `ProtoField` under its own name, an `#[optional]` field is
copied as an `Option`, a repeated field is decoded element by element in order
and fails as a whole on the first bad element, and a plain scalar is copied.
Fields are decoded in declaration order and the first failure wins.

The response decoder has no unknown-variant error and the receipt
normalisation has no shape-mismatch error: the matches at
crates/p2p_proto/src/state.rs:61-66 and
crates/pathfinder/src/p2p_network/client/types.rs:32-37 are exhaustive over
two and five cases and produce no other error.

## Model

| member | source | states |
|---|---|---|
| `Primitives.ProtoField` | crates/p2p_proto/src/state.rs:61 | a present wire slot gives its value; an absent one gives `MissingField` carrying the caller's field name and no value |
| `State.DefaultResponse` | crates/p2p_proto/src/state.rs:36-41 | the default response is `Fin`, never a contract diff |
| `State.EncodeStoredValue` | crates/p2p_proto/src/state.rs:9-14 | both required fields are present on the wire and carry the key and value |
| `State.DecodeStoredValue` | crates/p2p_proto/src/state.rs:9-14 | succeeds exactly when key and value are both present; a missing key is reported before a missing value, each under its own field name |
| `State.StoredValueRoundTrip` | crates/p2p_proto/src/state.rs:9-14 | decoding an encoded stored value gives it back |
| `State.EncodeValues` | crates/p2p_proto/src/state.rs:26 | the repeated field has one wire element per value, in the same order |
| `State.DecodeValues` | crates/p2p_proto/src/state.rs:26 | succeeds exactly when every element is complete, then with the same length and each element decoded in place; otherwise fails with the error of the first incomplete element |
| `State.ValuesRoundTrip` | crates/p2p_proto/src/state.rs:26 | decoding the encoded `values` sequence gives it back element for element and in order |
| `State.EncodeContractDiff` | crates/p2p_proto/src/state.rs:16-28 | the address is always present; the optional fields keep their presence and value; `values` and `domain` are carried |
| `State.DecodeContractDiff` | crates/p2p_proto/src/state.rs:16-28 | succeeds exactly when the address and every stored value are complete; optionals decode to exactly what the wire holds (absent stays absent); a missing address is reported first; otherwise the first bad stored value's error |
| `State.ContractDiffRoundTrip` | crates/p2p_proto/src/state.rs:16-28 | decoding an encoded contract diff gives it back, including address, domain, `values` in order and every optional |
| `State.ContractDiffDecodeEncode` | crates/p2p_proto/src/state.rs:16-28 | every accepted wire contract diff is the encoding of what it decodes to |
| `State.EncodeContractDiffInjective` | crates/p2p_proto/src/state.rs:19-25 | distinct contract diffs have distinct encodings |
| `State.OptionalFieldsStayDistinct` | crates/p2p_proto/src/state.rs:19-25 | for `nonce`, `class_hash` and `is_replaced`, absent and present (with any value, zero included) differ on the wire and each round-trips to itself |
| `State.EncodeRequest` | crates/p2p_proto/src/state.rs:30-34 | the iteration is always present on the wire |
| `State.DecodeRequest` | crates/p2p_proto/src/state.rs:30-34 | succeeds exactly when the iteration is present, with that iteration; otherwise `MissingField("iteration")` |
| `State.RequestRoundTrip` | crates/p2p_proto/src/state.rs:30-34 | decoding an encoded request gives it back |
| `State.Encode` | crates/p2p_proto/src/state.rs:43-53 | total; the oneof is always set; `Fin` maps to the explicit `Fin` case and a contract diff to the diff case carrying its encoding |
| `State.Decode` | crates/p2p_proto/src/state.rs:55-68 | an unset oneof fails with `MissingField(field_name)`; the `Fin` case gives `Fin`; the diff case gives the inner decode's diff or its error unchanged |
| `State.DecodeAccepts` | crates/p2p_proto/src/state.rs:55-68 | a wire response is accepted exactly when its oneof is set and, for a diff, every required field inside it is present |
| `State.RoundTrip` | crates/p2p_proto/src/state.rs:43-68 | for every response and field name, decoding its encoding gives it back |
| `State.DecodeEncode` | crates/p2p_proto/src/state.rs:43-68 | every accepted wire response is the encoding of its decoding |
| `State.DefaultEncodesAsFin` | crates/p2p_proto/src/state.rs:36-52 | the default response is sent as the explicit `Fin {}` case |
| `ClientTypes.Normalize` | crates/pathfinder/src/p2p_network/client/types.rs:23-76 | every one of the five kinds gives `Ok`, and the result is a function of `common` alone |
| `ClientTypes.FromCommon` | crates/pathfinder/src/p2p_network/client/types.rs:37-73 | hash, fee and revert reason carried unchanged; every counter keeps its value; one message per message sent, each preserved |
| `ClientTypes.FromResources` | crates/pathfinder/src/p2p_network/client/types.rs:40-58 | each of the nine builtin counters, steps and memory holes keeps its numeric value under widening |
| `ClientTypes.FromPayload` | crates/pathfinder/src/p2p_network/client/types.rs:64-68 | the payload keeps its length and each element, in order |
| `ClientTypes.FromMessage` | crates/pathfinder/src/p2p_network/client/types.rs:62-70 | from-address, to-address and the whole payload are preserved |
| `ClientTypes.FromMessages` | crates/pathfinder/src/p2p_network/client/types.rs:59-71 | same length as the messages sent (so empty gives empty) and each message preserved in place |
| `ClientTypes.MessagesInjective` | crates/pathfinder/src/p2p_network/client/types.rs:59-71 | the message mapping loses nothing: equal outputs come from equal inputs |
| `ClientTypes.FromCommonInjective` | crates/pathfinder/src/p2p_network/client/types.rs:37-73 | the projection of `common` loses nothing: equal receipts come from equal `common` parts |
| `ClientTypes.NormalizeDependsOnlyOnCommon` | crates/pathfinder/src/p2p_network/client/types.rs:32-37 | two wire receipts of any kinds normalise to equal receipts exactly when their `common` parts are equal |
| `ClientTypes.NormalizeKeepsRevertStatus` | crates/pathfinder/src/p2p_network/client/types.rs:19-20 | the result is reverted (non-empty revert error) exactly when the wire revert reason is non-empty, copied verbatim |

## Left out

- Scalar wire adapters: field elements, hashes and addresses are the same opaque values on both sides; decoding a field element from its wire bytes (which can fail on malformed bytes) is not part of this model.
- The `Iteration` type and its codec are not part of this model; an iteration is one opaque value that the request carries unchanged.
- The derive macros and `proto_field` are not part of this model; the record codecs are written by hand, and the name carried by a record's missing-field error (the missing field's own name: `address`, `iteration`, or `key` / `value` for a stored-value element) is the model's reading of the macro, not taken from its code.
- `DecodeStoredValue`, `DecodeContractDiff` and `DecodeRequest` take the caller's field name but do not use it, like the derived decoders' `field_name`; `DecodeValues` only passes it on to each element, so `values` never appears in an error.
- The wire `ReceiptCommon` is not defined in the code shown; the model's `ReceiptCommon` holds exactly the five fields the normalisation reads, so the injectivity lemmas about `common` are statements about those fields.
- The text and kind of the `std::io::Error` and `anyhow` errors; errors are a small datatype.
- The `fake::Dummy` derives, which only generate test data.
- The ordering of a state-diff stream (diffs, then one `Fin`): no code shown enforces it.
- The wire receipt fields the normalisation does not read, and the exact kind-specific fields of the L1-handler, deploy and deploy-account receipts (one opaque value each).
- `crates/rpc/src/v03.rs`, the method registration and async dispatch of the JSON query API: a routing table with no codec logic.
- Rust's move semantics (`self` and `proto` are consumed): value semantics here.
