/** The state-diff sync messages and their conversion to and from the wire.

    `ContractStoredValue`, `ContractDiff` and `StateDiffsRequest` get their
    codecs from derive macros in the source; here they are written by hand
    from the field shapes: a required message field goes through
    `ProtoField` with the field's own name, an `#[optional]` field is copied
    as an `Option`, a repeated field is converted element by element in order,
    and a plain scalar is copied. Decoding follows declaration order and stops
    at the first failing field. `StateDiffsResponse` has hand-written codecs. */
module State {
  import opened Wrappers
  import opened Primitives
  import Proto = ProtoState

  type Address = Proto.Address

  type Iteration = Proto.Iteration

  datatype ContractStoredValue = ContractStoredValue(key: Felt, value: Felt)

  /** `nonce`, `classHash` and `isReplaced` are `#[optional]`: absent is a
      state of its own, distinct from any present value. */
  datatype ContractDiff = ContractDiff(
    address: Address,
    nonce: Option<Felt>,
    classHash: Option<Felt>,
    isReplaced: Option<bool>,
    values: seq<ContractStoredValue>,
    domain: U32)

  datatype StateDiffsRequest = StateDiffsRequest(iteration: Iteration)

  /** One message of a state-diff stream: a contract diff, or the terminator. */
  datatype StateDiffsResponse = ContractDiff(diff: ContractDiff) | Fin

  /** The `#[default]` response: the terminator, never a fabricated diff. */
  function DefaultResponse(): (r: StateDiffsResponse)
    ensures r.Fin? && !r.ContractDiff?
  {
    Fin
  }

  // ---------------------------------------------------------------------------
  // ContractStoredValue

  function EncodeStoredValue(v: ContractStoredValue): (w: Proto.ContractStoredValue)
    ensures w.key == Some(v.key) && w.value == Some(v.value)
  {
    Proto.ContractStoredValue(Some(v.key), Some(v.value))
  }

  /** A wire stored value whose required fields are both present. */
  predicate StoredValueComplete(w: Proto.ContractStoredValue) {
    w.key.Some? && w.value.Some?
  }

  function DecodeStoredValue(w: Proto.ContractStoredValue, fieldName: string): (r: Result<ContractStoredValue, Error>)
    ensures r.Ok? <==> StoredValueComplete(w)
    ensures r.Ok? ==> Some(r.value.key) == w.key && Some(r.value.value) == w.value
    ensures w.key.None? ==> r == Err(MissingField("key"))
    ensures w.key.Some? && w.value.None? ==> r == Err(MissingField("value"))
  {
    var key :- ProtoField(w.key, "key");
    var value :- ProtoField(w.value, "value");
    Ok(ContractStoredValue(key, value))
  }

  lemma StoredValueRoundTrip(v: ContractStoredValue, fieldName: string)
    ensures DecodeStoredValue(EncodeStoredValue(v), fieldName) == Ok(v)
  {
  }

  // ---------------------------------------------------------------------------
  // The repeated `values` field

  function EncodeValues(vs: seq<ContractStoredValue>): (ws: seq<Proto.ContractStoredValue>)
    ensures |ws| == |vs|
    ensures forall i :: 0 <= i < |vs| ==> ws[i] == EncodeStoredValue(vs[i])
  {
    if vs == [] then [] else [EncodeStoredValue(vs[0])] + EncodeValues(vs[1..])
  }

  /** Decodes the elements in wire order; the first element that fails aborts
      the whole sequence with that element's error. */
  function DecodeValues(ws: seq<Proto.ContractStoredValue>, fieldName: string): (r: Result<seq<ContractStoredValue>, Error>)
    ensures r.Ok? <==> forall i :: 0 <= i < |ws| ==> StoredValueComplete(ws[i])
    ensures r.Ok? ==> |r.value| == |ws|
    ensures r.Ok? ==> forall i :: 0 <= i < |ws| ==> DecodeStoredValue(ws[i], fieldName) == Ok(r.value[i])
    ensures r.Err? ==> exists k :: FirstIncomplete(ws, k) && r.error == DecodeStoredValue(ws[k], fieldName).error
  {
    if ws == [] then Ok([])
    else
      var head :- DecodeStoredValue(ws[0], fieldName);
      var tail :- DecodeValues(ws[1..], fieldName);
      Ok([head] + tail)
  }

  /** `k` is the position of the first element that lacks a required field. */
  ghost predicate FirstIncomplete(ws: seq<Proto.ContractStoredValue>, k: int) {
    && 0 <= k < |ws|
    && !StoredValueComplete(ws[k])
    && forall j :: 0 <= j < k ==> StoredValueComplete(ws[j])
  }

  lemma {:induction false} ValuesRoundTrip(vs: seq<ContractStoredValue>, fieldName: string)
    ensures DecodeValues(EncodeValues(vs), fieldName) == Ok(vs)
  {
    if vs != [] {
      var ws := EncodeValues(vs);
      ValuesRoundTrip(vs[1..], fieldName);
      assert ws[1..] == EncodeValues(vs[1..]);
      StoredValueRoundTrip(vs[0], fieldName);
      assert [vs[0]] + vs[1..] == vs;
    }
  }

  // ---------------------------------------------------------------------------
  // ContractDiff

  function EncodeContractDiff(d: ContractDiff): (w: Proto.ContractDiff)
    ensures w.address == Some(d.address)
    ensures w.nonce == d.nonce && w.classHash == d.classHash && w.isReplaced == d.isReplaced
    ensures w.values == EncodeValues(d.values) && w.domain == d.domain
  {
    Proto.ContractDiff(Some(d.address), d.nonce, d.classHash, d.isReplaced, EncodeValues(d.values), d.domain)
  }

  /** A wire contract diff that carries every required field, at every depth. */
  predicate ContractDiffComplete(w: Proto.ContractDiff) {
    && w.address.Some?
    && forall i :: 0 <= i < |w.values| ==> StoredValueComplete(w.values[i])
  }

  /** Decodes the fields in declaration order. The optional fields are copied:
      an absent wire value stays absent and is never replaced by a default. */
  function DecodeContractDiff(w: Proto.ContractDiff, fieldName: string): (r: Result<ContractDiff, Error>)
    ensures r.Ok? <==> ContractDiffComplete(w)
    ensures r.Ok? ==> Some(r.value.address) == w.address && r.value.domain == w.domain
    ensures r.Ok? ==> r.value.nonce == w.nonce && r.value.classHash == w.classHash && r.value.isReplaced == w.isReplaced
    ensures r.Ok? ==> |r.value.values| == |w.values|
    ensures r.Ok? ==> forall i :: 0 <= i < |w.values| ==> EncodeStoredValue(r.value.values[i]) == w.values[i]
    ensures w.address.None? ==> r == Err(MissingField("address"))
    ensures w.address.Some? && r.Err? ==> exists k :: FirstIncomplete(w.values, k) && r.error == DecodeStoredValue(w.values[k], "values").error
  {
    var address :- ProtoField(w.address, "address");
    var values :- DecodeValues(w.values, "values");
    Ok(ContractDiff.ContractDiff(address, w.nonce, w.classHash, w.isReplaced, values, w.domain))
  }

  lemma ContractDiffRoundTrip(d: ContractDiff, fieldName: string)
    ensures DecodeContractDiff(EncodeContractDiff(d), fieldName) == Ok(d)
  {
    ValuesRoundTrip(d.values, "values");
  }

  /** Every wire contract diff the decoder accepts is the encoding of what it
      decodes to: the encoding is canonical and decoding loses nothing. */
  lemma ContractDiffDecodeEncode(w: Proto.ContractDiff, fieldName: string)
    requires DecodeContractDiff(w, fieldName).Ok?
    ensures EncodeContractDiff(DecodeContractDiff(w, fieldName).value) == w
  {
  }

  /** Encoding is injective, so diffs that differ only in whether an optional
      field is present remain distinguishable on the wire. */
  lemma EncodeContractDiffInjective(d1: ContractDiff, d2: ContractDiff)
    requires EncodeContractDiff(d1) == EncodeContractDiff(d2)
    ensures d1 == d2
  {
  }

  /** Absent and present (even zero) optional fields are distinct states on
      the wire, and each decodes back to itself. */
  lemma OptionalFieldsStayDistinct(d: ContractDiff, nonce: Felt, classHash: Felt, isReplaced: bool, fieldName: string)
    ensures var absent := d.(nonce := None, classHash := None, isReplaced := None);
            && EncodeContractDiff(absent).nonce != EncodeContractDiff(d.(nonce := Some(nonce))).nonce
            && EncodeContractDiff(absent).classHash != EncodeContractDiff(d.(classHash := Some(classHash))).classHash
            && EncodeContractDiff(absent).isReplaced != EncodeContractDiff(d.(isReplaced := Some(isReplaced))).isReplaced
            && DecodeContractDiff(EncodeContractDiff(absent), fieldName) == Ok(absent)
    ensures DecodeContractDiff(EncodeContractDiff(d.(nonce := Some(nonce))), fieldName).value.nonce == Some(nonce)
    ensures DecodeContractDiff(EncodeContractDiff(d.(classHash := Some(classHash))), fieldName).value.classHash == Some(classHash)
    ensures DecodeContractDiff(EncodeContractDiff(d.(isReplaced := Some(isReplaced))), fieldName).value.isReplaced == Some(isReplaced)
  {
    ContractDiffRoundTrip(d.(nonce := None, classHash := None, isReplaced := None), fieldName);
    ContractDiffRoundTrip(d.(nonce := Some(nonce)), fieldName);
    ContractDiffRoundTrip(d.(classHash := Some(classHash)), fieldName);
    ContractDiffRoundTrip(d.(isReplaced := Some(isReplaced)), fieldName);
  }

  // ---------------------------------------------------------------------------
  // StateDiffsRequest

  function EncodeRequest(q: StateDiffsRequest): (w: Proto.StateDiffsRequest)
    ensures w.iteration == Some(q.iteration)
  {
    Proto.StateDiffsRequest(Some(q.iteration))
  }

  function DecodeRequest(w: Proto.StateDiffsRequest, fieldName: string): (r: Result<StateDiffsRequest, Error>)
    ensures r.Ok? <==> w.iteration.Some?
    ensures r.Ok? ==> Some(r.value.iteration) == w.iteration
    ensures r.Err? ==> r.error == MissingField("iteration")
  {
    var iteration :- ProtoField(w.iteration, "iteration");
    Ok(StateDiffsRequest(iteration))
  }

  lemma RequestRoundTrip(q: StateDiffsRequest, fieldName: string)
    ensures DecodeRequest(EncodeRequest(q), fieldName) == Ok(q)
  {
  }

  // ---------------------------------------------------------------------------
  // StateDiffsResponse

  /** `to_protobuf`: total; the oneof is always set, and `Fin` has its own
      explicit wire case rather than being signalled by absence. */
  function Encode(resp: StateDiffsResponse): (w: Proto.StateDiffsResponse)
    ensures w.stateDiffMessage.Some?
    ensures resp.Fin? <==> w.stateDiffMessage.value.FinCase?
    ensures resp.ContractDiff? ==> w.stateDiffMessage.value == Proto.ContractDiffCase(EncodeContractDiff(resp.diff))
  {
    Proto.StateDiffsResponse(Some(
      match resp
      case ContractDiff(d) => Proto.ContractDiffCase(EncodeContractDiff(d))
      case Fin => Proto.FinCase(Proto.Fin)))
  }

  /** `try_from_protobuf`: an unset oneof is a missing field named by the
      caller; a `Fin` case is `Fin` whatever it carries; a contract-diff case
      is the inner decode, its error passed on unchanged. */
  function Decode(w: Proto.StateDiffsResponse, fieldName: string): (r: Result<StateDiffsResponse, Error>)
    ensures w.stateDiffMessage.None? ==> r == Err(MissingField(fieldName))
    ensures w.stateDiffMessage.Some? && w.stateDiffMessage.value.FinCase? ==> r == Ok(Fin)
    ensures w.stateDiffMessage.Some? && w.stateDiffMessage.value.ContractDiffCase? ==>
      var inner := DecodeContractDiff(w.stateDiffMessage.value.diff, fieldName);
      && (inner.Ok? ==> r == Ok(StateDiffsResponse.ContractDiff(inner.value)))
      && (inner.Err? ==> r == Err(inner.error))
  {
    var message :- ProtoField(w.stateDiffMessage, fieldName);
    match message
    case ContractDiffCase(x) =>
      var d :- DecodeContractDiff(x, fieldName);
      Ok(StateDiffsResponse.ContractDiff(d))
    case FinCase(_) => Ok(Fin)
  }

  /** The decoder accepts a wire response exactly when its oneof is set and,
      for a contract diff, every required field inside it is present. */
  lemma DecodeAccepts(w: Proto.StateDiffsResponse, fieldName: string)
    ensures Decode(w, fieldName).Ok? <==>
      && w.stateDiffMessage.Some?
      && (w.stateDiffMessage.value.ContractDiffCase? ==> ContractDiffComplete(w.stateDiffMessage.value.diff))
  {
  }

  lemma RoundTrip(resp: StateDiffsResponse, fieldName: string)
    ensures Decode(Encode(resp), fieldName) == Ok(resp)
  {
    if resp.ContractDiff? {
      ContractDiffRoundTrip(resp.diff, fieldName);
    }
  }

  /** Every accepted wire response is the encoding of its decoding. */
  lemma DecodeEncode(w: Proto.StateDiffsResponse, fieldName: string)
    requires Decode(w, fieldName).Ok?
    ensures Encode(Decode(w, fieldName).value) == w
  {
    match w.stateDiffMessage.value
    case ContractDiffCase(x) =>
      ContractDiffDecodeEncode(x, fieldName);
    case FinCase(fin) =>
      assert fin == Proto.Fin;
  }

  /** The default response goes on the wire as the explicit `Fin` case. */
  lemma DefaultEncodesAsFin()
    ensures Encode(DefaultResponse()) == Proto.StateDiffsResponse(Some(Proto.FinCase(Proto.Fin)))
  {
  }
}
