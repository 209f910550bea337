/** The record types shared by both engines, and the `StringOrF64` price decoder
    (src/json_structure.rs). Borrowed references in the Rust structs are plain values here. */
module Records {
  import opened Wrappers
  import opened Numbers

  /** One entry of a vault's event history: its GraphQL type tag and a timestamp text. */
  datatype VaultLog = VaultLog(typename: string, timestamp: string)

  datatype VaultWithLog = VaultWithLog(cdpId: Option<string>, logs: seq<VaultLog>)

  /** The history file's value for one vault id. */
  datatype Vault = Vault(vaults: seq<VaultWithLog>)

  /** A price that arrives as a JSON number or as a numeric string. */
  datatype StringOrF64 = StringOrF64(value: real)

  /** One vault's state in a snapshot; amounts are kept as the decimal texts of the file. */
  datatype SubgraphVault = SubgraphVault(
    id: string,
    collateral: string,
    debt: string,
    cdpId: Option<string>,
    updatedAt: Option<string>,
    updatedAtBlock: Option<string>,
    updatedAtTransaction: Option<string>,
    safetyLevel: string)

  /** One collateral type's state at one block. */
  datatype VaultSet = VaultSet(
    timestamp: string,
    resultArray: seq<SubgraphVault>,
    price: StringOrF64,
    rate: string,
    liquidationRatio: string)

  /** A candidate block pair: both block keys and the snapshots stored under them. The
      Rust struct borrows the snapshots; `S` is the type of what it borrows, a map from
      collateral type to `VaultSet` in both engines. */
  datatype Data<S> = Data(
    firstBlock: string,
    secondBlock: string,
    vaultsAtFirstBlock: S,
    vaultsAtSecondBlock: S)

  /** One block's snapshot: each collateral type's `VaultSet`. */
  type Snapshot = map<string, VaultSet>

  /** One vault's passage from the first to the second snapshot. `second` is not
      optional: the join only builds a transition when the second snapshot has the vault. */
  datatype VaultTransitionInner = VaultTransitionInner(
    first: SubgraphVault,
    second: SubgraphVault,
    liquidated: bool,
    liquidationTimestamp: Option<u64>)

  /** Both blocks' metadata. The prices are kept as numbers: the Rust code writes them
      with `to_string` and reads them back with `parse`, which returns the same f64. */
  datatype BlockDiffMetadata = BlockDiffMetadata(
    firstBlock: string,
    firstTimestamp: string,
    firstPrice: real,
    firstRate: string,
    firstLiquidationRatio: string,
    secondBlock: string,
    secondTimestamp: string,
    secondPrice: real,
    secondRate: string,
    secondLiquidationRatio: string)

  /** A `HashMap<&String, VaultTransitionInner>`: the entries, and the order in which
      its keys are visited (first-insertion order stands for the unspecified hash order). */
  datatype TransitionTable = TransitionTable(entries: map<string, VaultTransitionInner>, order: seq<string>)

  datatype VaultTransitionWithMetadata = VaultTransitionWithMetadata(
    meta: BlockDiffMetadata,
    vaultTransition: TransitionTable)

  /** The order lists every key exactly once. */
  predicate WellFormed(t: TransitionTable)
  {
    && (forall i, j :: 0 <= i < j < |t.order| ==> t.order[i] != t.order[j])
    && (forall k :: k in t.order ==> k in t.entries)
    && (forall k :: k in t.entries ==> k in t.order)
  }

  function EmptyTable(): TransitionTable
  {
    TransitionTable(map[], [])
  }

  lemma EmptyTableWellFormed()
    ensures WellFormed(EmptyTable()) && EmptyTable().entries == map[]
  {
  }

  /** `HashMap::insert`: a new key is added, an existing key has its value replaced. */
  function Insert(t: TransitionTable, key: string, v: VaultTransitionInner): TransitionTable
  {
    TransitionTable(t.entries[key := v], if key in t.entries then t.order else t.order + [key])
  }

  /** Inserting keeps the order listing every key once; the new key's value is `v` and
      every other key keeps its value. */
  lemma InsertWellFormed(t: TransitionTable, key: string, v: VaultTransitionInner)
    requires WellFormed(t)
    ensures var r := Insert(t, key, v);
            && WellFormed(r)
            && r.entries.Keys == t.entries.Keys + {key}
            && r.entries[key] == v
            && (forall k :: k in t.entries && k != key ==> r.entries[k] == t.entries[k])
            && |r.order| == |t.order| + (if key in t.entries then 0 else 1)
  {
  }

  // ---------------------------------------------------------------------------
  // StringOrF64: a visitor over `deserialize_any`

  /** The JSON value handed to a visitor by `deserialize_any`. serde_json passes a
      non-negative integer as `u64`, a negative integer as `i64`, any other number as `f64`. */
  datatype JsonValue =
    | JsonNull
    | JsonBool(b: bool)
    | JsonU64(u: u64)
    | JsonI64(i: int)
    | JsonF64(f: real)
    | JsonString(s: string)
    | JsonArray(items: seq<JsonValue>)
    | JsonObject(fields: seq<(string, JsonValue)>)

  datatype DecodeError =
    | InvalidType(expected: string)   // serde's default `visit_*`: "invalid type: ..., expected ..."
    | Custom(message: string)         // `E::custom(...)`

  /** What `expecting` writes into an invalid-type error. */
  const EXPECTING := "f64 or string"

  const PARSE_FAILURE := "failed to parse f64"

  function VisitF64(val: real): Result<StringOrF64, DecodeError>
  {
    Success(StringOrF64(val))
  }

  /** `val as f64`, exact over the reals. */
  function VisitU64(val: u64): Result<StringOrF64, DecodeError>
  {
    Success(StringOrF64(val as real))
  }

  function VisitStr(val: string): Result<StringOrF64, DecodeError>
  {
    match ParseReal(val)
    case Some(x) => VisitF64(x)
    case None => Failure(Custom(PARSE_FAILURE))
  }

  /** `StringOrF64::deserialize`: `deserialize_any` dispatches on the kind of value; a
      kind the visitor does not handle falls to serde's default method, which rejects it. */
  function DecodeStringOrF64(v: JsonValue): (r: Result<StringOrF64, DecodeError>)
    ensures v.JsonF64? ==> r == Success(StringOrF64(v.f))
    ensures v.JsonU64? ==> r == Success(StringOrF64(v.u as real))
    ensures v.JsonString? ==> (r.Success? <==> ParseReal(v.s).Some?)
    ensures v.JsonString? && r.Success? ==> r.value.value == ParseReal(v.s).value
    ensures v.JsonString? && r.Failure? ==> r.error == Custom("failed to parse f64")
    ensures !(v.JsonF64? || v.JsonU64? || v.JsonString?) ==> r == Failure(InvalidType("f64 or string"))
  {
    match v
    case JsonF64(f) => VisitF64(f)
    case JsonU64(u) => VisitU64(u)
    case JsonString(s) => VisitStr(s)
    case _ => Failure(InvalidType(EXPECTING))
  }

  /** `#[serde(transparent)]`: the wrapper serialises as its bare number. */
  function EncodeStringOrF64(x: StringOrF64): (v: JsonValue)
    ensures v.JsonF64?
  {
    JsonF64(x.value)
  }

  /** Decoding what was encoded gives the same price back. */
  lemma DecodeEncode(x: StringOrF64)
    ensures DecodeStringOrF64(EncodeStringOrF64(x)) == Success(x)
  {
  }

  /** A numeric string and the number it spells decode to the same price. */
  lemma DecodeStringAgreesWithNumber(s: string)
    requires ParseReal(s).Some?
    ensures DecodeStringOrF64(JsonString(s)) == DecodeStringOrF64(JsonF64(ParseReal(s).value))
  {
  }
}
