/**
  The core entities of sunyata.go, and the hashes that name them.

  A hash is the term it was computed from, which is what "collision-free"
  means: two hashes are equal only when their preimages are.  The prefixes
  0x00 and 0x01 of section 2.1 of RFC 6962 and the domain strings of the
  encoders become the constructors' names.
 */
module Types {

  /** math.MaxUint64, the position of an element created and spent in one block. */
  const EPHEMERAL_LEAF_INDEX: nat := 0xFFFF_FFFF_FFFF_FFFF

  datatype Hash =
    | ZeroHash
    | LeafHash(element: Hash, index: nat, spent: bool)
    | HistoryLeafHash(chainIndex: ChainIndex)
    | NodeHash(left: Hash, right: Hash)
    | OutputHash(id: ElementID, output: Output, maturityHeight: nat)
    | TransactionHash(inputs: seq<ElementID>, outputs: seq<Output>, minerFee: nat)
    | BlockHash(nonce: nat, seconds: int, commitment: Hash)
    | CommitmentHash(state: StateImage, miner: Hash, transactions: seq<Hash>)
    | SigningHash(inputs: seq<ElementID>, outputs: seq<Output>, minerFee: nat)
    | AddressHash(key: nat)

  datatype ElementID = ElementID(source: Hash, index: nat)

  datatype ChainIndex = ChainIndex(height: nat, id: Hash)

  datatype Output = Output(value: nat, address: Hash)

  datatype StateElement = StateElement(id: ElementID, leafIndex: nat, merkleProof: seq<Hash>)

  datatype OutputElement = OutputElement(state: StateElement, output: Output, maturityHeight: nat) {
    predicate Ephemeral() {
      state.leafIndex == EPHEMERAL_LEAF_INDEX
    }
  }

  /** The roots of an accumulator; slots without a tree are ZeroHash. */
  datatype AccumulatorState = AccumulatorState(numLeaves: nat, trees: seq<Hash>)

  /** What State.EncodeTo writes: times are cut to whole seconds. */
  datatype StateImage = StateImage(index: ChainIndex, elements: AccumulatorState, history: AccumulatorState,
                                   totalWork: nat, difficulty: nat, lastAdjust: int, prevTimestamps: seq<int>)

  /** A signature is either made with a key over a hash, or no valid signature of anything. */
  datatype Signature = Signed(key: nat, hash: Hash) | Forged(data: nat)

  datatype Input = Input(parent: OutputElement, publicKey: nat, signature: Signature)

  datatype Transaction = Transaction(inputs: seq<Input>, outputs: seq<Output>, minerFee: nat)

  /** Times are nanoseconds since the Unix epoch. */
  datatype BlockHeader = BlockHeader(height: nat, parentID: Hash, nonce: nat, timestamp: int, minerAddress: Hash,
                                     commitment: Hash) {

    /** The ID covers the nonce, the whole seconds of the timestamp, and the commitment. */
    function ID(): Hash {
      BlockHash(nonce, Unix(timestamp), commitment)
    }

    function Index(): ChainIndex {
      ChainIndex(height, ID())
    }

    /** Height - 1 wraps around at the genesis block. */
    function ParentIndex(): ChainIndex {
      ChainIndex(if height == 0 then MAX_UINT64 else height - 1, parentID)
    }
  }

  datatype Block = Block(header: BlockHeader, transactions: seq<Transaction>) {
    function Index(): ChainIndex {
      header.Index()
    }
  }

  const MAX_UINT64: nat := 0xFFFF_FFFF_FFFF_FFFF

  const SECOND: int := 1_000_000_000

  /** Time.Unix: whole seconds, rounded down. */
  function Unix(t: int): int {
    t / SECOND
  }

  /** consensus.State: what a node knows of the chain up to one block. */
  datatype State = State(index: ChainIndex, elements: AccumulatorState, history: AccumulatorState,
                         totalWork: nat, difficulty: nat, lastAdjust: int, prevTimestamps: seq<int>) {

    /** What the encoder writes of the state. */
    function Image(): StateImage {
      StateImage(index, elements, history, totalWork, difficulty, Unix(lastAdjust),
                 seq(|prevTimestamps|, i requires 0 <= i < |prevTimestamps| => Unix(prevTimestamps[i])))
    }
  }
}
