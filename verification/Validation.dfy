/**
  Validation against the compact state (consensus/validation.go).  A node
  that keeps only roots accepts exactly the blocks that are valid for the
  full ledger those roots stand for.
 */
module Validation {
  import opened Types
  import opened Forest
  import opened Headers
  import opened Ledger
  import opened LedgerInvariant
  import ElementProofs

  datatype ValidationError =
    | InvalidHeader(header: HeaderError)
    | WrongCommitment
    | Overweight
    | MissingEphemeralOutput
    | WrongEphemeralValue
    | WrongEphemeralAddress
    | DoubleSpend
    | SpendsSpentOutput
    | SpendsMissingOutput
    | ZeroValueOutput
    | Overflow
    | Immature
    | Unbalanced
    | WrongPublicKey
    | InvalidSignature {

    /** A transaction is refused, alone or among the others. */
    predicate OfTransactions() {
      !InvalidHeader? && !WrongCommitment? && !Overweight?
    }
  }

  type Verdict = Check<ValidationError>

  /** The ledger's lists are within the range of the accumulators. */
  ghost predicate InLimits(fs: FullState) {
    InRange(|fs.elements|) && InRange(|fs.chain|)
  }

  predicate ContainsUnspentOutputElement(s: State, oe: OutputElement)
    requires |s.elements.trees| == MAX_TREES
  {
    ElementProofs.Contains(s.elements.trees, s.elements.numLeaves, OutputLeaf(oe, false))
  }

  predicate ContainsSpentOutputElement(s: State, oe: OutputElement)
    requires |s.elements.trees| == MAX_TREES
  {
    ElementProofs.Contains(s.elements.trees, s.elements.numLeaves, OutputLeaf(oe, true))
  }

  /** The ledger holds the element, with the given spent flag, and the proof is its path. */
  ghost predicate Holds(fs: FullState, oe: OutputElement, spent: bool) {
    oe.state.leafIndex < |fs.elements| &&
    fs.elements[oe.state.leafIndex] == Element(oe.state.id, oe.output, oe.maturityHeight, spent) &&
    oe.state.merkleProof == LeafPath(fs.Leaves(), oe.state.leafIndex)
  }

  /** The roots know exactly the unspent elements, and exactly the spent ones. */
  lemma ContainsIsExact(fs: FullState, oe: OutputElement)
    requires InLimits(fs)
    ensures ContainsUnspentOutputElement(Compact(fs), oe) <==> SpendsElement(fs, oe)
    ensures ContainsSpentOutputElement(Compact(fs), oe) <==> Holds(fs, oe, true)
  {
    var xs := fs.Leaves();
    ElementProofs.MembershipIsExact(Compact(fs).elements.trees, xs, OutputLeaf(oe, false));
    ElementProofs.MembershipIsExact(Compact(fs).elements.trees, xs, OutputLeaf(oe, true));
    hide Accumulate, ElementProofs.Contains, LeafPath, Indexed, Represents;
  }

  // ---------------------------------------------------------------- one transaction

  method ValidateStateProofs(s: State, txn: Transaction, ghost fs: FullState) returns (v: Verdict)
    requires s == Compact(fs) && InLimits(fs)
    ensures v == Ok <==>
      forall i :: 0 <= i < |txn.inputs| ==> txn.inputs[i].parent.Ephemeral() || SpendsElement(fs, txn.inputs[i].parent)
    ensures v == Ok || v == Err(SpendsSpentOutput) || v == Err(SpendsMissingOutput)
    ensures v == Err(SpendsSpentOutput) ==> exists i :: 0 <= i < |txn.inputs| && Holds(fs, txn.inputs[i].parent, true)
  {
    hide SpendsElement, Holds, ContainsUnspentOutputElement, ContainsSpentOutputElement;
    for i := 0 to |txn.inputs|
      invariant forall m :: 0 <= m < i ==> txn.inputs[m].parent.Ephemeral() || SpendsElement(fs, txn.inputs[m].parent)
    {
      var oe := txn.inputs[i].parent;
      ContainsIsExact(fs, oe);
      if oe.Ephemeral() {
        continue;
      } else if ContainsUnspentOutputElement(s, oe) {
        continue;
      } else if ContainsSpentOutputElement(s, oe) {
        return Err(SpendsSpentOutput);
      } else {
        return Err(SpendsMissingOutput);
      }
    }
    return Ok;
  }

  /** Currency.AddWithOverflow */
  function AddWithOverflow(a: nat, b: nat): (nat, bool) {
    ((a + b) % (MAX_UINT128 + 1), a + b > MAX_UINT128)
  }

  /** The sum so far is exact until it overflows. */
  ghost predicate SumsTo(sum: nat, overflowed: bool, total: nat) {
    if overflowed then total > MAX_UINT128 else sum == total <= MAX_UINT128
  }

  lemma SumStep(sum: nat, overflowed: bool, total: nat, x: nat)
    requires SumsTo(sum, overflowed, total)
    ensures overflowed ==> SumsTo(sum, true, total + x)
    ensures !overflowed ==> SumsTo(AddWithOverflow(sum, x).0, AddWithOverflow(sum, x).1, total + x)
  {
  }

  method ValidateCurrencyValues(txn: Transaction) returns (v: Verdict)
    ensures v == Ok <==>
      (forall i :: 0 <= i < |txn.outputs| ==> txn.outputs[i].value > 0) &&
      InputValue(txn.inputs) + OutputValue(txn.outputs) + txn.minerFee <= MAX_UINT128
    ensures v == Ok || v == Err(ZeroValueOutput) || v == Err(Overflow)
    ensures v == Err(ZeroValueOutput) <==> exists i :: 0 <= i < |txn.outputs| && txn.outputs[i].value == 0
  {
    hide SumsTo, AddWithOverflow;
    var sum, overflowed := 0, false;
    assert SumsTo(0, false, 0) by {
      SumZero();
    }
    for i := 0 to |txn.inputs|
      invariant SumsTo(sum, overflowed, InputValue(txn.inputs[..i]))
    {
      assert txn.inputs[..i + 1][..i] == txn.inputs[..i];
      SumStep(sum, overflowed, InputValue(txn.inputs[..i]), txn.inputs[i].parent.output.value);
      if !overflowed {
        var r := AddWithOverflow(sum, txn.inputs[i].parent.output.value);
        sum, overflowed := r.0, r.1;
      }
    }
    assert txn.inputs[..|txn.inputs|] == txn.inputs;
    for i := 0 to |txn.outputs|
      invariant SumsTo(sum, overflowed, InputValue(txn.inputs) + OutputValue(txn.outputs[..i]))
      invariant forall m :: 0 <= m < i ==> txn.outputs[m].value > 0
    {
      assert txn.outputs[..i + 1][..i] == txn.outputs[..i];
      if txn.outputs[i].value == 0 {
        return Err(ZeroValueOutput);
      }
      SumStep(sum, overflowed, InputValue(txn.inputs) + OutputValue(txn.outputs[..i]), txn.outputs[i].value);
      if !overflowed {
        var r := AddWithOverflow(sum, txn.outputs[i].value);
        sum, overflowed := r.0, r.1;
      }
    }
    assert txn.outputs[..|txn.outputs|] == txn.outputs;
    SumStep(sum, overflowed, InputValue(txn.inputs) + OutputValue(txn.outputs), txn.minerFee);
    if !overflowed {
      var r := AddWithOverflow(sum, txn.minerFee);
      sum, overflowed := r.0, r.1;
    }
    SumVerdict(sum, overflowed, InputValue(txn.inputs) + OutputValue(txn.outputs) + txn.minerFee);
    if overflowed {
      return Err(Overflow);
    }
    return Ok;
  }

  lemma SumZero()
    ensures SumsTo(0, false, 0)
  {
  }

  lemma SumVerdict(sum: nat, overflowed: bool, total: nat)
    requires SumsTo(sum, overflowed, total)
    ensures overflowed <==> total > MAX_UINT128
  {
  }

  method ValidateTimeLocks(s: State, txn: Transaction) returns (v: Verdict)
    ensures v == Ok <==> forall i :: 0 <= i < |txn.inputs| ==> txn.inputs[i].parent.maturityHeight <= s.index.height + 1
    ensures v == Ok || v == Err(Immature)
  {
    var blockHeight := s.index.height + 1;
    for i := 0 to |txn.inputs|
      invariant forall m :: 0 <= m < i ==> txn.inputs[m].parent.maturityHeight <= blockHeight
    {
      if txn.inputs[i].parent.maturityHeight > blockHeight {
        return Err(Immature);
      }
    }
    return Ok;
  }

  /** Currency.Add, which panics on overflow. */
  function Add(a: nat, b: nat): nat
    requires a + b <= MAX_UINT128
  {
    a + b
  }

  lemma {:induction false} PartialSums(txn: Transaction, i: nat, j: nat)
    requires i <= |txn.inputs| && j <= |txn.outputs|
    ensures InputValue(txn.inputs[..i]) <= InputValue(txn.inputs) &&
      OutputValue(txn.outputs[..j]) <= OutputValue(txn.outputs)
    decreases |txn.inputs| - i + |txn.outputs| - j
  {
    assert txn.inputs[..|txn.inputs|] == txn.inputs && txn.outputs[..|txn.outputs|] == txn.outputs;
    if i < |txn.inputs| {
      PartialSums(txn, i + 1, j);
      assert txn.inputs[..i + 1][..i] == txn.inputs[..i];
    } else if j < |txn.outputs| {
      PartialSums(txn, i, j + 1);
      assert txn.outputs[..j + 1][..j] == txn.outputs[..j];
    }
  }

  /** Sums without checking: validateCurrencyValues has made sure that none overflows. */
  method OutputsEqualInputs(txn: Transaction) returns (v: Verdict)
    requires InputValue(txn.inputs) + OutputValue(txn.outputs) + txn.minerFee <= MAX_UINT128
    ensures v == Ok <==> InputValue(txn.inputs) == OutputValue(txn.outputs) + txn.minerFee
    ensures v == Ok || v == Err(Unbalanced)
  {
    var totalIn, totalOut := 0, 0;
    for i := 0 to |txn.inputs|
      invariant totalIn == InputValue(txn.inputs[..i])
    {
      PartialSums(txn, i + 1, 0);
      assert txn.inputs[..i + 1][..i] == txn.inputs[..i];
      totalIn := Add(totalIn, txn.inputs[i].parent.output.value);
    }
    for i := 0 to |txn.outputs|
      invariant totalOut == OutputValue(txn.outputs[..i])
    {
      PartialSums(txn, 0, i + 1);
      assert txn.outputs[..i + 1][..i] == txn.outputs[..i];
      totalOut := Add(totalOut, txn.outputs[i].value);
    }
    assert txn.inputs[..|txn.inputs|] == txn.inputs && txn.outputs[..|txn.outputs|] == txn.outputs;
    totalOut := Add(totalOut, txn.minerFee);
    return if totalIn != totalOut then Err(Unbalanced) else Ok;
  }

  method ValidateSpendPolicies(txn: Transaction) returns (v: Verdict)
    ensures v == Ok <==> forall i :: 0 <= i < |txn.inputs| ==>
      var input := txn.inputs[i];
      input.parent.output.address == AddressHash(input.publicKey) &&
      input.signature == Signed(input.publicKey, SigningHash(InputIDs(txn.inputs), txn.outputs, txn.minerFee))
    ensures v == Ok || v == Err(WrongPublicKey) || v == Err(InvalidSignature)
  {
    var sigHash := InputSigHash(txn);
    for i := 0 to |txn.inputs|
      invariant forall m :: 0 <= m < i ==> PolicySatisfied(txn.inputs[m], sigHash)
    {
      if AddressHash(txn.inputs[i].publicKey) != txn.inputs[i].parent.output.address {
        return Err(WrongPublicKey);
      } else if txn.inputs[i].signature != Signed(txn.inputs[i].publicKey, sigHash) {
        return Err(InvalidSignature);
      }
    }
    return Ok;
  }

  method ValidateTransaction(s: State, txn: Transaction, ghost fs: FullState) returns (v: Verdict)
    requires s == Compact(fs) && InLimits(fs)
    ensures v == Ok <==> ValidTransaction(fs, txn)
    ensures v != Ok ==> v.error.OfTransactions()
  {
    hide SpendsElement, Accumulate;
    v := ValidateStateProofs(s, txn, fs);
    if v != Ok {
      return;
    }
    v := ValidateCurrencyValues(txn);
    if v != Ok {
      return;
    }
    v := ValidateTimeLocks(s, txn);
    if v != Ok {
      return;
    }
    v := OutputsEqualInputs(txn);
    if v != Ok {
      return;
    }
    v := ValidateSpendPolicies(txn);
  }

  // ---------------------------------------------------------------- sets of transactions

  /** Every available output was created by one of the first i transactions. */
  ghost predicate FromOutputs(available: map<ElementID, Output>, txns: seq<Transaction>, i: nat) {
    i <= |txns| && forall id :: id in available ==> FromOutput(available[id], id, txns[..i])
  }

  ghost predicate FromOutput(output: Output, id: ElementID, earlier: seq<Transaction>) {
    exists j: nat, k: nat :: IsOutput(earlier, j, k, id) && output == earlier[j].outputs[k]
  }

  ghost predicate IsOutput(txns: seq<Transaction>, j: nat, k: nat, id: ElementID) {
    j < |txns| && k < |txns[j].outputs| && id == ElementID(TransactionID(txns[j]), k)
  }

  /** One of the first p inputs is ephemeral and spends id. */
  ghost predicate Consumed(inputs: seq<Input>, p: nat, id: ElementID) {
    exists q: nat :: q < p && q < |inputs| && inputs[q].parent.Ephemeral() && inputs[q].parent.state.id == id
  }

  /** Every output of the first i transactions is still available, or spent by one of the first p inputs. */
  ghost predicate AvailableOrConsumed(available: map<ElementID, Output>, txns: seq<Transaction>, i: nat, p: nat) {
    forall j: nat, k: nat, id :: j < i && IsOutput(txns, j, k, id) ==>
      id in available || Consumed(AllInputs(txns), p, id)
  }

  /** IDs name outputs: equal IDs, equal outputs. */
  lemma OutputOfID(txns: seq<Transaction>, j: nat, k: nat, j': nat, k': nat, id: ElementID)
    requires IsOutput(txns, j, k, id) && IsOutput(txns, j', k', id)
    ensures txns[j].outputs[k] == txns[j'].outputs[k']
  {
  }

  /** The map answers with the output that the ID names. */
  lemma AvailableValue(available: map<ElementID, Output>, txns: seq<Transaction>, i: nat, oe: OutputElement)
    requires FromOutputs(available, txns, i) && EphemeralAvailable(txns[..i], oe) && oe.state.id in available
    ensures available[oe.state.id] == oe.output
  {
    var id := oe.state.id;
    var j: nat, k: nat :| SpendsOutput(txns[..i], oe, j, k);
    assert FromOutput(available[id], id, txns[..i]);
    var j': nat, k': nat :| IsOutput(txns[..i], j', k', id) && available[id] == txns[..i][j'].outputs[k'];
    OutputOfID(txns[..i], j, k, j', k', id);
  }

  lemma ConsumedTwice(txns: seq<Transaction>, i: nat, m: nat)
    requires i < |txns| && m < |txns[i].inputs|
    requires Consumed(AllInputs(txns), Offset(txns, i) + m, txns[i].inputs[m].parent.state.id)
    ensures !NoDoubleSpends(txns)
  {
    InputAt(txns, i, m);
    hide AllInputs;
  }

  /** An ephemeral input that the map does not answer is unavailable, or a double spend. */
  lemma Unavailable(available: map<ElementID, Output>, txns: seq<Transaction>, i: nat, m: nat)
    requires i < |txns| && m < |txns[i].inputs| && txns[i].inputs[m].parent.Ephemeral()
    requires FromOutputs(available, txns, i) && AvailableOrConsumed(available, txns, i, Offset(txns, i) + m)
    requires var oe := txns[i].inputs[m].parent; oe.state.id !in available || available[oe.state.id] != oe.output
    ensures !(EphemeralsAvailable(txns) && NoDoubleSpends(txns))
  {
    hide AllInputs, Consumed, NoDoubleSpends;
    var oe := txns[i].inputs[m].parent;
    if EphemeralsAvailable(txns) {
      assert EphemeralAvailable(txns[..i], oe);
      if oe.state.id in available {
        AvailableValue(available, txns, i, oe);
      } else {
        var j: nat, k: nat :| SpendsOutput(txns[..i], oe, j, k);
        assert IsOutput(txns, j, k, oe.state.id);
        ConsumedTwice(txns, i, m);
      }
    }
  }

  lemma Available(available: map<ElementID, Output>, txns: seq<Transaction>, i: nat, oe: OutputElement)
    requires FromOutputs(available, txns, i) && oe.state.id in available && available[oe.state.id] == oe.output
    ensures EphemeralAvailable(txns[..i], oe)
  {
    var id := oe.state.id;
    assert FromOutput(available[id], id, txns[..i]);
    var j: nat, k: nat :| IsOutput(txns[..i], j, k, id) && available[id] == txns[..i][j].outputs[k];
    assert SpendsOutput(txns[..i], oe, j, k);
  }

  /** The inputs of transaction i: each ephemeral one takes its output away. */
  method TakeInputs(txns: seq<Transaction>, i: nat, available: map<ElementID, Output>)
    returns (v: Verdict, left: map<ElementID, Output>)
    requires i < |txns| && FromOutputs(available, txns, i) && AvailableOrConsumed(available, txns, i, Offset(txns, i))
    ensures v == Ok ==>
      FromOutputs(left, txns, i) && AvailableOrConsumed(left, txns, i, Offset(txns, i) + |txns[i].inputs|)
    ensures v == Ok ==> forall m :: 0 <= m < |txns[i].inputs| && txns[i].inputs[m].parent.Ephemeral() ==>
      EphemeralAvailable(txns[..i], txns[i].inputs[m].parent)
    ensures v != Ok ==> !(EphemeralsAvailable(txns) && NoDoubleSpends(txns)) && v.error.OfTransactions()
  {
    hide EphemeralAvailable, EphemeralsAvailable, NoDoubleSpends, FromOutputs, AvailableOrConsumed, AllInputs;
    left := available;
    var inputs := txns[i].inputs;
    for m := 0 to |inputs|
      invariant FromOutputs(left, txns, i) && AvailableOrConsumed(left, txns, i, Offset(txns, i) + m)
      invariant forall n :: 0 <= n < m && inputs[n].parent.Ephemeral() ==>
        EphemeralAvailable(txns[..i], inputs[n].parent)
    {
      var oe := inputs[m].parent;
      TakeOne(left, txns, i, m);
      if oe.Ephemeral() {
        if oe.state.id !in left {
          Unavailable(left, txns, i, m);
          return Err(MissingEphemeralOutput), left;
        } else if oe.output.value != left[oe.state.id].value {
          Unavailable(left, txns, i, m);
          return Err(WrongEphemeralValue), left;
        } else if oe.output.address != left[oe.state.id].address {
          Unavailable(left, txns, i, m);
          return Err(WrongEphemeralAddress), left;
        }
        Available(left, txns, i, oe);
        left := left - {oe.state.id};
      }
    }
    v := Ok;
  }

  lemma TakeOne(available: map<ElementID, Output>, txns: seq<Transaction>, i: nat, m: nat)
    requires i < |txns| && m < |txns[i].inputs|
    requires FromOutputs(available, txns, i) && AvailableOrConsumed(available, txns, i, Offset(txns, i) + m)
    ensures var oe := txns[i].inputs[m].parent;
      var left := if oe.Ephemeral() then available - {oe.state.id} else available;
      FromOutputs(left, txns, i) && AvailableOrConsumed(left, txns, i, Offset(txns, i) + m + 1)
  {
    hide AllInputs, FromOutput;
    var oe := txns[i].inputs[m].parent;
    var left := if oe.Ephemeral() then available - {oe.state.id} else available;
    InputAt(txns, i, m);
    var p := Offset(txns, i) + m;
    forall j: nat, k: nat, id | j < i && IsOutput(txns, j, k, id)
      ensures id in left || Consumed(AllInputs(txns), p + 1, id)
    {
      if Consumed(AllInputs(txns), p, id) {
        var q: nat :| q < p && q < |AllInputs(txns)| && AllInputs(txns)[q].parent.Ephemeral() &&
          AllInputs(txns)[q].parent.state.id == id;
        assert q < p + 1;
      } else if id !in left {
        assert AllInputs(txns)[p].parent.state.id == id;
      }
    }
  }

  /** The outputs of transaction i become available to later ones. */
  method AddOutputs(txns: seq<Transaction>, i: nat, available: map<ElementID, Output>)
    returns (more: map<ElementID, Output>)
    requires i < |txns| && FromOutputs(available, txns, i)
    requires AvailableOrConsumed(available, txns, i, Offset(txns, i) + |txns[i].inputs|)
    ensures FromOutputs(more, txns, i + 1) && AvailableOrConsumed(more, txns, i + 1, Offset(txns, i + 1))
  {
    hide AllInputs, FromOutput, Consumed;
    var txid := TransactionID(txns[i]);
    more := available;
    var outputs := txns[i].outputs;
    for index := 0 to |outputs|
      invariant forall id :: id in available ==> id in more
      invariant forall k :: 0 <= k < index ==> ElementID(txid, k) in more
      invariant forall id :: id in more ==>
        if id.source == txid && id.index < index then more[id] == outputs[id.index]
        else id in available && more[id] == available[id]
    {
      more := more[ElementID(txid, index) := outputs[index]];
    }
    OutputsAdded(txns, i, available, more);
  }

  lemma OutputsAdded(txns: seq<Transaction>, i: nat, available: map<ElementID, Output>, more: map<ElementID, Output>)
    requires i < |txns| && FromOutputs(available, txns, i)
    requires AvailableOrConsumed(available, txns, i, Offset(txns, i) + |txns[i].inputs|)
    requires forall id :: id in available ==> id in more
    requires forall k :: 0 <= k < |txns[i].outputs| ==> ElementID(TransactionID(txns[i]), k) in more
    requires forall id :: id in more ==>
      if id.source == TransactionID(txns[i]) && id.index < |txns[i].outputs| then more[id] == txns[i].outputs[id.index]
      else id in available && more[id] == available[id]
    ensures FromOutputs(more, txns, i + 1) && AvailableOrConsumed(more, txns, i + 1, Offset(txns, i + 1))
  {
    assert txns[..i + 1][..i] == txns[..i];
    assert Offset(txns, i + 1) == Offset(txns, i) + |txns[i].inputs|;
    hide AllInputs, Consumed;
    forall id | id in more
      ensures FromOutput(more[id], id, txns[..i + 1])
    {
      if id.source == TransactionID(txns[i]) && id.index < |txns[i].outputs| {
        assert IsOutput(txns[..i + 1], i, id.index, id);
      } else {
        assert FromOutput(available[id], id, txns[..i]);
        var j: nat, k: nat :| IsOutput(txns[..i], j, k, id) && available[id] == txns[..i][j].outputs[k];
        assert IsOutput(txns[..i + 1], j, k, id);
      }
    }
    forall j: nat, k: nat, id | j < i + 1 && IsOutput(txns, j, k, id)
      ensures id in more || Consumed(AllInputs(txns), Offset(txns, i + 1), id)
    {
    }
  }

  predicate HasEphemeralInputs(txns: seq<Transaction>) {
    exists i, m :: 0 <= i < |txns| && 0 <= m < |txns[i].inputs| && txns[i].inputs[m].parent.Ephemeral()
  }

  method ValidateEphemeralOutputs(txns: seq<Transaction>) returns (v: Verdict)
    ensures v == Ok ==> EphemeralsAvailable(txns)
    ensures v != Ok ==> !(EphemeralsAvailable(txns) && NoDoubleSpends(txns)) && v.error.OfTransactions()
  {
    hide EphemeralAvailable, NoDoubleSpends, FromOutput, Consumed, AllInputs;
    // most sets have nothing to check here
    if !HasEphemeralInputs(txns) {
      return Ok;
    }
    var available: map<ElementID, Output> := map[];
    assert Offset(txns, 0) == Offset(txns, 0);
    for i := 0 to |txns|
      invariant FromOutputs(available, txns, i) && AvailableOrConsumed(available, txns, i, Offset(txns, i))
      invariant forall j, m :: 0 <= j < i && 0 <= m < |txns[j].inputs| && txns[j].inputs[m].parent.Ephemeral() ==>
        EphemeralAvailable(txns[..j], txns[j].inputs[m].parent)
    {
      v, available := TakeInputs(txns, i, available);
      if v != Ok {
        return;
      }
      available := AddOutputs(txns, i, available);
    }
    v := Ok;
  }

  method ValidateNoDoubleSpends(txns: seq<Transaction>) returns (v: Verdict)
    ensures v == Ok <==> NoDoubleSpends(txns)
    ensures v == Ok || v == Err(DoubleSpend)
  {
    hide AllInputs, TransactionID;
    var spent: map<ElementID, nat> := map[];
    ghost var all := AllInputs(txns);
    OffsetAll(txns);
    for i := 0 to |txns|
      invariant Offset(txns, i) <= |all|
      invariant forall id :: id in spent <==> exists p :: 0 <= p < Offset(txns, i) && all[p].parent.state.id == id
      invariant forall a, b :: 0 <= a < b < Offset(txns, i) ==> all[a].parent.state.id != all[b].parent.state.id
    {
      ghost var start := Offset(txns, i);
      OffsetNext(txns, i);
      for m := 0 to |txns[i].inputs|
        invariant start + m <= |all|
        invariant forall id :: id in spent <==> exists p :: 0 <= p < start + m && all[p].parent.state.id == id
        invariant forall a, b :: 0 <= a < b < start + m ==> all[a].parent.state.id != all[b].parent.state.id
      {
        InputAt(txns, i, m);
        var id := txns[i].inputs[m].parent.state.id;
        if id in spent {
          return Err(DoubleSpend);
        }
        spent := spent[id := i];
      }
    }
    v := Ok;
  }

  lemma OffsetNext(txns: seq<Transaction>, i: nat)
    requires i < |txns|
    ensures Offset(txns, i + 1) == Offset(txns, i) + |txns[i].inputs|
  {
    assert txns[..i + 1][..i] == txns[..i];
  }

  lemma OffsetAll(txns: seq<Transaction>)
    ensures Offset(txns, 0) == 0 && Offset(txns, |txns|) == |AllInputs(txns)|
  {
    assert txns[..|txns|] == txns;
  }

  /** Inputs weigh four times as much as outputs. */
  lemma {:induction false} WeightCounts(txns: seq<Transaction>)
    ensures BlockWeight(txns) == 4 * |AllInputs(txns)| + OutputsBefore(txns, |txns|)
    decreases |txns|
  {
    if txns != [] {
      var n := |txns| - 1;
      WeightCounts(txns[..n]);
      SameCount(txns, txns[..n], n);
    }
  }

  lemma {:induction false} SameCount(a: seq<Transaction>, b: seq<Transaction>, i: nat)
    requires i <= |b| && b <= a
    ensures OutputsBefore(a, i) == OutputsBefore(b, i)
  {
    if i > 0 {
      SameCount(a, b, i - 1);
    }
  }

  method ComputeBlockWeight(txns: seq<Transaction>) returns (weight: nat)
    ensures weight == BlockWeight(txns) == 4 * |AllInputs(txns)| + OutputsBefore(txns, |txns|)
  {
    WeightCounts(txns);
    weight := 0;
    for i := 0 to |txns|
      invariant weight == BlockWeight(txns[..i])
    {
      assert txns[..i + 1][..i] == txns[..i];
      weight := weight + TransactionWeight(txns[i]);
    }
    assert txns[..|txns|] == txns;
  }

  method ValidateTransactionSet(s: State, txns: seq<Transaction>, ghost fs: FullState) returns (v: Verdict)
    requires s == Compact(fs) && InLimits(fs)
    ensures v == Ok <==> ValidTransactionSet(fs, txns)
    ensures v != Ok && v != Err(Overweight) ==> v.error.OfTransactions()
    ensures v == Err(Overweight) <==> BlockWeight(txns) > 1_000_000
  {
    hide ValidTransaction, EphemeralsAvailable, NoDoubleSpends, BlockWeight, Compact, InLimits;
    var weight := ComputeBlockWeight(txns);
    if weight > MAX_BLOCK_WEIGHT {
      return Err(Overweight);
    }
    v := ValidateEphemeralOutputs(txns);
    if v != Ok {
      return;
    }
    v := ValidateNoDoubleSpends(txns);
    if v != Ok {
      return;
    }
    for i := 0 to |txns|
      invariant forall j :: 0 <= j < i ==> ValidTransaction(fs, txns[j])
    {
      v := ValidateTransaction(s, txns[i], fs);
      if v != Ok {
        return;
      }
    }
    v := Ok;
  }

  /** ValidateBlock accepts a block just when it is valid for the full ledger. */
  method ValidateBlock(s: State, b: Block, work: Hash -> nat, ghost fs: FullState) returns (v: Verdict)
    requires s == Compact(fs) && InLimits(fs)
    ensures v == Ok <==> ValidBlock(fs, b, work)
    ensures |s.prevTimestamps| == WINDOW
    ensures forall e :: v == Err(InvalidHeader(e)) <==> ValidateHeader(s, b.header, work) == Err(e)
    ensures v == Err(WrongCommitment) <==>
      ValidateHeader(s, b.header, work) == Ok &&
      b.header.commitment != CommitmentHash(s.Image(), b.header.minerAddress, TransactionIDs(b.transactions))
  {
    hide ValidTransactionSet, Compact, InLimits, ValidateHeader;
    CompactWindow(fs);
    var header := ValidateHeader(s, b.header, work);
    if header != Ok {
      return Err(InvalidHeader(header.error));
    } else if Commitment(s, b.header.minerAddress, b.transactions) != b.header.commitment {
      return Err(WrongCommitment);
    }
    v := ValidateTransactionSet(s, b.transactions, fs);
  }

  lemma CompactWindow(fs: FullState)
    ensures |Compact(fs).prevTimestamps| == WINDOW
  {
    hide Accumulate;
  }
}
