/**
 * The digital-cash ledger: a set of circulating bills plus the next serial number,
 * changed by Mint and Transfer transactions. `State` is the mutable ledger of the
 * source; `Ledger` is its value, and `Transition` says, on values, what `NextState`
 * computes by cloning and mutating a `State`.
 */
module DigitalCash {
  import opened Prelude

  datatype User = Alice | Bob | Charlie

  /** A bill: an owner, an amount, and a serial number meant to make it unique. */
  datatype Bill = Bill(owner: User, amount: u64, serial: u64)

  datatype CashTransaction =
    | Mint(minter: User, amount: u64)
    | Transfer(spends: seq<Bill>, receives: seq<Bill>)

  /** The value of a ledger state. */
  datatype Ledger = Ledger(bills: set<Bill>, nextSerial: u64)

  /** Keys of the `visited_serial` map are tagged by the loop that inserted them. */
  datatype SerialTag = SpendTag | ReceiveTag

  function Set(bills: seq<Bill>): set<Bill> { set b | b in bills }

  function SerialsOf(bills: seq<Bill>): set<u64> { set b | b in bills :: b.serial }

  /** The exact total of the amounts. */
  function TotalAmount(bills: seq<Bill>): nat {
    if bills == [] then 0 else TotalAmount(bills[..|bills| - 1]) + bills[|bills| - 1].amount
  }

  /** `total_spends`: the amounts added up with `saturating_add`, which clamps the exact total at u64::MAX. */
  function SaturatingTotal(bills: seq<Bill>): (r: u64)
    ensures r == Min(TotalAmount(bills), U64_MAX)
  {
    if bills == [] then 0 else SaturatingAdd(SaturatingTotal(bills[..|bills| - 1]), bills[|bills| - 1].amount)
  }

  /** Every spent bill is in circulation, and no serial repeats among the spends. */
  predicate SpendsValid(bills: set<Bill>, spends: seq<Bill>) {
    forall i | 0 <= i < |spends| :: spends[i] in bills && spends[i].serial !in SerialsOf(spends[..i])
  }

  /**
   * No received serial is u64::MAX, equals a spent serial or repeats an earlier received
   * serial; the received total fits in the (saturated) spent total and is not zero.
   */
  predicate ReceivesValid(spends: seq<Bill>, receives: seq<Bill>) {
    && (forall j | 0 <= j < |receives| :: ReceiveSerialFresh(spends, receives, j))
    && TotalAmount(receives) <= SaturatingTotal(spends)
    && TotalAmount(receives) != 0
  }

  /** Received serial `j` is not u64::MAX, not a spent serial, and not an earlier received serial. */
  predicate ReceiveSerialFresh(spends: seq<Bill>, receives: seq<Bill>, j: nat)
    requires j < |receives|
  {
    && receives[j].serial != U64_MAX
    && receives[j].serial !in SerialsOf(spends)
    && receives[j].serial !in SerialsOf(receives[..j])
  }

  predicate TransferAccepted(bills: set<Bill>, spends: seq<Bill>, receives: seq<Bill>) {
    SpendsValid(bills, spends) && ReceivesValid(spends, receives)
  }

  /** `next_serial += 1` panics on overflow: every `add_bill` the transaction may reach must fit. */
  predicate SerialRoom(l: Ledger, tx: CashTransaction) {
    match tx
    case Mint(_, _) => l.nextSerial < U64_MAX
    case Transfer(spends, receives) => spends == [] || receives == [] || l.nextSerial + |receives| <= U64_MAX
  }

  /** The ledger after `tx`, as `DigitalCashSystem::next_state` computes it. */
  function Transition(l: Ledger, tx: CashTransaction): Ledger
    requires SerialRoom(l, tx)
  {
    match tx
    case Mint(minter, amount) =>
      Ledger(l.bills + {Bill(minter, amount, l.nextSerial)}, l.nextSerial + 1)
    case Transfer(spends, receives) =>
      if spends == [] then l
      else if receives == [] then Ledger({}, l.nextSerial)
      else if TransferAccepted(l.bills, spends, receives) then
        Ledger(l.bills - Set(spends) + Set(receives), l.nextSerial + |receives|)
      else l
  }

  /** The mutable ledger state of the source. */
  class State {
    var bills: set<Bill>
    var nextSerial: u64

    function Value(): Ledger
      reads this
    {
      Ledger(bills, nextSerial)
    }

    /** `State::new`: no bills, next serial 0. */
    constructor New()
      ensures Value() == Ledger({}, 0)
    {
      bills := {};
      nextSerial := 0;
    }

    method Clone() returns (c: State)
      ensures fresh(c) && c.Value() == Value()
    {
      c := new State.New();
      c.bills := bills;
      c.nextSerial := nextSerial;
    }

    method SetSerial(serial: u64)
      modifies this
      ensures Value() == old(Value()).(nextSerial := serial)
    {
      nextSerial := serial;
    }

    function NextSerial(): (n: u64)
      reads this
      ensures n == Value().nextSerial
    {
      nextSerial
    }

    method IncrementSerial()
      requires nextSerial < U64_MAX
      modifies this
      ensures Value() == old(Value()).(nextSerial := old(nextSerial) + 1)
    {
      nextSerial := nextSerial + 1;
    }

    /** Inserts the bill as given, keeping its serial, and only bumps the counter. */
    method AddBill(bill: Bill)
      requires nextSerial < U64_MAX
      modifies this
      ensures Value() == Ledger(old(bills) + {bill}, old(nextSerial) + 1)
    {
      bills := bills + {bill};
      IncrementSerial();
    }
  }

  /**
   * `State::from_iter` (and `From<[Bill; N]>`): one `add_bill` per bill, so the counter ends
   * at the number of bills whatever their own serials are.
   */
  method FromIter(bills: seq<Bill>) returns (state: State)
    requires |bills| <= U64_MAX
    ensures fresh(state)
    ensures state.Value() == Ledger(Set(bills), |bills|)
  {
    state := new State.New();
    for i := 0 to |bills|
      invariant state.Value() == Ledger(Set(bills[..i]), i)
    {
      assert bills[..i + 1] == bills[..i] + [bills[i]];
      state.AddBill(bills[i]);
    }
    assert bills[..|bills|] == bills;
  }

  /**
   * The `transfer_process` closure: removes the spends, inserts the receives, and reports
   * whether every check passed. On failure the caller discards `s`.
   */
  method TransferProcess(s: State, spends: seq<Bill>, receives: seq<Bill>) returns (ok: bool)
    requires s.nextSerial + |receives| <= U64_MAX
    modifies s
    ensures ok <==> TransferAccepted(old(s.bills), spends, receives)
    ensures ok ==> s.Value() == Ledger(old(s.bills) - Set(spends) + Set(receives), old(s.nextSerial) + |receives|)
  {
    var visited: map<(SerialTag, u64), bool> := map[];
    var totalSpends: u64 := 0;
    ok, visited, totalSpends := ProcessSpends(s, spends);
    if !ok {
      return;
    }
    ok := ProcessReceives(s, spends, receives, visited, totalSpends);
  }

  /** The loop over `spends` of `transfer_process`. */
  method ProcessSpends(s: State, spends: seq<Bill>)
    returns (ok: bool, visited: map<(SerialTag, u64), bool>, totalSpends: u64)
    modifies s
    ensures ok <==> SpendsValid(old(s.bills), spends)
    ensures ok ==> s.Value() == Ledger(old(s.bills) - Set(spends), old(s.nextSerial))
    ensures ok ==> totalSpends == SaturatingTotal(spends)
    ensures ok ==> forall t, n :: (t, n) in visited <==> t == SpendTag && n in SerialsOf(spends)
  {
    ghost var start := s.bills;
    visited := map[];
    totalSpends := 0;
    for i := 0 to |spends|
      invariant s.bills == start - Set(spends[..i])
      invariant s.nextSerial == old(s.nextSerial)
      invariant SpendsValid(start, spends[..i])
      invariant totalSpends == SaturatingTotal(spends[..i])
      invariant forall t, n :: (t, n) in visited <==> t == SpendTag && n in SerialsOf(spends[..i])
    {
      var bill := spends[i];
      assert spends[..i + 1] == spends[..i] + [bill];
      if bill !in s.bills || (SpendTag, bill.serial) in visited {
        assert bill in start ==> bill.serial in SerialsOf(spends[..i]);
        SpendsInvalidAt(start, spends, i);
        return false, visited, totalSpends;
      }
      visited := visited[(SpendTag, bill.serial) := true];
      s.bills := s.bills - {bill};
      totalSpends := SaturatingAdd(totalSpends, bill.amount);
      SpendsValidExtend(start, spends, i);
    }
    assert spends[..|spends|] == spends;
    ok := true;
  }

  /** The loop over `receives` of `transfer_process`, and its final zero-output check. */
  method ProcessReceives(s: State, spends: seq<Bill>, receives: seq<Bill>,
                         visited0: map<(SerialTag, u64), bool>, totalSpends0: u64) returns (ok: bool)
    requires s.nextSerial + |receives| <= U64_MAX
    requires totalSpends0 == SaturatingTotal(spends)
    requires forall t, n :: (t, n) in visited0 <==> t == SpendTag && n in SerialsOf(spends)
    modifies s
    ensures ok <==> ReceivesValid(spends, receives)
    ensures ok ==> s.Value() == Ledger(old(s.bills) + Set(receives), old(s.nextSerial) + |receives|)
  {
    ghost var start := s.bills;
    var visited, totalSpends := visited0, totalSpends0;
    var totalReceives: u64 := 0;
    for j := 0 to |receives|
      invariant s.bills == start + Set(receives[..j])
      invariant s.nextSerial == old(s.nextSerial) + j
      invariant forall k | 0 <= k < j :: ReceiveSerialFresh(spends, receives, k)
      invariant TotalAmount(receives[..j]) <= SaturatingTotal(spends)
      invariant totalSpends == SaturatingTotal(spends) - TotalAmount(receives[..j])
      invariant totalReceives == TotalAmount(receives[..j])
      invariant forall n :: (SpendTag, n) in visited <==> n in SerialsOf(spends)
      invariant forall n :: (ReceiveTag, n) in visited <==> n in SerialsOf(receives[..j])
    {
      var bill := receives[j];
      ReceivePrefixStep(receives, j);
      if bill.serial == U64_MAX {
        assert !ReceiveSerialFresh(spends, receives, j);
        return false;
      }
      if (SpendTag, bill.serial) in visited || (ReceiveTag, bill.serial) in visited {
        assert !ReceiveSerialFresh(spends, receives, j);
        return false;
      }
      visited := visited[(ReceiveTag, bill.serial) := true];
      if bill.amount > totalSpends {
        PrefixTotalBound(receives, j + 1);
        return false;
      }
      totalReceives := SaturatingAdd(totalReceives, bill.amount);
      totalSpends := SaturatingSub(totalSpends, bill.amount);
      s.AddBill(bill);
    }
    assert receives[..|receives|] == receives;

    if totalReceives == 0 {
      return false;
    }
    ok := true;
  }

  /** What one more receive adds to the prefix's bills, serials and total. */
  lemma ReceivePrefixStep(receives: seq<Bill>, j: nat)
    requires j < |receives|
    ensures Set(receives[..j + 1]) == Set(receives[..j]) + {receives[j]}
    ensures SerialsOf(receives[..j + 1]) == SerialsOf(receives[..j]) + {receives[j].serial}
    ensures TotalAmount(receives[..j + 1]) == TotalAmount(receives[..j]) + receives[j].amount
  {
    assert receives[..j + 1] == receives[..j] + [receives[j]];
    assert receives[..j + 1][..j] == receives[..j];
  }

  lemma SpendsInvalidAt(bills: set<Bill>, spends: seq<Bill>, i: nat)
    requires i < |spends|
    requires spends[i] !in bills || spends[i].serial in SerialsOf(spends[..i])
    ensures !SpendsValid(bills, spends)
  {
  }

  lemma SpendsValidExtend(bills: set<Bill>, spends: seq<Bill>, i: nat)
    requires i < |spends| && SpendsValid(bills, spends[..i])
    requires spends[i] in bills && spends[i].serial !in SerialsOf(spends[..i])
    ensures SpendsValid(bills, spends[..i + 1])
  {
    var t := spends[..i + 1];
    forall k | 0 <= k < |t|
      ensures t[k] in bills && t[k].serial !in SerialsOf(t[..k])
    {
      if k < i {
        assert t[..k] == spends[..i][..k];
      } else {
        assert t[..k] == spends[..i];
      }
    }
  }

  /** `DigitalCashSystem::next_state`: clone, apply, and on any rejection return a clone of the start. */
  method NextState(start: State, tx: CashTransaction) returns (end: State)
    requires SerialRoom(start.Value(), tx)
    ensures fresh(end)
    ensures end.Value() == Transition(start.Value(), tx)
  {
    var newState := start.Clone();
    match tx {
      case Mint(minter, amount) =>
        var newBill := Bill(minter, amount, newState.NextSerial());
        newState.AddBill(newBill);
        return newState;
      case Transfer(spends, receives) =>
        if |spends| == 0 {
          return newState;
        }
        if |receives| == 0 {
          newState.bills := {};
          return newState;
        }
        var ok := TransferProcess(newState, spends, receives);
        if ok {
          return newState;
        }
    }
    end := start.Clone();
  }

  // ---------------------------------------------------------------------------
  // Properties of the transition

  /** The total of a prefix never exceeds the total of the whole sequence. */
  lemma {:induction false} PrefixTotalBound(bills: seq<Bill>, n: nat)
    requires n <= |bills|
    ensures TotalAmount(bills[..n]) <= TotalAmount(bills)
    decreases |bills|
  {
    if n < |bills| {
      var init := bills[..|bills| - 1];
      assert bills[..n] == init[..n];
      PrefixTotalBound(init, n);
    } else {
      assert bills[..n] == bills;
    }
  }

  /** Mint adds exactly one bill carrying the old counter as serial, even for amount 0. */
  lemma MintAddsOneBill(l: Ledger, minter: User, amount: u64)
    requires l.nextSerial < U64_MAX
    ensures Transition(l, Mint(minter, amount)).bills == l.bills + {Bill(minter, amount, l.nextSerial)}
    ensures Transition(l, Mint(minter, amount)).nextSerial == l.nextSerial + 1
  {
  }

  /** A transfer that spends nothing changes nothing. */
  lemma EmptySpendsIsNoOp(l: Ledger, receives: seq<Bill>)
    ensures Transition(l, Transfer([], receives)) == l
  {
  }

  /**
   * A transfer that spends something and receives nothing empties the whole bill set, keeps
   * the counter, and does not look at whether the spends exist.
   */
  lemma EmptyReceivesClearsBills(l: Ledger, spends: seq<Bill>)
    requires spends != []
    ensures Transition(l, Transfer(spends, [])) == Ledger({}, l.nextSerial)
  {
  }

  /** All or nothing: a transfer that fails any check returns the starting ledger. */
  lemma RejectedTransferIsAtomic(l: Ledger, spends: seq<Bill>, receives: seq<Bill>)
    requires receives != [] && SerialRoom(l, Transfer(spends, receives))
    requires !TransferAccepted(l.bills, spends, receives)
    ensures Transition(l, Transfer(spends, receives)) == l
  {
  }

  /** Spending a bill that is not in circulation is rejected. */
  lemma MissingSpendRejected(l: Ledger, spends: seq<Bill>, receives: seq<Bill>, i: nat)
    requires i < |spends| && spends[i] !in l.bills
    ensures !TransferAccepted(l.bills, spends, receives)
  {
  }

  /** Spending the same serial twice is rejected. */
  lemma DuplicateSpendSerialRejected(l: Ledger, spends: seq<Bill>, receives: seq<Bill>, i: nat, k: nat)
    requires k < i < |spends| && spends[k].serial == spends[i].serial
    ensures !TransferAccepted(l.bills, spends, receives)
  {
    assert spends[..i][k] == spends[k];
  }

  /** A received bill with serial u64::MAX is rejected. */
  lemma MaxReceiveSerialRejected(l: Ledger, spends: seq<Bill>, receives: seq<Bill>, j: nat)
    requires j < |receives| && receives[j].serial == U64_MAX
    ensures !TransferAccepted(l.bills, spends, receives)
  {
    assert !ReceiveSerialFresh(spends, receives, j);
  }

  /** A received serial equal to a spent serial, or to an earlier received serial, is rejected. */
  lemma ReceiveSerialCollisionRejected(l: Ledger, spends: seq<Bill>, receives: seq<Bill>, j: nat)
    requires j < |receives|
    requires (exists i | 0 <= i < |spends| :: spends[i].serial == receives[j].serial)
          || (exists k | 0 <= k < j :: receives[k].serial == receives[j].serial)
    ensures !TransferAccepted(l.bills, spends, receives)
  {
    if exists k | 0 <= k < j :: receives[k].serial == receives[j].serial {
      var k :| 0 <= k < j && receives[k].serial == receives[j].serial;
      assert receives[..j][k] == receives[k];
    }
    assert !ReceiveSerialFresh(spends, receives, j);
  }

  /**
   * A received amount above what is left of the spent total (after the earlier receives)
   * is rejected, and so is a transfer whose received total is 0.
   */
  lemma ValueErrorsRejected(l: Ledger, spends: seq<Bill>, receives: seq<Bill>, j: nat)
    requires j < |receives|
    requires receives[j].amount > SaturatingTotal(spends) - TotalAmount(receives[..j])
          || TotalAmount(receives) == 0
    ensures !TransferAccepted(l.bills, spends, receives)
  {
    assert receives[..j + 1][..j] == receives[..j];
    PrefixTotalBound(receives, j + 1);
  }

  /**
   * An accepted transfer removes exactly the spends, inserts the receives as given (with the
   * caller's serials), and advances the counter once per receive.
   */
  lemma AcceptedTransferResult(l: Ledger, spends: seq<Bill>, receives: seq<Bill>)
    requires spends != [] && receives != [] && l.nextSerial + |receives| <= U64_MAX
    requires TransferAccepted(l.bills, spends, receives)
    ensures Transition(l, Transfer(spends, receives)).bills == l.bills - Set(spends) + Set(receives)
    ensures Transition(l, Transfer(spends, receives)).nextSerial == l.nextSerial + |receives|
  {
  }

  /**
   * Conservation: an accepted transfer receives no more than it spends, and the running
   * remainder `total_spends - amount` never goes below zero.
   */
  lemma {:induction false} Conservation(bills: set<Bill>, spends: seq<Bill>, receives: seq<Bill>)
    requires TransferAccepted(bills, spends, receives)
    ensures TotalAmount(receives) <= TotalAmount(spends)
    ensures forall j | 0 <= j < |receives| ::
      receives[j].amount <= SaturatingTotal(spends) - TotalAmount(receives[..j])
  {
    forall j | 0 <= j < |receives|
      ensures receives[j].amount <= SaturatingTotal(spends) - TotalAmount(receives[..j])
    {
      assert receives[..j + 1][..j] == receives[..j];
      PrefixTotalBound(receives, j + 1);
    }
  }

  /** The serial counter never decreases. */
  lemma NextSerialNeverDecreases(l: Ledger, tx: CashTransaction)
    requires SerialRoom(l, tx)
    ensures Transition(l, tx).nextSerial >= l.nextSerial
  {
  }

  /**
   * Received bills keep the serial the caller wrote, even one far above the counter, so
   * "every serial is below next_serial" is not an invariant of the ledger.
   */
  lemma ReceivedSerialIsNotReassigned()
    ensures var l := Ledger({Bill(Alice, 20, 0)}, 1);
            var r := Transition(l, Transfer([Bill(Alice, 20, 0)], [Bill(Bob, 20, 4000)]));
            r == Ledger({Bill(Bob, 20, 4000)}, 2) && 4000 >= r.nextSerial
  {
    var spends, receives := [Bill(Alice, 20, 0)], [Bill(Bob, 20, 4000)];
    assert receives[..0] == [];
    assert spends[..0] == [];
    assert SerialsOf(spends) == {0};
    assert TransferAccepted({Bill(Alice, 20, 0)}, spends, receives);
  }
}
