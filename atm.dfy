/**
 * The ATM keypad state machine: a card swipe supplies the expected pin hash, digit keys
 * fill the keystroke register, and Enter either checks the pin or withdraws the amount
 * typed. `Atm` is the mutable machine of the source, `AtmState` its value, and `Step`
 * says, on values, what `NextState` computes by cloning and mutating an `Atm`.
 */
module AtmMachine {
  import opened Prelude

  datatype Key = One | Two | Three | Four | Enter

  datatype Action = SwipeCard(pinHash: u64) | PressKey(key: Key)

  datatype Authentication = Waiting | Authenticating(expected: u64) | Authenticated

  datatype AtmState = AtmState(cashInside: u64, expectedPinHash: Authentication, keystrokeRegister: seq<Key>)

  /** The `filter_map` of the withdrawal: One..Four are the digits 1..4, other keys are skipped. */
  function Digit(k: Key): Option<nat> {
    match k
    case One => Some(1)
    case Two => Some(2)
    case Three => Some(3)
    case Four => Some(4)
    case Enter => None
  }

  /** The digits of the register, in order. */
  function Digits(register: seq<Key>): seq<nat> {
    if register == [] then []
    else
      var last := register[|register| - 1];
      Digits(register[..|register| - 1]) + (if Digit(last).Some? then [Digit(last).value] else [])
  }

  /** The `fold(0, |acc, digit| acc * 10 + digit)` over the digits. */
  function FoldDecimal(digits: seq<nat>): nat {
    if digits == [] then 0 else FoldDecimal(digits[..|digits| - 1]) * 10 + digits[|digits| - 1]
  }

  /** The amount a register asks to withdraw. */
  function WithdrawAmount(register: seq<Key>): nat {
    FoldDecimal(Digits(register))
  }

  function Pow10(n: nat): nat {
    if n == 0 then 1 else 10 * Pow10(n - 1)
  }

  /** Positional decimal value: the first digit is the most significant. */
  function DecimalValue(digits: seq<nat>): nat {
    if digits == [] then 0 else digits[0] * Pow10(|digits| - 1) + DecimalValue(digits[1..])
  }

  /** The fold in `u64` panics on overflow; every intermediate is at most the final amount. */
  predicate WithdrawFits(s: AtmState, a: Action) {
    s.expectedPinHash.Authenticated? && a == PressKey(Enter) ==> WithdrawAmount(s.keystrokeRegister) <= U64_MAX
  }

  /** The state after one action, as `Atm::next_state` computes it. */
  function Step(hashKeys: seq<Key> -> u64, s: AtmState, a: Action): AtmState
    requires WithdrawFits(s, a)
  {
    match a
    case SwipeCard(pinHash) =>
      if s.expectedPinHash.Waiting? then s.(expectedPinHash := Authenticating(pinHash)) else s
    case PressKey(key) =>
      match s.expectedPinHash
      case Waiting => s
      case Authenticating(expected) =>
        if key == Enter then
          AtmState(s.cashInside, if hashKeys(s.keystrokeRegister) == expected then Authenticated else Waiting, [])
        else s.(keystrokeRegister := s.keystrokeRegister + [key])
      case Authenticated =>
        if key == Enter then
          var amount := WithdrawAmount(s.keystrokeRegister);
          AtmState(if amount <= s.cashInside then s.cashInside - amount else s.cashInside, Waiting, [])
        else s.(keystrokeRegister := s.keystrokeRegister + [key])
  }

  /** The mutable ATM of the source. */
  class Atm {
    var cashInside: u64
    var expectedPinHash: Authentication
    var keystrokeRegister: seq<Key>

    function Value(): AtmState
      reads this
    {
      AtmState(cashInside, expectedPinHash, keystrokeRegister)
    }

    constructor (cash: u64, auth: Authentication, register: seq<Key>)
      ensures Value() == AtmState(cash, auth, register)
    {
      cashInside := cash;
      expectedPinHash := auth;
      keystrokeRegister := register;
    }

    method Clone() returns (c: Atm)
      ensures fresh(c) && c.Value() == Value()
    {
      c := new Atm(cashInside, expectedPinHash, keystrokeRegister);
    }
  }

  /** `Atm::next_state`: clone the machine and update the clone's fields. */
  method NextState(hashKeys: seq<Key> -> u64, start: Atm, action: Action) returns (end: Atm)
    requires WithdrawFits(start.Value(), action)
    ensures fresh(end)
    ensures end.Value() == Step(hashKeys, start.Value(), action)
  {
    end := start.Clone();
    match action {
      case SwipeCard(pinHash) =>
        if start.expectedPinHash.Waiting? {
          end.expectedPinHash := Authenticating(pinHash);
        }
      case PressKey(key) =>
        match start.expectedPinHash {
          case Waiting =>
          case Authenticating(expected) =>
            if key == Enter {
              var enteredPinHash := hashKeys(end.keystrokeRegister);
              if enteredPinHash == expected {
                end.expectedPinHash := Authenticated;
              } else {
                end.expectedPinHash := Waiting;
              }
              end.keystrokeRegister := [];
            } else {
              end.keystrokeRegister := end.keystrokeRegister + [key];
            }
          case Authenticated =>
            if key == Enter {
              var amountToWithdraw := WithdrawAmount(end.keystrokeRegister);
              if amountToWithdraw <= end.cashInside {
                end.cashInside := end.cashInside - amountToWithdraw;
              }
              end.expectedPinHash := Waiting;
              end.keystrokeRegister := [];
            } else {
              end.keystrokeRegister := end.keystrokeRegister + [key];
            }
        }
    }
  }

  // ---------------------------------------------------------------------------
  // Runs of several actions

  predicate RunFits(hashKeys: seq<Key> -> u64, s: AtmState, actions: seq<Action>)
    decreases |actions|
  {
    actions == [] || (WithdrawFits(s, actions[0]) && RunFits(hashKeys, Step(hashKeys, s, actions[0]), actions[1..]))
  }

  /** The state after the actions, one `next_state` at a time. */
  function Run(hashKeys: seq<Key> -> u64, s: AtmState, actions: seq<Action>): AtmState
    requires RunFits(hashKeys, s, actions)
    decreases |actions|
  {
    if actions == [] then s else Run(hashKeys, Step(hashKeys, s, actions[0]), actions[1..])
  }

  function Presses(keys: seq<Key>): seq<Action> {
    if keys == [] then [] else [PressKey(keys[0])] + Presses(keys[1..])
  }

  // ---------------------------------------------------------------------------
  // Properties of single transitions

  /** Swiping while waiting starts authentication with the given hash; cash and register stay. */
  lemma SwipeWhileWaiting(hashKeys: seq<Key> -> u64, s: AtmState, pinHash: u64)
    requires s.expectedPinHash == Waiting
    ensures Step(hashKeys, s, SwipeCard(pinHash)) == AtmState(s.cashInside, Authenticating(pinHash), s.keystrokeRegister)
  {
  }

  /** Swiping in any other state, and pressing any key while waiting, change nothing. */
  lemma IgnoredActions(hashKeys: seq<Key> -> u64, s: AtmState, a: Action)
    requires (a.SwipeCard? && !s.expectedPinHash.Waiting?) || (a.PressKey? && s.expectedPinHash.Waiting?)
    ensures Step(hashKeys, s, a) == s
  {
  }

  /** A non-Enter key in a session appends exactly that key; nothing else changes. */
  lemma DigitKeyAppends(hashKeys: seq<Key> -> u64, s: AtmState, k: Key)
    requires k != Enter && !s.expectedPinHash.Waiting?
    ensures Step(hashKeys, s, PressKey(k)) == s.(keystrokeRegister := s.keystrokeRegister + [k])
  {
  }

  /** Enter while authenticating compares the register's hash, clears the register, keeps the cash. */
  lemma EnterWhileAuthenticating(hashKeys: seq<Key> -> u64, s: AtmState, expected: u64)
    requires s.expectedPinHash == Authenticating(expected)
    ensures var r := Step(hashKeys, s, PressKey(Enter));
      && r.expectedPinHash == (if hashKeys(s.keystrokeRegister) == expected then Authenticated else Waiting)
      && r.keystrokeRegister == [] && r.cashInside == s.cashInside
  {
  }

  /**
   * Enter while authenticated withdraws the decimal amount typed when the machine holds
   * that much, and otherwise nothing; either way the session ends.
   */
  lemma EnterWhileAuthenticated(hashKeys: seq<Key> -> u64, s: AtmState)
    requires s.expectedPinHash == Authenticated && WithdrawAmount(s.keystrokeRegister) <= U64_MAX
    ensures var amount := DecimalValue(Digits(s.keystrokeRegister));
      && WithdrawFits(s, PressKey(Enter))
      && Step(hashKeys, s, PressKey(Enter)) ==
         AtmState(if amount <= s.cashInside then s.cashInside - amount else s.cashInside, Waiting, [])
  {
    FoldIsDecimalValue(Digits(s.keystrokeRegister));
  }

  /** The cash inside never increases. */
  lemma CashNeverIncreases(hashKeys: seq<Key> -> u64, s: AtmState, a: Action)
    requires WithdrawFits(s, a)
    ensures Step(hashKeys, s, a).cashInside <= s.cashInside
  {
  }

  // ---------------------------------------------------------------------------
  // The withdrawal amount

  lemma {:induction false} DecimalValueAppend(digits: seq<nat>, d: nat)
    ensures DecimalValue(digits + [d]) == DecimalValue(digits) * 10 + d
    decreases |digits|
  {
    if digits == [] {
      assert [d][1..] == [];
    } else {
      assert (digits + [d])[1..] == digits[1..] + [d];
      DecimalValueAppend(digits[1..], d);
      assert Pow10(|digits|) == 10 * Pow10(|digits| - 1);
    }
  }

  /** The left fold of the source computes the positional decimal value of the digits. */
  lemma {:induction false} FoldIsDecimalValue(digits: seq<nat>)
    ensures FoldDecimal(digits) == DecimalValue(digits)
    decreases |digits|
  {
    if digits != [] {
      var init, last := digits[..|digits| - 1], digits[|digits| - 1];
      FoldIsDecimalValue(init);
      assert digits == init + [last];
      DecimalValueAppend(init, last);
    }
  }

  /** Every digit is one of 1..4, so the amount has no zero digit. */
  lemma {:induction false} DigitsInRange(register: seq<Key>)
    ensures forall i | 0 <= i < |Digits(register)| :: 1 <= Digits(register)[i] <= 4
    ensures |Digits(register)| <= |register|
    decreases |register|
  {
    if register != [] {
      DigitsInRange(register[..|register| - 1]);
    }
  }

  // ---------------------------------------------------------------------------
  // Whole sessions

  lemma {:induction false} RunAppend(hashKeys: seq<Key> -> u64, s: AtmState, xs: seq<Action>, ys: seq<Action>)
    requires RunFits(hashKeys, s, xs) && RunFits(hashKeys, Run(hashKeys, s, xs), ys)
    ensures RunFits(hashKeys, s, xs + ys)
    ensures Run(hashKeys, s, xs + ys) == Run(hashKeys, Run(hashKeys, s, xs), ys)
    decreases |xs|
  {
    if xs == [] {
      assert xs + ys == ys;
    } else {
      assert (xs + ys)[0] == xs[0];
      assert (xs + ys)[1..] == xs[1..] + ys;
      RunAppend(hashKeys, Step(hashKeys, s, xs[0]), xs[1..], ys);
    }
  }

  /** Typing keys without Enter during a session appends them to the register, in order. */
  lemma {:induction false} TypingAppends(hashKeys: seq<Key> -> u64, s: AtmState, keys: seq<Key>)
    requires !s.expectedPinHash.Waiting? && Enter !in keys
    ensures RunFits(hashKeys, s, Presses(keys))
    ensures Run(hashKeys, s, Presses(keys)) == s.(keystrokeRegister := s.keystrokeRegister + keys)
    decreases |keys|
  {
    if keys != [] {
      var s' := Step(hashKeys, s, PressKey(keys[0]));
      assert s' == s.(keystrokeRegister := s.keystrokeRegister + [keys[0]]);
      TypingAppends(hashKeys, s', keys[1..]);
      assert s.keystrokeRegister + [keys[0]] + keys[1..] == s.keystrokeRegister + keys;
    }
  }

  /**
   * A whole login: swipe while waiting, type a pin, press Enter. The machine is authenticated
   * exactly when the typed pin hashes to the swiped hash; the register ends empty.
   */
  lemma Login(hashKeys: seq<Key> -> u64, cash: u64, pinHash: u64, pin: seq<Key>)
    requires Enter !in pin
    ensures var actions := [SwipeCard(pinHash)] + Presses(pin) + [PressKey(Enter)];
      && RunFits(hashKeys, AtmState(cash, Waiting, []), actions)
      && Run(hashKeys, AtmState(cash, Waiting, []), actions)
         == AtmState(cash, if hashKeys(pin) == pinHash then Authenticated else Waiting, [])
  {
    var s0 := AtmState(cash, Waiting, []);
    var s1 := AtmState(cash, Authenticating(pinHash), []);
    assert Run(hashKeys, s0, [SwipeCard(pinHash)]) == s1;
    TypingAppends(hashKeys, s1, pin);
    assert [] + pin == pin;
    RunAppend(hashKeys, s0, [SwipeCard(pinHash)], Presses(pin));
    var s2 := AtmState(cash, Authenticating(pinHash), pin);
    assert Run(hashKeys, s2, [PressKey(Enter)]) == Step(hashKeys, s2, PressKey(Enter));
    RunAppend(hashKeys, s0, [SwipeCard(pinHash)] + Presses(pin), [PressKey(Enter)]);
  }

  /**
   * A whole withdrawal: once authenticated, typing an amount and pressing Enter pays out the
   * decimal value of the digits typed if the machine holds that much, and ends the session.
   */
  lemma Withdrawal(hashKeys: seq<Key> -> u64, cash: u64, keys: seq<Key>)
    requires Enter !in keys && DecimalValue(Digits(keys)) <= U64_MAX
    ensures var amount := DecimalValue(Digits(keys));
      var actions := Presses(keys) + [PressKey(Enter)];
      && RunFits(hashKeys, AtmState(cash, Authenticated, []), actions)
      && Run(hashKeys, AtmState(cash, Authenticated, []), actions)
         == AtmState(if amount <= cash then cash - amount else cash, Waiting, [])
  {
    var s0 := AtmState(cash, Authenticated, []);
    TypingAppends(hashKeys, s0, keys);
    assert [] + keys == keys;
    var s1 := AtmState(cash, Authenticated, keys);
    FoldIsDecimalValue(Digits(keys));
    assert Run(hashKeys, s1, [PressKey(Enter)]) == Step(hashKeys, s1, PressKey(Enter));
    RunAppend(hashKeys, s0, Presses(keys), [PressKey(Enter)]);
  }
}
