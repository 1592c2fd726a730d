/** The single-customer editor of the dashboard: "Update Points" adds a
    signed amount to the balance shown in the dialog, "Reset" zeroes the
    current balance. */
module PointsEditor {
  import opened Wrappers
  import opened JsParseInt
  import opened Backend

  /** What a handler ends in: it returns at once (no customer selected or an
      empty field), shows "Invalid Input", shows "Error" after a write that
      resolved with an error, dies with the rejected promise, or shows "Success". */
  datatype Status = Ignored | InvalidNumber | Failed | Aborted | Saved

  /** The part of an adjustment credited to the lifetime total: the adjustment
      when it is positive and nothing otherwise. */
  function Credit(delta: int): (c: nat)
    ensures c >= delta
    ensures c == 0 || c == delta
  {
    if delta > 0 then delta else 0
  }

  function WriteStatus(outcome: CallOutcome): (s: Status)
    ensures s == Saved <==> outcome == Done
  {
    match outcome
    case Done => Saved
    case Rejected => Failed
    case Thrown => Aborted
  }

  /** `handleUpdatePoints`: `editing` is the customer the dialog was opened on
      (a snapshot of the table, or none), `input` the text typed in the field
      and `outcome` the fate of the one write it issues. The new balance is
      computed from the snapshot, not re-read from the store. */
  function UpdatePoints(store: Store, editing: Option<CustomerData>, input: string, outcome: CallOutcome): (r: (Store, Status))
    ensures editing.None? || input == [] ==> r == (store, Ignored)
    ensures editing.Some? && input != [] && ParseInt(input).None? ==> r == (store, InvalidNumber)
    ensures r.1 == Saved <==> editing.Some? && ParseInt(input).Some? && outcome == Done
    ensures r.1 != Saved ==> r.0 == store
    ensures r.0.profiles == store.profiles
    ensures editing.Some? ==> AgreeExcept(store, r.0, editing.value.userId)
    ensures r.1 == Saved && editing.value.userId in store.balances ==>
      var c := editing.value;
      var d := ParseInt(input).value;
      r.0.balances[c.userId] == Balance(c.points + d, c.totalEarned + Credit(d))
  {
    if editing.None? || input == [] then (store, Ignored)
    else
      match ParseInt(input)
      case None => (store, InvalidNumber)
      case Some(d) => WriteAdjusted(store, editing.value, d, outcome)
  }

  /** The write of `handleUpdatePoints` once the amount is known: the
      snapshot's balance moved by `d`, the snapshot's total plus the credit. */
  function WriteAdjusted(store: Store, c: CustomerData, d: int, outcome: CallOutcome): (r: (Store, Status))
    ensures r.1 == WriteStatus(outcome)
    ensures r.1 != Saved ==> r.0 == store
    ensures r.0.profiles == store.profiles
    ensures AgreeExcept(store, r.0, c.userId)
    ensures r.1 == Saved && c.userId in store.balances ==>
      r.0.balances[c.userId] == Balance(c.points + d, c.totalEarned + Credit(d))
  {
    if outcome == Done then
      (SetBalance(store, c.userId, Balance(c.points + d, c.totalEarned + Credit(d))), Saved)
    else (store, WriteStatus(outcome))
  }

  /** `handleResetPoints`: one write that sets the current balance of the
      customer's row to 0 and does not mention the lifetime total. */
  function ResetPoints(store: Store, customer: CustomerData, outcome: CallOutcome): (r: (Store, Status))
    ensures r.1 == Saved <==> outcome == Done
    ensures outcome != Done ==> r.0 == store
    ensures r.0.profiles == store.profiles
    ensures AgreeExcept(store, r.0, customer.userId)
    ensures customer.userId in store.balances ==>
      r.0.balances[customer.userId].totalEarned == store.balances[customer.userId].totalEarned
    ensures outcome == Done && customer.userId in store.balances ==> r.0.balances[customer.userId].points == 0
  {
    if outcome == Done then (SetPoints(store, customer.userId, 0), Saved)
    else (store, WriteStatus(outcome))
  }

  /** From a current snapshot, a saved adjustment by `d` moves the stored
      balance by exactly `d` and the lifetime total by `d` when `d` is
      positive; a zero or negative `d` leaves the lifetime total as it was. */
  lemma AdjustFromCurrentSnapshot(store: Store, c: CustomerData, input: string, d: int)
    requires IsCurrent(store, c)
    requires ParseInt(input) == Some(d)
    ensures var r := UpdatePoints(store, Some(c), input, Done);
      && r.1 == Saved
      && r.0.balances[c.userId].points == store.balances[c.userId].points + d
      && r.0.balances[c.userId].totalEarned == store.balances[c.userId].totalEarned + Credit(d)
      && (d <= 0 ==> r.0.balances[c.userId].totalEarned == store.balances[c.userId].totalEarned)
  {
    assert input != [];
  }

  /** Whatever is typed and however the write ends, an adjustment made from a
      current snapshot never lowers the lifetime total. */
  lemma AdjustNeverLowersTotalEarned(store: Store, c: CustomerData, input: string, outcome: CallOutcome)
    requires IsCurrent(store, c)
    ensures var r := UpdatePoints(store, Some(c), input, outcome);
      c.userId in r.0.balances && r.0.balances[c.userId].totalEarned >= store.balances[c.userId].totalEarned
  {
  }

  /** The editor enforces no lower bound: from a current snapshot with a
      non-negative balance, subtracting one more than the balance leaves -1. */
  lemma AdjustHasNoLowerBound(store: Store, c: CustomerData)
    requires IsCurrent(store, c) && c.points >= 0
    ensures UpdatePoints(store, Some(c), IntToDecimal(-c.points - 1), Done).0.balances[c.userId].points == -1
  {
    ParseIntDecimal(-c.points - 1, []);
    assert IntToDecimal(-c.points - 1) + [] == IntToDecimal(-c.points - 1);
  }

  /** Two saves from the same snapshot: the second overwrites the first, so
      the first adjustment is lost, and the lifetime total it credited can
      fall back. */
  lemma StaleSnapshotLosesUpdate(store: Store, c: CustomerData, first: string, second: string, d1: int, d2: int)
    requires IsCurrent(store, c)
    requires ParseInt(first) == Some(d1) && ParseInt(second) == Some(d2)
    ensures var mid := UpdatePoints(store, Some(c), first, Done).0;
      var last := UpdatePoints(mid, Some(c), second, Done).0;
      && last.balances[c.userId] == Balance(c.points + d2, c.totalEarned + Credit(d2))
      && (d1 > 0 && d2 <= 0 ==> last.balances[c.userId].totalEarned < mid.balances[c.userId].totalEarned)
  {
    assert first != [] && second != [];
  }

  /** A reset leaves the customer with no current points and the same lifetime
      total; a second reset changes nothing more. */
  lemma ResetIdempotent(store: Store, c: CustomerData)
    ensures var once := ResetPoints(store, c, Done).0;
      ResetPoints(once, c, Done).0 == once
  {
    var once := ResetPoints(store, c, Done).0;
    if c.userId in store.balances {
      assert once.balances[c.userId].(points := 0) == once.balances[c.userId];
      assert once.balances[c.userId := once.balances[c.userId]] == once.balances;
    }
  }

  /** After a reset and a re-fetch, adding `d` leaves exactly `d` points,
      while the lifetime total keeps its pre-reset value plus the credit. */
  lemma ResetThenAdjust(store: Store, c: CustomerData, input: string, d: int)
    requires IsCurrent(store, c)
    requires ParseInt(input) == Some(d)
    ensures var reset := ResetPoints(store, c, Done).0;
      var view := CustomerView(reset, c.userId);
      && view.Some?
      && var r := UpdatePoints(reset, view, input, Done).0;
      && r.balances[c.userId].points == d
      && r.balances[c.userId].totalEarned == c.totalEarned + Credit(d)
  {
    var reset := ResetPoints(store, c, Done).0;
    AdjustFromCurrentSnapshot(reset, CustomerView(reset, c.userId).value, input, d);
  }
}
