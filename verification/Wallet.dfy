/** The prepaid wallet: balances and reservations, and the ledger they form together. */
module Wallet {
  import opened Wrappers

  type CallerId = string
  type WorkId = string

  /** A wallet call may throw before or after it took effect. */
  datatype Fault = NoFault | ThrowsBefore | ThrowsAfter

  datatype HoldState = Open | Committed | Refunded

  datatype Reservation = Reservation(callerId: CallerId, cents: nat, state: HoldState)

  datatype BalanceInsufficient = BalanceInsufficient(balance: int, needed: nat)

  datatype Ledger = Ledger(balances: map<CallerId, int>, reservations: map<WorkId, Reservation>)

  function Balance(l: Ledger, c: CallerId): int {
    if c in l.balances then l.balances[c] else 0
  }

  predicate IsOpen(l: Ledger, id: WorkId) {
    id in l.reservations && l.reservations[id].state == Open
  }

  // ----------------------------------------------------------------------------------------------
  // The operations
  // ----------------------------------------------------------------------------------------------

  function Reserve(l: Ledger, c: CallerId, id: WorkId, cents: nat): Result<Ledger, BalanceInsufficient> {
    var balance := Balance(l, c);
    if balance < cents then Err(BalanceInsufficient(balance, cents))
    else Ok(Ledger(l.balances[c := balance - cents], l.reservations[id := Reservation(c, cents, Open)]))
  }

  /** Charges what was billed, at most what was held; gives the rest back. No-op unless the hold is open. */
  function Commit(l: Ledger, id: WorkId, billed: nat): Ledger {
    if !IsOpen(l, id) then l
    else
      var r := l.reservations[id];
      Ledger(if r.cents > billed then l.balances[r.callerId := Balance(l, r.callerId) + (r.cents - billed)]
             else l.balances,
             l.reservations[id := r.(state := Committed)])
  }

  /** Gives the whole hold back. No-op unless the hold is open. */
  function Refund(l: Ledger, id: WorkId): Ledger {
    if !IsOpen(l, id) then l
    else
      var r := l.reservations[id];
      Ledger(l.balances[r.callerId := Balance(l, r.callerId) + r.cents],
             l.reservations[id := r.(state := Refunded)])
  }

  /** A reservation succeeds exactly if the balance covers it; then it takes the amount from that balance alone and
      opens that hold alone. If it fails, the error tells the balance and what was needed. */
  lemma ReserveExactly(l: Ledger, c: CallerId, id: WorkId, cents: nat)
    ensures var r := Reserve(l, c, id, cents);
      && (r.Ok? <==> cents <= Balance(l, c))
      && (r.Err? ==> r.error == BalanceInsufficient(Balance(l, c), cents))
      && (r.Ok? ==>
            && Balance(r.value, c) == Balance(l, c) - cents
            && (forall other | other != c :: Balance(r.value, other) == Balance(l, other))
            && id in r.value.reservations && r.value.reservations[id] == Reservation(c, cents, Open)
            && SameElsewhere(l, r.value, id))
  {
  }

  ghost predicate SameElsewhere(l: Ledger, l': Ledger, id: WorkId) {
    forall other | other != id ::
      (other in l.reservations <==> other in l'.reservations)
      && (other in l.reservations ==> l'.reservations[other] == l.reservations[other])
  }

  /** Settling an open hold closes it for good: whatever is asked of it afterwards changes nothing. */
  lemma SettlesOnce(l: Ledger, id: WorkId, billed: nat)
    requires IsOpen(l, id)
    ensures Commit(l, id, billed).reservations[id].state == Committed
    ensures Refund(l, id).reservations[id].state == Refunded
    ensures SameElsewhere(l, Commit(l, id, billed), id) && SameElsewhere(l, Refund(l, id), id)
    ensures var committed := Commit(l, id, billed);
      Refund(committed, id) == committed && forall again: nat :: Commit(committed, id, again) == committed
    ensures var refunded := Refund(l, id);
      Refund(refunded, id) == refunded && forall again: nat :: Commit(refunded, id, again) == refunded
  {
  }

  class PrepaidWallet {
    var balances: map<CallerId, int>
    var reservations: map<WorkId, Reservation>

    constructor ()
      ensures Contents() == Ledger(map[], map[])
    {
      balances, reservations := map[], map[];
    }

    function Contents(): Ledger
      reads this
    {
      Ledger(balances, reservations)
    }

    method SeedBalance(callerId: CallerId, cents: int)
      modifies this
      ensures Contents() == old(Contents()).(balances := old(balances)[callerId := cents])
    {
      balances := balances[callerId := cents];
    }

    method DoReserve(callerId: CallerId, workId: WorkId, cents: nat) returns (r: Result<WorkId, BalanceInsufficient>)
      modifies this
      ensures var after := Reserve(old(Contents()), callerId, workId, cents);
        && (after.Ok? ==> r == Ok(workId) && Contents() == after.value)
        && (after.Err? ==> r == Err(after.error) && Contents() == old(Contents()))
    {
      var balance := if callerId in balances then balances[callerId] else 0;
      if balance < cents {
        return Err(BalanceInsufficient(balance, cents));
      }
      balances := balances[callerId := balance - cents];
      reservations := reservations[workId := Reservation(callerId, cents, Open)];
      return Ok(workId);
    }

    method DoCommit(id: WorkId, billed: nat)
      modifies this
      ensures Contents() == Commit(old(Contents()), id, billed)
    {
      if id !in reservations || reservations[id].state != Open {
        return;
      }
      var r := reservations[id];
      var refundCents := r.cents - billed;
      if refundCents > 0 {
        var balance := if r.callerId in balances then balances[r.callerId] else 0;
        balances := balances[r.callerId := balance + refundCents];
      }
      reservations := reservations[id := r.(state := Committed)];
    }

    method DoRefund(id: WorkId)
      modifies this
      ensures Contents() == Refund(old(Contents()), id)
    {
      if id !in reservations || reservations[id].state != Open {
        return;
      }
      var r := reservations[id];
      var balance := if r.callerId in balances then balances[r.callerId] else 0;
      balances := balances[r.callerId := balance + r.cents];
      reservations := reservations[id := r.(state := Refunded)];
    }
  }

  // ----------------------------------------------------------------------------------------------
  // Open holds
  // ----------------------------------------------------------------------------------------------

  function OpenAmount(r: Reservation, c: CallerId): nat {
    if r.state == Open && r.callerId == c then r.cents else 0
  }

  /** The sum of a caller's open holds. */
  ghost function OpenHolds(m: map<WorkId, Reservation>, c: CallerId): nat
    decreases |m|
  {
    if m == map[] then 0
    else
      var id :| id in m;
      OpenAmount(m[id], c) + OpenHolds(m - {id}, c)
  }

  lemma {:induction false} OpenHoldsSplit(m: map<WorkId, Reservation>, c: CallerId, id: WorkId)
    requires id in m
    ensures OpenHolds(m, c) == OpenAmount(m[id], c) + OpenHolds(m - {id}, c)
    decreases |m|
  {
    var other :| other in m && OpenHolds(m, c) == OpenAmount(m[other], c) + OpenHolds(m - {other}, c);
    if other != id {
      OpenHoldsSplit(m - {other}, c, id);
      OpenHoldsSplit(m - {id}, c, other);
      assert m - {other} - {id} == m - {id} - {other};
    }
  }

  /** Replacing one reservation changes the sum by the difference of the two. */
  lemma OpenHoldsUpdate(m: map<WorkId, Reservation>, c: CallerId, id: WorkId, r: Reservation)
    ensures OpenHolds(m[id := r], c)
      == OpenHolds(m, c) - (if id in m then OpenAmount(m[id], c) else 0) + OpenAmount(r, c)
  {
    OpenHoldsSplit(m[id := r], c, id);
    assert m[id := r] - {id} == m - {id};
    if id in m {
      OpenHoldsSplit(m, c, id);
    } else {
      assert m - {id} == m;
    }
  }

  /** What a caller owns: the balance and the open holds. */
  ghost function Worth(l: Ledger, c: CallerId): int {
    Balance(l, c) + OpenHolds(l.reservations, c)
  }

  /** What a commit charges a caller. */
  function Charge(l: Ledger, id: WorkId, billed: nat, c: CallerId): nat {
    if IsOpen(l, id) && l.reservations[id].callerId == c then
      if l.reservations[id].cents <= billed then l.reservations[id].cents else billed
    else 0
  }

  /** Reserving keeps a caller's worth exactly when the work id does not overwrite an open hold of theirs. */
  lemma ReserveKeepsWorth(l: Ledger, caller: CallerId, id: WorkId, cents: nat, c: CallerId)
    requires Reserve(l, caller, id, cents).Ok?
    ensures Worth(Reserve(l, caller, id, cents).value, c) == Worth(l, c)
      <==> !(id in l.reservations && OpenAmount(l.reservations[id], c) > 0)
  {
    OpenHoldsUpdate(l.reservations, c, id, Reservation(caller, cents, Open));
  }

  lemma CommitChargesExactly(l: Ledger, id: WorkId, billed: nat, c: CallerId)
    ensures Worth(Commit(l, id, billed), c) == Worth(l, c) - Charge(l, id, billed, c)
  {
    if IsOpen(l, id) {
      OpenHoldsUpdate(l.reservations, c, id, l.reservations[id].(state := Committed));
    }
  }

  lemma RefundKeepsWorth(l: Ledger, id: WorkId, c: CallerId)
    ensures Worth(Refund(l, id), c) == Worth(l, c)
  {
    if IsOpen(l, id) {
      OpenHoldsUpdate(l.reservations, c, id, l.reservations[id].(state := Refunded));
    }
  }

  /** A reservation and its refund leave every balance as it was. */
  lemma RefundUndoesReserve(l: Ledger, caller: CallerId, id: WorkId, cents: nat, c: CallerId)
    requires Reserve(l, caller, id, cents).Ok?
    ensures Balance(Refund(Reserve(l, caller, id, cents).value, id), c) == Balance(l, c)
  {
  }

  // ----------------------------------------------------------------------------------------------
  // Any sequence of operations
  // ----------------------------------------------------------------------------------------------

  datatype Op =
    | ReserveOp(callerId: CallerId, workId: WorkId, cents: nat)
    | CommitOp(workId: WorkId, billed: nat)
    | RefundOp(workId: WorkId)

  /** A reservation that is turned down leaves the ledger alone. */
  function Perform(l: Ledger, op: Op): Ledger {
    match op
    case ReserveOp(c, id, cents) => var r := Reserve(l, c, id, cents); if r.Ok? then r.value else l
    case CommitOp(id, billed) => Commit(l, id, billed)
    case RefundOp(id) => Refund(l, id)
  }

  function ChargeOf(l: Ledger, op: Op, c: CallerId): nat {
    if op.CommitOp? then Charge(l, op.workId, op.billed, c) else 0
  }

  function RunOps(l: Ledger, ops: seq<Op>): Ledger
    decreases ops
  {
    if ops == [] then l else RunOps(Perform(l, ops[0]), ops[1..])
  }

  /** The sum of min(reserved, billed) over the commits that took effect. */
  function Charged(l: Ledger, ops: seq<Op>, c: CallerId): nat
    decreases ops
  {
    if ops == [] then 0 else ChargeOf(l, ops[0], c) + Charged(Perform(l, ops[0]), ops[1..], c)
  }

  /** No work id is reserved twice. */
  ghost predicate FreshIds(l: Ledger, ops: seq<Op>)
    decreases ops
  {
    ops != [] ==>
      && (ops[0].ReserveOp? ==> ops[0].workId !in l.reservations)
      && FreshIds(Perform(l, ops[0]), ops[1..])
  }

  lemma PerformConserves(l: Ledger, op: Op, c: CallerId)
    requires op.ReserveOp? ==> op.workId !in l.reservations
    ensures Worth(Perform(l, op), c) + ChargeOf(l, op, c) == Worth(l, c)
    ensures Balance(l, c) >= 0 ==> Balance(Perform(l, op), c) >= 0
  {
    match op
    case ReserveOp(caller, id, cents) =>
      if Reserve(l, caller, id, cents).Ok? {
        ReserveKeepsWorth(l, caller, id, cents, c);
      }
    case CommitOp(id, billed) => CommitChargesExactly(l, id, billed, c);
    case RefundOp(id) => RefundKeepsWorth(l, id, c);
  }

  /** Conservation: over every sequence of operations, balance, open holds and charges add up to the seed. */
  lemma {:induction false} LedgerConserved(l: Ledger, ops: seq<Op>, c: CallerId)
    requires FreshIds(l, ops)
    ensures Worth(RunOps(l, ops), c) + Charged(l, ops, c) == Worth(l, c)
    ensures Balance(l, c) >= 0 ==> Balance(RunOps(l, ops), c) >= 0
    decreases ops
  {
    hide Perform, ChargeOf, Worth;
    if ops != [] {
      PerformConserves(l, ops[0], c);
      LedgerConserved(Perform(l, ops[0]), ops[1..], c);
    }
  }
}
