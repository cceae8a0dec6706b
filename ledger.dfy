/**
 * The cumulative ledger of the money-splitting screen
 * (client/src/SplitAmountApp.js) and the distribute action that feeds it: payer -> receiver -> total amount handed out since
 * the last reset.  Recording an allocation only ever adds to it.
 */
module Ledger {
  import opened Wrappers
  import opened Participants
  import opened Allocator

  /** `history`: payer -> (receiver -> cumulative amount). */
  type History = map<string, map<string, real>>

  /** A receiver's amount in one payer's row, 0 when there is no entry. */
  function AmountIn(row: map<string, real>, person: string): real {
    if person in row then row[person] else 0.0
  }

  /** One payer's row, empty when the payer has none yet. */
  function Row(h: History, payer: string): map<string, real> {
    if payer in h then h[payer] else map[]
  }

  /** What `payer` has handed `receiver` so far. */
  function Owed(h: History, payer: string, receiver: string): real {
    AmountIn(Row(h, payer), receiver)
  }

  /** Lines 65-70: folds the shares into a row, receiver by receiver, an
      absent entry starting at 0.  No entry is lost and every receiver gets
      one (`MergeAdds`: the amounts, and no other keys). */
  function Merge(row: map<string, real>, receivers: seq<string>, shares: seq<real>): (r: map<string, real>)
    requires |receivers| == |shares|
    ensures row.Keys <= r.Keys
    ensures forall i :: 0 <= i < |receivers| ==> receivers[i] in r
    decreases |receivers|
  {
    if receivers == [] then row
    else
      var n := |receivers|;
      var m := Merge(row, receivers[..n - 1], shares[..n - 1]);
      m[receivers[n - 1] := AmountIn(m, receivers[n - 1]) + shares[n - 1]]
  }

  /** What an allocation gives `person`: the sum of the shares at the
      positions that name `person`. */
  function Credit(receivers: seq<string>, shares: seq<real>, person: string): real
    requires |receivers| == |shares|
    decreases |receivers|
  {
    if receivers == [] then 0.0
    else
      var n := |receivers|;
      Credit(receivers[..n - 1], shares[..n - 1], person) +
      (if receivers[n - 1] == person then shares[n - 1] else 0.0)
  }

  /** The merge is purely additive: every entry grows by what the allocation
      credits it, and the row gains exactly the receivers as new keys. */
  lemma {:induction false} MergeAdds(row: map<string, real>, receivers: seq<string>, shares: seq<real>, person: string)
    requires |receivers| == |shares|
    ensures AmountIn(Merge(row, receivers, shares), person) ==
            AmountIn(row, person) + Credit(receivers, shares, person)
    ensures person in Merge(row, receivers, shares) <==> person in row || person in receivers
    decreases |receivers|
  {
    if receivers != [] {
      var n := |receivers|;
      MergeAdds(row, receivers[..n - 1], shares[..n - 1], person);
      assert receivers == receivers[..n - 1] + [receivers[n - 1]];
    }
  }

  /** A person not among the receivers is credited nothing. */
  lemma {:induction false} CreditAbsent(receivers: seq<string>, shares: seq<real>, person: string)
    requires |receivers| == |shares| && person !in receivers
    ensures Credit(receivers, shares, person) == 0.0
    decreases |receivers|
  {
    if receivers != [] {
      var n := |receivers|;
      assert receivers[..n - 1] <= receivers;
      CreditAbsent(receivers[..n - 1], shares[..n - 1], person);
    }
  }

  /** With distinct receivers, each one is credited exactly its own share. */
  lemma {:induction false} CreditOwnShare(receivers: seq<string>, shares: seq<real>, k: nat)
    requires |receivers| == |shares| && NoDuplicates(receivers) && k < |receivers|
    ensures Credit(receivers, shares, receivers[k]) == shares[k]
    decreases |receivers|
  {
    var n := |receivers|;
    var front := receivers[..n - 1];
    if k == n - 1 {
      NotElsewhere(receivers, k);
      CreditAbsent(front, shares[..n - 1], receivers[k]);
    } else {
      assert front[k] == receivers[k];
      CreditOwnShare(front, shares[..n - 1], k);
    }
  }

  /** The ledger after `payer` records an allocation over `receivers`: the
      payer's row (empty when missing) is replaced by the merge, every other
      row is kept, and the payer's row keeps its entries and gains one for
      every receiver (`RecordedAdds`: no other keys). */
  function Recorded(h: History, payer: string, receivers: seq<string>, shares: seq<real>): (r: History)
    requires |receivers| == |shares|
    ensures forall p :: p in r <==> p in h || p == payer
    ensures forall p :: p in h && p != payer ==> r[p] == h[p]
    ensures Row(h, payer).Keys <= r[payer].Keys
    ensures forall i :: 0 <= i < |receivers| ==> receivers[i] in r[payer]
  {
    h[payer := Merge(Row(h, payer), receivers, shares)]
  }

  /** Recording is additive: every (payer, receiver) amount grows by the
      allocation's credit for it, nothing else changes, and the payer and
      the receivers become keys. */
  lemma RecordedAdds(h: History, payer: string, receivers: seq<string>, shares: seq<real>, p: string, r: string)
    requires |receivers| == |shares|
    ensures var h' := Recorded(h, payer, receivers, shares);
            Owed(h', p, r) == Owed(h, p, r) + (if p == payer then Credit(receivers, shares, r) else 0.0)
    ensures var h' := Recorded(h, payer, receivers, shares);
            (p in h' <==> p in h || p == payer) &&
            (p != payer && p in h ==> h'[p] == h[p]) &&
            (r in Row(h', payer) <==> r in Row(h, payer) || r in receivers)
  {
    MergeAdds(Row(h, payer), receivers, shares, r);
  }

  /** With distinct receivers, each receiver's cumulative amount from the
      payer grows by exactly its share, and the payer's own entry does not
      move. */
  lemma RecordedShares(h: History, payer: string, receivers: seq<string>, shares: seq<real>, k: nat)
    requires |receivers| == |shares| && NoDuplicates(receivers) && k < |receivers|
    ensures Owed(Recorded(h, payer, receivers, shares), payer, receivers[k]) ==
            Owed(h, payer, receivers[k]) + shares[k]
  {
    RecordedAdds(h, payer, receivers, shares, payer, receivers[k]);
    CreditOwnShare(receivers, shares, k);
  }

  /** Recording [(A, 30), (B, 70)] twice for payer P adds 60 to what P
      owed A and 140 to what P owed B (so 60 and 140 from an empty ledger). */
  lemma RecordTwiceExample(h: History)
    ensures var once := Recorded(h, "P", ["A", "B"], [30.0, 70.0]);
            var twice := Recorded(once, "P", ["A", "B"], [30.0, 70.0]);
            Owed(twice, "P", "A") == Owed(h, "P", "A") + 60.0 &&
            Owed(twice, "P", "B") == Owed(h, "P", "B") + 140.0
  {
    var rs, ss := ["A", "B"], [30.0, 70.0];
    var once := Recorded(h, "P", rs, ss);
    assert NoDuplicates(rs);
    RecordedShares(h, "P", rs, ss, 0);
    RecordedShares(h, "P", rs, ss, 1);
    RecordedShares(once, "P", rs, ss, 0);
    RecordedShares(once, "P", rs, ss, 1);
  }

  /** One recorded distribution. */
  datatype Entry = Entry(payer: string, receivers: seq<string>, shares: seq<real>)

  predicate WellFormed(es: seq<Entry>) {
    forall i :: 0 <= i < |es| ==> |es[i].receivers| == |es[i].shares|
  }

  /** The ledger after recording `es` in order, starting from `h`. */
  function Replay(h: History, es: seq<Entry>): History
    requires WellFormed(es)
    decreases |es|
  {
    if es == [] then h
    else
      var last := es[|es| - 1];
      Recorded(Replay(h, es[..|es| - 1]), last.payer, last.receivers, last.shares)
  }

  /** The total `payer` has handed `receiver` over all of `es`. */
  function Paid(es: seq<Entry>, payer: string, receiver: string): real
    requires WellFormed(es)
    decreases |es|
  {
    if es == [] then 0.0
    else
      var last := es[|es| - 1];
      Paid(es[..|es| - 1], payer, receiver) +
      (if last.payer == payer then Credit(last.receivers, last.shares, receiver) else 0.0)
  }

  /** The ledger invariant: starting from the empty ledger (after a reset),
      every cumulative amount is the sum of all shares recorded for that
      (payer, receiver) pair. */
  lemma {:induction false} ReplayOwed(h: History, es: seq<Entry>, payer: string, receiver: string)
    requires WellFormed(es)
    ensures Owed(Replay(h, es), payer, receiver) == Owed(h, payer, receiver) + Paid(es, payer, receiver)
    decreases |es|
  {
    if es != [] {
      var last := es[|es| - 1];
      ReplayOwed(h, es[..|es| - 1], payer, receiver);
      RecordedAdds(Replay(h, es[..|es| - 1]), last.payer, last.receivers, last.shares, payer, receiver);
    }
  }

  /** Why a distribution was refused. */
  datatype Rejection =
    | MissingInput   // amount, payer or percentage left empty (lines 31-34)
    | NoReceivers    // nobody but the payer to give to (lines 40-43)

  /** A distribution that passed the guard. */
  datatype Request = Request(payer: string, total: real, percentage: real, receivers: seq<string>)

  /** The guard of `distributeMoney`.  `None` is an empty text field and ""
      the payer selector's placeholder. */
  function Validate(amount: Option<real>, payer: string, percentage: Option<real>,
                    participants: seq<string>): (r: Result<Request, Rejection>)
    ensures r == Failure(MissingInput) <==> amount == None || payer == "" || percentage == None
    ensures r == Failure(NoReceivers) <==>
              amount != None && payer != "" && percentage != None &&
              forall i :: 0 <= i < |participants| ==> participants[i] == payer
    ensures r.Success? ==>
              r.value == Request(payer, amount.value, percentage.value, Without(participants, payer)) &&
              |r.value.receivers| >= 1 && payer !in r.value.receivers
  {
    if amount.None? || payer == "" || percentage.None? then Failure(MissingInput)
    else
      var receivers := Without(participants, payer);
      WithoutEmpty(participants, payer);
      if |receivers| < 1 then Failure(NoReceivers)
      else Success(Request(payer, amount.value, percentage.value, receivers))
  }

  /** A distribution over a duplicate-free roster credits every receiver
      exactly its allocated share from the payer and changes no other entry
      of the payer's row and no other payer's row. */
  lemma DistributionCredits(h: History, participants: seq<string>, req: Request, shares: seq<real>, k: nat)
    requires NoDuplicates(participants) && |shares| == |req.receivers|
    requires Validate(Some(req.total), req.payer, Some(req.percentage), participants) == Success(req)
    requires k < |req.receivers|
    ensures var h' := Recorded(h, req.payer, req.receivers, shares);
            Owed(h', req.payer, req.receivers[k]) == Owed(h, req.payer, req.receivers[k]) + shares[k] &&
            Owed(h', req.payer, req.payer) == Owed(h, req.payer, req.payer)
    ensures var h' := Recorded(h, req.payer, req.receivers, shares);
            forall p, r :: p != req.payer || r !in req.receivers ==> Owed(h', p, r) == Owed(h, p, r)
    ensures var h' := Recorded(h, req.payer, req.receivers, shares);
            forall p :: p in h && p != req.payer ==> p in h' && h'[p] == h[p]
  {
    WithoutNoDuplicates(participants, req.payer);
    RecordedShares(h, req.payer, req.receivers, shares, k);
    RecordedAdds(h, req.payer, req.receivers, shares, req.payer, req.payer);
    CreditAbsent(req.receivers, shares, req.payer);
    forall p, r | p != req.payer || r !in req.receivers
      ensures Owed(Recorded(h, req.payer, req.receivers, shares), p, r) == Owed(h, p, r)
    {
      RecordedAdds(h, req.payer, req.receivers, shares, p, r);
      if p == req.payer {
        CreditAbsent(req.receivers, shares, r);
      }
    }
  }

  /** The component's ledger state. */
  class MoneySplit {
    var history: History

    /** Lines 10-17: the ledger starts from the stored one, or empty when
        nothing is stored. */
    constructor Load(stored: Option<History>)
      ensures history == if stored.Some? then stored.value else map[]
    {
      history := if stored.Some? then stored.value else map[];
    }

    /** Lines 60-72: merges `shares` into the payer's row of a copy of the
        ledger, then installs the copy. */
    method Record(payer: string, receivers: seq<string>, shares: seq<real>)
      requires |receivers| == |shares|
      modifies this
      ensures history == Recorded(old(history), payer, receivers, shares)
    {
      var updated := history;
      if payer !in updated {
        updated := updated[payer := map[]];
      }
      for i := 0 to |receivers|
        invariant updated == old(history)[payer := Merge(Row(old(history), payer), receivers[..i], shares[..i])]
      {
        ghost var before := Merge(Row(old(history), payer), receivers[..i], shares[..i]);
        var person := receivers[i];
        var row := updated[payer];
        assert row == before;
        if person !in row {
          row := row[person := 0.0];
        }
        assert row[person] == AmountIn(before, person);
        assert receivers[..i + 1][..i] == receivers[..i];
        assert shares[..i + 1][..i] == shares[..i];
        assert Merge(Row(old(history), payer), receivers[..i + 1], shares[..i + 1]) ==
               before[person := AmountIn(before, person) + shares[i]];
        assert row[person := row[person] + shares[i]] == before[person := AmountIn(before, person) + shares[i]];
        updated := updated[payer := row[person := row[person] + shares[i]]];
      }
      assert receivers[..|receivers|] == receivers && shares[..|shares|] == shares;
      history := updated;
    }

    /** `distributeMoney`: refuses without touching the ledger when the
        guard fails; otherwise allocates the total over everyone but the
        payer, `draw` standing for `Math.random()`, and records it. */
    method DistributeMoney(participants: seq<string>, payer: string, amount: Option<real>,
                           percentage: Option<real>, draw: real)
      returns (outcome: Result<Request, Rejection>)
      requires 0.0 <= draw < 1.0
      modifies this
      ensures outcome == Validate(amount, payer, percentage, participants)
      ensures outcome.Failure? ==> history == old(history)
      ensures outcome.Success? ==>
                var req := outcome.value;
                var n := |req.receivers|;
                history == Recorded(old(history), payer, req.receivers,
                                    Allocation(req.total, req.percentage, n, FavouredIndex(draw, n)))
    {
      outcome := Validate(amount, payer, percentage, participants);
      if outcome.Failure? {
        return;
      }
      var req := outcome.value;
      var shares := Allocate(req.total, req.percentage, |req.receivers|, draw);
      Record(payer, req.receivers, shares);
    }

    /** `clearHistory`: empties the ledger once the user confirms. */
    method ClearHistory(confirmed: bool)
      modifies this
      ensures history == if confirmed then map[] else old(history)
    {
      if confirmed {
        history := map[];
      }
    }
  }
}
