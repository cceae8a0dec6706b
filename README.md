# n_bbang money splitter — a Dafny model of the distribution core

The application lets a group record who handed money to whom. One
participant pays an amount. A randomly drawn receiver (the "favoured" one)
gets a configurable percentage of it, rounded to a whole unit. Everyone else
except the payer gets the same whole-unit share of the rest. Rounding
left-overs go to the favoured receiver, so the shares add up to the amount.
Each distribution is added to a running ledger, payer -> receiver -> amount.
The ledger can be reset.

All of this lives in `client/src/SplitAmountApp.js`. The model has four modules:

- `Participants` (participants.dfy): `Trim`, `Add` (addParticipant) and
  `Without` (the `filter` that both removeParticipant and the receiver
  list use), as pure functions. They come with the roster invariant: names
  are unique, trimmed and non-empty, in insertion order.
- `Allocator` (allocator.dfy): `Math.round` and `Math.floor` on exact reals,
  the favoured-index draw, the specification function `Allocation`, and the
  imperative `Allocate`. `Allocate` fills an array in a loop, sums it with a
  second loop (`SumOf`, the `reduce`) and tops up the favoured slot. Its
  result is proved equal to `Allocation`, which is proved to sum to the
  total.
- `Ledger` (ledger.dfy): the two-level map `History` and the additive merge
  `Merge`/`Recorded`. It also holds the guard `Validate` and the class
  `MoneySplit`, whose field `history` is updated in place by `Record`,
  `DistributeMoney` and `ClearHistory`.
- `Wrappers` (wrappers.dfy): `Option` and `Result`.

Modelling choices:

- Amounts and percentages are exact `real`s. `Math.round(x)` is
  `Floor(x + 0.5)`, so ties go towards positive infinity, as JavaScript does.
- `Math.random()` is the parameter `draw`, with `0 <= draw < 1`.
- An empty text field is `None`. A payer of `""` is the selector's
  placeholder option.
- The code uses `Math.round` (ties toward +∞) and never checks the sign of
  the amount; the model follows the code.

## Model

| member | source | states |
|---|---|---|
| `Participants.TrimStart` | client/src/SplitAmountApp.js:20 | the result is a suffix of the input, everything dropped is white space, and it does not start with white space |
| `Participants.TrimEnd` | client/src/SplitAmountApp.js:20 | the result is a prefix of the input, everything dropped is white space, and it does not end with white space |
| `Participants.Trim` | client/src/SplitAmountApp.js:20 | the trimmed name is the stretch of the name that starts where the leading white space ends and everything after it is white space; it neither starts nor ends with white space, and it is empty exactly when the name is blank |
| `Participants.TrimIdempotent` | client/src/SplitAmountApp.js:20-21 | trimming an already trimmed name changes nothing, so the stored names are fixed points of `trim` |
| `Participants.Add` | client/src/SplitAmountApp.js:19-24 | the old list is kept as a prefix, and the list grows by one exactly when the trimmed name is non-empty and absent; the new last entry is then the trimmed name |
| `Participants.AddKeepsRoster` | client/src/SplitAmountApp.js:19-24 | adding keeps the list duplicate-free, with every name trimmed and non-empty |
| `Participants.Without` | client/src/SplitAmountApp.js:26-28 | a name is in the result exactly when it is in the list and is not the removed one; the list never grows |
| `Participants.WithoutConcat` | client/src/SplitAmountApp.js:27 | filtering distributes over concatenation, so the kept entries stay in their relative order |
| `Participants.WithoutAbsent` | client/src/SplitAmountApp.js:27 | removing a name that is not listed returns the list unchanged |
| `Participants.WithoutExactly` | client/src/SplitAmountApp.js:26-28 | on a duplicate-free list, removing the name at position k gives exactly the list with slot k cut out |
| `Participants.WithoutNoDuplicates` | client/src/SplitAmountApp.js:27 | removing keeps the list duplicate-free |
| `Participants.WithoutKeepsRoster` | client/src/SplitAmountApp.js:26-28 | removing keeps the list duplicate-free, with every name trimmed and non-empty |
| `Participants.AddThenRemove` | client/src/SplitAmountApp.js:19-28 | adding a new name and then removing it gives back the original list |
| `Participants.WithoutEmpty` | client/src/SplitAmountApp.js:38-40 | the receiver list is empty exactly when every participant is the payer |
| `Participants.NoReceiversIff` | client/src/SplitAmountApp.js:38-43 | on a duplicate-free roster there are no receivers exactly when the roster is empty or holds only the payer |
| `Allocator.Floor` | client/src/SplitAmountApp.js:52 | `Math.floor` gives a whole number r with r <= x < r + 1 |
| `Allocator.Round` | client/src/SplitAmountApp.js:48 | `Math.round` gives a whole number within half a unit of x, a tie going up |
| `Allocator.SumFront` | client/src/SplitAmountApp.js:58 | `Sum`, the left-to-right `reduce`, gives the same total as adding from the front: the first share plus the sum of the rest |
| `Allocator.FavouredShare` | client/src/SplitAmountApp.js:48 | `Math.round(total * percentage / 100)`: a whole number within half a unit of the exact percentage of the total |
| `Allocator.SplitRest` | client/src/SplitAmountApp.js:52 | the rest split n - 1 ways and rounded down: a whole number r with r <= rest / (n - 1) < r + 1 |
| `Allocator.SumOf` | client/src/SplitAmountApp.js:58 | the `reduce` loop returns the sum of the array |
| `Allocator.FavouredIndex` | client/src/SplitAmountApp.js:45 | the drawn index lies in [0, n) |
| `Allocator.FavouredIndexInterval` | client/src/SplitAmountApp.js:45 | index k is chosen exactly when the draw lies in [k/n, (k+1)/n), an interval of width 1/n for every receiver |
| `Allocator.EqualShare` | client/src/SplitAmountApp.js:52 | the non-favoured share is a whole number |
| `Allocator.EqualShareBounds` | client/src/SplitAmountApp.js:50-52 | the non-favoured share is the floor of (total - favoured share) / (n - 1) |
| `Allocator.Allocation` | client/src/SplitAmountApp.js:47 | the allocation has one entry per receiver |
| `Allocator.AllocationSum` | client/src/SplitAmountApp.js:58 | the allocation sums exactly to the total |
| `Allocator.AllocationShares` | client/src/SplitAmountApp.js:48-58 | with n > 1, every non-favoured receiver gets the same whole equal share, and the favoured one gets the rounded percentage plus a residual r with 0 <= r < n - 1 |
| `Allocator.AllocationSingleton` | client/src/SplitAmountApp.js:52-58 | a single receiver gets the whole total, whatever the percentage |
| `Allocator.AllocationUnique` | client/src/SplitAmountApp.js:53-58 | the allocation is the only sequence of n amounts that gives every non-favoured receiver the equal share and sums to the total |
| `Allocator.TwoReceiverExample` | client/src/SplitAmountApp.js:45-58 | 100 paid at 70 percent over two receivers gives 70 to the favoured one and 30 to the other, whichever is drawn |
| `Allocator.TopUp` | client/src/SplitAmountApp.js:58 | adding the array's shortfall to the favoured slot makes that slot total - (n - 1) x share |
| `Allocator.Allocate` | client/src/SplitAmountApp.js:45-58 | the array built in place equals `Allocation` for the drawn index and sums to the total |
| `Ledger.Merge` | client/src/SplitAmountApp.js:65-70 | folds the shares into the payer's row left to right, an absent entry starting at 0; no existing entry is lost and every receiver gets an entry |
| `Ledger.Recorded` | client/src/SplitAmountApp.js:60-70 | the payer's row, created empty when missing, is replaced by the merge; the payer becomes a key, every other row is kept, and the payer's row keeps its entries and gains every receiver |
| `Ledger.MergeAdds` | client/src/SplitAmountApp.js:65-70 | after the merge, each receiver's amount is the old amount (0 if absent) plus everything the allocation credits it, and the row's keys are the old keys plus the receivers |
| `Ledger.CreditAbsent` | client/src/SplitAmountApp.js:65-70 | a person who is not a receiver is credited nothing |
| `Ledger.CreditOwnShare` | client/src/SplitAmountApp.js:65-70 | with distinct receivers, receiver k is credited exactly share k |
| `Ledger.RecordedAdds` | client/src/SplitAmountApp.js:60-70 | recording adds the credit to the payer's entries and changes nothing else; other payers' rows are untouched, and the payer and the receivers become keys |
| `Ledger.RecordedShares` | client/src/SplitAmountApp.js:65-70 | with distinct receivers, each one's cumulative amount from the payer grows by exactly its share |
| `Ledger.RecordTwiceExample` | client/src/SplitAmountApp.js:60-70 | recording [(A,30),(B,70)] twice for P adds 60 to P's entry for A and 140 to P's entry for B |
| `Ledger.ReplayOwed` | client/src/SplitAmountApp.js:60-72 | after any sequence of distributions, each (payer, receiver) amount is the starting amount plus all shares recorded for that pair |
| `Ledger.Validate` | client/src/SplitAmountApp.js:31-43 | refuses with MissingInput exactly when amount, payer or percentage is empty. Refuses with NoReceivers exactly when the inputs are present but every participant is the payer. Otherwise the request holds the parsed inputs and the participants minus the payer, a non-empty list without the payer |
| `Ledger.DistributionCredits` | client/src/SplitAmountApp.js:36-70 | for an accepted distribution over a duplicate-free roster, every receiver is credited its own share, and every other amount (the payer's entry for themself, non-receivers, other payers' rows) does not move |
| `Ledger.MoneySplit.Load` | client/src/SplitAmountApp.js:10-17 | the ledger starts as the stored one, or empty when nothing is stored |
| `Ledger.MoneySplit.Record` | client/src/SplitAmountApp.js:60-72 | the merge loop leaves `history` equal to `Recorded` of the old ledger |
| `Ledger.MoneySplit.DistributeMoney` | client/src/SplitAmountApp.js:30-76 | the outcome is the guard's verdict. On a refusal the ledger is unchanged. Otherwise the ledger is the old one with the allocation for the drawn index recorded against the payer |
| `Ledger.MoneySplit.ClearHistory` | client/src/SplitAmountApp.js:78-83 | after a confirmed reset the ledger is empty; without confirmation it is unchanged |

## Left out

- React rendering, JSX and the `useState`/`useEffect` plumbing (lines 85-137). They are presentation.
- Clearing the name, amount and percentage input fields after an action (lines 22, 74-75). That is input-field state, not part of the ledger or the roster.
- `localStorage` reads and writes and the `JSON.parse`/`JSON.stringify` round trip (lines 13-15, 73, 80). This is I/O in foreign code. `MoneySplit.Load` takes the already parsed stored ledger as an `Option`, and the save/load round trip is not modelled.
- `parseFloat` and its `|| 0` fallback (lines 36-37). Callers pass already parsed reals. A non-empty field that does not parse stands for `Some(0.0)`.
- `alert` and `window.confirm` (lines 32, 41, 79). The refusal is the returned `Rejection`, and the confirmation is the `confirmed` parameter.
- `toFixed(2)` display formatting (line 131). This is presentation.
- IEEE-754 doubles. Amounts are exact reals, so the sum invariant holds exactly, where doubles only approximate it. The division by zero at line 52 for a single receiver yields `Infinity` or `NaN` in JavaScript; that value is never stored, and the model uses 0 in its place.
- `Math.random` itself. It is replaced by the `draw` parameter in [0, 1).
- Aliasing in the ledger update: `{ ...history }` is a shallow copy, so line 69 also mutates the previous state's inner object for the payer. The model's `Record` works on a value copy. The resulting ledger is the same.
- Ledger.MoneySplit.Record: the ledger is a JavaScript plain object, so a name that is a member of `Object.prototype` (`toString`, `constructor`, `valueOf`, `hasOwnProperty`, `__proto__`, ...) reads an inherited value at lines 61 and 66. A receiver with such a name is never set to 0 at line 67, and line 69 concatenates the share onto the inherited function's text instead of adding it; a payer with such a name writes onto the inherited member (or, for `__proto__`, into the prototype) and nothing is recorded. The model's `History` is a `map` with no inherited keys, so for these names it credits the number where the code does not.
- Ledger.Merge: the same difference for receivers whose name is an `Object.prototype` member; it promises the numeric, absent-means-0 merge, which lines 66-69 only perform for other names.
- Ledger.Recorded: the same difference for payers and receivers whose name is an `Object.prototype` member (lines 61-69).
- Trimming follows the ECMAScript WhiteSpace and LineTerminator sets on Unicode code points. JavaScript strings are UTF-16 code units, which the model does not represent.
