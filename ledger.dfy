/** The ledger core of the wallet backend: a wallet's three balance buckets,
    the append-only transaction log, and the fixed batches of increments,
    decrements and appends that the handlers commit atomically. Amounts are
    integer minor units. */
module Ledger {

  datatype Option<T> = None | Some(value: T)

  type UserId = nat

  /** The three independent balances a wallet keeps. */
  datatype Bucket = Testing | Test | Real

  /** A wallet row: testingBalance, testBalance and realBalance. */
  datatype Wallet = Wallet(testingBalance: int, testBalance: int, realBalance: int) {

    function Get(b: Bucket): int {
      match b
      case Testing => testingBalance
      case Test => testBalance
      case Real => realBalance
    }

    /** `{ [field]: { increment: delta } }` on one bucket (a decrement is a
        negative delta): that bucket moves by delta, the other two stay. */
    function Add(b: Bucket, delta: int): (w: Wallet)
      ensures w.Get(b) == Get(b) + delta
      ensures forall o :: o != b ==> w.Get(o) == Get(o)
      ensures w.Total() == Total() + delta
    {
      match b
      case Testing => this.(testingBalance := testingBalance + delta)
      case Test => this.(testBalance := testBalance + delta)
      case Real => this.(realBalance := realBalance + delta)
    }

    function Total(): int {
      testingBalance + testBalance + realBalance
    }

    predicate NonNegative() {
      testingBalance >= 0 && testBalance >= 0 && realBalance >= 0
    }
  }

  /** The wallet signup creates: every bucket at zero. */
  const EmptyWallet: Wallet := Wallet(0, 0, 0)

  datatype Kind = Credit | Debit

  /** One row of the transaction table. The row names no bucket, only the
      wallet it belongs to; its status is always COMPLETED and is not kept. */
  datatype Entry = Entry(owner: UserId, amount: int, kind: Kind, description: string, paymentId: Option<string>)

  function Signed(e: Entry): int {
    if e.kind == Credit then e.amount else -e.amount
  }

  /** Credits minus debits of u's entries in the log. */
  function Net(log: seq<Entry>, u: UserId): int
    decreases |log|
  {
    if log == [] then 0
    else
      var last := log[|log| - 1];
      Net(log[..|log| - 1], u) + (if last.owner == u then Signed(last) else 0)
  }

  lemma NetAppend(log: seq<Entry>, e: Entry, u: UserId)
    ensures Net(log + [e], u) == Net(log, u) + (if e.owner == u then Signed(e) else 0)
  {
    assert (log + [e])[..|log|] == log;
  }

  /** A user none of whose entries is in the log has net zero. */
  lemma {:induction false} NetOfStranger(log: seq<Entry>, u: UserId)
    requires forall i :: 0 <= i < |log| ==> log[i].owner != u
    ensures Net(log, u) == 0
  {
    if log != [] {
      NetOfStranger(log[..|log| - 1], u);
    }
  }

  /** u's entries, newest first: the last appended entry leads. The log
      order is creation order, so this is `orderBy: { createdAt: 'desc' }`;
      where two entries share a timestamp the database leaves their order
      open, and the model fixes it as the reverse of insertion. */
  function NewestFirst(log: seq<Entry>, u: UserId): (r: seq<Entry>)
    ensures |r| <= |log|
    decreases |log|
  {
    if log == [] then []
    else
      var last := log[|log| - 1];
      (if last.owner == u then [last] else []) + NewestFirst(log[..|log| - 1], u)
  }

  /** The listing holds exactly u's entries of the log. */
  lemma {:induction false} NewestFirstMembers(log: seq<Entry>, u: UserId)
    ensures forall e :: e in NewestFirst(log, u) <==> e in log && e.owner == u
    decreases |log|
  {
    if log != [] {
      var init := log[..|log| - 1];
      assert log == init + [log[|log| - 1]];
      NewestFirstMembers(init, u);
    }
  }

  /** A user with no entries in the log has an empty listing. */
  lemma {:induction false} NewestFirstOfStranger(log: seq<Entry>, u: UserId)
    requires forall i :: 0 <= i < |log| ==> log[i].owner != u
    ensures NewestFirst(log, u) == []
    decreases |log|
  {
    if log != [] {
      NewestFirstOfStranger(log[..|log| - 1], u);
    }
  }

  /** Entries appended later come first: the listing of a longer log is the
      listing of the new part followed by the listing of the old part. */
  lemma {:induction false} NewestFirstConcat(older: seq<Entry>, newer: seq<Entry>, u: UserId)
    ensures NewestFirst(older + newer, u) == NewestFirst(newer, u) + NewestFirst(older, u)
    decreases |newer|
  {
    if newer == [] {
      assert older + newer == older;
    } else {
      var n := |newer| - 1;
      var all := older + newer;
      var last := newer[n];
      var head := if last.owner == u then [last] else [];
      assert all[..|all| - 1] == older + newer[..n];
      assert all[|all| - 1] == last;
      assert NewestFirst(all, u) == head + NewestFirst(older + newer[..n], u);
      assert NewestFirst(newer, u) == head + NewestFirst(newer[..n], u);
      NewestFirstConcat(older, newer[..n], u);
    }
  }

  /** The ledger/balance invariant: every wallet's three buckets together
      equal the credits minus the debits the log records for it. */
  predicate Consistent(ws: map<UserId, Wallet>, log: seq<Entry>) {
    forall u {:trigger ws[u]} :: u in ws ==> ws[u].Total() == Net(log, u)
  }

  predicate AllNonNegative(ws: map<UserId, Wallet>) {
    forall u :: u in ws ==> ws[u].NonNegative()
  }

  /** The two wallet updates of an internal transfer, in batch order: the
      sender's bucket is decremented, then the recipient's incremented. */
  function Transfer(ws: map<UserId, Wallet>, from: UserId, to: UserId, b: Bucket, amount: int): (r: map<UserId, Wallet>)
    requires from in ws && to in ws
    ensures r.Keys == ws.Keys
    ensures forall u :: u in ws && u != from && u != to ==> r[u] == ws[u]
    ensures from != to ==> r[from].Get(b) == ws[from].Get(b) - amount && r[to].Get(b) == ws[to].Get(b) + amount
    ensures forall o :: o != b ==> r[from].Get(o) == ws[from].Get(o) && r[to].Get(o) == ws[to].Get(o)
    ensures from == to ==> r[from] == ws[from]
  {
    var debited := ws[from := ws[from].Add(b, -amount)];
    debited[to := debited[to].Add(b, amount)]
  }

  /** A one-sided batch's wallet update: a credit of one bucket, or with a
      negative delta a debit. */
  function OneSided(ws: map<UserId, Wallet>, u: UserId, b: Bucket, delta: int): (r: map<UserId, Wallet>)
    requires u in ws
    ensures r.Keys == ws.Keys
    ensures forall v :: v in ws && v != u ==> r[v] == ws[v]
    ensures r[u].Get(b) == ws[u].Get(b) + delta
    ensures forall o :: o != b ==> r[u].Get(o) == ws[u].Get(o)
  {
    ws[u := ws[u].Add(b, delta)]
  }

  /** A covered transfer keeps every bucket of every wallet non-negative. */
  lemma TransferKeepsNonNegative(ws: map<UserId, Wallet>, from: UserId, to: UserId, b: Bucket, amount: int)
    requires from in ws && to in ws && AllNonNegative(ws)
    requires 0 <= amount <= ws[from].Get(b)
    ensures AllNonNegative(Transfer(ws, from, to, b, amount))
  {
    var r := Transfer(ws, from, to, b, amount);
    forall u | u in r ensures r[u].NonNegative() {
      assert ws[u].NonNegative();
      if u == from || u == to {
        assert forall o :: r[u].Get(o) >= 0;
      }
    }
  }

  /** A one-sided change that leaves its bucket non-negative keeps every
      bucket of every wallet non-negative. */
  lemma OneSidedKeepsNonNegative(ws: map<UserId, Wallet>, u: UserId, b: Bucket, delta: int)
    requires u in ws && AllNonNegative(ws) && ws[u].Get(b) + delta >= 0
    ensures AllNonNegative(OneSided(ws, u, b, delta))
  {
    var r := OneSided(ws, u, b, delta);
    forall v | v in r ensures r[v].NonNegative() {
      assert ws[v].NonNegative();
      if v == u { assert forall o :: r[v].Get(o) >= 0; }
    }
  }

  /** A new wallet with no entries in the log keeps the ledger consistent. */
  lemma ConsistentAddWallet(ws: map<UserId, Wallet>, log: seq<Entry>, u: UserId)
    requires Consistent(ws, log) && forall i :: 0 <= i < |log| ==> log[i].owner != u
    ensures Consistent(ws[u := EmptyWallet], log)
  {
    NetOfStranger(log, u);
  }

  /** A transfer batch with its DEBIT entry for the sender and its CREDIT
      entry for the recipient keeps the ledger consistent. */
  lemma LedgerAfterTransfer(ws: map<UserId, Wallet>, log: seq<Entry>, from: UserId, to: UserId, b: Bucket, amount: int,
                            debitText: string, creditText: string, paymentId: Option<string>)
    requires from in ws && to in ws && Consistent(ws, log)
    ensures Consistent(Transfer(ws, from, to, b, amount),
                       log + [Entry(from, amount, Debit, debitText, paymentId), Entry(to, amount, Credit, creditText, paymentId)])
  {
    var r := Transfer(ws, from, to, b, amount);
    var d := Entry(from, amount, Debit, debitText, paymentId);
    var c := Entry(to, amount, Credit, creditText, paymentId);
    assert log + [d, c] == (log + [d]) + [c];
    forall u | u in r ensures r[u].Total() == Net(log + [d, c], u) {
      NetAppend(log, d, u);
      NetAppend(log + [d], c, u);
      if u == from && u != to {
        assert r[u] == ws[u].Add(b, -amount);
      } else if u == to && u != from {
        assert r[u] == ws[u].Add(b, amount);
      }
    }
  }

  /** A one-sided batch (one bucket change and one entry of the same sign)
      keeps the ledger consistent. */
  lemma LedgerAfterOneSided(ws: map<UserId, Wallet>, log: seq<Entry>, u: UserId, b: Bucket, amount: int,
                            kind: Kind, text: string, paymentId: Option<string>)
    requires u in ws && Consistent(ws, log)
    ensures var e := Entry(u, amount, kind, text, paymentId);
            Consistent(OneSided(ws, u, b, Signed(e)), log + [e])
  {
    var e := Entry(u, amount, kind, text, paymentId);
    var r := OneSided(ws, u, b, Signed(e));
    forall v | v in r ensures r[v].Total() == Net(log + [e], v) {
      NetAppend(log, e, v);
      if v == u {
        assert r[v] == ws[v].Add(b, Signed(e));
      }
    }
  }

  /** Sum of bucket b over the wallets of the given users. */
  ghost function SumBucket(ws: map<UserId, Wallet>, users: set<UserId>, b: Bucket): int
    requires users <= ws.Keys
    decreases users
  {
    if users == {} then 0
    else
      var u :| u in users;
      ws[u].Get(b) + SumBucket(ws, users - {u}, b)
  }

  /** Sum of bucket b across all wallets. */
  ghost function BucketTotal(ws: map<UserId, Wallet>, b: Bucket): int {
    SumBucket(ws, ws.Keys, b)
  }

  lemma {:induction false} SumBucketRemove(ws: map<UserId, Wallet>, users: set<UserId>, u: UserId, b: Bucket)
    requires users <= ws.Keys && u in users
    ensures SumBucket(ws, users, b) == ws[u].Get(b) + SumBucket(ws, users - {u}, b)
    decreases users
  {
    var v :| v in users && SumBucket(ws, users, b) == ws[v].Get(b) + SumBucket(ws, users - {v}, b);
    if v != u {
      SumBucketRemove(ws, users - {v}, u, b);
      SumBucketRemove(ws, users - {u}, v, b);
      assert users - {v} - {u} == users - {u} - {v};
    }
  }

  lemma {:induction false} SumBucketAgree(ws1: map<UserId, Wallet>, ws2: map<UserId, Wallet>, users: set<UserId>, b: Bucket)
    requires users <= ws1.Keys && users <= ws2.Keys
    requires forall u :: u in users ==> ws1[u].Get(b) == ws2[u].Get(b)
    ensures SumBucket(ws1, users, b) == SumBucket(ws2, users, b)
    decreases users
  {
    if users != {} {
      var u :| u in users;
      SumBucketRemove(ws1, users, u, b);
      SumBucketRemove(ws2, users, u, b);
      SumBucketAgree(ws1, ws2, users - {u}, b);
    }
  }

  /** Changing one wallet changes a bucket's total by exactly that wallet's change. */
  lemma BucketTotalUpdate(ws: map<UserId, Wallet>, u: UserId, w: Wallet, b: Bucket)
    requires u in ws
    ensures BucketTotal(ws[u := w], b) == BucketTotal(ws, b) - ws[u].Get(b) + w.Get(b)
  {
    var ws2 := ws[u := w];
    assert ws2.Keys == ws.Keys;
    SumBucketRemove(ws, ws.Keys, u, b);
    SumBucketRemove(ws2, ws.Keys, u, b);
    SumBucketAgree(ws, ws2, ws.Keys - {u}, b);
  }

  /** A one-sided batch changes its bucket's total by exactly its delta. */
  lemma OneSidedBucketTotal(ws: map<UserId, Wallet>, u: UserId, b: Bucket, delta: int)
    requires u in ws
    ensures BucketTotal(OneSided(ws, u, b, delta), b) == BucketTotal(ws, b) + delta
  {
    BucketTotalUpdate(ws, u, ws[u].Add(b, delta), b);
  }

  /** A transfer moves money between wallets: no bucket's total across all
      wallets changes. */
  lemma TransferPreservesBucketTotals(ws: map<UserId, Wallet>, from: UserId, to: UserId, b: Bucket, amount: int)
    requires from in ws && to in ws
    ensures forall c :: BucketTotal(Transfer(ws, from, to, b, amount), c) == BucketTotal(ws, c)
  {
    var debited := ws[from := ws[from].Add(b, -amount)];
    forall c ensures BucketTotal(Transfer(ws, from, to, b, amount), c) == BucketTotal(ws, c) {
      BucketTotalUpdate(ws, from, ws[from].Add(b, -amount), c);
      BucketTotalUpdate(debited, to, debited[to].Add(b, amount), c);
    }
  }

  /** pay-merchant's mode to balance field; any other mode is refused. */
  function PayMerchantBucket(mode: string): Option<Bucket> {
    if mode == "testing" then Some(Testing)
    else if mode == "test" then Some(Test)
    else if mode == "live" then Some(Real)
    else None
  }

  /** verify-payment's mode to balance field: "test" and anything else. */
  function VerifyPaymentBucket(mode: string): Bucket {
    if mode == "test" then Test else Real
  }

  /** pay-merchant accepts exactly the modes testing, test and live, only
      testing reaches the testing bucket, and on the two gateway modes it
      picks the bucket verify-payment picks. */
  lemma PayMerchantModes(mode: string)
    ensures PayMerchantBucket(mode).Some? <==> mode == "testing" || mode == "test" || mode == "live"
    ensures PayMerchantBucket(mode) == Some(Testing) <==> mode == "testing"
    ensures mode == "test" || mode == "live" ==> PayMerchantBucket(mode) == Some(VerifyPaymentBucket(mode))
  {
  }

  /** verify-payment sends "test" to the test bucket and every other mode
      (including "testing" and garbage) to the real bucket, never to testing. */
  lemma VerifyPaymentModes(mode: string)
    ensures VerifyPaymentBucket(mode) != Testing
    ensures VerifyPaymentBucket(mode) == Test <==> mode == "test"
    ensures VerifyPaymentBucket(mode) == Real <==> mode != "test"
  {
  }

  /** What a signature-checked confirmation asks for: a top-up of the
      caller's own bucket, or a transfer to a resolved recipient. */
  datatype Intent = AddMoney | TransferTo(recipient: UserId)

  /** The wallet effect of a signature-checked confirmation as the handler
      writes it: ADD_MONEY credits unconditionally, TRANSFER refuses only
      when the bucket is below the amount. Nothing checks that the amount
      is positive. None means refused. */
  function ConfirmAsWritten(ws: map<UserId, Wallet>, caller: UserId, intent: Intent, b: Bucket, amount: int): (r: Option<map<UserId, Wallet>>)
    requires caller in ws && (intent.TransferTo? ==> intent.recipient in ws)
    ensures r.None? <==> intent.TransferTo? && ws[caller].Get(b) < amount
    ensures r.Some? ==> r.value.Keys == ws.Keys
    ensures r.Some? && intent.AddMoney? ==> r.value[caller].Get(b) == ws[caller].Get(b) + amount
    ensures r.Some? && intent.TransferTo? && intent.recipient != caller ==>
              && r.value[caller].Get(b) == ws[caller].Get(b) - amount
              && r.value[intent.recipient].Get(b) == ws[intent.recipient].Get(b) + amount
    ensures r.Some? ==> forall u :: u in ws && u != caller && (intent.TransferTo? ==> u != intent.recipient) ==> r.value[u] == ws[u]
    ensures r.Some? ==> forall o :: o != b ==> r.value[caller].Get(o) == ws[caller].Get(o)
    ensures r.Some? && intent.TransferTo? ==> forall o :: o != b ==> r.value[intent.recipient].Get(o) == ws[intent.recipient].Get(o)
    ensures r.Some? && intent == TransferTo(caller) ==> r.value == ws
  {
    match intent
    case AddMoney => Some(OneSided(ws, caller, b, amount))
    case TransferTo(to) => if ws[caller].Get(b) < amount then None else Some(Transfer(ws, caller, to, b, amount))
  }

  /** With a negative amount, the unguarded confirmation breaks a ledger
      that was non-negative: an ADD_MONEY whose amount is below minus the
      caller's balance (-5 on an empty bucket) is accepted and leaves that
      bucket below zero. */
  lemma ConfirmAsWrittenTopUpGoesNegative(ws: map<UserId, Wallet>, caller: UserId, b: Bucket, amount: int)
    requires caller in ws && AllNonNegative(ws)
    requires ws[caller].Get(b) + amount < 0
    ensures var r := ConfirmAsWritten(ws, caller, AddMoney, b, amount);
            r.Some? && r.value[caller].Get(b) < 0 && !AllNonNegative(r.value)
  {
    var r := ConfirmAsWritten(ws, caller, AddMoney, b, amount);
    assert !r.value[caller].NonNegative();
  }

  /** A TRANSFER with a negative amount passes the balance test, since a
      non-negative bucket is never below it: the sender gains and, once the
      amount is below minus the recipient's balance (-5 between empty
      wallets), the recipient's bucket ends below zero. */
  lemma ConfirmAsWrittenSendGoesNegative(ws: map<UserId, Wallet>, caller: UserId, recipient: UserId, b: Bucket, amount: int)
    requires caller in ws && recipient in ws && caller != recipient && AllNonNegative(ws)
    requires amount < 0 && ws[recipient].Get(b) + amount < 0
    ensures var r := ConfirmAsWritten(ws, caller, TransferTo(recipient), b, amount);
            && r.Some? && r.value[caller].Get(b) > ws[caller].Get(b)
            && r.value[recipient].Get(b) < 0 && !AllNonNegative(r.value)
  {
    assert ws[caller].NonNegative();
    var r := ConfirmAsWritten(ws, caller, TransferTo(recipient), b, amount);
    assert !r.value[recipient].NonNegative();
  }

  /** The confirmation with the guard every other handler applies: the
      amount must be positive. It is accepted exactly when that holds and,
      for a transfer, the bucket covers the amount; what it then commits is
      the as-written batch. */
  function Confirm(ws: map<UserId, Wallet>, caller: UserId, intent: Intent, b: Bucket, amount: int): (r: Option<map<UserId, Wallet>>)
    requires caller in ws && (intent.TransferTo? ==> intent.recipient in ws)
    ensures r.Some? <==> amount > 0 && (intent.TransferTo? ==> amount <= ws[caller].Get(b))
    ensures r.Some? ==> r == ConfirmAsWritten(ws, caller, intent, b, amount)
  {
    if amount <= 0 then None else ConfirmAsWritten(ws, caller, intent, b, amount)
  }

  /** An accepted confirmation keeps every bucket of every wallet non-negative. */
  lemma ConfirmKeepsNonNegative(ws: map<UserId, Wallet>, caller: UserId, intent: Intent, b: Bucket, amount: int)
    requires caller in ws && (intent.TransferTo? ==> intent.recipient in ws)
    requires AllNonNegative(ws) && Confirm(ws, caller, intent, b, amount).Some?
    ensures AllNonNegative(Confirm(ws, caller, intent, b, amount).value)
  {
    var r := Confirm(ws, caller, intent, b, amount).value;
    if intent.TransferTo? {
      TransferKeepsNonNegative(ws, caller, intent.recipient, b, amount);
    } else {
      forall u | u in r ensures r[u].NonNegative() {
        assert ws[u].NonNegative();
        if u == caller { assert forall o :: r[u].Get(o) >= 0; }
      }
    }
  }
}
