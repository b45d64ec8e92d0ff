/** The wallet backend's route handlers as methods on one in-memory store.
    HTTP, the JWT middleware and Prisma are stripped away: the caller's id is
    a trusted parameter, each table is a map (the unique indexes on email and
    alias are maps of their own), the transaction table is a sequence in
    creation order, and each `prisma.$transaction([...])` batch is one
    atomic step. The payment gateway's answers (the HMAC function, a payout's
    status and id) and the random alias suffix are parameters. */
module Store {
  import opened Text
  import opened Ledger

  type MerchantId = nat

  /** A user row. The password hash is not kept. */
  datatype User = User(email: string, alias: string, name: string, phone: string)

  datatype Merchant = Merchant(owner: UserId, businessName: string)

  datatype Error =
    | MissingFields
    | DuplicateIdentity
    | InvalidAmount
    | InvalidUpiId
    | RecipientNotFound
    | InsufficientBalance
    | PaymentNotCaptured
    | InvalidSignature
    | RecipientRequired
    | InvalidMerchantOrAmount
    | InvalidMode
    | MerchantNotFound
    | MissingBusinessName
    | RegistrationFailed
    | Internal

  /** How a handler answers: success, an error response, or no response at
      all (a rejected promise outside the handler's try, or a request type
      it has no branch for). */
  datatype Status = Done | Failed(error: Error) | NoReply

  /** The description of the one-sided top-up entry. */
  const TopUpText: string := "Added to Testing Wallet (Test Mode)"

  /** The payout status the gateway reports for a completed transfer. */
  const Captured: string := "captured"

  ghost predicate IdsBelow(users: map<UserId, User>, next: nat) {
    forall u :: u in users ==> 0 < u < next
  }

  /** The unique indexes on email and alias map each key to the one user
      holding it, and every user is reachable through both. */
  ghost predicate Indexed(users: map<UserId, User>, byEmail: map<string, UserId>, byAlias: map<string, UserId>) {
    && (forall e :: e in byEmail ==> byEmail[e] in users && users[byEmail[e]].email == e)
    && (forall u :: u in users ==> users[u].email in byEmail && byEmail[users[u].email] == u)
    && (forall a :: a in byAlias ==> byAlias[a] in users && users[byAlias[a]].alias == a)
    && (forall u :: u in users ==> users[u].alias in byAlias && byAlias[users[u].alias] == u)
  }

  ghost predicate MerchantsOwned(merchants: map<MerchantId, Merchant>, users: map<UserId, User>, next: nat) {
    forall m :: m in merchants ==> 0 < m < next && merchants[m].owner in users
  }

  ghost predicate LogOwned(log: seq<Entry>, users: map<UserId, User>) {
    forall i :: 0 <= i < |log| ==> log[i].owner in users && log[i].amount > 0
  }

  lemma LogOwnedAppend(log: seq<Entry>, more: seq<Entry>, users: map<UserId, User>)
    requires LogOwned(log, users) && LogOwned(more, users)
    ensures LogOwned(log + more, users)
  {
    forall i | 0 <= i < |log + more| ensures (log + more)[i].owner in users && (log + more)[i].amount > 0 {
      if i >= |log| { assert (log + more)[i] == more[i - |log|]; }
    }
  }

  lemma LogOwnedGrow(log: seq<Entry>, users: map<UserId, User>, more: map<UserId, User>)
    requires LogOwned(log, users) && users.Keys <= more.Keys
    ensures LogOwned(log, more)
  {
  }

  /** Adding a user with a fresh email and alias keeps the indexes exact. */
  lemma IndexedInsert(users: map<UserId, User>, byEmail: map<string, UserId>, byAlias: map<string, UserId>, id: UserId, user: User)
    requires Indexed(users, byEmail, byAlias) && id !in users
    requires user.email !in byEmail && user.alias !in byAlias
    ensures Indexed(users[id := user], byEmail[user.email := id], byAlias[user.alias := id])
  {
  }

  /** The store's invariant on its tables, see PaymentApp.Valid. */
  ghost predicate StoreInvariant(users: map<UserId, User>, byEmail: map<string, UserId>, byAlias: map<string, UserId>,
                                 wallets: map<UserId, Wallet>, merchants: map<MerchantId, Merchant>, log: seq<Entry>,
                                 nextUserId: nat, nextMerchantId: nat)
  {
    && 0 < nextUserId && 0 < nextMerchantId
    && wallets.Keys == users.Keys
    && IdsBelow(users, nextUserId)
    && Indexed(users, byEmail, byAlias)
    && MerchantsOwned(merchants, users, nextMerchantId)
    && LogOwned(log, users)
    && AllNonNegative(wallets)
    && Consistent(wallets, log)
  }

  /** Signup's insertion keeps the invariant, and the new user starts with
      no entries in the log. */
  lemma SignupKeepsInvariant(users: map<UserId, User>, byEmail: map<string, UserId>, byAlias: map<string, UserId>,
                             wallets: map<UserId, Wallet>, merchants: map<MerchantId, Merchant>, log: seq<Entry>,
                             nextUserId: nat, nextMerchantId: nat, user: User,
                             users': map<UserId, User>, byEmail': map<string, UserId>, byAlias': map<string, UserId>,
                             wallets': map<UserId, Wallet>)
    requires StoreInvariant(users, byEmail, byAlias, wallets, merchants, log, nextUserId, nextMerchantId)
    requires user.email !in byEmail && user.alias !in byAlias
    requires users' == users[nextUserId := user] && byEmail' == byEmail[user.email := nextUserId]
    requires byAlias' == byAlias[user.alias := nextUserId] && wallets' == wallets[nextUserId := EmptyWallet]
    ensures StoreInvariant(users', byEmail', byAlias', wallets', merchants, log, nextUserId + 1, nextMerchantId)
    ensures Net(log, nextUserId) == 0 && NewestFirst(log, nextUserId) == []
  {
    var id := nextUserId;
    assert IdsBelow(users', nextUserId + 1);
    assert MerchantsOwned(merchants, users', nextMerchantId);
    assert AllNonNegative(wallets');
    forall i | 0 <= i < |log| ensures log[i].owner != id {
      assert log[i].owner in users;
    }
    ConsistentAddWallet(wallets, log, id);
    NetOfStranger(log, id);
    NewestFirstOfStranger(log, id);
    LogOwnedGrow(log, users, users');
    IndexedInsert(users, byEmail, byAlias, id, user);
  }

  /** A one-sided batch by an existing user keeps the invariant. */
  lemma OneSidedKeepsInvariant(users: map<UserId, User>, byEmail: map<string, UserId>, byAlias: map<string, UserId>,
                               wallets: map<UserId, Wallet>, merchants: map<MerchantId, Merchant>, log: seq<Entry>,
                               nextUserId: nat, nextMerchantId: nat, b: Bucket, e: Entry,
                               wallets': map<UserId, Wallet>, log': seq<Entry>)
    requires StoreInvariant(users, byEmail, byAlias, wallets, merchants, log, nextUserId, nextMerchantId)
    requires e.owner in wallets && 0 < e.amount && wallets[e.owner].Get(b) + Signed(e) >= 0
    requires wallets' == OneSided(wallets, e.owner, b, Signed(e)) && log' == log + [e]
    ensures StoreInvariant(users, byEmail, byAlias, wallets', merchants, log', nextUserId, nextMerchantId)
  {
    LedgerAfterOneSided(wallets, log, e.owner, b, e.amount, e.kind, e.description, e.paymentId);
    OneSidedKeepsNonNegative(wallets, e.owner, b, Signed(e));
    LogOwnedAppend(log, [e], users);
  }

  class PaymentApp {
    var users: map<UserId, User>
    var byEmail: map<string, UserId>
    var byAlias: map<string, UserId>
    var wallets: map<UserId, Wallet>
    var merchants: map<MerchantId, Merchant>
    var log: seq<Entry>
    var nextUserId: nat
    var nextMerchantId: nat
    /** The gateway secrets of test mode and of live mode. */
    const testSecret: string
    const liveSecret: string

    /** Ids are positive (0 stands for a missing id) and below the next one
        handed out; every user has exactly one wallet; the email and alias
        indexes are exact inverses of the user table; merchants and log
        entries belong to users; every entry moves a positive amount; no
        bucket is negative; and every wallet agrees with its log entries. */
    ghost predicate Valid()
      reads this
    {
      StoreInvariant(users, byEmail, byAlias, wallets, merchants, log, nextUserId, nextMerchantId)
    }

    constructor (testSecret: string, liveSecret: string)
      ensures Valid()
      ensures users == map[] && wallets == map[] && merchants == map[] && log == []
      ensures this.testSecret == testSecret && this.liveSecret == liveSecret
    {
      users, byEmail, byAlias := map[], map[], map[];
      wallets, merchants, log := map[], map[], [];
      nextUserId, nextMerchantId := 1, 1;
      this.testSecret, this.liveSecret := testSecret, liveSecret;
    }

    /** No two users share an email or an alias. */
    lemma IdentitiesUnique()
      requires Valid()
      ensures forall u, v :: u in users && v in users && u != v ==>
                users[u].email != users[v].email && users[u].alias != users[v].alias
    {
    }

    /** The batch of an internal transfer: two wallet updates, then a DEBIT
        entry for the sender and a CREDIT entry for the recipient. */
    method CommitTransfer(from: UserId, to: UserId, b: Bucket, amount: int,
                          debitText: string, creditText: string, paymentId: Option<string>)
      requires Valid() && from in wallets && to in wallets
      requires 0 < amount <= wallets[from].Get(b)
      modifies this`wallets, this`log
      ensures Valid()
      ensures wallets == Transfer(old(wallets), from, to, b, amount)
      ensures log == old(log) + [Entry(from, amount, Debit, debitText, paymentId), Entry(to, amount, Credit, creditText, paymentId)]
      ensures forall c :: BucketTotal(wallets, c) == BucketTotal(old(wallets), c)
    {
      TransferKeepsNonNegative(wallets, from, to, b, amount);
      LedgerAfterTransfer(wallets, log, from, to, b, amount, debitText, creditText, paymentId);
      TransferPreservesBucketTotals(wallets, from, to, b, amount);
      LogOwnedAppend(log, [Entry(from, amount, Debit, debitText, paymentId), Entry(to, amount, Credit, creditText, paymentId)], users);
      wallets := Transfer(wallets, from, to, b, amount);
      log := log + [Entry(from, amount, Debit, debitText, paymentId), Entry(to, amount, Credit, creditText, paymentId)];
    }

    /** A one-sided batch: one entry and one bucket update of the same sign. */
    method CommitOneSided(u: UserId, b: Bucket, amount: int, kind: Kind, text: string, paymentId: Option<string>)
      requires Valid() && u in wallets && 0 < amount
      requires kind == Debit ==> amount <= wallets[u].Get(b)
      modifies this`wallets, this`log
      ensures Valid()
      ensures wallets == OneSided(old(wallets), u, b, Signed(Entry(u, amount, kind, text, paymentId)))
      ensures log == old(log) + [Entry(u, amount, kind, text, paymentId)]
      ensures BucketTotal(wallets, b) == BucketTotal(old(wallets), b) + Signed(Entry(u, amount, kind, text, paymentId))
    {
      var e := Entry(u, amount, kind, text, paymentId);
      ghost var wallets0, log0 := wallets, log;
      OneSidedBucketTotal(wallets, u, b, Signed(e));
      wallets, log := OneSided(wallets, u, b, Signed(e)), log + [e];
      OneSidedKeepsInvariant(users, byEmail, byAlias, wallets0, merchants, log0, nextUserId, nextMerchantId, b, e, wallets, log);
    }

    /** The user row and its all-zero wallet, created together in one step
        under the next id. */
    method CreateUser(user: User) returns (id: UserId)
      requires Valid() && user.email !in byEmail && user.alias !in byAlias
      modifies this`users, this`byEmail, this`byAlias, this`wallets, this`nextUserId
      ensures Valid()
      ensures id == old(nextUserId) && id !in old(users) && nextUserId == id + 1
      ensures users == old(users)[id := user] && wallets == old(wallets)[id := EmptyWallet]
      ensures byEmail == old(byEmail)[user.email := id] && byAlias == old(byAlias)[user.alias := id]
      ensures Net(log, id) == 0 && NewestFirst(log, id) == []
    {
      id := nextUserId;
      ghost var users0, byEmail0, byAlias0, wallets0 := users, byEmail, byAlias, wallets;
      users, wallets, byEmail, byAlias, nextUserId :=
        users[id := user], wallets[id := EmptyWallet], byEmail[user.email := id], byAlias[user.alias := id], nextUserId + 1;
      SignupKeepsInvariant(users0, byEmail0, byAlias0, wallets0, merchants, log, id, nextMerchantId, user,
                           users, byEmail, byAlias, wallets);
    }

    /** POST /signup: every field is required; the alias is the email's local
        part, '-', the random suffix and "@cryptopay"; a taken email or alias
        is refused; otherwise a user with an all-zero wallet is created. */
    method Signup(email: string, password: string, phone: string, name: string, suffix: string)
      returns (st: Status, id: UserId)
      requires Valid() && IsHexSuffix(suffix)
      modifies this`users, this`byEmail, this`byAlias, this`wallets, this`nextUserId
      ensures Valid()
      ensures email == "" || password == "" || phone == "" || name == "" ==> st == Failed(MissingFields)
      ensures st == Done <==> email != "" && password != "" && phone != "" && name != ""
                              && email !in old(byEmail) && MakeAlias(email, suffix) !in old(byAlias)
      ensures (email != "" && password != "" && phone != "" && name != ""
               && (email in old(byEmail) || MakeAlias(email, suffix) in old(byAlias))) ==> st == Failed(DuplicateIdentity)
      ensures st != Done && st != Failed(MissingFields) ==> st == Failed(DuplicateIdentity)
      ensures st != Done ==> users == old(users) && wallets == old(wallets) && byEmail == old(byEmail)
                             && byAlias == old(byAlias) && nextUserId == old(nextUserId)
      ensures st == Done ==>
                && id == old(nextUserId) && id !in old(users) && nextUserId == old(nextUserId) + 1
                && users == old(users)[id := User(email, MakeAlias(email, suffix), SanitizeInput(name), phone)]
                && wallets == old(wallets)[id := EmptyWallet]
                && byEmail == old(byEmail)[email := id]
                && byAlias == old(byAlias)[MakeAlias(email, suffix) := id]
                && Net(log, id) == 0 && NewestFirst(log, id) == []
    {
      id := 0;
      if email == "" || password == "" || phone == "" || name == "" {
        return Failed(MissingFields), id;
      }
      var alias := MakeAlias(email, suffix);
      if email in byEmail || alias in byAlias {
        return Failed(DuplicateIdentity), id;
      }
      id := CreateUser(User(email, alias, SanitizeInput(name), phone));
      st := Done;
    }

    /** POST /add-testing-money: a positive amount is credited to the caller's
        testing bucket with one CREDIT entry. */
    method AddTestingMoney(caller: UserId, amount: int) returns (st: Status)
      requires Valid()
      modifies this`wallets, this`log
      ensures Valid()
      ensures amount <= 0 ==> st == Failed(InvalidAmount)
      ensures amount > 0 && caller !in old(wallets) ==> st == Failed(Internal)
      ensures st == Done <==> amount > 0 && caller in old(wallets)
      ensures st == Done ==>
                && wallets == OneSided(old(wallets), caller, Testing, amount)
                && log == old(log) + [Entry(caller, amount, Credit, TopUpText, None)]
                && BucketTotal(wallets, Testing) == BucketTotal(old(wallets), Testing) + amount
      ensures st != Done ==> wallets == old(wallets) && log == old(log)
    {
      if amount <= 0 {
        return Failed(InvalidAmount);
      }
      if caller !in wallets {
        return Failed(Internal);
      }
      CommitOneSided(caller, Testing, amount, Credit, TopUpText, None);
      st := Done;
    }

    /** POST /transfer-testing: the raw recipient id must contain
        "@cryptopay"; the sanitized id must name a user; the caller's testing
        bucket must cover the amount. */
    method TransferTesting(caller: UserId, amount: int, recipientUpiId: string) returns (st: Status)
      requires Valid()
      modifies this`wallets, this`log
      ensures Valid()
      ensures var to := SanitizeInput(recipientUpiId);
              && (amount <= 0 ==> st == Failed(InvalidAmount))
              && (amount > 0 && !Includes(recipientUpiId, AliasDomain) ==> st == Failed(InvalidUpiId))
              && (amount > 0 && Includes(recipientUpiId, AliasDomain) && to !in byAlias ==> st == Failed(RecipientNotFound))
              && ((amount > 0 && Includes(recipientUpiId, AliasDomain) && to in byAlias && caller !in old(wallets))
                    ==> st == Failed(Internal))
              && ((amount > 0 && Includes(recipientUpiId, AliasDomain) && to in byAlias && caller in old(wallets)
                   && old(wallets)[caller].testingBalance < amount) ==> st == Failed(InsufficientBalance))
              && (st == Done <==> amount > 0 && Includes(recipientUpiId, AliasDomain) && to in byAlias
                                  && caller in old(wallets) && amount <= old(wallets)[caller].testingBalance)
              && (st == Done ==>
                    && wallets == Transfer(old(wallets), caller, byAlias[to], Testing, amount)
                    && log == old(log) + [Entry(caller, amount, Debit, "Transfer to " + to + " (testing)", None),
                                          Entry(byAlias[to], amount, Credit, "Received from user " + NatText(caller) + " (testing)", None)])
      ensures st != Done ==> st.Failed? && wallets == old(wallets) && log == old(log)
      ensures forall c :: BucketTotal(wallets, c) == BucketTotal(old(wallets), c)
    {
      if amount <= 0 {
        return Failed(InvalidAmount);
      }
      if !Includes(recipientUpiId, AliasDomain) {
        return Failed(InvalidUpiId);
      }
      var to := SanitizeInput(recipientUpiId);
      if to !in byAlias {
        return Failed(RecipientNotFound);
      }
      if caller !in wallets {
        return Failed(Internal);
      }
      if wallets[caller].testingBalance < amount {
        return Failed(InsufficientBalance);
      }
      CommitTransfer(caller, byAlias[to], Testing, amount,
                     "Transfer to " + to + " (testing)", "Received from user " + NatText(caller) + " (testing)", None);
      st := Done;
    }

    /** POST /transfer-real: the recipient id must pass the UPI-id check and
        the caller's real bucket must cover the amount. A recipient alias
        known here is paid internally; any other id is paid out through the
        gateway, whose answer (status and payment id) is given, and only a
        "captured" payout debits the caller. */
    method TransferReal(caller: UserId, amount: int, recipientUpiId: string, payoutStatus: string, payoutId: string)
      returns (st: Status)
      requires Valid()
      modifies this`wallets, this`log
      ensures Valid()
      ensures amount <= 0 ==> st == Failed(InvalidAmount)
      ensures amount > 0 && !ValidateUpiId(recipientUpiId) ==> st == Failed(InvalidUpiId)
      ensures amount > 0 && ValidateUpiId(recipientUpiId) && caller !in old(wallets) ==> st == Failed(Internal)
      ensures (amount > 0 && ValidateUpiId(recipientUpiId) && caller in old(wallets)
               && old(wallets)[caller].realBalance < amount) ==> st == Failed(InsufficientBalance)
      ensures (amount > 0 && ValidateUpiId(recipientUpiId) && caller in old(wallets)
               && amount <= old(wallets)[caller].realBalance && SanitizeInput(recipientUpiId) !in byAlias
               && payoutStatus != Captured) ==> st == Failed(PaymentNotCaptured)
      ensures st != Done ==> st.Failed? && wallets == old(wallets) && log == old(log)
      ensures st == Done <==> amount > 0 && ValidateUpiId(recipientUpiId) && caller in old(wallets)
                              && amount <= old(wallets)[caller].realBalance
                              && (SanitizeInput(recipientUpiId) in byAlias || payoutStatus == Captured)
      ensures var to := SanitizeInput(recipientUpiId);
              st == Done && to in byAlias ==>
                && wallets == Transfer(old(wallets), caller, byAlias[to], Real, amount)
                && log == old(log) + [Entry(caller, amount, Debit, "Transfer to " + to + " via Razorpay (live)", None),
                                      Entry(byAlias[to], amount, Credit, "Received from user " + NatText(caller) + " via Razorpay (live)", None)]
                && forall c :: BucketTotal(wallets, c) == BucketTotal(old(wallets), c)
      ensures var to := SanitizeInput(recipientUpiId);
              st == Done && to !in byAlias ==>
                && wallets == OneSided(old(wallets), caller, Real, -amount)
                && log == old(log) + [Entry(caller, amount, Debit, "Transfer to " + to + " via Razorpay (live)", Some(payoutId))]
                && BucketTotal(wallets, Real) == BucketTotal(old(wallets), Real) - amount
    {
      if amount <= 0 {
        return Failed(InvalidAmount);
      }
      if !ValidateUpiId(recipientUpiId) {
        return Failed(InvalidUpiId);
      }
      var to := SanitizeInput(recipientUpiId);
      if caller !in wallets {
        return Failed(Internal);
      }
      if wallets[caller].realBalance < amount {
        return Failed(InsufficientBalance);
      }
      var text := "Transfer to " + to + " via Razorpay (live)";
      if to in byAlias {
        CommitTransfer(caller, byAlias[to], Real, amount,
                       text, "Received from user " + NatText(caller) + " via Razorpay (live)", None);
        st := Done;
      } else {
        st := PayOut(caller, amount, text, payoutStatus, payoutId);
      }
    }

    /** transfer-real's external branch: the gateway's payout answer decides.
        A "captured" payout debits the caller's real bucket with one DEBIT
        row carrying the payout id; any other status is refused and nothing
        is written. */
    method PayOut(caller: UserId, amount: int, text: string, payoutStatus: string, payoutId: string)
      returns (st: Status)
      requires Valid() && caller in wallets && 0 < amount <= wallets[caller].realBalance
      modifies this`wallets, this`log
      ensures Valid()
      ensures payoutStatus != Captured ==> st == Failed(PaymentNotCaptured) && wallets == old(wallets) && log == old(log)
      ensures payoutStatus == Captured ==>
                && st == Done
                && wallets == OneSided(old(wallets), caller, Real, -amount)
                && log == old(log) + [Entry(caller, amount, Debit, text, Some(payoutId))]
                && BucketTotal(wallets, Real) == BucketTotal(old(wallets), Real) - amount
    {
      if payoutStatus != Captured {
        return Failed(PaymentNotCaptured);
      }
      CommitOneSided(caller, Real, amount, Debit, text, Some(payoutId));
      st := Done;
    }

    /** The gateway secret verify-payment signs with: test mode's for "test",
        live mode's for every other mode. */
    function SecretFor(mode: string): string
      reads this
    {
      if mode == "test" then testSecret else liveSecret
    }

    /** POST /verify-payment: the signature must equal the HMAC of
        "orderId|paymentId" under the mode's secret; then ADD_MONEY credits
        the caller's bucket and TRANSFER moves money to a known recipient,
        both tagged with the payment id, as `Confirm` decides. Any other type
        changes nothing and gets no reply. A replayed confirmation is not
        detected. */
    method VerifyPayment(caller: UserId, orderId: string, paymentId: string, signature: string, amount: int,
                         kind: string, recipientUpiId: string, mode: string, hmac: (string, string) -> string)
      returns (st: Status)
      requires Valid()
      modifies this`wallets, this`log
      ensures Valid()
      ensures hmac(SecretFor(mode), orderId + "|" + paymentId) != signature ==> st == Failed(InvalidSignature)
      ensures (kind != "ADD_MONEY" && kind != "TRANSFER" && hmac(SecretFor(mode), orderId + "|" + paymentId) == signature)
                ==> st == NoReply
      ensures (kind == "ADD_MONEY" || kind == "TRANSFER") && st != Done ==> st.Failed?
      ensures hmac(SecretFor(mode), orderId + "|" + paymentId) == signature && kind == "ADD_MONEY" ==>
                && (caller !in old(wallets) ==> st == Failed(Internal))
                && (caller in old(wallets) && amount <= 0 ==> st == Failed(InvalidAmount))
                && (st == Done ==> BucketTotal(wallets, VerifyPaymentBucket(mode)) == BucketTotal(old(wallets), VerifyPaymentBucket(mode)) + amount)
      ensures hmac(SecretFor(mode), orderId + "|" + paymentId) == signature && kind == "TRANSFER" ==>
                var to := SanitizeInput(recipientUpiId);
                && (to == "" ==> st == Failed(RecipientRequired))
                && (to != "" && to !in byAlias ==> st == Failed(RecipientNotFound))
                && (to != "" && to in byAlias && caller !in old(wallets) ==> st == Failed(Internal))
                && (to != "" && to in byAlias && caller in old(wallets) && amount <= 0 ==> st == Failed(InvalidAmount))
                && ((to != "" && to in byAlias && caller in old(wallets) && amount > 0
                     && old(wallets)[caller].Get(VerifyPaymentBucket(mode)) < amount) ==> st == Failed(InsufficientBalance))
      ensures kind == "TRANSFER" ==> forall c :: BucketTotal(wallets, c) == BucketTotal(old(wallets), c)
      ensures st == Done ==> hmac(SecretFor(mode), orderId + "|" + paymentId) == signature && caller in old(wallets)
      ensures var b := VerifyPaymentBucket(mode);
              && (st == Done && kind == "ADD_MONEY" ==>
                    && Confirm(old(wallets), caller, AddMoney, b, amount) == Some(wallets)
                    && log == old(log) + [Entry(caller, amount, Credit, "Added from bank via Razorpay (" + mode + ")", Some(paymentId))])
              && (st == Done && kind != "ADD_MONEY" ==>
                    var to := SanitizeInput(recipientUpiId);
                    && kind == "TRANSFER" && to != "" && to in byAlias
                    && Confirm(old(wallets), caller, TransferTo(byAlias[to]), b, amount) == Some(wallets)
                    && log == old(log) + [Entry(caller, amount, Debit, "Transfer to " + to + " via Razorpay (" + mode + ")", Some(paymentId)),
                                          Entry(byAlias[to], amount, Credit, "Received from user " + NatText(caller) + " via Razorpay (" + mode + ")", Some(paymentId))])
      ensures st == Done <==>
                && hmac(SecretFor(mode), orderId + "|" + paymentId) == signature && caller in old(wallets)
                && (|| (kind == "ADD_MONEY" && amount > 0)
                    || (kind == "TRANSFER" && SanitizeInput(recipientUpiId) in byAlias && SanitizeInput(recipientUpiId) != ""
                        && 0 < amount <= old(wallets)[caller].Get(VerifyPaymentBucket(mode))))
      ensures st != Done ==> wallets == old(wallets) && log == old(log)
    {
      var to := SanitizeInput(recipientUpiId);
      if hmac(SecretFor(mode), orderId + "|" + paymentId) != signature {
        return Failed(InvalidSignature);
      }
      var b := VerifyPaymentBucket(mode);
      if kind == "ADD_MONEY" {
        if caller !in wallets {
          return Failed(Internal);
        }
        if Confirm(wallets, caller, AddMoney, b, amount).None? {
          return Failed(InvalidAmount);
        }
        CommitOneSided(caller, b, amount, Credit, "Added from bank via Razorpay (" + mode + ")", Some(paymentId));
        st := Done;
      } else if kind == "TRANSFER" {
        if to == "" {
          return Failed(RecipientRequired);
        }
        if to !in byAlias {
          return Failed(RecipientNotFound);
        }
        if caller !in wallets {
          return Failed(Internal);
        }
        var recipient := byAlias[to];
        if Confirm(wallets, caller, TransferTo(recipient), b, amount).None? {
          return Failed(if amount <= 0 then InvalidAmount else InsufficientBalance);
        }
        CommitTransfer(caller, recipient, b, amount,
                       "Transfer to " + to + " via Razorpay (" + mode + ")",
                       "Received from user " + NatText(caller) + " via Razorpay (" + mode + ")", Some(paymentId));
        st := Done;
      } else {
        st := NoReply;
      }
    }

    /** POST /merchant/register: a business name is required and the caller
        must exist; the sanitized name is stored under a fresh merchant id. */
    method RegisterMerchant(caller: UserId, businessName: string) returns (st: Status, id: MerchantId)
      requires Valid()
      modifies this`merchants, this`nextMerchantId
      ensures Valid()
      ensures businessName == "" ==> st == Failed(MissingBusinessName)
      ensures businessName != "" && caller !in users ==> st == Failed(RegistrationFailed)
      ensures st == Done <==> businessName != "" && caller in users
      ensures st == Done ==> id == old(nextMerchantId) && id !in old(merchants) && nextMerchantId == old(nextMerchantId) + 1
                             && merchants == old(merchants)[id := Merchant(caller, SanitizeInput(businessName))]
      ensures st != Done ==> merchants == old(merchants) && nextMerchantId == old(nextMerchantId)
    {
      id := 0;
      if businessName == "" {
        return Failed(MissingBusinessName), id;
      }
      if caller !in users {
        return Failed(RegistrationFailed), id;
      }
      id := nextMerchantId;
      merchants := merchants[id := Merchant(caller, SanitizeInput(businessName))];
      nextMerchantId := nextMerchantId + 1;
      st := Done;
    }

    /** POST /pay-merchant: a merchant id and a positive amount are required,
        the mode must be testing, test or live and selects the bucket on both
        sides; the merchant must exist and the caller's bucket must cover the
        amount. A caller without a wallet gets no reply. */
    method PayMerchant(caller: UserId, merchantId: MerchantId, amount: int, mode: string) returns (st: Status)
      requires Valid()
      modifies this`wallets, this`log
      ensures Valid()
      ensures merchantId == 0 || amount <= 0 ==> st == Failed(InvalidMerchantOrAmount)
      ensures merchantId != 0 && amount > 0 && PayMerchantBucket(mode).None? ==> st == Failed(InvalidMode)
      ensures (merchantId != 0 && amount > 0 && PayMerchantBucket(mode).Some? && merchantId !in merchants)
                ==> st == Failed(MerchantNotFound)
      ensures (merchantId in merchants && amount > 0 && PayMerchantBucket(mode).Some? && caller !in old(wallets))
                ==> st == NoReply
      ensures (merchantId in merchants && amount > 0 && PayMerchantBucket(mode).Some? && caller in old(wallets)
               && old(wallets)[caller].Get(PayMerchantBucket(mode).value) < amount) ==> st == Failed(InsufficientBalance)
      ensures st == Done <==> merchantId in merchants && amount > 0 && PayMerchantBucket(mode).Some?
                              && caller in old(wallets) && amount <= old(wallets)[caller].Get(PayMerchantBucket(mode).value)
      ensures st == Done ==>
                var m := merchants[merchantId];
                && wallets == Transfer(old(wallets), caller, m.owner, PayMerchantBucket(mode).value, amount)
                && log == old(log) + [Entry(caller, amount, Debit, "Payment to merchant " + m.businessName + " (" + mode + ")", None),
                                      Entry(m.owner, amount, Credit, "Received from user " + NatText(caller) + " (" + mode + ")", None)]
      ensures st != Done ==> wallets == old(wallets) && log == old(log)
      ensures forall c :: BucketTotal(wallets, c) == BucketTotal(old(wallets), c)
    {
      if merchantId == 0 || amount <= 0 {
        return Failed(InvalidMerchantOrAmount);
      }
      var bucket := PayMerchantBucket(mode);
      if bucket.None? {
        return Failed(InvalidMode);
      }
      if merchantId !in merchants {
        return Failed(MerchantNotFound);
      }
      if caller !in wallets {
        return NoReply;
      }
      var b := bucket.value;
      if wallets[caller].Get(b) < amount {
        return Failed(InsufficientBalance);
      }
      var m := merchants[merchantId];
      CommitTransfer(caller, m.owner, b, amount,
                     "Payment to merchant " + m.businessName + " (" + mode + ")",
                     "Received from user " + NatText(caller) + " (" + mode + ")", None);
      st := Done;
    }

    /** GET /transactions: the caller's entries, newest first; exactly the
        caller's entries of the log appear. */
    function Transactions(caller: UserId): (r: seq<Entry>)
      reads this
      ensures forall e :: e in r <==> e in log && e.owner == caller
    {
      NewestFirstMembers(log, caller);
      NewestFirst(log, caller)
    }
  }
}
