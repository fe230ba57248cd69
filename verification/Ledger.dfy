/**
 * The ledger coherence check: four counting queries over legs, accounts and authorizations. Amounts
 * are integers in the smallest unit. The theorems say what a ledger that passes has conserved.
 */
module Ledger {
  import opened Wrappers
  import opened Basics

  datatype Leg = Leg(id: int, account: int, txn: int, before: int, amount: int, after: int)
  datatype Account = Account(id: int, balance: int, inFlight: int)
  datatype Authorization = Authorization(account: int, amount: int, status: string)

  datatype Book = Book(legs: seq<Leg>, accounts: seq<Account>, authorizations: seq<Authorization>)

  ghost predicate Ordered(legs: seq<Leg>) {
    forall i, j | 0 <= i < j < |legs| :: legs[i].id < legs[j].id
  }

  predicate HasAccount(accounts: seq<Account>, id: int) {
    exists ac :: ac in accounts && ac.id == id
  }

  /** The tables' keys: leg ids are unique (rows are listed by id), account ids are, legs refer to accounts. */
  ghost predicate WellKeyed(b: Book) {
    && Ordered(b.legs)
    && (forall i, j | 0 <= i < j < |b.accounts| :: b.accounts[i].id != b.accounts[j].id)
    && (forall l | l in b.legs :: HasAccount(b.accounts, l.account))
  }

  // ----- The queries -----

  function OfTxn(legs: seq<Leg>, txn: int): seq<Leg> {
    if legs == [] then []
    else (if legs[0].txn == txn then [legs[0]] else []) + OfTxn(legs[1..], txn)
  }

  function OfAccount(legs: seq<Leg>, account: int): seq<Leg> {
    if legs == [] then []
    else (if legs[0].account == account then [legs[0]] else []) + OfAccount(legs[1..], account)
  }

  function Sum(legs: seq<Leg>, weight: Leg -> int): int {
    if legs == [] then 0 else weight(legs[0]) + Sum(legs[1..], weight)
  }

  const AMOUNT := (l: Leg) => l.amount

  function ActiveSum(auths: seq<Authorization>, account: int): int {
    if auths == [] then 0
    else
      (if auths[0].account == account && auths[0].status == "active" then auths[0].amount else 0)
      + ActiveSum(auths[1..], account)
  }

  /** Transactions whose legs do not cancel. */
  function Unbalanced(b: Book): set<int> {
    set l | l in b.legs && Sum(OfTxn(b.legs, l.txn), AMOUNT) != 0 :: l.txn
  }

  /** Pairs of legs of one account that do not connect although no leg of the account has an id in between. */
  ghost function ChainBroken(b: Book): set<(Leg, Leg)> {
    set x, y | x in b.legs && y in b.legs
               && y.account == x.account && y.id > x.id && y.before != x.after
               && !(exists m :: m in b.legs && m.account == x.account && x.id < m.id < y.id)
             :: (x, y)
  }

  function FinalBalance(legs: seq<Leg>): int {
    if legs == [] then 0 else legs[|legs| - 1].after
  }

  function BalanceDrift(b: Book): set<Account> {
    set ac | ac in b.accounts && ac.balance != FinalBalance(OfAccount(b.legs, ac.id))
  }

  function InFlightDrift(b: Book): set<Account> {
    set ac | ac in b.accounts && ac.inFlight != ActiveSum(b.authorizations, ac.id)
  }

  datatype Finding = UnbalancedLegs(n: nat) | BrokenChain(n: nat) | WrongBalance(n: nat) | WrongInFlight(n: nat)

  /** Runs the four checks in order; the first count that is not zero is the finding. */
  ghost function AssertLedgerCoherent(b: Book): Option<Finding> {
    if |Unbalanced(b)| != 0 then Some(UnbalancedLegs(|Unbalanced(b)|))
    else if |ChainBroken(b)| != 0 then Some(BrokenChain(|ChainBroken(b)|))
    else if |BalanceDrift(b)| != 0 then Some(WrongBalance(|BalanceDrift(b)|))
    else if |InFlightDrift(b)| != 0 then Some(WrongInFlight(|InFlightDrift(b)|))
    else None
  }

  /** The finding is the first query with rows, and their number. */
  lemma FindingIsFirst(b: Book, n: nat)
    ensures AssertLedgerCoherent(b) == Some(UnbalancedLegs(n)) <==> 0 < n == |Unbalanced(b)|
    ensures AssertLedgerCoherent(b) == Some(BrokenChain(n)) <==> Unbalanced(b) == {} && 0 < n == |ChainBroken(b)|
    ensures AssertLedgerCoherent(b) == Some(WrongBalance(n)) <==>
              Unbalanced(b) == {} && ChainBroken(b) == {} && 0 < n == |BalanceDrift(b)|
    ensures AssertLedgerCoherent(b) == Some(WrongInFlight(n)) <==>
              Unbalanced(b) == {} && ChainBroken(b) == {} && BalanceDrift(b) == {} && 0 < n == |InFlightDrift(b)|
  {
  }

  /** The rows of the four queries. */
  lemma QueryRows(b: Book, txn: int, x: Leg, y: Leg, ac: Account)
    ensures txn in Unbalanced(b) <==> (exists l | l in b.legs :: l.txn == txn) && Sum(OfTxn(b.legs, txn), AMOUNT) != 0
    ensures (x, y) in ChainBroken(b) <==> Adjacent(b.legs, x, y) && y.before != x.after
    ensures ac in BalanceDrift(b) <==> ac in b.accounts && ac.balance != FinalBalance(OfAccount(b.legs, ac.id))
    ensures ac in InFlightDrift(b) <==> ac in b.accounts && ac.inFlight != ActiveSum(b.authorizations, ac.id)
  {
    if txn in Unbalanced(b) {
      var l :| l in b.legs && l.txn == txn;
    }
  }

  /** The sum of amounts is that of its parts, down to the single leg. */
  lemma SumIs(l: Leg, xs: seq<Leg>, ys: seq<Leg>)
    ensures Sum([], AMOUNT) == 0 && Sum([l], AMOUNT) == l.amount
    ensures Sum(xs + ys, AMOUNT) == Sum(xs, AMOUNT) + Sum(ys, AMOUNT)
  {
    assert [l][1..] == [];
    SumConcat(xs, ys, AMOUNT);
  }

  /** The sum of active authorizations likewise; only those of the account with the status count. */
  lemma {:induction false} ActiveSumIs(a: Authorization, xs: seq<Authorization>, ys: seq<Authorization>, account: int)
    ensures ActiveSum([], account) == 0
    ensures ActiveSum([a], account) == if a.account == account && a.status == "active" then a.amount else 0
    ensures ActiveSum(xs + ys, account) == ActiveSum(xs, account) + ActiveSum(ys, account)
  {
    assert [a][1..] == [];
    if xs == [] {
      assert xs + ys == ys;
    } else {
      assert (xs + ys)[1..] == xs[1..] + ys;
      ActiveSumIs(a, xs[1..], ys, account);
    }
  }

  /** The transaction's legs are the legs with its number, in their order, each as often as it is there. */
  lemma {:induction false} OfTxnIs(l: Leg, xs: seq<Leg>, ys: seq<Leg>, txn: int)
    ensures OfTxn([], txn) == [] && OfTxn([l], txn) == if l.txn == txn then [l] else []
    ensures OfTxn(xs + ys, txn) == OfTxn(xs, txn) + OfTxn(ys, txn)
  {
    assert [l][1..] == [];
    if xs == [] {
      assert xs + ys == ys;
    } else {
      assert (xs + ys)[1..] == xs[1..] + ys;
      OfTxnIs(l, xs[1..], ys, txn);
      Assoc(if xs[0].txn == txn then [xs[0]] else [], OfTxn(xs[1..], txn), OfTxn(ys, txn));
    }
  }

  // ----- What no finding means, table by table -----

  /** Consecutive legs of one account connect. */
  ghost predicate Connected(legs: seq<Leg>) {
    forall i | 0 <= i < |legs| - 1 :: legs[i + 1].before == legs[i].after
  }

  lemma {:induction false} OfAccountMembers(legs: seq<Leg>, account: int)
    ensures forall l :: l in OfAccount(legs, account) <==> l in legs && l.account == account
  {
    if legs != [] {
      OfAccountMembers(legs[1..], account);
      assert forall l :: l in legs <==> l == legs[0] || l in legs[1..];
    }
  }

  lemma {:induction false} OfAccountOrdered(legs: seq<Leg>, account: int)
    requires Ordered(legs)
    ensures Ordered(OfAccount(legs, account))
  {
    if legs != [] {
      var own, tail := OfAccount(legs, account), OfAccount(legs[1..], account);
      OfAccountOrdered(legs[1..], account);
      OfAccountMembers(legs[1..], account);
      forall j | 0 <= j < |tail| ensures legs[0].id < tail[j].id {
        assert tail[j] in legs[1..];
      }
      forall i, j | 0 <= i < j < |own| ensures own[i].id < own[j].id {
        if legs[0].account == account {
          assert own[j] == tail[j - 1] && (i > 0 ==> own[i] == tail[i - 1]);
        }
      }
    }
  }

  /** No leg of the same account between x and y, as the query says it. */
  ghost predicate Adjacent(legs: seq<Leg>, x: Leg, y: Leg) {
    && x in legs && y in legs && y.account == x.account && y.id > x.id
    && !exists m :: m in legs && m.account == x.account && x.id < m.id < y.id
  }

  /** "No leg in between" in the query is the same as next to each other among the account's own legs. */
  lemma AdjacentAreNeighbours(legs: seq<Leg>, x: Leg, y: Leg) returns (i: nat)
    requires Ordered(legs) && Adjacent(legs, x, y)
    ensures var own := OfAccount(legs, x.account); i + 1 < |own| && own[i] == x && own[i + 1] == y
  {
    var own := OfAccount(legs, x.account);
    OfAccountMembers(legs, x.account);
    OfAccountOrdered(legs, x.account);
    assert x in own && y in own;
    i :| 0 <= i < |own| && own[i] == x;
    var j :| 0 <= j < |own| && own[j] == y;
    assert own[i].id < own[j].id;
    assert i < j;
    assert own[i + 1] in own && own[i].id < own[i + 1].id;
    assert !(own[i + 1].id < y.id);
  }

  lemma NeighboursAreAdjacent(legs: seq<Leg>, account: int, i: nat)
    requires Ordered(legs) && i + 1 < |OfAccount(legs, account)|
    ensures var own := OfAccount(legs, account); Adjacent(legs, own[i], own[i + 1])
  {
    var own := OfAccount(legs, account);
    OfAccountMembers(legs, account);
    OfAccountOrdered(legs, account);
    var x, y := own[i], own[i + 1];
    assert x in own && y in own;
    forall m | m in legs && m.account == account ensures !(x.id < m.id < y.id) {
      assert m in own;
      var k :| 0 <= k < |own| && own[k] == m;
      assert k < i ==> own[k].id < own[i].id;
      assert k > i + 1 ==> own[i + 1].id < own[k].id;
    }
  }

  lemma ChainQueryIsConnected(b: Book)
    requires WellKeyed(b)
    ensures ChainBroken(b) == {} <==> forall account :: Connected(OfAccount(b.legs, account))
  {
    if forall account :: Connected(OfAccount(b.legs, account)) {
      forall x, y | Adjacent(b.legs, x, y) ensures y.before == x.after {
        var i := AdjacentAreNeighbours(b.legs, x, y);
        assert Connected(OfAccount(b.legs, x.account));
      }
      NoBadPair(b);
    } else {
      var account :| !Connected(OfAccount(b.legs, account));
      var own := OfAccount(b.legs, account);
      var i :| 0 <= i < |own| - 1 && own[i + 1].before != own[i].after;
      NeighboursAreAdjacent(b.legs, account, i);
      assert (own[i], own[i + 1]) in ChainBroken(b);
    }
  }

  lemma NoBadPair(b: Book)
    requires forall x, y | Adjacent(b.legs, x, y) :: y.before == x.after
    ensures ChainBroken(b) == {}
  {
    forall pair | pair in ChainBroken(b) ensures false {
      assert Adjacent(b.legs, pair.0, pair.1);
    }
  }

  /** The check finds nothing exactly when all four tables agree. */
  lemma CoherentMeans(b: Book)
    requires WellKeyed(b)
    ensures AssertLedgerCoherent(b) == None <==>
      && (forall txn :: Sum(OfTxn(b.legs, txn), AMOUNT) == 0)
      && (forall account :: Connected(OfAccount(b.legs, account)))
      && (forall ac | ac in b.accounts :: ac.balance == FinalBalance(OfAccount(b.legs, ac.id)))
      && (forall ac | ac in b.accounts :: ac.inFlight == ActiveSum(b.authorizations, ac.id))
  {
    ChainQueryIsConnected(b);
    BalancedMeans(b);
    DriftMeans(b);
  }

  lemma BalancedMeans(b: Book)
    ensures Unbalanced(b) == {} <==> forall txn :: Sum(OfTxn(b.legs, txn), AMOUNT) == 0
  {
    if Unbalanced(b) == {} {
      forall txn ensures Sum(OfTxn(b.legs, txn), AMOUNT) == 0 {
        OfTxnMembers(b.legs, txn);
        if OfTxn(b.legs, txn) != [] {
          var l := OfTxn(b.legs, txn)[0];
          assert l in OfTxn(b.legs, txn);
          assert l.txn !in Unbalanced(b);
        }
      }
    } else {
      var txn :| txn in Unbalanced(b);
      assert Sum(OfTxn(b.legs, txn), AMOUNT) != 0;
    }
  }

  lemma DriftMeans(b: Book)
    ensures BalanceDrift(b) == {} <==>
              forall ac | ac in b.accounts :: ac.balance == FinalBalance(OfAccount(b.legs, ac.id))
    ensures InFlightDrift(b) == {} <==>
              forall ac | ac in b.accounts :: ac.inFlight == ActiveSum(b.authorizations, ac.id)
  {
    if ac :| ac in b.accounts && ac.balance != FinalBalance(OfAccount(b.legs, ac.id)) {
      assert ac in BalanceDrift(b);
    }
    if ac :| ac in b.accounts && ac.inFlight != ActiveSum(b.authorizations, ac.id) {
      assert ac in InFlightDrift(b);
    }
  }

  lemma {:induction false} OfTxnMembers(legs: seq<Leg>, txn: int)
    ensures forall l :: l in OfTxn(legs, txn) <==> l in legs && l.txn == txn
  {
    if legs != [] {
      OfTxnMembers(legs[1..], txn);
      assert forall l :: l in legs <==> l == legs[0] || l in legs[1..];
    }
  }

  // ----- Sums by account and by transaction -----

  function SumByAccount(legs: seq<Leg>, accounts: seq<Account>, weight: Leg -> int): int {
    if accounts == [] then 0
    else Sum(OfAccount(legs, accounts[0].id), weight) + SumByAccount(legs, accounts[1..], weight)
  }

  lemma {:induction false} SumConcat(xs: seq<Leg>, ys: seq<Leg>, weight: Leg -> int)
    ensures Sum(xs + ys, weight) == Sum(xs, weight) + Sum(ys, weight)
  {
    if xs == [] {
      assert xs + ys == ys;
    } else {
      assert (xs + ys)[1..] == xs[1..] + ys;
      SumConcat(xs[1..], ys, weight);
    }
  }

  lemma OfAccountHead(legs: seq<Leg>, account: int, weight: Leg -> int)
    requires legs != []
    ensures Sum(OfAccount(legs, account), weight)
         == (if legs[0].account == account then weight(legs[0]) else 0) + Sum(OfAccount(legs[1..], account), weight)
  {
    SumConcat(if legs[0].account == account then [legs[0]] else [], OfAccount(legs[1..], account), weight);
  }

  /** One leg counts for the one account it refers to. */
  lemma {:induction false} SumByAccountHead(legs: seq<Leg>, accounts: seq<Account>, weight: Leg -> int)
    requires legs != []
    requires forall i, j | 0 <= i < j < |accounts| :: accounts[i].id != accounts[j].id
    ensures SumByAccount(legs, accounts, weight)
         == (if HasAccount(accounts, legs[0].account) then weight(legs[0]) else 0)
            + SumByAccount(legs[1..], accounts, weight)
  {
    if accounts != [] {
      OfAccountHead(legs, accounts[0].id, weight);
      SumByAccountHead(legs, accounts[1..], weight);
      assert forall ac :: ac in accounts <==> ac == accounts[0] || ac in accounts[1..];
    }
  }

  /** Every leg belongs to one account, so summing by account is summing all legs. */
  lemma {:induction false} SumByAccountIsSum(legs: seq<Leg>, accounts: seq<Account>, weight: Leg -> int)
    requires forall i, j | 0 <= i < j < |accounts| :: accounts[i].id != accounts[j].id
    requires forall l | l in legs :: HasAccount(accounts, l.account)
    ensures SumByAccount(legs, accounts, weight) == Sum(legs, weight)
  {
    if legs == [] {
      NoLegs(accounts, weight);
    } else {
      SumByAccountHead(legs, accounts, weight);
      SumByAccountIsSum(legs[1..], accounts, weight);
    }
  }

  lemma {:induction false} NoLegs(accounts: seq<Account>, weight: Leg -> int)
    ensures SumByAccount([], accounts, weight) == 0
  {
    if accounts != [] {
      NoLegs(accounts[1..], weight);
    }
  }

  function OtherTxns(legs: seq<Leg>, txn: int): (r: seq<Leg>)
    ensures |r| <= |legs|
  {
    if legs == [] then []
    else (if legs[0].txn != txn then [legs[0]] else []) + OtherTxns(legs[1..], txn)
  }

  lemma {:induction false} SplitByTxn(legs: seq<Leg>, txn: int, weight: Leg -> int)
    ensures Sum(legs, weight) == Sum(OfTxn(legs, txn), weight) + Sum(OtherTxns(legs, txn), weight)
    ensures forall t | t != txn :: OfTxn(OtherTxns(legs, txn), t) == OfTxn(legs, t)
    ensures OfTxn(OtherTxns(legs, txn), txn) == []
  {
    if legs != [] {
      var here, rest := legs[0], legs[1..];
      SplitByTxn(rest, txn, weight);
      SumConcat(if here.txn == txn then [here] else [], OfTxn(rest, txn), weight);
      SumConcat(if here.txn != txn then [here] else [], OtherTxns(rest, txn), weight);
      if here.txn != txn {
        assert OtherTxns(legs, txn)[1..] == OtherTxns(rest, txn);
      } else {
        assert OtherTxns(legs, txn) == OtherTxns(rest, txn);
      }
    }
  }

  /** If each transaction cancels, all legs together do. */
  lemma {:induction false} BalancedTransactionsCancel(legs: seq<Leg>)
    requires forall txn :: Sum(OfTxn(legs, txn), AMOUNT) == 0
    ensures Sum(legs, AMOUNT) == 0
    decreases |legs|
  {
    if legs != [] {
      var txn := legs[0].txn;
      var others := OtherTxns(legs, txn);
      SplitByTxn(legs, txn, AMOUNT);
      assert others == OtherTxns(legs[1..], txn);
      forall t ensures Sum(OfTxn(others, t), AMOUNT) == 0 {
        assert t != txn ==> OfTxn(others, t) == OfTxn(legs, t);
      }
      BalancedTransactionsCancel(others);
    }
  }

  // ----- Conservation -----

  /** How far a leg is from `after = before + amount`; no query looks at it. */
  const SLIP := (l: Leg) => l.after - l.before - l.amount

  /** An account's balance before its first leg; no query looks at it either. */
  function Opening(legs: seq<Leg>): int {
    if legs == [] then 0 else legs[0].before
  }

  lemma {:induction false} ConnectedTelescopes(legs: seq<Leg>)
    requires Connected(legs)
    ensures FinalBalance(legs) == Opening(legs) + Sum(legs, AMOUNT) + Sum(legs, SLIP)
  {
    if |legs| > 1 {
      assert legs[1].before == legs[0].after;
      forall i | 0 <= i < |legs| - 2 ensures legs[1..][i + 1].before == legs[1..][i].after {
        assert legs[i + 1 + 1].before == legs[i + 1].after;
      }
      ConnectedTelescopes(legs[1..]);
    } else if |legs| == 1 {
      assert Sum(legs[1..], AMOUNT) == Sum(legs[1..], SLIP) == 0;
    }
  }

  /** In a coherent book each balance is the account's opening plus its amounts plus its slips. */
  lemma AccountIdentity(b: Book, ac: Account)
    requires WellKeyed(b) && AssertLedgerCoherent(b) == None && ac in b.accounts
    ensures var own := OfAccount(b.legs, ac.id);
            ac.balance == Opening(own) + Sum(own, AMOUNT) + Sum(own, SLIP)
  {
    CoherentMeans(b);
    assert Connected(OfAccount(b.legs, ac.id));
    ConnectedTelescopes(OfAccount(b.legs, ac.id));
  }

  function Balances(accounts: seq<Account>): int {
    if accounts == [] then 0 else accounts[0].balance + Balances(accounts[1..])
  }

  function Openings(legs: seq<Leg>, accounts: seq<Account>): int {
    if accounts == [] then 0 else Opening(OfAccount(legs, accounts[0].id)) + Openings(legs, accounts[1..])
  }

  lemma {:induction false} BalancesAdd(b: Book, accounts: seq<Account>)
    requires WellKeyed(b) && AssertLedgerCoherent(b) == None
    requires forall ac | ac in accounts :: ac in b.accounts
    ensures Balances(accounts)
         == Openings(b.legs, accounts) + SumByAccount(b.legs, accounts, AMOUNT) + SumByAccount(b.legs, accounts, SLIP)
    decreases |accounts|
  {
    if accounts != [] {
      assert accounts[0] in accounts;
      AccountIdentity(b, accounts[0]);
      BalancesAdd(b, accounts[1..]);
    }
  }

  /**
   * What the four queries conserve: all balances together are the openings plus the slips. So they
   * cancel exactly when openings and slips do, two things that the queries leave unchecked.
   */
  lemma TotalBalance(b: Book)
    requires WellKeyed(b) && AssertLedgerCoherent(b) == None
    ensures Balances(b.accounts) == Openings(b.legs, b.accounts) + Sum(b.legs, SLIP)
    ensures Balances(b.accounts) == 0 <==> Openings(b.legs, b.accounts) + Sum(b.legs, SLIP) == 0
  {
    CoherentMeans(b);
    BalancesAdd(b, b.accounts);
    SumByAccountIsSum(b.legs, b.accounts, AMOUNT);
    SumByAccountIsSum(b.legs, b.accounts, SLIP);
    BalancedTransactionsCancel(b.legs);
  }

  lemma {:induction false} NoSlips(legs: seq<Leg>)
    requires forall l | l in legs :: l.after == l.before + l.amount
    ensures Sum(legs, SLIP) == 0
  {
    if legs != [] {
      assert legs[0] in legs;
      NoSlips(legs[1..]);
    }
  }

  lemma {:induction false} NoOpenings(legs: seq<Leg>, accounts: seq<Account>)
    requires forall ac | ac in accounts :: Opening(OfAccount(legs, ac.id)) == 0
    ensures Openings(legs, accounts) == 0
  {
    if accounts != [] {
      assert accounts[0] in accounts;
      NoOpenings(legs, accounts[1..]);
    }
  }

  /** With correct legs and accounts that open at zero, every balance is the sum of its legs and all cancel. */
  lemma Conservation(b: Book)
    requires WellKeyed(b) && AssertLedgerCoherent(b) == None
    requires forall l | l in b.legs :: l.after == l.before + l.amount
    requires forall ac | ac in b.accounts :: Opening(OfAccount(b.legs, ac.id)) == 0
    ensures forall ac | ac in b.accounts :: ac.balance == Sum(OfAccount(b.legs, ac.id), AMOUNT)
    ensures Balances(b.accounts) == 0
  {
    forall ac | ac in b.accounts ensures ac.balance == Sum(OfAccount(b.legs, ac.id), AMOUNT) {
      AccountIdentity(b, ac);
      OfAccountMembers(b.legs, ac.id);
      NoSlips(OfAccount(b.legs, ac.id));
    }
    NoSlips(b.legs);
    NoOpenings(b.legs, b.accounts);
    TotalBalance(b);
  }

  /** One leg of amount zero that slips by one passes every query and creates a unit of money. */
  lemma SlipPassesUnseen()
    ensures var b := Book([Leg(1, 7, 1, 0, 0, 1)], [Account(7, 1, 0)], []);
            WellKeyed(b) && AssertLedgerCoherent(b) == None && Balances(b.accounts) == 1
  {
    var l, ac := Leg(1, 7, 1, 0, 0, 1), Account(7, 1, 0);
    var b := Book([l], [ac], []);
    assert ac in b.accounts && b.legs[1..] == [] && b.accounts[1..] == [];
    forall txn ensures Sum(OfTxn(b.legs, txn), AMOUNT) == 0 {
      assert OfTxn(b.legs, txn) == if txn == 1 then [l] else [];
    }
    forall account ensures Connected(OfAccount(b.legs, account)) {
      assert |OfAccount(b.legs, account)| <= 1;
    }
    assert OfAccount(b.legs, 7) == [l];
    CoherentMeans(b);
  }

  // ----- In-flight money -----

  function InFlight(accounts: seq<Account>): int {
    if accounts == [] then 0 else accounts[0].inFlight + InFlight(accounts[1..])
  }

  function Active(auths: seq<Authorization>): int {
    if auths == [] then 0 else (if auths[0].status == "active" then auths[0].amount else 0) + Active(auths[1..])
  }

  function ActiveByAccount(auths: seq<Authorization>, accounts: seq<Account>): int {
    if accounts == [] then 0 else ActiveSum(auths, accounts[0].id) + ActiveByAccount(auths, accounts[1..])
  }

  lemma {:induction false} ActiveByAccountHead(auths: seq<Authorization>, accounts: seq<Account>)
    requires auths != []
    requires forall i, j | 0 <= i < j < |accounts| :: accounts[i].id != accounts[j].id
    ensures ActiveByAccount(auths, accounts)
         == (if auths[0].status == "active" && HasAccount(accounts, auths[0].account)
             then auths[0].amount else 0)
            + ActiveByAccount(auths[1..], accounts)
  {
    if accounts != [] {
      ActiveByAccountHead(auths, accounts[1..]);
      assert forall ac :: ac in accounts <==> ac == accounts[0] || ac in accounts[1..];
    }
  }

  lemma {:induction false} ActiveByAccountIsActive(auths: seq<Authorization>, accounts: seq<Account>)
    requires forall i, j | 0 <= i < j < |accounts| :: accounts[i].id != accounts[j].id
    requires forall a | a in auths :: HasAccount(accounts, a.account)
    ensures ActiveByAccount(auths, accounts) == Active(auths)
  {
    if auths == [] {
      NoAuthorizations(accounts);
    } else {
      ActiveByAccountHead(auths, accounts);
      ActiveByAccountIsActive(auths[1..], accounts);
    }
  }

  lemma {:induction false} NoAuthorizations(accounts: seq<Account>)
    ensures ActiveByAccount([], accounts) == 0
  {
    if accounts != [] {
      NoAuthorizations(accounts[1..]);
    }
  }

  lemma {:induction false} InFlightAdds(b: Book, accounts: seq<Account>)
    requires forall ac | ac in accounts :: ac.inFlight == ActiveSum(b.authorizations, ac.id)
    ensures InFlight(accounts) == ActiveByAccount(b.authorizations, accounts)
  {
    if accounts != [] {
      assert accounts[0] in accounts;
      InFlightAdds(b, accounts[1..]);
    }
  }

  /** All money in flight is all money actively authorized. */
  lemma TotalInFlight(b: Book)
    requires WellKeyed(b) && AssertLedgerCoherent(b) == None
    requires forall a | a in b.authorizations :: HasAccount(b.accounts, a.account)
    ensures InFlight(b.accounts) == Active(b.authorizations)
  {
    CoherentMeans(b);
    InFlightAdds(b, b.accounts);
    ActiveByAccountIsActive(b.authorizations, b.accounts);
  }
}
