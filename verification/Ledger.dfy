/** Share balances, collateral balances and pool reserves: the storage both contracts write. */
module Ledger {
  import opened Types

  /** Balances by address. A zero balance has no entry, so equal ledgers are equal maps. */
  type Balances = m: map<Address, int> | forall a :: a in m ==> m[a] != 0

  function Get(m: Balances, a: Address): int {
    if a in m then m[a] else 0
  }

  function Set(m: Balances, a: Address, v: int): Balances {
    if v == 0 then m - {a} else m[a := v]
  }

  /** `amount` taken from one address and given to another, possibly the same. */
  function Move(m: Balances, from: Address, to: Address, amount: int): Balances {
    var debited := Set(m, from, Get(m, from) - amount);
    Set(debited, to, Get(debited, to) + amount)
  }

  ghost function Sum(m: map<Address, int>): int {
    if m == map[] then
      0
    else
      var a :| a in m;
      m[a] + Sum(m - {a})
  }

  ghost predicate NonNegative(m: Balances) {
    forall a :: Get(m, a) >= 0
  }

  lemma NonNegativeAt(m: Balances, a: Address)
    requires NonNegative(m)
    ensures Get(m, a) >= 0
  {
  }

  lemma {:induction false} SumRemove(m: map<Address, int>, a: Address)
    requires a in m
    ensures Sum(m) == m[a] + Sum(m - {a})
    decreases |m|
  {
    var b :| b in m && Sum(m) == m[b] + Sum(m - {b});
    if a != b {
      SumRemove(m - {b}, a);
      SumRemove(m - {a}, b);
      assert m - {a} - {b} == m - {b} - {a};
    }
  }

  lemma SumSet(m: Balances, a: Address, v: int)
    ensures Sum(Set(m, a, v)) == Sum(m) - Get(m, a) + v
    ensures NonNegative(m) && 0 <= v ==> NonNegative(Set(m, a, v))
  {
    assert forall b :: Get(Set(m, a, v), b) == if b == a then v else Get(m, b);
    var n := Set(m, a, v);
    assert n - {a} == m - {a};
    if a in m {
      SumRemove(m, a);
    } else {
      assert m - {a} == m;
    }
    if v != 0 {
      SumRemove(n, a);
    }
  }

  lemma SumMove(m: Balances, from: Address, to: Address, amount: int)
    ensures Sum(Move(m, from, to, amount)) == Sum(m)
    ensures NonNegative(m) && 0 <= amount <= Get(m, from) ==> NonNegative(Move(m, from, to, amount))
  {
    var debited := Set(m, from, Get(m, from) - amount);
    SumSet(m, from, Get(m, from) - amount);
    SumSet(debited, to, Get(debited, to) + amount);
  }

  lemma {:induction false} SumNonNegative(m: Balances)
    requires NonNegative(m)
    ensures Sum(m) >= 0
    ensures Sum(m) == 0 ==> m == map[]
    decreases |m|
  {
    if m != map[] {
      var a :| a in m;
      SumRemove(m, a);
      assert Get(m, a) > 0;
      assert forall b :: Get(m - {a}, b) == if b == a then 0 else Get(m, b);
      SumNonNegative(m - {a});
    }
  }

  /** No balance of a non-negative ledger exceeds its total. */
  lemma BalanceAtMostSum(m: Balances, a: Address)
    requires NonNegative(m)
    ensures Get(m, a) <= Sum(m)
  {
    SumSet(m, a, 0);
    assert forall b :: Get(Set(m, a, 0), b) == if b == a then 0 else Get(m, b);
    SumNonNegative(Set(m, a, 0));
  }

  lemma SetOthers(m: Balances, a: Address, v: int)
    ensures forall b :: Get(Set(m, a, v), b) == if b == a then v else Get(m, b)
  {
  }

  lemma SetTwice(m: Balances, a: Address, v: int, w: int)
    ensures Set(Set(m, a, v), a, w) == Set(m, a, w)
    ensures Set(m, a, Get(m, a)) == m
    ensures Get(Set(m, a, v), a) == v
  {
    SameBalances(Set(Set(m, a, v), a, w), Set(m, a, w));
    SameBalances(Set(m, a, Get(m, a)), m);
  }

  lemma SameBalances(m: Balances, n: Balances)
    requires forall a :: Get(m, a) == Get(n, a)
    ensures m == n
  {
    forall a ensures a in m <==> a in n {
      assert Get(m, a) == Get(n, a);
    }
    forall a | a in m ensures m[a] == n[a] {
      assert Get(m, a) == Get(n, a);
    }
  }

  /** Everything a call can change apart from the status and the prices. */
  datatype Book = Book(poolYes: int, poolNo: int, totalSupply: int,
                       yes: Balances, no: Balances, tokens: Balances)
  {
    function Shares(side: Prediction): Balances {
      if side.Yes? then yes else no
    }

    function Bal(side: Prediction, a: Address): int {
      Get(Shares(side), a)
    }

    function Reserve(side: Prediction): int {
      if side.Yes? then poolYes else poolNo
    }

    function WithReserve(side: Prediction, v: int): Book {
      if side.Yes? then this.(poolYes := v) else this.(poolNo := v)
    }

    function WithBal(side: Prediction, a: Address, v: int): Book {
      if side.Yes? then this.(yes := Set(yes, a, v)) else this.(no := Set(no, a, v))
    }

    function Credit(side: Prediction, a: Address, amount: int): Book {
      WithBal(side, a, Bal(side, a) + amount)
    }

    function WithShares(side: Prediction, m: Balances): Book {
      if side.Yes? then this.(yes := m) else this.(no := m)
    }

    /** Both of a holder's balances together. */
    function Total(a: Address): int {
      Get(yes, a) + Get(no, a)
    }

    predicate CanPay(from: Address, amount: int) {
      0 <= amount <= Get(tokens, from)
    }

    /** A transfer of the collateral token. */
    function Pay(from: Address, to: Address, amount: int): Book {
      this.(tokens := Move(tokens, from, to, amount))
    }

    function Supply(delta: int): Book {
      this.(totalSupply := totalSupply + delta)
    }
  }

  lemma SumCredit(b: Book, side: Prediction, a: Address, amount: int)
    ensures Sum(b.Credit(side, a, amount).Shares(side)) == Sum(b.Shares(side)) + amount
    ensures b.Credit(side, a, amount).Shares(side.Other()) == b.Shares(side.Other())
    ensures NonNegative(b.Shares(side)) && 0 <= b.Bal(side, a) + amount ==>
              NonNegative(b.Credit(side, a, amount).Shares(side))
  {
    SumSet(b.Shares(side), a, b.Bal(side, a) + amount);
  }

  /** Minting both sides, giving the unwanted one away and receiving the swap's output touches
      only one balance in the end. */
  lemma MintThenSwap(b: Book, self: Address, user: Address, side: Prediction, collateral: int, out: int)
    ensures var unwanted := side.Other();
            var minted := b.Pay(user, self, collateral).Credit(Yes, user, collateral).Credit(No, user, collateral);
            && minted.Bal(unwanted, user) == b.Bal(unwanted, user) + collateral
            && minted.Supply(collateral).Credit(unwanted, user, -collateral)
               .WithReserve(unwanted, b.Reserve(unwanted) + collateral)
               .WithReserve(side, b.Reserve(side) - out)
               .Credit(side, user, out)
               == b.Pay(user, self, collateral).Credit(side, user, collateral + out)
                  .WithReserve(unwanted, b.Reserve(unwanted) + collateral)
                  .WithReserve(side, b.Reserve(side) - out).Supply(collateral)
  {
    hide Set, Get, Move;
    var unwanted := side.Other();
    SetTwice(b.Shares(unwanted), user, b.Bal(unwanted, user) + collateral, b.Bal(unwanted, user));
    SetTwice(b.Shares(side), user, b.Bal(side, user) + collateral, b.Bal(side, user) + collateral + out);
  }
}
