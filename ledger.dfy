/**
 The account ledger: wallet addresses mapped to balances. A wallet that has
 never been credited is absent and reads as a zero balance; a payout creates
 it with balance 0 and then credits it.
 */
module Ledger {

  type Address = string

  type Wallets = map<Address, real>

  /** The balance of an address, zero for a wallet that does not exist yet. */
  function Balance(w: Wallets, a: Address): real {
    if a in w then w[a] else 0.0
  }

  /** Credit `amount` to the wallet at `a`, creating the wallet if it is absent. */
  function Credit(w: Wallets, a: Address, amount: real): (r: Wallets)
    ensures a in r && r[a] == Balance(w, a) + amount
    ensures r.Keys == w.Keys + {a}
    ensures forall b :: b in w && b != a ==> r[b] == w[b]
  {
    w[a := Balance(w, a) + amount]
  }

  /** k successive credits of the same amount to the same address. */
  function CreditRepeatedly(w: Wallets, a: Address, amount: real, k: nat): Wallets {
    if k == 0 then w else Credit(CreditRepeatedly(w, a, amount, k - 1), a, amount)
  }

  /** k payouts of a constant reward r add k * r to the miner and leave every other wallet alone. */
  lemma {:induction false} RepeatedCreditAdds(w: Wallets, a: Address, amount: real, k: nat)
    ensures Balance(CreditRepeatedly(w, a, amount, k), a) == Balance(w, a) + k as real * amount
    ensures CreditRepeatedly(w, a, amount, k).Keys == if k == 0 then w.Keys else w.Keys + {a}
    ensures forall b :: b != a ==> Balance(CreditRepeatedly(w, a, amount, k), b) == Balance(w, b)
  {
    if k > 0 {
      RepeatedCreditAdds(w, a, amount, k - 1);
    }
  }

  /** Five blocks mined to a new address at reward 50 leave it a balance of 250. */
  lemma FiveRewardsOfFifty(w: Wallets, a: Address)
    requires a !in w
    ensures Balance(CreditRepeatedly(w, a, 50.0, 5), a) == 250.0
  {
    RepeatedCreditAdds(w, a, 50.0, 5);
  }
}
