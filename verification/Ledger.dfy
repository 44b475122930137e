/** The bill of one request: items with rounded-up subtotals and two running totals. */
module Ledger {

  /** The least integer not below x. */
  function Ceil(x: real): (c: int)
    ensures x <= c as real < x + 1.0
  {
    -((-x).Floor)
  }

  lemma CeilOfInt(n: int)
    ensures Ceil(n as real) == n
  {
  }

  datatype BillItem = BillItem(description: string, amount: real, quantity: real, subtotal: int)

  /** An item as `__post_init__` leaves it. */
  function Item(description: string, amount: real, quantity: real): BillItem {
    BillItem(description, amount, quantity, Ceil(amount * quantity))
  }

  function Total(items: seq<BillItem>): int {
    if items == [] then 0 else Total(items[..|items| - 1]) + items[|items| - 1].subtotal
  }

  lemma {:induction false} TotalConcat(a: seq<BillItem>, b: seq<BillItem>)
    ensures Total(a + b) == Total(a) + Total(b)
    decreases |b|
  {
    if b == [] {
      assert a + b == a;
    } else {
      assert (a + b)[..|a + b| - 1] == a + b[..|b| - 1];
      TotalConcat(a, b[..|b| - 1]);
    }
  }

  lemma TotalOfOne(item: BillItem)
    ensures Total([item]) == item.subtotal
  {
    assert [item][..0] == [];
  }

  datatype Bill = Bill(purchases: seq<BillItem>, refunds: seq<BillItem>, purchaseTotal: int, refundTotal: int, total: int)

  class Cost {
    var purchaseItems: seq<BillItem>
    var refundItems: seq<BillItem>
    var purchaseCost: int
    var refundCost: int
    var lastTotal: int

    /** The running totals are the totals of the listed items. */
    ghost predicate Balanced()
      reads this
    {
      purchaseCost == Total(purchaseItems) && refundCost == Total(refundItems)
    }

    constructor ()
      ensures Balanced() && purchaseItems == [] && refundItems == [] && purchaseCost == refundCost == lastTotal == 0
    {
      purchaseItems, refundItems := [], [];
      purchaseCost, refundCost, lastTotal := 0, 0, 0;
    }

    method Purchase(description: string, amount: real, quantity: real)
      modifies `purchaseItems, `purchaseCost
      ensures purchaseItems == old(purchaseItems) + [BillItem(description, amount, quantity, Ceil(amount * quantity))]
      ensures purchaseCost == old(purchaseCost) + Ceil(amount * quantity)
      ensures old(Balanced()) ==> Balanced()
    {
      var item := Item(description, amount, quantity);
      TotalConcat(purchaseItems, [item]);
      TotalOfOne(item);
      purchaseItems := purchaseItems + [item];
      purchaseCost := purchaseCost + item.subtotal;
    }

    method Refund(description: string, amount: real, quantity: real)
      modifies `refundItems, `refundCost
      ensures refundItems == old(refundItems) + [BillItem(description, amount, quantity, Ceil(amount * quantity))]
      ensures refundCost == old(refundCost) + Ceil(amount * quantity)
      ensures old(Balanced()) ==> Balanced()
    {
      var item := Item(description, amount, quantity);
      TotalConcat(refundItems, [item]);
      TotalOfOne(item);
      refundItems := refundItems + [item];
      refundCost := refundCost + item.subtotal;
    }

    method ResetBill(force: bool)
      modifies this
      ensures Balanced() && purchaseItems == [] && refundItems == [] && purchaseCost == refundCost == 0
      ensures lastTotal == if force then 0 else old(lastTotal)
    {
      purchaseItems, refundItems := [], [];
      purchaseCost, refundCost := 0, 0;
      if force {
        lastTotal := 0;
      }
    }

    method GenerateBill() returns (bill: Bill)
      ensures bill.purchases == purchaseItems && bill.refunds == refundItems
      ensures bill.purchaseTotal == purchaseCost && bill.refundTotal == refundCost
      ensures bill.total == bill.purchaseTotal - bill.refundTotal
      ensures Balanced() ==> bill.total == Total(bill.purchases) - Total(bill.refunds)
    {
      bill := Bill(purchaseItems, refundItems, purchaseCost, refundCost, purchaseCost - refundCost);
    }

    /** `__add__`, as written: the refund list is extended with itself, not with the refund
        list of `other`.  The bill stays balanced exactly when the two lists have the same
        total. */
    method Add(other: Cost)
      modifies this
      ensures purchaseItems == old(purchaseItems) + old(other.purchaseItems)
      ensures refundItems == old(refundItems) + old(refundItems)
      ensures purchaseCost == old(purchaseCost) + old(other.purchaseCost)
      ensures refundCost == old(refundCost) + old(other.refundCost)
      ensures old(Balanced() && other.Balanced()) ==>
        (Balanced() <==> old(Total(refundItems) == Total(other.refundItems)))
    {
      TotalConcat(purchaseItems, other.purchaseItems);
      TotalConcat(refundItems, refundItems);
      purchaseItems := purchaseItems + other.purchaseItems;
      refundItems := refundItems + refundItems;
      purchaseCost := purchaseCost + other.purchaseCost;
      refundCost := refundCost + other.refundCost;
    }
  }

  /** Merging a bill with refunds into a fresh one loses them from the list: the merged
      bill states refunds it does not list. */
  method MergeIntoFresh(other: Cost) returns (sum: Cost)
    requires other.Balanced() && other.refundCost != 0
    ensures sum.refundCost == other.refundCost && sum.refundItems == [] && !sum.Balanced()
  {
    sum := new Cost();
    sum.Add(other);
  }

  /* ---------- rounding once or per item ---------- */

  function SumReal(xs: seq<real>): real {
    if xs == [] then 0.0 else SumReal(xs[1..]) + xs[0]
  }

  function SumCeil(xs: seq<real>): int {
    if xs == [] then 0 else SumCeil(xs[1..]) + Ceil(xs[0])
  }

  lemma {:induction false} SumCeilBounds(xs: seq<real>)
    ensures SumReal(xs) <= SumCeil(xs) as real
    ensures xs != [] ==> SumCeil(xs) as real < SumReal(xs) + |xs| as real
  {
    if xs != [] {
      SumCeilBounds(xs[1..]);
    }
  }

  /** Rounding each of n amounts up costs at least as much as rounding their sum up once,
      and less than n more. */
  lemma RoundingPerItem(xs: seq<real>)
    requires xs != []
    ensures Ceil(SumReal(xs)) <= SumCeil(xs) < Ceil(SumReal(xs)) + |xs|
  {
    SumCeilBounds(xs);
  }
}
