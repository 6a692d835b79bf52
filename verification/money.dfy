/** The order pricing of 2/2/refactoring.js: an immutable `Money` value whose
    `add` refuses mixed currencies, items built by a factory with a default
    kind, and an order total folded from zero hryvnias. A thrown `Error` is a
    `Failure` carrying its message. Amounts are exact reals. */
module Pricing {
  import opened Wrappers

  const DefaultCurrency: string := "UAH"
  const NegativeAmount: string := "Amount cannot be negative"
  const CurrencyMismatch: string := "Cannot add money with different currencies"
  const FoodDiscountRate: real := 0.9
  const ElectronicsTaxRate: real := 1.2

  datatype Money = Money(amount: real, currency: string)

  /** `new Money(amount, currency)`: a negative amount throws. */
  function NewMoney(amount: real, currency: string): (r: Result<Money, string>)
    ensures r.Success? <==> amount >= 0.0
    ensures r.Success? ==> r.value.amount == amount && r.value.currency == currency
    ensures r.Failure? ==> r.error == NegativeAmount
  {
    if amount < 0.0 then Failure(NegativeAmount) else Success(Money(amount, currency))
  }

  /** `Money.zero(currency)`. */
  function Zero(currency: string): (r: Money)
    ensures r.amount == 0.0 && r.currency == currency
  {
    Money(0.0, currency)
  }

  /** `add(other)`: the sum in the shared currency, or an error when the
      currencies differ. The sum goes through the constructor, which only
      refuses it when an operand was negative to begin with. */
  function Add(m: Money, other: Money): (r: Result<Money, string>)
    ensures r.Success? <==> m.currency == other.currency && m.amount + other.amount >= 0.0
    ensures m.amount >= 0.0 && other.amount >= 0.0 ==> (r.Success? <==> m.currency == other.currency)
    ensures r.Failure? ==> r.error == if m.currency != other.currency then CurrencyMismatch else NegativeAmount
    ensures r.Success? ==> r.value.amount == m.amount + other.amount && r.value.currency == m.currency
  {
    if m.currency != other.currency then Failure(CurrencyMismatch)
    else NewMoney(m.amount + other.amount, m.currency)
  }

  /** `multiply(multiplier)`: the scaled amount in the same currency; the
      constructor still refuses a negative result. */
  function Multiply(m: Money, multiplier: real): (r: Result<Money, string>)
    ensures r.Success? <==> m.amount * multiplier >= 0.0
    ensures r.Success? ==> r.value == Money(m.amount * multiplier, m.currency)
  {
    NewMoney(m.amount * multiplier, m.currency)
  }

  /** `equals(other)`: both amount and currency match. */
  function Equals(m: Money, other: Money): (r: bool)
    ensures r <==> m.amount == other.amount && m.currency == other.currency
    ensures r <==> m == other
  {
    m.amount == other.amount && m.currency == other.currency
  }

  /** Zero in a currency is a neutral element of `add` in that currency. */
  lemma ZeroNeutral(m: Money)
    requires m.amount >= 0.0
    ensures Add(Zero(m.currency), m) == Success(m)
    ensures Add(m, Zero(m.currency)) == Success(m)
  {
  }

  /** `add` does not depend on the order of its operands. */
  lemma AddCommutes(m: Money, other: Money)
    ensures Add(m, other) == Add(other, m)
  {
  }

  datatype ItemKind = Food | Electronics | Regular

  /** An item holds a non-negative price, as only a constructed `Money` can be
      passed to it. */
  datatype Item = Item(name: string, basePrice: Money, kind: ItemKind)

  /** `ItemFactory.itemTypeMap.get(type) || RegularItem`. */
  function KindOf(typ: string): (k: ItemKind)
    ensures k == Food <==> typ == "food"
    ensures k == Electronics <==> typ == "electronics"
  {
    if typ == "food" then Food else if typ == "electronics" then Electronics else Regular
  }

  /** `ItemFactory.createItem({ name, price, type })`: the price is made into
      money first, so a negative price throws whatever the type. */
  function CreateItem(name: string, price: real, typ: string): (r: Result<Item, string>)
    ensures r.Success? <==> price >= 0.0
    ensures r.Failure? ==> r.error == NegativeAmount
    ensures r.Success? ==> r.value == Item(name, Money(price, DefaultCurrency), KindOf(typ))
  {
    match NewMoney(price, DefaultCurrency)
    case Failure(e) => Failure(e)
    case Success(m) => Success(Item(name, m, KindOf(typ)))
  }

  /** `calculateFinalPrice()`: food is discounted, electronics taxed, and any
      other item keeps its base price. */
  function FinalPrice(item: Item): (r: Money)
    requires item.basePrice.amount >= 0.0
    ensures r.currency == item.basePrice.currency && r.amount >= 0.0
    ensures item.kind == Regular ==> r == item.basePrice
  {
    match item.kind
    case Food => Money(item.basePrice.amount * FoodDiscountRate, item.basePrice.currency)
    case Electronics => Money(item.basePrice.amount * ElectronicsTaxRate, item.basePrice.currency)
    case Regular => item.basePrice
  }

  /** The multiplied prices are what `multiply` returns for those rates. */
  lemma FinalPriceByMultiply(item: Item)
    requires item.basePrice.amount >= 0.0
    ensures item.kind == Food ==> Multiply(item.basePrice, FoodDiscountRate) == Success(FinalPrice(item))
    ensures item.kind == Electronics ==> Multiply(item.basePrice, ElectronicsTaxRate) == Success(FinalPrice(item))
  {
  }

  predicate Priced(items: seq<Item>)
  {
    forall i :: 0 <= i < |items| ==> items[i].basePrice.amount >= 0.0
  }

  predicate AllIn(items: seq<Item>, currency: string)
  {
    forall i :: 0 <= i < |items| ==> items[i].basePrice.currency == currency
  }

  /** The sum of the final prices' amounts. */
  function SumFinal(items: seq<Item>): real
    requires Priced(items)
    decreases |items|
  {
    if |items| == 0 then 0.0 else FinalPrice(items[0]).amount + SumFinal(items[1..])
  }

  datatype Order = Order(items: seq<Item>, customerName: string)

  /** `items.reduce((total, item) => total.add(item.calculateFinalPrice()), acc)`:
      the first failing `add` aborts the fold. */
  function FoldAdd(acc: Money, items: seq<Item>): Result<Money, string>
    requires Priced(items) && acc.amount >= 0.0
    decreases |items|
  {
    if |items| == 0 then Success(acc)
    else
      match Add(acc, FinalPrice(items[0]))
      case Failure(e) => Failure(e)
      case Success(s) => FoldAdd(s, items[1..])
  }

  /** The fold succeeds exactly when every item is in the accumulator's
      currency, and then adds up all final prices. */
  lemma {:induction false} FoldAddSpec(acc: Money, items: seq<Item>)
    requires Priced(items) && acc.amount >= 0.0
    ensures FoldAdd(acc, items).Success? <==> AllIn(items, acc.currency)
    ensures FoldAdd(acc, items).Failure? ==> FoldAdd(acc, items).error == CurrencyMismatch
    ensures FoldAdd(acc, items).Success? ==>
      FoldAdd(acc, items).value == Money(acc.amount + SumFinal(items), acc.currency)
    decreases |items|
  {
    if |items| > 0 {
      var first := FinalPrice(items[0]);
      if first.currency == acc.currency {
        FoldAddSpec(Money(acc.amount + first.amount, acc.currency), items[1..]);
        assert AllIn(items, acc.currency) <==> AllIn(items[1..], acc.currency);
      }
    }
  }

  /** `calculateTotal()`: a fold of `add` starting from zero hryvnias. */
  function CalculateTotal(order: Order): (r: Result<Money, string>)
    requires Priced(order.items)
    ensures |order.items| == 0 ==> r == Success(Zero(DefaultCurrency))
  {
    FoldAdd(Zero(DefaultCurrency), order.items)
  }

  /** An all-hryvnia order totals the sum of its final prices; an item in any
      other currency makes the total throw. */
  lemma TotalSpec(order: Order)
    requires Priced(order.items)
    ensures CalculateTotal(order).Success? <==> AllIn(order.items, DefaultCurrency)
    ensures CalculateTotal(order).Success? ==>
      CalculateTotal(order).value == Money(SumFinal(order.items), DefaultCurrency)
    ensures CalculateTotal(order).Failure? ==> CalculateTotal(order).error == CurrencyMismatch
  {
    FoldAddSpec(Zero(DefaultCurrency), order.items);
  }

  /** Every factory-made item is priced in hryvnias, so an order of them
      always has a total. */
  lemma {:induction false} FactoryItemsTotal(order: Order, names: seq<string>, prices: seq<real>, types: seq<string>)
    requires |names| == |prices| == |types| == |order.items|
    requires forall i :: 0 <= i < |order.items| ==> CreateItem(names[i], prices[i], types[i]) == Success(order.items[i])
    ensures Priced(order.items)
    ensures CalculateTotal(order).Success?
  {
    assert AllIn(order.items, DefaultCurrency);
    TotalSpec(order);
  }
}
