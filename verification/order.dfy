/**
  The records of order.c: an order waiting in a category buffer, the sale
  report a worker produces, and the comparator that orders sale reports in
  the accepted and rejected ledgers. Money is kept in integer cents.
 */
module Order {

  /** An order taken from the orders stream (struct info_t). */
  datatype OrderInfo = OrderInfo(customerId: int, bookName: string, bookPrice: int)

  /** A processed order (struct sale_struct): the balance left after it was decided. */
  datatype Sale = Sale(customerId: int, bookTitle: string, bookPrice: int, remainingBalance: int)

  /** init_newOrder: the order record the producer hands to a category buffer. */
  function InitNewOrder(customerId: int, bookTitle: string, bookPrice: int): (r: OrderInfo)
    ensures r.customerId == customerId && r.bookName == bookTitle && r.bookPrice == bookPrice
  {
    OrderInfo(customerId, bookTitle, bookPrice)
  }

  /** createNewSale: the report a worker inserts into a ledger. */
  function CreateNewSale(customerId: int, bookTitle: string, bookPrice: int, remainingBalance: int): (r: Sale)
    ensures r.customerId == customerId && r.bookTitle == bookTitle
    ensures r.bookPrice == bookPrice && r.remainingBalance == remainingBalance
  {
    Sale(customerId, bookTitle, bookPrice, remainingBalance)
  }

  /**
    compareSales: negative when r1 belongs before r2 in a ledger. Customers
    ascend; within one customer the larger remaining balance comes first,
    which is the earlier deduction.
   */
  function CompareSales(r1: Sale, r2: Sale): (r: int)
    ensures r == -1 || r == 0 || r == 1
    ensures r < 0 <==> r1.customerId < r2.customerId
                       || (r1.customerId == r2.customerId && r1.remainingBalance > r2.remainingBalance)
    ensures r > 0 <==> r1.customerId > r2.customerId
                       || (r1.customerId == r2.customerId && r1.remainingBalance < r2.remainingBalance)
    ensures r == 0 <==> r1.customerId == r2.customerId && r1.remainingBalance == r2.remainingBalance
  {
    if r1.customerId > r2.customerId then 1
    else if r1.customerId < r2.customerId then -1
    else if r1.remainingBalance > r2.remainingBalance then -1
    else if r1.remainingBalance < r2.remainingBalance then 1
    else 0
  }

  /** "a may stand before b" in a ledger. */
  predicate SaleLe(a: Sale, b: Sale) {
    CompareSales(a, b) <= 0
  }

  ghost predicate Reflexive(rel: (Sale, Sale) -> bool) {
    forall x :: rel(x, x)
  }

  ghost predicate Transitive(rel: (Sale, Sale) -> bool) {
    forall x, y, z :: rel(x, y) && rel(y, z) ==> rel(x, z)
  }

  ghost predicate StronglyConnected(rel: (Sale, Sale) -> bool) {
    forall x, y :: rel(x, y) || rel(y, x)
  }

  ghost predicate TotalPreorder(rel: (Sale, Sale) -> bool) {
    Reflexive(rel) && Transitive(rel) && StronglyConnected(rel)
  }

  lemma CompareSalesAntisymmetric(a: Sale, b: Sale)
    ensures CompareSales(a, b) == -CompareSales(b, a)
  {
  }

  lemma CompareSalesTransitive(a: Sale, b: Sale, c: Sale)
    ensures CompareSales(a, b) <= 0 && CompareSales(b, c) <= 0 ==> CompareSales(a, c) <= 0
    ensures CompareSales(a, b) < 0 && CompareSales(b, c) <= 0 ==> CompareSales(a, c) < 0
    ensures CompareSales(a, b) == 0 && CompareSales(b, c) == 0 ==> CompareSales(a, c) == 0
  {
  }

  /** Ledger order is a total preorder: every pair is comparable and the order chains. */
  lemma SaleLeIsTotalPreorder()
    ensures TotalPreorder(SaleLe)
  {
    forall x, y, z | SaleLe(x, y) && SaleLe(y, z)
      ensures SaleLe(x, z)
    {
      CompareSalesTransitive(x, y, z);
    }
  }

  /** Only the customer id and the remaining balance take part in the comparison. */
  lemma CompareSalesIgnoresTitleAndPrice(a: Sale, b: Sale, title: string, price: int)
    ensures CompareSales(a.(bookTitle := title, bookPrice := price), b) == CompareSales(a, b)
    ensures CompareSales(a, b.(bookTitle := title, bookPrice := price)) == CompareSales(a, b)
  {
  }
}
