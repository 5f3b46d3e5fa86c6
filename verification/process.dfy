/**
  The sequential logic of the producer and the consumers, without threads:
  the producer routes each parsed order to its category's buffer (or drops
  it), and a consumer settles each order it takes against the customer
  database, recording the outcome in the accepted or the rejected ledger.
 */
module Processing {
  import opened Wrappers
  import opened Order
  import opened SortedList
  import opened OrderBuffers
  import opened HashMap
  import opened Trim

  /** The shared state a consumer works on. */
  datatype Ledgers = Ledgers(customers: CustomerHash, accepted: SortedList, rejected: SortedList)

  /** How one order was settled. */
  datatype Outcome = Accepted | Rejected | CustomerNotFound

  /** Both ledgers are well formed and sorted by the sale comparator. */
  ghost predicate LedgersWf(st: Ledgers) {
    && Wf(st.accepted) && Sorted(st.accepted.nodes)
    && Wf(st.rejected) && Sorted(st.rejected.nodes)
  }

  /** Linking a report into a ledger with SLInsert, which never fails on an allocated list. */
  function Record(l: SortedList, report: Sale): (r: SortedList)
    ensures multiset(Data(r.nodes)) == multiset(Data(l.nodes)) + multiset{report}
    ensures Wf(l) && Sorted(l.nodes) ==> Wf(r) && Sorted(r.nodes)
  {
    SLInsert(Some(l), report).0.value
  }

  /**
    The balance decision of processOrder (thread.c) for one order: a known
    customer who can afford the book pays for it and gets an accepted record
    carrying the new balance; one who cannot gets a rejected record carrying
    the current balance; an unknown customer changes nothing.
   */
  function ProcessOrder(st: Ledgers, item: OrderInfo): (r: (Ledgers, Outcome))
    ensures r.1 == Accepted <==>
              item.customerId in st.customers && st.customers[item.customerId].balance - item.bookPrice >= 0
    ensures r.1 == Rejected <==>
              item.customerId in st.customers && st.customers[item.customerId].balance - item.bookPrice < 0
    ensures r.1 == CustomerNotFound <==> item.customerId !in st.customers
    ensures r.0.customers.Keys == st.customers.Keys
    ensures forall j :: j in st.customers && j != item.customerId ==> r.0.customers[j] == st.customers[j]
    ensures r.1 == Accepted ==>
              var c := st.customers[item.customerId];
              var balance := c.balance - item.bookPrice;
              && balance >= 0
              && r.0.customers[item.customerId] == c.(balance := balance)
              && multiset(Data(r.0.accepted.nodes))
                 == multiset(Data(st.accepted.nodes)) + multiset{Sale(item.customerId, item.bookName, item.bookPrice, balance)}
              && r.0.rejected == st.rejected
    ensures r.1 == Rejected ==>
              var c := st.customers[item.customerId];
              && r.0.customers == st.customers
              && r.0.accepted == st.accepted
              && multiset(Data(r.0.rejected.nodes))
                 == multiset(Data(st.rejected.nodes)) + multiset{Sale(item.customerId, item.bookName, item.bookPrice, c.balance)}
    ensures r.1 == CustomerNotFound ==> r.0 == st
    ensures LedgersWf(st) ==> LedgersWf(r.0)
  {
    var cInfo := GetCustomer(item.customerId, st.customers);
    if cInfo.Some? && cInfo.value.balance - item.bookPrice >= 0 then
      var c := cInfo.value.(balance := cInfo.value.balance - item.bookPrice);
      var report := CreateNewSale(item.customerId, item.bookName, item.bookPrice, c.balance);
      var accepted := Record(st.accepted, report);
      assert multiset(Data(accepted.nodes)) == multiset(Data(st.accepted.nodes)) + multiset{report};
      (Ledgers(st.customers[item.customerId := c], accepted, st.rejected), Accepted)
    else if cInfo.Some? && cInfo.value.balance - item.bookPrice < 0 then
      var report := CreateNewSale(item.customerId, item.bookName, item.bookPrice, cInfo.value.balance);
      (Ledgers(st.customers, st.accepted, Record(st.rejected, report)), Rejected)
    else
      (st, CustomerNotFound)
  }

  /** Every customer's balance is non-negative. */
  ghost predicate BalancesNonNegative(customers: CustomerHash) {
    forall id :: id in customers ==> customers[id].balance >= 0
  }

  /**
    Every accepted record of a known customer carries a remaining balance at
    least the customer's current one: balances only go down.
   */
  ghost predicate LedgerTracksBalance(st: Ledgers) {
    forall s :: s in Data(st.accepted.nodes) && s.customerId in st.customers ==>
      s.remainingBalance >= st.customers[s.customerId].balance
  }

  /** Settling an order with a non-negative price keeps both invariants. */
  lemma ProcessOrderKeepsInvariants(st: Ledgers, item: OrderInfo)
    requires item.bookPrice >= 0
    requires BalancesNonNegative(st.customers) && LedgerTracksBalance(st)
    ensures BalancesNonNegative(ProcessOrder(st, item).0.customers)
    ensures LedgerTracksBalance(ProcessOrder(st, item).0)
  {
    var (st', outcome) := ProcessOrder(st, item);
    if outcome == Accepted {
      var id := item.customerId;
      var balance := st.customers[id].balance - item.bookPrice;
      var report := Sale(id, item.bookName, item.bookPrice, balance);
      forall s | s in Data(st'.accepted.nodes) && s.customerId in st'.customers
        ensures s.remainingBalance >= st'.customers[s.customerId].balance
      {
        assert s in multiset(Data(st'.accepted.nodes));
        if s != report {
          assert s in multiset(Data(st.accepted.nodes));
          assert s in Data(st.accepted.nodes);
        }
      }
    }
  }

  /** In a sorted list, a node that sorts strictly before another sits before it. */
  lemma SortedStrictlyBefore(nodes: seq<Node>, i: int, j: int)
    requires Sorted(nodes) && 0 <= i < |nodes| && 0 <= j < |nodes|
    requires CompareSales(nodes[i].data, nodes[j].data) < 0
    ensures i < j
  {
    if j < i {
      CompareSalesAntisymmetric(nodes[i].data, nodes[j].data);
    }
  }

  /**
    Per customer, the accepted ledger lists purchases in the order they were
    paid for: a new accepted record (for a positive price) sorts after every
    record of the same customer already in the ledger.
   */
  lemma AcceptedInPaymentOrder(st: Ledgers, item: OrderInfo)
    requires item.bookPrice > 0 && LedgerTracksBalance(st) && LedgersWf(st)
    requires ProcessOrder(st, item).1 == Accepted
    ensures var id := item.customerId;
            var report := Sale(id, item.bookName, item.bookPrice, st.customers[id].balance - item.bookPrice);
            var nodes := ProcessOrder(st, item).0.accepted.nodes;
            && (forall s :: s in Data(st.accepted.nodes) && s.customerId == id ==> CompareSales(s, report) < 0)
            && (forall i, j ::
                  (0 <= i < |nodes| && 0 <= j < |nodes| && nodes[j].data == report &&
                   nodes[i].data.customerId == id && nodes[i].data != report) ==> i < j)
  {
    var id := item.customerId;
    var report := Sale(id, item.bookName, item.bookPrice, st.customers[id].balance - item.bookPrice);
    var nodes := ProcessOrder(st, item).0.accepted.nodes;
    var before := Data(st.accepted.nodes);
    EarlierRecordsSortBefore(st, id, report);
    assert multiset(Data(nodes)) == multiset(before) + multiset{report};
    assert Sorted(nodes);
    forall i, j | 0 <= i < |nodes| && 0 <= j < |nodes| && nodes[j].data == report &&
                  nodes[i].data.customerId == id && nodes[i].data != report
      ensures i < j
    {
      NewRecordAfterOld(nodes, before, report, i, j);
    }
  }

  /** A record left with less than the customer's current balance sorts after all their earlier records. */
  lemma EarlierRecordsSortBefore(st: Ledgers, id: int, report: Sale)
    requires LedgerTracksBalance(st) && id in st.customers
    requires report.customerId == id && report.remainingBalance < st.customers[id].balance
    ensures forall s :: s in Data(st.accepted.nodes) && s.customerId == id ==> CompareSales(s, report) < 0
  {
  }

  /** A record that sorts after every earlier record of its customer is placed after each of them. */
  lemma NewRecordAfterOld(nodes: seq<Node>, before: seq<Sale>, report: Sale, i: int, j: int)
    requires Sorted(nodes) && multiset(Data(nodes)) == multiset(before) + multiset{report}
    requires forall s :: s in before && s.customerId == report.customerId ==> CompareSales(s, report) < 0
    requires 0 <= i < |nodes| && 0 <= j < |nodes| && nodes[j].data == report
    requires nodes[i].data.customerId == report.customerId && nodes[i].data != report
    ensures i < j
  {
    var s := nodes[i].data;
    assert s == Data(nodes)[i];
    assert s in multiset(Data(nodes));
    assert s in multiset(before);
    SortedStrictlyBefore(nodes, i, j);
  }

  /** Settling a whole sequence of orders, one after another. */
  function ProcessAll(st: Ledgers, items: seq<OrderInfo>): (r: (Ledgers, seq<Outcome>))
    ensures |r.1| == |items|
    ensures r.0.customers.Keys == st.customers.Keys
    ensures LedgersWf(st) ==> LedgersWf(r.0)
    decreases |items|
  {
    if |items| == 0 then (st, [])
    else
      var (st1, o) := ProcessOrder(st, items[0]);
      var (st2, os) := ProcessAll(st1, items[1..]);
      (st2, [o] + os)
  }

  /** Over any sequence of orders with non-negative prices, no balance goes negative. */
  lemma {:induction false} ProcessAllKeepsBalances(st: Ledgers, items: seq<OrderInfo>)
    requires forall k :: 0 <= k < |items| ==> items[k].bookPrice >= 0
    requires BalancesNonNegative(st.customers) && LedgerTracksBalance(st)
    ensures BalancesNonNegative(ProcessAll(st, items).0.customers)
    ensures LedgerTracksBalance(ProcessAll(st, items).0)
    decreases |items|
  {
    if |items| > 0 {
      ProcessOrderKeepsInvariants(st, items[0]);
      ProcessAllKeepsBalances(ProcessOrder(st, items[0]).0, items[1..]);
    }
  }

  /**
    A customer with 1000 cents orders two books of 600: the first is
    accepted and leaves 400, the second is rejected with 400 still there.
   */
  lemma SecondOrderRejected(c: Customer, title: string)
    requires c.balance == 1000
    ensures var st := Ledgers(map[7 := c], SLCreate(), SLCreate());
            var item := InitNewOrder(7, title, 600);
            var (st1, o1) := ProcessOrder(st, item);
            var (st2, o2) := ProcessOrder(st1, item);
            && o1 == Accepted && o2 == Rejected
            && st2.customers[7].balance == 400
            && Data(st2.accepted.nodes) == [Sale(7, title, 600, 400)]
            && Data(st2.rejected.nodes) == [Sale(7, title, 600, 400)]
  {
    var st := Ledgers(map[7 := c], SLCreate(), SLCreate());
    var item := InitNewOrder(7, title, 600);
    var (st1, o1) := ProcessOrder(st, item);
    assert |st1.accepted.nodes| == 1;
    assert Data(st1.accepted.nodes)[0] in multiset(Data(st1.accepted.nodes));
    var (st2, o2) := ProcessOrder(st1, item);
    assert |st2.rejected.nodes| == 1;
    assert Data(st2.rejected.nodes)[0] in multiset(Data(st2.rejected.nodes));
  }

  /**
    Two orders for one customer whose balance covers either book but not
    both: whichever is settled first is accepted, the other is rejected, and
    the balance is charged once.
   */
  lemma OnlyOneOfTwoAccepted(st: Ledgers, first: OrderInfo, second: OrderInfo)
    requires first.customerId == second.customerId && first.customerId in st.customers
    requires var b := st.customers[first.customerId].balance;
             b - first.bookPrice >= 0 && b - second.bookPrice >= 0 && b - first.bookPrice - second.bookPrice < 0
    ensures var (st1, o1) := ProcessOrder(st, first);
            var (st2, o2) := ProcessOrder(st1, second);
            && o1 == Accepted && o2 == Rejected
            && st2.customers[first.customerId].balance == st.customers[first.customerId].balance - first.bookPrice
  {
  }

  /**
    Why AcceptedInPaymentOrder needs a positive price: a free book leaves the
    balance where it was, so its record ties with the one before it, and the
    insert puts a tying record in front of the only node.
   */
  lemma ZeroPriceOrderSortsFirst(c: Customer, first: string, second: string)
    requires c.balance == 1000
    ensures var st := Ledgers(map[7 := c], SLCreate(), SLCreate());
            var (st1, o1) := ProcessOrder(st, InitNewOrder(7, first, 600));
            var (st2, o2) := ProcessOrder(st1, InitNewOrder(7, second, 0));
            && o1 == Accepted && o2 == Accepted
            && Data(st2.accepted.nodes) == [Sale(7, second, 0, 400), Sale(7, first, 600, 400)]
  {
    var st := Ledgers(map[7 := c], SLCreate(), SLCreate());
    var (st1, o1) := ProcessOrder(st, InitNewOrder(7, first, 600));
    assert st1.accepted == Insert(SLCreate(), Sale(7, first, 600, 400));
    var (st2, o2) := ProcessOrder(st1, InitNewOrder(7, second, 0));
    assert st2.accepted == Insert(st1.accepted, Sale(7, second, 0, 400));
  }

  /** Where the producer's order ended up. */
  datatype Dispatched =
    | Dropped                       // no buffer for the category
    | Waiting                       // the category's buffer is full; the producer waits
    | Queued(buffers: BufferHash)   // the order joined its buffer

  /** Every registered buffer is well formed. */
  ghost predicate BuffersWf(buffers: BufferHash) {
    forall k :: k in buffers ==> Consistent(buffers[k])
  }

  /** The order joins the back of the buffer registered for `cat`; no other buffer changes. */
  function Enqueue(buffers: BufferHash, cat: string, o: OrderInfo): (r: BufferHash)
    requires BuffersWf(buffers) && cat in buffers && buffers[cat].count < buffers[cat].size
    ensures r.Keys == buffers.Keys
    ensures BuffersWf(r)
    ensures Contents(r[cat]) == Contents(buffers[cat]) + [o]
    ensures forall k :: k in buffers && k != cat ==> r[k] == buffers[k]
  {
    var r := buffers[cat := Put(buffers[cat], o)];
    assert BuffersWf(r) by {
      forall k | k in r
        ensures Consistent(r[k])
      {
        if k != cat {
          assert r[k] == buffers[k];
        }
      }
    }
    r
  }

  /**
    One order through the producer (thread.c): title and category are
    trimmed, an unknown category drops the order, and otherwise the order
    joins the back of its category's buffer once there is room.
   */
  function AddNewOrder(buffers: BufferHash, bookTitle: string, bookPrice: int, customerId: int, category: string): (r: Dispatched)
    requires BuffersWf(buffers)
    requires IsCString(bookTitle) && HasContent(bookTitle)
    requires IsCString(category) && HasContent(category)
    ensures r.Dropped? <==> Trimmed(category) !in buffers
    ensures r.Waiting? <==>
              Trimmed(category) in buffers && buffers[Trimmed(category)].count == buffers[Trimmed(category)].size
    ensures r.Queued? ==>
              var cat := Trimmed(category);
              && cat in buffers
              && r.buffers.Keys == buffers.Keys
              && BuffersWf(r.buffers)
              && Contents(r.buffers[cat]) == Contents(buffers[cat]) + [OrderInfo(customerId, Trimmed(bookTitle), bookPrice)]
              && forall k :: k in buffers && k != cat ==> r.buffers[k] == buffers[k]
  {
    var title := Trimmed(bookTitle);
    var cat := Trimmed(category);
    match GetBuffer(cat, buffers)
    case None => Dropped
    case Some(ob) =>
      if ob.count == ob.size then Waiting
      else Queued(Enqueue(buffers, cat, InitNewOrder(customerId, title, bookPrice)))
  }

  /** A category the buffer registry does not know drops the order. */
  lemma UnknownCategoryDropped(buffers: BufferHash, bookTitle: string, bookPrice: int, customerId: int, category: string)
    requires BuffersWf(buffers)
    requires IsCString(bookTitle) && HasContent(bookTitle)
    requires IsCString(category) && HasContent(category)
    requires GetBuffer(Trimmed(category), buffers).None?
    ensures AddNewOrder(buffers, bookTitle, bookPrice, customerId, category) == Dropped
  {
  }
}
