/**
  The two keyed registries: customers by id and order buffers by category.
  The hash table itself is a map; what is modelled is the registry's own
  policy on top of it: the first record stored under a key wins, a
  duplicate is refused with code 1, and a lookup of a missing key gives NULL.
 */
module HashMap {
  import opened Wrappers
  import opened OrderBuffers

  /** A customer record; the balance is in cents. */
  datatype Customer = Customer(name: string, address: string, state: string, zip: string, balance: int)

  type CustomerHash = map<int, Customer>
  type BufferHash = map<string, OrderBuffer>

  /** The insert policy shared by both registries. */
  function AddKey<K, V>(m: map<K, V>, k: K, v: V): (r: (map<K, V>, int))
    ensures r.1 == 0 <==> k !in m
    ensures r.1 == 1 <==> k in m
    ensures r.0.Keys == m.Keys + {k}
    ensures r.0[k] == if k in m then m[k] else v
    ensures forall j :: j in m ==> r.0[j] == m[j]
  {
    if k in m then (m, 1) else (m[k := v], 0)
  }

  /** addCustomer: stores the record unless the id is already taken. */
  function AddCustomer(customerId: int, c: Customer, hash: CustomerHash): (r: (CustomerHash, int))
    ensures r.1 == 0 <==> customerId !in hash
    ensures r.1 == 1 <==> customerId in hash
    ensures r.1 == 1 ==> r.0 == hash
    ensures r.1 == 0 ==> r.0.Keys == hash.Keys + {customerId} && r.0[customerId] == c
    ensures forall j :: j != customerId ==> GetCustomer(j, r.0) == GetCustomer(j, hash)
  {
    AddKey(hash, customerId, c)
  }

  /** getCustomer: the stored record, or NULL for an unknown id. */
  function GetCustomer(customerId: int, hash: CustomerHash): (r: Option<Customer>)
    ensures r.Some? <==> customerId in hash
    ensures r.Some? ==> r.value == hash[customerId]
  {
    if customerId in hash then Some(hash[customerId]) else None
  }

  /** addBuffer: stores the buffer unless the category is already taken. */
  function AddBuffer(category: string, ob: OrderBuffer, hash: BufferHash): (r: (BufferHash, int))
    ensures r.1 == 0 <==> category !in hash
    ensures r.1 == 1 <==> category in hash
    ensures r.1 == 1 ==> r.0 == hash
    ensures r.1 == 0 ==> r.0.Keys == hash.Keys + {category} && r.0[category] == ob
    ensures forall j :: j != category ==> GetBuffer(j, r.0) == GetBuffer(j, hash)
  {
    AddKey(hash, category, ob)
  }

  /** getBuffer: the stored buffer, or NULL for an unknown category. */
  function GetBuffer(category: string, hash: BufferHash): (r: Option<OrderBuffer>)
    ensures r.Some? <==> category in hash
    ensures r.Some? ==> r.value == hash[category]
  {
    if category in hash then Some(hash[category]) else None
  }

  /** After addCustomer, a lookup of the id finds the first record ever stored under it. */
  lemma AddThenGetCustomer(customerId: int, c: Customer, hash: CustomerHash)
    ensures var (h, code) := AddCustomer(customerId, c, hash);
            && (code == 0 ==> GetCustomer(customerId, h) == Some(c))
            && (code == 1 ==> GetCustomer(customerId, h) == GetCustomer(customerId, hash) && GetCustomer(customerId, h).Some?)
  {
  }

  /** After addBuffer, a lookup of the category finds the first buffer ever stored under it. */
  lemma AddThenGetBuffer(category: string, ob: OrderBuffer, hash: BufferHash)
    ensures var (h, code) := AddBuffer(category, ob, hash);
            && (code == 0 ==> GetBuffer(category, h) == Some(ob))
            && (code == 1 ==> GetBuffer(category, h) == GetBuffer(category, hash) && GetBuffer(category, h).Some?)
  {
  }

  /** Loading a sequence of customers one after another, as the database reader does. */
  function AddCustomers(hash: CustomerHash, entries: seq<(int, Customer)>): (r: CustomerHash)
    ensures hash.Keys <= r.Keys
    decreases |entries|
  {
    if |entries| == 0 then hash
    else AddCustomers(AddCustomer(entries[0].0, entries[0].1, hash).0, entries[1..])
  }

  /** The first record in `entries` carrying the id, if any. */
  function FirstWith(entries: seq<(int, Customer)>, customerId: int): (r: Option<Customer>)
    ensures r.Some? <==> exists i :: 0 <= i < |entries| && entries[i].0 == customerId
    ensures r.Some? ==> exists i :: 0 <= i < |entries| && entries[i] == (customerId, r.value) &&
                          forall j :: 0 <= j < i ==> entries[j].0 != customerId
    decreases |entries|
  {
    if |entries| == 0 then None
    else if entries[0].0 == customerId then Some(entries[0].1)
    else
      var r := FirstWith(entries[1..], customerId);
      assert forall i :: 0 <= i < |entries| - 1 ==> entries[1..][i] == entries[i + 1];
      r
  }

  /**
    First insertion wins over a whole load: every id ends up with the record
    it already had, or else with the first record of the load that carries it.
   */
  lemma {:induction false} AddCustomersFirstWins(hash: CustomerHash, entries: seq<(int, Customer)>, customerId: int)
    ensures GetCustomer(customerId, AddCustomers(hash, entries))
            == if customerId in hash then Some(hash[customerId]) else FirstWith(entries, customerId)
    decreases |entries|
  {
    if |entries| > 0 {
      var h := AddCustomer(entries[0].0, entries[0].1, hash).0;
      AddCustomersFirstWins(h, entries[1..], customerId);
    }
  }

  /** sort_customersByID: three-way comparison of customer ids. */
  function SortCustomersById(a: int, b: int): (r: int)
    ensures r == -1 <==> a < b
    ensures r == 0 <==> a == b
    ensures r == 1 <==> a > b
  {
    if a < b then -1 else if a > b then 1 else 0
  }

  /** The comparator is antisymmetric. */
  lemma SortCustomersByIdAntisymmetric(a: int, b: int)
    ensures SortCustomersById(a, b) == -SortCustomersById(b, a)
  {
  }

  /** Ids that the comparator finds in order pairwise adjacent are ascending throughout. */
  lemma {:induction false} AdjacentOrderIsAscending(ids: seq<int>)
    requires forall i :: 0 <= i < |ids| - 1 ==> SortCustomersById(ids[i], ids[i + 1]) <= 0
    ensures forall i, j :: 0 <= i < j < |ids| ==> ids[i] <= ids[j]
    decreases |ids|
  {
    if |ids| > 1 {
      AdjacentOrderIsAscending(ids[1..]);
      forall j | 1 <= j < |ids|
        ensures ids[0] <= ids[j]
      {
        assert ids[1..][j - 1] == ids[j];
        assert ids[0] <= ids[1];
      }
      forall i, j | 0 <= i < j < |ids|
        ensures ids[i] <= ids[j]
      {
        if i > 0 {
          assert ids[1..][i - 1] == ids[i] && ids[1..][j - 1] == ids[j];
        }
      }
    }
  }
}
