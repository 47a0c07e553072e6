/** The administrator's customer queries (Controllers/CustomerController.cs):
    the paged customer list and one customer, each with the number of that
    customer's completed purchases. */
module Customers {
  import opened Base
  import opened Seqs
  import opened Models

  /** What the customer endpoints answer for one user. */
  datatype CustomerSummary = CustomerSummary(
    id: int,
    firstName: string,
    lastName: string,
    email: string,
    phone: string,
    isActive: bool,
    createdAt: int,
    lastLoginAt: Option<int>,
    purchaseCount: nat)

  predicate IsCustomer(u: User) {
    u.role == Customer
  }

  /** The Completed sales of the customer `id`. */
  function CompletedBy(id: int): Sale -> bool {
    (x: Sale) => x.customerId == id && x.status == Completed
  }

  /** The number of the user's sales whose status is Completed. */
  function PurchaseCount(sales: seq<Sale>, id: int): (r: nat)
    ensures r <= |sales|
    ensures r == |Filter(sales, CompletedBy(id))|
  {
    CountIsFilterLength(sales, CompletedBy(id));
    Count(sales, CompletedBy(id))
  }

  /** The profile of `u` together with its purchase count. */
  function Summarize(sales: seq<Sale>, u: User): (r: CustomerSummary)
    ensures r.id == u.id && r.email == u.email && r.purchaseCount == PurchaseCount(sales, u.id)
  {
    CustomerSummary(u.id, u.firstName, u.lastName, u.email, u.phone, u.isActive,
                    u.createdAt, u.lastLoginAt, PurchaseCount(sales, u.id))
  }

  /** The summaries of `us`, in order. */
  function Summaries(sales: seq<Sale>, us: seq<User>): (r: seq<CustomerSummary>)
    ensures |r| == |us|
    ensures forall k :: 0 <= k < |us| ==> r[k] == Summarize(sales, us[k])
  {
    seq(|us|, k requires 0 <= k < |us| => Summarize(sales, us[k]))
  }

  /** `data` summarizes the run of `us` starting at index `lo`. */
  ghost predicate SummarizesRun(sales: seq<Sale>, us: seq<User>, data: seq<CustomerSummary>, lo: int) {
    0 <= lo <= |us| - |data| && forall k :: 0 <= k < |data| ==> data[k] == Summarize(sales, us[lo + k])
  }

  lemma SummariesOfRun(sales: seq<Sale>, us: seq<User>, run: seq<User>, lo: int)
    requires RunAt(us, run, lo)
    ensures SummarizesRun(sales, us, Summaries(sales, run), lo)
  {
  }

  /** `data` summarizes, one for one, the slice of `us` that starts at the
      computed offset of `page` and holds at most `pageSize` users; said of a
      non-negative offset and page size only. */
  ghost predicate SummarizesPage(sales: seq<Sale>, us: seq<User>, data: seq<CustomerSummary>,
                                 page: int, pageSize: int)
    requires IsInt32(page) && IsInt32(pageSize)
  {
    Offset(page, pageSize) >= 0 && pageSize >= 0 ==>
      var lo := Min(Offset(page, pageSize), |us|);
      |data| == Min(lo + pageSize, |us|) - lo && SummarizesRun(sales, us, data, lo)
  }

  lemma PageSummaries(sales: seq<Sale>, us: seq<User>, page: int, pageSize: int)
    requires IsInt32(page) && IsInt32(pageSize)
    ensures SummarizesPage(sales, us, Summaries(sales, PageOf(us, page, pageSize)), page, pageSize)
  {
    var pg := PageOf(us, page, pageSize);
    PageIsSlice(us, page, pageSize);
    if Offset(page, pageSize) >= 0 && pageSize >= 0 {
      var lo := Min(Offset(page, pageSize), |us|);
      assert RunAt(us, pg, lo);
      SummariesOfRun(sales, us, pg, lo);
    }
  }

  /** `GetCustomers`: the users whose role is Customer, in store order, one
      page at a time; `totalCount` counts them all before paging. */
  function GetCustomers(s: Store, page: int, pageSize: int): (r: Paged<CustomerSummary>)
    requires IsInt32(page) && IsInt32(pageSize)
    ensures r.totalCount == Count(s.users, IsCustomer)
    ensures pageSize >= 0 ==> |r.data| <= pageSize
    ensures exists lo :: SummarizesRun(s.sales, Filter(s.users, IsCustomer), r.data, lo)
    ensures SummarizesPage(s.sales, Filter(s.users, IsCustomer), r.data, page, pageSize)
    ensures r.currentPage == page && r.pageSize == pageSize
  {
    var customers := Filter(s.users, IsCustomer);
    CountIsFilterLength(s.users, IsCustomer);
    var pg := PageOf(customers, page, pageSize);
    PageIsSlice(customers, page, pageSize);
    var data := Summaries(s.sales, pg);
    assert exists lo :: SummarizesRun(s.sales, customers, data, lo) by {
      var lo :| RunAt(customers, pg, lo);
      SummariesOfRun(s.sales, customers, pg, lo);
    }
    PageSummaries(s.sales, customers, page, pageSize);
    Paged(data, page, pageSize, |customers|)
  }

  /** Every entry of a page summarizes some user of the store whose role is
      Customer. */
  lemma ListedAreCustomers(s: Store, page: int, pageSize: int)
    requires IsInt32(page) && IsInt32(pageSize)
    ensures var data := GetCustomers(s, page, pageSize).data;
      forall k :: 0 <= k < |data| ==>
        exists u :: u in s.users && IsCustomer(u) && data[k] == Summarize(s.sales, u)
  {
    var customers := Filter(s.users, IsCustomer);
    var data := GetCustomers(s, page, pageSize).data;
    var lo :| SummarizesRun(s.sales, customers, data, lo);
    forall k | 0 <= k < |data|
      ensures exists u :: u in s.users && IsCustomer(u) && data[k] == Summarize(s.sales, u)
    {
      assert customers[lo + k] in customers;
    }
  }

  /** `GetCustomer`: the user with that id, provided its role is Customer;
      an unknown id and an administrator's id are both NotFound. */
  function GetCustomer(s: Store, id: int): (r: Result<CustomerSummary>)
    ensures r.Err? ==> r.error == NotFound
    ensures r.Err? <==> forall j :: 0 <= j < |s.users| ==> !(s.users[j].id == id && s.users[j].role == Customer)
    ensures r.Ok? ==> exists j :: (0 <= j < |s.users| && s.users[j].id == id &&
      s.users[j].role == Customer && r.value == Summarize(s.sales, s.users[j]))
  {
    match FirstIndex(s.users, (u: User) => u.id == id && u.role == Customer)
    case None => Err(NotFound)
    case Some(j) => Ok(Summarize(s.sales, s.users[j]))
  }
}
