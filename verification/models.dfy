/** The dealership's records (the Models directory), the store that holds them
    (Data/AppDbContext.cs), the outcome of an endpoint, and the lookups every
    controller shares. Prices are integer cents; instants are integer
    seconds. */
module Models {
  import opened Base
  import opened Seqs
  import opened Ascii

  datatype UserRole = Customer | Admin
  datatype VehicleStatus = Available | Sold | Reserved | Maintenance
  datatype SaleStatus = Requested | Approved | Completed | Cancelled
  datatype OtpPurpose = Registration | Login | PurchaseRequest | UpdateVehicle

  datatype User = User(
    id: int,
    firstName: string,
    lastName: string,
    email: string,
    passwordHash: string,
    phone: string,
    role: UserRole,
    isActive: bool,
    createdAt: int,
    lastLoginAt: Option<int>)

  datatype Vehicle = Vehicle(
    id: int,
    make: string,
    model: string,
    year: int,
    color: string,
    vin: string,
    price: int,
    mileage: int,
    fuelType: string,
    transmission: string,
    description: string,
    status: VehicleStatus,
    createdAt: int,
    updatedAt: Option<int>)

  datatype Sale = Sale(
    id: int,
    vehicleId: int,
    customerId: int,
    salePrice: int,
    status: SaleStatus,
    requestedAt: int,
    completedAt: Option<int>,
    notes: string)

  /** One issued code. `email` is stored lower-cased by the OTP engine. */
  datatype OtpCode = OtpCode(
    email: string,
    code: string,
    purpose: OtpPurpose,
    createdAt: int,
    expiresAt: int,
    isUsed: bool,
    usedAt: Option<int>)

  /** The four tables, each in row order. */
  datatype Store = Store(
    users: seq<User>,
    vehicles: seq<Vehicle>,
    sales: seq<Sale>,
    otps: seq<OtpCode>)

  /** Why an endpoint refused a request. */
  datatype Error =
    | ValidationFailed      // the request body broke a validation attribute
    | Unauthorized          // a claim the endpoint needs is missing from the token
    | NotFound              // no vehicle, sale or customer with that id
    | InvalidOtp            // no unused, unexpired code matches
    | NotAvailable          // the vehicle's status is not Available
    | PendingRequestExists  // the caller already has a Requested sale on the vehicle
    | NotProcessable        // the sale's status is not Requested
    | DuplicateVin          // another vehicle holds the VIN
    | HasSales              // a sale references the vehicle
    | EmailTaken            // a user already has the email
    | InvalidCredentials    // unknown or inactive user, or wrong password
    | UserNotFound          // the OTP was right but no user has the email
    | Internal              // the store threw (a constraint failed)

  datatype Result<+T> = Ok(value: T) | Err(error: Error)

  /** What an endpoint answers, and the store it leaves behind. */
  datatype Response<+T> = Response(result: Result<T>, store: Store)

  /** A page of a list endpoint. `totalCount` counts the rows before paging. */
  datatype Paged<+T> = Paged(data: seq<T>, currentPage: int, pageSize: int, totalCount: nat)

  /** The role claim grants administrator views only when it says Admin. */
  predicate IsAdmin(role: Option<UserRole>) {
    role == Some(Admin)
  }

  // ---------------------------------------------------------------------
  // Lookups (`FindAsync` by primary key, `FirstOrDefault` by a column).

  function FindVehicle(vehicles: seq<Vehicle>, id: int): (r: Option<nat>)
    ensures r.Some? ==> r.value < |vehicles| && vehicles[r.value].id == id
    ensures r.Some? ==> forall j :: 0 <= j < r.value ==> vehicles[j].id != id
    ensures r.None? <==> forall j :: 0 <= j < |vehicles| ==> vehicles[j].id != id
  {
    FirstIndex(vehicles, (v: Vehicle) => v.id == id)
  }

  function FindSale(sales: seq<Sale>, id: int): (r: Option<nat>)
    ensures r.Some? ==> r.value < |sales| && sales[r.value].id == id
    ensures r.Some? ==> forall j :: 0 <= j < r.value ==> sales[j].id != id
    ensures r.None? <==> forall j :: 0 <= j < |sales| ==> sales[j].id != id
  {
    FirstIndex(sales, (x: Sale) => x.id == id)
  }

  function FindUser(users: seq<User>, id: int): (r: Option<nat>)
    ensures r.Some? ==> r.value < |users| && users[r.value].id == id
    ensures r.Some? ==> forall j :: 0 <= j < r.value ==> users[j].id != id
    ensures r.None? <==> forall j :: 0 <= j < |users| ==> users[j].id != id
  {
    FirstIndex(users, (u: User) => u.id == id)
  }

  /** `GetUserByEmailAsync`: the first user whose email equals `email`
      ignoring case. */
  function FindUserByEmail(users: seq<User>, email: string): (r: Option<nat>)
    ensures r.Some? ==> r.value < |users| && Lower(users[r.value].email) == Lower(email)
    ensures r.Some? ==> forall j :: 0 <= j < r.value ==> Lower(users[j].email) != Lower(email)
    ensures r.None? <==> forall j :: 0 <= j < |users| ==> Lower(users[j].email) != Lower(email)
  {
    FirstIndex(users, (u: User) => Lower(u.email) == Lower(email))
  }

  /** The vehicle with that id after its status is set to `status`; the store
      is unchanged when there is none. */
  function SetVehicleStatus(vehicles: seq<Vehicle>, id: int, status: VehicleStatus): (r: seq<Vehicle>)
    ensures |r| == |vehicles|
    ensures forall j :: 0 <= j < |r| ==> r[j] == vehicles[j].(status := r[j].status)
    ensures forall j :: 0 <= j < |r| && vehicles[j].id != id ==> r[j] == vehicles[j]
    ensures (exists j :: 0 <= j < |vehicles| && vehicles[j].id == id) ==>
      exists j :: 0 <= j < |r| && r[j].id == id && r[j].status == status
  {
    match FindVehicle(vehicles, id)
    case None => vehicles
    case Some(i) => vehicles[i := vehicles[i].(status := status)]
  }

  // ---------------------------------------------------------------------
  // Keys of the unique indexes.

  function UserId(u: User): int { u.id }
  function VehicleId(v: Vehicle): int { v.id }
  function SaleId(x: Sale): int { x.id }
  function Vin(v: Vehicle): string { v.vin }
  function EmailKey(u: User): string { Lower(u.email) }
}
