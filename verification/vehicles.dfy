/** The vehicle inventory (Controllers/VehicleController.cs): filtered and
    role-gated listing, lookup, and the administrator's add, OTP-gated update
    and delete. The caller's role and email claims are inputs. */
module Vehicles {
  import opened Base
  import opened Seqs
  import opened Ascii
  import opened Models
  import Otp

  // ---------------------------------------------------------------------
  // Listing.

  /** The query string of a listing. A text criterion that is absent or
      empty is not applied. */
  datatype VehicleFilter = VehicleFilter(
    make: Option<string>,
    model: Option<string>,
    minYear: Option<int>,
    maxYear: Option<int>,
    minPrice: Option<int>,
    maxPrice: Option<int>,
    color: Option<string>,
    fuelType: Option<string>,
    transmission: Option<string>,
    status: Option<VehicleStatus>,
    page: int,
    pageSize: int)

  /** A text criterion: absent, empty, or contained in the field ignoring
      case. */
  predicate TextMatches(field: string, query: Option<string>) {
    match query
    case None => true
    case Some(q) => q == "" || Contains(Lower(field), Lower(q))
  }

  predicate AtLeast(x: int, bound: Option<int>) {
    bound.None? || x >= bound.value
  }

  predicate AtMost(x: int, bound: Option<int>) {
    bound.None? || x <= bound.value
  }

  /** The listing's predicate: every supplied criterion holds, and a caller
      who is not an administrator sees only Available vehicles. */
  predicate Selected(f: VehicleFilter, role: Option<UserRole>, v: Vehicle) {
    && TextMatches(v.make, f.make)
    && TextMatches(v.model, f.model)
    && AtLeast(v.year, f.minYear) && AtMost(v.year, f.maxYear)
    && AtLeast(v.price, f.minPrice) && AtMost(v.price, f.maxPrice)
    && TextMatches(v.color, f.color)
    && TextMatches(v.fuelType, f.fuelType)
    && TextMatches(v.transmission, f.transmission)
    && (f.status.None? || v.status == f.status.value)
    && (IsAdmin(role) || v.status == Available)
  }

  function Selects(f: VehicleFilter, role: Option<UserRole>): Vehicle -> bool {
    (v: Vehicle) => Selected(f, role, v)
  }

  /** `GetVehicles`: the vehicles meeting the filter, in store order, one
      page at a time; `totalCount` counts them all before paging. */
  function GetVehicles(s: Store, f: VehicleFilter, role: Option<UserRole>): (r: Paged<Vehicle>)
    requires IsInt32(f.page) && IsInt32(f.pageSize)
    ensures forall v :: v in r.data ==> v in s.vehicles
    ensures forall v :: v in r.data ==> !IsAdmin(role) ==> v.status == Available
    ensures forall v :: v in r.data ==>
      && AtLeast(v.year, f.minYear) && AtMost(v.year, f.maxYear)
      && AtLeast(v.price, f.minPrice) && AtMost(v.price, f.maxPrice)
    ensures forall v :: v in r.data ==> f.status.Some? ==> v.status == f.status.value
    ensures forall v :: v in r.data ==> f.make.Some? && f.make.value != "" ==>
      Contains(Lower(v.make), Lower(f.make.value))
    ensures r.totalCount == |Filter(s.vehicles, Selects(f, role))|
    ensures f.pageSize >= 0 ==> |r.data| <= f.pageSize
    ensures exists lo :: RunAt(Filter(s.vehicles, Selects(f, role)), r.data, lo)
    ensures PageAtOffset(Filter(s.vehicles, Selects(f, role)), r.data, f.page, f.pageSize)
    ensures r.currentPage == f.page && r.pageSize == f.pageSize
  {
    var matching := Filter(s.vehicles, Selects(f, role));
    var data := PageOf(matching, f.page, f.pageSize);
    PageIsSlice(matching, f.page, f.pageSize);
    assert forall v :: v in data ==> v in matching;
    Paged(data, f.page, f.pageSize, |matching|)
  }

  /** `GetVehicle`: a missing vehicle, and for a caller who is not an
      administrator a vehicle that is not Available, are both NotFound. */
  function GetVehicle(s: Store, id: int, role: Option<UserRole>): (r: Result<Vehicle>)
    ensures r.Ok? ==> r.value in s.vehicles && r.value.id == id
    ensures r.Ok? ==> IsAdmin(role) || r.value.status == Available
    ensures r.Err? ==> r.error == NotFound
    ensures r.Err? <==> (forall j :: 0 <= j < |s.vehicles| ==> s.vehicles[j].id != id) ||
                        (!IsAdmin(role) && s.vehicles[FindVehicle(s.vehicles, id).value].status != Available)
  {
    match FindVehicle(s.vehicles, id)
    case None => Err(NotFound)
    case Some(i) =>
      if !IsAdmin(role) && s.vehicles[i].status != Available then Err(NotFound)
      else Ok(s.vehicles[i])
  }

  // ---------------------------------------------------------------------
  // Add, update, delete.

  /** The body of an add or update request. */
  datatype VehicleRequest = VehicleRequest(
    make: string,
    model: string,
    year: int,
    color: string,
    vin: string,
    price: int,
    mileage: int,
    fuelType: string,
    transmission: string,
    description: string)

  const MinYear: int := 1900
  const MaxYear: int := 2030
  const MaxMakeLength: int := 100
  const MaxModelLength: int := 100
  const MaxColorLength: int := 100
  const MaxVinLength: int := 20
  const MaxFuelTypeLength: int := 20
  const MaxTransmissionLength: int := 20
  const MaxDescriptionLength: int := 1000

  /** The validation attributes of the request body: make, model and VIN are
      required (not blank), every text has a maximum length in UTF-16 code
      units, the year lies in 1900..2030, the price is not negative and the
      mileage is a non-negative `int`. */
  predicate ValidRequest(req: VehicleRequest) {
    && HasContent(req.make) && Utf16Length(req.make) <= MaxMakeLength
    && HasContent(req.model) && Utf16Length(req.model) <= MaxModelLength
    && MinYear <= req.year <= MaxYear
    && Utf16Length(req.color) <= MaxColorLength
    && HasContent(req.vin) && Utf16Length(req.vin) <= MaxVinLength
    && req.price >= 0
    && 0 <= req.mileage <= Int32Max
    && Utf16Length(req.fuelType) <= MaxFuelTypeLength
    && Utf16Length(req.transmission) <= MaxTransmissionLength
    && Utf16Length(req.description) <= MaxDescriptionLength
  }

  /** `v` carries every field of the request. */
  predicate Carries(v: Vehicle, req: VehicleRequest) {
    && v.make == req.make && v.model == req.model && v.year == req.year
    && v.color == req.color && v.vin == req.vin && v.price == req.price
    && v.mileage == req.mileage && v.fuelType == req.fuelType
    && v.transmission == req.transmission && v.description == req.description
  }

  /** `v` with the request's fields written over its own. */
  function Overwrite(v: Vehicle, req: VehicleRequest): (r: Vehicle)
    ensures Carries(r, req)
    ensures r.id == v.id && r.status == v.status && r.createdAt == v.createdAt && r.updatedAt == v.updatedAt
  {
    v.(make := req.make, model := req.model, year := req.year, color := req.color,
       vin := req.vin, price := req.price, mileage := req.mileage, fuelType := req.fuelType,
       transmission := req.transmission, description := req.description)
  }

  predicate VinTaken(vehicles: seq<Vehicle>, vin: string) {
    exists j :: 0 <= j < |vehicles| && vehicles[j].vin == vin
  }

  /** `AddVehicle`. `newId` is the identity the store assigns. A VIN some
      vehicle already holds, compared exactly, is refused; otherwise one
      Available vehicle carrying the request is appended. */
  function AddVehicle(s: Store, req: VehicleRequest, now: int, newId: int): (r: Response<Vehicle>)
    ensures r.result.Err? ==> r.store == s
    ensures !ValidRequest(req) ==> r.result == Err(ValidationFailed)
    ensures ValidRequest(req) && VinTaken(s.vehicles, req.vin) ==> r.result == Err(DuplicateVin)
    ensures r.result.Ok? <==> ValidRequest(req) && !VinTaken(s.vehicles, req.vin)
    ensures r.result.Ok? ==>
      && Carries(r.result.value, req)
      && r.result.value.id == newId && r.result.value.status == Available
      && r.result.value.createdAt == now && r.result.value.updatedAt == None
      && r.store == s.(vehicles := s.vehicles + [r.result.value])
  {
    if !ValidRequest(req) then Response(Err(ValidationFailed), s)
    else if VinTaken(s.vehicles, req.vin) then Response(Err(DuplicateVin), s)
    else
      var v := Overwrite(Vehicle(newId, "", "", 0, "", "", 0, 0, "", "", "", Available, now, None), req);
      Response(Ok(v), s.(vehicles := s.vehicles + [v]))
  }

  /** `InitiateVehicleUpdate`: the vehicle must exist, then the email claim
      must be present; only then is an UpdateVehicle code issued. The code's
      scope is the email and purpose alone: it names no vehicle. */
  function InitiateUpdate(s: Store, id: int, email: string, now: int, draw: int): (r: Response<()>)
    requires Otp.ValidDraw(draw)
    ensures r.result.Err? ==> r.store == s
    ensures (forall j :: 0 <= j < |s.vehicles| ==> s.vehicles[j].id != id) ==> r.result == Err(NotFound)
    ensures FindVehicle(s.vehicles, id).Some? && email == "" ==> r.result == Err(Unauthorized)
    ensures r.result.Ok? <==> FindVehicle(s.vehicles, id).Some? && email != ""
    ensures r.result.Ok? ==>
      r.store == s.(otps := Otp.Generate(s.otps, email, OtpPurpose.UpdateVehicle, now, draw).otps)
  {
    if FindVehicle(s.vehicles, id).None? then Response(Err(NotFound), s)
    else if email == "" then Response(Err(Unauthorized), s)
    else Response(Ok(()), s.(otps := Otp.Generate(s.otps, email, OtpPurpose.UpdateVehicle, now, draw).otps))
  }

  /** Another vehicle than `id` holds `vin`. */
  predicate VinHeldByOther(vehicles: seq<Vehicle>, id: int, vin: string) {
    exists j :: 0 <= j < |vehicles| && vehicles[j].vin == vin && vehicles[j].id != id
  }

  /** `UpdateVehicle`. After the body and the email claim are checked the
      UpdateVehicle code is consumed, and only then is the vehicle looked up
      and a changed VIN checked against the other vehicles. On success every
      field of the request and the status are written, and the update instant
      stamped; the identity and creation instant are kept. */
  function UpdateVehicle(s: Store, id: int, req: VehicleRequest, status: VehicleStatus,
                         code: string, email: string, now: int): (r: Response<Vehicle>)
    ensures !ValidRequest(req) ==> r.result == Err(ValidationFailed) && r.store == s
    ensures ValidRequest(req) && email == "" ==> r.result == Err(Unauthorized) && r.store == s
    ensures ValidRequest(req) && email != "" ==>
      var v := Otp.Validate(s.otps, email, code, OtpPurpose.UpdateVehicle, now);
      && (!v.ok ==> r.result == Err(InvalidOtp) && r.store == s)
      && (v.ok ==> r.store.otps == v.otps)
    ensures r.result.Err? ==> r.store == s.(otps := r.store.otps)
    ensures (ValidRequest(req) && email != "" && Otp.Validate(s.otps, email, code, OtpPurpose.UpdateVehicle, now).ok) ==>
      var found := FindVehicle(s.vehicles, id);
      && (found.None? ==> r.result == Err(NotFound))
      && (found.Some? && s.vehicles[found.value].vin != req.vin && VinHeldByOther(s.vehicles, id, req.vin) ==>
            r.result == Err(DuplicateVin))
    ensures r.result.Ok? <==>
      && ValidRequest(req) && email != ""
      && Otp.Validate(s.otps, email, code, OtpPurpose.UpdateVehicle, now).ok
      && FindVehicle(s.vehicles, id).Some?
      && (s.vehicles[FindVehicle(s.vehicles, id).value].vin == req.vin || !VinHeldByOther(s.vehicles, id, req.vin))
    ensures r.result.Ok? ==> exists i :: (0 <= i < |s.vehicles| && s.vehicles[i].id == id
      && Carries(r.result.value, req)
      && r.result.value.status == status
      && r.result.value.id == id
      && r.result.value.createdAt == s.vehicles[i].createdAt
      && r.result.value.updatedAt == Some(now)
      && r.store.vehicles == s.vehicles[i := r.result.value])
    ensures r.result.Ok? ==> r.store.users == s.users && r.store.sales == s.sales
  {
    if !ValidRequest(req) then Response(Err(ValidationFailed), s)
    else if email == "" then Response(Err(Unauthorized), s)
    else
      var v := Otp.Validate(s.otps, email, code, OtpPurpose.UpdateVehicle, now);
      if !v.ok then Response(Err(InvalidOtp), s)
      else
        var s1 := s.(otps := v.otps);
        match FindVehicle(s.vehicles, id)
        case None => Response(Err(NotFound), s1)
        case Some(i) =>
          var vehicle := s.vehicles[i];
          if vehicle.vin != req.vin && VinHeldByOther(s.vehicles, id, req.vin) then Response(Err(DuplicateVin), s1)
          else
            var updated := Overwrite(vehicle, req).(status := status, updatedAt := Some(now));
            Response(Ok(updated), s1.(vehicles := s.vehicles[i := updated]))
  }

  /** Some sale, of any status, references the vehicle. */
  predicate Referenced(sales: seq<Sale>, id: int) {
    exists k :: 0 <= k < |sales| && sales[k].vehicleId == id
  }

  /** `DeleteVehicle`: a missing vehicle is NotFound; a vehicle any sale
      references is kept; otherwise exactly that vehicle is removed. */
  function DeleteVehicle(s: Store, id: int): (r: Response<()>)
    ensures r.result.Err? ==> r.store == s
    ensures (forall j :: 0 <= j < |s.vehicles| ==> s.vehicles[j].id != id) ==> r.result == Err(NotFound)
    ensures FindVehicle(s.vehicles, id).Some? && Referenced(s.sales, id) ==> r.result == Err(HasSales)
    ensures r.result.Ok? <==> FindVehicle(s.vehicles, id).Some? && !Referenced(s.sales, id)
    ensures r.result.Ok? ==> exists i :: (0 <= i < |s.vehicles| && s.vehicles[i].id == id &&
      |r.store.vehicles| == |s.vehicles| - 1 &&
      (forall k :: 0 <= k < i ==> r.store.vehicles[k] == s.vehicles[k]) &&
      (forall k :: i <= k < |r.store.vehicles| ==> r.store.vehicles[k] == s.vehicles[k + 1]))
    ensures r.result.Ok? ==> r.store == s.(vehicles := r.store.vehicles)
  {
    match FindVehicle(s.vehicles, id)
    case None => Response(Err(NotFound), s)
    case Some(i) =>
      if Referenced(s.sales, id) then Response(Err(HasSales), s)
      else Response(Ok(()), s.(vehicles := RemoveAt(s.vehicles, i)))
  }
}
