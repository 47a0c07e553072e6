/** The purchase workflow (Controllers/SaleController.cs): initiate and
    confirm a purchase request, the administrator's processing of a request,
    and a customer's purchase history. The caller's email and id claims are
    inputs; an empty email claim or a missing id claim is an absent claim. */
module Sales {
  import opened Base
  import opened Seqs
  import opened Models
  import opened Ascii
  import Otp

  /** `[StringLength(500)]` on the notes of a purchase or processing body. */
  const MaxNotesLength: int := 500

  /** The limit counts UTF-16 code units, as `string.Length` does. */
  predicate ValidNotes(notes: string) {
    Utf16Length(notes) <= MaxNotesLength
  }

  /** Notes of 251 characters outside the Basic Multilingual Plane are 502
      code units long and refused, although they are under 500 characters;
      notes of 500 ASCII characters are accepted. */
  lemma NotesLimitCountsCodeUnits()
    ensures !ValidNotes(seq(251, _ => '\U{1F600}'))
    ensures ValidNotes(seq(500, _ => 'a'))
  {
    Utf16LengthAstral(seq(251, _ => '\U{1F600}'));
    Utf16LengthBmp(seq(500, _ => 'a'));
  }

  /** The customer already has a Requested sale on the vehicle. */
  predicate HasPendingRequest(sales: seq<Sale>, vehicleId: int, customerId: int) {
    exists k :: 0 <= k < |sales| && sales[k].vehicleId == vehicleId &&
      sales[k].customerId == customerId && sales[k].status == Requested
  }

  /** `InitiatePurchase`: the body is validated, then the vehicle must exist
      and be Available, and only then is the email claim checked; only a
      request passing all of these issues a PurchaseRequest code. */
  function InitiatePurchase(s: Store, vehicleId: int, notes: string, email: string, now: int, draw: int): (r: Response<()>)
    requires Otp.ValidDraw(draw)
    ensures r.result.Err? ==> r.store == s
    ensures r.result.Ok? ==> r.store == s.(otps := Otp.Generate(s.otps, email, PurchaseRequest, now, draw).otps)
    ensures !ValidNotes(notes) ==> r.result == Err(ValidationFailed)
    ensures ValidNotes(notes) && FindVehicle(s.vehicles, vehicleId).None? ==> r.result == Err(NotFound)
    ensures (ValidNotes(notes) && FindVehicle(s.vehicles, vehicleId).Some? &&
             s.vehicles[FindVehicle(s.vehicles, vehicleId).value].status != Available) ==> r.result == Err(NotAvailable)
    ensures (ValidNotes(notes) && FindVehicle(s.vehicles, vehicleId).Some? &&
             s.vehicles[FindVehicle(s.vehicles, vehicleId).value].status == Available && email == "") ==>
      r.result == Err(Unauthorized)
    ensures r.result.Ok? <==> (ValidNotes(notes) && email != "" &&
                              FindVehicle(s.vehicles, vehicleId).Some? &&
                              s.vehicles[FindVehicle(s.vehicles, vehicleId).value].status == Available)
  {
    if !ValidNotes(notes) then Response(Err(ValidationFailed), s)
    else match FindVehicle(s.vehicles, vehicleId)
      case None => Response(Err(NotFound), s)
      case Some(i) =>
        if s.vehicles[i].status != Available then Response(Err(NotAvailable), s)
        else if email == "" then Response(Err(Unauthorized), s)
        else Response(Ok(()), s.(otps := Otp.Generate(s.otps, email, PurchaseRequest, now, draw).otps))
  }

  /** The sale a confirmed purchase request creates. */
  function NewSale(id: int, vehicle: Vehicle, customerId: int, now: int, notes: string): Sale {
    Sale(id, vehicle.id, customerId, vehicle.price, Requested, now, None, notes)
  }

  /** `CreatePurchaseRequest`. `newId` is the identity the store assigns.
      After the body and claim checks the PurchaseRequest code is consumed,
      and only then are the vehicle (exists, Available), the caller's pending
      requests and the customer foreign key checked, so a confirmation that
      fails there has still used up its code. On success one Requested sale
      priced at the vehicle's current price is appended and the vehicle
      becomes Reserved, in one save. */
  function ConfirmPurchase(s: Store, vehicleId: int, notes: string, code: string, email: string,
                           callerId: Option<int>, now: int, newId: int): (r: Response<Sale>)
    ensures !ValidNotes(notes) ==> r.result == Err(ValidationFailed) && r.store == s
    ensures ValidNotes(notes) && (email == "" || callerId.None?) ==> r.result == Err(Unauthorized) && r.store == s
    ensures ValidNotes(notes) && email != "" && callerId.Some? ==>
      var v := Otp.Validate(s.otps, email, code, PurchaseRequest, now);
      && (!v.ok ==> r.result == Err(InvalidOtp) && r.store == s)
      && (v.ok ==> r.store.otps == v.otps)
    ensures r.result.Err? ==> r.store == s.(otps := r.store.otps)
    ensures r.result.Ok? ==>
      && callerId.Some? && ValidNotes(notes)
      && Otp.Validate(s.otps, email, code, PurchaseRequest, now).ok
      && !HasPendingRequest(s.sales, vehicleId, callerId.value)
      && FindUser(s.users, callerId.value).Some?
      && exists i :: (0 <= i < |s.vehicles| && s.vehicles[i].id == vehicleId &&
           s.vehicles[i].status == Available &&
           r.result.value == Sale(newId, vehicleId, callerId.value, s.vehicles[i].price, Requested, now, None, notes) &&
           r.store == Store(s.users, s.vehicles[i := s.vehicles[i].(status := Reserved)],
                            s.sales + [r.result.value],
                            Otp.Validate(s.otps, email, code, PurchaseRequest, now).otps))
    ensures callerId.Some? && HasPendingRequest(s.sales, vehicleId, callerId.value) ==> r.result.Err?
    ensures (forall i :: 0 <= i < |s.vehicles| ==> s.vehicles[i].id != vehicleId) ==> r.result.Err?
    ensures (ValidNotes(notes) && email != "" && callerId.Some? &&
             Otp.Validate(s.otps, email, code, PurchaseRequest, now).ok) ==>
      var found := FindVehicle(s.vehicles, vehicleId);
      && (found.None? ==> r.result == Err(NotFound))
      && (found.Some? && s.vehicles[found.value].status != Available ==> r.result == Err(NotAvailable))
      && ((found.Some? && s.vehicles[found.value].status == Available &&
           HasPendingRequest(s.sales, vehicleId, callerId.value)) ==> r.result == Err(PendingRequestExists))
      && ((found.Some? && s.vehicles[found.value].status == Available &&
           !HasPendingRequest(s.sales, vehicleId, callerId.value) &&
           FindUser(s.users, callerId.value).None?) ==> r.result == Err(Internal))
    ensures r.result.Ok? <==>
      && ValidNotes(notes) && email != "" && callerId.Some?
      && Otp.Validate(s.otps, email, code, PurchaseRequest, now).ok
      && FindVehicle(s.vehicles, vehicleId).Some?
      && s.vehicles[FindVehicle(s.vehicles, vehicleId).value].status == Available
      && !HasPendingRequest(s.sales, vehicleId, callerId.value)
      && FindUser(s.users, callerId.value).Some?
  {
    if !ValidNotes(notes) then Response(Err(ValidationFailed), s)
    else if email == "" || callerId.None? then Response(Err(Unauthorized), s)
    else
      var v := Otp.Validate(s.otps, email, code, PurchaseRequest, now);
      if !v.ok then Response(Err(InvalidOtp), s)
      else
        var s1 := s.(otps := v.otps);
        match FindVehicle(s.vehicles, vehicleId)
        case None => Response(Err(NotFound), s1)
        case Some(i) =>
          var vehicle := s.vehicles[i];
          if vehicle.status != Available then Response(Err(NotAvailable), s1)
          else if HasPendingRequest(s.sales, vehicleId, callerId.value) then Response(Err(PendingRequestExists), s1)
          else if FindUser(s.users, callerId.value).None? then Response(Err(Internal), s1)
          else
            var sale := NewSale(newId, vehicle, callerId.value, now, notes);
            Response(Ok(sale), s1.(sales := s.sales + [sale], vehicles := s.vehicles[i := vehicle.(status := Reserved)]))
  }

  /** The vehicle status a processing step sets: Sold on completion,
      Available on cancellation, none otherwise. */
  function VehicleStatusAfter(target: SaleStatus): Option<VehicleStatus> {
    match target
    case Completed => Some(Sold)
    case Cancelled => Some(Available)
    case _ => None
  }

  /** `ProcessSale`: only a Requested sale can be processed, to any target
      status. The sale takes the target status and the notes; completion
      also stamps the completion instant and sells the vehicle, cancellation
      releases the vehicle, and Approved or Requested leave the vehicle
      alone. A refused request changes nothing. */
  function ProcessSale(s: Store, saleId: int, target: SaleStatus, notes: string, now: int): (r: Response<Sale>)
    ensures r.result.Err? ==> r.store == s
    ensures !ValidNotes(notes) ==> r.result == Err(ValidationFailed)
    ensures ValidNotes(notes) && FindSale(s.sales, saleId).None? ==> r.result == Err(NotFound)
    ensures (ValidNotes(notes) && FindSale(s.sales, saleId).Some? &&
             s.sales[FindSale(s.sales, saleId).value].status != Requested) ==> r.result == Err(NotProcessable)
    ensures r.result.Ok? ==> exists k :: (0 <= k < |s.sales| && s.sales[k].id == saleId &&
      s.sales[k].status == Requested &&
      r.result.value == s.sales[k].(status := target, notes := notes,
                                     completedAt := if target == Completed then Some(now) else s.sales[k].completedAt) &&
      r.store.sales == s.sales[k := r.result.value] &&
      r.store.vehicles == (match VehicleStatusAfter(target)
                           case None => s.vehicles
                           case Some(st) => SetVehicleStatus(s.vehicles, s.sales[k].vehicleId, st)))
    ensures r.result.Ok? ==> r.store.users == s.users && r.store.otps == s.otps
    ensures r.result.Ok? <==>
      ValidNotes(notes) && FindSale(s.sales, saleId).Some? &&
      s.sales[FindSale(s.sales, saleId).value].status == Requested
  {
    if !ValidNotes(notes) then Response(Err(ValidationFailed), s)
    else match FindSale(s.sales, saleId)
      case None => Response(Err(NotFound), s)
      case Some(k) =>
        var sale := s.sales[k];
        if sale.status != Requested then Response(Err(NotProcessable), s)
        else
          var completedAt := if target == Completed then Some(now) else sale.completedAt;
          var sale' := sale.(status := target, notes := notes, completedAt := completedAt);
          var vehicles := match VehicleStatusAfter(target)
            case None => s.vehicles
            case Some(st) => SetVehicleStatus(s.vehicles, sale.vehicleId, st);
          Response(Ok(sale'), s.(sales := s.sales[k := sale'], vehicles := vehicles))
  }

  function RequestedAt(x: Sale): int { x.requestedAt }

  /** The sales that belong to the customer `id`. */
  function OwnedBy(id: int): Sale -> bool {
    (x: Sale) => x.customerId == id
  }

  /** `GetMyPurchases`: the caller's sales only. `totalCount` counts all of
      them; the page is taken in store order and then ordered by request
      instant, newest first. */
  function MyPurchases(s: Store, callerId: Option<int>, page: int, pageSize: int): (r: Result<Paged<Sale>>)
    requires IsInt32(page) && IsInt32(pageSize)
    ensures callerId.None? <==> r == Err(Unauthorized)
    ensures r.Ok? ==> forall x :: x in r.value.data ==> x in s.sales && x.customerId == callerId.value
    ensures r.Ok? ==> r.value.totalCount == |Filter(s.sales, OwnedBy(callerId.value))|
    ensures r.Ok? ==> multiset(r.value.data) == multiset(PageOf(Filter(s.sales, OwnedBy(callerId.value)), page, pageSize))
    ensures r.Ok? ==> SortedDesc(r.value.data, RequestedAt)
  {
    match callerId
    case None => Err(Unauthorized)
    case Some(id) =>
      var mine := Filter(s.sales, OwnedBy(id));
      var pg := PageOf(mine, page, pageSize);
      PageIsSlice(mine, page, pageSize);
      assert forall x :: x in pg ==> x in mine;
      var data := SortDesc(pg, RequestedAt);
      assert forall x :: x in data ==> x in pg by {
        forall x | x in data ensures x in pg {
          assert x in multiset(data);
        }
      }
      Ok(Paged(data, page, pageSize, |mine|))
  }
}
