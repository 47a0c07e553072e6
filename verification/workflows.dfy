/** Properties of sequences of requests: an initiate step followed by its
    confirmation, a code used twice, a sale processed twice, a vehicle added
    or deleted and then fetched. */
module Workflows {
  import opened Base
  import opened Seqs
  import opened Ascii
  import opened Models
  import Otp
  import Auth
  import Sales
  import Vehicles
  import Customers

  // ---------------------------------------------------------------------
  // Authentication.

  /** Confirming a registration with the code it issued, before expiry and
      with the email in any letter case, creates the placeholder customer
      account. */
  lemma RegisterThenVerify(s: Store, req: Auth.RegisterRequest, email: string, now: int, draw: int,
                           later: int, newId: int, hash: string)
    requires Otp.ValidDraw(draw) && Lower(email) == Lower(req.email)
    requires Auth.Register(s, req, now, draw).result.Ok?
    requires later < now + Otp.ExpirySeconds
    ensures var s1 := Auth.Register(s, req, now, draw).store;
      var code := Otp.Generate(s.otps, req.email, Registration, now, draw).code;
      var r := Auth.VerifyRegistration(s1, email, code, later, newId, hash);
      && r.result.Ok?
      && r.result.value.email == Lower(req.email)
      && r.result.value.role == Customer
      && r.store.users == s.users + [r.result.value]
  {
    var s1 := Auth.Register(s, req, now, draw).store;
    var code := Otp.Generate(s.otps, req.email, Registration, now, draw).code;
    Otp.GenerateThenValidate(s.otps, req.email, email, Registration, now, draw, code, later);
    forall j | 0 <= j < |s.users| ensures s.users[j].email != Lower(email) {
      LowerNormalizes(email);
      assert Lower(s.users[j].email) != Lower(req.email);
    }
  }

  /** A login's code, confirmed before expiry, signs in the first user with
      that email and stamps the sign-in instant. */
  lemma LoginThenVerify(s: Store, email: string, password: string, now: int, draw: int,
                        verify: (string, string) -> bool, later: int)
    requires Otp.ValidDraw(draw)
    requires Auth.Login(s, email, password, now, draw, verify).result.Ok?
    requires later < now + Otp.ExpirySeconds
    ensures var s1 := Auth.Login(s, email, password, now, draw, verify).store;
      var code := Otp.Generate(s.otps, email, OtpPurpose.Login, now, draw).code;
      var r := Auth.VerifyLogin(s1, email, code, later);
      r.result.Ok? && r.result.value.lastLoginAt == Some(later) && Lower(r.result.value.email) == Lower(email)
  {
    var code := Otp.Generate(s.otps, email, OtpPurpose.Login, now, draw).code;
    Otp.GenerateThenValidate(s.otps, email, email, OtpPurpose.Login, now, draw, code, later);
  }

  // ---------------------------------------------------------------------
  // Purchases.

  /** A purchase code that passed its check once, whether or not the
      confirmation then succeeded, is refused on any later confirmation. */
  lemma ConfirmCannotBeReplayed(s: Store, vehicleId: int, notes: string, code: string, email: string,
                                callerId: Option<int>, now: int, newId: int,
                                vehicleId': int, notes': string, later: int, newId': int)
    requires Otp.OneUnusedPerScope(s.otps)
    requires Sales.ValidNotes(notes) && email != "" && callerId.Some?
    requires Otp.Validate(s.otps, email, code, PurchaseRequest, now).ok
    requires Sales.ValidNotes(notes')
    ensures var s1 := Sales.ConfirmPurchase(s, vehicleId, notes, code, email, callerId, now, newId).store;
      Sales.ConfirmPurchase(s1, vehicleId', notes', code, email, callerId, later, newId').result == Err(InvalidOtp)
  {
    Otp.ReplayFails(s.otps, email, code, PurchaseRequest, now, later);
  }

  /** The sale a successful confirmation appends is the one a lookup of its
      fresh id finds, and its vehicle is still in the store. */
  lemma ConfirmedSaleIsFound(s: Store, vehicleId: int, notes: string, code: string, email: string,
                             callerId: Option<int>, now: int, newId: int)
    requires forall k :: 0 <= k < |s.sales| ==> s.sales[k].id != newId
    requires Sales.ConfirmPurchase(s, vehicleId, notes, code, email, callerId, now, newId).result.Ok?
    ensures var r := Sales.ConfirmPurchase(s, vehicleId, notes, code, email, callerId, now, newId);
      && FindSale(r.store.sales, newId) == Some(|s.sales|)
      && r.store.sales[|s.sales|] == r.result.value
      && r.result.value.status == Requested && r.result.value.vehicleId == vehicleId
      && exists j :: 0 <= j < |r.store.vehicles| && r.store.vehicles[j].id == vehicleId
  {
    var r := Sales.ConfirmPurchase(s, vehicleId, notes, code, email, callerId, now, newId);
    var i :| 0 <= i < |s.vehicles| && s.vehicles[i].id == vehicleId &&
      r.result.value == Sale(newId, vehicleId, callerId.value, s.vehicles[i].price, Requested, now, None, notes) &&
      r.store == Store(s.users, s.vehicles[i := s.vehicles[i].(status := Reserved)], s.sales + [r.result.value],
                       Otp.Validate(s.otps, email, code, PurchaseRequest, now).otps);
    assert r.store.sales[|s.sales|].id == newId;
    assert forall k :: 0 <= k < |s.sales| ==> r.store.sales[k].id != newId;
    assert r.store.vehicles[i].id == vehicleId;
  }

  /** After a successful confirmation, completing the new sale sells the
      vehicle and stamps the completion instant, and the sale can be
      processed no further. */
  lemma PurchaseLifecycle(s: Store, vehicleId: int, notes: string, code: string, email: string,
                          callerId: Option<int>, now: int, newId: int,
                          notes': string, later: int, target: SaleStatus, notes'': string, after: int)
    requires forall k :: 0 <= k < |s.sales| ==> s.sales[k].id != newId
    requires Sales.ConfirmPurchase(s, vehicleId, notes, code, email, callerId, now, newId).result.Ok?
    requires Sales.ValidNotes(notes')
    ensures var s1 := Sales.ConfirmPurchase(s, vehicleId, notes, code, email, callerId, now, newId).store;
      var r2 := Sales.ProcessSale(s1, newId, Completed, notes', later);
      && r2.result.Ok?
      && r2.result.value.status == Completed && r2.result.value.completedAt == Some(later)
      && (exists j :: 0 <= j < |r2.store.vehicles| && r2.store.vehicles[j].id == vehicleId &&
                      r2.store.vehicles[j].status == Sold)
      && Sales.ProcessSale(r2.store, newId, target, notes'', after).result.Err?
  {
    ConfirmedSaleIsFound(s, vehicleId, notes, code, email, callerId, now, newId);
    var s1 := Sales.ConfirmPurchase(s, vehicleId, notes, code, email, callerId, now, newId).store;
    CompletingRequestedSale(s1, newId, vehicleId, notes', later, target, notes'', after);
  }

  /** Completing a Requested sale whose vehicle is in the store sells that
      vehicle, stamps the completion instant, and makes the sale final. */
  lemma CompletingRequestedSale(s: Store, saleId: int, vehicleId: int, notes: string, now: int,
                                target: SaleStatus, notes': string, later: int)
    requires FindSale(s.sales, saleId).Some?
    requires s.sales[FindSale(s.sales, saleId).value].status == Requested
    requires s.sales[FindSale(s.sales, saleId).value].vehicleId == vehicleId
    requires exists j :: 0 <= j < |s.vehicles| && s.vehicles[j].id == vehicleId
    requires Sales.ValidNotes(notes)
    ensures var r := Sales.ProcessSale(s, saleId, Completed, notes, now);
      && r.result.Ok?
      && r.result.value.status == Completed && r.result.value.completedAt == Some(now)
      && (exists j :: 0 <= j < |r.store.vehicles| && r.store.vehicles[j].id == vehicleId &&
                      r.store.vehicles[j].status == Sold)
      && Sales.ProcessSale(r.store, saleId, target, notes', later).result.Err?
  {
    ProcessedSaleIsFinal(s, saleId, Completed, notes, now, target, notes', later);
  }

  /** A processed sale is final unless it was processed back to Requested:
      a second processing is refused exactly when the first set any other
      status (or the notes are too long), and a refusal changes nothing. */
  lemma ProcessedSaleIsFinal(s: Store, saleId: int, target: SaleStatus, notes: string, now: int,
                             target': SaleStatus, notes': string, later: int)
    requires Sales.ProcessSale(s, saleId, target, notes, now).result.Ok?
    ensures var s1 := Sales.ProcessSale(s, saleId, target, notes, now).store;
      var r := Sales.ProcessSale(s1, saleId, target', notes', later);
      && (r.result.Err? <==> target != Requested || !Sales.ValidNotes(notes'))
      && (r.result.Err? ==> r.store == s1)
  {
    var k := FindSale(s.sales, saleId).value;
    var s1 := Sales.ProcessSale(s, saleId, target, notes, now).store;
    assert s1.sales[k].id == saleId;
    assert forall j :: 0 <= j < k ==> s1.sales[j].id != saleId;
    assert FindSale(s1.sales, saleId) == Some(k);
  }

  /** Approving a sale leaves its vehicle untouched (still Reserved after a
      purchase) and, by `ProcessedSaleIsFinal`, for good. */
  lemma ApprovalKeepsVehicle(s: Store, saleId: int, notes: string, now: int)
    requires Sales.ProcessSale(s, saleId, Approved, notes, now).result.Ok?
    ensures Sales.ProcessSale(s, saleId, Approved, notes, now).store.vehicles == s.vehicles
  {
  }

  /** Completing a sale adds one to its buyer's purchase count and leaves
      every other customer's count alone. */
  lemma CompletionCountsPurchase(s: Store, saleId: int, notes: string, now: int, customerId: int)
    requires Sales.ProcessSale(s, saleId, Completed, notes, now).result.Ok?
    ensures var r := Sales.ProcessSale(s, saleId, Completed, notes, now);
      Customers.PurchaseCount(r.store.sales, customerId) ==
        Customers.PurchaseCount(s.sales, customerId) + (if r.result.value.customerId == customerId then 1 else 0)
  {
    var k := FindSale(s.sales, saleId).value;
    var r := Sales.ProcessSale(s, saleId, Completed, notes, now);
    assert r.store.sales == s.sales[k := r.result.value];
    CountUpdate(s.sales, k, r.result.value, Customers.CompletedBy(customerId));
    CountIsFilterLength(s.sales, Customers.CompletedBy(customerId));
    CountIsFilterLength(r.store.sales, Customers.CompletedBy(customerId));
  }

  /** A successful confirmation adds one to the caller's purchase history
      count and to no one else's. */
  lemma ConfirmExtendsHistory(s: Store, vehicleId: int, notes: string, code: string, email: string,
                              callerId: Option<int>, now: int, newId: int, other: int)
    requires Sales.ConfirmPurchase(s, vehicleId, notes, code, email, callerId, now, newId).result.Ok?
    ensures var s1 := Sales.ConfirmPurchase(s, vehicleId, notes, code, email, callerId, now, newId).store;
      Count(s1.sales, Sales.OwnedBy(other)) ==
        Count(s.sales, Sales.OwnedBy(other)) + (if other == callerId.value then 1 else 0)
  {
    var r := Sales.ConfirmPurchase(s, vehicleId, notes, code, email, callerId, now, newId);
    assert r.store.sales == s.sales + [r.result.value];
    CountAppend(s.sales, r.result.value, Sales.OwnedBy(other));
  }

  // ---------------------------------------------------------------------
  // Vehicles.

  /** An update code is scoped by the administrator's email and the purpose
      only: a code issued while initiating the update of vehicle `a` lets
      the same administrator update any other vehicle `b`. */
  lemma UpdateCodeNotBoundToVehicle(s: Store, a: int, b: int, email: string, now: int, draw: int,
                                    req: Vehicles.VehicleRequest, status: VehicleStatus, later: int)
    requires Otp.ValidDraw(draw) && email != ""
    requires FindVehicle(s.vehicles, a).Some? && FindVehicle(s.vehicles, b).Some?
    requires Vehicles.ValidRequest(req) && !Vehicles.VinHeldByOther(s.vehicles, b, req.vin)
    requires later < now + Otp.ExpirySeconds
    ensures var s1 := Vehicles.InitiateUpdate(s, a, email, now, draw).store;
      var code := Otp.Generate(s.otps, email, OtpPurpose.UpdateVehicle, now, draw).code;
      var r := Vehicles.UpdateVehicle(s1, b, req, status, code, email, later);
      r.result.Ok? && r.result.value.id == b && r.result.value.vin == req.vin
  {
    var code := Otp.Generate(s.otps, email, OtpPurpose.UpdateVehicle, now, draw).code;
    Otp.GenerateThenValidate(s.otps, email, email, OtpPurpose.UpdateVehicle, now, draw, code, later);
  }

  /** A vehicle just added is fetched back as added, by any caller. */
  lemma AddThenGet(s: Store, req: Vehicles.VehicleRequest, now: int, newId: int, role: Option<UserRole>)
    requires forall j :: 0 <= j < |s.vehicles| ==> s.vehicles[j].id != newId
    requires Vehicles.AddVehicle(s, req, now, newId).result.Ok?
    ensures var r := Vehicles.AddVehicle(s, req, now, newId);
      Vehicles.GetVehicle(r.store, newId, role) == Ok(r.result.value)
  {
    var r := Vehicles.AddVehicle(s, req, now, newId);
    assert r.store.vehicles[|s.vehicles|].id == newId;
    assert forall j :: 0 <= j < |s.vehicles| ==> r.store.vehicles[j].id != newId;
    assert FindVehicle(r.store.vehicles, newId) == Some(|s.vehicles|);
  }

  /** Under unique vehicle ids, a deleted vehicle can no longer be fetched. */
  lemma DeleteThenGet(s: Store, id: int, role: Option<UserRole>)
    requires UniqueBy(s.vehicles, VehicleId)
    requires Vehicles.DeleteVehicle(s, id).result.Ok?
    ensures Vehicles.GetVehicle(Vehicles.DeleteVehicle(s, id).store, id, role) == Err(NotFound)
  {
    var i := FindVehicle(s.vehicles, id).value;
    var vs := Vehicles.DeleteVehicle(s, id).store.vehicles;
    assert vs == RemoveAt(s.vehicles, i);
    forall j | 0 <= j < |vs| ensures vs[j].id != id {
      var j' := if j < i then j else j + 1;
      assert vs[j] == s.vehicles[j'] && j' != i;
      assert VehicleId(s.vehicles[j']) != VehicleId(s.vehicles[i]);
    }
  }
}
