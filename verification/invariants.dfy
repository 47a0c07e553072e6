/** The store's integrity constraints and their preservation by every
    endpoint that writes. The constraints are those of Data/AppDbContext.cs
    (primary keys, the unique email and VIN indexes, the two foreign keys of
    a sale) together with the OTP engine's one-unused-code-per-scope rule.
    Emails are kept lower-case, which is what makes the exact unique index
    also a case-insensitive one. */
module Invariants {
  import opened Base
  import opened Seqs
  import opened Ascii
  import opened Models
  import Otp
  import Auth
  import Sales
  import Vehicles

  predicate HasVehicle(vehicles: seq<Vehicle>, id: int) {
    exists j :: 0 <= j < |vehicles| && vehicles[j].id == id
  }

  predicate HasUser(users: seq<User>, id: int) {
    exists j :: 0 <= j < |users| && users[j].id == id
  }

  /** Every sale names a vehicle and a customer the store holds. */
  ghost predicate SalesReferenced(s: Store) {
    forall k :: 0 <= k < |s.sales| ==>
      HasVehicle(s.vehicles, s.sales[k].vehicleId) && HasUser(s.users, s.sales[k].customerId)
  }

  ghost predicate EmailsLower(users: seq<User>) {
    forall j :: 0 <= j < |users| ==> IsLower(users[j].email)
  }

  ghost predicate Valid(s: Store) {
    && UniqueBy(s.users, UserId)
    && UniqueBy(s.users, EmailKey)
    && EmailsLower(s.users)
    && UniqueBy(s.vehicles, VehicleId)
    && UniqueBy(s.vehicles, Vin)
    && UniqueBy(s.sales, SaleId)
    && SalesReferenced(s)
    && Otp.OneUnusedPerScope(s.otps)
  }

  predicate FreshUserId(s: Store, id: int) {
    forall j :: 0 <= j < |s.users| ==> s.users[j].id != id
  }

  predicate FreshVehicleId(s: Store, id: int) {
    forall j :: 0 <= j < |s.vehicles| ==> s.vehicles[j].id != id
  }

  predicate FreshSaleId(s: Store, id: int) {
    forall k :: 0 <= k < |s.sales| ==> s.sales[k].id != id
  }

  // ---------------------------------------------------------------------
  // Steps that touch only part of the store.

  /** Vehicles that keep their ids keep every sale's vehicle present. */
  lemma SameVehicleIdsKeepReferences(s: Store, vehicles: seq<Vehicle>)
    requires SalesReferenced(s) && SameKeys(s.vehicles, vehicles, VehicleId)
    ensures SalesReferenced(s.(vehicles := vehicles))
  {
    forall k | 0 <= k < |s.sales|
      ensures HasVehicle(vehicles, s.sales[k].vehicleId)
    {
      var j :| 0 <= j < |s.vehicles| && s.vehicles[j].id == s.sales[k].vehicleId;
      assert VehicleId(s.vehicles[j]) == VehicleId(vehicles[j]);
    }
  }

  /** Users that keep their ids keep every sale's customer present. */
  lemma SameUserIdsKeepReferences(s: Store, users: seq<User>)
    requires SalesReferenced(s) && SameKeys(s.users, users, UserId)
    ensures SalesReferenced(s.(users := users))
  {
    forall k | 0 <= k < |s.sales|
      ensures HasUser(users, s.sales[k].customerId)
    {
      var j :| 0 <= j < |s.users| && s.users[j].id == s.sales[k].customerId;
      assert UserId(s.users[j]) == UserId(users[j]);
    }
  }

  /** Setting a vehicle's status keeps every key of the vehicle table. */
  lemma SetStatusKeepsValid(s: Store, id: int, status: VehicleStatus)
    requires Valid(s)
    ensures Valid(s.(vehicles := SetVehicleStatus(s.vehicles, id, status)))
  {
    var vs := SetVehicleStatus(s.vehicles, id, status);
    assert SameKeys(s.vehicles, vs, VehicleId) by {
      forall j | 0 <= j < |vs| ensures VehicleId(s.vehicles[j]) == VehicleId(vs[j]) {
        assert vs[j] == s.vehicles[j].(status := vs[j].status);
      }
    }
    assert SameKeys(s.vehicles, vs, Vin) by {
      forall j | 0 <= j < |vs| ensures Vin(s.vehicles[j]) == Vin(vs[j]) {
        assert vs[j] == s.vehicles[j].(status := vs[j].status);
      }
    }
    UniqueBySameKeys(s.vehicles, vs, VehicleId);
    UniqueBySameKeys(s.vehicles, vs, Vin);
    SameVehicleIdsKeepReferences(s, vs);
  }

  // ---------------------------------------------------------------------
  // Authentication.

  lemma RegisterKeepsValid(s: Store, req: Auth.RegisterRequest, now: int, draw: int)
    requires Valid(s) && Otp.ValidDraw(draw)
    ensures Valid(Auth.Register(s, req, now, draw).store)
  {
    Otp.GenerateKeepsOneUnused(s.otps, req.email, Registration, now, draw);
  }

  /** A created account has a fresh id and an email no user holds, so the
      keys stay unique and the emails lower-case. */
  lemma VerifyRegistrationKeepsValid(s: Store, email: string, code: string, now: int, newId: int, hash: string)
    requires Valid(s) && FreshUserId(s, newId)
    ensures Valid(Auth.VerifyRegistration(s, email, code, now, newId, hash).store)
  {
    var v := Otp.Validate(s.otps, email, code, Registration, now);
    Otp.ValidateKeepsOneUnused(s.otps, email, code, Registration, now);
    var r := Auth.VerifyRegistration(s, email, code, now, newId, hash);
    if r.result.Ok? {
      var u := r.result.value;
      LowerNormalizes(email);
      assert IsLower(u.email);
      forall j | 0 <= j < |s.users| ensures EmailKey(s.users[j]) != EmailKey(u) {
        LowerNormalizes(s.users[j].email);
      }
      UniqueByAppend(s.users, u, EmailKey);
      UniqueByAppend(s.users, u, UserId);
      assert SalesReferenced(r.store) by {
        forall k | 0 <= k < |s.sales| ensures HasUser(r.store.users, s.sales[k].customerId) {
          var j :| 0 <= j < |s.users| && s.users[j].id == s.sales[k].customerId;
          assert r.store.users[j] == s.users[j];
        }
      }
    }
  }

  lemma LoginKeepsValid(s: Store, email: string, password: string, now: int, draw: int,
                        verify: (string, string) -> bool)
    requires Valid(s) && Otp.ValidDraw(draw)
    ensures Valid(Auth.Login(s, email, password, now, draw, verify).store)
  {
    Otp.GenerateKeepsOneUnused(s.otps, email, OtpPurpose.Login, now, draw);
  }

  lemma VerifyLoginKeepsValid(s: Store, email: string, code: string, now: int)
    requires Valid(s)
    ensures Valid(Auth.VerifyLogin(s, email, code, now).store)
  {
    Otp.ValidateKeepsOneUnused(s.otps, email, code, OtpPurpose.Login, now);
    var r := Auth.VerifyLogin(s, email, code, now);
    if r.result.Ok? {
      var j :| 0 <= j < |s.users| && r.store.users == s.users[j := r.result.value] &&
        r.result.value == s.users[j].(lastLoginAt := Some(now));
      assert SameKeys(s.users, r.store.users, UserId);
      assert SameKeys(s.users, r.store.users, EmailKey);
      UniqueBySameKeys(s.users, r.store.users, UserId);
      UniqueBySameKeys(s.users, r.store.users, EmailKey);
      SameUserIdsKeepReferences(s.(otps := r.store.otps), r.store.users);
    }
  }

  // ---------------------------------------------------------------------
  // Sales.

  lemma InitiatePurchaseKeepsValid(s: Store, vehicleId: int, notes: string, email: string, now: int, draw: int)
    requires Valid(s) && Otp.ValidDraw(draw)
    ensures Valid(Sales.InitiatePurchase(s, vehicleId, notes, email, now, draw).store)
  {
    Otp.GenerateKeepsOneUnused(s.otps, email, PurchaseRequest, now, draw);
  }

  /** Appending a sale with a fresh id that names a held vehicle and user,
      and reserving that vehicle, keeps the store valid. */
  lemma ReserveKeepsValid(s: Store, i: int, sale: Sale, otps: seq<OtpCode>)
    requires Valid(s) && Otp.OneUnusedPerScope(otps)
    requires 0 <= i < |s.vehicles| && sale.vehicleId == s.vehicles[i].id
    requires HasUser(s.users, sale.customerId) && FreshSaleId(s, sale.id)
    ensures Valid(Store(s.users, s.vehicles[i := s.vehicles[i].(status := Reserved)], s.sales + [sale], otps))
  {
    var vs := s.vehicles[i := s.vehicles[i].(status := Reserved)];
    var t := Store(s.users, vs, s.sales + [sale], otps);
    assert SameKeys(s.vehicles, vs, VehicleId);
    assert SameKeys(s.vehicles, vs, Vin);
    UniqueBySameKeys(s.vehicles, vs, VehicleId);
    UniqueBySameKeys(s.vehicles, vs, Vin);
    UniqueByAppend(s.sales, sale, SaleId);
    SameVehicleIdsKeepReferences(s, vs);
    assert HasVehicle(vs, sale.vehicleId) by { assert vs[i].id == sale.vehicleId; }
    assert SalesReferenced(t) by {
      forall k | 0 <= k < |t.sales|
        ensures HasVehicle(vs, t.sales[k].vehicleId) && HasUser(s.users, t.sales[k].customerId)
      {
        if k < |s.sales| {
          assert t.sales[k] == s.sales[k];
          assert HasVehicle(s.(vehicles := vs).vehicles, s.sales[k].vehicleId);
        }
      }
    }
  }

  /** The new sale has a fresh id and names a vehicle and customer the store
      holds (the customer check is the foreign key), and reserving the
      vehicle keeps its keys. */
  lemma ConfirmPurchaseKeepsValid(s: Store, vehicleId: int, notes: string, code: string, email: string,
                                  callerId: Option<int>, now: int, newId: int)
    requires Valid(s) && FreshSaleId(s, newId)
    ensures Valid(Sales.ConfirmPurchase(s, vehicleId, notes, code, email, callerId, now, newId).store)
  {
    var v := Otp.Validate(s.otps, email, code, PurchaseRequest, now);
    Otp.ValidateKeepsOneUnused(s.otps, email, code, PurchaseRequest, now);
    if Sales.ValidNotes(notes) && email != "" && callerId.Some? && v.ok {
      match FindVehicle(s.vehicles, vehicleId)
      case None =>
      case Some(i) =>
        var u := FindUser(s.users, callerId.value);
        if u.Some? {
          assert HasUser(s.users, callerId.value) by { assert s.users[u.value].id == callerId.value; }
          ReserveKeepsValid(s, i, Sales.NewSale(newId, s.vehicles[i], callerId.value, now, notes), v.otps);
        }
    }
  }

  /** Rewriting a sale's status, notes or completion instant keeps its id
      and references. */
  lemma RewriteSaleKeepsValid(s: Store, k: int, sale: Sale)
    requires Valid(s) && 0 <= k < |s.sales|
    requires sale.id == s.sales[k].id && sale.vehicleId == s.sales[k].vehicleId
    requires sale.customerId == s.sales[k].customerId
    ensures Valid(s.(sales := s.sales[k := sale]))
  {
    var ss := s.sales[k := sale];
    assert SameKeys(s.sales, ss, SaleId);
    UniqueBySameKeys(s.sales, ss, SaleId);
    assert SalesReferenced(s.(sales := ss)) by {
      forall m | 0 <= m < |ss|
        ensures HasVehicle(s.vehicles, ss[m].vehicleId) && HasUser(s.users, ss[m].customerId)
      {
        assert ss[m].vehicleId == s.sales[m].vehicleId;
        assert ss[m].customerId == s.sales[m].customerId;
      }
    }
  }

  lemma ProcessSaleKeepsValid(s: Store, saleId: int, target: SaleStatus, notes: string, now: int)
    requires Valid(s)
    ensures Valid(Sales.ProcessSale(s, saleId, target, notes, now).store)
  {
    if Sales.ValidNotes(notes) {
      match FindSale(s.sales, saleId)
      case None =>
      case Some(k) =>
        var sale := s.sales[k];
        if sale.status == Requested {
          var completedAt := if target == Completed then Some(now) else sale.completedAt;
          var sale' := sale.(status := target, notes := notes, completedAt := completedAt);
          match Sales.VehicleStatusAfter(target)
          case None =>
            RewriteSaleKeepsValid(s, k, sale');
          case Some(st) =>
            var s1 := s.(vehicles := SetVehicleStatus(s.vehicles, sale.vehicleId, st));
            SetStatusKeepsValid(s, sale.vehicleId, st);
            RewriteSaleKeepsValid(s1, k, sale');
        }
    }
  }

  // ---------------------------------------------------------------------
  // Vehicles.

  /** The added vehicle has a fresh id and a VIN no vehicle holds. */
  lemma AddVehicleKeepsValid(s: Store, req: Vehicles.VehicleRequest, now: int, newId: int)
    requires Valid(s) && FreshVehicleId(s, newId)
    ensures Valid(Vehicles.AddVehicle(s, req, now, newId).store)
  {
    var r := Vehicles.AddVehicle(s, req, now, newId);
    if r.result.Ok? {
      var v := r.result.value;
      UniqueByAppend(s.vehicles, v, VehicleId);
      UniqueByAppend(s.vehicles, v, Vin);
      assert SalesReferenced(r.store) by {
        forall k | 0 <= k < |s.sales| ensures HasVehicle(r.store.vehicles, s.sales[k].vehicleId) {
          var j :| 0 <= j < |s.vehicles| && s.vehicles[j].id == s.sales[k].vehicleId;
          assert r.store.vehicles[j] == s.vehicles[j];
        }
      }
    }
  }

  lemma InitiateUpdateKeepsValid(s: Store, id: int, email: string, now: int, draw: int)
    requires Valid(s) && Otp.ValidDraw(draw)
    ensures Valid(Vehicles.InitiateUpdate(s, id, email, now, draw).store)
  {
    Otp.GenerateKeepsOneUnused(s.otps, email, OtpPurpose.UpdateVehicle, now, draw);
  }

  /** An update keeps the vehicle's id, and a VIN it writes is either the
      vehicle's own or held by no other vehicle. */
  lemma UpdateVehicleKeepsValid(s: Store, id: int, req: Vehicles.VehicleRequest, status: VehicleStatus,
                                code: string, email: string, now: int)
    requires Valid(s)
    ensures Valid(Vehicles.UpdateVehicle(s, id, req, status, code, email, now).store)
  {
    var r := Vehicles.UpdateVehicle(s, id, req, status, code, email, now);
    Otp.ValidateKeepsOneUnused(s.otps, email, code, OtpPurpose.UpdateVehicle, now);
    if r.result.Ok? {
      var v := r.result.value;
      var i :| 0 <= i < |s.vehicles| && s.vehicles[i].id == id && v.id == id && v.vin == req.vin &&
        r.store.vehicles == s.vehicles[i := v];
      assert SameKeys(s.vehicles, r.store.vehicles, VehicleId);
      UniqueBySameKeys(s.vehicles, r.store.vehicles, VehicleId);
      var f := FindVehicle(s.vehicles, id).value;
      UniqueByIndex(s.vehicles, VehicleId, f, i);
      forall j | 0 <= j < |s.vehicles| && j != i ensures Vin(s.vehicles[j]) != Vin(v) {
        assert VehicleId(s.vehicles[j]) != VehicleId(s.vehicles[i]);
        if s.vehicles[i].vin == req.vin {
          assert Vin(s.vehicles[j]) != Vin(s.vehicles[i]);
        } else {
          assert !Vehicles.VinHeldByOther(s.vehicles, id, req.vin);
        }
      }
      UniqueByUpdate(s.vehicles, i, v, Vin);
      SameVehicleIdsKeepReferences(s, r.store.vehicles);
    }
  }

  /** A deleted vehicle is referenced by no sale, so every sale's vehicle
      survives the removal. */
  lemma DeleteVehicleKeepsValid(s: Store, id: int)
    requires Valid(s)
    ensures Valid(Vehicles.DeleteVehicle(s, id).store)
  {
    var r := Vehicles.DeleteVehicle(s, id);
    if r.result.Ok? {
      var i := FindVehicle(s.vehicles, id).value;
      assert r.store.vehicles == RemoveAt(s.vehicles, i);
      UniqueByRemove(s.vehicles, i, VehicleId);
      UniqueByRemove(s.vehicles, i, Vin);
      assert SalesReferenced(r.store) by {
        forall k | 0 <= k < |s.sales| ensures HasVehicle(r.store.vehicles, s.sales[k].vehicleId) {
          assert !Vehicles.Referenced(s.sales, id);
          assert s.sales[k].vehicleId != id;
          var j :| 0 <= j < |s.vehicles| && s.vehicles[j].id == s.sales[k].vehicleId;
          assert j != i;
          if j < i {
            assert r.store.vehicles[j] == s.vehicles[j];
          } else {
            assert r.store.vehicles[j - 1] == s.vehicles[j];
          }
        }
      }
    }
  }

  // ---------------------------------------------------------------------
  // OTP housekeeping.

  lemma CleanupKeepsValid(s: Store, now: int)
    requires Valid(s)
    ensures Valid(s.(otps := Otp.Cleanup(s.otps, now)))
  {
    Otp.CleanupKeepsOneUnused(s.otps, now);
  }
}
