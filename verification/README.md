# Car dealership API: a Dafny model of its OTP-gated store

This project models the core of CarDealershipAPI, an ASP.NET Core service for a car
dealership. The service keeps four tables in one SQLite database: users, vehicles,
sales and one-time passcodes (OTPs).

Every privileged action is split into two requests. The "initiate" request checks
the action's preconditions and issues a six-digit code for a (lower-cased email,
purpose) scope. The "confirm" request consumes that code and then performs the
guarded change. The four gated flows are:

- registration,
- login,
- a purchase request,
- a vehicle update.

Around these flows the model also covers three other parts of the service:

- the vehicle status machine (Available, Reserved, Sold, Maintenance);
- the sale status machine (Requested, Approved, Completed, Cancelled);
- the role-filtered, paged listings of vehicles, customers and the caller's own purchases.

The store is an immutable `Store(users, vehicles, sales, otps)` in the `Models` module.
Each endpoint is a pure function. It returns a `Response(result, store)`, which holds
the answer (`Ok(value)` or `Err(error)`) together with the store after the request.

Some inputs of the real service are passed in explicitly:

- The clock is an integer `now`, in seconds.
- The random draw `Random.Next(100000, 999999)` is a parameter `draw` with `100000 <= draw < 999999`.
- The identity that SQLite assigns to a new row is a parameter `newId`.
- The caller's token claims (email, user id, role) are plain inputs.
- The BCrypt password check is an uninterpreted `verify(password, hash)`.

Modules, following the program's structure:

- `Base`: optional values, and C# `int` wrap-around.
- `Seqs`: the LINQ/SQL queries as sequence functions (first match, filter, count, removal, `LIMIT/OFFSET` paging, descending sort).
- `Ascii`: `ToLower`, `Contains`, blank strings and decimal digit strings.
- `Models`: the entities, the store, the error codes and the lookups.
- `Otp`: Services/OtpService.cs.
- `Auth`: Services/AuthService.cs.
- `Sales`: Controllers/SaleController.cs.
- `Vehicles`: Controllers/VehicleController.cs.
- `Customers`: Controllers/CustomerController.cs.
- `Invariants`: the database constraints and their preservation by every endpoint.
- `Workflows`: properties of request sequences (initiate then confirm, replay, confirm then process, add then fetch).

Database semantics that the model follows:

- Comparisons are exact and case-sensitive, except where the code calls `ToLower`.
- The unique indexes on email and VIN are enforced.
- The foreign keys are enforced, with Restrict on delete.
- A negative `OFFSET` acts as zero, and a negative `LIMIT` means no limit.
- The page offset `(page - 1) * pageSize` is unchecked 32-bit arithmetic.
- Listings without `ORDER BY` come back in row order.

Behaviour of the code that the model keeps:

- A generated code is the decimal text of a draw from `Random.Next(100000, 999999)`. It never starts with `0` and is never `999999`; `Otp.Generate` states this.
- Initiating a purchase of a vehicle that is not Available, and processing a sale that is not Requested, are answered with `400 Bad Request`. The model names these `NotAvailable` and `NotProcessable`.
- A purchase confirmation consumes its code in its own save, before the vehicle checks. A confirmation that then fails has still used up its code.

## Model

| member | source | states |
|---|---|---|
| Otp.Generate | Services/OtpService.cs:19-40 | the code is six decimal digits with no leading zero, reads back as the draw and is never "999999"; the new record holds the lower-cased email, expires ten minutes after `now` and is unused; every earlier unused record of the scope becomes used at `now`; every other record is unchanged; afterwards the new record is the scope's only unused one |
| Otp.Validate | Services/OtpService.cs:56-79 | succeeds iff some record has the lower-cased email, exactly the code, the purpose, is unused and expires strictly after `now`; on success exactly one such record is marked used at `now`; a failure leaves the table unchanged |
| Otp.Invalidate | Services/OtpService.cs:81-97 | every unused record of the scope is marked used at `now` whatever its expiry, every other record is unchanged, and no unused record of the scope remains |
| Otp.Cleanup | Services/OtpService.cs:99-109 | removes exactly the records whose expiry is strictly before `now`, used or not, and keeps every other record with its multiplicity |
| Otp.ExpiryInstant | Services/OtpService.cs:58-105 | a record expiring exactly at `now` no longer validates, but a cleanup at `now` does not remove it |
| Otp.InvalidateKeepsOneUnused | Services/OtpService.cs:81-97 | invalidation keeps at most one unused record per scope |
| Otp.GenerateKeepsOneUnused | Services/OtpService.cs:19-40 | generation keeps at most one unused record per scope |
| Otp.ValidateKeepsOneUnused | Services/OtpService.cs:56-79 | validation keeps at most one unused record per scope |
| Otp.FilterKeepsOneUnused | Services/OtpService.cs:101-105 | deleting any subset of records keeps at most one unused record per scope |
| Otp.CleanupKeepsOneUnused | Services/OtpService.cs:99-109 | cleanup keeps at most one unused record per scope |
| Otp.ReplayFails | Services/OtpService.cs:58-75 | when each scope has at most one unused record, a code that validated once fails on every later validation with the same email, code and purpose |
| Otp.GenerateThenValidate | Services/OtpService.cs:19-79 | right after a generation, a validation in the same scope (email in any letter case) succeeds exactly for the issued code before its expiry instant |
| Ascii.LowerNormalizes | Services/OtpService.cs:31 | lower-casing gives a lower-case string and is idempotent |
| Ascii.Contains | Controllers/VehicleController.cs:38 | the text criterion holds iff the needle occurs at some position of the field |
| Ascii.DecimalRoundTrip | Services/OtpService.cs:26 | reading back the decimal text of a natural number gives the number |
| Ascii.DecimalWidth | Services/OtpService.cs:26 | a number in [10^(w-1), 10^w) has w-digit decimal text with no leading zero |
| Ascii.Utf16LengthBmp | DTOs/SaleDTOs.cs:11 | the length `[StringLength]` compares (UTF-16 code units) equals the number of characters iff every character lies in the Basic Multilingual Plane |
| Ascii.Utf16LengthAstral | DTOs/SaleDTOs.cs:11 | text made only of characters outside the Basic Multilingual Plane counts two code units per character |
| Sales.NotesLimitCountsCodeUnits | DTOs/SaleDTOs.cs:11-12 | the notes limit counts code units: 251 emoji (502 code units) are refused, 500 ASCII characters are accepted |
| Models.FindUserByEmail | Services/AuthService.cs:247-251 | finds the first user whose lower-cased email equals the lower-cased query, and finds none iff there is no such user |
| Models.FindVehicle | Controllers/VehicleController.cs:121 | finds the first vehicle with the id, and finds none iff there is none |
| Models.SetVehicleStatus | Controllers/SaleController.cs:366-374 | only the status of the vehicle with the id changes, and that vehicle gets the new status |
| Seqs.PageIsSlice | Controllers/VehicleController.cs:74-77 | a page is a contiguous run of the query result holding at most `pageSize` rows; for a non-negative offset and size it is the slice starting at the computed offset, clamped to the rows there are |
| Seqs.OffsetExact | Controllers/VehicleController.cs:76 | without overflow, the computed offset is `(page - 1) * pageSize` |
| Seqs.PageOffsetWraps | Controllers/VehicleController.cs:76 | page 65537 of size 32768 computes an offset that wraps to a negative number, so the first rows come back instead of an empty page |
| Seqs.SortDesc | Controllers/SaleController.cs:247 | the result is a permutation of the input, ordered by descending key |
| Seqs.CountIsFilterLength | Controllers/CustomerController.cs:49 | counting the matches equals the length of the filtered sequence |
| Seqs.UniqueByRemove | Controllers/VehicleController.cs:420 | removing a row keeps a unique key unique |
| Auth.Register | Services/AuthService.cs:28-73 | fails with EmailTaken iff some user's email equals the request email ignoring case, and then issues no code; otherwise it only issues a Registration code and creates no user |
| Auth.VerifyRegistration | Services/AuthService.cs:75-134 | a failing code changes nothing; a passing code is consumed; an email already stored then fails with Internal (the unique email index refuses the insert), otherwise exactly one active Customer "New User" with the lower-cased email and an empty phone is appended; the submitted profile and password are not used |
| Auth.Login | Services/AuthService.cs:136-186 | fails with InvalidCredentials, issuing no code, when no user has the email ignoring case or the first such user is inactive or its password does not verify; otherwise issues a Login code for the supplied email |
| Auth.VerifyLogin | Services/AuthService.cs:188-245 | a failing code changes nothing; after a passing code it fails with UserNotFound iff no user has the email; otherwise it stamps the last login of the first user with the email (ignoring case) with `now` and changes nothing else; the active flag is not checked again |
| Sales.InitiatePurchase | Controllers/SaleController.cs:31-86 | validation failure, then a missing vehicle (NotFound), then a vehicle that is not Available (NotAvailable), then a missing email claim (Unauthorized), each refuse without issuing a code; it succeeds iff none applies, and then a PurchaseRequest code is issued and nothing else changes |
| Sales.ConfirmPurchase | Controllers/SaleController.cs:91-206 | the PurchaseRequest code is consumed before the vehicle is looked up; a consumed code then fails with NotFound for a missing vehicle, NotAvailable for a vehicle that is not Available, PendingRequestExists for a Requested sale by the same customer on that vehicle, and Internal for a caller id with no user; it succeeds iff none of these nor a validation, claim or code failure applies, and then exactly one Requested sale is appended with the vehicle's current price, the caller's id and the notes, and the vehicle becomes Reserved |
| Sales.ProcessSale | Controllers/SaleController.cs:325-398 | ValidationFailed for long notes, NotFound for a missing sale and NotProcessable for a sale that is not Requested, with nothing changed; it succeeds iff none applies, and then any target status and the notes are written; Completed stamps `completedAt` and makes the vehicle Sold; Cancelled makes it Available and keeps `completedAt`; other targets leave the vehicles alone |
| Sales.MyPurchases | Controllers/SaleController.cs:211-265 | Unauthorized iff there is no user id claim; otherwise `totalCount` counts the caller's sales, and the page holds only the caller's sales: a permutation of the page of them in row order, sorted newest first |
| Vehicles.GetVehicles | Controllers/VehicleController.cs:30-112 | every listed vehicle is in the store and meets every supplied criterion; a non-admin caller sees only Available vehicles; `totalCount` counts all matches; the page is a run of the matches of at most `pageSize`, starting at the computed offset |
| Vehicles.GetVehicle | Controllers/VehicleController.cs:117-167 | NotFound iff the id is missing, or the caller is not an admin and the vehicle is not Available; otherwise it returns the stored vehicle |
| Vehicles.AddVehicle | Controllers/VehicleController.cs:172-243 | refuses an invalid body, and refuses a VIN some vehicle holds exactly; otherwise appends one Available vehicle that carries every field of the request |
| Vehicles.InitiateUpdate | Controllers/VehicleController.cs:248-284 | NotFound for a missing vehicle, then Unauthorized without an email claim; otherwise an UpdateVehicle code is issued for the email, naming no vehicle |
| Vehicles.UpdateVehicle | Controllers/VehicleController.cs:289-390 | the code is consumed before the vehicle is looked up; a consumed code then fails with NotFound for a missing vehicle and DuplicateVin for a changed VIN another vehicle holds; it succeeds iff none of these nor a validation, claim or code failure applies; on success every request field and the status are written, `updatedAt` becomes `now`, and the id and `createdAt` are kept |
| Vehicles.DeleteVehicle | Controllers/VehicleController.cs:395-428 | NotFound for a missing vehicle; a vehicle that a sale of any status references is kept (HasSales); otherwise exactly that vehicle is removed and the order of the others is kept |
| Customers.PurchaseCount | Controllers/CustomerController.cs:49 | the number of the user's sales whose status is Completed |
| Customers.GetCustomers | Controllers/CustomerController.cs:27-68 | `totalCount` counts the users whose role is Customer; the page summarizes a run of them of at most `pageSize`, starting at the computed offset |
| Customers.ListedAreCustomers | Controllers/CustomerController.cs:30-38 | every listed entry summarizes a user of the store whose role is Customer |
| Customers.GetCustomer | Controllers/CustomerController.cs:73-108 | NotFound iff no user has the id with role Customer (so an admin's id is NotFound); otherwise it returns that user's summary |
| Invariants.RegisterKeepsValid | Services/AuthService.cs:28-73 | registration preserves the store constraints: unique ids, emails and VINs, lower-cased emails, sales referencing stored rows, one unused code per scope |
| Invariants.VerifyRegistrationKeepsValid | Services/AuthService.cs:91-133 | confirming a registration with a fresh id preserves the store constraints |
| Invariants.LoginKeepsValid | Services/AuthService.cs:136-186 | login preserves the store constraints |
| Invariants.VerifyLoginKeepsValid | Services/AuthService.cs:188-245 | confirming a login preserves the store constraints |
| Invariants.InitiatePurchaseKeepsValid | Controllers/SaleController.cs:31-86 | initiating a purchase preserves the store constraints |
| Invariants.ConfirmPurchaseKeepsValid | Controllers/SaleController.cs:116-176 | confirming a purchase with a fresh sale id preserves the store constraints |
| Invariants.ProcessSaleKeepsValid | Controllers/SaleController.cs:339-376 | processing a sale preserves the store constraints |
| Invariants.AddVehicleKeepsValid | Controllers/VehicleController.cs:186-216 | adding a vehicle with a fresh id preserves the store constraints, VIN uniqueness included |
| Invariants.InitiateUpdateKeepsValid | Controllers/VehicleController.cs:248-284 | initiating an update preserves the store constraints |
| Invariants.UpdateVehicleKeepsValid | Controllers/VehicleController.cs:313-364 | updating a vehicle preserves the store constraints, VIN uniqueness included |
| Invariants.DeleteVehicleKeepsValid | Controllers/VehicleController.cs:399-421 | deleting a vehicle preserves the store constraints, including that every sale references a stored vehicle |
| Invariants.CleanupKeepsValid | Services/OtpService.cs:99-109 | the expiry sweep preserves the store constraints |
| Workflows.RegisterThenVerify | Services/AuthService.cs:28-106 | confirming a registration with its own code before expiry, with the email in any letter case, creates the customer account with the lower-cased email |
| Workflows.LoginThenVerify | Services/AuthService.cs:136-217 | confirming a login with its own code before expiry signs in a user with that email and stamps the sign-in instant |
| Workflows.ConfirmCannotBeReplayed | Controllers/SaleController.cs:116-125 | a purchase code that passed its check once is refused as InvalidOtp by any later confirmation, whether the first one succeeded or not |
| Workflows.ConfirmedSaleIsFound | Controllers/SaleController.cs:162-176 | the sale a confirmation appends is the one found by its fresh id, and its vehicle is stored |
| Workflows.PurchaseLifecycle | Controllers/SaleController.cs:162-374 | after a confirmation, completing the new sale succeeds, stamps `completedAt`, makes the vehicle Sold, and every further processing of that sale fails |
| Workflows.CompletingRequestedSale | Controllers/SaleController.cs:344-374 | completing a Requested sale whose vehicle is stored succeeds, stamps `completedAt`, makes that vehicle Sold, and every further processing of the sale fails |
| Workflows.ProcessedSaleIsFinal | Controllers/SaleController.cs:353-364 | a second processing fails iff the first set a status other than Requested (or the notes are too long), and a failure changes nothing |
| Workflows.ApprovalKeepsVehicle | Controllers/SaleController.cs:363-375 | approving a sale leaves every vehicle unchanged |
| Workflows.CompletionCountsPurchase | Controllers/CustomerController.cs:49 | completing a sale adds one to its buyer's purchase count and leaves every other user's count alone |
| Workflows.ConfirmExtendsHistory | Controllers/SaleController.cs:224-226 | a successful confirmation adds one to the caller's purchase history count and to no one else's |
| Workflows.UpdateCodeNotBoundToVehicle | Controllers/VehicleController.cs:272-332 | a code issued while initiating the update of vehicle a lets the same admin update any other vehicle b |
| Workflows.AddThenGet | Controllers/VehicleController.cs:199-216 | a vehicle just added is fetched back as added, by any caller |
| Workflows.DeleteThenGet | Controllers/VehicleController.cs:420-421 | with unique vehicle ids, a deleted vehicle is NotFound afterwards |

## Left out

- Token minting and validation (Services/AuthService.cs:253-276, Extensions/ServiceExtensions.cs): the caller's id, email and role claims are inputs, and a confirmation returns the user the token would describe.
- `[Authorize]` and `[Authorize(Roles = "Admin")]`: this gating happens in the framework before an action runs. The model only includes the claim checks written inside the actions.
- BCrypt: password verification is the parameter `verify`, and the stored hash of the temporary password is the parameter `passwordHash`.
- `Random` and the clock: the draw and `now` are parameters.
- The model uses one `now` per request, although the code reads `DateTime.UtcNow` several times in one request. In `Otp.Generate` it reads the clock separately for the record's `CreatedAt` and `ExpiresAt`. `Sales.ConfirmPurchase`, `Vehicles.UpdateVehicle` and `Auth.VerifyLogin` read it once to validate the code and again for `RequestedAt`, `UpdatedAt` and `LastLoginAt`. Readings within one request differ by at most the request's running time.
- Console and logger output, and delivering the code by email.
- Concurrency: every request is one atomic step. The race between two confirmations of the same vehicle is not expressed.
- `TotalPages`: it is computed in floating point (`Math.Ceiling` on `double`).
- `decimal` prices: they are integers (cents), without the 18,2 column precision.
- Unicode: `ToLower`, `Contains` and blank-string checks are ASCII only. This matches SQLite's built-in `lower()`, but not .NET's culture rules for non-ASCII text. Length limits are modelled as .NET counts them, in UTF-16 code units (`Ascii.Utf16Length`), so a character above U+FFFF counts twice.
- Request binding: the model does not cover enum values outside their declared range, a non-numeric user id claim (`int.Parse` would throw), or null strings. The user id claim is an `Option<int>`. The implicit "required" check that non-nullable strings get under nullable reference types is not modelled; only the declared attributes are.
- Column lengths on users and OTP records, and the `[EmailAddress]` format: SQLite does not enforce lengths, and the auth request bodies are validated in AuthController, which is not part of this model.
- Unexpected database and framework failures caught by the `try/catch` blocks. The one failure the model keeps is the unique email index refusing a duplicate account.
- Response DTO mapping, including the customer and vehicle name strings.
- Navigation loading (`Include`): the foreign keys guarantee the loaded rows exist. `Models.SetVehicleStatus` on a missing id leaves the vehicles unchanged, a case the foreign keys rule out.
- `GetAllSales` (Controllers/SaleController.cs:270-320) and the authentication controller's plumbing. They are not part of this model.
- Seed data and database creation (Data/AppDbContext.cs, Program.cs).
- Listing order: `GetVehicles`, `GetCustomers` and the row selection of `GetMyPurchases` have no `ORDER BY`. SQLite then returns rows in table order in practice, but does not promise it. The model uses row order.
- Sales.MyPurchases: the page is stated as a permutation of the page of the caller's sales. Ties in `RequestedAt` may come back in any order, so the exact order is not fixed.
- Vehicles.GetVehicles: the exact start offset is stated only when the computed offset and page size are not negative. Otherwise it only says the page is a run of the matches; the overflowing case is `Seqs.PageOffsetWraps`.
- Customers.GetCustomers: the same restriction on the offset applies as for Vehicles.GetVehicles.
