/** The two-phase registration and login flows (Services/AuthService.cs),
    layered on the OTP engine. Token minting is not modelled: a successful
    confirmation returns the user whose claims the token would carry. */
module Auth {
  import opened Base
  import opened Ascii
  import opened Models
  import Otp

  /** The registration body. Only `email` is read by the flow; the profile and
      password are not kept for the confirmation step. */
  datatype RegisterRequest = RegisterRequest(
    firstName: string,
    lastName: string,
    email: string,
    password: string,
    phone: string,
    role: UserRole)

  const PlaceholderFirstName: string := "New"
  const PlaceholderLastName: string := "User"

  /** Some user's email equals `email` ignoring case. */
  predicate EmailRegistered(users: seq<User>, email: string) {
    exists j :: 0 <= j < |users| && Lower(users[j].email) == Lower(email)
  }

  /** `RegisterAsync`: refuses an email already registered (ignoring case)
      without issuing a code; otherwise issues a Registration code and
      creates no user. */
  function Register(s: Store, req: RegisterRequest, now: int, draw: int): (r: Response<()>)
    requires Otp.ValidDraw(draw)
    ensures r.result.Err? <==> EmailRegistered(s.users, req.email)
    ensures r.result.Err? ==> r.result.error == EmailTaken && r.store == s
    ensures r.result.Ok? ==>
      r.store == s.(otps := Otp.Generate(s.otps, req.email, Registration, now, draw).otps)
  {
    if FindUserByEmail(s.users, req.email).Some? then Response(Err(EmailTaken), s)
    else Response(Ok(()), s.(otps := Otp.Generate(s.otps, req.email, Registration, now, draw).otps))
  }

  /** The account a successful registration creates. */
  function NewAccount(id: int, email: string, passwordHash: string, now: int): User {
    User(id, PlaceholderFirstName, PlaceholderLastName, Lower(email), passwordHash, "", Customer, true, now, None)
  }

  /** `VerifyRegistrationAsync`. `newId` is the identity the store assigns and
      `passwordHash` the hash of the fixed temporary password. A wrong code
      changes nothing. A right code is consumed; the store's unique email
      index then refuses an email some row already holds, and otherwise one
      placeholder customer account is appended. */
  function VerifyRegistration(s: Store, email: string, code: string, now: int, newId: int, passwordHash: string): (r: Response<User>)
    ensures var v := Otp.Validate(s.otps, email, code, Registration, now);
      && (!v.ok ==> r.result == Err(InvalidOtp) && r.store == s)
      && (v.ok ==> r.store.otps == v.otps && r.store.vehicles == s.vehicles && r.store.sales == s.sales)
    ensures r.result.Ok? <==>
      Otp.Validate(s.otps, email, code, Registration, now).ok &&
      forall j :: 0 <= j < |s.users| ==> s.users[j].email != Lower(email)
    ensures r.result.Err? ==> r.store.users == s.users
    ensures (Otp.Validate(s.otps, email, code, Registration, now).ok &&
             exists j :: 0 <= j < |s.users| && s.users[j].email == Lower(email)) ==>
      r.result == Err(Internal)
    ensures r.result.Ok? ==>
      var u := r.result.value;
      && r.store.users == s.users + [u]
      && u.id == newId && u.email == Lower(email) && u.passwordHash == passwordHash
      && u.firstName == "New" && u.lastName == "User" && u.phone == ""
      && u.role == Customer && u.isActive && u.createdAt == now && u.lastLoginAt == None
  {
    var v := Otp.Validate(s.otps, email, code, Registration, now);
    if !v.ok then Response(Err(InvalidOtp), s)
    else if exists j :: 0 <= j < |s.users| && s.users[j].email == Lower(email) then
      Response(Err(Internal), s.(otps := v.otps))
    else
      var u := NewAccount(newId, email, passwordHash, now);
      Response(Ok(u), s.(otps := v.otps, users := s.users + [u]))
  }

  /** `LoginAsync`. `verify` is the password check against a stored hash.
      Refuses, without issuing a code, when the first user with the email
      (ignoring case) is missing, inactive, or the password does not verify;
      otherwise issues a Login code for the email as supplied. */
  function Login(s: Store, email: string, password: string, now: int, draw: int,
                 verify: (string, string) -> bool): (r: Response<()>)
    requires Otp.ValidDraw(draw)
    ensures r.result.Err? ==> r.result.error == InvalidCredentials && r.store == s
    ensures r.result.Ok? ==>
      r.store == s.(otps := Otp.Generate(s.otps, email, OtpPurpose.Login, now, draw).otps)
    ensures r.result.Ok? ==> exists j :: (0 <= j < |s.users| &&
      Lower(s.users[j].email) == Lower(email) && s.users[j].isActive && verify(password, s.users[j].passwordHash))
    ensures !EmailRegistered(s.users, email) ==> r.result.Err?
    ensures EmailRegistered(s.users, email) &&
      (forall j :: 0 <= j < |s.users| && Lower(s.users[j].email) == Lower(email) ==>
        s.users[j].isActive && verify(password, s.users[j].passwordHash))
      ==> r.result.Ok?
    ensures var f := FindUserByEmail(s.users, email);
      r.result.Ok? <==> f.Some? && s.users[f.value].isActive && verify(password, s.users[f.value].passwordHash)
  {
    match FindUserByEmail(s.users, email)
    case None => Response(Err(InvalidCredentials), s)
    case Some(i) =>
      var u := s.users[i];
      if !u.isActive then Response(Err(InvalidCredentials), s)
      else if !verify(password, u.passwordHash) then Response(Err(InvalidCredentials), s)
      else Response(Ok(()), s.(otps := Otp.Generate(s.otps, email, OtpPurpose.Login, now, draw).otps))
  }

  /** `VerifyLoginAsync`: checks the code first (a wrong code changes nothing);
      a consumed code then fails when no user has the email, and otherwise
      stamps that user's last login. The active flag is not consulted. */
  function VerifyLogin(s: Store, email: string, code: string, now: int): (r: Response<User>)
    ensures var v := Otp.Validate(s.otps, email, code, OtpPurpose.Login, now);
      && (!v.ok ==> r.result == Err(InvalidOtp) && r.store == s)
      && (v.ok ==> r.store.otps == v.otps && r.store.vehicles == s.vehicles && r.store.sales == s.sales)
    ensures r.result.Ok? <==>
      Otp.Validate(s.otps, email, code, OtpPurpose.Login, now).ok && EmailRegistered(s.users, email)
    ensures Otp.Validate(s.otps, email, code, OtpPurpose.Login, now).ok && !EmailRegistered(s.users, email) ==>
      r.result == Err(UserNotFound)
    ensures r.result.Err? ==> r.store.users == s.users
    ensures r.result.Ok? ==> exists j :: (0 <= j < |s.users| &&
      Lower(s.users[j].email) == Lower(email) &&
      r.result.value == s.users[j].(lastLoginAt := Some(now)) &&
      r.store.users == s.users[j := r.result.value])
    ensures r.result.Ok? ==>
      var f := FindUserByEmail(s.users, email);
      && f.Some?
      && r.result.value == s.users[f.value].(lastLoginAt := Some(now))
      && r.store.users == s.users[f.value := r.result.value]
  {
    var v := Otp.Validate(s.otps, email, code, OtpPurpose.Login, now);
    if !v.ok then Response(Err(InvalidOtp), s)
    else match FindUserByEmail(s.users, email)
      case None => Response(Err(UserNotFound), s.(otps := v.otps))
      case Some(i) =>
        var u := s.users[i].(lastLoginAt := Some(now));
        Response(Ok(u), s.(otps := v.otps, users := s.users[i := u]))
  }
}
