/** The one-time-passcode engine (Services/OtpService.cs). Codes are scoped by
    (lower-cased email, purpose); generating a code first retires every unused
    code of its scope, so a scope never holds two unused codes, and a
    validated code cannot be replayed. */
module Otp {
  import opened Base
  import opened Seqs
  import opened Ascii
  import opened Models

  const ExpiryMinutes: int := 10
  const SecondsPerMinute: int := 60
  /** Seconds from issue to expiry. */
  const ExpirySeconds: int := ExpiryMinutes * SecondsPerMinute

  /** `Random.Next(100000, 999999)` returns a value in [100000, 999999). */
  const DrawLow: int := 100000
  const DrawHigh: int := 999999

  predicate ValidDraw(n: int) {
    DrawLow <= n < DrawHigh
  }

  /** The record belongs to the scope of (`email`, `purpose`). */
  predicate InScope(o: OtpCode, email: string, purpose: OtpPurpose) {
    o.email == Lower(email) && o.purpose == purpose
  }

  /** The record would let `code` through at instant `now`. */
  predicate Usable(o: OtpCode, email: string, code: string, purpose: OtpPurpose, now: int) {
    InScope(o, email, purpose) && o.code == code && !o.isUsed && o.expiresAt > now
  }

  function MarkUsed(o: OtpCode, now: int): OtpCode {
    o.(isUsed := true, usedAt := Some(now))
  }

  /** Two distinct records that are both unused in one scope. */
  predicate Clash(a: OtpCode, b: OtpCode) {
    !a.isUsed && !b.isUsed && a.email == b.email && a.purpose == b.purpose
  }

  /** At most one unused record per (email, purpose). */
  ghost predicate OneUnusedPerScope(otps: seq<OtpCode>) {
    forall i, j :: 0 <= i < j < |otps| ==> !Clash(otps[i], otps[j])
  }

  /** `InvalidateOtpAsync`: every unused record of the scope becomes used at
      `now`, whatever its expiry; every other record is untouched. */
  function Invalidate(otps: seq<OtpCode>, email: string, purpose: OtpPurpose, now: int): (r: seq<OtpCode>)
    ensures |r| == |otps|
    ensures forall i :: 0 <= i < |otps| && InScope(otps[i], email, purpose) && !otps[i].isUsed ==>
      r[i] == MarkUsed(otps[i], now)
    ensures forall i :: 0 <= i < |otps| && !(InScope(otps[i], email, purpose) && !otps[i].isUsed) ==>
      r[i] == otps[i]
    ensures forall i :: 0 <= i < |r| && InScope(r[i], email, purpose) ==> r[i].isUsed
    decreases |otps|
  {
    if |otps| == 0 then []
    else
      var o := otps[0];
      var o' := if InScope(o, email, purpose) && !o.isUsed then MarkUsed(o, now) else o;
      [o'] + Invalidate(otps[1..], email, purpose, now)
  }

  /** A freshly issued code and the table holding its record. */
  datatype Issued = Issued(code: string, otps: seq<OtpCode>)

  /** `GenerateOtpAsync` with the random draw `draw`: retire the scope's
      unused codes, then append a record for the decimal text of `draw`,
      expiring ten minutes after `now`. */
  function Generate(otps: seq<OtpCode>, email: string, purpose: OtpPurpose, now: int, draw: int): (r: Issued)
    requires ValidDraw(draw)
    ensures |r.code| == 6 && IsDigits(r.code) && r.code[0] != '0'
    ensures DecimalValue(r.code) == draw && r.code != "999999"
    ensures |r.otps| == |otps| + 1
    ensures r.otps[|otps|] == OtpCode(Lower(email), r.code, purpose, now, now + ExpirySeconds, false, None)
    ensures forall i :: 0 <= i < |otps| && InScope(otps[i], email, purpose) && !otps[i].isUsed ==>
      r.otps[i] == MarkUsed(otps[i], now)
    ensures forall i :: 0 <= i < |otps| && !(InScope(otps[i], email, purpose) && !otps[i].isUsed) ==>
      r.otps[i] == otps[i]
    ensures forall i :: 0 <= i < |r.otps| && InScope(r.otps[i], email, purpose) && !r.otps[i].isUsed ==>
      i == |otps|
  {
    var code := DecimalString(draw);
    DecimalRoundTrip(draw);
    Pow10Values();
    DecimalWidth(draw, 6);
    NinesValue();
    var record := OtpCode(Lower(email), code, purpose, now, now + ExpirySeconds, false, None);
    Issued(code, Invalidate(otps, email, purpose, now) + [record])
  }

  lemma Pow10Values()
    ensures Pow10(5) == DrawLow && Pow10(6) == DrawHigh + 1
  {
    assert Pow10(2) == 100;
    assert Pow10(4) == 10000;
  }

  lemma NinesValue()
    ensures DecimalValue("999999") == DrawHigh
  {
    var s := "999999";
    assert s[..5] == "99999" && s[..5][..4] == "9999" && s[..5][..4][..3] == "999";
    assert s[..5][..4][..3][..2] == "99" && s[..5][..4][..3][..2][..1] == "9";
    assert DecimalValue("9") == 9;
    assert DecimalValue("99") == 99;
    assert DecimalValue("999") == 999;
    assert DecimalValue("9999") == 9999;
    assert DecimalValue("99999") == 99999;
  }

  /** The answer of a validation and the table after it. */
  datatype Checked = Checked(ok: bool, otps: seq<OtpCode>)

  /** `ValidateOtpAsync`: succeeds iff some record is usable for (`email`,
      `code`, `purpose`) at `now`; then exactly that first record becomes used
      at `now`. A failure changes nothing. */
  function Validate(otps: seq<OtpCode>, email: string, code: string, purpose: OtpPurpose, now: int): (r: Checked)
    ensures r.ok <==> exists i :: 0 <= i < |otps| && Usable(otps[i], email, code, purpose, now)
    ensures !r.ok ==> r.otps == otps
    ensures r.ok ==> exists i :: (0 <= i < |otps| && Usable(otps[i], email, code, purpose, now) &&
      r.otps == otps[i := MarkUsed(otps[i], now)])
  {
    match FirstIndex(otps, (o: OtpCode) => Usable(o, email, code, purpose, now))
    case None => Checked(false, otps)
    case Some(i) => Checked(true, otps[i := MarkUsed(otps[i], now)])
  }

  /** `CleanupExpiredOtpAsync`: drops exactly the records whose expiry is
      strictly before `now`, used or not, and keeps the others in order. */
  function Cleanup(otps: seq<OtpCode>, now: int): (r: seq<OtpCode>)
    ensures forall o :: multiset(r)[o] == if o.expiresAt < now then 0 else multiset(otps)[o]
    ensures forall o :: o in r <==> o in otps && o.expiresAt >= now
  {
    Filter(otps, (o: OtpCode) => o.expiresAt >= now)
  }

  // ---------------------------------------------------------------------
  // Properties.

  /** A record expiring exactly at `now` no longer validates but is not yet
      removed by a cleanup at `now`. */
  lemma ExpiryInstant(otps: seq<OtpCode>, i: int, email: string, code: string, purpose: OtpPurpose, now: int)
    requires 0 <= i < |otps| && otps[i].expiresAt == now
    ensures !Usable(otps[i], email, code, purpose, now)
    ensures otps[i] in Cleanup(otps, now)
  {
  }

  lemma InvalidateKeepsOneUnused(otps: seq<OtpCode>, email: string, purpose: OtpPurpose, now: int)
    requires OneUnusedPerScope(otps)
    ensures OneUnusedPerScope(Invalidate(otps, email, purpose, now))
  {
    var r := Invalidate(otps, email, purpose, now);
    forall i, j | 0 <= i < j < |r| ensures !Clash(r[i], r[j]) {
      if !r[i].isUsed && !r[j].isUsed {
        assert r[i] == otps[i] && r[j] == otps[j];
      }
    }
  }

  /** After a generation the scope's only unused record is the new one, so
      the invariant holds whatever held before in that scope. */
  lemma GenerateKeepsOneUnused(otps: seq<OtpCode>, email: string, purpose: OtpPurpose, now: int, draw: int)
    requires ValidDraw(draw)
    requires OneUnusedPerScope(otps)
    ensures OneUnusedPerScope(Generate(otps, email, purpose, now, draw).otps)
  {
    var r := Generate(otps, email, purpose, now, draw).otps;
    forall i, j | 0 <= i < j < |r| ensures !Clash(r[i], r[j]) {
      if j == |otps| {
        assert InScope(r[j], email, purpose);
      } else if !r[i].isUsed && !r[j].isUsed {
        assert r[i] == otps[i] && r[j] == otps[j];
      }
    }
  }

  lemma ValidateKeepsOneUnused(otps: seq<OtpCode>, email: string, code: string, purpose: OtpPurpose, now: int)
    requires OneUnusedPerScope(otps)
    ensures OneUnusedPerScope(Validate(otps, email, code, purpose, now).otps)
  {
    var r := Validate(otps, email, code, purpose, now).otps;
    forall i, j | 0 <= i < j < |r| ensures !Clash(r[i], r[j]) {
      if !r[i].isUsed && !r[j].isUsed {
        assert r[i] == otps[i] && r[j] == otps[j];
      }
    }
  }

  /** Putting a record in front of a table keeps the invariant when it clashes
      with none of the table's records. */
  lemma ConsKeepsOneUnused(x: OtpCode, t: seq<OtpCode>)
    requires OneUnusedPerScope(t)
    requires forall y :: y in t ==> !Clash(x, y)
    ensures OneUnusedPerScope([x] + t)
  {
    var r := [x] + t;
    forall i, j | 0 <= i < j < |r| ensures !Clash(r[i], r[j]) {
      if i == 0 {
        assert r[j] == t[j - 1] && r[j] in t;
      } else {
        assert r[i] == t[i - 1] && r[j] == t[j - 1];
      }
    }
  }

  lemma {:induction false} FilterKeepsOneUnused(otps: seq<OtpCode>, p: OtpCode -> bool)
    requires OneUnusedPerScope(otps)
    ensures OneUnusedPerScope(Filter(otps, p))
    decreases |otps|
  {
    if |otps| > 0 {
      var tail := otps[1..];
      assert OneUnusedPerScope(tail) by {
        forall i, j | 0 <= i < j < |tail| ensures !Clash(tail[i], tail[j]) {
          assert tail[i] == otps[i + 1] && tail[j] == otps[j + 1];
        }
      }
      var rest := Filter(tail, p);
      FilterKeepsOneUnused(tail, p);
      if p(otps[0]) {
        forall y | y in rest ensures !Clash(otps[0], y) {
          assert y in tail;
          var k :| 0 <= k < |tail| && tail[k] == y;
          assert otps[k + 1] == y;
        }
        ConsKeepsOneUnused(otps[0], rest);
      }
    }
  }

  lemma CleanupKeepsOneUnused(otps: seq<OtpCode>, now: int)
    requires OneUnusedPerScope(otps)
    ensures OneUnusedPerScope(Cleanup(otps, now))
  {
    FilterKeepsOneUnused(otps, (o: OtpCode) => o.expiresAt >= now);
  }

  /** A code that validated once never validates again, at any instant: the
      record it used was the scope's only unused one. */
  lemma ReplayFails(otps: seq<OtpCode>, email: string, code: string, purpose: OtpPurpose, now: int, later: int)
    requires OneUnusedPerScope(otps)
    requires Validate(otps, email, code, purpose, now).ok
    ensures !Validate(Validate(otps, email, code, purpose, now).otps, email, code, purpose, later).ok
  {
    var r := Validate(otps, email, code, purpose, now).otps;
    var i :| 0 <= i < |otps| && Usable(otps[i], email, code, purpose, now) && r == otps[i := MarkUsed(otps[i], now)];
    forall j | 0 <= j < |r| ensures !Usable(r[j], email, code, purpose, later) {
      if j != i {
        assert r[j] == otps[j];
        if i < j {
          assert !Clash(otps[i], otps[j]);
        } else {
          assert !Clash(otps[j], otps[i]);
        }
      }
    }
  }

  /** Right after a generation, a validation for the same scope (the email in
      any letter case) succeeds exactly for the issued code before its
      expiry instant. */
  lemma GenerateThenValidate(otps: seq<OtpCode>, email: string, email': string, purpose: OtpPurpose,
                             now: int, draw: int, code: string, later: int)
    requires ValidDraw(draw)
    requires Lower(email') == Lower(email)
    ensures var g := Generate(otps, email, purpose, now, draw);
      Validate(g.otps, email', code, purpose, later).ok <==> code == g.code && later < now + ExpirySeconds
  {
    var g := Generate(otps, email, purpose, now, draw);
    if Validate(g.otps, email', code, purpose, later).ok {
      var i :| 0 <= i < |g.otps| && Usable(g.otps[i], email', code, purpose, later);
      assert InScope(g.otps[i], email, purpose);
      assert i == |otps|;
    }
    if code == g.code && later < now + ExpirySeconds {
      assert Usable(g.otps[|otps|], email', code, purpose, later);
    }
  }
}
