/** The two request handlers over the database, as methods of one object
    holding both tables. Each handler stages its changes and writes them to
    the fields only where the source commits; a request that is rejected
    returns before any field is written. Clock, random draw and session
    token are parameters. */
module Handlers {
  import opened OtpCode
  import opened Tables

  class Store {
    /** Table `otps`, in rowid order. */
    var otps: seq<OtpRow>
    /** Table `users`, keyed by its unique phone column. */
    var users: map<string, UserRow>
    /** The rowid the next new user row gets. */
    var nextUserId: nat

    function State(): Db
      reads this
    {
      Db(otps, users, nextUserId)
    }

    ghost predicate Valid()
      reads this
    {
      WellFormed(State())
    }

    /** A freshly created database: both tables empty. */
    constructor ()
      ensures Valid()
      ensures State() == EmptyDb
    {
      otps := [];
      users := map[];
      nextUserId := 1;
      EmptyDbWellFormed();
    }

    /** `send_otp`: `drawn` is the value of `random.randint(1000, 9999)` and
        `now` the clock in whole seconds. Returns the code the response
        shows; appends one row and changes nothing else. */
    method SendOtp(phone: string, drawn: int, now: int) returns (code: string)
      requires Valid()
      requires MinCode <= drawn <= MaxCode
      modifies this
      ensures Valid()
      ensures (State(), code) == Issue(old(State()), phone, drawn, now)
      ensures otps[..|old(otps)|] == old(otps) && users == old(users)
      ensures |code| == 4 && ParseDecimal(code) == drawn
      ensures otps[|otps| - 1].code == code && otps[|otps| - 1].expiration == now + OtpLifetime
    {
      code := CodeText(drawn);
      var expiration := now + OtpLifetime;
      var row := OtpRow(NextOtpId(otps), phone, code, expiration);
      otps := otps + [row];
      IssuePreservesWellFormed(old(State()), phone, drawn, now);
    }

    /** `verify_otp`: `now` is the clock in whole seconds and `token` the
        session token derived for this request. */
    method VerifyOtp(req: VerifyRequest, now: int, token: string) returns (r: VerifyResult)
      requires Valid()
      modifies this
      ensures Valid()
      ensures (State(), r) == Verify(old(State()), req, now, token)
      ensures r.Rejected? ==> otps == old(otps) && users == old(users) && nextUserId == old(nextUserId)
      ensures r.LoggedIn? ==> req.phone in users && users[req.phone].sessionId == token && r.userId == users[req.phone].id
      ensures r.LoggedIn? ==> r.message == LoginSuccess
    {
      ghost var before := State();
      var found := NewestMatch(otps, req.phone, req.code);
      if found.None? {
        return Rejected(WrongCode);
      }
      var i := found.value;
      if otps[i].expiration < now {
        return Rejected(CodeExpired);
      }
      // db.delete(otp): staged until the commit below
      var remaining := otps[..i] + otps[i + 1..];
      var user: UserRow;
      var newUserId := nextUserId;
      if req.phone in users {
        user := users[req.phone];
        user := user.(sessionId := token, ip := req.ip, deviceName := req.deviceName);
      } else {
        user := UserRow(nextUserId, req.phone, token, req.ip, req.deviceName);
        newUserId := nextUserId + 1;
      }
      // db.commit()
      otps := remaining;
      users := users[req.phone := user];
      nextUserId := newUserId;
      r := LoggedIn(ResponseMessageAsWritten(Some(user)), token, user.id);
      VerifyPreservesWellFormed(before, req, now, token);
    }
  }
}
