/** The two tables of the login service (`users` and `otps`) as values, and
    the two request handlers as functions from the tables before a request
    to the tables after it and the response. Commit/rollback is modelled as
    "the new tables are returned only on the success path". */
module Tables {
  import opened OtpCode

  datatype Option<T> = None | Some(value: T)

  /** A row of table `otps`. `id` is the SQLite rowid. */
  datatype OtpRow = OtpRow(id: nat, phone: string, code: string, expiration: int)

  /** A row of table `users`; `phone` is unique. */
  datatype UserRow = UserRow(id: nat, phone: string, sessionId: string, ip: string, deviceName: string)

  /** The body of a verify request. */
  datatype VerifyRequest = VerifyRequest(phone: string, code: string, ip: string, deviceName: string)

  /** The response messages, as tags instead of their Arabic texts. */
  datatype Message = LoginSuccess | AccountCreated

  /** The two 400 rejections of the verify handler. */
  datatype VerifyError = WrongCode | CodeExpired

  datatype VerifyResult =
    | LoggedIn(message: Message, sessionId: string, userId: nat)
    | Rejected(error: VerifyError)

  /** Both tables, plus the rowid the next new user gets. The OTP rows are
      listed in rowid order. */
  datatype Db = Db(otps: seq<OtpRow>, users: map<string, UserRow>, nextUserId: nat)

  /** Seconds an OTP stays valid after it is issued. */
  const OtpLifetime: int := 300

  const EmptyDb: Db := Db([], map[], 1)

  // ---------------------------------------------------------------------
  // Table invariants

  ghost predicate IdsAscending(rows: seq<OtpRow>) {
    forall i, j :: 0 <= i < j < |rows| ==> rows[i].id < rows[j].id
  }

  /** What the schema and SQLite's rowid rule guarantee of the two tables:
      OTP rowids are distinct (listed in increasing order); each user is
      stored under its own phone number (so the phone column is unique);
      user ids are distinct and `nextUserId` is one past the largest. */
  ghost predicate WellFormed(db: Db)
    ensures WellFormed(db) ==>
      forall i, j :: 0 <= i < |db.otps| && 0 <= j < |db.otps| && db.otps[i].id == db.otps[j].id ==> i == j
    ensures WellFormed(db) ==>
      forall u, v :: u in db.users.Values && v in db.users.Values && u.phone == v.phone ==> u == v
  {
    IdsAscending(db.otps) && UsersWellFormed(db.users, db.nextUserId)
  }

  ghost predicate UsersWellFormed(users: map<string, UserRow>, nextUserId: nat) {
    && nextUserId == |users| + 1
    && (forall p :: p in users ==> users[p].phone == p && 1 <= users[p].id < nextUserId)
    && (forall p, q :: p in users && q in users && p != q ==> users[p].id != users[q].id)
  }

  lemma EmptyDbWellFormed()
    ensures WellFormed(EmptyDb)
  {
  }

  // ---------------------------------------------------------------------
  // Row selection

  /** SQLite's rowid for a new row: one past the largest rowid in the table,
      or 1 when the table is empty. */
  function NextOtpId(rows: seq<OtpRow>): (id: nat)
    requires IdsAscending(rows)
    ensures id >= 1
    ensures forall k :: 0 <= k < |rows| ==> rows[k].id < id
  {
    if rows == [] then 1 else rows[|rows| - 1].id + 1
  }

  predicate Matches(row: OtpRow, phone: string, code: string) {
    row.phone == phone && row.code == code
  }

  /** The row the verify query returns: among the rows whose phone and code
      equal the request's, the one with the largest id
      (`order_by(OTP.id.desc()).first()`), or None when no row matches. */
  function NewestMatch(rows: seq<OtpRow>, phone: string, code: string): (r: Option<nat>)
    ensures r.None? <==> forall k :: 0 <= k < |rows| ==> !Matches(rows[k], phone, code)
    ensures r.Some? ==> r.value < |rows| && Matches(rows[r.value], phone, code)
    ensures r.Some? ==> forall k :: 0 <= k < |rows| && Matches(rows[k], phone, code) ==> rows[k].id <= rows[r.value].id
  {
    if rows == [] then None
    else
      var last := rows[|rows| - 1];
      var earlier := NewestMatch(rows[..|rows| - 1], phone, code);
      if Matches(last, phone, code) && (earlier.None? || rows[earlier.value].id <= last.id) then
        Some(|rows| - 1)
      else
        earlier
  }

  /** With ascending ids there is exactly one newest matching row. */
  lemma NewestMatchUnique(rows: seq<OtpRow>, phone: string, code: string, i: nat)
    requires IdsAscending(rows)
    requires i < |rows| && Matches(rows[i], phone, code)
    requires forall k :: 0 <= k < |rows| && Matches(rows[k], phone, code) ==> rows[k].id <= rows[i].id
    ensures NewestMatch(rows, phone, code) == Some(i)
  {
    var r := NewestMatch(rows, phone, code);
    assert rows[r.value].id <= rows[i].id && rows[i].id <= rows[r.value].id;
  }

  function RemoveAt(rows: seq<OtpRow>, i: nat): seq<OtpRow>
    requires i < |rows|
  {
    rows[..i] + rows[i + 1..]
  }

  /** The index in `rows` of entry `k` of `RemoveAt(rows, i)`. */
  function Unskip(k: nat, i: nat): (j: nat)
    ensures j != i
  {
    if k < i then k else k + 1
  }

  lemma RemoveAtKeepsOrder(rows: seq<OtpRow>, i: nat)
    requires IdsAscending(rows) && i < |rows|
    ensures IdsAscending(RemoveAt(rows, i))
  {
    var r := RemoveAt(rows, i);
    forall a, b | 0 <= a < b < |r| ensures r[a].id < r[b].id {
      var a' := if a < i then a else a + 1;
      var b' := if b < i then b else b + 1;
      assert r[a] == rows[a'] && r[b] == rows[b'];
    }
  }

  // ---------------------------------------------------------------------
  // The two handlers

  /** `send_otp`: store a new row with the code text of the draw and an
      expiration `OtpLifetime` seconds after `now`; nothing else changes.
      Returns the new tables and the code (which the response shows). */
  function Issue(db: Db, phone: string, drawn: int, now: int): (r: (Db, string))
    requires IdsAscending(db.otps)
    requires MinCode <= drawn <= MaxCode
    // only appends: every earlier row, including older codes for the same
    // phone, is kept unchanged, and the user table is untouched
    ensures |r.0.otps| == |db.otps| + 1 && r.0.otps[..|db.otps|] == db.otps
    ensures r.0.users == db.users && r.0.nextUserId == db.nextUserId
    // the new row: the phone, a four-digit code whose value is the draw, an
    // expiration exactly 300 seconds after `now`, an id above all earlier ids
    ensures var row := r.0.otps[|db.otps|];
      && row.phone == phone && row.code == r.1 && row.expiration == now + 300
      && |r.1| == 4 && AllDigits(r.1) && ParseDecimal(r.1) == drawn
      && forall k :: 0 <= k < |db.otps| ==> db.otps[k].id < row.id
  {
    var code := CodeText(drawn);
    (db.(otps := db.otps + [OtpRow(NextOtpId(db.otps), phone, code, now + OtpLifetime)]), code)
  }

  /** The response message for a login, by whether the account was just
      created (the corrected rule of VerifyCorrected). */
  function LoginMessage(created: bool): (m: Message)
    ensures m == AccountCreated <==> created
  {
    if created then AccountCreated else LoginSuccess
  }

  /** The user row after a login: the existing row with its session, ip and
      device overwritten, or a new row with the next user id. */
  function UpsertedUser(db: Db, req: VerifyRequest, token: string): (u: UserRow)
    ensures u.sessionId == token && u.ip == req.ip && u.deviceName == req.deviceName
    ensures req.phone in db.users ==> u.id == db.users[req.phone].id && u.phone == db.users[req.phone].phone
    ensures req.phone !in db.users ==> u.phone == req.phone
    ensures WellFormed(db) ==> u.phone == req.phone
    ensures WellFormed(db) && req.phone !in db.users ==> forall p :: p in db.users ==> db.users[p].id < u.id
  {
    if req.phone in db.users then
      db.users[req.phone].(sessionId := token, ip := req.ip, deviceName := req.deviceName)
    else
      UserRow(db.nextUserId, req.phone, token, req.ip, req.deviceName)
  }

  /** `verify_otp`: select the newest row matching phone and code; reject
      without changing anything when there is none or it has expired
      (`expiration < now`); otherwise delete that row, upsert the user and
      return the session token `token`, the user's id and the message the
      written expression gives, which is the login message every time. */
  function Verify(db: Db, req: VerifyRequest, now: int, token: string): (r: (Db, VerifyResult))
    ensures r.1.Rejected? ==> r.0 == db
    ensures r.1.LoggedIn? ==>
      && r.1.message == LoginSuccess && r.1.sessionId == token
      && req.phone in r.0.users && r.1.userId == r.0.users[req.phone].id
  {
    match NewestMatch(db.otps, req.phone, req.code)
    case None => (db, Rejected(WrongCode))
    case Some(i) =>
      if db.otps[i].expiration < now then (db, Rejected(CodeExpired))
      else
        var created := req.phone !in db.users;
        var user := UpsertedUser(db, req, token);
        var db' := Db(RemoveAt(db.otps, i), db.users[req.phone := user],
                      if created then db.nextUserId + 1 else db.nextUserId);
        (db', LoggedIn(ResponseMessageAsWritten(Some(user)), token, user.id))
  }

  /** `verify_otp` with the message rule corrected: the same tables and
      response, except that a login that created the account reports it. */
  function VerifyCorrected(db: Db, req: VerifyRequest, now: int, token: string): (Db, VerifyResult)
  {
    var (db', r) := Verify(db, req, now, token);
    if r.LoggedIn? then (db', r.(message := LoginMessage(req.phone !in db.users))) else (db', r)
  }

  // ---------------------------------------------------------------------
  // Properties of send_otp

  lemma IssuePreservesWellFormed(db: Db, phone: string, drawn: int, now: int)
    requires WellFormed(db)
    requires MinCode <= drawn <= MaxCode
    ensures WellFormed(Issue(db, phone, drawn, now).0)
  {
  }

  // ---------------------------------------------------------------------
  // Properties of verify_otp

  /** The request is rejected as a wrong code exactly when no row matches
      both phone and code, and as expired exactly when the newest matching
      row's expiration lies before `now`; a rejection leaves both tables as
      they were (no commit). Nothing counts wrong attempts. */
  lemma VerifyRejections(db: Db, req: VerifyRequest, now: int, token: string)
    requires IdsAscending(db.otps)
    ensures var (db', r) := Verify(db, req, now, token);
      && (r == Rejected(WrongCode) <==> forall k :: 0 <= k < |db.otps| ==> !Matches(db.otps[k], req.phone, req.code))
      && (r == Rejected(CodeExpired) <==>
            exists i :: 0 <= i < |db.otps| && Matches(db.otps[i], req.phone, req.code) && db.otps[i].expiration < now
                        && forall k :: 0 <= k < |db.otps| && Matches(db.otps[k], req.phone, req.code) ==> db.otps[k].id <= db.otps[i].id)
      && (r.Rejected? ==> db' == db)
  {
    var m := NewestMatch(db.otps, req.phone, req.code);
    var r := Verify(db, req, now, token).1;
    if r == Rejected(CodeExpired) {
      assert Matches(db.otps[m.value], req.phone, req.code);
    }
    if exists i :: 0 <= i < |db.otps| && Matches(db.otps[i], req.phone, req.code) && db.otps[i].expiration < now
                   && forall k :: 0 <= k < |db.otps| && Matches(db.otps[k], req.phone, req.code) ==> db.otps[k].id <= db.otps[i].id {
      var i :| 0 <= i < |db.otps| && Matches(db.otps[i], req.phone, req.code) && db.otps[i].expiration < now
               && forall k :: 0 <= k < |db.otps| && Matches(db.otps[k], req.phone, req.code) ==> db.otps[k].id <= db.otps[i].id;
      NewestMatchUnique(db.otps, req.phone, req.code, i);
    }
  }

  /** Expiry is strict: the newest matching row logs in when its expiration
      is `now` or later, and is rejected only when it is before `now`. */
  lemma VerifyExpiryIsStrict(db: Db, req: VerifyRequest, now: int, token: string, i: nat)
    requires IdsAscending(db.otps)
    requires i < |db.otps| && Matches(db.otps[i], req.phone, req.code)
    requires forall k :: 0 <= k < |db.otps| && Matches(db.otps[k], req.phone, req.code) ==> db.otps[k].id <= db.otps[i].id
    ensures Verify(db, req, now, token).1.LoggedIn? <==> now <= db.otps[i].expiration
  {
    NewestMatchUnique(db.otps, req.phone, req.code, i);
  }

  /** On success exactly the selected row - the newest matching one - is
      deleted: every other row stays, in order, and the selected row is
      gone. */
  lemma VerifyConsumesNewestMatch(db: Db, req: VerifyRequest, now: int, token: string)
    requires WellFormed(db)
    ensures var (db', r) := Verify(db, req, now, token);
      r.LoggedIn? ==>
        exists i :: 0 <= i < |db.otps|
          && Matches(db.otps[i], req.phone, req.code)
          && now <= db.otps[i].expiration
          && (forall k :: 0 <= k < |db.otps| && Matches(db.otps[k], req.phone, req.code) ==> db.otps[k].id <= db.otps[i].id)
          && db'.otps == db.otps[..i] + db.otps[i + 1..]
          && db.otps[i] !in db'.otps
          && |db'.otps| == |db.otps| - 1
  {
    var (db', r) := Verify(db, req, now, token);
    if r.LoggedIn? {
      var i := NewestMatch(db.otps, req.phone, req.code).value;
      assert db'.otps == db.otps[..i] + db.otps[i + 1..];
      forall k | 0 <= k < |db'.otps| ensures db'.otps[k].id != db.otps[i].id {
        var k' := if k < i then k else k + 1;
        assert db'.otps[k] == db.otps[k'] && k' != i;
      }
    }
  }

  /** After a successful verify, submitting the same phone and code again
      finds a row exactly when another row besides the consumed one matched:
      a code verifies at most once per stored row. */
  lemma ResubmitFindsOnlyOtherRows(db: Db, req: VerifyRequest, now: int, token: string)
    requires WellFormed(db)
    requires Verify(db, req, now, token).1.LoggedIn?
    ensures var i := NewestMatch(db.otps, req.phone, req.code).value;
      NewestMatch(Verify(db, req, now, token).0.otps, req.phone, req.code).Some? <==>
        exists k :: 0 <= k < |db.otps| && k != i && Matches(db.otps[k], req.phone, req.code)
  {
    var i := NewestMatch(db.otps, req.phone, req.code).value;
    var rest := Verify(db, req, now, token).0.otps;
    assert rest == db.otps[..i] + db.otps[i + 1..];
    if exists k :: 0 <= k < |db.otps| && k != i && Matches(db.otps[k], req.phone, req.code) {
      var k :| 0 <= k < |db.otps| && k != i && Matches(db.otps[k], req.phone, req.code);
      var k' := if k < i then k else k - 1;
      assert rest[k'] == db.otps[k];
    }
    var m := NewestMatch(rest, req.phone, req.code);
    if m.Some? {
      var k := Unskip(m.value, i);
      assert rest[m.value] == db.otps[k] && k != i;
    }
  }

  /** When the consumed row was the only one matching, resubmitting the
      same code is rejected as a wrong code. */
  lemma CodeVerifiesOnce(db: Db, req: VerifyRequest, now: int, token: string, later: int, token2: string)
    requires WellFormed(db)
    requires Verify(db, req, now, token).1.LoggedIn?
    requires forall k, j :: 0 <= k < |db.otps| && 0 <= j < |db.otps| && Matches(db.otps[k], req.phone, req.code) && Matches(db.otps[j], req.phone, req.code) ==> k == j
    ensures Verify(Verify(db, req, now, token).0, req, later, token2).1 == Rejected(WrongCode)
  {
    ResubmitFindsOnlyOtherRows(db, req, now, token);
    var i := NewestMatch(db.otps, req.phone, req.code).value;
    assert Matches(db.otps[i], req.phone, req.code);
  }

  /** After a successful verify exactly one user has the phone, and it holds
      the new session token, ip and device name; an existing user keeps its
      id, a new user gets an id no other user has; every other user row is
      unchanged. The response carries the token and that id. */
  lemma VerifyUpsertsUser(db: Db, req: VerifyRequest, now: int, token: string)
    requires WellFormed(db)
    ensures var (db', r) := Verify(db, req, now, token);
      r.LoggedIn? ==>
        && req.phone in db'.users
        && var u := db'.users[req.phone];
        && u.phone == req.phone && u.sessionId == token && u.ip == req.ip && u.deviceName == req.deviceName
        && r.sessionId == token && r.userId == u.id
        && (req.phone in db.users ==> u.id == db.users[req.phone].id)
        && (req.phone !in db.users ==> forall p :: p in db.users ==> db.users[p].id != u.id)
        && db'.users.Keys == db.users.Keys + {req.phone}
        && (forall p :: p in db.users && p != req.phone ==> db'.users[p] == db.users[p])
  {
  }

  /** Both handlers keep the table invariants. */
  lemma VerifyPreservesWellFormed(db: Db, req: VerifyRequest, now: int, token: string)
    requires WellFormed(db)
    ensures WellFormed(Verify(db, req, now, token).0)
  {
    var (db', r) := Verify(db, req, now, token);
    if r.LoggedIn? {
      var i := NewestMatch(db.otps, req.phone, req.code).value;
      RemoveAtKeepsOrder(db.otps, i);
      UpsertKeepsUsersWellFormed(db, req, token);
    }
  }

  lemma UpsertKeepsUsersWellFormed(db: Db, req: VerifyRequest, token: string)
    requires UsersWellFormed(db.users, db.nextUserId)
    ensures UsersWellFormed(db.users[req.phone := UpsertedUser(db, req, token)],
                            if req.phone in db.users then db.nextUserId else db.nextUserId + 1)
  {
    if req.phone !in db.users {
      assert |db.users[req.phone := UpsertedUser(db, req, token)]| == |db.users| + 1;
    } else {
      assert db.users[req.phone := UpsertedUser(db, req, token)].Keys == db.users.Keys;
    }
  }

  /** Issue then verify with the issued code before it expires: the login
      succeeds and consumes exactly the issued row, since it has the largest
      id of all rows matching. */
  lemma IssueThenVerifyLogsIn(db: Db, phone: string, drawn: int, issuedAt: int,
                              ip: string, deviceName: string, now: int, token: string)
    requires WellFormed(db)
    requires MinCode <= drawn <= MaxCode
    requires now <= issuedAt + OtpLifetime
    ensures var (db1, code) := Issue(db, phone, drawn, issuedAt);
      var (db2, r) := Verify(db1, VerifyRequest(phone, code, ip, deviceName), now, token);
      && r.LoggedIn? && r.sessionId == token
      && db2.otps == db.otps
      && phone in db2.users && db2.users[phone].sessionId == token
  {
    var (db1, code) := Issue(db, phone, drawn, issuedAt);
    var n := |db.otps|;
    IssuePreservesWellFormed(db, phone, drawn, issuedAt);
    NewestMatchUnique(db1.otps, phone, code, n);
    assert db1.otps[..n] + db1.otps[n + 1..] == db.otps;
  }

  // ---------------------------------------------------------------------
  // The response message

  /** The message expression of the verify response as the handler writes
      it: it tests whether the variable `user` holds a row, not whether the
      row was just created. */
  function ResponseMessageAsWritten(user: Option<UserRow>): Message {
    if user.Some? then LoginSuccess else AccountCreated
  }

  /** The corrected rule reports creation exactly for the logins that add a
      user row, and otherwise agrees with the handler as written. */
  lemma VerifyCorrectedReportsCreation(db: Db, req: VerifyRequest, now: int, token: string)
    requires WellFormed(db)
    ensures var (db', r) := VerifyCorrected(db, req, now, token);
      && db' == Verify(db, req, now, token).0
      && (r.Rejected? <==> Verify(db, req, now, token).1.Rejected?)
      && (r.Rejected? ==> r == Verify(db, req, now, token).1)
      && (r.LoggedIn? ==>
            && r.sessionId == token && r.userId == db'.users[req.phone].id
            && (r.message == AccountCreated <==> req.phone !in db.users)
            && (r.message == AccountCreated <==> |db'.users| == |db.users| + 1))
  {
    var (db', r) := VerifyCorrected(db, req, now, token);
    if r.LoggedIn? {
      if req.phone in db.users {
        assert db'.users.Keys == db.users.Keys;
      }
    }
  }

  /** A login that creates the account: the handler as written answers with
      the login message although the user row did not exist before and
      exists now; the corrected rule answers account-created. */
  lemma CreatedAccountReportedAsLogin(db: Db, req: VerifyRequest, now: int, token: string)
    requires WellFormed(db)
    requires req.phone !in db.users
    requires Verify(db, req, now, token).1.LoggedIn?
    ensures req.phone in Verify(db, req, now, token).0.users
    ensures Verify(db, req, now, token).1.message == LoginSuccess
    ensures VerifyCorrected(db, req, now, token).1.message == AccountCreated
  {
    VerifyCorrectedReportsCreation(db, req, now, token);
  }

  /** A concrete first login on empty tables: code 1234 issued at time 0
      and submitted at time 0 creates user 1, yet the handler as written
      answers with the login message. */
  lemma FirstLoginExample()
    ensures var (db1, code) := Issue(EmptyDb, "+9647700000000", 1234, 0);
      var req := VerifyRequest("+9647700000000", code, "10.0.0.1", "phone");
      && Verify(db1, req, 0, "tok").1 == LoggedIn(LoginSuccess, "tok", 1)
      && "+9647700000000" !in db1.users && "+9647700000000" in Verify(db1, req, 0, "tok").0.users
      && VerifyCorrected(db1, req, 0, "tok").1 == LoggedIn(AccountCreated, "tok", 1)
  {
    var (db1, code) := Issue(EmptyDb, "+9647700000000", 1234, 0);
    assert db1.otps == [OtpRow(1, "+9647700000000", code, 300)];
    assert NewestMatch(db1.otps, "+9647700000000", code) == Some(0);
  }
}
