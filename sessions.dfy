/** The session records of sessions_db.go: creating one, reading one back
    by its UUID with the expiry check done at read time, and listing a
    user's sessions.  Encryption, decryption, base64, UUID generation, the
    user lookup and the clock are parameters. */
module Sessions {
  import opened GoLang
  import opened Codec
  import opened Catalog
  import opened Rows
  import opened Store

  /** `TblName.Sessions`. */
  const SessionsTbl := 3

  /** The five fields createSessionRecord stores (their order is irrelevant:
      the document is a map). */
  function SessionDoc(token: string, session: string, endtime: Int32, when: Int32, data: string): Pairs<Value>
  {
    [("token", Str(token)), ("session", Str(session)), ("endtime", Int(endtime)),
     ("when", Int(when)), ("data", Str(data))]
  }

  /** The end time a session gets: none (0) for an empty expiration, else
      whatever the expiration parses to. */
  function EndTime(expiration: string, parseExpiration: string -> Result<Int32>): Result<Int32>
  {
    if |expiration| > 0 then parseExpiration(expiration) else Ok(0)
  }

  /** What createSessionRecord does to the store and what it returns. */
  function CreateSession(ts: Tables, userTOKEN: string, expiration: string, data: seq<Byte>,
                         parseExpiration: string -> Result<Int32>,
                         userEncrypt: (string, seq<Byte>) -> Result<string>,
                         generateUUID: Result<string>, now: int, insertFault: Option<string>)
    : (res: (Tables, Result<string>))
    ensures res.1.Err? ==> res.0 == ts
    ensures res.1.Ok? ==>
      && generateUUID == Ok(res.1.value)
      && "sessions" in ts && "sessions" in res.0
      && |res.0["sessions"]| == |ts["sessions"]| + 1
      && res.0["sessions"][..|ts["sessions"]|] == ts["sessions"]
      && res.0.Keys == ts.Keys
      && forall k :: k in ts && k != "sessions" ==> res.0[k] == ts[k]
  {
    var endtime := EndTime(expiration, parseExpiration);
    if endtime.Err? then (ts, Err(endtime.err))
    else
      var enc := userEncrypt(userTOKEN, data);
      if enc.Err? then (ts, Err(enc.err))
      else if generateUUID.Err? then (ts, Err(generateUUID.err))
      else
        var doc := SessionDoc(userTOKEN, generateUUID.value, endtime.value, Narrow32(now), enc.value);
        var (after, r) := InsertEffect(ts, GetTable(SessionsTbl), doc, insertFault);
        if r.Err? then (ts, Err(r.err)) else (after, Ok(generateUUID.value))
  }

  method CreateSessionRecord(store: Store, userTOKEN: string, expiration: string, data: seq<Byte>,
                             parseExpiration: string -> Result<Int32>,
                             userEncrypt: (string, seq<Byte>) -> Result<string>,
                             generateUUID: Result<string>, now: int, insertFault: Option<string>)
    returns (sessionUUID: string, err: Option<string>)
    modifies store
    ensures var (ts, r) := CreateSession(old(store.tables), userTOKEN, expiration, data, parseExpiration,
                                         userEncrypt, generateUUID, now, insertFault);
      && store.tables == ts
      && (r.Ok? ==> sessionUUID == r.value && err == None)
      && (r.Err? ==> sessionUUID == "" && err == Some(r.err))
  {
    var endtime: Int32 := 0;
    if |expiration| > 0 {
      var parsed := parseExpiration(expiration);
      if parsed.Err? {
        return "", Some(parsed.err);
      }
      endtime := parsed.value;
    }
    var encodedStr := userEncrypt(userTOKEN, data);
    if encodedStr.Err? {
      return "", Some(encodedStr.err);
    }
    if generateUUID.Err? {
      return "", Some(generateUUID.err);
    }
    var sessionID := generateUUID.value;
    var now32 := Narrow32(now);
    var bdoc := SessionDoc(userTOKEN, sessionID, endtime, now32, encodedStr.value);
    var r := store.CreateRecord(SessionsTbl, PrimitiveM(bdoc), insertFault);
    if r.Err? {
      return "", Some(r.err);
    }
    return sessionID, None;
  }

  /** A created session is stored as one more row of the sessions table,
      holding the caller's token, the new UUID, the parsed end time (0 for
      no expiration), the creation time and the encryption of the data; any
      failure stores nothing. */
  lemma CreateSessionStores(ts: Tables, userTOKEN: string, expiration: string, data: seq<Byte>,
                            parseExpiration: string -> Result<Int32>,
                            userEncrypt: (string, seq<Byte>) -> Result<string>,
                            generateUUID: Result<string>, now: int, insertFault: Option<string>)
    ensures var (after, r) := CreateSession(ts, userTOKEN, expiration, data, parseExpiration,
                                            userEncrypt, generateUUID, now, insertFault);
      && (r.Err? ==> after == ts)
      && (r.Ok? ==>
            && generateUUID == Ok(r.value)
            && "sessions" in ts
            && after == ts["sessions" := ts["sessions"] + [RowOf(SessionDoc(userTOKEN, r.value,
                 EndTime(expiration, parseExpiration).value, Narrow32(now), userEncrypt(userTOKEN, data).value))]])
    ensures |expiration| > 0 && parseExpiration(expiration).Err? ==>
      CreateSession(ts, userTOKEN, expiration, data, parseExpiration, userEncrypt, generateUUID, now, insertFault)
        == (ts, Err(parseExpiration(expiration).err))
    ensures expiration == "" ==> EndTime(expiration, parseExpiration) == Ok(0)
    ensures EndTime(expiration, parseExpiration).Ok? && userEncrypt(userTOKEN, data).Err? ==>
      CreateSession(ts, userTOKEN, expiration, data, parseExpiration, userEncrypt, generateUUID, now, insertFault)
        == (ts, Err(userEncrypt(userTOKEN, data).err))
    ensures EndTime(expiration, parseExpiration).Ok? && userEncrypt(userTOKEN, data).Ok? && generateUUID.Err? ==>
      CreateSession(ts, userTOKEN, expiration, data, parseExpiration, userEncrypt, generateUUID, now, insertFault)
        == (ts, Err(generateUUID.err))
    ensures EndTime(expiration, parseExpiration).Ok? && userEncrypt(userTOKEN, data).Ok? && generateUUID.Ok?
            && insertFault.Some? ==>
      CreateSession(ts, userTOKEN, expiration, data, parseExpiration, userEncrypt, generateUUID, now, insertFault)
        == (ts, Err(insertFault.value))
  {
    var doc := SessionDoc(userTOKEN, "", 0, 0, "");
    assert NonEmptyKeys(doc);
  }

  /** The stored document has exactly the five session fields, with the
      values it was built from. */
  lemma SessionRowFields(token: string, session: string, endtime: Int32, when: Int32, data: string)
    ensures var row := RowOf(SessionDoc(token, session, endtime, when, data));
      && row.Keys == {"token", "session", "endtime", "when", "data"}
      && row["token"] == Str(token) && row["session"] == Str(session)
      && row["endtime"] == Int(endtime) && row["when"] == Int(when) && row["data"] == Str(data)
  {
    var doc := SessionDoc(token, session, endtime, when, data);
    assert doc[..1][..0] == [] && doc[..2][..1] == doc[..1] && doc[..3][..2] == doc[..2];
    assert doc[..4][..3] == doc[..3] && doc[..|doc| - 1] == doc[..4];
    assert RowOf(doc[..1]) == map["token" := Str(token)];
    assert RowOf(doc[..2]) == map["token" := Str(token), "session" := Str(session)];
    assert RowOf(doc[..3]) == map["token" := Str(token), "session" := Str(session), "endtime" := Int(endtime)];
    assert RowOf(doc[..4]) == map["token" := Str(token), "session" := Str(session), "endtime" := Int(endtime),
                                  "when" := Int(when)];
  }

  // ---------------------------------------------------------------------
  // getUserSession

  /** A session's `when`, the decryption of its data, and its token. */
  type SessionData = (Int32, seq<Byte>, string)

  /** The checks after the record is found and its end time read: the field
      type assertions, then the decryption. */
  function ReadSession(record: Row, userDecrypt: (string, string) -> Result<seq<Byte>>): Outcome<SessionData>
  {
    if !("when" in record && record["when"].Int?) then Panicked
    else if !("token" in record && record["token"].Str?) then Panicked
    else if !("data" in record && record["data"].Str?) then Panicked
    else
      var userTOKEN := record["token"].s;
      match userDecrypt(userTOKEN, record["data"].s)
      case Err(e) => Done(Err(e))
      case Ok(decrypted) => Done(Ok((record["when"].n, decrypted, userTOKEN)))
  }

  /** A read that succeeds serves the stored session of that UUID: its
      creation time and its token, from a row with an integer end time. */
  predicate Served(ts: Tables, sessionUUID: string, d: SessionData)
  {
    var look := GetRecord(ts, SessionsTbl, "session", sessionUUID);
    && look.Ok? && look.value.Some?
    && var record := look.value.value;
    && record["session"] == Str(sessionUUID)
    && "endtime" in record && record["endtime"].Int?
    && "when" in record && record["when"] == Int(d.0)
    && "token" in record && record["token"] == Str(d.2)
  }

  /** The served data is the decryption of the stored row's data with its
      token. */
  predicate Decrypts(ts: Tables, sessionUUID: string, userDecrypt: (string, string) -> Result<seq<Byte>>,
                     data: seq<Byte>)
  {
    var look := GetRecord(ts, SessionsTbl, "session", sessionUUID);
    && look.Ok? && look.value.Some?
    && var record := look.value.value;
    && TypedSession(record)
    && userDecrypt(record["token"].s, record["data"].s) == Ok(data)
  }

  /** A session row whose `when`, `token` and `data` have the types the
      reads assert. */
  predicate TypedSession(record: Row)
  {
    && "when" in record && record["when"].Int?
    && "token" in record && record["token"].Str?
    && "data" in record && record["data"].Str?
  }

  /** getUserSession as written: a session is expired whenever the clock is
      past its end time, an end time of 0 included. */
  function GetUserSession(ts: Tables, sessionUUID: string, now: int,
                          userDecrypt: (string, string) -> Result<seq<Byte>>): (o: Outcome<SessionData>)
    ensures o.Done? && o.result.Ok? ==> Served(ts, sessionUUID, o.result.value)
    ensures o.Done? && o.result.Ok? ==>
      GetRecord(ts, SessionsTbl, "session", sessionUUID).value.value["endtime"].n >= Narrow32(now)
    ensures o.Done? && o.result.Ok? ==> Decrypts(ts, sessionUUID, userDecrypt, o.result.value.1)
  {
    match GetRecord(ts, SessionsTbl, "session", sessionUUID)
    case Err(e) => Done(Err(e))
    case Ok(None) => Done(Err("not found"))
    case Ok(Some(record)) =>
      if !("endtime" in record && record["endtime"].Int?) then Panicked
      else if Narrow32(now) > record["endtime"].n then Done(Err("session expired"))
      else ReadSession(record, userDecrypt)
  }

  /** Lapse as the expiry sweep sees it: an end time of 0 means none. */
  predicate Lapsed(endtime: Int32, now: Int32)
  {
    endtime > 0 && now > endtime
  }

  /** getUserSession with the end time 0 read as "no expiry", as the rest of
      the system (DeleteExpired, GetExpiring) reads it. */
  function GetUserSessionIntended(ts: Tables, sessionUUID: string, now: int,
                                  userDecrypt: (string, string) -> Result<seq<Byte>>): (o: Outcome<SessionData>)
    ensures o.Done? && o.result.Ok? ==> Served(ts, sessionUUID, o.result.value)
    ensures o.Done? && o.result.Ok? ==>
      !Lapsed(GetRecord(ts, SessionsTbl, "session", sessionUUID).value.value["endtime"].n, Narrow32(now))
    ensures o.Done? && o.result.Ok? ==> Decrypts(ts, sessionUUID, userDecrypt, o.result.value.1)
  {
    match GetRecord(ts, SessionsTbl, "session", sessionUUID)
    case Err(e) => Done(Err(e))
    case Ok(None) => Done(Err("not found"))
    case Ok(Some(record)) =>
      if !("endtime" in record && record["endtime"].Int?) then Panicked
      else if Lapsed(record["endtime"].n, Narrow32(now)) then Done(Err("session expired"))
      else ReadSession(record, userDecrypt)
  }

  /** The error paths of getUserSession before the record is read: a lookup
      error passes through and a missing session is "not found"; both
      readings agree on every positive end time. */
  lemma GetUserSessionErrors(ts: Tables, sessionUUID: string, now: int,
                             userDecrypt: (string, string) -> Result<seq<Byte>>)
    ensures var look := GetRecord(ts, SessionsTbl, "session", sessionUUID);
      && (look.Err? ==> GetUserSession(ts, sessionUUID, now, userDecrypt) == Done(Err(look.err)))
      && (look == Ok(None) ==> GetUserSession(ts, sessionUUID, now, userDecrypt) == Done(Err("not found")))
      && (look.Ok? && look.value.Some? && "endtime" in look.value.value && look.value.value["endtime"].Int?
          && look.value.value["endtime"].n > 0 ==>
            GetUserSession(ts, sessionUUID, now, userDecrypt) == GetUserSessionIntended(ts, sessionUUID, now, userDecrypt))
  {
  }

  /** What getUserSession returns for a stored session row: a panic when its
      end time is not an integer; "session expired" once the clock is past
      the end time (for the corrected reading, once the session has lapsed),
      whatever the other fields; otherwise a panic on a mistyped field, the
      decryption error, or the creation time, the decrypted data and the
      token. */
  lemma GetUserSessionReads(ts: Tables, sessionUUID: string, now: int,
                            userDecrypt: (string, string) -> Result<seq<Byte>>)
    requires GetRecord(ts, SessionsTbl, "session", sessionUUID).Ok?
    requires GetRecord(ts, SessionsTbl, "session", sessionUUID).value.Some?
    ensures var rec := GetRecord(ts, SessionsTbl, "session", sessionUUID).value.value;
      && (!("endtime" in rec && rec["endtime"].Int?) ==>
            GetUserSession(ts, sessionUUID, now, userDecrypt) == Panicked
            && GetUserSessionIntended(ts, sessionUUID, now, userDecrypt) == Panicked)
      && ("endtime" in rec && rec["endtime"].Int? && Narrow32(now) > rec["endtime"].n ==>
            GetUserSession(ts, sessionUUID, now, userDecrypt) == Done(Err("session expired")))
      && ("endtime" in rec && rec["endtime"].Int? && Lapsed(rec["endtime"].n, Narrow32(now)) ==>
            GetUserSessionIntended(ts, sessionUUID, now, userDecrypt) == Done(Err("session expired")))
    ensures var rec := GetRecord(ts, SessionsTbl, "session", sessionUUID).value.value;
      "endtime" in rec && rec["endtime"].Int? && Narrow32(now) <= rec["endtime"].n ==>
        && (!TypedSession(rec) ==> GetUserSession(ts, sessionUUID, now, userDecrypt) == Panicked)
        && (TypedSession(rec) && userDecrypt(rec["token"].s, rec["data"].s).Err? ==>
              GetUserSession(ts, sessionUUID, now, userDecrypt)
                == Done(Err(userDecrypt(rec["token"].s, rec["data"].s).err)))
        && (TypedSession(rec) && userDecrypt(rec["token"].s, rec["data"].s).Ok? ==>
              GetUserSession(ts, sessionUUID, now, userDecrypt)
                == Done(Ok((rec["when"].n, userDecrypt(rec["token"].s, rec["data"].s).value, rec["token"].s))))
    ensures var rec := GetRecord(ts, SessionsTbl, "session", sessionUUID).value.value;
      "endtime" in rec && rec["endtime"].Int? && !Lapsed(rec["endtime"].n, Narrow32(now)) ==>
        && (!TypedSession(rec) ==> GetUserSessionIntended(ts, sessionUUID, now, userDecrypt) == Panicked)
        && (TypedSession(rec) && userDecrypt(rec["token"].s, rec["data"].s).Err? ==>
              GetUserSessionIntended(ts, sessionUUID, now, userDecrypt)
                == Done(Err(userDecrypt(rec["token"].s, rec["data"].s).err)))
        && (TypedSession(rec) && userDecrypt(rec["token"].s, rec["data"].s).Ok? ==>
              GetUserSessionIntended(ts, sessionUUID, now, userDecrypt)
                == Done(Ok((rec["when"].n, userDecrypt(rec["token"].s, rec["data"].s).value, rec["token"].s))))
  {
  }

  /** A session created without an expiration can never be read back at a
      positive clock: endtime 0 is always in the past. */
  lemma EndlessSessionReadsExpired(ts: Tables, userTOKEN: string, data: seq<Byte>,
                                   parseExpiration: string -> Result<Int32>,
                                   userEncrypt: (string, seq<Byte>) -> Result<string>,
                                   sessionUUID: string, now: int, later: int,
                                   userDecrypt: (string, string) -> Result<seq<Byte>>)
    requires "sessions" in ts && userEncrypt(userTOKEN, data).Ok?
    requires forall r :: r in ts["sessions"] ==> !Matches(KeyEquals("session", sessionUUID), r)
    requires 0 < later < 0x8000_0000
    ensures var (after, r) := CreateSession(ts, userTOKEN, "", data, parseExpiration, userEncrypt,
                                            Ok(sessionUUID), now, None);
      r == Ok(sessionUUID) && GetUserSession(after, sessionUUID, later, userDecrypt) == Done(Err("session expired"))
  {
    CreatedSessionIsFound(ts, userTOKEN, "", data, parseExpiration, userEncrypt, sessionUUID, now);
    SessionRowFields(userTOKEN, sessionUUID, 0, Narrow32(now), userEncrypt(userTOKEN, data).value);
  }

  /** After a successful create with a fresh UUID, looking that UUID up finds
      the new row. */
  lemma CreatedSessionIsFound(ts: Tables, userTOKEN: string, expiration: string, data: seq<Byte>,
                              parseExpiration: string -> Result<Int32>,
                              userEncrypt: (string, seq<Byte>) -> Result<string>,
                              sessionUUID: string, now: int)
    requires "sessions" in ts && userEncrypt(userTOKEN, data).Ok? && EndTime(expiration, parseExpiration).Ok?
    requires forall r :: r in ts["sessions"] ==> !Matches(KeyEquals("session", sessionUUID), r)
    ensures var (after, r) := CreateSession(ts, userTOKEN, expiration, data, parseExpiration, userEncrypt,
                                            Ok(sessionUUID), now, None);
      && r == Ok(sessionUUID)
      && GetRecord(after, SessionsTbl, "session", sessionUUID) == Ok(Some(RowOf(SessionDoc(userTOKEN, sessionUUID,
           EndTime(expiration, parseExpiration).value, Narrow32(now), userEncrypt(userTOKEN, data).value))))
  {
    var row := RowOf(SessionDoc(userTOKEN, sessionUUID, EndTime(expiration, parseExpiration).value,
                                Narrow32(now), userEncrypt(userTOKEN, data).value));
    SessionRowFields(userTOKEN, sessionUUID, EndTime(expiration, parseExpiration).value,
                     Narrow32(now), userEncrypt(userTOKEN, data).value);
    var c := KeyEquals("session", sessionUUID);
    var rows := ts["sessions"] + [row];
    assert rows[..|rows| - 1] == ts["sessions"];
    NoneSelected(ts["sessions"], c);
    assert SessionDoc(userTOKEN, "", 0, 0, "")[0].0 != "";
  }

  /** Create then read: reading a freshly created session back before its end
      time (or at any time, without one) gives its creation time, the data
      that was encrypted and the token. */
  lemma CreateThenRead(ts: Tables, userTOKEN: string, expiration: string, data: seq<Byte>,
                       parseExpiration: string -> Result<Int32>,
                       userEncrypt: (string, seq<Byte>) -> Result<string>,
                       userDecrypt: (string, string) -> Result<seq<Byte>>,
                       sessionUUID: string, now: int, later: int)
    requires "sessions" in ts && userEncrypt(userTOKEN, data).Ok? && EndTime(expiration, parseExpiration).Ok?
    requires userDecrypt(userTOKEN, userEncrypt(userTOKEN, data).value) == Ok(data)
    requires forall r :: r in ts["sessions"] ==> !Matches(KeyEquals("session", sessionUUID), r)
    requires !Lapsed(EndTime(expiration, parseExpiration).value, Narrow32(later))
    ensures var (after, r) := CreateSession(ts, userTOKEN, expiration, data, parseExpiration, userEncrypt,
                                            Ok(sessionUUID), now, None);
      GetUserSessionIntended(after, sessionUUID, later, userDecrypt) == Done(Ok((Narrow32(now), data, userTOKEN)))
  {
    CreatedSessionIsFound(ts, userTOKEN, expiration, data, parseExpiration, userEncrypt, sessionUUID, now);
    SessionRowFields(userTOKEN, sessionUUID, EndTime(expiration, parseExpiration).value,
                     Narrow32(now), userEncrypt(userTOKEN, data).value);
  }

  /** The read-time check lapses a session exactly when the sweep of
      DeleteExpired would remove its row. */
  lemma ReadAgreesWithSweep(row: Row, userTOKEN: string, now: Int32)
    requires "endtime" in row && row["endtime"].Int? && "token" in row && row["token"] == Str(userTOKEN)
    ensures Lapsed(row["endtime"].n, now) <==> Matches(ExpiredFor("token", userTOKEN, now), row)
  {
  }

  // ---------------------------------------------------------------------
  // getUserSessionByToken

  /** Go's `(value, error)` of base64 decoding and of decryption: the value
      is used even when the error is ignored. */
  type Decoding = (seq<Byte>, Option<string>)

  predicate IsEventRecord(record: Row)
  {
    "when" in record && record["when"].Int? && "data" in record && record["data"].Str?
  }

  /** `{"when":%d,"data":%s}` for one session record. */
  function EventText(record: Row, recordKey: seq<Byte>, base64Decode: string -> Decoding,
                     decrypt: (seq<Byte>, seq<Byte>) -> Decoding): string
    requires IsEventRecord(record)
  {
    var encData := base64Decode(record["data"].s).0;
    var decrypted := decrypt(recordKey, encData).0;
    "{\"when\":" + FormatInt(record["when"].n as int) + ",\"data\":" + BytesToString(decrypted) + "}"
  }

  /** The results of the listing loop: one event per record, in list order. */
  function Events(records: seq<Row>, recordKey: seq<Byte>, base64Decode: string -> Decoding,
                  decrypt: (seq<Byte>, seq<Byte>) -> Decoding): (events: seq<string>)
    requires forall i :: 0 <= i < |records| ==> IsEventRecord(records[i])
    ensures |events| == |records|
    decreases |records|
  {
    if |records| == 0 then []
    else Events(records[..|records| - 1], recordKey, base64Decode, decrypt)
         + [EventText(records[|records| - 1], recordKey, base64Decode, decrypt)]
  }

  /** Event i is the text of record i: one event per record, in list order. */
  lemma {:induction false} EventsAt(records: seq<Row>, recordKey: seq<Byte>, base64Decode: string -> Decoding,
                                    decrypt: (seq<Byte>, seq<Byte>) -> Decoding)
    requires forall i :: 0 <= i < |records| ==> IsEventRecord(records[i])
    ensures forall i :: 0 <= i < |records| ==>
      Events(records, recordKey, base64Decode, decrypt)[i] == EventText(records[i], recordKey, base64Decode, decrypt)
    decreases |records|
  {
    if |records| > 0 {
      EventsAt(records[..|records| - 1], recordKey, base64Decode, decrypt);
    }
  }

  lemma EventsStep(records: seq<Row>, i: nat, recordKey: seq<Byte>, base64Decode: string -> Decoding,
                   decrypt: (seq<Byte>, seq<Byte>) -> Decoding)
    requires i < |records| && forall j :: 0 <= j <= i ==> IsEventRecord(records[j])
    ensures Events(records[..i + 1], recordKey, base64Decode, decrypt)
      == Events(records[..i], recordKey, base64Decode, decrypt) + [EventText(records[i], recordKey, base64Decode, decrypt)]
  {
    assert records[..i + 1][..i] == records[..i];
  }

  /** getUserSessionByToken.  `user` is what lookupUserRecord returned, and
      `countTables` and `listTables` are the store as the count and the list
      queries see it, one after the other. */
  method GetUserSessionByToken(userTOKEN: string, user: Result<Option<Row>>,
                               countTables: Tables, listTables: Tables,
                               base64Decode: string -> Decoding,
                               decrypt: (seq<Byte>, seq<Byte>) -> Decoding)
    returns (o: Outcome<(seq<string>, int)>)
    ensures user.Err? ==> o == Done(Err(user.err))
    ensures user == Ok(None) ==> o == Done(Ok(([], 0)))
    ensures user.Ok? && user.value.Some? ==>
      var userBson := user.value.value;
      if !("key" in userBson && userBson["key"].Str?) then o.Panicked?
      else
        var recordKey, keyErr := base64Decode(userBson["key"].s).0, base64Decode(userBson["key"].s).1;
        var count := CountRecords(countTables, SessionsTbl, "token", userTOKEN);
        var list := GetList(listTables, SessionsTbl, "token", userTOKEN, 0, 0);
        if keyErr.Some? then o == Done(Err(keyErr.value))
        else if count.Err? then o == Done(Err(count.err))
        else if list.Err? then o == Done(Err(list.err))
        else if forall i :: 0 <= i < |list.value| ==> IsEventRecord(list.value[i]) then
          o == Done(Ok((Events(list.value, recordKey, base64Decode, decrypt), count.value)))
        else o.Panicked?
  {
    if user.Err? {
      return Done(Err(user.err));
    }
    if user.value.None? {
      return Done(Ok(([], 0)));
    }
    var userBson := user.value.value;
    if !("key" in userBson && userBson["key"].Str?) {
      return Panicked;
    }
    var decodedKey := base64Decode(userBson["key"].s);
    var recordKey, keyErr := decodedKey.0, decodedKey.1;
    if keyErr.Some? {
      return Done(Err(keyErr.value));
    }
    var count := CountRecords(countTables, SessionsTbl, "token", userTOKEN);
    if count.Err? {
      return Done(Err(count.err));
    }
    var listed := GetList(listTables, SessionsTbl, "token", userTOKEN, 0, 0);
    if listed.Err? {
      return Done(Err(listed.err));
    }
    var results := ListEvents(listed.value, recordKey, base64Decode, decrypt);
    if results.None? {
      return Panicked;
    }
    return Done(Ok((results.value, count.value)));
  }

  /** The loop of getUserSessionByToken: an event per record, or a panic at
      the first record whose `when` or `data` has the wrong type. */
  method ListEvents(records: seq<Row>, recordKey: seq<Byte>, base64Decode: string -> Decoding,
                    decrypt: (seq<Byte>, seq<Byte>) -> Decoding)
    returns (results: Option<seq<string>>)
    ensures (forall i :: 0 <= i < |records| ==> IsEventRecord(records[i])) ==>
      results == Some(Events(records, recordKey, base64Decode, decrypt))
    ensures !(forall i :: 0 <= i < |records| ==> IsEventRecord(records[i])) ==> results == None
  {
    var events: seq<string> := [];
    var i := 0;
    while i < |records|
      invariant 0 <= i <= |records|
      invariant forall j :: 0 <= j < i ==> IsEventRecord(records[j])
      invariant events == Events(records[..i], recordKey, base64Decode, decrypt)
    {
      var element := records[i];
      if !IsEventRecord(element) {
        return None;
      }
      var encData := base64Decode(element["data"].s).0;
      var decrypted := decrypt(recordKey, encData).0;
      var sEvent := "{\"when\":" + FormatInt(element["when"].n as int) + ",\"data\":"
        + BytesToString(decrypted) + "}";
      assert sEvent == EventText(element, recordKey, base64Decode, decrypt);
      EventsStep(records, i, recordKey, base64Decode, decrypt);
      events := events + [sEvent];
      i := i + 1;
    }
    assert records[..i] == records;
    return Some(events);
  }

  /** Counted and listed on the same store, the count is the number of
      events; a session created between the count and the list is listed
      but not counted. */
  lemma CountAgreesOnOneSnapshot(ts: Tables, userTOKEN: string)
    requires "sessions" in ts
    ensures CountRecords(ts, SessionsTbl, "token", userTOKEN).value
      == |GetList(ts, SessionsTbl, "token", userTOKEN, 0, 0).value|
    ensures var row := map["token" := Str(userTOKEN)];
      var later := ts["sessions" := ts["sessions"] + [row]];
      |GetList(later, SessionsTbl, "token", userTOKEN, 0, 0).value|
        == CountRecords(ts, SessionsTbl, "token", userTOKEN).value + 1
  {
    CountMatchesFullList(ts, SessionsTbl, "token", userTOKEN);
    var row := map["token" := Str(userTOKEN)];
    var rows := ts["sessions"] + [row];
    assert rows[..|rows| - 1] == ts["sessions"];
  }
}
