/** The keyring-backed login credential: a four-line record under the
    configured service name, whose second line is the encrypted password,
    and the get-or-prompt decision that reuses it until the expiry kept in
    the database passes.

    Encryption and decryption are AES-GCM with a random nonce; here they
    are oracles passed in as functions. The terminal reads become the two
    typed lines, and the clock becomes `now` (seconds) together with the
    date parser and formatter. */
module CredentialHandler {
  import opened Base
  import opened Strs
  import opened Model
  import K = Keyring
  import M = Middleware

  const InvalidFormat := "invalid credential format"
  const EncryptFailed := "failed to encrypt password: "
  const StoreFailed := "failed to store credentials: "
  const DecryptFailed := "failed to decrypt password: "

  /** What a freshly prompted credential answers to the two follow-up prompts. */
  const Push := "push"
  const YFlag := "y"

  /** Seconds in a day, and how long a prompted credential is trusted. */
  const Day := 86400
  const Lifetime := 180 * Day

  /** The zero `time.Time` (1 January of year 1), in seconds from the Unix
      epoch: what a failed date parse yields. */
  const ZeroTime := -62135596800

  /** An encryption or decryption oracle. */
  type Cipher = string -> Result<string>

  // ---------------------------------------------------------------------------
  // The record codec
  // ---------------------------------------------------------------------------

  /** The record stored in the keyring: the four fields on four lines. Cut
      at its first three newlines it gives the fields back, provided the
      first three have no newline; the last one may. */
  function Encode(cred: LoginCredential): (r: string)
    ensures '\n' !in cred.username && '\n' !in cred.password && '\n' !in cred.push ==>
      SplitN(r, "\n", 4) == [cred.username, cred.password, cred.push, cred.yFlag]
  {
    Join4(cred.username, cred.password, cred.push, cred.yFlag, "\n");
    assert '\n' !in cred.username && '\n' !in cred.password && '\n' !in cred.push ==>
      SplitN(cred.username + "\n" + cred.password + "\n" + cred.push + "\n" + cred.yFlag, "\n", 4)
        == [cred.username, cred.password, cred.push, cred.yFlag] by {
      if '\n' !in cred.username && '\n' !in cred.password && '\n' !in cred.push {
        SplitFour(cred.username, cred.password, cred.push, cred.yFlag);
      }
    }
    Join([cred.username, cred.password, cred.push, cred.yFlag], "\n")
  }

  /** The record's fields: the first three lines and everything after them. */
  function Decode(entry: string): (r: Result<LoginCredential>)
    ensures r.Ok? <==> Occurrences(entry, '\n') >= 3
    ensures r.Err? ==> r.msg == InvalidFormat
    ensures r.Ok? ==> Encode(r.value) == entry
  {
    var parts := SplitN(entry, "\n", 4);
    SplitNCount(entry, '\n', 4);
    if |parts| != 4 then Err(InvalidFormat)
    else
      SplitNJoin(entry, "\n", 4);
      assert parts == [parts[0], parts[1], parts[2], parts[3]];
      Ok(LoginCredential(parts[0], parts[1], parts[2], parts[3]))
  }

  /** Cutting four newline-separated fields at the first three newlines. */
  lemma {:induction false} SplitFour(a: string, b: string, c: string, d: string)
    requires '\n' !in a && '\n' !in b && '\n' !in c
    ensures SplitN(a + "\n" + b + "\n" + c + "\n" + d, "\n", 4) == [a, b, c, d]
  {
    var nl := "\n";
    var tail2 := c + nl + d;
    var tail1 := b + nl + tail2;
    calc {
      SplitN(a + nl + b + nl + c + nl + d, nl, 4);
      { Regroup(a, b, c, d, nl); }
      SplitN(a + nl + tail1, nl, 4);
      { SplitNField(a, '\n', tail1, 4); }
      [a] + SplitN(tail1, nl, 3);
      { SplitNField(b, '\n', tail2, 3); }
      [a] + ([b] + SplitN(tail2, nl, 2));
      { SplitNField(c, '\n', d, 2); }
      [a] + ([b] + ([c] + SplitN(d, nl, 1)));
      [a] + ([b] + ([c] + [d]));
      { Gather4(a, b, c, d); }
      [a, b, c, d];
    }
  }

  lemma Regroup(a: string, b: string, c: string, d: string, nl: string)
    ensures a + nl + b + nl + c + nl + d == a + nl + (b + nl + (c + nl + d))
  {
  }

  lemma Gather4<T>(a: T, b: T, c: T, d: T)
    ensures [a] + ([b] + ([c] + [d])) == [a, b, c, d]
  {
  }

  /** Decoding an encoded record gives back its fields, provided the first
      three have no newline; the last one may. */
  lemma DecodeEncode(cred: LoginCredential)
    requires '\n' !in cred.username && '\n' !in cred.password && '\n' !in cred.push
    ensures Decode(Encode(cred)) == Ok(cred)
  {
    var parts := SplitN(Encode(cred), "\n", 4);
    assert parts == [cred.username, cred.password, cred.push, cred.yFlag];
  }

  /** A newline in the username shifts every later field: the round trip
      needs the side condition. */
  lemma NewlineInUsernameShifts()
    ensures Decode(Encode(LoginCredential("a\nb", "c", "d", "e"))) == Ok(LoginCredential("a", "b", "c", "d\ne"))
  {
    Join4("a\nb", "c", "d", "e", "\n");
    assert "a\nb" + "\n" + "c" + "\n" + "d" + "\n" + "e" == "a" + "\n" + "b" + "\n" + "c" + "\n" + "d\ne";
    SplitFour("a", "b", "c", "d\ne");
  }

  // ---------------------------------------------------------------------------
  // Store, get and remove
  // ---------------------------------------------------------------------------

  /** StoreCredential: encrypt the password, then write the record under
      (service, service). */
  function StoreCredential(ring: K.Keyring, service: string, cred: LoginCredential, encrypt: Cipher): (r: Result<K.Keyring>)
    ensures encrypt(cred.password).Err? ==> r == Err(EncryptFailed + encrypt(cred.password).msg)
    ensures encrypt(cred.password).Ok? && ring.outage.Some? ==> r == Err(StoreFailed + ring.outage.value)
    ensures encrypt(cred.password).Ok? && ring.outage.None? ==> r.Ok?
    ensures r.Ok? ==> K.Get(r.value, service, service) == Ok(Encode(cred.(password := encrypt(cred.password).value)))
    ensures r.Ok? ==> forall s, u :: (s, u) != (service, service) ==> K.Get(r.value, s, u) == K.Get(ring, s, u)
  {
    match encrypt(cred.password)
    case Err(e) => Err(EncryptFailed + e)
    case Ok(sealed) =>
      match K.Set(ring, service, service, Encode(cred.(password := sealed)))
      case Err(e) => Err(StoreFailed + e)
      case Ok(ring') => Ok(ring')
  }

  /** GetCredential: read the record back; the password stays encrypted. */
  function GetCredential(ring: K.Keyring, service: string): (r: Result<LoginCredential>)
    ensures K.Get(ring, service, service).Err? ==> r == Err(K.Get(ring, service, service).msg)
    ensures K.Get(ring, service, service).Ok? ==> r == Decode(K.Get(ring, service, service).value)
  {
    var entry :- K.Get(ring, service, service);
    Decode(entry)
  }

  /** What GetCredential returns after a successful StoreCredential: the same
      fields, with the password as the oracle encrypted it. */
  lemma GetAfterStore(ring: K.Keyring, service: string, cred: LoginCredential, encrypt: Cipher)
    requires StoreCredential(ring, service, cred, encrypt).Ok?
    requires '\n' !in cred.username && '\n' !in cred.push
    requires '\n' !in encrypt(cred.password).value
    ensures GetCredential(StoreCredential(ring, service, cred, encrypt).value, service)
      == Ok(cred.(password := encrypt(cred.password).value))
  {
    DecodeEncode(cred.(password := encrypt(cred.password).value));
  }

  /** RemoveCredential: delete the record. Success is what the source warns
      about; a failure is passed on unchanged. */
  function RemoveCredential(ring: K.Keyring, service: string): (r: Result<K.Keyring>)
    ensures r.Ok? <==> K.Get(ring, service, service).Ok?
    ensures r.Err? ==> r.msg == K.Get(ring, service, service).msg
  {
    K.Delete(ring, service, service)
  }

  /** After a removal the record is gone. */
  lemma GetAfterRemove(ring: K.Keyring, service: string)
    requires RemoveCredential(ring, service).Ok?
    ensures GetCredential(RemoveCredential(ring, service).value, service) == Err(K.ErrNotFound)
  {
  }

  // ---------------------------------------------------------------------------
  // Get or prompt
  // ---------------------------------------------------------------------------

  /** A background write the prompt path starts and does not wait for. */
  datatype Write = KeyringWrite(entry: string) | ExpiryWrite(date: string)

  /** The credential returned, and the writes started. */
  datatype Answer = Answer(cred: Result<LoginCredential>, writes: seq<Write>)

  /** The clock: the current instant, the "2006-01-02" date parser and formatter. */
  datatype Clock = Clock(now: int, parse: string -> Option<int>, format: int -> string)

  /** What the user types: the username line and the password. */
  datatype Typed = Typed(usernameLine: string, password: string)

  /** The instant a stored expiry names; a parse failure is the zero time. */
  function ExpiryInstant(clock: Clock, text: string): (t: int)
    ensures clock.parse(text).Some? ==> t == clock.parse(text).value
    ensures clock.parse(text).None? ==> t == ZeroTime
  {
    match clock.parse(text)
    case None => ZeroTime
    case Some(t) => t
  }

  /** The stored record's pieces when the cached path applies: the expiry
      row exists, is non-empty and lies in the future, and the keyring
      record has four pieces. */
  function Cached(db: Result<M.Db>, ring: K.Keyring, service: string, clock: Clock): (r: Option<seq<string>>)
    ensures r.Some? <==>
      && M.GetExpiryFromDB(db, service).Ok?
      && M.GetExpiryFromDB(db, service).value != ""
      && clock.now < ExpiryInstant(clock, M.GetExpiryFromDB(db, service).value)
      && K.Get(ring, service, service).Ok?
      && Occurrences(K.Get(ring, service, service).value, '\n') >= 3
    ensures r.Some? ==> r.value == SplitN(K.Get(ring, service, service).value, "\n", 4) && |r.value| == 4
  {
    var expiry := M.GetExpiryFromDB(db, service);
    if expiry.Ok? && expiry.value != "" && clock.now < ExpiryInstant(clock, expiry.value) then
      match K.Get(ring, service, service)
      case Err(_) => None
      case Ok(entry) =>
        var parts := SplitN(entry, "\n", 4);
        SplitNCount(entry, '\n', 4);
        if |parts| == 4 then Some(parts) else None
    else None
  }

  /** The cached path: decrypt the stored password; the two answers are
      reset to their defaults whatever the record holds. */
  function FromCache(parts: seq<string>, decrypt: Cipher): (r: Answer)
    requires |parts| == 4
    ensures r.writes == []
    ensures decrypt(parts[1]).Err? <==> r.cred.Err?
    ensures r.cred.Err? ==> r.cred.msg == DecryptFailed + decrypt(parts[1]).msg
    ensures r.cred.Ok? ==> r.cred.value == LoginCredential(parts[0], decrypt(parts[1]).value, Push, YFlag)
  {
    match decrypt(parts[1])
    case Err(e) => Answer(Err(DecryptFailed + e), [])
    case Ok(plain) => Answer(Ok(LoginCredential(parts[0], plain, Push, YFlag)), [])
  }

  /** The record and the expiry date the prompt path writes for a username
      and an encrypted password. */
  function PromptWrites(username: string, sealed: string, clock: Clock): (w: seq<Write>)
    ensures |w| == 2
    ensures w[0].KeyringWrite?
    ensures '\n' !in username && '\n' !in sealed ==>
      Decode(w[0].entry) == Ok(LoginCredential(username, sealed, Push, YFlag))
    ensures w[1] == ExpiryWrite(clock.format(clock.now + Lifetime))
  {
    var entry := username + "\n" + sealed + "\n" + Push + "\n" + YFlag;
    assert '\n' !in username && '\n' !in sealed ==>
      Decode(entry) == Ok(LoginCredential(username, sealed, Push, YFlag)) by {
      Join4(username, sealed, Push, YFlag, "\n");
      if '\n' !in username && '\n' !in sealed {
        DecodeEncode(LoginCredential(username, sealed, Push, YFlag));
      }
    }
    [KeyringWrite(entry), ExpiryWrite(clock.format(clock.now + Lifetime))]
  }

  /** GetOrPromptCredential as written: on the prompt path it hands back the
      ENCRYPTED password, while the cached path hands back the plain one. */
  function GetOrPromptCredential(db: Result<M.Db>, ring: K.Keyring, service: string, clock: Clock,
                                 decrypt: Cipher, encrypt: Cipher, typed: Typed): (r: Answer)
    ensures Cached(db, ring, service, clock).Some? ==> r == FromCache(Cached(db, ring, service, clock).value, decrypt)
    ensures Cached(db, ring, service, clock).None? && encrypt(typed.password).Err? ==>
      r == Answer(Err(EncryptFailed + encrypt(typed.password).msg), [])
    ensures Cached(db, ring, service, clock).None? && encrypt(typed.password).Ok? ==>
      && r.cred == Ok(LoginCredential(TrimSpace(typed.usernameLine), encrypt(typed.password).value, Push, YFlag))
      && r.writes == PromptWrites(TrimSpace(typed.usernameLine), encrypt(typed.password).value, clock)
  {
    match Cached(db, ring, service, clock)
    case Some(parts) => FromCache(parts, decrypt)
    case None =>
      var username := TrimSpace(typed.usernameLine);
      match encrypt(typed.password)
      case Err(e) => Answer(Err(EncryptFailed + e), [])
      case Ok(sealed) =>
        Answer(Ok(LoginCredential(username, sealed, Push, YFlag)), PromptWrites(username, sealed, clock))
  }

  /** GetOrPromptCredential with the prompt path returning the password the
      user typed, as the cached path and the VPN client expect. */
  function GetOrPromptCredentialFixed(db: Result<M.Db>, ring: K.Keyring, service: string, clock: Clock,
                                      decrypt: Cipher, encrypt: Cipher, typed: Typed): (r: Answer)
    ensures Cached(db, ring, service, clock).Some? ==> r == FromCache(Cached(db, ring, service, clock).value, decrypt)
    ensures Cached(db, ring, service, clock).None? && encrypt(typed.password).Err? ==>
      r == Answer(Err(EncryptFailed + encrypt(typed.password).msg), [])
    ensures Cached(db, ring, service, clock).None? && encrypt(typed.password).Ok? ==>
      && r.cred == Ok(LoginCredential(TrimSpace(typed.usernameLine), typed.password, Push, YFlag))
      && r.writes == PromptWrites(TrimSpace(typed.usernameLine), encrypt(typed.password).value, clock)
  {
    match Cached(db, ring, service, clock)
    case Some(parts) => FromCache(parts, decrypt)
    case None =>
      var username := TrimSpace(typed.usernameLine);
      match encrypt(typed.password)
      case Err(e) => Answer(Err(EncryptFailed + e), [])
      case Ok(sealed) =>
        Answer(Ok(LoginCredential(username, typed.password, Push, YFlag)), PromptWrites(username, sealed, clock))
  }

  /** One background write, once it has run; a failed write is only
      logged, so it leaves its store as it was. */
  function ApplyWrite(ring: K.Keyring, db: Result<M.Db>, service: string, write: Write, stamp: int): (stores: (K.Keyring, Result<M.Db>))
    ensures write.KeyringWrite? ==> stores.1 == db
    ensures write.ExpiryWrite? ==> stores.0 == ring
  {
    match write
    case KeyringWrite(entry) =>
      var stored := K.Set(ring, service, service, entry);
      (if stored.Ok? then stored.value else ring, db)
    case ExpiryWrite(date) =>
      var stored := M.SetExpiryToDB(db, service, date, stamp);
      (ring, if stored.Ok? then stored else db)
  }

  /** The background writes, once they have all run. */
  function ApplyWrites(ring: K.Keyring, db: Result<M.Db>, service: string, writes: seq<Write>, stamp: int): (stores: (K.Keyring, Result<M.Db>))
    ensures (forall k :: 0 <= k < |writes| ==> writes[k].KeyringWrite?) ==> stores.1 == db
    decreases |writes|
  {
    if |writes| == 0 then (ring, db)
    else
      var next := ApplyWrite(ring, db, service, writes[0], stamp);
      assert forall k :: 1 <= k < |writes| ==> writes[1..][k - 1] == writes[k];
      ApplyWrites(next.0, next.1, service, writes[1..], stamp)
  }

  /** Once the prompt path's writes have landed in a reachable keyring and a
      database with the expiry table, a later call before the expiry takes
      the cached path and returns the typed password, given that decryption
      undoes encryption. */
  lemma PromptThenCached(db: M.Db, ring: K.Keyring, service: string, clock: Clock, later: Clock,
                         decrypt: Cipher, encrypt: Cipher, typed: Typed, other: Typed)
    requires ring.outage.None?
    requires Cached(Ok(db), ring, service, clock).None?
    requires encrypt(typed.password).Ok? && decrypt(encrypt(typed.password).value) == Ok(typed.password)
    requires '\n' !in TrimSpace(typed.usernameLine) && '\n' !in encrypt(typed.password).value
    requires clock.format(clock.now + Lifetime) != ""
    requires later.now < ExpiryInstant(later, clock.format(clock.now + Lifetime))
    ensures var first := GetOrPromptCredential(Ok(db), ring, service, clock, decrypt, encrypt, typed);
      var (ring', db') := ApplyWrites(ring, Ok(db), service, first.writes, clock.now);
      GetOrPromptCredential(db', ring', service, later, decrypt, encrypt, other)
        == Answer(Ok(LoginCredential(TrimSpace(typed.usernameLine), typed.password, Push, YFlag)), [])
  {
    var username := TrimSpace(typed.usernameLine);
    var sealed := encrypt(typed.password).value;
    var first := GetOrPromptCredential(Ok(db), ring, service, clock, decrypt, encrypt, typed);
    assert first.writes == PromptWrites(username, sealed, clock);
    PromptWritesLand(db, ring, service, username, sealed, clock);
    var stores := ApplyWrites(ring, Ok(db), service, first.writes, clock.now);
    var cred := LoginCredential(username, sealed, Push, YFlag);
    CachedRecord(stores.1, stores.0, service, later, cred, clock.format(clock.now + Lifetime));
    var parts := Cached(stores.1, stores.0, service, later).value;
    assert FromCache(parts, decrypt) == Answer(Ok(cred.(password := typed.password)), []);
  }

  /** A decodable record and an expiry still ahead of the clock are what
      the next call finds. */
  lemma CachedRecord(db: Result<M.Db>, ring: K.Keyring, service: string, clock: Clock, cred: LoginCredential, date: string)
    requires K.Get(ring, service, service).Ok? && Decode(K.Get(ring, service, service).value) == Ok(cred)
    requires M.GetExpiryFromDB(db, service) == Ok(date) && date != "" && clock.now < ExpiryInstant(clock, date)
    ensures Cached(db, ring, service, clock).Some?
    ensures Cached(db, ring, service, clock).value[0] == cred.username
    ensures Cached(db, ring, service, clock).value[1] == cred.password
  {
  }

  /** The prompt path's two writes, landed in a reachable keyring and a
      database with the expiry table: the record and the expiry date read
      back as written. */
  lemma PromptWritesLand(db: M.Db, ring: K.Keyring, service: string, username: string, sealed: string, clock: Clock)
    requires ring.outage.None?
    requires '\n' !in username && '\n' !in sealed
    ensures var (ring', db') := ApplyWrites(ring, Ok(db), service, PromptWrites(username, sealed, clock), clock.now);
      && K.Get(ring', service, service).Ok?
      && Decode(K.Get(ring', service, service).value) == Ok(LoginCredential(username, sealed, Push, YFlag))
      && M.GetExpiryFromDB(db', service) == Ok(clock.format(clock.now + Lifetime))
  {
    var w := PromptWrites(username, sealed, clock);
    var date := clock.format(clock.now + Lifetime);
    var ring1 := K.Set(ring, service, service, w[0].entry).value;
    var db1 := M.SetExpiryToDB(Ok(db), service, date, clock.now);
    assert ApplyWrites(ring, Ok(db), service, w, clock.now) == ApplyWrites(ring1, Ok(db), service, w[1..], clock.now);
    assert ApplyWrites(ring1, Ok(db), service, w[1..], clock.now) == ApplyWrites(ring1, db1, service, w[2..], clock.now);
    assert K.Get(ring1, service, service) == Ok(w[0].entry);
    assert M.GetExpiryFromDB(db1, service) == Ok(date);
  }

  /** The fixed prompt path and the cached call that follows it hand back the
      same credential. */
  lemma FixedPromptAgreesWithCache(db: M.Db, ring: K.Keyring, service: string, clock: Clock, later: Clock,
                                   decrypt: Cipher, encrypt: Cipher, typed: Typed, other: Typed)
    requires ring.outage.None?
    requires Cached(Ok(db), ring, service, clock).None?
    requires encrypt(typed.password).Ok? && decrypt(encrypt(typed.password).value) == Ok(typed.password)
    requires '\n' !in TrimSpace(typed.usernameLine) && '\n' !in encrypt(typed.password).value
    requires clock.format(clock.now + Lifetime) != ""
    requires later.now < ExpiryInstant(later, clock.format(clock.now + Lifetime))
    ensures var first := GetOrPromptCredentialFixed(Ok(db), ring, service, clock, decrypt, encrypt, typed);
      var (ring', db') := ApplyWrites(ring, Ok(db), service, first.writes, clock.now);
      GetOrPromptCredentialFixed(db', ring', service, later, decrypt, encrypt, other).cred == first.cred
  {
    var first := GetOrPromptCredentialFixed(Ok(db), ring, service, clock, decrypt, encrypt, typed);
    var asWritten := GetOrPromptCredential(Ok(db), ring, service, clock, decrypt, encrypt, typed);
    assert first.writes == asWritten.writes;
    PromptThenCached(db, ring, service, clock, later, decrypt, encrypt, typed, other);
    var (ring', db') := ApplyWrites(ring, Ok(db), service, first.writes, clock.now);
    assert Cached(db', ring', service, later).Some?;
  }

  /** The source as written: whenever encryption changes the password, the
      first call and the cached call after it disagree on the password. */
  lemma PromptedPasswordIsCiphertext(db: M.Db, ring: K.Keyring, service: string, clock: Clock, later: Clock,
                                     decrypt: Cipher, encrypt: Cipher, typed: Typed, other: Typed)
    requires ring.outage.None?
    requires Cached(Ok(db), ring, service, clock).None?
    requires encrypt(typed.password).Ok? && decrypt(encrypt(typed.password).value) == Ok(typed.password)
    requires encrypt(typed.password).value != typed.password
    requires '\n' !in TrimSpace(typed.usernameLine) && '\n' !in encrypt(typed.password).value
    requires clock.format(clock.now + Lifetime) != ""
    requires later.now < ExpiryInstant(later, clock.format(clock.now + Lifetime))
    ensures var first := GetOrPromptCredential(Ok(db), ring, service, clock, decrypt, encrypt, typed);
      var (ring', db') := ApplyWrites(ring, Ok(db), service, first.writes, clock.now);
      && first.cred == Ok(LoginCredential(TrimSpace(typed.usernameLine), encrypt(typed.password).value, Push, YFlag))
      && GetOrPromptCredential(db', ring', service, later, decrypt, encrypt, other).cred
         == Ok(LoginCredential(TrimSpace(typed.usernameLine), typed.password, Push, YFlag))
      && encrypt(typed.password).value != typed.password
  {
    PromptThenCached(db, ring, service, clock, later, decrypt, encrypt, typed, other);
  }

  /** An unparsable expiry is the zero time, which no present instant
      precedes: the user is prompted again. */
  lemma UnparsableExpiryPrompts(db: Result<M.Db>, ring: K.Keyring, service: string, clock: Clock)
    requires M.GetExpiryFromDB(db, service).Ok?
    requires clock.parse(M.GetExpiryFromDB(db, service).value).None?
    requires clock.now >= ZeroTime
    ensures Cached(db, ring, service, clock).None?
  {
  }

  /** The cached path ignores the stored answers to the two follow-up prompts. */
  lemma CachedResetsAnswers(db: Result<M.Db>, ring: K.Keyring, service: string, clock: Clock,
                            decrypt: Cipher, encrypt: Cipher, typed: Typed)
    requires Cached(db, ring, service, clock).Some?
    requires GetOrPromptCredential(db, ring, service, clock, decrypt, encrypt, typed).cred.Ok?
    ensures var c := GetOrPromptCredential(db, ring, service, clock, decrypt, encrypt, typed).cred.value;
      c.push == Push && c.yFlag == YFlag
      && c.username == Decode(K.Get(ring, service, service).value).value.username
  {
  }
}
