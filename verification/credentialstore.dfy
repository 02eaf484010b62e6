/** The keyring-first credential store with an encrypted-file fallback: a
    password goes to the keyring under (service, username); when the keyring
    refuses it, it is sealed with a 32-byte key and written to one file in
    the home directory — one file for every username.

    Sealing and opening (NaCl-style authenticated encryption) are oracles
    passed in as functions; the home directory lookup is an observation. */
module CredentialStore {
  import opened Base
  import opened Paths
  import Strs
  import K = Keyring

  const ServiceName := "vpnctl"
  const EncryptedCreds := "vpn_credentials.enc"
  const KeyLength := 32

  const BadKey := "encryption key must be 32 bytes"
  const NotFound := "credential not found in keyring or file"
  const OpenFailed := "failed to decrypt fallback credentials"

  type Bytes = seq<bv8>

  /** Seal a plaintext under a key; open a sealed text under a key. */
  type Seal = (Bytes, string) -> Result<Bytes>
  type Open = (Bytes, Bytes) -> Result<string>

  /** The files on disk, and the error a write would meet, if any. */
  datatype Disk = Disk(files: map<string, Bytes>, writeFailure: Option<string>)

  datatype Store = Store(ring: K.Keyring, disk: Disk)

  /** The fallback file: `.vpnctl/vpn_credentials.enc` under the home
      directory; a failed home lookup is ignored and leaves a relative path. */
  function FallbackPath(home: Result<string>): (path: string)
    ensures path != ""
    ensures home.Err? ==> path == ".vpnctl/" + EncryptedCreds
  {
    var dir := if home.Ok? then home.value else "";
    assert [dir, ".vpnctl", EncryptedCreds][1] == ".vpnctl";
    var path := JoinPath([dir, ".vpnctl", EncryptedCreds]);
    if home.Err? then
      RelativeFallback();
      path
    else path
  }

  /** The fallback path with no home directory. */
  lemma RelativeFallback()
    ensures JoinPath(["", ".vpnctl", EncryptedCreds]) == ".vpnctl/" + EncryptedCreds
  {
    var elems := ["", ".vpnctl", EncryptedCreds];
    assert elems[1..] == [".vpnctl", EncryptedCreds];
    assert JoinPath(elems) == JoinPath([".vpnctl", EncryptedCreds]);
    NamesPlain();
    CleanRelativePlain([".vpnctl", EncryptedCreds]);
    JoinTwo(".vpnctl", EncryptedCreds);
  }

  /** The two names below the home directory are plain path elements. */
  lemma NamesPlain()
    ensures AllPlain([".vpnctl", EncryptedCreds])
  {
    var d := ".vpnctl";
    var f := EncryptedCreds;
    assert |d| == 7 && |f| == 19;
    assert forall i :: 0 <= i < |d| ==> d[i] != '/';
    assert forall i :: 0 <= i < |f| ==> f[i] != '/';
    assert d != "." && d != ".." && f != "." && f != "..";
  }

  lemma JoinTwo(a: string, b: string)
    ensures Strs.Join([a, b], "/") == a + "/" + b
  {
    assert [a, b][1..] == [b];
  }

  /** Under a plain absolute home directory the fallback file sits in the
      `.vpnctl` directory below it. */
  lemma FallbackUnderHome(home: seq<string>)
    requires |home| > 0 && AllPlain(home)
    ensures FallbackPath(Ok("/" + Strs.Join(home, "/"))) == "/" + Strs.Join(home, "/") + "/" + ".vpnctl" + "/" + EncryptedCreds
  {
    var h := "/" + Strs.Join(home, "/");
    var names := [".vpnctl", EncryptedCreds];
    NamesPlain();
    calc {
      FallbackPath(Ok(h));
      JoinPath([h, ".vpnctl", EncryptedCreds]);
      { Strs.Cons3(h, ".vpnctl", EncryptedCreds); }
      JoinPath([h] + names);
      { JoinUnderHome(home, names); }
      h + "/" + Strs.Join(names, "/");
      { JoinTwo(".vpnctl", EncryptedCreds); }
      h + "/" + (".vpnctl" + "/" + EncryptedCreds);
      { Strs.AppendAssoc3(h + "/", ".vpnctl", "/", EncryptedCreds); }
      h + "/" + ".vpnctl" + "/" + EncryptedCreds;
    }
  }

  /** StoreCredential: the keyring first; on any keyring failure, seal the
      password and write the fallback file. */
  function StoreCredential(st: Store, home: Result<string>, username: string, password: string,
                           key: Bytes, seal: Seal): (r: Result<Store>)
    ensures K.Set(st.ring, ServiceName, username, password).Ok? ==>
      r == Ok(st.(ring := K.Set(st.ring, ServiceName, username, password).value))
    ensures K.Set(st.ring, ServiceName, username, password).Err? && |key| != KeyLength ==> r == Err(BadKey)
    ensures K.Set(st.ring, ServiceName, username, password).Err? && |key| == KeyLength ==>
      && (seal(key, password).Err? ==> r == Err(seal(key, password).msg))
      && (seal(key, password).Ok? && st.disk.writeFailure.Some? ==> r == Err(st.disk.writeFailure.value))
      && (seal(key, password).Ok? && st.disk.writeFailure.None? ==>
            r == Ok(st.(disk := st.disk.(files := st.disk.files[FallbackPath(home) := seal(key, password).value]))))
  {
    match K.Set(st.ring, ServiceName, username, password)
    case Ok(ring') => Ok(st.(ring := ring'))
    case Err(_) =>
      if |key| != KeyLength then Err(BadKey)
      else
        match seal(key, password)
        case Err(e) => Err(e)
        case Ok(sealed) =>
          match st.disk.writeFailure
          case Some(e) => Err(e)
          case None => Ok(st.(disk := st.disk.(files := st.disk.files[FallbackPath(home) := sealed])))
  }

  /** GetCredential: the keyring first; on a miss, the fallback file, whose
      absence is reported before the key length is looked at. */
  function GetCredential(st: Store, home: Result<string>, username: string, key: Bytes, open: Open): (r: Result<string>)
    ensures K.Get(st.ring, ServiceName, username).Ok? ==> r == K.Get(st.ring, ServiceName, username)
    ensures K.Get(st.ring, ServiceName, username).Err? ==>
      && (FallbackPath(home) !in st.disk.files ==> r == Err(NotFound))
      && (FallbackPath(home) in st.disk.files && |key| != KeyLength ==> r == Err(BadKey))
      && (FallbackPath(home) in st.disk.files && |key| == KeyLength ==>
            r == (if open(key, st.disk.files[FallbackPath(home)]).Ok?
                  then open(key, st.disk.files[FallbackPath(home)]) else Err(OpenFailed)))
  {
    match K.Get(st.ring, ServiceName, username)
    case Ok(pass) => Ok(pass)
    case Err(_) =>
      var path := FallbackPath(home);
      if path !in st.disk.files then Err(NotFound)
      else if |key| != KeyLength then Err(BadKey)
      else
        match open(key, st.disk.files[path])
        case Err(_) => Err(OpenFailed)
        case Ok(plain) => Ok(plain)
  }

  /** A keyring hit never looks at the disk: any disk gives the same answer. */
  lemma KeyringHitIgnoresDisk(st: Store, disk: Disk, home: Result<string>, username: string, key: Bytes, open: Open)
    requires K.Get(st.ring, ServiceName, username).Ok?
    ensures GetCredential(st.(disk := disk), home, username, key, open) == GetCredential(st, home, username, key, open)
  {
  }

  /** A password the keyring accepted is what the keyring gives back. */
  lemma KeyringRoundTrip(st: Store, home: Result<string>, username: string, password: string,
                         key: Bytes, seal: Seal, open: Open)
    requires StoreCredential(st, home, username, password, key, seal).Ok?
    requires st.ring.outage.None?
    ensures GetCredential(StoreCredential(st, home, username, password, key, seal).value, home, username, key, open)
      == Ok(password)
  {
  }

  /** A store that fell back to the file, read back under ANY username while
      the keyring stays unreachable, gives the stored password, given that
      opening undoes sealing: the file does not record whose password it is. */
  lemma FallbackIgnoresUsername(st: Store, home: Result<string>, username: string, other: string, password: string,
                                key: Bytes, seal: Seal, open: Open)
    requires st.ring.outage.Some?
    requires StoreCredential(st, home, username, password, key, seal).Ok?
    requires open(key, seal(key, password).value) == Ok(password)
    ensures GetCredential(StoreCredential(st, home, username, password, key, seal).value, home, other, key, open)
      == Ok(password)
  {
  }

  /** With the keyring unreachable, the file written for one username is
      overwritten by a store for another: the last password wins for both. */
  lemma FallbackLastWriteWins(st: Store, home: Result<string>, u1: string, u2: string, p1: string, p2: string,
                              key: Bytes, seal: Seal, open: Open)
    requires st.ring.outage.Some?
    requires StoreCredential(st, home, u1, p1, key, seal).Ok?
    requires StoreCredential(StoreCredential(st, home, u1, p1, key, seal).value, home, u2, p2, key, seal).Ok?
    requires open(key, seal(key, p2).value) == Ok(p2)
    ensures var st2 := StoreCredential(StoreCredential(st, home, u1, p1, key, seal).value, home, u2, p2, key, seal).value;
      GetCredential(st2, home, u1, key, open) == Ok(p2)
  {
  }
}
