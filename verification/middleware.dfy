/** The store behind the commands: the path of the database file, the
    last-connected profile, credential expiry dates and the latest known
    release, each kept in a table with a unique key, plus the username
    prompt. A store operation receives the database it opened (or the
    reason it could not open one) and returns the database it leaves. */
module Middleware {
  import opened Base
  import opened Strs
  import opened Paths
  import opened Tables

  // ---------------------------------------------------------------------------
  // expandPath
  // ---------------------------------------------------------------------------

  /** expandPath: a leading "~" stands for the home directory (`home` is the
      outcome of looking it up), whatever follows it; any other path is kept. */
  function ExpandPath(path: string, home: Result<string>): (r: Result<string>)
    ensures !HasPrefix(path, "~") ==> r == Ok(path)
    ensures HasPrefix(path, "~") && home.Err? ==> r == Err(home.msg)
    ensures HasPrefix(path, "~") && home.Ok? && home.value != "" ==> r.Ok? && r.value != ""
  {
    if HasPrefix(path, "~") then
      if home.Err? then Err(home.msg)
      else Ok(JoinPath([home.value, TrimPrefix(path, "~")]))
    else Ok(path)
  }

  /** "~/a/b" under a clean absolute home is the home followed by "/a/b". */
  lemma ExpandUnderHome(home: seq<string>, names: seq<string>)
    requires |home| > 0 && |names| > 0 && AllPlain(home) && AllPlain(names)
    ensures ExpandPath("~/" + Join(names, "/"), Ok("/" + Join(home, "/")))
         == Ok("/" + Join(home, "/") + "/" + Join(names, "/"))
  {
    var h := "/" + Join(home, "/");
    var j := Join(names, "/");
    calc {
      ExpandPath("~/" + j, Ok(h));
      { TildeSlash(j); }
      Ok(JoinPath([h, "/" + j]));
      { JoinAcrossDoubleSlash(home, names); }
      Ok(h + "/" + j);
    }
  }

  /** "~/rest" starts with "~", and what follows it is "/rest". */
  lemma TildeSlash(rest: string)
    ensures HasPrefix("~/" + rest, "~") && TrimPrefix("~/" + rest, "~") == "/" + rest
  {
    assert ("~/" + rest)[..1] == "~";
    assert ("~/" + rest)[1..] == "/" + rest;
  }

  /** A clean absolute directory joined with a path that starts with "/":
      the doubled slash is cleaned away. */
  lemma JoinAcrossDoubleSlash(home: seq<string>, names: seq<string>)
    requires |home| > 0 && |names| > 0 && AllPlain(home) && AllPlain(names)
    ensures JoinPath(["/" + Join(home, "/"), "/" + Join(names, "/")])
         == "/" + Join(home, "/") + "/" + Join(names, "/")
  {
    var h := "/" + Join(home, "/");
    var tail := "/" + Join(names, "/");
    var all := home + [""] + names;
    assert PlainOrEmpty(all);
    calc {
      JoinPath([h, tail]);
      Clean(Join([h, tail], "/"));
      { DoubleSlashJoin(home, names); }
      Clean("/" + Join(all, "/"));
      { CleanRootedPlain(all); }
      "/" + Join(NonEmpty(all), "/");
      { DoubleSlashNonEmpty(home, names); }
      "/" + Join(home + names, "/");
      { JoinAppend(home, names, "/"); }
      "/" + (Join(home, "/") + "/" + Join(names, "/"));
      { AppendAssoc3("/", Join(home, "/"), "/", Join(names, "/")); }
      h + "/" + Join(names, "/");
    }
  }

  lemma DoubleSlashJoin(home: seq<string>, names: seq<string>)
    requires |home| > 0 && |names| > 0
    ensures Join(["/" + Join(home, "/"), "/" + Join(names, "/")], "/") == "/" + Join(home + [""] + names, "/")
  {
    var j := Join(home, "/");
    var k := Join(names, "/");
    calc {
      Join(["/" + j, "/" + k], "/");
      { assert ["/" + j, "/" + k][1..] == ["/" + k]; }
      ("/" + j) + "/" + ("/" + k);
      { AppendAssoc3("/", j, "/", "/" + k); }
      "/" + (j + "/" + ("/" + k));
      { JoinSlashTail(home, names); }
      "/" + Join(home + [""] + names, "/");
    }
  }

  lemma JoinSlashTail(home: seq<string>, names: seq<string>)
    requires |home| > 0 && |names| > 0
    ensures Join(home + [""] + names, "/") == Join(home, "/") + "/" + ("/" + Join(names, "/"))
  {
    var tail := [""] + names;
    var k := Join(names, "/");
    calc {
      Join(home + [""] + names, "/");
      { assert home + [""] + names == home + tail; }
      Join(home + tail, "/");
      { JoinAppend(home, tail, "/"); }
      Join(home, "/") + "/" + Join(tail, "/");
      { JoinCons("", names, "/"); assert "" + "/" + k == "/" + k; }
      Join(home, "/") + "/" + ("/" + k);
    }
  }

  lemma DoubleSlashNonEmpty(home: seq<string>, names: seq<string>)
    requires AllPlain(home) && AllPlain(names)
    ensures NonEmpty(home + [""] + names) == home + names
  {
    var tail := [""] + names;
    assert home + [""] + names == home + tail;
    NonEmptyAppend(home, tail);
    assert NonEmpty(tail) == NonEmpty(names) by {
      assert tail[1..] == names;
    }
    NonEmptyOfPlain(home);
    NonEmptyOfPlain(names);
  }

  // ---------------------------------------------------------------------------
  // The database
  // ---------------------------------------------------------------------------

  /** The tables, as opening the database leaves them: every open creates
      each of the three tables that is missing, so all three are always
      there. A profile row keeps the RFC 3339 text of its
      `last_connected_at`, and is ordered by the instant that text names;
      expiry rows keep the expiry text; version rows are ordered by their
      write time. */
  datatype Db = Db(
    profiles: seq<Row<string>>,
    expiries: seq<Row<string>>,
    versions: seq<Row<()>>)

  ghost predicate WellFormed(db: Db)
  {
    UniqueKeys(db.profiles) && UniqueKeys(db.expiries) && UniqueKeys(db.versions)
  }

  const NoRows := "sql: no rows in result set"
  const ScanError := "scan error (maybe no profile stored yet): "
  const DbInitError := "db init error: "

  /** `key` belongs to a row with the greatest stamp. */
  ghost predicate LatestKey<V>(t: seq<Row<V>>, key: string)
  {
    exists k :: 0 <= k < |t| && t[k].key == key && forall j :: 0 <= j < |t| ==> t[j].stamp <= t[k].stamp
  }

  /** SetLastConnectedProfile: upsert the profile with the current time. */
  function SetLastConnectedProfile(db: Result<Db>, profile: string, now: int, nowText: string): (r: Result<Db>)
    ensures db.Err? ==> r == Err(db.msg)
    ensures db.Ok? ==> r.Ok? && r.value.expiries == db.value.expiries && r.value.versions == db.value.versions
    ensures db.Ok? && WellFormed(db.value) ==> WellFormed(r.value)
    ensures db.Ok? ==> Find(r.value.profiles, profile) == Some(Row(profile, nowText, now))
    ensures db.Ok? ==> forall p :: p != profile ==> Find(r.value.profiles, p) == Find(db.value.profiles, p)
  {
    if db.Err? then Err(db.msg)
    else Ok(db.value.(profiles := Upsert(db.value.profiles, profile, nowText, now)))
  }

  /** GetLastConnectedProfile: the profile connected most recently; an
      empty table is the scan error. */
  function GetLastConnectedProfile(db: Result<Db>): (r: Result<string>)
    ensures db.Err? ==> r == Err(DbInitError + db.msg)
    ensures db.Ok? ==> (r.Ok? <==> |db.value.profiles| > 0)
    ensures db.Ok? && |db.value.profiles| == 0 ==> r == Err(ScanError + NoRows)
    ensures db.Ok? && r.Ok? ==> LatestKey(db.value.profiles, r.value)
  {
    if db.Err? then Err(DbInitError + db.msg)
    else
      match Latest(db.value.profiles)
      case None => Err(ScanError + NoRows)
      case Some(row) => Ok(row.key)
  }

  /** Recording a profile later than every other makes it the last
      connected one, whatever was recorded before. */
  lemma LastConnectedAfterSet(db: Db, profile: string, now: int, nowText: string)
    requires forall k :: 0 <= k < |db.profiles| && db.profiles[k].key != profile ==> db.profiles[k].stamp < now
    ensures GetLastConnectedProfile(SetLastConnectedProfile(Ok(db), profile, now, nowText)) == Ok(profile)
  {
    LatestAfterUpsert(db.profiles, profile, nowText, now);
  }

  /** Recording the same profile again keeps one row for it, with the new
      time, and adds none. */
  lemma SetLastConnectedAgain(db: Db, profile: string, t1: int, text1: string, t2: int, text2: string)
    requires UniqueKeys(db.profiles)
    ensures var once := SetLastConnectedProfile(Ok(db), profile, t1, text1).value;
      var twice := SetLastConnectedProfile(Ok(once), profile, t2, text2).value;
      && |twice.profiles| == |once.profiles|
      && UniqueKeys(twice.profiles)
      && Find(twice.profiles, profile) == Some(Row(profile, text2, t2))
  {
    var once := SetLastConnectedProfile(Ok(db), profile, t1, text1).value;
    assert HasKey(once.profiles, profile) by {
      assert Find(once.profiles, profile).Some?;
    }
  }

  /** SetExpiryToDB: upsert the user's expiry date. */
  function SetExpiryToDB(db: Result<Db>, username: string, expiry: string, now: int): (r: Result<Db>)
    ensures db.Err? ==> r == Err(db.msg)
    ensures db.Ok? ==> r.Ok?
    ensures r.Ok? ==> r.value.profiles == db.value.profiles && r.value.versions == db.value.versions
    ensures r.Ok? ==> GetExpiryFromDB(r, username) == Ok(expiry)
    ensures r.Ok? ==> forall other :: other != username ==> GetExpiryFromDB(r, other) == GetExpiryFromDB(db, other)
    ensures db.Ok? && WellFormed(db.value) ==> WellFormed(r.value)
  {
    if db.Err? then Err(db.msg)
    else Ok(db.value.(expiries := Upsert(db.value.expiries, username, expiry, now)))
  }

  /** GetExpiryFromDB: the user's expiry date; a user without a row is the
      no-rows error. */
  function GetExpiryFromDB(db: Result<Db>, username: string): (r: Result<string>)
    ensures db.Err? ==> r == Err(db.msg)
    ensures db.Ok? ==> (r.Ok? <==> HasKey(db.value.expiries, username))
    ensures db.Ok? && !HasKey(db.value.expiries, username) ==> r == Err(NoRows)
    ensures r.Ok? ==> exists k :: 0 <= k < |db.value.expiries| && db.value.expiries[k] == Row(username, r.value, db.value.expiries[k].stamp)
  {
    if db.Err? then Err(db.msg)
    else
      match Find(db.value.expiries, username)
      case None => Err(NoRows)
      case Some(row) => Ok(row.value)
  }

  /** SetLatestVersionToDB: upsert the version with the current time. */
  function SetLatestVersionToDB(db: Result<Db>, version: string, now: int): (r: Result<Db>)
    ensures db.Err? ==> r == Err(db.msg)
    ensures db.Ok? ==> r.Ok?
    ensures r.Ok? ==> r.value.profiles == db.value.profiles && r.value.expiries == db.value.expiries
    ensures r.Ok? ==> Find(r.value.versions, version) == Some(Row(version, (), now))
    ensures r.Ok? ==> forall v :: v != version ==> Find(r.value.versions, v) == Find(db.value.versions, v)
    ensures db.Ok? && WellFormed(db.value) ==> WellFormed(r.value)
  {
    if db.Err? then Err(db.msg)
    else Ok(db.value.(versions := Upsert(db.value.versions, version, (), now)))
  }

  /** GetLatestVerisionFromDB: the version written most recently; an empty
      table is the scan error. */
  function GetLatestVersionFromDB(db: Result<Db>): (r: Result<string>)
    ensures db.Err? ==> r == Err(DbInitError + db.msg)
    ensures db.Ok? ==> (r.Ok? <==> |db.value.versions| > 0)
    ensures db.Ok? && |db.value.versions| == 0 ==> r == Err(ScanError + NoRows)
    ensures db.Ok? && r.Ok? ==> LatestKey(db.value.versions, r.value)
  {
    if db.Err? then Err(DbInitError + db.msg)
    else
      match Latest(db.value.versions)
      case None => Err(ScanError + NoRows)
      case Some(row) => Ok(row.key)
  }

  /** Writing a version later than every other write makes it the latest. */
  lemma LatestVersionAfterSet(db: Db, version: string, now: int)
    requires forall k :: 0 <= k < |db.versions| && db.versions[k].key != version ==> db.versions[k].stamp < now
    ensures GetLatestVersionFromDB(SetLatestVersionToDB(Ok(db), version, now)) == Ok(version)
  {
    LatestAfterUpsert(db.versions, version, (), now);
  }

  // ---------------------------------------------------------------------------
  // GetUsernameFromEnv
  // ---------------------------------------------------------------------------

  /** The username decided on, and how many typed lines it took. */
  datatype Prompted = Prompted(username: string, linesRead: nat)

  /** Every typed line, trimmed. */
  function TrimAll(input: seq<string>): (r: seq<string>)
    ensures |r| == |input|
  {
    seq(|input|, k requires 0 <= k < |input| => TrimSpace(input[k]))
  }

  /** The first `n` lines are empty. */
  ghost predicate Blank(lines: seq<string>, n: int)
    requires 0 <= n <= |lines|
  {
    forall k :: 0 <= k < n ==> lines[k] == ""
  }

  /** The first non-empty line, and how many lines it took to reach it;
      None when every line is empty. */
  function FirstNonEmpty(lines: seq<string>): (r: Option<Prompted>)
    ensures r.None? <==> Blank(lines, |lines|)
    ensures r.Some? ==> 1 <= r.value.linesRead <= |lines|
    ensures r.Some? ==> r.value.username == lines[r.value.linesRead - 1] != ""
    ensures r.Some? ==> Blank(lines, r.value.linesRead - 1)
  {
    if |lines| == 0 then None
    else if lines[0] != "" then Some(Prompted(lines[0], 1))
    else
      assert forall k :: 1 <= k < |lines| ==> lines[k] == lines[1..][k - 1];
      match FirstNonEmpty(lines[1..])
      case None => None
      case Some(p) => Some(Prompted(p.username, p.linesRead + 1))
  }

  /** How GetUsernameFromEnv ends: with a username and the typed lines it
      took, prompting forever once the input runs out, or in the nil
      dereference of storing a typed name when the store could not open the
      database (its open error is only logged). */
  datatype Asked = Named(prompted: Prompted) | PromptsForever | StorePanic

  /** The prompt over the trimmed typed lines: the first non-blank one is
      the name, stored when the database opened; blank lines throughout
      keep the prompt going. */
  function Prompt(lines: seq<string>, storeOpened: bool): (r: Asked)
    ensures r.PromptsForever? <==> Blank(lines, |lines|)
    ensures r.StorePanic? <==> !storeOpened && !Blank(lines, |lines|)
    ensures r.Named? ==>
      && storeOpened
      && 1 <= r.prompted.linesRead <= |lines|
      && r.prompted.username == lines[r.prompted.linesRead - 1] != ""
      && Blank(lines, r.prompted.linesRead - 1)
  {
    var first := FirstNonEmpty(lines);
    if first.None? then PromptsForever
    else if storeOpened then Named(first.value)
    else StorePanic
  }

  /** GetUsernameFromEnv: `stored` is the username lookup's outcome, `input`
      the lines typed at the prompt and `storeOpened` whether the store step
      opened the database. A stored non-empty username is used without
      asking; otherwise the prompt repeats until a line is not blank, and
      the typed name is then stored. With the database open the store's own
      error is ignored; without it the store panics. */
  function GetUsernameFromEnv(stored: Result<string>, input: seq<string>, storeOpened: bool): (r: Asked)
    ensures stored.Ok? && stored.value != "" ==> r == Named(Prompted(stored.value, 0))
    ensures !(stored.Ok? && stored.value != "") ==> (r.PromptsForever? <==> Blank(TrimAll(input), |input|))
    ensures !(stored.Ok? && stored.value != "") ==>
      (r.StorePanic? <==> !storeOpened && !Blank(TrimAll(input), |input|))
    ensures !(stored.Ok? && stored.value != "") && r.Named? ==>
      && storeOpened
      && 1 <= r.prompted.linesRead <= |input|
      && r.prompted.username == TrimAll(input)[r.prompted.linesRead - 1]
      && Blank(TrimAll(input), r.prompted.linesRead - 1)
    ensures r.Named? ==> r.prompted.username != ""
  {
    if stored.Ok? && stored.value != "" then Named(Prompted(stored.value, 0))
    else
      Prompt(TrimAll(input), storeOpened)
  }
}
