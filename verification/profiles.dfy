/** The two VPN profiles, `intra` and `dev`, as both command implementations
    resolve them: the per-profile credential file, the connection target the
    VPN client knows the profile by, and the credential-file format. */
module Profiles {
  import opened Base
  import opened Strs
  import opened Paths
  import opened Model

  const Intra := "intra"
  const Dev := "dev"

  predicate Known(profile: string)
  {
    profile == Intra || profile == Dev
  }

  /** The name of a known profile's credential file. */
  function CredentialFile(profile: string): string
  {
    if profile == Intra then ".credential_intra" else ".credential_dev"
  }

  /** getProfilePath: the profile's credential file below `home`, or "" for a
      profile the tool does not know. */
  function ProfilePath(home: string, profile: string): (r: string)
    ensures r == "" <==> !Known(profile)
  {
    if Known(profile) then
      assert [home, ".vpnctl", ".credential", CredentialFile(profile)][1] != "";
      JoinPath([home, ".vpnctl", ".credential", CredentialFile(profile)])
    else ""
  }

  /** getProfilePath as written: the account lookup (`account`: the home
      directory, or the lookup's error) has its error discarded, and a known
      profile then reads the home directory of the missing account, a nil
      dereference; None is that panic. An unknown profile never reads it. */
  function LookupProfilePath(account: Result<string>, profile: string): (r: Option<string>)
    ensures r.None? <==> Known(profile) && account.Err?
    ensures r.Some? ==> (r.value == "" <==> !Known(profile))
    ensures account.Ok? ==> r == Some(ProfilePath(account.value, profile))
  {
    if !Known(profile) then Some("")
    else if account.Err? then None
    else Some(ProfilePath(account.value, profile))
  }

  lemma PlainDirectories()
    ensures Plain(".vpnctl") && Plain(".credential")
    ensures Plain(".credential_intra") && Plain(".credential_dev")
  {
  }

  lemma PlainBelowDirectories(file: string)
    requires Plain(file)
    ensures AllPlain([".vpnctl", ".credential", file])
  {
    PlainDirectories();
  }

  /** Three plain names below a clean absolute home. */
  lemma UnderHome3(home: seq<string>, a: string, b: string, c: string)
    requires |home| > 0 && AllPlain(home) && AllPlain([a, b, c])
    ensures JoinPath(["/" + Join(home, "/"), a, b, c]) == "/" + Join(home, "/") + "/" + a + "/" + b + "/" + c
  {
    var h := "/" + Join(home, "/");
    var names := [a, b, c];
    calc {
      JoinPath([h, a, b, c]);
      { Cons4(h, a, b, c); }
      JoinPath([h] + names);
      { JoinUnderHome(home, names); }
      h + "/" + Join(names, "/");
      { Join3(a, b, c, "/"); AppendJoined3(h, "/", Join(names, "/"), a, b, c); }
      h + "/" + a + "/" + b + "/" + c;
    }
  }

  /** A plain file name two directories below a clean absolute home. */
  lemma CredentialLayout(home: seq<string>, file: string)
    requires |home| > 0 && AllPlain(home) && Plain(file)
    ensures JoinPath(["/" + Join(home, "/"), ".vpnctl", ".credential", file])
         == "/" + Join(home, "/") + "/" + ".vpnctl" + "/" + ".credential" + "/" + file
  {
    PlainBelowDirectories(file);
    UnderHome3(home, ".vpnctl", ".credential", file);
  }

  /** Below a clean absolute home directory the path is the literal one. */
  lemma ProfilePathUnderHome(home: seq<string>, profile: string)
    requires |home| > 0 && AllPlain(home) && Known(profile)
    ensures ProfilePath("/" + Join(home, "/"), profile)
         == "/" + Join(home, "/") + "/" + ".vpnctl" + "/" + ".credential" + "/" + CredentialFile(profile)
  {
    var h := "/" + Join(home, "/");
    var f := CredentialFile(profile);
    PlainDirectories();
    CredentialLayout(home, f);
    ProfilePathIsJoin(h, profile);
  }

  lemma ProfilePathIsJoin(home: string, profile: string)
    requires Known(profile)
    ensures ProfilePath(home, profile) == JoinPath([home, ".vpnctl", ".credential", CredentialFile(profile)])
  {
  }

  /** The connection name handed to `vpn connect`; an unknown profile (which
      never gets this far) would be the empty name. */
  function Target(profile: string): (t: string)
    ensures t == "" <==> !Known(profile)
    ensures profile == Dev ==> t == "DEV-VPN-REMOTE"
    ensures profile == Intra ==> t == "INTRA"
  {
    if profile == Dev then "DEV-VPN-REMOTE"
    else if profile == Intra then "INTRA"
    else ""
  }

  /** The number of lines a profile's credential file must have. */
  function LinesNeeded(profile: string): nat
  {
    if profile == Dev then 4 else 3
  }

  const UnsupportedProfile := "unsupported profile for credentials"

  function InvalidFormat(profile: string): string
  {
    "invalid credentials format for profile: " + profile
  }

  /** The credential held by the lines of a profile's credential file:
      username, password, Y flag and, for `dev` only, the second password,
      one per line and each trimmed; lines beyond those are ignored. */
  function CredentialOfLines(profile: string, lines: seq<string>): (r: Result<UserCredential>)
    requires Known(profile)
    ensures r.Ok? <==> |lines| >= LinesNeeded(profile)
    ensures r.Err? ==> r.msg == InvalidFormat(profile)
    ensures r.Ok? && profile == Intra ==> r.value.secondPassword == ""
  {
    if profile == Intra && |lines| >= 3 then
      Ok(UserCredential(TrimSpace(lines[0]), TrimSpace(lines[1]), "", TrimSpace(lines[2])))
    else if profile == Dev && |lines| >= 4 then
      Ok(UserCredential(TrimSpace(lines[0]), TrimSpace(lines[1]), TrimSpace(lines[3]), TrimSpace(lines[2])))
    else Err(InvalidFormat(profile))
  }

  /** Every field read from a credential file is already trimmed. */
  lemma CredentialOfLinesTrimmed(profile: string, lines: seq<string>)
    requires Known(profile)
    ensures var r := CredentialOfLines(profile, lines);
      r.Ok? ==>
        && TrimSpace(r.value.username) == r.value.username
        && TrimSpace(r.value.password) == r.value.password
        && TrimSpace(r.value.yFlag) == r.value.yFlag
        && TrimSpace(r.value.secondPassword) == r.value.secondPassword
  {
    var r := CredentialOfLines(profile, lines);
    if profile == Intra && |lines| >= 3 {
      assert r.value == UserCredential(TrimSpace(lines[0]), TrimSpace(lines[1]), "", TrimSpace(lines[2]));
      Trimmed3(lines[0], lines[1], lines[2]);
      TrimSpaceKeepsTrimmed("");
    } else if profile == Dev && |lines| >= 4 {
      assert r.value == UserCredential(TrimSpace(lines[0]), TrimSpace(lines[1]), TrimSpace(lines[3]), TrimSpace(lines[2]));
      Trimmed3(lines[0], lines[1], lines[2]);
      TrimSpaceIdempotent(lines[3]);
    }
  }

  lemma Trimmed3(a: string, b: string, c: string)
    ensures TrimSpace(TrimSpace(a)) == TrimSpace(a)
    ensures TrimSpace(TrimSpace(b)) == TrimSpace(b)
    ensures TrimSpace(TrimSpace(c)) == TrimSpace(c)
  {
    TrimSpaceIdempotent(a);
    TrimSpaceIdempotent(b);
    TrimSpaceIdempotent(c);
  }

  /** readCredentials: `file` is the outcome of reading the profile's
      credential file; its trimmed text is cut into lines. A file needs one
      line per field, so `intra` needs two line breaks and `dev` three. */
  function ReadCredentials(profile: string, file: Result<string>): (r: Result<UserCredential>)
    ensures !Known(profile) ==> r == Err(UnsupportedProfile)
    ensures Known(profile) && file.Err? ==> r == Err(file.msg)
    ensures Known(profile) && file.Ok? ==>
      (r.Ok? <==> Occurrences(TrimSpace(file.value), '\n') + 1 >= LinesNeeded(profile))
    ensures Known(profile) && file.Ok? && r.Err? ==> r.msg == InvalidFormat(profile)
  {
    if !Known(profile) then Err(UnsupportedProfile)
    else if file.Err? then Err(file.msg)
    else
      SplitCount(TrimSpace(file.value), '\n');
      CredentialOfLines(profile, Split(TrimSpace(file.value), "\n"))
  }

  /** A field a credential file can hold and give back unchanged: one line,
      with no white space at either end. */
  ghost predicate Field(f: string)
  {
    '\n' !in f && TrimSpace(f) == f
  }

  /** Lines that start with the fields give back exactly those fields. */
  lemma CredentialOfFieldLines(profile: string, fields: seq<string>, lines: seq<string>)
    requires Known(profile) && |fields| == LinesNeeded(profile) && |lines| >= |fields|
    requires forall k :: 0 <= k < |fields| ==> Field(fields[k]) && lines[k] == fields[k]
    ensures CredentialOfLines(profile, lines) == Ok(UserCredential(
              fields[0], fields[1], if profile == Dev then fields[3] else "", fields[2]))
  {
    assert Field(fields[0]) && Field(fields[1]) && Field(fields[2]);
    if profile == Dev {
      assert Field(fields[3]);
    }
  }

  /** A file whose trimmed text is the fields, one per line, followed by any
      further lines, reads back as exactly those fields. */
  lemma ReadCredentialsOfFields(profile: string, fields: seq<string>, extra: seq<string>, content: string)
    requires Known(profile) && |fields| == LinesNeeded(profile)
    requires forall k :: 0 <= k < |fields| ==> Field(fields[k])
    requires forall k :: 0 <= k < |extra| ==> '\n' !in extra[k]
    requires TrimSpace(content) == Join(fields + extra, "\n")
    ensures ReadCredentials(profile, Ok(content)) == Ok(UserCredential(
              fields[0], fields[1], if profile == Dev then fields[3] else "", fields[2]))
  {
    var all := fields + extra;
    assert Split(TrimSpace(content), "\n") == all by {
      forall k | 0 <= k < |all|
        ensures '\n' !in all[k]
      {
        if k < |fields| {
          assert all[k] == fields[k];
        } else {
          assert all[k] == extra[k - |fields|];
        }
      }
      JoinSplitRoundTrip(all, '\n');
    }
    assert ReadCredentials(profile, Ok(content)) == CredentialOfLines(profile, all);
    CredentialOfFieldLines(profile, fields, all);
  }
}
