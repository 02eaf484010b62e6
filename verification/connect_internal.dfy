/** Connect of the internal implementation, the one the command line runs:
    read the profile's credentials, probe the status, leave a connection to
    the same profile alone, otherwise disconnect, fill the placeholders of
    the profile's file with the credentials, feed the result to `vpn connect
    -s` and, if it exits cleanly, record the profile and launch the GUI. */
module InternalConnect {
  import opened Base
  import opened Strs
  import opened Model
  import opened Process
  import opened Profiles
  import opened Session

  const UsernameSlot := "{{USERNAME}}"
  const PasswordSlot := "{{PASSWORD}}"
  const YSlot := "{{Y}}"
  const Y2Slot := "{{Y2}}"

  /** Everything the attempt observes from its environment. The script
      template is read from the profile's path below the account's home
      directory, the credentials from the same names below $HOME: the same
      file whenever $HOME is the account's home directory. */
  datatype InternalEnv = InternalEnv(
    account: Result<string>,     // the account lookup: its home directory, or the error
    credFile: Result<string>,    // reading the credential file for the fields
    status: string,              // what `vpn status` printed within its timeout
    lastLookup: Result<string>,  // the last-connected-profile lookup
    scriptFile: Result<string>,  // reading the same file again as the template
    launch: Launch)              // how `vpn connect` went

  /** The placeholders are replaced in turn, each everywhere in the text
      produced so far; the second password's only for `dev`. Text without a
      brace has no placeholder and passes through as is, so a credential
      file used as its own template is fed to the client unchanged. */
  function Substitute(profile: string, text: string, cred: UserCredential): (r: string)
    ensures '{' !in text ==> r == text
  {
    var s1 := ReplaceAll(text, UsernameSlot, cred.username);
    var s2 := ReplaceAll(s1, PasswordSlot, cred.password);
    var s3 := ReplaceAll(s2, YSlot, cred.yFlag);
    assert '{' !in text ==> s3 == text && ReplaceAll(s3, Y2Slot, cred.secondPassword) == text by {
      if '{' !in text {
        assert text + "" == text;
        ReplaceAllSkip(text, "", UsernameSlot, cred.username);
        ReplaceAllSkip(text, "", PasswordSlot, cred.password);
        ReplaceAllSkip(text, "", YSlot, cred.yFlag);
        ReplaceAllSkip(text, "", Y2Slot, cred.secondPassword);
      }
    }
    if profile == Dev then ReplaceAll(s3, Y2Slot, cred.secondPassword) else s3
  }

  /** The attempt once the credential file has been read to `creds`. The
      profile path lookup panics exactly for a known profile whose account
      lookup failed and gives "" exactly for an unknown profile
      (LookupProfilePath's contract), so those tests are written on the
      profile and the lookup. */
  function Attempt(profile: string, creds: Result<UserCredential>, env: InternalEnv): (run: Run)
    ensures run.stop == UnknownProfile <==> !Known(profile)
    ensures run.stop == HomeLookupPanic <==> Known(profile) && env.account.Err?
    ensures !Known(profile) || env.account.Err? ==> run.effects == []
    ensures run.stop.CredentialsUnreadable? <==> Known(profile) && env.account.Ok? && creds.Err?
    ensures run.stop.CredentialsUnreadable? ==> run.effects == [] && run.stop.msg == creds.msg
    ensures run.stop == AlreadyConnected <==>
              && Known(profile) && env.account.Ok? && creds.Ok?
              && LooksConnected(env.status) && LastProfile(env.lastLookup) == profile
    ensures run.stop == AlreadyConnected ==> run.effects == [ProbeStatus]
  {
    if !Known(profile) then Run([], UnknownProfile)
    else if env.account.Err? then Run([], HomeLookupPanic)
    else
      match creds
      case Err(msg) => Run([], CredentialsUnreadable(msg))
      case Ok(cred) =>
        var connected := LooksConnected(env.status);
        if connected && LastProfile(env.lastLookup) == profile then Run([ProbeStatus], AlreadyConnected)
        else
          var probed := [ProbeStatus] + (if connected then DisconnectEffects else []);
          match env.scriptFile
          case Err(msg) => Run(probed, ScriptUnreadable(msg))
          case Ok(template) =>
            match env.launch
            case SetupFailed(step) => Run(probed, SetupAborted(step))
            case Ran(exitOk, _) =>
              var spawned := probed + [Spawn(Target(profile), Substitute(profile, template, cred))];
              if !exitOk then Run(spawned, ExitedWithError)
              else Run(spawned + [Persist(profile), LaunchGui], Completed)
  }

  /** Connect: an unknown profile, a failed account lookup, or a credential
      file that cannot be read or has too few lines, ends the attempt before
      the status is probed. */
  function Connect(profile: string, env: InternalEnv): (run: Run)
    ensures run.stop == UnknownProfile <==> !Known(profile)
    ensures run.stop == HomeLookupPanic <==> Known(profile) && env.account.Err?
    ensures !Known(profile) || env.account.Err? ==> run.effects == []
    ensures run.stop.CredentialsUnreadable? <==>
              Known(profile) && env.account.Ok? && ReadCredentials(profile, env.credFile).Err?
    ensures run.stop.CredentialsUnreadable? ==>
              run.effects == [] && run.stop.msg == ReadCredentials(profile, env.credFile).msg
    ensures Known(profile) && env.account.Ok? && env.credFile.Err? ==>
              run == Run([], CredentialsUnreadable(env.credFile.msg))
  {
    Attempt(profile, ReadCredentials(profile, env.credFile), env)
  }

  // ---------------------------------------------------------------------------
  // Substitution
  // ---------------------------------------------------------------------------

  /** `dev` differs from `intra` only by the final replacement. */
  lemma DevAlsoFillsY2(text: string, cred: UserCredential)
    ensures Substitute(Dev, text, cred) == ReplaceAll(Substitute(Intra, text, cred), Y2Slot, cred.secondPassword)
  {
  }

  /** No placeholder spans a line break, so lines are filled in separately. */
  lemma SubstituteAcross(profile: string, a: string, b: string, cred: UserCredential)
    ensures Substitute(profile, a + "\n" + b, cred)
         == Substitute(profile, a, cred) + "\n" + Substitute(profile, b, cred)
  {
    var nl := '\n';
    assert nl !in UsernameSlot && nl !in PasswordSlot && nl !in YSlot && nl !in Y2Slot;
    var u, p, y, y2 := cred.username, cred.password, cred.yFlag, cred.secondPassword;
    ReplaceAllAcross(a, nl, b, UsernameSlot, u);
    var a1, b1 := ReplaceAll(a, UsernameSlot, u), ReplaceAll(b, UsernameSlot, u);
    ReplaceAllAcross(a1, nl, b1, PasswordSlot, p);
    var a2, b2 := ReplaceAll(a1, PasswordSlot, p), ReplaceAll(b1, PasswordSlot, p);
    ReplaceAllAcross(a2, nl, b2, YSlot, y);
    var a3, b3 := ReplaceAll(a2, YSlot, y), ReplaceAll(b2, YSlot, y);
    ReplaceAllAcross(a3, nl, b3, Y2Slot, y2);
  }

  /** The substitution of each line, in order. */
  function SubstituteLines(profile: string, lines: seq<string>, cred: UserCredential): (r: seq<string>)
    ensures |r| == |lines|
    ensures forall k :: 0 <= k < |lines| ==> r[k] == Substitute(profile, lines[k], cred)
  {
    if |lines| == 0 then []
    else [Substitute(profile, lines[0], cred)] + SubstituteLines(profile, lines[1..], cred)
  }

  lemma {:induction false} SubstituteByLine(profile: string, lines: seq<string>, cred: UserCredential)
    requires |lines| >= 1
    ensures Substitute(profile, Join(lines, "\n"), cred) == Join(SubstituteLines(profile, lines, cred), "\n")
  {
    if |lines| > 1 {
      var rest := lines[1..];
      JoinCons(lines[0], rest, "\n");
      assert lines == [lines[0]] + rest;
      SubstituteAcross(profile, lines[0], Join(rest, "\n"), cred);
      SubstituteByLine(profile, rest, cred);
      var out := SubstituteLines(profile, lines, cred);
      assert out == [out[0]] + SubstituteLines(profile, rest, cred);
      JoinCons(out[0], SubstituteLines(profile, rest, cred), "\n");
    }
  }

  lemma UsernameSlotFilled(profile: string, cred: UserCredential)
    requires '{' !in cred.username
    ensures Substitute(profile, UsernameSlot, cred) == cred.username
  {
    var u := cred.username;
    ReplaceAllAtMatch("", UsernameSlot, u);
    assert UsernameSlot + "" == UsernameSlot && u + "" == u;
    ReplaceAllSkip(u, "", PasswordSlot, cred.password);
    ReplaceAllSkip(u, "", YSlot, cred.yFlag);
    ReplaceAllSkip(u, "", Y2Slot, cred.secondPassword);
  }

  lemma PasswordSlotFilled(profile: string, cred: UserCredential)
    requires '{' !in cred.password
    ensures Substitute(profile, PasswordSlot, cred) == cred.password
  {
    var p := cred.password;
    assert PasswordSlot[2] == 'P' && UsernameSlot[2] == 'U';
    assert !HasPrefix(PasswordSlot, UsernameSlot);
    assert ReplaceAll(PasswordSlot, UsernameSlot, cred.username) == PasswordSlot;
    ReplaceAllAtMatch("", PasswordSlot, p);
    assert PasswordSlot + "" == PasswordSlot && p + "" == p;
    ReplaceAllSkip(p, "", YSlot, cred.yFlag);
    ReplaceAllSkip(p, "", Y2Slot, cred.secondPassword);
  }

  lemma YSlotFilled(profile: string, cred: UserCredential)
    requires '{' !in cred.yFlag
    ensures Substitute(profile, YSlot, cred) == cred.yFlag
  {
    var y := cred.yFlag;
    ReplaceAllAtMatch("", YSlot, y);
    assert YSlot + "" == YSlot && y + "" == y;
    ReplaceAllSkip(y, "", Y2Slot, cred.secondPassword);
  }

  /** `{{Y2}}` is not mistaken for `{{Y}}`; it is filled for `dev` and kept
      as it is for `intra`. */
  lemma Y2SlotFilled(profile: string, cred: UserCredential)
    requires '{' !in cred.secondPassword
    ensures Substitute(profile, Y2Slot, cred) == if profile == Dev then cred.secondPassword else Y2Slot
  {
    assert Y2Slot[3] == '2' && YSlot[3] == '}';
    assert !HasPrefix(Y2Slot, YSlot);
    assert Y2Slot[1..][1] == 'Y' && YSlot[1] == '{';
    assert !HasPrefix(Y2Slot[1..], YSlot);
    assert ReplaceAll(Y2Slot, YSlot, cred.yFlag) == Y2Slot;
    if profile == Dev {
      ReplaceAllAtMatch("", Y2Slot, cred.secondPassword);
      assert Y2Slot + "" == Y2Slot && cred.secondPassword + "" == cred.secondPassword;
    }
  }

  /** A template holding each placeholder on its own line becomes the
      credential, one field per line, as long as no field has a brace; for
      `intra` the second-password line stays a placeholder. */
  lemma SubstituteSlots(profile: string, cred: UserCredential)
    requires '{' !in cred.username && '{' !in cred.password
    requires '{' !in cred.yFlag && '{' !in cred.secondPassword
    ensures Substitute(profile, Join([UsernameSlot, PasswordSlot, YSlot, Y2Slot], "\n"), cred)
         == Join([cred.username, cred.password, cred.yFlag,
                  if profile == Dev then cred.secondPassword else Y2Slot], "\n")
  {
    var slots := [UsernameSlot, PasswordSlot, YSlot, Y2Slot];
    SubstituteByLine(profile, slots, cred);
    UsernameSlotFilled(profile, cred);
    PasswordSlotFilled(profile, cred);
    YSlotFilled(profile, cred);
    Y2SlotFilled(profile, cred);
    var out := SubstituteLines(profile, slots, cred);
    assert out == [cred.username, cred.password, cred.yFlag,
                   if profile == Dev then cred.secondPassword else Y2Slot];
  }

  // ---------------------------------------------------------------------------
  // Properties of one connect
  // ---------------------------------------------------------------------------

  /** `vpn disconnect` runs exactly when the profile path was found, the
      credentials were read and the client looks connected to some other profile, and then right after
      the probe. */
  lemma DisconnectsOnlyToSwitch(profile: string, creds: Result<UserCredential>, env: InternalEnv)
    ensures var run := Attempt(profile, creds, env);
      && (VpnDisconnect in run.effects <==>
            && Known(profile) && env.account.Ok? && creds.Ok?
            && LooksConnected(env.status) && LastProfile(env.lastLookup) != profile)
      && (VpnDisconnect in run.effects ==> run.effects[1..3] == DisconnectEffects)
  {
  }

  /** Unlike the cmd implementation, nothing is force-killed first. */
  lemma NeverForceKills(profile: string, creds: Result<UserCredential>, env: InternalEnv, pid: string)
    ensures ForceKill(pid) !in Attempt(profile, creds, env).effects
    ensures Settle !in Attempt(profile, creds, env).effects
  {
  }

  /** An attempt completes exactly when every read, every setup step and the
      subprocess itself succeed; only then, and last of all, is the profile
      recorded and the GUI launched. A failed exit stops short of both. */
  lemma CompletesExactly(profile: string, creds: Result<UserCredential>, env: InternalEnv)
    ensures var run := Attempt(profile, creds, env);
      && (run.stop == Completed <==>
            && Known(profile) && env.account.Ok? && creds.Ok?
            && !(LooksConnected(env.status) && LastProfile(env.lastLookup) == profile)
            && env.scriptFile.Ok? && env.launch.Ran? && env.launch.exitOk)
      && (run.stop == Completed ==>
            |run.effects| >= 2 && run.effects[|run.effects| - 2..] == [Persist(profile), LaunchGui])
      && (run.stop != Completed ==> Persist(profile) !in run.effects && LaunchGui !in run.effects)
  {
    var run := Attempt(profile, creds, env);
    if Known(profile) && env.account.Ok? && creds.Ok? && !(LooksConnected(env.status) && LastProfile(env.lastLookup) == profile)
       && env.scriptFile.Ok? && env.launch.Ran? {
      var probed := [ProbeStatus] + (if LooksConnected(env.status) then DisconnectEffects else []);
      var spawned := probed + [Spawn(Target(profile), Substitute(profile, env.scriptFile.value, creds.value))];
      if env.launch.exitOk {
        assert run.effects == spawned + [Persist(profile), LaunchGui];
        LastTwo(spawned, Persist(profile), LaunchGui);
      } else {
        assert run.effects == spawned;
        assert forall k :: 0 <= k < |spawned| ==> !spawned[k].Persist? && !spawned[k].LaunchGui?;
      }
    }
  }

  /** What `vpn connect` prints plays no part. */
  lemma OutputIgnored(profile: string, creds: Result<UserCredential>, env: InternalEnv,
                      exitOk: bool, out1: seq<string>, out2: seq<string>)
    ensures Attempt(profile, creds, env.(launch := Ran(exitOk, out1)))
         == Attempt(profile, creds, env.(launch := Ran(exitOk, out2)))
  {
  }

  /** With the credential file read twice to the same brace-free content, the
      script fed to the client is that content itself. */
  lemma ScriptIsCredentialFile(profile: string, env: InternalEnv, e: Effect)
    requires env.credFile.Ok? && env.scriptFile == env.credFile && '{' !in env.credFile.value
    requires e in Connect(profile, env).effects && e.Spawn?
    ensures e == Spawn(Target(profile), env.credFile.value)
  {
    var creds := ReadCredentials(profile, env.credFile);
    SpawnIsSubstitution(profile, creds, env, e);
  }

  /** What is spawned: the profile's target, fed the template filled with
      the credentials. */
  lemma SpawnIsSubstitution(profile: string, creds: Result<UserCredential>, env: InternalEnv, e: Effect)
    requires e in Attempt(profile, creds, env).effects && e.Spawn?
    ensures Known(profile) && env.account.Ok? && creds.Ok? && env.scriptFile.Ok? && env.launch.Ran?
    ensures e == Spawn(Target(profile), Substitute(profile, env.scriptFile.value, creds.value))
  {
  }
}
