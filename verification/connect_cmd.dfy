/** connectWithRetries of the cmd implementation: probe the status, leave a
    connection to the same profile alone, otherwise disconnect, force-kill
    the GUI, feed the login answers to `vpn connect -s` and, once it has
    exited, record the profile and launch the GUI. */
module CmdConnect {
  import opened Base
  import opened Strs
  import opened Model
  import opened Process
  import opened Profiles
  import opened Session

  /** Capacity of the channel on which the stdout reader hands over lines. */
  const StdoutBuffer := 100

  /** The client's message when another agent holds the connection. */
  const AgentLockMessage := "Connect capability is unavailable"

  /** Everything the attempt observes from its environment. */
  datatype CmdEnv = CmdEnv(
    account: Result<string>,         // the account lookup: its home directory, or the error
    status: string,                  // what `vpn status` printed within its timeout
    lastLookup: Result<string>,      // the last-connected-profile lookup
    ciscoPgrep: Result<string>,      // `pgrep -f "Cisco Secure Client"`
    killErrors: map<string, string>, // PIDs whose `kill -9` fails, and why
    launch: Launch)                  // how `vpn connect` went

  /** The answers `vpn connect -s` reads, in prompt order: username,
      password, the banner's Y flag and, for `dev` only, the push answer. */
  function ScriptFields(cred: LoginCredential, profile: string): seq<string>
  {
    [cred.username, cred.password, cred.yFlag] + (if profile == Dev then [cred.push] else [])
  }

  /** The script written to the temporary stdin file, every answer ended by
      a newline: the answers joined by newlines, with an empty last piece. */
  function BuildScript(cred: LoginCredential, profile: string): (r: string)
    ensures r == Join(ScriptFields(cred, profile) + [""], "\n")
  {
    var nl := "\n";
    var u, p, y, q := cred.username, cred.password, cred.yFlag, cred.push;
    if profile == Dev then
      Join4(p, y, q, "", nl);
      JoinCons(u, [p, y, q, ""], nl);
      assert ScriptFields(cred, profile) + [""] == [u] + [p, y, q, ""];
      u + nl + p + nl + y + nl + q + nl
    else
      Join4(u, p, y, "", nl);
      assert ScriptFields(cred, profile) + [""] == [u, p, y, ""];
      u + nl + p + nl + y + nl
  }

  /** The force-kills of KillCiscoProcesses, ending with the pause; what
      they report is only logged. */
  function Cleanup(ciscoPgrep: Result<string>): (effects: seq<Effect>)
    ensures |effects| >= 1 && effects[|effects| - 1] == Settle
    ensures forall k :: 0 <= k < |effects| ==> effects[k].ForceKill? || effects[k] == Settle
    ensures forall killErrors :: effects == KillCiscoProcesses(ciscoPgrep, killErrors).effects
  {
    ForceKills(if ciscoPgrep.Ok? then Fields(ciscoPgrep.value) else []) + [Settle]
  }

  /** The effects that come before no further step can change them. */
  ghost predicate Preparatory(e: Effect)
  {
    e.ProbeStatus? || e.VpnDisconnect? || e.PkillGui? || e.ForceKill? || e.Settle?
  }

  /** What precedes the spawn: the probe, a disconnect when the client looks
      connected, then the force-kills and the pause. */
  function Setup(connected: bool, ciscoPgrep: Result<string>): (effects: seq<Effect>)
    ensures |effects| >= 2 && effects[0] == ProbeStatus && effects[|effects| - 1] == Settle
    ensures forall k :: 0 <= k < |effects| ==> Preparatory(effects[k])
    ensures VpnDisconnect in effects <==> connected
    ensures connected ==> effects[1..3] == DisconnectEffects
  {
    var kill := Cleanup(ciscoPgrep);
    var front := if connected then [ProbeStatus, VpnDisconnect, PkillGui] else [ProbeStatus];
    SetupShape(connected, front, kill);
    front + kill
  }

  /** The probe (and disconnect) in front of the force-kills and pause. */
  lemma SetupShape(connected: bool, front: seq<Effect>, kill: seq<Effect>)
    requires front == if connected then [ProbeStatus, VpnDisconnect, PkillGui] else [ProbeStatus]
    requires |kill| >= 1 && kill[|kill| - 1] == Settle
    requires forall k :: 0 <= k < |kill| ==> kill[k].ForceKill? || kill[k] == Settle
    ensures var effects := front + kill;
      && |effects| >= 2 && effects[0] == ProbeStatus && effects[|effects| - 1] == Settle
      && (forall k :: 0 <= k < |effects| ==> Preparatory(effects[k]))
      && (VpnDisconnect in effects <==> connected)
      && (connected ==> effects[1..3] == DisconnectEffects)
  {
    var effects := front + kill;
    assert VpnDisconnect !in kill;
    forall k | 0 <= k < |effects|
      ensures Preparatory(effects[k])
    {
      if k >= |front| {
        assert effects[k] == kill[k - |front|];
      }
    }
    assert effects[|effects| - 1] == kill[|kill| - 1];
  }

  /** Whether some stdout line reports the agent lock. */
  function LockReported(lines: seq<string>): (reported: bool)
    ensures reported <==> exists k :: 0 <= k < |lines| && Contains(lines[k], AgentLockMessage)
  {
    if |lines| == 0 then false
    else
      assert forall k :: 1 <= k < |lines| ==> lines[k] == lines[1..][k - 1];
      Contains(lines[0], AgentLockMessage) || LockReported(lines[1..])
  }

  /** One attempt. With `buffered`, stdout lines pass through the bounded
      channel that is only read after the subprocess has exited and the
      reader has finished: a reader left holding more lines than the
      channel takes blocks forever, and the attempt with it. The profile
      path lookup panics exactly for a known profile whose account lookup
      failed and gives "" exactly for an unknown profile (LookupProfilePath's
      contract), so those tests are written on the profile and the lookup. */
  function Attempt(cred: LoginCredential, profile: string, env: CmdEnv, buffered: bool): (run: Run)
    ensures run.stop == UnknownProfile <==> !Known(profile)
    ensures run.stop == HomeLookupPanic <==> Known(profile) && env.account.Err?
    ensures !Known(profile) || env.account.Err? ==> run.effects == []
    ensures Known(profile) && env.account.Ok? ==> |run.effects| >= 1 && run.effects[0] == ProbeStatus
  {
    if !Known(profile) then Run([], UnknownProfile)
    else if env.account.Err? then Run([], HomeLookupPanic)
    else
      var connected := LooksConnected(env.status);
      if connected && LastProfile(env.lastLookup) == profile then Run([ProbeStatus], AlreadyConnected)
      else
        var setup := Setup(connected, env.ciscoPgrep);
        match env.launch
        case SetupFailed(step) => Run(setup, SetupAborted(step))
        case Ran(_, stdout) =>
          var spawned := setup + [Spawn(Target(profile), BuildScript(cred, profile))];
          if buffered && |stdout| > StdoutBuffer then Run(spawned, OutputStalled)
          else
            var warning := if LockReported(stdout) then [WarnAgentLock] else [];
            Run(spawned + warning + [Persist(profile), LaunchGui], Completed)
  }

  /** connectWithRetries as written. Its retry branch needs a flag that is
      only ever set to false, so there is exactly one attempt. */
  function ConnectWithRetries(cred: LoginCredential, profile: string, env: CmdEnv): (run: Run)
    ensures run.stop == UnknownProfile <==> !Known(profile)
    ensures run.stop == HomeLookupPanic <==> Known(profile) && env.account.Err?
    ensures !Known(profile) || env.account.Err? ==> run.effects == []
    ensures run.stop == AlreadyConnected <==>
              Known(profile) && env.account.Ok? && LooksConnected(env.status) && LastProfile(env.lastLookup) == profile
    ensures run.stop == AlreadyConnected ==> run.effects == [ProbeStatus]
  {
    Attempt(cred, profile, env, true)
  }

  /** The attempt with the stdout reader drained while the subprocess runs,
      so that no number of output lines can block it. */
  function ConnectDrained(cred: LoginCredential, profile: string, env: CmdEnv): (run: Run)
    ensures run.stop != OutputStalled
  {
    Attempt(cred, profile, env, false)
  }

  // ---------------------------------------------------------------------------
  // The script
  // ---------------------------------------------------------------------------

  /** Read back line by line, the script gives each answer on its own line,
      followed by the empty remainder after the final newline. */
  lemma ScriptLines(cred: LoginCredential, profile: string)
    requires forall k :: 0 <= k < |ScriptFields(cred, profile)| ==> '\n' !in ScriptFields(cred, profile)[k]
    ensures Split(BuildScript(cred, profile), "\n") == ScriptFields(cred, profile) + [""]
  {
    var all := ScriptFields(cred, profile) + [""];
    assert forall k :: 0 <= k < |all| ==> '\n' !in all[k];
    JoinSplitRoundTrip(all, '\n');
  }

  // ---------------------------------------------------------------------------
  // Properties of one connect
  // ---------------------------------------------------------------------------

  /** The status test is a substring test, so a client reporting "Not
      Connected" still counts as connected: with the same profile on record,
      the connect is abandoned after the probe. */
  lemma NotConnectedAbandons(cred: LoginCredential, profile: string, env: CmdEnv)
    requires Known(profile) && env.account.Ok? && env.status == "Not Connected" && env.lastLookup == Ok(profile)
    ensures ConnectWithRetries(cred, profile, env) == Run([ProbeStatus], AlreadyConnected)
  {
    NotConnectedLooksConnected();
  }

  /** `vpn disconnect` runs exactly when the profile path was found and the
      client looks connected to some other profile than the one asked for,
      and then right after the probe. */
  lemma DisconnectsOnlyToSwitch(cred: LoginCredential, profile: string, env: CmdEnv)
    ensures var run := ConnectWithRetries(cred, profile, env);
      && (VpnDisconnect in run.effects <==>
            && Known(profile) && env.account.Ok?
            && LooksConnected(env.status) && LastProfile(env.lastLookup) != profile)
      && (VpnDisconnect in run.effects ==> run.effects[1..3] == DisconnectEffects)
  {
    var setup := Setup(LooksConnected(env.status), env.ciscoPgrep);
  }

  /** `vpn connect` starts at most once. */
  lemma SpawnsOnce(cred: LoginCredential, profile: string, env: CmdEnv)
    ensures AtMostOneSpawn(ConnectWithRetries(cred, profile, env).effects)
  {
    var run := ConnectWithRetries(cred, profile, env);
    if Known(profile) && env.account.Ok? && !(LooksConnected(env.status) && LastProfile(env.lastLookup) == profile) {
      var setup := Setup(LooksConnected(env.status), env.ciscoPgrep);
      assert NoSpawn(setup);
      match env.launch {
        case SetupFailed(_) =>
        case Ran(_, stdout) =>
          var spawned := setup + [Spawn(Target(profile), BuildScript(cred, profile))];
          OneSpawnLast(setup, Spawn(Target(profile), BuildScript(cred, profile)));
          if |stdout| <= StdoutBuffer {
            var warning := if LockReported(stdout) then [WarnAgentLock] else [];
            AtMostOneSpawnAppend(spawned, warning);
            AtMostOneSpawnAppend(spawned + warning, [Persist(profile), LaunchGui]);
          }
      }
    }
  }

  /** `vpn connect` starts only after the force-kills and the pause that
      follows them. */
  lemma SpawnsAfterCleanup(cred: LoginCredential, profile: string, env: CmdEnv, i: int)
    requires 0 <= i < |ConnectWithRetries(cred, profile, env).effects|
    requires ConnectWithRetries(cred, profile, env).effects[i].Spawn?
    ensures Settle in ConnectWithRetries(cred, profile, env).effects[..i]
  {
    var run := ConnectWithRetries(cred, profile, env);
    var setup := Setup(LooksConnected(env.status), env.ciscoPgrep);
    assert NoSpawn(setup);
    assert run.effects[..|setup|] == setup;
  }

  /** What is spawned: the profile's connection target, with the login
      answers as its script. */
  lemma SpawnCarriesProfile(cred: LoginCredential, profile: string, env: CmdEnv, e: Effect)
    requires e in ConnectWithRetries(cred, profile, env).effects && e.Spawn?
    ensures Known(profile) && env.account.Ok? && env.launch.Ran?
    ensures e == Spawn(Target(profile), BuildScript(cred, profile))
  {
    var setup := Setup(LooksConnected(env.status), env.ciscoPgrep);
    NotPreparatory(setup, e);
    assert Known(profile) && env.account.Ok? && !(LooksConnected(env.status) && LastProfile(env.lastLookup) == profile);
    assert env.launch.Ran?;
  }

  /** A failed kill is only logged: the attempt runs exactly as if every
      kill had succeeded. */
  lemma KillFailuresIgnored(cred: LoginCredential, profile: string, env: CmdEnv, killErrors: map<string, string>)
    ensures ConnectWithRetries(cred, profile, env.(killErrors := killErrors))
         == ConnectWithRetries(cred, profile, env)
  {
  }

  /** The exit status of `vpn connect` is only logged as well. */
  lemma ExitStatusIgnored(cred: LoginCredential, profile: string, env: CmdEnv, stdout: seq<string>)
    ensures ConnectWithRetries(cred, profile, env.(launch := Ran(false, stdout)))
         == ConnectWithRetries(cred, profile, env.(launch := Ran(true, stdout)))
  {
  }

  /** An attempt completes exactly when the profile path was found, the
      client is not already on the profile, the subprocess started and it printed no more lines
      than the channel holds; only then, and last of all, is the profile
      recorded and the GUI launched. */
  lemma CompletesExactly(cred: LoginCredential, profile: string, env: CmdEnv)
    ensures var run := ConnectWithRetries(cred, profile, env);
      && (run.stop == Completed <==>
            && Known(profile) && env.account.Ok?
            && !(LooksConnected(env.status) && LastProfile(env.lastLookup) == profile)
            && env.launch.Ran? && |env.launch.stdout| <= StdoutBuffer)
      && (run.stop == Completed ==>
            |run.effects| >= 2 && run.effects[|run.effects| - 2..] == [Persist(profile), LaunchGui])
      && (run.stop != Completed ==> Persist(profile) !in run.effects && LaunchGui !in run.effects)
  {
    var run := ConnectWithRetries(cred, profile, env);
    if Known(profile) && env.account.Ok? && !(LooksConnected(env.status) && LastProfile(env.lastLookup) == profile) {
      var setup := Setup(LooksConnected(env.status), env.ciscoPgrep);
      NotPreparatory(setup, Persist(profile));
      NotPreparatory(setup, LaunchGui);
      match env.launch {
        case SetupFailed(_) =>
        case Ran(_, stdout) =>
          var spawned := setup + [Spawn(Target(profile), BuildScript(cred, profile))];
          if |stdout| <= StdoutBuffer {
            var warning := if LockReported(stdout) then [WarnAgentLock] else [];
            LastTwo(spawned + warning, Persist(profile), LaunchGui);
          }
      }
    }
  }

  /** An effect that is not preparatory is not among the setup effects. */
  lemma NotPreparatory(setup: seq<Effect>, e: Effect)
    requires forall k :: 0 <= k < |setup| ==> Preparatory(setup[k])
    requires !Preparatory(e)
    ensures e !in setup
  {
    forall k | 0 <= k < |setup|
      ensures setup[k] != e
    {
      assert Preparatory(setup[k]);
    }
  }

  /** The agent lock only adds a warning: it is given exactly when a
      completed attempt's output reported the lock, and it stops nothing. */
  lemma LockOnlyWarns(cred: LoginCredential, profile: string, env: CmdEnv)
    ensures var run := ConnectWithRetries(cred, profile, env);
      WarnAgentLock in run.effects <==>
        run.stop == Completed && env.launch.Ran? && LockReported(env.launch.stdout)
  {
    var setup := Setup(LooksConnected(env.status), env.ciscoPgrep);
  }

  // ---------------------------------------------------------------------------
  // The stdout channel
  // ---------------------------------------------------------------------------

  /** As written, a `vpn connect` that prints more lines than the channel
      holds never gets its profile recorded or its GUI launched. */
  lemma LongOutputStalls(cred: LoginCredential, profile: string, env: CmdEnv)
    requires Known(profile) && env.account.Ok? && !LooksConnected(env.status)
    requires env.launch.Ran? && |env.launch.stdout| == StdoutBuffer + 1
    ensures ConnectWithRetries(cred, profile, env).stop == OutputStalled
    ensures Persist(profile) !in ConnectWithRetries(cred, profile, env).effects
  {
    CompletesExactly(cred, profile, env);
  }

  /** Drained, the attempt completes whenever `vpn connect` ran, however
      much it printed, and it behaves as written whenever the output fits. */
  lemma DrainedCompletes(cred: LoginCredential, profile: string, env: CmdEnv)
    ensures var run := ConnectDrained(cred, profile, env);
      Known(profile) && env.account.Ok? && !(LooksConnected(env.status) && LastProfile(env.lastLookup) == profile)
        && env.launch.Ran? ==>
      run.stop == Completed && run.effects[|run.effects| - 2..] == [Persist(profile), LaunchGui]
    ensures !env.launch.Ran? || |env.launch.stdout| <= StdoutBuffer ==>
      ConnectDrained(cred, profile, env) == ConnectWithRetries(cred, profile, env)
  {
  }
}
