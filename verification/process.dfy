/** Process handling shared by both command implementations: finding the VPN
    processes with `pgrep`, interrupting them, and force-killing the Cisco
    GUI. Commands that are run become effects; what they print or how they
    fail becomes a parameter. */
module Process {
  import opened Base
  import opened Strs
  import Strconv

  /** The GUI's process name, used by `pkill -x` and `pgrep -f`. */
  const GuiProcess := "Cisco Secure Client"
  /** The agent daemon that the cmd disconnect leaves running. */
  const AgentDaemon := "vpnagentd"

  /** One externally visible action, in the order it happens. */
  datatype Effect =
    | ProbeStatus                            // `vpn status` under a 5-second timeout
    | VpnDisconnect                          // `vpn disconnect`
    | PkillGui                               // `pkill -x "Cisco Secure Client"`
    | Interrupt(pid: int)                    // SIGINT to one process
    | ForceKill(pidText: string)             // `kill -9 <pid>`
    | Settle                                 // the two-second pause after force-killing
    | Spawn(target: string, script: string)  // `vpn connect <target> -s`, script on stdin
    | WarnAgentLock                          // advice to restart the client by hand
    | Persist(profile: string)               // record the profile as last connected
    | LaunchGui                              // `open <gui app>`

  // ---------------------------------------------------------------------------
  // getPIDs
  // ---------------------------------------------------------------------------

  /** A `pgrep` line that names the process `pid`. */
  ghost predicate ParsesTo(line: string, pid: int)
  {
    line != "" && Strconv.Atoi(line).err.None? && Strconv.Atoi(line).value == pid
  }

  /** The lines that are integers, in order; empty and unparsable lines are
      skipped. */
  function PidsOf(lines: seq<string>): (pids: seq<int>)
    ensures |pids| <= |lines|
  {
    if |lines| == 0 then []
    else
      var line := lines[0];
      var here := if line != "" && Strconv.Atoi(line).err.None? then [Strconv.Atoi(line).value] else [];
      here + PidsOf(lines[1..])
  }

  /** getPIDs: the PIDs among the lines of the trimmed `pgrep -f` output, or
      `pgrep`'s own error (which is also what no match at all looks like,
      since `pgrep` then exits with status 1). */
  function GetPIDs(pgrep: Result<string>): (r: Result<seq<int>>)
    ensures pgrep.Err? ==> r == Err(pgrep.msg)
    ensures pgrep.Ok? ==> r.Ok?
  {
    match pgrep
    case Err(e) => Err(e)
    case Ok(out) => Ok(PidsOf(Split(TrimSpace(out), "\n")))
  }

  /** Parsing distributes over the lines: the PIDs keep input order. */
  lemma {:induction false} PidsOfAppend(a: seq<string>, b: seq<string>)
    ensures PidsOf(a + b) == PidsOf(a) + PidsOf(b)
    decreases |a|
  {
    if |a| == 0 {
      assert a + b == b;
    } else {
      assert (a + b)[1..] == a[1..] + b;
      PidsOfAppend(a[1..], b);
    }
  }

  /** A PID is reported exactly when some line parses to it. */
  lemma {:induction false} PidsOfMembers(lines: seq<string>, pid: int)
    ensures pid in PidsOf(lines) <==> exists k :: 0 <= k < |lines| && ParsesTo(lines[k], pid)
    decreases |lines|
  {
    if |lines| > 0 {
      PidsOfMembers(lines[1..], pid);
      if exists k :: 0 <= k < |lines[1..]| && ParsesTo(lines[1..][k], pid) {
        var k :| 0 <= k < |lines[1..]| && ParsesTo(lines[1..][k], pid);
        assert ParsesTo(lines[k + 1], pid);
      }
      if exists k :: 0 <= k < |lines| && ParsesTo(lines[k], pid) {
        var k :| 0 <= k < |lines| && ParsesTo(lines[k], pid);
        if k > 0 {
          assert ParsesTo(lines[1..][k - 1], pid);
        }
      }
    }
  }

  // ---------------------------------------------------------------------------
  // Disconnecting and killing
  // ---------------------------------------------------------------------------

  /** `vpn disconnect` and then `pkill` of the GUI, both with their outcome
      ignored. */
  const DisconnectEffects: seq<Effect> := [VpnDisconnect, PkillGui]

  /** An interrupt for every PID, in order; os.FindProcess cannot fail on
      Unix and a failed signal is only logged, so none is skipped. */
  function InterruptAll(pids: seq<int>): (effects: seq<Effect>)
    ensures |effects| == |pids|
    ensures forall k :: 0 <= k < |pids| ==> effects[k] == Interrupt(pids[k])
  {
    if |pids| == 0 then [] else [Interrupt(pids[0])] + InterruptAll(pids[1..])
  }

  /** The cmd disconnect interrupts a process when `ps` could describe it
      (`cmdlines` holds `ps -p <pid> -o command=` output for exactly those
      PIDs) and the trimmed description does not mention the agent daemon. */
  predicate Interruptible(pid: int, cmdlines: map<int, string>)
  {
    pid in cmdlines && !Contains(TrimSpace(cmdlines[pid]), AgentDaemon)
  }

  function SignalNonDaemon(pids: seq<int>, cmdlines: map<int, string>): (effects: seq<Effect>)
    ensures |effects| <= |pids|
    ensures forall k :: 0 <= k < |effects| ==>
              effects[k].Interrupt? && Interruptible(effects[k].pid, cmdlines)
  {
    if |pids| == 0 then []
    else
      var here := if Interruptible(pids[0], cmdlines) then [Interrupt(pids[0])] else [];
      here + SignalNonDaemon(pids[1..], cmdlines)
  }

  /** Every PID that passes the filter is interrupted, whatever happened to
      the PIDs before it. */
  lemma {:induction false} SignalNonDaemonComplete(pids: seq<int>, cmdlines: map<int, string>, pid: int)
    ensures Interrupt(pid) in SignalNonDaemon(pids, cmdlines) <==> pid in pids && Interruptible(pid, cmdlines)
    decreases |pids|
  {
    if |pids| > 0 {
      SignalNonDaemonComplete(pids[1..], cmdlines, pid);
      assert pids == [pids[0]] + pids[1..];
    }
  }

  /** cmd DisconnectWithKillPid: disconnect, then interrupt every `vpn`
      process except the agent daemon and those `ps` cannot describe. */
  function DisconnectWithKillPidCmd(pgrep: Result<string>, cmdlines: map<int, string>): (effects: seq<Effect>)
    ensures |effects| >= 2 && effects[..2] == DisconnectEffects
    ensures forall k :: 2 <= k < |effects| ==>
              effects[k].Interrupt? && Interruptible(effects[k].pid, cmdlines)
    ensures pgrep.Err? ==> effects == DisconnectEffects
    ensures GetPIDs(pgrep).Ok? ==> effects[2..] == SignalNonDaemon(GetPIDs(pgrep).value, cmdlines)
    ensures forall pid :: Interrupt(pid) in effects <==>
              GetPIDs(pgrep).Ok? && pid in GetPIDs(pgrep).value && Interruptible(pid, cmdlines)
  {
    match GetPIDs(pgrep)
    case Err(_) => DisconnectEffects
    case Ok(pids) =>
      var signalled := SignalNonDaemon(pids, cmdlines);
      assert forall pid :: Interrupt(pid) in signalled <==> pid in pids && Interruptible(pid, cmdlines) by {
        forall pid
          ensures Interrupt(pid) in signalled <==> pid in pids && Interruptible(pid, cmdlines)
        {
          SignalNonDaemonComplete(pids, cmdlines, pid);
        }
      }
      DisconnectEffects + signalled
  }

  /** internal DisconnectWithKillPid: disconnect, then interrupt every PID
      `pgrep -f vpn` reports, the agent daemon included. */
  function DisconnectWithKillPidInternal(pgrep: Result<string>): (effects: seq<Effect>)
    ensures |effects| >= 2 && effects[..2] == DisconnectEffects
    ensures pgrep.Err? ==> effects == DisconnectEffects
    ensures GetPIDs(pgrep).Ok? ==> effects[2..] == InterruptAll(GetPIDs(pgrep).value)
  {
    DisconnectEffects +
      match GetPIDs(pgrep)
      case Err(_) => []
      case Ok(pids) => InterruptAll(pids)
  }

  /** KillGUI (both versions): `pkill` the GUI, then interrupt every PID
      `pgrep -f vpn` reports. */
  function KillGui(pgrep: Result<string>): (effects: seq<Effect>)
    ensures |effects| >= 1 && effects[0] == PkillGui
    ensures pgrep.Err? ==> effects == [PkillGui]
    ensures forall pid :: Interrupt(pid) in effects <==> GetPIDs(pgrep).Ok? && pid in GetPIDs(pgrep).value
  {
    [PkillGui] +
      match GetPIDs(pgrep)
      case Err(_) => []
      case Ok(pids) => InterruptAll(pids)
  }

  /** The two disconnects differ exactly on the agent daemon: a PID whose
      command line names it is spared by the cmd version and interrupted by
      the internal one. */
  lemma DaemonSparedOnlyByCmd(pgrep: Result<string>, cmdlines: map<int, string>, pid: int)
    requires GetPIDs(pgrep).Ok? && pid in GetPIDs(pgrep).value
    requires pid in cmdlines && Contains(TrimSpace(cmdlines[pid]), AgentDaemon)
    ensures Interrupt(pid) !in DisconnectWithKillPidCmd(pgrep, cmdlines)
    ensures Interrupt(pid) in DisconnectWithKillPidInternal(pgrep)
  {
    var pids := GetPIDs(pgrep).value;
    var k :| 0 <= k < |pids| && pids[k] == pid;
    assert DisconnectWithKillPidInternal(pgrep)[2 + k] == Interrupt(pid);
  }

  // ---------------------------------------------------------------------------
  // KillCiscoProcesses
  // ---------------------------------------------------------------------------

  /** What KillCiscoProcesses did, and the error it returns. */
  datatype KillReport = KillReport(effects: seq<Effect>, err: Option<string>)

  const KillHeader := "not all processes could be killed:\n"

  /** The message recorded when `kill -9 <pid>` fails. */
  function KillFailure(pid: string, reason: string): string
  {
    "failed to kill PID " + pid + " for " + GuiProcess + ": " + reason
  }

  function ForceKills(pids: seq<string>): (effects: seq<Effect>)
    ensures |effects| == |pids|
    ensures forall k :: 0 <= k < |pids| ==> effects[k] == ForceKill(pids[k])
  {
    if |pids| == 0 then [] else [ForceKill(pids[0])] + ForceKills(pids[1..])
  }

  /** The failure messages, in PID order; `killErrors` maps each PID whose
      kill fails to the reason. */
  function Failures(pids: seq<string>, killErrors: map<string, string>): (msgs: seq<string>)
    ensures |msgs| == 0 <==> forall k :: 0 <= k < |pids| ==> pids[k] !in killErrors
    ensures forall k :: 0 <= k < |pids| && pids[k] in killErrors ==>
              KillFailure(pids[k], killErrors[pids[k]]) in msgs
  {
    if |pids| == 0 then []
    else
      var rest := Failures(pids[1..], killErrors);
      assert forall k :: 1 <= k < |pids| ==> pids[k] == pids[1..][k - 1];
      (if pids[0] in killErrors then [KillFailure(pids[0], killErrors[pids[0]])] else []) + rest
  }

  /** KillCiscoProcesses: `kill -9` every PID `pgrep -f "Cisco Secure
      Client"` prints, pause, and report every failure in one error. A
      `pgrep` failure (including "no such process") only skips the kills. */
  function KillCiscoProcesses(pgrep: Result<string>, killErrors: map<string, string>): (r: KillReport)
    ensures var pids := if pgrep.Ok? then Fields(pgrep.value) else [];
      && r.effects == ForceKills(pids) + [Settle]
      && (r.err.None? <==> forall k :: 0 <= k < |pids| ==> pids[k] !in killErrors)
      && (r.err.Some? ==> HasPrefix(r.err.value, KillHeader))
      && (forall k :: 0 <= k < |pids| && pids[k] in killErrors ==>
            Contains(r.err.value, KillFailure(pids[k], killErrors[pids[k]])))
  {
    var pids := if pgrep.Ok? then Fields(pgrep.value) else [];
    var msgs := Failures(pids, killErrors);
    var err := if |msgs| > 0 then Some(KillHeader + Join(msgs, "\n")) else None;
    assert forall k :: 0 <= k < |pids| && pids[k] in killErrors ==>
             Contains(err.value, KillFailure(pids[k], killErrors[pids[k]])) by {
      forall k | 0 <= k < |pids| && pids[k] in killErrors
        ensures Contains(err.value, KillFailure(pids[k], killErrors[pids[k]]))
      {
        var m := KillFailure(pids[k], killErrors[pids[k]]);
        var i :| 0 <= i < |msgs| && msgs[i] == m;
        JoinContainsEach(msgs, "\n", i);
        ContainsWithin(KillHeader, Join(msgs, "\n"), "", m);
        assert KillHeader + Join(msgs, "\n") + "" == err.value;
      }
    }
    KillReport(ForceKills(pids) + [Settle], err)
  }
}
