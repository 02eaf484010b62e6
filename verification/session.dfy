/** What the two connect implementations share: how the `vpn connect`
    subprocess went, why a connect attempt ended, and the status test. */
module Session {
  import opened Base
  import opened Strs
  import opened Process

  /** The preparation steps between building the script and a running
      `vpn connect`, each of which can fail and end the attempt. */
  datatype SetupStep =
    | CreateTemp     // create the temporary script file
    | WriteTemp      // write the script into it
    | OpenTemp       // reopen it as the subprocess's stdin
    | StdoutPipe     // attach the stdout pipe
    | StderrPipe     // attach the stderr pipe
    | StartCommand   // start the subprocess

  /** How `vpn connect` went: a setup step failed, or it ran, exited
      (successfully or not) and printed `stdout`, line by line. */
  datatype Launch =
    | SetupFailed(step: SetupStep)
    | Ran(exitOk: bool, stdout: seq<string>)

  /** Why a connect attempt ended. */
  datatype Stop =
    | UnknownProfile                   // the profile has no credential path
    | HomeLookupPanic                  // the failed account lookup's home directory read
    | CredentialsUnreadable(msg: string)
    | AlreadyConnected                 // connected, and to this very profile
    | ScriptUnreadable(msg: string)
    | SetupAborted(step: SetupStep)
    | ExitedWithError                  // `vpn connect` exited with an error
    | OutputStalled                    // blocked handing over stdout lines
    | Completed                        // profile recorded and GUI launched

  datatype Run = Run(effects: seq<Effect>, stop: Stop)

  /** The status output is searched for this text, as a plain substring. */
  const ConnectedMarker := "Connected"

  /** Connected, as both implementations decide it. */
  predicate LooksConnected(status: string)
    ensures LooksConnected(status) <==> exists i :: OccursAt(status, ConnectedMarker, i)
  {
    ContainsIffOccurs(status, ConnectedMarker);
    Contains(status, ConnectedMarker)
  }

  /** The substring test cannot tell "Not Connected" from "Connected". */
  lemma NotConnectedLooksConnected()
    ensures LooksConnected("Not Connected")
  {
    ContainsInfix("Not ", ConnectedMarker, "");
    assert "Not " + ConnectedMarker + "" == "Not Connected";
  }

  /** The last-connected profile as the lookup returns it: the empty string
      when the lookup fails. */
  function LastProfile(lookup: Result<string>): (last: string)
    ensures lookup.Ok? ==> last == lookup.value
    ensures lookup.Err? ==> last == ""
  {
    if lookup.Ok? then lookup.value else ""
  }

  ghost predicate NoSpawn(effects: seq<Effect>)
  {
    forall k :: 0 <= k < |effects| ==> !effects[k].Spawn?
  }

  /** No two effects of a run start `vpn connect`. */
  ghost predicate AtMostOneSpawn(effects: seq<Effect>)
  {
    forall i, j :: 0 <= i < j < |effects| ==> !(effects[i].Spawn? && effects[j].Spawn?)
  }

  /** A spawn after a spawn-free prefix is the only one. */
  lemma OneSpawnLast(before: seq<Effect>, spawn: Effect)
    requires NoSpawn(before)
    ensures AtMostOneSpawn(before + [spawn])
  {
    var all := before + [spawn];
    forall i, j | 0 <= i < j < |all|
      ensures !(all[i].Spawn? && all[j].Spawn?)
    {
      assert all[i] == before[i];
    }
  }

  /** Spawn-free effects appended after a run keep it at one spawn. */
  lemma AtMostOneSpawnAppend(run: seq<Effect>, after: seq<Effect>)
    requires AtMostOneSpawn(run) && NoSpawn(after)
    ensures AtMostOneSpawn(run + after)
  {
    var all := run + after;
    forall i, j | 0 <= i < j < |all|
      ensures !(all[i].Spawn? && all[j].Spawn?)
    {
      if j < |run| {
        assert all[i] == run[i] && all[j] == run[j];
      } else {
        assert all[j] == after[j - |run|];
      }
    }
  }
}
