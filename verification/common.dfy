/** Values shared by every operation: the remote command result, the actions an
    operation performs against remote hosts, and the Python-level outcomes. */
module Common {

  /** The conventional Some/None datatype; None plays Python's None. */
  datatype Option<+T> = None | Some(value: T)

  /** What a Python call ends with when it can also raise: a returned value,
      a returned None, or an exception that escapes to the caller. */
  datatype Outcome<+T> = Returned(value: T) | ReturnedNone | Raised

  /** The triple every remote execution yields: exit status, standard output
      and standard error. Status 0 means success. */
  datatype CmdResult = CmdResult(status: int, stdout: string, stderr: string)

  /** Remote command execution on a named host, passed in as a parameter:
      the model never runs anything, it only sees what the host answered. */
  type Runner = (string, string) -> CmdResult

  /** An effect on a remote host: a file-system session opened as a user, or a
      shell command run through the remote-execution capability. */
  datatype Action = Session(host: string, user: string) | Run(host: string, cmd: string)

  /** A result together with the remote actions performed to obtain it, in order. */
  datatype Traced<+T> = Traced(value: T, actions: seq<Action>)

  /** The process-wide configuration, made explicit: cluster nodes, peers and clients. */
  datatype Config = Config(nodes: seq<string>, peers: seq<string>, clients: seq<string>)

  /** The commands among a list of actions, in order. */
  function Commands(actions: seq<Action>): (r: seq<string>)
    ensures |r| <= |actions|
    ensures (forall i :: 0 <= i < |actions| ==> actions[i].Session?) ==> r == []
    ensures forall c :: c in r ==> exists a :: a in actions && a.Run? && a.cmd == c
  {
    if |actions| == 0 then []
    else (if actions[0].Run? then [actions[0].cmd] else []) + Commands(actions[1..])
  }

  /** A session issues no command. */
  lemma CommandsAfterSession(a: Action, rest: seq<Action>)
    requires a.Session?
    ensures Commands([a] + rest) == Commands(rest)
  {
    assert ([a] + rest)[1..] == rest;
  }

  lemma CommandsOfRun(host: string, cmd: string)
    ensures Commands([Run(host, cmd)]) == [cmd]
  {
    assert [Run(host, cmd)][1..] == [];
  }

  /** A host argument left empty ("") falls back to the first configured host. */
  function DefaultHost(host: string, configured: seq<string>): (r: string)
    requires host != "" || |configured| > 0
    ensures host != "" ==> r == host
    ensures host == "" ==> r == configured[0]
  {
    if host == "" then configured[0] else host
  }
}
