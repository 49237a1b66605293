/** Creating a file on a node in one of four modes: written through a
    file-system session ("open"), or by a shell command ("echo", "touch",
    "dd"). Every mode first opens a session as root on the node. */
module WriteFile {
  import opened Common
  import opened Strings

  /** How the file-system session goes, as the host decides: the connection
      is refused (or fails with an exception before it exists), the session
      fails part-way (making the directory, or writing the file), or it does
      everything asked of it. */
  datatype SessionOutcome = Refused | Broken | Completed

  /** The mode used when none is given. */
  const DefaultMode := "open"

  function EffectiveMode(mode: string): (m: string)
    ensures m != ""
    ensures mode == "" ==> m == DefaultMode
    ensures mode != "" ==> m == mode
  {
    if mode == "" then DefaultMode else mode
  }

  /** The shell command a mode runs, if any: "open" and unknown modes run
      none, and "dd" runs none without a size. Each command is its words
      joined by single spaces. */
  function ShellCommand(mode: string, filename: string, contents: string, size: string): (c: Option<string>)
    ensures c.Some? <==> mode == "echo" || mode == "touch" || (mode == "dd" && size != "")
  {
    if mode == "echo" then Some("echo" + " " + (contents + " " + (">" + " " + filename)))
    else if mode == "touch" then Some("touch" + " " + filename)
    else if mode == "dd" && size != "" then
      Some("dd" + " " + ("if=/dev/zero" + " " + (("of=" + filename) + " " + (("bs=" + size) + " " + "count=1"))))
    else None
  }

  /** write_file. The host is the server given or else the first node. A
      refused connection ends in an exception, because the cleanup then
      closes something that is not a connection; a broken session gives
      False. After the session, a shell mode runs its command and reports
      whether it exited with status 0; "dd" without a size gives False
      without running anything; "open" and unknown modes give True. */
  function WriteFile(cfg: Config, filename: string, contents: string, mode: string, size: string,
                     server: string, session: SessionOutcome, run: Runner): (r: Traced<Outcome<bool>>)
    requires server != "" || |cfg.nodes| > 0
    ensures var host := DefaultHost(server, cfg.nodes);
            |r.actions| >= 1 && r.actions[0] == Session(host, "root")
    ensures session == Refused ==> r.value == Raised && |r.actions| == 1
    ensures session == Broken ==> r.value == Returned(false) && |r.actions| == 1
    ensures var host := DefaultHost(server, cfg.nodes);
            var m := EffectiveMode(mode);
            session == Completed ==>
              match ShellCommand(m, filename, contents, size)
              case Some(cmd) => r.actions == [Session(host, "root"), Run(host, cmd)]
                                && r.value == Returned(run(host, cmd).status == 0)
              case None => r.actions == [Session(host, "root")]
                           && r.value == Returned(m != "dd")
  {
    var host := DefaultHost(server, cfg.nodes);
    var m := EffectiveMode(mode);
    var first := [Session(host, "root")];
    match session
    case Refused => Traced(Raised, first)
    case Broken => Traced(Returned(false), first)
    case Completed =>
      if m == "open" then Traced(Returned(true), first)
      else if m == "echo" || m == "touch" || m == "dd" then
        if m == "dd" && size == "" then Traced(Returned(false), first)
        else
          var cmd := ShellCommand(m, filename, contents, size).value;
          Traced(Returned(run(host, cmd).status == 0), first + [Run(host, cmd)])
      else Traced(Returned(true), first)
  }

  /** A True result means every command the call ran exited with status 0,
      and a False result after a completed session means some command did not
      or "dd" was asked for without a size. */
  lemma WriteFileTrueMeansCommandsSucceeded(cfg: Config, filename: string, contents: string, mode: string,
                                            size: string, server: string, session: SessionOutcome, run: Runner)
    requires server != "" || |cfg.nodes| > 0
    ensures var r := WriteFile(cfg, filename, contents, mode, size, server, session, run);
            r.value == Returned(true) ==>
              forall i :: 0 <= i < |r.actions| && r.actions[i].Run? ==>
                run(r.actions[i].host, r.actions[i].cmd).status == 0
    ensures var r := WriteFile(cfg, filename, contents, mode, size, server, session, run);
            var cmds := Commands(r.actions);
            r.value == Returned(true) ==>
              forall i :: 0 <= i < |cmds| ==> run(DefaultHost(server, cfg.nodes), cmds[i]).status == 0
    ensures var r := WriteFile(cfg, filename, contents, mode, size, server, session, run);
            var m := EffectiveMode(mode);
            session == Completed && r.value == Returned(false) ==>
              (m == "dd" && size == "")
              || exists i :: 0 <= i < |r.actions| && r.actions[i].Run?
                             && run(r.actions[i].host, r.actions[i].cmd).status != 0
  {
    var r := WriteFile(cfg, filename, contents, mode, size, server, session, run);
    WriteFileCommands(cfg, filename, contents, mode, size, server, session, run);
    if |r.actions| == 2 {
      assert r.actions[1].Run?;
    }
  }

  /** write_file runs at most one shell command, the mode's own, and only
      once the session has completed. */
  lemma WriteFileCommands(cfg: Config, filename: string, contents: string, mode: string,
                          size: string, server: string, session: SessionOutcome, run: Runner)
    requires server != "" || |cfg.nodes| > 0
    ensures var r := WriteFile(cfg, filename, contents, mode, size, server, session, run);
            var c := ShellCommand(EffectiveMode(mode), filename, contents, size);
            Commands(r.actions) == if session == Completed && c.Some? then [c.value] else []
  {
    var r := WriteFile(cfg, filename, contents, mode, size, server, session, run);
    assert r.actions == [r.actions[0]] + r.actions[1..];
    CommandsAfterSession(r.actions[0], r.actions[1..]);
    if |r.actions| == 2 {
      CommandsOfRun(r.actions[1].host, r.actions[1].cmd);
    }
  }

  /** A call that names no mode writes nothing through the shell: after a
      completed session it returns True having run no command. */
  lemma DefaultModeRunsNothing(cfg: Config, filename: string, contents: string, size: string,
                               server: string, run: Runner)
    requires server != "" || |cfg.nodes| > 0
    ensures var r := WriteFile(cfg, filename, contents, "", size, server, Completed, run);
            r.value == Returned(true) && r.actions == [Session(DefaultHost(server, cfg.nodes), "root")]
            && Commands(r.actions) == []
  {
  }

  /** Read as the shell reads it (split into words), "touch" gets the file
      as its only argument. */
  lemma TouchCommandWords(filename: string)
    requires ' ' !in filename && filename != ""
    ensures Words(ShellCommand("touch", filename, "", "").value) == ["touch", filename]
  {
    WordsOfTwo("touch", filename);
  }

  /** "echo" writes the words of the contents and redirects them into the file. */
  lemma EchoCommandWords(filename: string, contents: string)
    requires ' ' !in filename && filename != ""
    ensures Words(ShellCommand("echo", filename, contents, "").value) == ["echo"] + Words(contents) + [">", filename]
  {
    WordsAroundText("echo", contents, ">", filename);
  }

  /** "dd" copies one block of the given size of zeros into the file through
      its "of=" operand. */
  lemma DdCommandWords(filename: string, size: string)
    requires ' ' !in filename && filename != ""
    requires ' ' !in size && size != ""
    ensures Words(ShellCommand("dd", filename, "", size).value)
            == ["dd", "if=/dev/zero", "of=" + filename, "bs=" + size, "count=1"]
  {
    var of := "of=" + filename;
    var bs := "bs=" + size;
    assert ' ' !in of && ' ' !in bs;
    WordsOfFive("dd", "if=/dev/zero", of, bs, "count=1");
  }

}
