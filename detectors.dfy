/** The shell and cron detectors of package `source`. Each scans an ancestry
    chain, nearest ancestor first, and stops at the first process whose
    command matches its signature. */
module SourceDetectors {
  import opened Wrappers
  import opened Model

  // ---------------------------------------------------------------------
  // shell.go
  // ---------------------------------------------------------------------

  /** The command names recognised as interactive shells. */
  const Shells: set<string> := {"bash", "zsh", "sh", "fish"}

  /** The confidence a shell match carries. */
  const ShellConfidence: real := 0.5

  /** Entry k is a shell and no entry before it is. */
  ghost predicate FirstShellAt(ancestry: seq<Process>, k: int)
  {
    0 <= k < |ancestry| && ancestry[k].command in Shells
    && forall j :: 0 <= j < k ==> ancestry[j].command !in Shells
  }

  /** detectShell: the nearest ancestor whose command is a shell name, as a
      Shell source named after that command; None when there is none. */
  function DetectShell(ancestry: seq<Process>): (r: Option<Source>)
    ensures r.None? <==> forall i :: 0 <= i < |ancestry| ==> ancestry[i].command !in Shells
    ensures r.Some? ==> r.value.sourceType == Shell && r.value.confidence == ShellConfidence
    ensures r.Some? ==> 0.0 <= r.value.confidence <= 1.0
  {
    if ancestry == [] then None
    else if ancestry[0].command in Shells then Some(Source(Shell, ancestry[0].command, ShellConfidence))
    else
      assert forall i :: 1 <= i < |ancestry| ==> ancestry[i] == ancestry[1..][i - 1];
      DetectShell(ancestry[1..])
  }

  /** On a match, the name is the command of the first shell in the chain:
      every earlier entry is outside the shell set. */
  lemma {:induction false} DetectShellFirstMatch(ancestry: seq<Process>)
    requires DetectShell(ancestry).Some?
    ensures exists k :: FirstShellAt(ancestry, k) && DetectShell(ancestry).value.name == ancestry[k].command
  {
    if ancestry[0].command in Shells {
      assert FirstShellAt(ancestry, 0);
    } else {
      var tail := ancestry[1..];
      DetectShellFirstMatch(tail);
      var k :| FirstShellAt(tail, k) && DetectShell(tail).value.name == tail[k].command;
      assert FirstShellAt(ancestry, k + 1);
    }
  }

  /** Entries after the first shell do not matter: appending to the chain
      keeps a shell match unchanged. */
  lemma {:induction false} DetectShellAppend(ancestry: seq<Process>, more: seq<Process>)
    requires DetectShell(ancestry).Some?
    ensures DetectShell(ancestry + more) == DetectShell(ancestry)
  {
    assert ancestry != [];
    if ancestry[0].command !in Shells {
      assert (ancestry + more)[1..] == ancestry[1..] + more;
      DetectShellAppend(ancestry[1..], more);
    }
  }

  /** Only the commands matter: two chains with the same commands, whatever
      their PIDs, give the same result. */
  lemma {:induction false} DetectShellIgnoresPids(a: seq<Process>, b: seq<Process>)
    requires Commands(a) == Commands(b)
    ensures DetectShell(a) == DetectShell(b)
  {
    if a != [] {
      assert a[0].command == Commands(a)[0] == Commands(b)[0] == b[0].command;
      assert Commands(a[1..]) == Commands(a)[1..];
      assert Commands(b[1..]) == Commands(b)[1..];
      DetectShellIgnoresPids(a[1..], b[1..]);
    }
  }

  /** The nearest shell wins: ancestry [bash, systemd] gives bash. */
  lemma DetectShellExample(pid: int, parentPid: int)
    ensures DetectShell([Process("bash", pid), Process("systemd", parentPid)])
         == Some(Source(Shell, "bash", 0.5))
  {
  }

  /** Matching is exact: a path or a versioned name is not a shell name. */
  lemma DetectShellExactNames(pid: int, parentPid: int)
    ensures DetectShell([Process("/bin/bash", pid), Process("bash5", parentPid)]) == None
  {
    assert "/bin/bash" !in Shells;
    assert "bash5" !in Shells;
  }

  // ---------------------------------------------------------------------
  // cron.go
  // ---------------------------------------------------------------------

  /** The confidence a cron match carries. */
  const CronConfidence: real := 0.6

  /** The command names of the cron daemon. */
  predicate IsCronCommand(command: string)
  {
    command == "cron" || command == "crond"
  }

  /** detectCron: a Cron source named "cron" when some ancestor's command is
      exactly "cron" or "crond"; None otherwise. */
  function DetectCron(ancestry: seq<Process>): (r: Option<Source>)
    ensures r.Some? <==> exists i :: 0 <= i < |ancestry| && IsCronCommand(ancestry[i].command)
    ensures r.Some? ==> r.value == Source(Cron, "cron", CronConfidence)
    ensures r.Some? ==> 0.0 <= r.value.confidence <= 1.0
  {
    if ancestry == [] then None
    else if IsCronCommand(ancestry[0].command) then Some(Source(Cron, "cron", CronConfidence))
    else
      assert forall i :: 1 <= i < |ancestry| ==> ancestry[i] == ancestry[1..][i - 1];
      DetectCron(ancestry[1..])
  }

  /** Once the chain holds a cron process, appending to it changes nothing. */
  lemma {:induction false} DetectCronAppend(ancestry: seq<Process>, more: seq<Process>)
    requires DetectCron(ancestry).Some?
    ensures DetectCron(ancestry + more) == DetectCron(ancestry)
  {
    assert ancestry != [];
    if !IsCronCommand(ancestry[0].command) {
      assert (ancestry + more)[1..] == ancestry[1..] + more;
      DetectCronAppend(ancestry[1..], more);
    }
  }

  /** Only the commands matter, not the PIDs. */
  lemma DetectCronIgnoresPids(a: seq<Process>, b: seq<Process>)
    requires Commands(a) == Commands(b)
    ensures DetectCron(a) == DetectCron(b)
  {
  }

  /** A "crond" ancestor anywhere in the chain is reported under the name
      "cron". */
  lemma DetectCronCrond(before: seq<Process>, pid: int, after: seq<Process>)
    ensures DetectCron(before + [Process("crond", pid)] + after) == Some(Source(Cron, "cron", 0.6))
  {
    var chain := before + [Process("crond", pid)] + after;
    assert chain[|before|].command == "crond";
  }
}
