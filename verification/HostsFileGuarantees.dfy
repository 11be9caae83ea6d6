/** What the hosts file keeps, over any number of runs, interrupted, killed and restarted at will. */
module HostsFileGuarantees {
  import opened Text
  import opened HostsFile

  // ------------------------------------------------------------ the whole script

  /** Where a run of the script is; Adding(i) is about to append entry i. */
  datatype Stage = NotStarted | Trapped | Cleaned | Adding(i: nat) | Running | Exited | Killed

  datatype Step = SetTrap | CleanStale | EndLine | Append | Launch | Interrupt | Exit | Kill | Rerun

  datatype State = State(text: string, stage: Stage)

  predicate InTrap(s: Stage) { s.Trapped? || s.Cleaned? || s.Adding? || s.Running? }

  /**
   INT and TERM run the removal and the script then goes on where it was; every exit, normal,
   by signal handling or by set -e, runs the removal; a kill runs nothing.
   */
  predicate Possible(s: State, step: Step, hosts: seq<string>) {
    match step
    case SetTrap => s.stage.NotStarted?
    case CleanStale => s.stage.Trapped?
    case EndLine => s.stage.Cleaned?
    case Append => s.stage.Adding? && s.stage.i < |hosts|
    case Launch => s.stage.Adding? && s.stage.i == |hosts|
    case Interrupt => InTrap(s.stage)
    case Exit => InTrap(s.stage)
    case Kill => true
    case Rerun => s.stage.Exited? || s.stage.Killed?
  }

  function After(s: State, step: Step, hosts: seq<string>, finish: bool): State
    requires Possible(s, step, hosts)
  {
    match step
    case SetTrap => s.(stage := Trapped)
    case CleanStale => State(RemoveEntries(s.text, finish), Cleaned)
    case EndLine => State(EndLastLine(s.text), Adding(0))
    case Append => State(s.text + (Entry(hosts[s.stage.i]) + "\n"), Adding(s.stage.i + 1))
    case Launch => s.(stage := Running)
    case Interrupt => s.(text := RemoveEntries(s.text, finish))
    case Exit => State(RemoveEntries(s.text, finish), Exited)
    case Kill => s.(stage := Killed)
    case Rerun => s.(stage := NotStarted)
  }

  predicate CanRun(s: State, steps: seq<Step>, hosts: seq<string>, finish: bool)
    decreases |steps|
  {
    steps == []
    || (Possible(s, steps[0], hosts) && CanRun(After(s, steps[0], hosts, finish), steps[1..], hosts, finish))
  }

  function Run(s: State, steps: seq<Step>, hosts: seq<string>, finish: bool): State
    requires CanRun(s, steps, hosts, finish)
    decreases |steps|
  {
    if steps == [] then s else Run(After(s, steps[0], hosts, finish), steps[1..], hosts, finish)
  }

  /** How far the entries have been appended. */
  function Progress(s: Stage, hosts: seq<string>): nat {
    if s.Adding? then s.i else if s.Running? then |hosts| else 0
  }

  /** The tagged lines are the entries appended so far, less those before the last interruption. */
  ghost predicate TaggedFrom(text: string, entries: seq<string>, n: nat) {
    EndsAt(Tagged(text), entries, n)
  }

  ghost predicate EndsAt<T>(part: seq<T>, entries: seq<T>, n: nat) {
    n <= |entries| && exists j :: 0 <= j <= n && part == entries[j..n]
  }

  lemma EndsAtNext<T>(part: seq<T>, entries: seq<T>, n: nat)
    requires EndsAt(part, entries, n) && n < |entries|
    ensures EndsAt(part + [entries[n]], entries, n + 1)
  {
    var j :| 0 <= j <= n && part == entries[j..n];
    assert part + [entries[n]] == entries[j..n + 1];
  }

  ghost predicate Good(s: State, foreign: seq<string>, hosts: seq<string>) {
    && Foreign(s.text) == foreign
    && (s.stage.Exited? ==> Tagged(s.text) == [])
    && (s.stage.Cleaned? || s.stage.Adding? || s.stage.Running? ==>
         TaggedFrom(s.text, Entries(hosts), Progress(s.stage, hosts)))
    && (s.stage.Adding? || s.stage.Running? ==> Terminated(s.text))
  }

  lemma StepKeeps(s: State, step: Step, foreign: seq<string>, hosts: seq<string>, finish: bool)
    requires OneLine(hosts) && Good(s, foreign, hosts) && Possible(s, step, hosts)
    ensures Good(After(s, step, hosts, finish), foreign, hosts)
  {
    match step {
      case CleanStale => RemovalKeeps(s.text, Entries(hosts), 0, finish);
      case Interrupt =>
        if s.stage.Trapped? {
          RemovalKeeps(s.text, Entries(hosts), 0, finish);
        } else {
          RemovalKeeps(s.text, Entries(hosts), Progress(s.stage, hosts), finish);
        }
      case Exit => RemovalKeeps(s.text, Entries(hosts), 0, finish);
      case EndLine => EndLastLineKeepsLines(s.text);
      case Append =>
        EntriesAreTagged(hosts);
        AppendKeeps(s.text, Entries(hosts), s.stage.i);
      case _ =>
    }
  }

  lemma RemovalKeeps(text: string, entries: seq<string>, n: nat, finish: bool)
    requires n <= |entries|
    ensures var after := RemoveEntries(text, finish);
      && Foreign(after) == Foreign(text) && Tagged(after) == [] && TaggedFrom(after, entries, n)
      && (Terminated(text) ==> Terminated(after))
  {
    RemoveIsExact(text, finish);
    assert entries[n..n] == [];
  }

  lemma AppendKeeps(text: string, entries: seq<string>, i: nat)
    requires i < |entries| && Managed(entries[i]) && '\n' !in entries[i]
    requires Terminated(text) && TaggedFrom(text, entries, i)
    ensures var after := text + (entries[i] + "\n");
      Foreign(after) == Foreign(text) && TaggedFrom(after, entries, i + 1) && Terminated(after)
  {
    AppendTagged(text, entries[i]);
    EndsAtNext(Tagged(text), entries, i);
  }

  lemma AppendTagged(text: string, line: string)
    requires Terminated(text) && '\n' !in line && Managed(line)
    ensures var after := text + (line + "\n");
      Foreign(after) == Foreign(text) && Tagged(after) == Tagged(text) + [line] && Terminated(after)
  {
    AppendIsOneLine(text, line);
    SelectOne(Lines(text), line, Managed, false);
    SelectOne(Lines(text), line, Managed, true);
  }

  lemma {:induction false} RunKeeps(s: State, steps: seq<Step>, foreign: seq<string>, hosts: seq<string>, finish: bool)
    requires OneLine(hosts) && Good(s, foreign, hosts) && CanRun(s, steps, hosts, finish)
    ensures Good(Run(s, steps, hosts, finish), foreign, hosts)
    decreases |steps|
  {
    if steps != [] {
      StepKeeps(s, steps[0], foreign, hosts, finish);
      RunKeeps(After(s, steps[0], hosts, finish), steps[1..], foreign, hosts, finish);
    }
  }

  /**
   Conservation: over any number of runs of the script, interrupted, killed and restarted at
   any point, the sequence of lines without the tag never changes, nor that without comments; every exit that runs the
   trap leaves no tagged line; and while vpnproxy runs the tagged lines are the script's own
   entries, each at most once, all of them unless an interruption took some away.
   */
  lemma HostsConserved(text: string, steps: seq<Step>, hosts: seq<string>, finish: bool)
    requires OneLine(hosts) && CanRun(State(text, NotStarted), steps, hosts, finish)
    ensures var s := Run(State(text, NotStarted), steps, hosts, finish);
      && Foreign(s.text) == Foreign(text) && HashFree(Lines(s.text)) == HashFree(Lines(text))
      && (s.stage.Exited? ==> Lines(s.text) == Foreign(text))
      && (s.stage.Running? ==> TaggedFrom(s.text, Entries(hosts), |hosts|))
  {
    RunKeeps(State(text, NotStarted), steps, Foreign(text), hosts, finish);
    var s := Run(State(text, NotStarted), steps, hosts, finish);
    HashFreeUnmanaged(Lines(text));
    HashFreeUnmanaged(Lines(s.text));
    if s.stage.Exited? {
      TaggedIffManaged(Lines(s.text));
    }
  }

  lemma {:induction false} RunKeepsTermination(s: State, steps: seq<Step>, hosts: seq<string>, finish: bool)
    requires OneLine(hosts) && CanRun(s, steps, hosts, finish) && Terminated(s.text)
    ensures Terminated(Run(s, steps, hosts, finish).text)
    decreases |steps|
  {
    if steps != [] {
      RemoveIsExact(s.text, finish);
      EndLastLineKeepsLines(s.text);
      if steps[0].Append? {
        EntryIsOneLine(hosts[s.stage.i]);
        AppendIsOneLine(s.text, Entry(hosts[s.stage.i]));
      }
      RunKeepsTermination(After(s, steps[0], hosts, finish), steps[1..], hosts, finish);
    }
  }

  /** Texts of the same lines differ in a final newline at most. */
  lemma SameLines(text: string, after: string)
    requires Lines(text) == Lines(after) && (Terminated(text) ==> Terminated(after))
    ensures after == text || (!Terminated(text) && after == text + "\n")
  {
    LinesRender(text);
    LinesRender(after);
    if !Terminated(text) {
      EndLastLineKeepsLines(text);
      LinesRender(EndLastLine(text));
    }
  }

  /**
   Restoration: whatever happened to its runs, kills included, a script that exits through its
   trap leaves a file that held no tagged line as it was, up to a final newline if it had none.
   */
  lemma HostsRestored(text: string, steps: seq<Step>, hosts: seq<string>, finish: bool)
    requires OneLine(hosts) && Tagged(text) == [] && CanRun(State(text, NotStarted), steps, hosts, finish)
    ensures var s := Run(State(text, NotStarted), steps, hosts, finish);
      s.stage.Exited? ==> s.text == text || (!Terminated(text) && s.text == text + "\n")
  {
    HostsConserved(text, steps, hosts, finish);
    TaggedIffManaged(Lines(text));
    if Terminated(text) {
      RunKeepsTermination(State(text, NotStarted), steps, hosts, finish);
    }
    var s := Run(State(text, NotStarted), steps, hosts, finish);
    if s.stage.Exited? {
      SameLines(text, s.text);
    }
  }

  /** The steps of a run that nothing interrupts, from its start to vpnproxy's. */
  function Appends(n: nat): seq<Step> {
    if n == 0 then [Launch] else [Append] + Appends(n - 1)
  }

  lemma {:induction false} AppendsRun(s: State, hosts: seq<string>, finish: bool)
    requires s.stage.Adding? && s.stage.i <= |hosts|
    ensures CanRun(s, Appends(|hosts| - s.stage.i), hosts, finish)
    ensures Run(s, Appends(|hosts| - s.stage.i), hosts, finish) ==
      State(s.text + Unlines(Entries(hosts)[s.stage.i..]), Running)
    decreases |hosts| - s.stage.i
  {
    var i := s.stage.i;
    if i == |hosts| {
      assert Entries(hosts)[i..] == [] && s.text + "" == s.text;
    } else {
      var next := After(s, Append, hosts, finish);
      AppendsRun(next, hosts, finish);
      assert Entries(hosts)[i..][1..] == Entries(hosts)[i + 1..];
      assert next.text + Unlines(Entries(hosts)[i + 1..]) ==
        s.text + (Entry(hosts[i]) + "\n" + Unlines(Entries(hosts)[i + 1..]));
    }
  }

  /** Uninterrupted, the script's steps do what add_hosts_entry does in one go, and all entries are in place. */
  lemma UninterruptedRun(text: string, hosts: seq<string>, finish: bool)
    requires OneLine(hosts)
    ensures var steps := [SetTrap, CleanStale, EndLine] + Appends(|hosts|); var s := State(text, NotStarted);
      && CanRun(s, steps, hosts, finish)
      && Run(s, steps, hosts, finish) == State(AddEntries(text, hosts, finish), Running)
      && Tagged(Run(s, steps, hosts, finish).text) == Entries(hosts)
  {
    var rest := Appends(|hosts|);
    var s0 := State(text, NotStarted);
    var s1 := State(text, Trapped);
    var s2 := State(RemoveEntries(text, finish), Cleaned);
    var s3 := State(EndLastLine(s2.text), Adding(0));
    AppendsRun(s3, hosts, finish);
    assert Entries(hosts)[0..] == Entries(hosts);
    OneStep(s2, EndLine, rest, hosts, finish);
    OneStep(s1, CleanStale, [EndLine] + rest, hosts, finish);
    OneStep(s0, SetTrap, [CleanStale] + ([EndLine] + rest), hosts, finish);
    assert [SetTrap, CleanStale, EndLine] + rest == [SetTrap] + ([CleanStale] + ([EndLine] + rest));
    AddIsExact(text, hosts, finish);
  }

  lemma OneStep(s: State, step: Step, rest: seq<Step>, hosts: seq<string>, finish: bool)
    requires Possible(s, step, hosts) && CanRun(After(s, step, hosts, finish), rest, hosts, finish)
    ensures CanRun(s, [step] + rest, hosts, finish)
    ensures Run(s, [step] + rest, hosts, finish) == Run(After(s, step, hosts, finish), rest, hosts, finish)
  {
    assert ([step] + rest)[1..] == rest;
  }
}
