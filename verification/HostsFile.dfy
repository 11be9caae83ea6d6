/**
 run-with-hosts.sh and /etc/hosts: add_hosts_entry appends tagged lines, remove_hosts_entry
 deletes exactly the tagged ones, and traps run the removal however the script ends.
 */
module HostsFile {
  import opened Text

  const IP := "127.0.0.1"
  const MARKER := "# vpnproxy-managed-entry"

  // -------------------------------------------------------------------- lines

  predicate Terminated(text: string) {
    text == "" || text[|text| - 1] == '\n'
  }

  /** The lines of a text file; a last one without a newline counts. */
  function Lines(text: string): (lines: seq<string>)
    ensures forall i :: 0 <= i < |lines| ==> '\n' !in lines[i]
  {
    var pieces := Split(text, '\n');
    if pieces[|pieces| - 1] == "" then pieces[..|pieces| - 1] else pieces
  }

  /** Lines back to text, the last one with or without its newline. */
  function Render(lines: seq<string>, terminated: bool): string {
    if terminated || lines == [] then Unlines(lines) else Unlines(lines[..|lines| - 1]) + lines[|lines| - 1]
  }

  lemma {:induction false} Rejoin(text: string)
    ensures text == Join(Split(text, '\n'))
  {
    if text == "" {
      assert Split(text, '\n')[..0] == [];
    } else {
      var rest := Split(text[1..], '\n');
      Rejoin(text[1..]);
      assert text == [text[0]] + text[1..];
      if text[0] == '\n' {
        JoinNewline(rest);
      } else {
        JoinChar(text[0], rest);
      }
    }
  }

  /** The text that pieces are the newline-separated pieces of. */
  function Join(pieces: seq<string>): string
    requires pieces != []
  {
    Unlines(pieces[..|pieces| - 1]) + pieces[|pieces| - 1]
  }

  lemma JoinNewline(rest: seq<string>)
    requires rest != []
    ensures Join([""] + rest) == "\n" + Join(rest)
  {
    var n := |rest| - 1;
    assert ([""] + rest)[..n + 1] == [""] + rest[..n];
    assert ([""] + rest[..n])[1..] == rest[..n];
  }

  lemma JoinChar(c: char, rest: seq<string>)
    requires rest != []
    ensures Join([[c] + rest[0]] + rest[1..]) == [c] + Join(rest)
  {
    var n, pieces := |rest| - 1, [[c] + rest[0]] + rest[1..];
    if n == 0 {
      assert pieces[..0] == [] && rest[..0] == [];
    } else {
      assert pieces[..n] == [[c] + rest[0]] + rest[1..n];
      assert pieces[..n][1..] == rest[1..n] == rest[..n][1..];
    }
  }

  lemma {:induction false} UnlinesTerminated(lines: seq<string>)
    ensures Terminated(Unlines(lines)) && (Unlines(lines) == "" <==> lines == [])
  {
    if lines != [] {
      UnlinesTerminated(lines[1..]);
    }
  }

  /** A text is its lines, rendered. */
  lemma LinesRender(text: string)
    ensures text == Render(Lines(text), Terminated(text))
    ensures !Terminated(text) ==> Lines(text) != [] && Lines(text)[|Lines(text)| - 1] != ""
  {
    var pieces := Split(text, '\n');
    var n := |pieces| - 1;
    Rejoin(text);
    UnlinesTerminated(pieces[..n]);
    if pieces[n] != "" {
      assert text[|text| - 1] == pieces[n][|pieces[n]| - 1];
    } else {
      assert text == Unlines(pieces[..n]);
    }
  }

  /** Rendered lines are read back, if an unterminated last one is not empty. */
  lemma RenderLines(lines: seq<string>, terminated: bool)
    requires forall i :: 0 <= i < |lines| ==> '\n' !in lines[i]
    requires terminated || lines == [] || lines[|lines| - 1] != ""
    ensures Lines(Render(lines, terminated)) == lines
    ensures terminated || lines == [] ==> Terminated(Render(lines, terminated))
  {
    if terminated || lines == [] {
      SplitUnlines(lines, "");
      assert Unlines(lines) + "" == Unlines(lines);
      assert (lines + [""])[..|lines|] == lines;
      UnlinesTerminated(lines);
    } else {
      var n := |lines| - 1;
      SplitUnlines(lines[..n], lines[n]);
      assert lines[..n] + [lines[n]] == lines;
    }
  }

  // ----------------------------------------------------------------- the tag

  /** grep -F: the text occurs in the line. */
  predicate Contains(line: string, part: string) {
    exists i :: 0 <= i <= |line| && OccursAt(line, part, i)
  }

  predicate OccursAt(line: string, part: string, i: nat)
    requires i <= |line|
  {
    i + |part| <= |line| && line[i..i + |part|] == part
  }

  predicate Managed(line: string) { Contains(line, MARKER) }

  /** The lines whose tag is as wanted, in order. */
  function Select<T>(lines: seq<T>, tag: T -> bool, wanted: bool): seq<T> {
    if lines == [] then []
    else
      var n := |lines| - 1;
      Select(lines[..n], tag, wanted) + if tag(lines[n]) == wanted then [lines[n]] else []
  }

  /** The lines without this script's tag. */
  function Unmanaged(lines: seq<string>): seq<string> { Select(lines, Managed, false) }

  /** The lines that are not this script's to touch. */
  function Foreign(text: string): seq<string> { Unmanaged(Lines(text)) }

  predicate HasManaged(text: string) {
    exists i :: 0 <= i < |Lines(text)| && Managed(Lines(text)[i])
  }

  /** sed /MARKER/d; finish is for a sed that ends an unterminated last line. */
  function DeleteManaged(text: string, finish: bool): string {
    var lines := Lines(text);
    Render(Unmanaged(lines), Terminated(text) || finish || Managed(lines[|lines| - 1]))
  }

  /** remove_hosts_entry */
  function RemoveEntries(text: string, finish: bool): string {
    if HasManaged(text) then DeleteManaged(text, finish) else text
  }

  function Entry(host: string): string { IP + "\t" + host + "\t" + MARKER }

  function Entries(hosts: seq<string>): (r: seq<string>)
    ensures |r| == |hosts| && forall i :: 0 <= i < |hosts| ==> r[i] == Entry(hosts[i])
  {
    seq(|hosts|, i requires 0 <= i < |hosts| => Entry(hosts[i]))
  }

  /** The newline added before the first entry when the file's last line lacks one. */
  function EndLastLine(text: string): string {
    if text != "" && !Terminated(text) then text + "\n" else text
  }

  /** add_hosts_entry */
  function AddEntries(text: string, hosts: seq<string>, finish: bool): string {
    EndLastLine(RemoveEntries(text, finish)) + Unlines(Entries(hosts))
  }

  lemma EntryIsManaged(host: string)
    ensures Managed(Entry(host))
  {
    var at := |IP + "\t" + host + "\t"|;
    assert OccursAt(Entry(host), MARKER, at);
  }

  // ------------------------------------------------ what they do to the lines

  lemma {:induction false} SelectAppend<T>(a: seq<T>, b: seq<T>, tag: T -> bool, wanted: bool)
    ensures Select(a + b, tag, wanted) == Select(a, tag, wanted) + Select(b, tag, wanted)
    decreases |b|
  {
    if b == [] {
      assert a + b == a;
    } else {
      var n := |b| - 1;
      SelectAppend(a, b[..n], tag, wanted);
      assert (a + b)[..|a + b| - 1] == a + b[..n];
    }
  }

  lemma SelectOne<T>(lines: seq<T>, line: T, tag: T -> bool, wanted: bool)
    ensures Select(lines + [line], tag, wanted) ==
      Select(lines, tag, wanted) + if tag(line) == wanted then [line] else []
  {
    assert (lines + [line])[..|lines|] == lines;
  }

  predicate AllHave<T>(lines: seq<T>, tag: T -> bool, wanted: bool) {
    forall i :: 0 <= i < |lines| ==> tag(lines[i]) == wanted
  }

  lemma {:induction false} SelectAll<T>(lines: seq<T>, tag: T -> bool, wanted: bool)
    requires AllHave(lines, tag, wanted)
    ensures Select(lines, tag, wanted) == lines && Select(lines, tag, !wanted) == []
  {
    if lines != [] {
      var n := |lines| - 1;
      SelectAll(lines[..n], tag, wanted);
      assert lines[..n] + [lines[n]] == lines;
    }
  }

  lemma {:induction false} SelectNone<T>(lines: seq<T>, tag: T -> bool, wanted: bool)
    ensures Select(lines, tag, wanted) == [] <==> forall i :: 0 <= i < |lines| ==> tag(lines[i]) != wanted
  {
    if lines != [] {
      var n := |lines| - 1;
      SelectNone(lines[..n], tag, wanted);
      assert forall i :: 0 <= i < n ==> lines[..n][i] == lines[i];
    }
  }

  /** What is selected comes from the lines, and has the tag as wanted. */
  lemma {:induction false} SelectedAre<T>(lines: seq<T>, tag: T -> bool, wanted: bool)
    ensures AllHave(Select(lines, tag, wanted), tag, wanted)
    ensures forall i :: 0 <= i < |Select(lines, tag, wanted)| ==> Select(lines, tag, wanted)[i] in lines
  {
    if lines != [] {
      var n := |lines| - 1;
      SelectedAre(lines[..n], tag, wanted);
      var kept, before := Select(lines, tag, wanted), Select(lines[..n], tag, wanted);
      forall i | 0 <= i < |kept| ensures tag(kept[i]) == wanted && kept[i] in lines {
        assert kept[i] == if i < |before| then before[i] else lines[n];
        assert i < |before| ==> before[i] in lines[..n];
      }
    }
  }

  /** The lines that carry this script's tag. */
  function ManagedLines(lines: seq<string>): seq<string> { Select(lines, Managed, true) }

  function Tagged(text: string): seq<string> { ManagedLines(Lines(text)) }

  lemma TaggedIffManaged(lines: seq<string>)
    ensures ManagedLines(lines) == [] <==> forall i :: 0 <= i < |lines| ==> !Managed(lines[i])
    ensures ManagedLines(lines) == [] ==> Unmanaged(lines) == lines
  {
    SelectNone(lines, Managed, true);
    if ManagedLines(lines) == [] {
      SelectAll(lines, Managed, false);
    }
  }

  /** Lines with their tagged ones taken out hold no tagged one any more. */
  lemma UnmanagedAgain(lines: seq<string>)
    requires forall i :: 0 <= i < |lines| ==> '\n' !in lines[i]
    ensures var kept := Unmanaged(lines);
      Unmanaged(kept) == kept && ManagedLines(kept) == [] && forall i :: 0 <= i < |kept| ==> '\n' !in kept[i]
  {
    SelectedAre(lines, Managed, false);
    forall i | 0 <= i < |Unmanaged(lines)| ensures '\n' !in Unmanaged(lines)[i] {
      assert Unmanaged(lines)[i] in lines;
    }
    SelectAll(Unmanaged(lines), Managed, false);
  }

  /** The last line survives a deletion unless it is tagged. */
  lemma LastUnmanaged(lines: seq<string>)
    requires lines != [] && !Managed(lines[|lines| - 1])
    ensures Unmanaged(lines) != [] && Unmanaged(lines)[|Unmanaged(lines)| - 1] == lines[|lines| - 1]
  {
  }

  // ------------------------------------------------------- what the tag means

  predicate IsAround(line: string, before: string, part: string, after: string) {
    line == before + part + after
  }

  lemma ContainsIff(line: string, part: string)
    ensures Contains(line, part) <==> exists before: string, after: string :: IsAround(line, before, part, after)
  {
    if Contains(line, part) {
      var i :| 0 <= i <= |line| && OccursAt(line, part, i);
      assert IsAround(line, line[..i], part, line[i + |part|..]);
    }
    if before: string, after: string :| IsAround(line, before, part, after) {
      assert line[|before|..|before| + |part|] == part;
      assert OccursAt(line, part, |before|);
    }
  }

  /** A line is the script's if and only if the marker occurs in it. */
  lemma ManagedIff(line: string)
    ensures Managed(line) <==>
      exists before: string, after: string :: IsAround(line, before, "# vpnproxy-managed-entry", after)
  {
    ContainsIff(line, MARKER);
  }

  predicate HasHash(line: string) { '#' in line }

  lemma ManagedHasHash(line: string)
    requires Managed(line)
    ensures HasHash(line)
  {
    var i :| 0 <= i <= |line| && OccursAt(line, MARKER, i);
    assert line[i] == line[i..i + |MARKER|][0] == '#';
  }

  /** The lines that carry no comment at all. */
  function HashFree(lines: seq<string>): seq<string> { Select(lines, HasHash, false) }

  /** What a weaker condition leaves out can be left out before. */
  lemma {:induction false} SelectTwice<T>(lines: seq<T>, tag: T -> bool, weaker: T -> bool)
    requires forall i :: 0 <= i < |lines| && tag(lines[i]) ==> weaker(lines[i])
    ensures Select(Select(lines, tag, false), weaker, false) == Select(lines, weaker, false)
  {
    if lines != [] {
      var init, last := lines[..|lines| - 1], lines[|lines| - 1];
      assert lines == init + [last];
      assert forall i :: 0 <= i < |init| ==> init[i] == lines[i];
      SelectTwice(init, tag, weaker);
      SelectOne(init, last, tag, false);
      SelectOne(init, last, weaker, false);
      if tag(last) {
        assert Select(init, tag, false) + [] == Select(init, tag, false);
        assert Select(init, weaker, false) + [] == Select(init, weaker, false);
      } else {
        SelectOne(Select(init, tag, false), last, weaker, false);
      }
    }
  }

  lemma HashFreeUnmanaged(lines: seq<string>)
    ensures HashFree(Unmanaged(lines)) == HashFree(lines)
  {
    forall i | 0 <= i < |lines| && Managed(lines[i]) ensures HasHash(lines[i]) {
      ManagedHasHash(lines[i]);
    }
    SelectTwice(lines, Managed, HasHash);
  }

  /** A file without comments is nobody's but its owner's. */
  lemma UntouchedWithoutHash(text: string, finish: bool)
    requires forall i :: 0 <= i < |Lines(text)| ==> '#' !in Lines(text)[i]
    ensures RemoveEntries(text, finish) == text
  {
    forall i | 0 <= i < |Lines(text)| ensures !Managed(Lines(text)[i]) {
      if Managed(Lines(text)[i]) {
        ManagedHasHash(Lines(text)[i]);
      }
    }
  }

  /** Neither operation takes, adds or moves a line without a comment. */
  lemma HashFreeKept(text: string, hosts: seq<string>, finish: bool)
    requires OneLine(hosts)
    ensures HashFree(Lines(RemoveEntries(text, finish))) == HashFree(Lines(text))
    ensures HashFree(Lines(AddEntries(text, hosts, finish))) == HashFree(Lines(text))
  {
    RemoveIsExact(text, finish);
    AddIsExact(text, hosts, finish);
    HashFreeUnmanaged(Lines(text));
    SelectAppend(Foreign(text), Entries(hosts), HasHash, false);
    forall i | 0 <= i < |hosts| ensures HasHash(Entries(hosts)[i]) {
      EntryIsManaged(hosts[i]);
      ManagedHasHash(Entry(hosts[i]));
    }
    SelectAll(Entries(hosts), HasHash, true);
  }

  lemma ThreeFields<T>(a: seq<T>, sep: T, b: seq<T>, c: seq<T>)
    requires sep !in a && sep !in b && sep !in c
    ensures Split(a + [sep] + b + [sep] + c, sep) == [a, b, c]
  {
    SplitJoined(a + [sep] + b, sep, c);
    SplitJoined(a, sep, b);
    SplitWhole(a, sep);
    SplitWhole(b, sep);
    SplitWhole(c, sep);
  }

  lemma NoTabs()
    ensures '\t' !in IP && '\t' !in MARKER
  {
  }

  /** An entry's fields: the loopback address, the host, and the marker as its comment. */
  lemma EntryFields(host: string)
    requires '\t' !in host
    ensures Split(Entry(host), '\t') == ["127.0.0.1", host, "# vpnproxy-managed-entry"]
  {
    NoTabs();
    ThreeFields(IP, '\t', host, MARKER);
  }

  /** Removal: every untagged line stays, in order; every tagged one goes; and no more than that. */
  lemma RemoveIsExact(text: string, finish: bool)
    ensures var after := RemoveEntries(text, finish);
      && Foreign(after) == Foreign(text) && Lines(after) == Foreign(text) && Tagged(after) == []
      && (Terminated(text) ==> Terminated(after))
      && (Tagged(text) == [] ==> after == text)
  {
    TaggedIffManaged(Lines(text));
    UnmanagedAgain(Lines(text));
    if HasManaged(text) {
      DeleteIsExact(text, finish);
    }
  }

  lemma DeleteIsExact(text: string, finish: bool)
    requires HasManaged(text)
    ensures Lines(DeleteManaged(text, finish)) == Foreign(text)
    ensures Terminated(text) ==> Terminated(DeleteManaged(text, finish))
  {
    var lines := Lines(text);
    var kept, closed := Unmanaged(lines), Terminated(text) || finish || Managed(lines[|lines| - 1]);
    LinesRender(text);
    if !closed {
      LastUnmanaged(lines);
    }
    UnmanagedAgain(lines);
    RenderLines(kept, closed);
  }

  lemma RemoveIdempotent(text: string, finish: bool)
    ensures RemoveEntries(RemoveEntries(text, finish), finish) == RemoveEntries(text, finish)
  {
    RemoveIsExact(text, finish);
    RemoveIsExact(RemoveEntries(text, finish), finish);
  }

  /** Ending the last line adds no line. */
  lemma EndLastLineKeepsLines(text: string)
    ensures Lines(EndLastLine(text)) == Lines(text) && Terminated(EndLastLine(text))
    ensures Terminated(text) ==> EndLastLine(text) == text
  {
    if !Terminated(text) {
      var lines := Lines(text);
      var n := |lines| - 1;
      LinesRender(text);
      UnlinesAppend(lines[..n], [lines[n]]);
      assert lines[..n] + [lines[n]] == lines && Unlines([lines[n]]) == lines[n] + "\n" + Unlines([]);
      assert EndLastLine(text) == Render(lines, true);
      RenderLines(lines, true);
    }
  }

  /** A line appended to a terminated file is one more line. */
  lemma AppendIsOneLine(text: string, line: string)
    requires Terminated(text) && '\n' !in line
    ensures Lines(text + (line + "\n")) == Lines(text) + [line] && Terminated(text + (line + "\n"))
  {
    LinesAppended(text, [line]);
    assert Unlines([line]) == line + "\n" + Unlines([]);
    assert Unlines([line]) == line + "\n";
  }

  predicate OneLine(hosts: seq<string>) {
    forall i :: 0 <= i < |hosts| ==> '\n' !in hosts[i]
  }

  lemma EntryIsOneLine(host: string)
    requires '\n' !in host
    ensures '\n' !in Entry(host)
  {
    assert '\n' !in IP && '\n' !in "\t" && '\n' !in MARKER;
  }

  lemma EntriesAreTagged(hosts: seq<string>)
    requires OneLine(hosts)
    ensures forall i :: 0 <= i < |hosts| ==> Managed(Entries(hosts)[i]) && '\n' !in Entries(hosts)[i]
  {
    forall i | 0 <= i < |hosts| ensures Managed(Entries(hosts)[i]) && '\n' !in Entries(hosts)[i] {
      EntryIsManaged(hosts[i]);
      EntryIsOneLine(hosts[i]);
    }
  }

  /** Adding: the untagged lines as they were, then exactly the entries, whatever was tagged before. */
  lemma AddIsExact(text: string, hosts: seq<string>, finish: bool)
    requires OneLine(hosts)
    ensures var after := AddEntries(text, hosts, finish);
      Lines(after) == Foreign(text) + Entries(hosts) && Foreign(after) == Foreign(text)
        && Tagged(after) == Entries(hosts)
      && Terminated(after)
  {
    var clean := RemoveEntries(text, finish);
    var start := EndLastLine(clean);
    RemoveIsExact(text, finish);
    EndLastLineKeepsLines(clean);
    EntriesAreTagged(hosts);
    LinesAppended(start, Entries(hosts));
    UnmanagedAgain(Lines(text));
    TaggedAppended(Foreign(text), Entries(hosts));
  }

  lemma LinesAppended(text: string, lines: seq<string>)
    requires Terminated(text) && forall i :: 0 <= i < |lines| ==> '\n' !in lines[i]
    ensures Lines(text + Unlines(lines)) == Lines(text) + lines && Terminated(text + Unlines(lines))
  {
    LinesRender(text);
    UnlinesAppend(Lines(text), lines);
    RenderLines(Lines(text) + lines, true);
  }

  lemma TaggedAppended(lines: seq<string>, entries: seq<string>)
    requires Unmanaged(lines) == lines && ManagedLines(lines) == []
    requires forall i :: 0 <= i < |entries| ==> Managed(entries[i])
    ensures Unmanaged(lines + entries) == lines && ManagedLines(lines + entries) == entries
  {
    SelectAppend(lines, entries, Managed, false);
    SelectAppend(lines, entries, Managed, true);
    SelectAll(entries, Managed, true);
  }

  /** Adding and removing restores a file without tagged lines, up to a final newline if it had none. */
  lemma AddThenRemove(text: string, hosts: seq<string>, finish: bool)
    requires OneLine(hosts) && Tagged(text) == []
    ensures RemoveEntries(AddEntries(text, hosts, finish), finish) == if Terminated(text) then text else text + "\n"
  {
    var added := AddEntries(text, hosts, finish);
    AddIsExact(text, hosts, finish);
    RemoveIsExact(text, finish);
    RemoveIsExact(added, finish);
    EndLastLineKeepsLines(text);
    var ended, back := EndLastLine(text), RemoveEntries(added, finish);
    assert RemoveEntries(text, finish) == text;
    LinesRender(ended);
    LinesRender(back);
  }

  // ------------------------------------------------------------------ methods

  class Hosts {
    var text: string
    /** How this system's sed treats an unterminated last line. */
    const finish: bool

    constructor (text: string, finish: bool)
      ensures this.text == text && this.finish == finish
    {
      this.text, this.finish := text, finish;
    }

    method RemoveHostsEntry()
      modifies this
      ensures Lines(text) == Foreign(old(text)) && Tagged(text) == []
      ensures Tagged(old(text)) == [] ==> text == old(text)
      ensures Terminated(old(text)) ==> Terminated(text)
      ensures HashFree(Lines(text)) == HashFree(Lines(old(text)))
      ensures text == RemoveEntries(old(text), finish)
    {
      RemoveIsExact(text, finish);
      HashFreeUnmanaged(Lines(text));
      if !HasManaged(text) {
        return;
      }
      text := DeleteManaged(text, finish);
    }

    method AddHostsEntry(hosts: seq<string>)
      modifies this
      ensures OneLine(hosts) ==> Lines(text) == Foreign(old(text)) + Entries(hosts) && Terminated(text)
      ensures OneLine(hosts) ==> HashFree(Lines(text)) == HashFree(Lines(old(text)))
      ensures text == AddEntries(old(text), hosts, finish)
    {
      if OneLine(hosts) {
        AddIsExact(text, hosts, finish);
        HashFreeKept(text, hosts, finish);
      }
      if HasManaged(text) {
        RemoveHostsEntry();
      }
      if text != "" && !Terminated(text) {
        text := text + "\n";
      }
      ghost var start := text;
      assert Entries(hosts)[..0] == [] && start + Unlines([]) == start;
      for i := 0 to |hosts|
        invariant text == start + Unlines(Entries(hosts)[..i])
      {
        var line := Entry(hosts[i]) + "\n";
        OneMoreLine(start, Entries(hosts), i);
        text := text + line;
      }
      assert Entries(hosts)[..|hosts|] == Entries(hosts);
    }
  }

  lemma OneMoreLine(start: string, lines: seq<string>, i: nat)
    requires i < |lines|
    ensures start + Unlines(lines[..i + 1]) == start + Unlines(lines[..i]) + (lines[i] + "\n")
  {
    assert lines[..i + 1] == lines[..i] + [lines[i]];
    UnlinesAppend(lines[..i], [lines[i]]);
    assert Unlines([lines[i]]) == lines[i] + "\n" + Unlines([]);
  }
}
