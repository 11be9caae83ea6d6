/**
 writeConfigs: validates the fields of a secret and installs each as dir/<name>.conf by way
 of a temporary file and a rename, over system calls that may fail, or be the last ones made.
 */
module InstallConfigs {
  import opened Text

  // ------------------------------------------------------------- file system

  datatype Path = Path(dir: string, base: string)

  datatype File = File(content: string, mode: int)

  type Files = map<Path, File>

  const PRIVATE := 0x180 // 0600

  const TEMP_PREFIX := ".vpnproxy-"
  const TEMP_SUFFIX := ".tmp"

  predicate IsTemp(dir: string, p: Path) {
    && p.dir == dir && |TEMP_PREFIX| + |TEMP_SUFFIX| <= |p.base|
    && p.base[..|TEMP_PREFIX|] == TEMP_PREFIX && HasSuffix(p.base, TEMP_SUFFIX)
  }

  /**
   The file system, with every state it has gone through: a crash, or an observer, can meet
   any of them. Whether a call succeeds is up to the environment.
   */
  class FileSystem {
    var files: Files
    var dirs: set<string>
    ghost var history: seq<Files>

    constructor (files: Files, dirs: set<string>)
      ensures this.files == files && this.dirs == dirs && history == [files]
    {
      this.files, this.dirs, history := files, dirs, [files];
    }

    /** os.MkdirAll */
    method MkdirAll(dir: string) returns (ok: bool)
      modifies this`dirs
      ensures dirs == if ok then old(dirs) + {dir} else old(dirs)
    {
      ok := *;
      if ok {
        dirs := dirs + {dir};
      }
    }

    /** os.CreateTemp: an exclusive create under a name the environment picks. */
    method CreateTemp(dir: string) returns (tmp: Option<Path>)
      modifies this`files, this`history
      ensures tmp.None? ==> files == old(files) && history == old(history)
      ensures tmp.Some? ==> IsTemp(dir, tmp.value) && tmp.value !in old(files)
      ensures tmp.Some? ==> files == old(files)[tmp.value := File("", PRIVATE)] && history == old(history) + [files]
    {
      var random: string := *;
      var failed: bool := *;
      var p := Path(dir, TEMP_PREFIX + random + TEMP_SUFFIX);
      if failed || p in files {
        return None;
      }
      files := files[p := File("", PRIVATE)];
      history := history + [files];
      assert p.base[..|TEMP_PREFIX|] == TEMP_PREFIX;
      return Some(p);
    }

    method Chmod(p: Path, mode: int) returns (ok: bool)
      requires p in files
      modifies this`files, this`history
      ensures files == (if ok then old(files)[p := old(files)[p].(mode := mode)] else old(files))
      ensures history == old(history) + [files]
    {
      ok := *;
      if ok {
        files := files[p := files[p].(mode := mode)];
      }
      history := history + [files];
    }

    /**
     File.Write on a fresh file, and its Close: some part of the bytes, then the rest unless it
     fails. A Close that fails is a write that fails with all the bytes written.
     */
    method Write(p: Path, b: string) returns (ok: bool)
      requires p in files
      modifies this`files, this`history
      ensures exists part: string :: var partial := old(files)[p := old(files)[p].(content := part)];
        && history == old(history) + [partial, files]
        && files == if ok then old(files)[p := old(files)[p].(content := b)] else partial
    {
      var k: nat :| k <= |b|;
      var mode := files[p].mode;
      files := files[p := File(b[..k], mode)];
      history := history + [files];
      ok := *;
      if ok {
        files := files[p := File(b, mode)];
      }
      assert history + [files] == old(history) + [old(files)[p := old(files)[p].(content := b[..k])], files];
      history := history + [files];
    }

    /** os.Rename: atomic. */
    method Rename(from: Path, to: Path) returns (ok: bool)
      requires from in files
      modifies this`files, this`history
      ensures files == (if ok then (old(files) - {from})[to := old(files)[from]] else old(files))
      ensures history == old(history) + [files]
    {
      ok := *;
      if ok {
        files := (files - {from})[to := files[from]];
      }
      history := history + [files];
    }

    /** os.Remove, its error ignored. */
    method Remove(p: Path)
      modifies this`files, this`history
      ensures files == old(files) || files == old(files) - {p}
      ensures history == old(history) + [files]
    {
      var ok: bool := *;
      if ok {
        files := files - {p};
      }
      history := history + [files];
    }
  }

  // ------------------------------------------------------------ specification

  predicate AlphaNum(c: char) { 'A' <= c <= 'Z' || 'a' <= c <= 'z' || '0' <= c <= '9' }

  /** regionNameRE */
  predicate ValidRegion(name: string) {
    name != "" && AlphaNum(name[0]) && forall i :: 0 <= i < |name| ==> AlphaNum(name[i]) || name[i] in "._-"
  }

  predicate AlphaNumCode(n: int) { 48 <= n <= 57 || 65 <= n <= 90 || 97 <= n <= 122 }

  /** The regular expression, character by character: a letter or digit, then also dots, hyphens and underscores. */
  lemma RegionNames(name: string, c: char)
    ensures !ValidRegion("")
    ensures ValidRegion([c]) <==> AlphaNumCode(c as int)
    ensures name != "" ==>
      (ValidRegion(name + [c]) <==> ValidRegion(name) && (AlphaNumCode(c as int) || c as int in [45, 46, 95]))
  {
    if name != "" {
      assert (name + [c])[|name|] == c && (name + [c])[0] == name[0];
      assert forall i :: 0 <= i < |name| ==> (name + [c])[i] == name[i];
    }
  }

  /** A field's value: a string, or anything else JSON can hold. */
  datatype Value = Text(text: string) | NotText

  function Target(dir: string, name: string): Path {
    Path(dir, name + ".conf")
  }

  function NewFile(v: Value): File
    requires v.Text?
  {
    File(if HasSuffix(v.text, "\n") then v.text else v.text + "\n", PRIVATE)
  }

  /** files with the given names installed. */
  function Install(files: Files, dir: string, data: map<string, Value>, names: seq<string>): Files
    requires forall i :: 0 <= i < |names| ==> names[i] in data && data[names[i]].Text?
  {
    if names == [] then files
    else
      var n := |names| - 1;
      Install(files, dir, data, names[..n])[Target(dir, names[n]) := NewFile(data[names[n]])]
  }

  /** files without the temporary files that base did not have. */
  function Visible(files: Files, base: Files, dir: string): Files {
    map p | p in files && (p in base || !IsTemp(dir, p)) :: files[p]
  }

  datatype InstallError = NoFields | InvalidName(name: string) | NotAString(name: string) | MkdirFailed
    | WriteFailed(name: string)

  datatype Installed = Ok(names: seq<string>) | Err(error: InstallError)

  predicate AllValid(data: map<string, Value>) {
    forall name :: name in data ==> ValidRegion(name) && data[name].Text?
  }

  // ------------------------------------------------------------------ methods

  /** Every state since the first n shows one of the two file maps. */
  ghost predicate OnlyShows(history: seq<Files>, n: nat, base: Files, dir: string, before: Files, after: Files) {
    forall i :: n <= i < |history| ==>
      Visible(history[i], base, dir) == before || Visible(history[i], base, dir) == after
  }

  lemma TempInvisible(files: Files, base: Files, dir: string, tmp: Path, f: File)
    requires IsTemp(dir, tmp) && tmp !in base
    ensures Visible(files[tmp := f], base, dir) == Visible(files, base, dir)
    ensures Visible(files - {tmp}, base, dir) == Visible(files, base, dir)
  {
  }

  lemma RenameShows(files: Files, base: Files, dir: string, tmp: Path, to: Path)
    requires IsTemp(dir, tmp) && tmp !in base && tmp in files && !IsTemp(dir, to)
    ensures Visible((files - {tmp})[to := files[tmp]], base, dir) == Visible(files, base, dir)[to := files[tmp]]
  {
  }

  /** writeFileAtomic: whatever fails, and whenever, the path keeps its old file or has the complete new one. */
  method WriteFileAtomic(fs: FileSystem, path: Path, content: string, ghost base: Files) returns (ok: bool)
    requires base.Keys <= fs.files.Keys && !IsTemp(path.dir, path)
    modifies fs`files, fs`history
    ensures base.Keys <= fs.files.Keys && old(fs.history) <= fs.history
    ensures var before := Visible(old(fs.files), base, path.dir);
      var after := before[path := File(content, PRIVATE)];
      && Visible(fs.files, base, path.dir) == (if ok then after else before)
      && OnlyShows(fs.history, |old(fs.history)|, base, path.dir, before, after)
  {
    var created := fs.CreateTemp(path.dir);
    if created.None? {
      return false;
    }
    var tmp := created.value;
    ghost var files0 := old(fs.files);
    TempInvisible(files0, base, path.dir, tmp, File("", PRIVATE));
    ok := WriteTemp(fs, tmp, content, base, files0, path.dir);
    if ok {
      ok := fs.Rename(tmp, path);
      RenameShows(files0[tmp := File(content, PRIVATE)], base, path.dir, tmp, path);
    }
    TempInvisible(fs.files, base, path.dir, tmp, File("", PRIVATE));
    fs.Remove(tmp);
  }

  /** The writes to the temporary file, which no other path can see. */
  method WriteTemp(fs: FileSystem, tmp: Path, content: string, ghost base: Files, ghost files0: Files,
                   ghost dir: string)
    returns (ok: bool)
    requires IsTemp(dir, tmp) && tmp !in base && fs.files == files0[tmp := File("", PRIVATE)]
    modifies fs`files, fs`history
    ensures fs.files.Keys == files0.Keys + {tmp} && old(fs.history) <= fs.history
    ensures ok ==> fs.files == files0[tmp := File(content, PRIVATE)]
    ensures Visible(fs.files, base, dir) == Visible(files0, base, dir)
    ensures forall i :: |old(fs.history)| <= i < |fs.history| ==>
      Visible(fs.history[i], base, dir) == Visible(files0, base, dir)
  {
    ok := fs.Chmod(tmp, PRIVATE);
    TempInvisible(files0, base, dir, tmp, File("", PRIVATE));
    if !ok {
      return;
    }
    ok := fs.Write(tmp, content);
    ghost var n := |fs.history|;
    TempInvisible(files0, base, dir, tmp, fs.history[n - 2][tmp]);
    TempInvisible(files0, base, dir, tmp, fs.files[tmp]);
    assert fs.history[n - 2] == files0[tmp := fs.history[n - 2][tmp]];
    assert fs.files == files0[tmp := fs.files[tmp]];
  }

  /** The state that installing the first k names leads to. */
  function Prefix(files: Files, dir: string, data: map<string, Value>, names: seq<string>, k: nat): Files
    requires k <= |names| && forall i :: 0 <= i < |names| ==> names[i] in data && data[names[i]].Text?
  {
    Install(files, dir, data, names[..k])
  }

  /** Every state since the first n shows some prefix of the names installed. */
  ghost predicate OnlyPrefixes(history: seq<Files>, n: nat, base: Files, dir: string, data: map<string, Value>,
                               names: seq<string>)
    requires forall i :: 0 <= i < |names| ==> names[i] in data && data[names[i]].Text?
  {
    forall i :: n <= i < |history| ==> ShowsPrefix(history[i], base, dir, data, names)
  }

  ghost predicate ShowsPrefix(files: Files, base: Files, dir: string, data: map<string, Value>, names: seq<string>)
    requires forall i :: 0 <= i < |names| ==> names[i] in data && data[names[i]].Text?
  {
    exists k :: 0 <= k <= |names| && Visible(files, base, dir) == Prefix(base, dir, data, names, k)
  }

  lemma TargetIsNoTemp(dir: string, name: string)
    requires ValidRegion(name)
    ensures !IsTemp(dir, Target(dir, name))
  {
    var base := Target(dir, name).base;
    assert base[0] == name[0] != '.';
    assert |TEMP_PREFIX| <= |base| ==> base[..|TEMP_PREFIX|][0] == base[0];
  }

  /** The error names a field of the secret that has that fault. */
  predicate Explains(data: map<string, Value>, e: InstallError) {
    match e
    case InvalidName(name) => name in data && !ValidRegion(name)
    case NotAString(name) => name in data && ValidRegion(name) && data[name].NotText?
    case _ => false
  }

  predicate Distinct(names: seq<string>) {
    forall i, j :: 0 <= i < j < |names| ==> names[i] != names[j]
  }

  lemma DistinctAppend(names: seq<string>, name: string)
    requires Distinct(names) && name !in Elements(names)
    ensures Distinct(names + [name])
  {
    forall i | 0 <= i < |names| ensures names[i] != name {
      assert names[i] in Elements(names);
    }
  }

  /** The names met so far, all of data's but rest, are distinct and valid. */
  ghost predicate Checked(data: map<string, Value>, names: seq<string>, rest: set<string>) {
    && rest <= data.Keys && Elements(names) == data.Keys - rest && Distinct(names)
    && forall name :: name in data.Keys - rest ==> ValidRegion(name) && data[name].Text?
  }

  lemma CheckedNext(data: map<string, Value>, names: seq<string>, rest: set<string>, name: string)
    requires Checked(data, names, rest) && name in rest && ValidRegion(name) && data[name].Text?
    ensures Checked(data, names + [name], rest - {name})
  {
    DistinctAppend(names, name);
    ElementsAppend(names, name);
  }

  /** The validation loop; it meets the fields in an order of the map's choosing. */
  method CheckFields(data: map<string, Value>) returns (names: seq<string>, bad: Option<InstallError>)
    ensures bad.None? <==> AllValid(data)
    ensures bad.None? ==> Elements(names) == data.Keys && Distinct(names)
    ensures bad.Some? ==> Explains(data, bad.value)
  {
    names := [];
    var rest := data.Keys;
    while rest != {}
      invariant Checked(data, names, rest)
      decreases |rest|
    {
      var name :| name in rest;
      if !ValidRegion(name) {
        return names, Some(InvalidName(name));
      }
      if !data[name].Text? {
        return names, Some(NotAString(name));
      }
      CheckedNext(data, names, rest, name);
      names := names + [name];
      rest := rest - {name};
    }
    return names, None;
  }

  /**
   writeConfigs. An invalid field changes nothing. Otherwise the names are installed in sorted
   order, and every state on the way shows, temporary files aside, exactly a prefix of them
   installed: on success all of them, on failure as many as had been when it failed.
   */
  method WriteConfigs(fs: FileSystem, dir: string, data: map<string, Value>)
    returns (r: Installed, ghost names: seq<string>)
    modifies fs
    ensures data == map[] <==> r == Err(NoFields)
    ensures data == map[] || !AllValid(data) ==>
      r.Err? && fs.files == old(fs.files) && fs.dirs == old(fs.dirs) && fs.history == old(fs.history)
    ensures r.Err? && (r.error.InvalidName? || r.error.NotAString?) <==> data != map[] && !AllValid(data)
    ensures data != map[] && !AllValid(data) ==> Explains(data, r.error)
    ensures AllValid(data) ==>
      && StrictlySorted(names) && Elements(names) == data.Keys
      && old(fs.history) <= fs.history
      && (forall i :: 0 <= i < |names| ==> names[i] in data && data[names[i]].Text?)
      && OnlyPrefixes(fs.history, |old(fs.history)|, old(fs.files), dir, data, names)
      && match r
         case Ok(written) => written == names && dir in fs.dirs
              && Visible(fs.files, old(fs.files), dir) == Install(old(fs.files), dir, data, names)
         case Err(WriteFailed(name)) => FailedAt(fs.files, old(fs.files), dir, data, names, name)
         case Err(_) => fs.files == old(fs.files) && fs.history == old(fs.history)
  {
    names := [];
    if |data| == 0 {
      return Err(NoFields), names;
    }
    var unsorted, bad := CheckFields(data);
    if bad.Some? {
      return Err(bad.value), names;
    }
    var sorted := SortStrings(unsorted);
    names := sorted;
    forall i | 0 <= i < |names| ensures names[i] in data && data[names[i]].Text? {
      assert names[i] in Elements(names);
    }
    var ok := fs.MkdirAll(dir);
    if !ok {
      return Err(MkdirFailed), names;
    }
    ghost var base := fs.files;
    var failed := InstallAll(fs, dir, data, sorted);
    if failed.Some? {
      return Err(WriteFailed(failed.value)), names;
    }
    return Ok(sorted), names;
  }

  /** Exactly the names before the given one have been installed. */
  ghost predicate FailedAt(files: Files, base: Files, dir: string, data: map<string, Value>, names: seq<string>,
                           name: string)
    requires forall i :: 0 <= i < |names| ==> names[i] in data && data[names[i]].Text?
  {
    exists k :: 0 <= k < |names| && names[k] == name && Visible(files, base, dir) == Prefix(base, dir, data, names, k)
  }

  /** The installation loop; it returns the name whose file could not be written. */
  method InstallAll(fs: FileSystem, dir: string, data: map<string, Value>, names: seq<string>)
    returns (failed: Option<string>)
    requires forall i :: 0 <= i < |names| ==> names[i] in data && ValidRegion(names[i]) && data[names[i]].Text?
    modifies fs`files, fs`history
    ensures old(fs.history) <= fs.history
    ensures OnlyPrefixes(fs.history, |old(fs.history)|, old(fs.files), dir, data, names)
    ensures failed.None? ==> Visible(fs.files, old(fs.files), dir) == Install(old(fs.files), dir, data, names)
    ensures failed.Some? ==> FailedAt(fs.files, old(fs.files), dir, data, names, failed.value)
  {
    ghost var base := fs.files;
    assert Visible(base, base, dir) == base;
    for k := 0 to |names|
      invariant base == old(fs.files) && base.Keys <= fs.files.Keys
      invariant old(fs.history) <= fs.history
      invariant Visible(fs.files, base, dir) == Prefix(base, dir, data, names, k)
      invariant OnlyPrefixes(fs.history, |old(fs.history)|, base, dir, data, names)
    {
      var name := names[k];
      var content := data[name].text;
      if !HasSuffix(content, "\n") {
        content := content + "\n";
      }
      TargetIsNoTemp(dir, name);
      PrefixStep(base, dir, data, names, k);
      ghost var history := fs.history;
      var ok := WriteFileAtomic(fs, Target(dir, name), content, base);
      assert fs.history[..|history|] == history;
      MorePrefixes(fs.history, |old(fs.history)|, |history|, base, dir, data, names, k);
      if !ok {
        return Some(name);
      }
    }
    assert names[..|names|] == names;
    return None;
  }

  lemma PrefixStep(base: Files, dir: string, data: map<string, Value>, names: seq<string>, k: nat)
    requires k < |names| && forall i :: 0 <= i < |names| ==> names[i] in data && data[names[i]].Text?
    ensures Prefix(base, dir, data, names, k + 1)
         == Prefix(base, dir, data, names, k)[Target(dir, names[k]) := NewFile(data[names[k]])]
  {
    assert names[..k + 1][..k] == names[..k];
  }

  lemma MorePrefixes(history: seq<Files>, first: nat, n: nat, base: Files, dir: string,
                                       data: map<string, Value>, names: seq<string>, k: nat)
    requires k < |names| && forall i :: 0 <= i < |names| ==> names[i] in data && data[names[i]].Text?
    requires first <= n <= |history| && OnlyPrefixes(history[..n], first, base, dir, data, names)
    requires OnlyShows(history, n, base, dir, Prefix(base, dir, data, names, k), Prefix(base, dir, data, names, k + 1))
    ensures OnlyPrefixes(history, first, base, dir, data, names)
  {
    forall i | first <= i < |history| ensures ShowsPrefix(history[i], base, dir, data, names) {
      if i < n {
        assert history[i] == history[..n][i];
      } else if Visible(history[i], base, dir) == Prefix(base, dir, data, names, k) {
      } else {
        assert Visible(history[i], base, dir) == Prefix(base, dir, data, names, k + 1);
      }
    }
  }

  // --------------------------------------------------------------- what it means

  /** Distinct names go to distinct paths, all in dir, none of them a temporary file's. */
  lemma TargetsDistinct(dir: string, a: string, b: string)
    requires ValidRegion(a) && ValidRegion(b)
    ensures Target(dir, a) == Target(dir, b) <==> a == b
    ensures Target(dir, a).dir == dir && !IsTemp(dir, Target(dir, a))
    ensures forall i :: 0 <= i < |Target(dir, a).base| ==> Target(dir, a).base[i] != '/'
  {
    TargetIsNoTemp(dir, a);
    if a + ".conf" == b + ".conf" {
      assert a == (a + ".conf")[..|a|] && b == (b + ".conf")[..|b|];
    }
  }

  /** A path that is no name's target keeps what it held. */
  lemma {:induction false} OthersKept(files: Files, dir: string, data: map<string, Value>, names: seq<string>, p: Path)
    requires forall i :: 0 <= i < |names| ==> names[i] in data && data[names[i]].Text?
    requires forall i :: 0 <= i < |names| ==> p != Target(dir, names[i])
    ensures var after := Install(files, dir, data, names);
      (p in after <==> p in files) && (p in files ==> after[p] == files[p])
  {
    if names != [] {
      OthersKept(files, dir, data, names[..|names| - 1], p);
    }
  }

  /** The target of an installed name holds that name's new file. */
  lemma {:induction false} InstalledWhole(files: Files, dir: string, data: map<string, Value>, names: seq<string>,
                                          i: nat)
    requires i < |names| && forall k :: 0 <= k < |names| ==>
      names[k] in data && ValidRegion(names[k]) && data[names[k]].Text?
    ensures var after, p := Install(files, dir, data, names), Target(dir, names[i]);
      p in after && after[p] == NewFile(data[names[i]])
  {
    var n := |names| - 1;
    TargetsDistinct(dir, names[i], names[n]);
    if names[i] != names[n] {
      InstalledWhole(files, dir, data, names[..n], i);
      assert names[..n][i] == names[i];
    }
  }

  /**
   Old or new, never in between: in every state writeConfigs goes through, whatever fails or
   crashes, each path that is not a new temporary file holds what it held before or, if it
   is a name's target, that name's complete new content.
   */
  lemma OldOrNew(files: Files, base: Files, dir: string, data: map<string, Value>, names: seq<string>, p: Path)
    requires forall k :: 0 <= k < |names| ==> names[k] in data && ValidRegion(names[k]) && data[names[k]].Text?
    requires ShowsPrefix(files, base, dir, data, names) && (p in base || !IsTemp(dir, p))
    ensures var kept := (p in files <==> p in base) && (p in files ==> files[p] == base[p]);
      kept || exists i ::
        0 <= i < |names| && p == Target(dir, names[i]) && p in files && files[p] == NewFile(data[names[i]])
  {
    var k :| 0 <= k <= |names| && Visible(files, base, dir) == Prefix(base, dir, data, names, k);
    var done := names[..k];
    assert p in files <==> p in Visible(files, base, dir);
    if i :| 0 <= i < k && p == Target(dir, done[i]) {
      InstalledWhole(base, dir, data, done, i);
      assert p == Target(dir, names[i]);
    } else {
      OthersKept(base, dir, data, done, p);
    }
  }

  /** A new file ends in a newline, at most one byte more than the secret held, and is its owner's alone. */
  lemma NewFileEnds(v: Value)
    requires v.Text?
    ensures NewFile(v).mode == 6 * 64 && HasSuffix(NewFile(v).content, "\n")
    ensures v.text <= NewFile(v).content && |NewFile(v).content| <= |v.text| + 1
  {
    assert (v.text + "\n")[|v.text|..] == "\n";
  }
}
