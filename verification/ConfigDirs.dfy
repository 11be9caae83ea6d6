/** runList and findConfig: which region names are listed, and which are found. */
module ConfigDirs {
  import opened Text
  import InstallConfigs

  const SUFFIX := ".conf"

  /** What a directory entry is; Link is a symbolic link that leads somewhere. */
  datatype Kind = Regular | Directory | Link | BrokenLink

  datatype Entry = Entry(name: string, kind: Kind)

  /** os.ReadDir's result. */
  datatype Listing = Entries(entries: seq<Entry>) | NotExist | Unreadable

  /** The disk, as os.ReadDir and os.Stat see it; stat tells whether it succeeds on name in dir. */
  datatype Disk = Disk(readDir: string -> Listing, stat: (string, string) -> bool)

  /** configDirs: the -config-dir flag, or the working directory and the user's, if there is one. */
  function SearchDirs(configDir: string, userDir: Option<string>): seq<string> {
    if configDir != "" then [configDir] else ["."] + if userDir.Some? then [userDir.value] else []
  }

  // ------------------------------------------------------------------ listing

  /** The region an entry stands for. */
  function RegionOf(e: Entry): Option<string> {
    if e.kind.Directory? || !HasSuffix(e.name, SUFFIX) || |e.name| == |SUFFIX| then None
    else Some(e.name[..|e.name| - |SUFFIX|])
  }

  ghost predicate ListedIn(l: Listing, region: string) {
    l.Entries? && exists e :: e in l.entries && RegionOf(e) == Some(region)
  }

  ghost predicate Listed(disk: Disk, dirs: seq<string>, region: string) {
    exists i :: 0 <= i < |dirs| && ListedIn(disk.readDir(dirs[i]), region)
  }

  /** A directory that cannot be read fails the listing, unless it is a default one that does not exist. */
  predicate Fails(l: Listing, configDir: string) {
    l.Unreadable? || (l.NotExist? && configDir != "")
  }

  ghost predicate ListingWorks(disk: Disk, configDir: string, userDir: Option<string>) {
    var dirs := SearchDirs(configDir, userDir);
    forall i :: 0 <= i < |dirs| ==> !Fails(disk.readDir(dirs[i]), configDir)
  }

  ghost predicate HasRegion(entries: seq<Entry>, region: string) {
    exists i :: 0 <= i < |entries| && RegionOf(entries[i]) == Some(region)
  }

  lemma HasRegionStep(entries: seq<Entry>, i: nat, region: string)
    requires i < |entries|
    ensures HasRegion(entries[..i + 1], region) <==>
      HasRegion(entries[..i], region) || RegionOf(entries[i]) == Some(region)
  {
    if HasRegion(entries[..i], region) {
      var k :| 0 <= k < i && RegionOf(entries[..i][k]) == Some(region);
      assert entries[..i + 1][k] == entries[k];
    }
    if HasRegion(entries[..i + 1], region) {
      var k :| 0 <= k <= i && RegionOf(entries[..i + 1][k]) == Some(region);
      assert k < i ==> entries[..i][k] == entries[k];
    }
    assert entries[..i + 1][i] == entries[i];
  }

  method AddRegions(regions: set<string>, entries: seq<Entry>) returns (more: set<string>)
    ensures forall r :: r in more <==> r in regions || ListedIn(Entries(entries), r)
  {
    more := regions;
    for i := 0 to |entries|
      invariant forall r :: r in more <==> r in regions || HasRegion(entries[..i], r)
    {
      var e := entries[i];
      forall r ensures HasRegion(entries[..i + 1], r) <==> HasRegion(entries[..i], r) || RegionOf(e) == Some(r) {
        HasRegionStep(entries, i, r);
      }
      if !e.kind.Directory? && HasSuffix(e.name, SUFFIX) {
        var region := e.name[..|e.name| - |SUFFIX|];
        if region != "" {
          more := more + {region};
        }
      }
    }
    assert entries[..|entries|] == entries;
    forall r ensures HasRegion(entries, r) <==> ListedIn(Entries(entries), r) {
      if HasRegion(entries, r) {
        var k :| 0 <= k < |entries| && RegionOf(entries[k]) == Some(r);
        assert entries[k] in entries;
      }
    }
  }

  /** A region is listed in a directory that is searched: the one asked for, or the working and the user's one. */
  ghost predicate ListedWhereSearched(disk: Disk, configDir: string, userDir: Option<string>, region: string) {
    if configDir != "" then ListedIn(disk.readDir(configDir), region)
    else ListedIn(disk.readDir("."), region) || (userDir.Some? && ListedIn(disk.readDir(userDir.value), region))
  }

  lemma SearchedIs(disk: Disk, configDir: string, userDir: Option<string>, region: string)
    ensures Listed(disk, SearchDirs(configDir, userDir), region) <==>
      ListedWhereSearched(disk, configDir, userDir, region)
  {
    var dirs := SearchDirs(configDir, userDir);
    assert dirs[0] == if configDir != "" then configDir else ".";
    assert ListedIn(disk.readDir(dirs[0]), region) ==> Listed(disk, dirs, region);
    if configDir == "" && userDir.Some? {
      assert dirs[1] == userDir.value;
      assert ListedIn(disk.readDir(dirs[1]), region) ==> Listed(disk, dirs, region);
    }
    if Listed(disk, dirs, region) {
      var i :| 0 <= i < |dirs| && ListedIn(disk.readDir(dirs[i]), region);
      assert i == 0 || i == 1;
    }
  }

  lemma ListingWorksIff(disk: Disk, configDir: string, userDir: Option<string>)
    ensures ListingWorks(disk, configDir, userDir) <==>
      if configDir != "" then disk.readDir(configDir).Entries?
      else !disk.readDir(".").Unreadable? && (userDir.Some? ==> !disk.readDir(userDir.value).Unreadable?)
  {
    var dirs := SearchDirs(configDir, userDir);
    assert dirs[0] == if configDir != "" then configDir else ".";
    if configDir == "" && userDir.Some? {
      assert dirs[1] == userDir.value;
    }
    if ListingWorks(disk, configDir, userDir) {
      assert !Fails(disk.readDir(dirs[0]), configDir);
      assert |dirs| > 1 ==> !Fails(disk.readDir(dirs[1]), configDir);
    } else {
      var i :| 0 <= i < |dirs| && Fails(disk.readDir(dirs[i]), configDir);
      assert i == 0 || i == 1;
    }
  }

  /** runList without its flags: None is its error. */
  method RunList(disk: Disk, configDir: string, userDir: Option<string>) returns (names: Option<seq<string>>)
    ensures names.Some? <==> ListingWorks(disk, configDir, userDir)
    ensures names.Some? ==> StrictlySorted(names.value)
    ensures names.Some? ==> forall r :: r in names.value <==> Listed(disk, SearchDirs(configDir, userDir), r)
    ensures names.None? <==>
      if configDir != "" then !disk.readDir(configDir).Entries?
      else disk.readDir(".").Unreadable? || (userDir.Some? && disk.readDir(userDir.value).Unreadable?)
    ensures names.Some? ==> forall r :: r in names.value <==> ListedWhereSearched(disk, configDir, userDir, r)
  {
    ListingWorksIff(disk, configDir, userDir);
    var dirs := SearchDirs(configDir, userDir);
    var regions: set<string> := {};
    for i := 0 to |dirs|
      invariant forall k :: 0 <= k < i ==> !Fails(disk.readDir(dirs[k]), configDir)
      invariant forall r :: r in regions <==> exists k :: 0 <= k < i && ListedIn(disk.readDir(dirs[k]), r)
    {
      var listing := disk.readDir(dirs[i]);
      if !listing.Entries? {
        if configDir == "" && listing.NotExist? {
          continue;
        }
        return None;
      }
      regions := AddRegions(regions, listing.entries);
    }
    var unsorted := Enumerate(regions);
    var sorted := SortStrings(unsorted);
    assert forall r :: r in sorted <==> r in Elements(sorted);
    assert forall r :: r in sorted <==> Listed(disk, dirs, r);
    forall r: string
      ensures Listed(disk, dirs, r) <==> ListedWhereSearched(disk, configDir, userDir, r)
    {
      SearchedIs(disk, configDir, userDir, r);
    }
    return Some(sorted);
  }

  /** Ranging over a map's keys, in any order. */
  method Enumerate(keys: set<string>) returns (names: seq<string>)
    ensures Elements(names) == keys && forall i, j :: 0 <= i < j < |names| ==> names[i] != names[j]
  {
    names := [];
    var rest := keys;
    while rest != {}
      invariant rest <= keys && Elements(names) == keys - rest
      invariant InstallConfigs.Distinct(names)
      decreases |rest|
    {
      var name :| name in rest;
      InstallConfigs.DistinctAppend(names, name);
      ElementsAppend(names, name);
      names := names + [name];
      rest := rest - {name};
    }
  }

  // ------------------------------------------------------------------ finding

  /** findConfig: the directory of the region's file; None is its error. */
  method FindConfig(disk: Disk, region: string, configDir: string, userDir: Option<string>)
    returns (dir: Option<string>)
    ensures var dirs := SearchDirs(configDir, userDir);
      match dir
      case Some(d) => exists i :: 0 <= i < |dirs| && dirs[i] == d && FirstFound(disk, dirs, region, i)
      case None => forall i :: 0 <= i < |dirs| ==> !disk.stat(dirs[i], region + SUFFIX)
    ensures dir ==
      if configDir != "" then (if disk.stat(configDir, region + ".conf") then Some(configDir) else None)
      else if disk.stat(".", region + ".conf") then Some(".")
      else if userDir.Some? && disk.stat(userDir.value, region + ".conf") then userDir else None
  {
    var name := region + SUFFIX;
    if configDir != "" {
      if !disk.stat(configDir, name) {
        return None;
      }
      assert FirstFound(disk, SearchDirs(configDir, userDir), region, 0);
      return Some(configDir);
    }
    var candidates := SearchDirs("", userDir);
    for i := 0 to |candidates|
      invariant forall k :: 0 <= k < i ==> !disk.stat(candidates[k], name)
    {
      if disk.stat(candidates[i], name) {
        assert FirstFound(disk, candidates, region, i);
        assert candidates[0] == "." && (i == 1 ==> candidates[1] == userDir.value);
        return Some(candidates[i]);
      }
    }
    assert candidates[0] == "." && (userDir.Some? ==> candidates[1] == userDir.value);
    return None;
  }

  ghost predicate FirstFound(disk: Disk, dirs: seq<string>, region: string, i: nat)
    requires i < |dirs|
  {
    disk.stat(dirs[i], region + SUFFIX) && forall k :: 0 <= k < i ==> !disk.stat(dirs[k], region + SUFFIX)
  }

  ghost predicate Found(disk: Disk, dirs: seq<string>, region: string) {
    exists i :: 0 <= i < |dirs| && disk.stat(dirs[i], region + SUFFIX)
  }

  // ---------------------------------------------------------------- agreement

  /** A strictly sorted list of exactly the listed names can only be one. */
  lemma ListingIsUnique(disk: Disk, dirs: seq<string>, a: seq<string>, b: seq<string>)
    requires StrictlySorted(a) && forall r :: r in a <==> Listed(disk, dirs, r)
    requires StrictlySorted(b) && forall r :: r in b <==> Listed(disk, dirs, r)
    ensures a == b
  {
    assert Elements(a) == Elements(b);
    SortedUnique(a, b);
  }

  predicate SeparatorFree(name: string) { '/' !in name && '\\' !in name }

  /**
   One disk behind both calls: of the names that can be a configuration file's, stat finds the
   entries that lead somewhere, wherever a directory can be read.
   */
  ghost predicate Consistent(disk: Disk) {
    forall dir: string, name: string :: SeparatorFree(name) && HasSuffix(name, SUFFIX) ==>
      disk.readDir(dir).Unreadable? || (disk.stat(dir, name) <==> LeadsSomewhere(disk.readDir(dir), name))
  }

  predicate LeadsSomewhere(l: Listing, name: string) {
    l.Entries? && exists e :: e in l.entries && e.name == name && !e.kind.BrokenLink?
  }

  /**
   Whatever its directories list, some disk is consistent with it, on which "." can be found wherever
   one can be read.
   */
  lemma ListingsHaveADisk(readDir: string -> Listing) returns (disk: Disk)
    ensures disk.readDir == readDir && Consistent(disk)
    ensures forall dir: string :: readDir(dir).Entries? ==> disk.stat(dir, ".")
  {
    disk := Disk(readDir, (dir, name) => name == "." || LeadsSomewhere(readDir(dir), name));
  }

  /** An entry of a search directory is the region's configuration file, or named like it. */
  ghost predicate Occurs(disk: Disk, dirs: seq<string>, region: string, e: Entry) {
    e.name == region + SUFFIX && exists i ::
      0 <= i < |dirs| && disk.readDir(dirs[i]).Entries? && e in disk.readDir(dirs[i]).entries
  }

  lemma RegionOfSuffix(e: Entry, region: string)
    ensures RegionOf(e) == Some(region) <==> region != "" && e.name == region + ".conf" && !e.kind.Directory?
  {
    if e.name == region + SUFFIX {
      assert e.name[|e.name| - |SUFFIX|..] == SUFFIX && e.name[..|e.name| - |SUFFIX|] == region;
    }
    if RegionOf(e).Some? {
      HasSuffixIff(e.name, SUFFIX);
    }
  }

  lemma ListedMeans(disk: Disk, dirs: seq<string>, region: string)
    requires region != ""
    ensures Listed(disk, dirs, region) <==> exists e :: Occurs(disk, dirs, region, e) && !e.kind.Directory?
  {
    forall e: Entry ensures RegionOf(e) == Some(region) <==> e.name == region + SUFFIX && !e.kind.Directory? {
      RegionOfSuffix(e, region);
    }
    if Listed(disk, dirs, region) {
      var i :| 0 <= i < |dirs| && ListedIn(disk.readDir(dirs[i]), region);
      var e :| e in disk.readDir(dirs[i]).entries && RegionOf(e) == Some(region);
      assert Occurs(disk, dirs, region, e);
    }
    if e :| Occurs(disk, dirs, region, e) && !e.kind.Directory? {
      var i :| 0 <= i < |dirs| && disk.readDir(dirs[i]).Entries? && e in disk.readDir(dirs[i]).entries;
      assert ListedIn(disk.readDir(dirs[i]), region);
    }
  }

  lemma FoundMeans(disk: Disk, dirs: seq<string>, region: string)
    requires Consistent(disk) && SeparatorFree(region)
    requires forall i :: 0 <= i < |dirs| ==> !disk.readDir(dirs[i]).Unreadable?
    ensures Found(disk, dirs, region) <==> exists e :: Occurs(disk, dirs, region, e) && !e.kind.BrokenLink?
  {
    var name := region + SUFFIX;
    assert '/' !in SUFFIX && '\\' !in SUFFIX;
    assert name[|name| - |SUFFIX|..] == SUFFIX;
    if Found(disk, dirs, region) {
      var i :| 0 <= i < |dirs| && disk.stat(dirs[i], name);
      var e :| e in disk.readDir(dirs[i]).entries && e.name == name && !e.kind.BrokenLink?;
      assert Occurs(disk, dirs, region, e);
    }
    if e :| Occurs(disk, dirs, region, e) && !e.kind.BrokenLink? {
      var i :| 0 <= i < |dirs| && disk.readDir(dirs[i]).Entries? && e in disk.readDir(dirs[i]).entries;
      assert disk.stat(dirs[i], name);
    }
  }

  /**
   Listing and finding agree on a name, once the listing succeeds, if and only if neither all
   the entries named after it are directories nor all of them are broken links: the one kind
   is found and not listed, the other listed and not found.
   */
  lemma AgreeIff(disk: Disk, configDir: string, userDir: Option<string>, region: string)
    requires Consistent(disk) && region != "" && SeparatorFree(region)
    requires ListingWorks(disk, configDir, userDir)
    ensures var dirs := SearchDirs(configDir, userDir);
      var occurs := exists e :: Occurs(disk, dirs, region, e);
      && (Found(disk, dirs, region) && !Listed(disk, dirs, region) <==>
            occurs && forall e :: Occurs(disk, dirs, region, e) ==> e.kind.Directory?)
      && (Listed(disk, dirs, region) && !Found(disk, dirs, region) <==>
            occurs && forall e :: Occurs(disk, dirs, region, e) ==> e.kind.BrokenLink?)
  {
    var dirs := SearchDirs(configDir, userDir);
    ListedMeans(disk, dirs, region);
    FoundMeans(disk, dirs, region);
  }

  // --------------------------------------------------------- after a download

  /** The disk shows the files of the file system that writeConfigs works on. */
  ghost predicate Reflects(disk: Disk, files: InstallConfigs.Files) {
    forall p :: p in files ==>
      disk.readDir(p.dir).Entries? && Entry(p.base, Regular) in disk.readDir(p.dir).entries && disk.stat(p.dir, p.base)
  }

  /** After a successful writeConfigs into a search directory, every written name is listed and found. */
  lemma WrittenAreListedAndFound(disk: Disk, files: InstallConfigs.Files, base: InstallConfigs.Files, dir: string,
                                 data: map<string, InstallConfigs.Value>, names: seq<string>, dirs: seq<string>, i: nat)
    requires InstallConfigs.AllValid(data) && Elements(names) == data.Keys && i < |names|
    requires forall k :: 0 <= k < |names| ==> names[k] in data && data[names[k]].Text?
    requires InstallConfigs.Visible(files, base, dir) == InstallConfigs.Install(base, dir, data, names)
    requires Reflects(disk, files) && dir in dirs
    ensures Listed(disk, dirs, names[i]) && Found(disk, dirs, names[i])
  {
    var p := InstallConfigs.Target(dir, names[i]);
    InstallConfigs.InstalledWhole(base, dir, data, names, i);
    assert p in InstallConfigs.Visible(files, base, dir);
    var d :| 0 <= d < |dirs| && dirs[d] == dir;
    var e := Entry(p.base, Regular);
    RegionOfSuffix(e, names[i]);
    assert ListedIn(disk.readDir(dirs[d]), names[i]);
  }
}
