/**
 The plan of a backup, from the scanned tree to the entries of every storage directory: hard links are
 found, storage directories chosen and given their safe paths, files assigned to them, and hard links
 moved to where their targets can be reached.
 */
module Planning {
  import opened Blocks
  import opened Paths
  import opened StorageDirs
  import opened SafePaths
  import opened Collisions
  import opened HardLinks

  /** Names that stay what they are in safe paths, whichever directories are chosen. */
  ghost predicate PlainNames(files: seq<Path>) {
    forall p :: p in files ==> p[0] == "" && PlainNodes(p) && Short(p)
  }

  /** Safe paths are no one else's paths, whichever directories are chosen. */
  ghost predicate NoMixUps(files: seq<Path>, dirs: set<Path>, digest: string -> string) {
    forall storage: set<Path> :: ROOT in storage && storage <= dirs ==>
      Clear(files, storage, digest) && Distinct(storage, digest)
  }

  /** A file with another name further up in the list of files. */
  predicate IsLink(files: seq<Path>, inodes: map<Path, nat>, p: Path) {
    p in files && p in inodes && p != FirstWith(files, inodes, inodes[p])
  }

  /** Where a file's content is. */
  function ContentOf(files: seq<Path>, inodes: map<Path, nat>, p: Path): Path {
    if IsLink(files, inodes, p) then FirstWith(files, inodes, inodes[p]) else p
  }

  /** The storage directory a file belongs into. */
  function Belongs(files: seq<Path>, inodes: map<Path, nat>, storage: set<Path>, p: Path): Path {
    var t := ContentOf(files, inodes, p);
    if ROOT !in storage || |p| < 2 || p[0] != "" || t[0] != "" then ROOT
    else if IsLink(files, inodes, p) then Lowest(storage, p, t)
    else
      assert ROOT <= Parent(p);
      Nearest(storage, Parent(p))
  }

  ghost predicate LinksOf(files: seq<Path>, inodes: map<Path, nat>, target: Links) {
    && (forall h :: h in target <==> IsLink(files, inodes, h))
    && (forall h :: h in target ==> target[h] == ContentOf(files, inodes, h))
  }

  /** The storage directories in the order of the files. */
  method InOrderOf(files: seq<Path>, storage: set<Path>) returns (order: seq<Path>)
    requires forall i, j :: 0 <= i < j < |files| ==> DepthFirstLess(files[i], files[j])
    requires forall s :: s in storage ==> s in files
    ensures DeepestFirst(storage, order)
  {
    hide DepthFirstLess;
    order := [];
    for i := 0 to |files|
      invariant forall s :: s in order <==> s in files[..i] && s in storage
      invariant forall j, k :: 0 <= j < k < |order| ==> DepthFirstLess(order[j], order[k])
      invariant forall j :: 0 <= j < |order| ==> exists k :: 0 <= k < i && files[k] == order[j]
    {
      assert files[..i + 1] == files[..i] + [files[i]];
      if files[i] in storage {
        order := order + [files[i]];
      }
    }
    assert files[..|files|] == files;
    SortedIsDeepestFirst(storage, order);
  }

  /** The chosen directories have to be storage directories, or hold too much; the others do not. */
  ghost predicate Chosen(files: seq<Path>, dirs: set<Path>, blocked: Sizes, triggerSize: nat, must: set<Path>,
                         storage: set<Path>)
  {
    && (forall p :: p in files ==> p in blocked)
    && ROOT in storage && must * dirs <= storage <= dirs
    && SumOfShares(files, blocked, storage, storage) == Total(files, blocked, Below(files, ROOT))
    && (triggerSize > 0 ==> forall d :: d in dirs && d !in storage ==>
          Total(files, blocked, Own(files, d, storage)) <= triggerSize)
    && (forall d :: d in storage && d !in must ==>
          triggerSize > 0 && Total(files, blocked, Own(files, d, storage)) > triggerSize)
  }

  method ChooseStorage(files: seq<Path>, dirs: set<Path>, blocked: Sizes, triggerSize: nat, must: set<Path>)
    returns (storage: set<Path>)
    requires IsTree(files, dirs, blocked) && ROOT in must && forall p :: p in dirs && |p| <= 1 ==> p in must
    requires Total(files, blocked, Below(files, ROOT)) < SIZE_LIMIT
    ensures Chosen(files, dirs, blocked, triggerSize, must, storage)
  {
    hide IsTree, Total, Below, Shares, Decided, Own, SumOfShares;
    var planner := new Planner(files, dirs, blocked, triggerSize, must);
    planner.AccumulateSizes();
    planner.SelectStorageDirs();
    storage := planner.storageDirs;
    SelectionIsBalanced(files, dirs, blocked, must, triggerSize, storage);
  }

  /** Every file's home is the nearest storage directory above it. */
  ghost predicate HomesOf(files: seq<Path>, storage: set<Path>, home: Directories) {
    && ROOT in storage && home.Keys == (set p | p in files && p != ROOT)
    && (forall p :: p in home ==> |p| > 1 && p[0] == "" && ROOT <= Parent(p) && home[p] == Nearest(storage, Parent(p)))
  }

  /** Every file has some storage directory. */
  ghost predicate AllHoused(files: seq<Path>, storage: set<Path>, home: Directories) {
    && ROOT in storage && home.Keys == (set p | p in files && p != ROOT)
    && (forall p :: p in home ==> |p| > 1 && p[0] == "" && home[p] in storage)
  }

  /** Every file's storage directory is the one found above it when all safe paths have been given. */
  ghost predicate HomesFound(files: seq<Path>, storage: set<Path>, digest: string -> string, home: Directories) {
    && ROOT in storage && (forall s :: s in storage ==> s[0] == "")
    && forall p :: p in home ==>
         |p| > 1 && ROOT <= Parent(p)
         && home[p] == FoundFrom(storage, After(files, storage, digest, |files|).stands, Parent(p))
  }

  /**
   Files get the nearest storage directory exactly if the safe paths leave nothing tangled, and safe paths are
   as they ought to be, too, exactly if these do not collide.
   */
  method AssignHomes(files: seq<Path>, dirs: set<Path>, storage: set<Path>, digest: string -> string)
    returns (home: Directories, safe: Directories)
    requires Closed(files, dirs) && ROOT in storage && storage <= dirs
    ensures AllHoused(files, storage, home) && HomesFound(files, storage, digest, home)
    ensures HomesOf(files, storage, home) <==> Untangled(files, storage, digest)
    ensures AsOught(storage, digest, safe) && OneToOne(safe) && HomesOf(files, storage, home)
       <==> Clear(files, storage, digest) && Distinct(storage, digest)
  {
    hide *;
    var planned := new Planned(files, dirs, storage, digest);
    TreeOf(planned);
    home := planned.Assign();
    safe := planned.safe;
    HomesAre(files, dirs, storage, digest, planned.directories, safe, home);
    HomesAreNearest(files, dirs, storage, digest, planned.directories, safe, home);
    AllAreFound(files, dirs, storage, digest, planned.directories, safe, home);
  }

  lemma AllAreFound(files: seq<Path>, dirs: set<Path>, storage: set<Path>, digest: string -> string,
                    directories: Directories, safe: Directories, home: Directories)
    requires Assigned(files, dirs, storage, digest, directories, safe, home)
    ensures HomesFound(files, storage, digest, home)
  {
    hide *;
    AssignedIs(files, dirs, storage, digest, directories, safe, home);
    forall p | p in home
      ensures |p| > 1 && ROOT <= Parent(p)
      ensures home[p] == FoundFrom(storage, After(files, storage, digest, |files|).stands, Parent(p))
    {
      HomeIsFound(files, dirs, storage, digest, directories, safe, home, p);
    }
    HomesFoundIs(files, storage, digest, home);
  }

  lemma HomesFoundIs(files: seq<Path>, storage: set<Path>, digest: string -> string, home: Directories)
    requires ROOT in storage && (forall s :: s in storage ==> s[0] == "")
    requires forall p :: p in home ==> |p| > 1 && ROOT <= Parent(p)
    requires forall p :: p in home ==>
      home[p] == FoundFrom(storage, After(files, storage, digest, |files|).stands, Parent(p))
    ensures HomesFound(files, storage, digest, home)
  {
    hide After, FoundFrom;
  }

  /** The storage directory a file gets into, given where it starts out. */
  function Place(files: seq<Path>, inodes: map<Path, nat>, storage: set<Path>, home: Directories, p: Path): Path {
    var t := ContentOf(files, inodes, p);
    if p !in home then ROOT
    else if !IsLink(files, inodes, p) then home[p]
    else if ROOT !in storage || p[0] != "" || t[0] != "" then ROOT
    else if |home[p]| <= |Common(p, t)| then home[p]
    else Lowest(storage, p, t)
  }

  /** Where files and the texts of links are in the end. */
  ghost predicate Placement(files: seq<Path>, inodes: map<Path, nat>, storage: set<Path>, home: Directories,
                            entries: Entries, link: Links)
  {
    && entries.Keys == storage && (forall h :: h in link <==> IsLink(files, inodes, h))
    && (forall p, s :: p in files && p != ROOT && s in storage ==>
          Times(entries[s], p) == if Place(files, inodes, storage, home, p) == s then 1 else 0)
    && (forall h :: h in link ==>
          link[h] == Beyond(ContentOf(files, inodes, h), |Place(files, inodes, storage, home, h)|))
  }

  /** Every file is where it belongs, and the texts of links lead on from there to their targets. */
  ghost predicate AllBelong(files: seq<Path>, inodes: map<Path, nat>, storage: set<Path>, entries: Entries,
                            link: Links)
  {
    && entries.Keys == storage && (forall h :: h in link <==> IsLink(files, inodes, h))
    && (forall p, s :: p in files && p != ROOT && s in storage ==>
          Times(entries[s], p) == if Belongs(files, inodes, storage, p) == s then 1 else 0)
    && (forall h :: h in link ==> Belongs(files, inodes, storage, h) + link[h] == ContentOf(files, inodes, h))
  }

  /**
   Every file leads to the storage directory it belongs into: the one found above it is the nearest, or it is a
   hard link, and goes on from the one found since that is deeper than what link and target have in common.
   */
  ghost predicate NoneAstray(files: seq<Path>, inodes: map<Path, nat>, storage: set<Path>, digest: string -> string) {
    && ROOT in storage && (forall s :: s in storage ==> s[0] == "")
    && forall p :: p in files && |p| > 1 ==>
         ROOT <= Parent(p) && NotAstray(files, inodes, storage, After(files, storage, digest, |files|).stands, p)
  }

  ghost predicate NotAstray(files: seq<Path>, inodes: map<Path, nat>, storage: set<Path>, stands: Directories, p: Path)
    requires ROOT in storage && |p| > 1 && ROOT <= Parent(p)
  {
    || LeadsUp(storage, stands, Parent(p))
    || (IsLink(files, inodes, p)
          && |FoundFrom(storage, stands, Parent(p))| > |Common(p, ContentOf(files, inodes, p))|)
  }

  /** All entries are files and directories of the tree, or copies of directories. */
  ghost predicate OnlyFiles(files: seq<Path>, entries: Entries) {
    forall s, item :: s in entries && item in entries[s] ==> item.path in files
  }

  method PlaceFiles(files: seq<Path>, dirs: set<Path>, storage: set<Path>, home: Directories, ids: map<Path, FileId>)
    returns (entries: Entries, link: Links)
    requires forall i, j :: 0 <= i < j < |files| ==> DepthFirstLess(files[i], files[j]) && files[i] != files[j]
    requires AllHoused(files, storage, home) && Closed(files, dirs) && storage <= dirs
    requires forall p :: p in ids ==> p !in dirs
    ensures Placement(files, InodesOf(ids), storage, home, entries, link) && OnlyFiles(files, entries)
    ensures HomesOf(files, storage, home) ==> AllBelong(files, InodesOf(ids), storage, entries, link)
  {
    hide *;
    ghost var inodes := InodesOf(ids);
    var target := FindHardLinks(files, ids, inodes);
    LinksAre(files, inodes, target);
    LinksAreHoused(files, dirs, storage, home, inodes, target);
    InFiles(files, dirs, storage);
    var order := InOrderOf(files, storage);
    var all := AddAll(files, home, storage);
    var links := new LinkPlanner(storage, order, target, all);
    links.FixHardLinks(home);
    entries, link := links.entries, links.link;
    FinallyPlaced(files, storage, home, inodes, target, entries, link);
    OnlyFilesPlaced(files, dirs, storage, home, target, entries);
    if HomesOf(files, storage, home) {
      LinksAreFiles(files, dirs, storage, home, inodes, target);
      FinallyBelong(files, storage, home, inodes, target, entries, link);
    }
  }

  /**
   Plans a backup. The storage directories' sizes make up the tree, and none that was not chosen holds
   too much. Every file is among the entries of one storage directory. That is where it belongs, the
   nearest above it, or, if it is a hard link, the deepest from which its target can be reached, with what is
   left of the target's path for its text, exactly if no file is led astray by the safe paths.
   */
  method PlanBackup(files: seq<Path>, dirs: set<Path>, blocked: Sizes, triggerSize: nat, must: set<Path>,
                    digest: string -> string, ids: map<Path, FileId>)
    returns (storage: set<Path>, home: Directories, safe: Directories, entries: Entries, link: Links)
    requires IsTree(files, dirs, blocked) && ROOT in must && forall p :: p in dirs && |p| <= 1 ==> p in must
    requires Total(files, blocked, Below(files, ROOT)) < SIZE_LIMIT
    requires forall p :: p in ids ==> p !in dirs
    ensures Chosen(files, dirs, blocked, triggerSize, must, storage)
    ensures AllHoused(files, storage, home) && Placement(files, InodesOf(ids), storage, home, entries, link)
    ensures OnlyFiles(files, entries)
    ensures AsOught(storage, digest, safe) && OneToOne(safe) && HomesOf(files, storage, home)
       <==> Clear(files, storage, digest) && Distinct(storage, digest)
    ensures HomesOf(files, storage, home) <==> Untangled(files, storage, digest)
    ensures AllBelong(files, InodesOf(ids), storage, entries, link)
       <==> NoneAstray(files, InodesOf(ids), storage, digest)
    ensures Untangled(files, storage, digest) ==> AllBelong(files, InodesOf(ids), storage, entries, link)
  {
    hide *;
    TreeFacts(files, dirs, blocked);
    storage := ChooseStorage(files, dirs, blocked, triggerSize, must);
    StorageIs(files, dirs, blocked, triggerSize, must, storage);
    home, safe := AssignHomes(files, dirs, storage, digest);
    entries, link := PlaceFiles(files, dirs, storage, home, ids);
    BelongIfNotAstray(files, dirs, storage, digest, home, InodesOf(ids), entries, link);
  }

  /** Where a file gets is where it belongs, exactly if it is not led astray. */
  lemma PlaceIsRight(files: seq<Path>, dirs: set<Path>, storage: set<Path>, digest: string -> string,
                     home: Directories, inodes: map<Path, nat>, p: Path)
    requires HomesFound(files, storage, digest, home) && Closed(files, dirs) && storage <= dirs && p in home
    requires p in files && forall p :: p in inodes ==> p !in dirs
    ensures |p| > 1 && ROOT in storage && ROOT <= Parent(p) && forall s :: s in storage ==> s[0] == ""
    ensures Place(files, inodes, storage, home, p) == Belongs(files, inodes, storage, p)
       <==> NotAstray(files, inodes, storage, After(files, storage, digest, |files|).stands, p)
  {
    hide *;
    HomeFound(files, storage, digest, home, p);
    var given := After(files, storage, digest, |files|);
    AfterIsShort(files, storage, digest, |files|);
    StorageStands(files[..|files|], storage, given.stands);
    FoundIsNearest(storage, given, Parent(p));
    if IsLink(files, inodes, p) {
      LinkIsNoDirectory(files, dirs, storage, inodes, p);
      LinkIsRight(files, storage, home, inodes, given, p);
    } else {
      FileIsRight(files, storage, home, inodes, given.stands, p);
    }
  }

  lemma HomeFound(files: seq<Path>, storage: set<Path>, digest: string -> string, home: Directories, p: Path)
    requires HomesFound(files, storage, digest, home) && p in home
    ensures |p| > 1 && p[0] == "" && ROOT in storage && ROOT <= Parent(p) && forall s :: s in storage ==> s[0] == ""
    ensures home[p] == FoundFrom(storage, After(files, storage, digest, |files|).stands, Parent(p))
  {
    hide After, FoundFrom;
    assert ROOT <= Parent(p);
  }

  lemma LinkIsNoDirectory(files: seq<Path>, dirs: set<Path>, storage: set<Path>, inodes: map<Path, nat>, p: Path)
    requires Closed(files, dirs) && storage <= dirs && (forall p :: p in inodes ==> p !in dirs)
    requires IsLink(files, inodes, p)
    ensures p in files && p != ROOT
    ensures var t := ContentOf(files, inodes, p); p !in storage && t !in storage && t[0] == ""
  {
    assert ROOT in dirs;
  }

  lemma FileIsRight(files: seq<Path>, storage: set<Path>, home: Directories, inodes: map<Path, nat>,
                    stands: Directories, p: Path)
    requires !IsLink(files, inodes, p) && p in home && |p| > 1 && p[0] == "" && ROOT in storage && ROOT <= Parent(p)
    requires home[p] == Nearest(storage, Parent(p)) <==> LeadsUp(storage, stands, Parent(p))
    ensures Place(files, inodes, storage, home, p) == Belongs(files, inodes, storage, p)
       <==> NotAstray(files, inodes, storage, stands, p)
  {
    hide IsLink, Nearest, LeadsUp, FoundFrom;
  }

  lemma LinkIsRight(files: seq<Path>, storage: set<Path>, home: Directories, inodes: map<Path, nat>, given: Given,
                    p: Path)
    requires IsLink(files, inodes, p) && p in home && |p| > 1 && p[0] == "" && ROOT in storage && ROOT <= Parent(p)
    requires AllShort(given) && forall d :: d in given.stands ==> given.stands[d] in storage
    requires home[p] == FoundFrom(storage, given.stands, Parent(p))
    requires home[p] == Nearest(storage, Parent(p)) <==> LeadsUp(storage, given.stands, Parent(p))
    requires var t := ContentOf(files, inodes, p); p !in storage && t !in storage && t[0] == ""
    ensures Place(files, inodes, storage, home, p) == Belongs(files, inodes, storage, p)
       <==> NotAstray(files, inodes, storage, given.stands, p)
  {
    var t := ContentOf(files, inodes, p);
    hide IsLink, ContentOf, Nearest, Lowest, Common;
    LowestIs(storage, p, t);
    NoneHigher(storage, given.stands, Parent(p), Lowest(storage, p, t));
  }

  /** No other storage directory above is as long as the first path met. */
  lemma NoneHigher(storage: set<Path>, stands: Directories, d: Path, s: Path)
    requires ROOT in storage && ROOT <= d && s in storage && s <= d
    ensures var at := FirstMet(storage, stands, d); |s| >= |at| ==> s == at
  {
    var at := FirstMet(storage, stands, d);
    assert s <= at;
    assert s == at[..|s|];
  }

  /** All files are where they belong, exactly if each of them is. */
  lemma BelongIfNotAstray(files: seq<Path>, dirs: set<Path>, storage: set<Path>, digest: string -> string,
                          home: Directories, inodes: map<Path, nat>, entries: Entries, link: Links)
    requires AllHoused(files, storage, home) && HomesFound(files, storage, digest, home)
    requires Closed(files, dirs) && storage <= dirs && forall p :: p in inodes ==> p !in dirs
    requires forall p :: p in files && p != ROOT ==> |p| > 1
    requires Placement(files, inodes, storage, home, entries, link)
    ensures AllBelong(files, inodes, storage, entries, link) <==> NoneAstray(files, inodes, storage, digest)
  {
    hide *;
    StorageIsFound(files, storage, digest, home);
    FilesAtHome(files, storage, home);
    var stands := After(files, storage, digest, |files|).stands;
    forall p | p in files && p != ROOT
      ensures |p| > 1 && ROOT <= Parent(p)
      ensures Place(files, inodes, storage, home, p) == Belongs(files, inodes, storage, p)
         <==> NotAstray(files, inodes, storage, stands, p)
    {
      PlaceIsRight(files, dirs, storage, digest, home, inodes, p);
    }
    NoneAstrayIs(files, inodes, storage, digest);
    BelongIfPlaced(files, dirs, storage, home, inodes, entries, link);
  }

  lemma StorageIsFound(files: seq<Path>, storage: set<Path>, digest: string -> string, home: Directories)
    requires HomesFound(files, storage, digest, home)
    ensures ROOT in storage && forall s :: s in storage ==> s[0] == ""
  {
    hide After, FoundFrom;
  }

  lemma NoneAstrayIs(files: seq<Path>, inodes: map<Path, nat>, storage: set<Path>, digest: string -> string)
    requires ROOT in storage && (forall s :: s in storage ==> s[0] == "")
    requires forall p :: p in files && p != ROOT ==> |p| > 1 && ROOT <= Parent(p)
    ensures NoneAstray(files, inodes, storage, digest) <==>
      forall p :: p in files && p != ROOT ==>
        NotAstray(files, inodes, storage, After(files, storage, digest, |files|).stands, p)
  {
    hide After, NotAstray;
    assert |ROOT| == 1;
  }

  lemma BelongIfPlaced(files: seq<Path>, dirs: set<Path>, storage: set<Path>, home: Directories,
                       inodes: map<Path, nat>, entries: Entries, link: Links)
    requires AllHoused(files, storage, home) && Placement(files, inodes, storage, home, entries, link)
    requires Closed(files, dirs) && storage <= dirs && forall p :: p in inodes ==> p !in dirs
    ensures AllBelong(files, inodes, storage, entries, link) <==>
      forall p :: p in files && p != ROOT ==>
        Place(files, inodes, storage, home, p) == Belongs(files, inodes, storage, p)
  {
    hide *;
    FilesAtHome(files, storage, home);
    PlacementGives(files, inodes, storage, home, entries, link);
    forall p | p in files && p != ROOT
      ensures Place(files, inodes, storage, home, p) in storage
    {
      PlaceInStorage(files, storage, home, inodes, p);
    }
    if AllBelong(files, inodes, storage, entries, link) {
      AllBelongGives(files, inodes, storage, entries, link);
      forall p | p in files && p != ROOT
        ensures Place(files, inodes, storage, home, p) == Belongs(files, inodes, storage, p)
      {
        assert Times(entries[Place(files, inodes, storage, home, p)], p) == 1;
      }
    }
    if forall p :: p in files && p != ROOT ==>
         Place(files, inodes, storage, home, p) == Belongs(files, inodes, storage, p) {
      forall h | h in link
        ensures Belongs(files, inodes, storage, h) + link[h] == ContentOf(files, inodes, h)
      {
        LinkIsNoDirectory(files, dirs, storage, inodes, h);
        TextLeadsOn(files, dirs, storage, home, inodes, h);
      }
      AllBelongIs(files, inodes, storage, entries, link);
    }
  }

  lemma PlacementGives(files: seq<Path>, inodes: map<Path, nat>, storage: set<Path>, home: Directories,
                       entries: Entries, link: Links)
    requires Placement(files, inodes, storage, home, entries, link)
    ensures entries.Keys == storage && forall h :: h in link <==> IsLink(files, inodes, h)
    ensures forall p, s :: p in files && p != ROOT && s in storage ==>
      Times(entries[s], p) == if Place(files, inodes, storage, home, p) == s then 1 else 0
    ensures forall h :: h in link ==>
      link[h] == Beyond(ContentOf(files, inodes, h), |Place(files, inodes, storage, home, h)|)
  {
    hide Place, IsLink, ContentOf, Times, Beyond;
  }

  lemma AllBelongGives(files: seq<Path>, inodes: map<Path, nat>, storage: set<Path>, entries: Entries, link: Links)
    requires AllBelong(files, inodes, storage, entries, link)
    ensures entries.Keys == storage && forall p, s :: p in files && p != ROOT && s in storage ==>
      Times(entries[s], p) == if Belongs(files, inodes, storage, p) == s then 1 else 0
  {
    hide Belongs, IsLink, ContentOf, Times;
  }

  lemma PlaceInStorage(files: seq<Path>, storage: set<Path>, home: Directories, inodes: map<Path, nat>, p: Path)
    requires AllHoused(files, storage, home) && p in home
    ensures Place(files, inodes, storage, home, p) in storage
  {
    hide IsLink, ContentOf, Lowest, Common;
  }

  /** A link's text leads on to its target from where the link belongs. */
  lemma TextLeadsOn(files: seq<Path>, dirs: set<Path>, storage: set<Path>, home: Directories, inodes: map<Path, nat>,
                    h: Path)
    requires AllHoused(files, storage, home) && IsLink(files, inodes, h) && Closed(files, dirs)
    requires var t := ContentOf(files, inodes, h); h !in storage && t !in storage && t[0] == ""
    ensures var d, t := Belongs(files, inodes, storage, h), ContentOf(files, inodes, h); d + Beyond(t, |d|) == t
  {
    hide ContentOf, Nearest, Lowest, Common;
    assert h in home;
    assert ROOT <= Parent(h);
    LowestIs(storage, h, ContentOf(files, inodes, h));
  }

  lemma StorageIs(files: seq<Path>, dirs: set<Path>, blocked: Sizes, triggerSize: nat, must: set<Path>,
                  storage: set<Path>)
    requires Chosen(files, dirs, blocked, triggerSize, must, storage)
    ensures ROOT in storage && storage <= dirs
  {
  }

  lemma TreeFacts(files: seq<Path>, dirs: set<Path>, sizes: Sizes)
    requires IsTree(files, dirs, sizes)
    ensures forall i, j :: 0 <= i < j < |files| ==> DepthFirstLess(files[i], files[j]) && files[i] != files[j]
    ensures Closed(files, dirs) && ROOT in dirs && (forall p :: p in dirs ==> p in files)
    ensures forall p :: p in files ==> p in sizes
    ensures forall p :: p in files && p != ROOT ==> |p| > 1
  {
    TreeIs(files, dirs, sizes);
  }

  lemma TreeOf(planned: Planned)
    requires Closed(planned.files, planned.dirs) && ROOT in planned.storage && planned.storage <= planned.dirs
    ensures planned.Tree()
  {
  }

  /** Trees with plain names can be planned. */
  lemma PlainNamesDoNotMixUp(files: seq<Path>, dirs: set<Path>, digest: string -> string)
    requires Closed(files, dirs) && PlainNames(files)
    ensures NoMixUps(files, dirs, digest)
  {
    hide PlainNodes, Short, Clear, Distinct;
    forall storage: set<Path> | ROOT in storage && storage <= dirs
      ensures Clear(files, storage, digest) && Distinct(storage, digest)
    {
      PlainTreesAreClear(files, storage, digest);
    }
  }

  lemma HomesAre(files: seq<Path>, dirs: set<Path>, storage: set<Path>, digest: string -> string,
                 directories: Directories, safe: Directories, home: Directories)
    requires Assigned(files, dirs, storage, digest, directories, safe, home)
    ensures AllHoused(files, storage, home) && (AllAtHome(storage, home) <==> HomesOf(files, storage, home))
  {
    hide Closed, Tabled, Added, AsOught, Clear, FirstAbove, Nearest, Overlaid, After, OnTheWay;
    forall p | p in home
      ensures home[p] in storage
    {
      FirstIsStorage(directories, storage, Parent(p));
    }
  }

  lemma {:induction false} FirstIsStorage(directories: Directories, storage: set<Path>, d: Path)
    requires d[0] == "" && ROOT in directories && directories[ROOT] in storage
    ensures FirstAbove(directories, storage, d) in storage
    decreases |d|
  {
    if !(d in directories && directories[d] in storage) {
      assert d != ROOT;
      FirstIsStorage(directories, storage, Parent(d));
    }
  }

  /** Links and their targets are files, wherever these are housed. */
  lemma LinksAreHoused(files: seq<Path>, dirs: set<Path>, storage: set<Path>, home: Directories, inodes: map<Path, nat>,
                       target: Links)
    requires AllHoused(files, storage, home) && Closed(files, dirs) && storage <= dirs
    requires (forall p :: p in inodes ==> p !in dirs) && LinksOf(files, inodes, target)
    ensures Housed(storage, home, target) && (forall p :: p in home ==> home[p] in storage)
    ensures home.Keys == (set p | p in files && p != ROOT)
  {
    InFiles(files, dirs, storage);
    LinksAndContents(files, inodes, target);
    assert ROOT in dirs;
    hide IsLink, ContentOf, LinksOf, Closed;
  }

  /** The files are at home, and the links and their targets are files. */
  lemma LinksAreFiles(files: seq<Path>, dirs: set<Path>, storage: set<Path>, home: Directories,
                      inodes: map<Path, nat>, target: Links)
    requires HomesOf(files, storage, home) && Closed(files, dirs) && storage <= dirs
    requires forall p :: p in inodes ==> p !in dirs
    requires LinksOf(files, inodes, target)
    ensures AtHome(storage, home, target)
  {
    hide *;
    InFiles(files, dirs, storage);
    LinksAndContents(files, inodes, target);
    FilesHaveHomes(files, dirs, storage, home);
    HomesAreHomes(files, storage, home, target);
  }

  lemma HomesAreHomes(files: seq<Path>, storage: set<Path>, home: Directories, target: Links)
    requires HomesOf(files, storage, home) && forall s :: s in storage ==> s[0] == ""
    requires forall h :: h in target ==> h in home && target[h] in home && h !in storage && target[h] !in storage
    ensures AtHome(storage, home, target)
  {
    hide Nearest;
  }

  lemma FilesHaveHomes(files: seq<Path>, dirs: set<Path>, storage: set<Path>, home: Directories)
    requires HomesOf(files, storage, home) && Closed(files, dirs)
    ensures forall p :: p in files && p !in dirs ==> p in home
  {
    hide Nearest;
    assert ROOT in dirs;
  }

  lemma LinksAndContents(files: seq<Path>, inodes: map<Path, nat>, target: Links)
    requires LinksOf(files, inodes, target)
    ensures forall h :: h in target ==> h in files && h in inodes && target[h] in files && target[h] in inodes
  {
    hide FirstWith;
  }

  lemma PlaceIs(files: seq<Path>, storage: set<Path>, home: Directories, inodes: map<Path, nat>, target: Links, p: Path)
    requires ROOT in storage && p in home && LinksOf(files, inodes, target)
    ensures FinalPlace(storage, home, target, p) == Place(files, inodes, storage, home, p)
    ensures p in target ==> Goal(storage, home, target, p) == Place(files, inodes, storage, home, p)
  {
    hide IsLink, ContentOf, Lowest, Common;
  }

  lemma BelongsIs(files: seq<Path>, storage: set<Path>, home: Directories, inodes: map<Path, nat>, target: Links,
                  p: Path)
    requires AtHome(storage, home, target) && HomesOf(files, storage, home) && p in home
    requires LinksOf(files, inodes, target)
    ensures FinalPlace(storage, home, target, p) == Belongs(files, inodes, storage, p)
    ensures p in target ==>
      var d := Goal(storage, home, target, p);
      d == Belongs(files, inodes, storage, p) && d + Beyond(target[p], |d|) == target[p]
  {
    hide IsLink, ContentOf, Lowest, Nearest, Goal, AtHome, Beyond;
    if p in target {
      GoalIsLowest(storage, home, target, p);
    } else {
      assert ContentOf(files, inodes, p) == p by { NoLink(files, inodes, p); }
    }
  }

  lemma NoLink(files: seq<Path>, inodes: map<Path, nat>, p: Path)
    ensures !IsLink(files, inodes, p) ==> ContentOf(files, inodes, p) == p
  {
  }

  lemma LinkAtHome(storage: set<Path>, home: Directories, target: Links)
    requires Housed(storage, home, target)
    ensures forall h :: h in target ==> h in home
  {
  }

  lemma FinallyPlaced(files: seq<Path>, storage: set<Path>, home: Directories, inodes: map<Path, nat>, target: Links,
                      entries: Entries, link: Links)
    requires Housed(storage, home, target) && AllHoused(files, storage, home) && LinksOf(files, inodes, target)
    requires entries.Keys == storage && link.Keys == target.Keys
    requires forall p, t :: p in home && t in storage ==>
      Times(entries[t], p) == if FinalPlace(storage, home, target, p) == t then 1 else 0
    requires forall h :: h in target ==> link[h] == Beyond(target[h], |Goal(storage, home, target, h)|)
    ensures Placement(files, inodes, storage, home, entries, link)
  {
    hide *;
    LinkAtHome(storage, home, target);
    FilesAtHome(files, storage, home);
    TargetsAre(files, inodes, target);
    forall p, s | p in files && p != ROOT && s in storage
      ensures Times(entries[s], p) == if Place(files, inodes, storage, home, p) == s then 1 else 0
    {
      PlaceIs(files, storage, home, inodes, target, p);
    }
    forall h | h in target
      ensures link[h] == Beyond(ContentOf(files, inodes, h), |Place(files, inodes, storage, home, h)|)
    {
      PlaceIs(files, storage, home, inodes, target, h);
    }
    PlacementIs(files, inodes, storage, home, entries, link);
  }

  lemma FinallyBelong(files: seq<Path>, storage: set<Path>, home: Directories, inodes: map<Path, nat>, target: Links,
                      entries: Entries, link: Links)
    requires AtHome(storage, home, target) && HomesOf(files, storage, home) && LinksOf(files, inodes, target)
    requires AllHoused(files, storage, home) && Housed(storage, home, target)
    requires entries.Keys == storage && link.Keys == target.Keys
    requires forall p, t :: p in home && t in storage ==>
      Times(entries[t], p) == if FinalPlace(storage, home, target, p) == t then 1 else 0
    requires forall h :: h in target ==> link[h] == Beyond(target[h], |Goal(storage, home, target, h)|)
    ensures AllBelong(files, inodes, storage, entries, link)
  {
    hide *;
    LinkAtHome(storage, home, target);
    FilesAtHome(files, storage, home);
    TargetsAre(files, inodes, target);
    forall p, s | p in files && p != ROOT && s in storage
      ensures Times(entries[s], p) == if Belongs(files, inodes, storage, p) == s then 1 else 0
    {
      BelongsIs(files, storage, home, inodes, target, p);
    }
    forall h | h in target
      ensures Belongs(files, inodes, storage, h) + link[h] == ContentOf(files, inodes, h)
    {
      BelongsIs(files, storage, home, inodes, target, h);
    }
    AllBelongIs(files, inodes, storage, entries, link);
  }

  lemma OnlyFilesPlaced(files: seq<Path>, dirs: set<Path>, storage: set<Path>, home: Directories, target: Links,
                        entries: Entries)
    requires Closed(files, dirs) && home.Keys == (set p | p in files && p != ROOT)
    requires forall p, s :: s in entries && File(p) in entries[s] ==> p in home
    requires Copied(storage, home, target, storage, entries)
    ensures OnlyFiles(files, entries)
  {
    forall s, item | s in entries && item in entries[s]
      ensures item.path in files
    {
      match item
      case File(p) =>
      case Copy(d) =>
        hide Goal;
        var h :| h in target && h in home && |d| > |home[h]| && d < h;
        Ancestors(files, dirs, h, |d|);
        assert h[..|d|] == d;
    }
  }

  lemma FilesAtHome(files: seq<Path>, storage: set<Path>, home: Directories)
    requires AllHoused(files, storage, home)
    ensures ROOT in storage && forall p :: p in files && p != ROOT ==> p in home
  {
  }

  lemma TargetsAre(files: seq<Path>, inodes: map<Path, nat>, target: Links)
    requires LinksOf(files, inodes, target)
    ensures forall h :: h in target <==> IsLink(files, inodes, h)
    ensures forall h :: h in target ==> target[h] == ContentOf(files, inodes, h)
  {
  }

  lemma PlacementIs(files: seq<Path>, inodes: map<Path, nat>, storage: set<Path>, home: Directories,
                    entries: Entries, link: Links)
    requires entries.Keys == storage && forall h :: h in link <==> IsLink(files, inodes, h)
    requires forall p, s :: p in files && p != ROOT && s in storage ==>
      Times(entries[s], p) == if Place(files, inodes, storage, home, p) == s then 1 else 0
    requires forall h :: h in link ==>
      link[h] == Beyond(ContentOf(files, inodes, h), |Place(files, inodes, storage, home, h)|)
    ensures Placement(files, inodes, storage, home, entries, link)
  {
    hide Place, IsLink, ContentOf, Times, Beyond;
  }

  lemma AllBelongIs(files: seq<Path>, inodes: map<Path, nat>, storage: set<Path>, entries: Entries, link: Links)
    requires entries.Keys == storage && forall h :: h in link <==> IsLink(files, inodes, h)
    requires forall p, s :: p in files && p != ROOT && s in storage ==>
      Times(entries[s], p) == if Belongs(files, inodes, storage, p) == s then 1 else 0
    requires forall h :: h in link ==> Belongs(files, inodes, storage, h) + link[h] == ContentOf(files, inodes, h)
    ensures AllBelong(files, inodes, storage, entries, link)
  {
    hide Belongs, IsLink, ContentOf, Times;
  }

  lemma LinksAre(files: seq<Path>, inodes: map<Path, nat>, target: Links)
    requires forall h :: h in target <==> h in files && h in inodes && h != FirstWith(files, inodes, inodes[h])
    requires forall h :: h in target ==> target[h] == FirstWith(files, inodes, inodes[h])
    ensures LinksOf(files, inodes, target)
  {
    hide FirstWith;
  }
}
