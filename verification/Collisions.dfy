/**
 When files get into the nearest storage directory although safe paths share a table with real paths: a
 path that stands for another directory while the safe paths are given may be put right before the files
 are assigned.
 */
module Collisions {
  import opened Paths
  import opened StorageDirs
  import opened SafePaths

  /** In the end, every path with something below it that is some directory's safe path stands for itself. */
  ghost predicate Untangled(files: seq<Path>, storage: set<Path>, digest: string -> string) {
    && ROOT in storage && (forall s :: s in storage ==> s[0] == "")
    && var stands := After(files, storage, digest, |files|).stands;
       forall d, p | d in stands && p in files && d < p :: stands[d] == d
  }

  /** Safe paths are no longer than the paths they are given for. */
  ghost predicate AllShort(given: Given) {
    && (forall s :: s in given.safe ==> |given.safe[s]| <= |s|)
    && (forall d :: d in given.stands ==>
          given.stands[d] in given.safe && given.safe[given.stands[d]] == d)
  }

  lemma {:induction false} GiveShort(storage: set<Path>, digest: string -> string, given: Given, s: Path)
    requires ROOT in storage && s[0] == "" && AllShort(given)
    ensures AllShort(Given(Give(storage, digest, given.stands, given.safe, s), given.stands))
    decreases |s|
  {
    hide Piece;
    if s !in given.safe && s != ROOT {
      assert ROOT <= Parent(s);
      var at := FirstMet(storage, given.stands, Parent(s));
      if at !in given.stands {
        GiveShort(storage, digest, given, at);
      }
      PieceIsShort(s, if at in given.stands then given.stands[at] else at, digest);
    }
  }

  lemma PieceIsShort(s: Path, parent: Path, digest: string -> string)
    ensures |Piece(s, parent, digest)| <= 1
  {
  }

  lemma {:induction false} AfterIsShort(files: seq<Path>, storage: set<Path>, digest: string -> string, i: nat)
    requires i <= |files| && ROOT in storage && forall s :: s in storage ==> s[0] == ""
    ensures AllShort(After(files, storage, digest, i))
    ensures StandForStorage(files[..i], storage, After(files, storage, digest, i).stands)
  {
    hide *;
    AfterIs(files, storage, digest, i);
    NothingShort();
    if i > 0 {
      var before, te := After(files, storage, digest, i - 1), files[i - 1];
      AfterIsShort(files, storage, digest, i - 1);
      assert files[..i] == files[..i - 1] + [te];
      if te in storage && te != ROOT {
        GiveShort(storage, digest, before, te);
        ShortStep(files[..i - 1], storage, before.stands, Give(storage, digest, before.stands, before.safe, te), te);
      } else {
        StillStand(files[..i - 1], storage, before.stands, te);
      }
    }
  }

  /** Paths stand for storage directories that have been met. */
  ghost predicate StandForStorage(met: seq<Path>, storage: set<Path>, stands: Directories) {
    forall d :: d in stands ==> stands[d] in storage && stands[d] in met
  }

  lemma NothingShort()
    ensures AllShort(Given(map[], map[])) && forall storage :: StandForStorage([], storage, map[])
  {
  }

  lemma ShortStep(met: seq<Path>, storage: set<Path>, stands: Directories, safe: Directories, te: Path)
    requires StandForStorage(met, storage, stands) && AllShort(Given(safe, stands)) && te in safe && te in storage
    ensures AllShort(Given(safe, stands[safe[te] := te]))
    ensures StandForStorage(met + [te], storage, stands[safe[te] := te])
  {
  }

  lemma StillStand(met: seq<Path>, storage: set<Path>, stands: Directories, te: Path)
    requires StandForStorage(met, storage, stands)
    ensures StandForStorage(met + [te], storage, stands)
  {
  }

  lemma StorageStands(met: seq<Path>, storage: set<Path>, stands: Directories)
    requires StandForStorage(met, storage, stands)
    ensures forall d :: d in stands ==> stands[d] in storage
  {
  }

  /** Going up from a directory, the first path that is a storage directory, or stands for one, stands for itself. */
  ghost predicate LeadsUp(storage: set<Path>, stands: Directories, d: Path)
    requires ROOT in storage && ROOT <= d
  {
    var at := FirstMet(storage, stands, d);
    at in stands ==> stands[at] == at
  }

  /** The storage directory that is found from there. */
  function FoundFrom(storage: set<Path>, stands: Directories, d: Path): Path
    requires ROOT in storage && ROOT <= d
  {
    var at := FirstMet(storage, stands, d);
    if at in stands then stands[at] else at
  }

  /** Who is found is the nearest storage directory, exactly if it stands for itself: no other one lies above. */
  lemma FoundIsNearest(storage: set<Path>, given: Given, d: Path)
    requires ROOT in storage && ROOT <= d && AllShort(given)
    requires forall x :: x in given.stands ==> given.stands[x] in storage
    ensures FoundFrom(storage, given.stands, d) == Nearest(storage, d) <==> LeadsUp(storage, given.stands, d)
  {
    var at := FirstMet(storage, given.stands, d);
    var n := Nearest(storage, d);
    assert n <= at;
    if at in given.stands {
      var r := given.stands[at];
      assert |at| <= |r|;
      if r == n {
        assert r <= at;
        assert r == at[..|r|] == at;
      }
      if r == at {
        assert at <= n;
        assert n == at[..|n|] == at;
      }
    } else {
      assert at <= n;
      assert n == at[..|n|] == at;
    }
  }

  /** The tree is untangled exactly if every file's way up leads to a directory that stands for itself. */
  lemma UntangledIs(files: seq<Path>, dirs: set<Path>, storage: set<Path>, digest: string -> string)
    requires Closed(files, dirs) && ROOT in storage && forall s :: s in storage ==> s[0] == ""
    ensures Untangled(files, storage, digest) <==>
      forall p :: p in files && |p| > 1 ==>
        ROOT <= Parent(p) && LeadsUp(storage, After(files, storage, digest, |files|).stands, Parent(p))
  {
    hide After;
    var stands := After(files, storage, digest, |files|).stands;
    forall p | p in files && |p| > 1
      ensures ROOT <= Parent(p) && p[0] == ""
      ensures Untangled(files, storage, digest) ==> LeadsUp(storage, stands, Parent(p))
    {
      if Untangled(files, storage, digest) {
        assert FirstMet(storage, stands, Parent(p)) < p;
      }
    }
    if forall p :: p in files && |p| > 1 ==> ROOT <= Parent(p) && LeadsUp(storage, stands, Parent(p)) {
      forall d, p | d in stands && p in files && d < p
        ensures stands[d] == d
      {
        var child := ChildBelow(files, dirs, d, p);
        MetAtOnce(storage, stands, d);
        assert LeadsUp(storage, stands, Parent(child));
      }
    }
  }

  lemma MetAtOnce(storage: set<Path>, stands: Directories, d: Path)
    requires ROOT in storage && ROOT <= d && d in stands
    ensures FirstMet(storage, stands, d) == d
  {
  }

  lemma ChildBelow(files: seq<Path>, dirs: set<Path>, d: Path, p: Path) returns (child: Path)
    requires Closed(files, dirs) && p in files && d < p
    ensures child in files && |child| > 1 && Parent(child) == d
  {
    child := p[..|d| + 1];
    Ancestors(files, dirs, p, |d| + 1);
    assert Parent(child) == d;
  }

  /** All files are in the nearest storage directory above them, exactly if the safe paths leave nothing tangled. */
  lemma HomesAreNearest(files: seq<Path>, dirs: set<Path>, storage: set<Path>, digest: string -> string,
                        directories: Directories, safe: Directories, home: Directories)
    requires Assigned(files, dirs, storage, digest, directories, safe, home)
    ensures AllAtHome(storage, home) <==> Untangled(files, storage, digest)
  {
    hide *;
    AssignedIs(files, dirs, storage, digest, directories, safe, home);
    UntangledIs(files, dirs, storage, digest);
    forall p | p in home
      ensures p in files && |p| > 1 && ROOT <= Parent(p)
      ensures home[p] == Nearest(storage, Parent(p))
         <==> LeadsUp(storage, After(files, storage, digest, |files|).stands, Parent(p))
    {
      HomeLeadsUp(files, dirs, storage, digest, directories, safe, home, p);
    }
    AtHomeIs(storage, home);
  }

  lemma AtHomeIs(storage: set<Path>, home: Directories)
    requires ROOT in storage && forall p :: p in home ==> |p| > 1 && ROOT <= Parent(p)
    ensures AllAtHome(storage, home) <==> forall p :: p in home ==> home[p] == Nearest(storage, Parent(p))
  {
    hide Nearest;
  }

  /** A file's home is who stands for the first path met above it. */
  lemma HomeIsFound(files: seq<Path>, dirs: set<Path>, storage: set<Path>, digest: string -> string,
                    directories: Directories, safe: Directories, home: Directories, p: Path)
    requires Assigned(files, dirs, storage, digest, directories, safe, home) && p in home
    ensures |p| > 1 && ROOT in storage && ROOT <= Parent(p) && forall s :: s in storage ==> s[0] == ""
    ensures home[p] == FoundFrom(storage, After(files, storage, digest, |files|).stands, Parent(p))
  {
    hide Overlaid, After, OnTheWay, Clear, AsOught, Tabled, Added, FirstAbove, Closed;
    FoundIs(storage, OnTheWay(dirs, storage), directories, After(files, storage, digest, |files|), Parent(p));
  }

  lemma HomeLeadsUp(files: seq<Path>, dirs: set<Path>, storage: set<Path>, digest: string -> string,
                    directories: Directories, safe: Directories, home: Directories, p: Path)
    requires Assigned(files, dirs, storage, digest, directories, safe, home) && p in home
    ensures p in files && |p| > 1 && ROOT in storage && ROOT <= Parent(p) && forall s :: s in storage ==> s[0] == ""
    ensures home[p] == Nearest(storage, Parent(p))
       <==> LeadsUp(storage, After(files, storage, digest, |files|).stands, Parent(p))
  {
    hide *;
    AssignedIs(files, dirs, storage, digest, directories, safe, home);
    HomeIsFound(files, dirs, storage, digest, directories, safe, home, p);
    AfterIsShort(files, storage, digest, |files|);
    StorageStands(files[..|files|], storage, After(files, storage, digest, |files|).stands);
    FoundIsNearest(storage, After(files, storage, digest, |files|), Parent(p));
  }

  // ---------------------------------------------------------------- where no two safe paths are the same

  /** The files in the order in which they are listed: deeper paths first. */
  ghost predicate DeeperFirst(files: seq<Path>) {
    forall i, j :: 0 <= i < j < |files| ==> |files[i]| >= |files[j]|
  }

  /** A directory whose own path is its safe path ought to have it. */
  ghost predicate OwnAsOught(storage: set<Path>, digest: string -> string, safe: Directories) {
    ROOT in storage && forall s :: s in safe && safe[s] == s ==> s[0] == "" && SafeOf(storage, digest, s) == s
  }

  lemma {:induction false} GiveOwn(storage: set<Path>, digest: string -> string, given: Given, s: Path)
    requires ROOT in storage && s[0] == "" && AllShort(given) && OwnAsOught(storage, digest, given.safe)
    requires forall d :: d in given.stands ==> |given.stands[d]| >= |s|
    ensures OwnAsOught(storage, digest, Give(storage, digest, given.stands, given.safe, s))
    decreases |s|
  {
    hide *;
    GiveIs(storage, digest, given.stands, given.safe, s);
    if s == ROOT {
      OwnRoot(storage, digest, given.safe);
    } else if s !in given.safe {
      var at := FirstMet(storage, given.stands, Parent(s));
      if at in given.stands {
        NothingBeyond(s, given.stands[at], digest);
        OwnAnothers(storage, digest, given.safe, s, at);
      } else {
        GiveOwn(storage, digest, given, at);
        GiveShort(storage, digest, given, at);
        var more := Give(storage, digest, given.stands, given.safe, at);
        ShortAt(Given(more, given.stands), at);
        OwnStep(storage, digest, more, s, at);
        OwnMore(storage, digest, more, s, more[at] + Piece(s, at, digest));
      }
    }
  }

  lemma ShortAt(given: Given, s: Path)
    requires AllShort(given) && s in given.safe
    ensures |given.safe[s]| <= |s|
  {
  }

  lemma OwnRoot(storage: set<Path>, digest: string -> string, safe: Directories)
    requires OwnAsOught(storage, digest, safe)
    ensures OwnAsOught(storage, digest, safe[ROOT := ROOT])
  {
    SafeOfRoot(storage, digest);
    hide SafeOf;
  }

  lemma OwnMore(storage: set<Path>, digest: string -> string, safe: Directories, s: Path, safePath: Path)
    requires OwnAsOught(storage, digest, safe) && s[0] == ""
    requires safePath == s ==> SafeOf(storage, digest, s) == s
    ensures OwnAsOught(storage, digest, safe[s := safePath])
  {
    hide SafeOf;
  }

  lemma OwnAnothers(storage: set<Path>, digest: string -> string, safe: Directories, s: Path, at: Path)
    requires OwnAsOught(storage, digest, safe) && at < s
    ensures OwnAsOught(storage, digest, safe[s := at + []])
  {
    hide SafeOf;
    assert at + [] == at && |at| < |s|;
  }

  lemma NothingBeyond(s: Path, r: Path, digest: string -> string)
    requires |r| >= |s|
    ensures Piece(s, r, digest) == []
  {
    assert Beyond(s, |r|) == ROOT && Slashed(ROOT) == "";
  }

  lemma OwnStep(storage: set<Path>, digest: string -> string, safe: Directories, s: Path, at: Path)
    requires ROOT in storage && s[0] == "" && |s| > 1 && ROOT <= Parent(s) && at in storage && at <= Parent(s)
    requires forall t :: t in storage && t <= Parent(s) ==> t <= at
    requires OwnAsOught(storage, digest, safe) && at in safe && |safe[at]| <= |at|
    ensures safe[at] + Piece(s, at, digest) == s ==> SafeOf(storage, digest, s) == s
  {
    var n := Nearest(storage, Parent(s));
    assert n <= at && at <= n && n == at[..|n|] == at;
    PieceIsShort(s, at, digest);
    hide Piece, Nearest;
    if safe[at] + Piece(s, at, digest) == s {
      assert |at| == |s| - 1 && safe[at] == s[..|s| - 1] == Parent(s) == at;
    }
  }

  lemma {:induction false} AfterOwn(files: seq<Path>, storage: set<Path>, digest: string -> string, i: nat)
    requires i <= |files| && ROOT in storage && (forall s :: s in storage ==> s[0] == "") && DeeperFirst(files)
    ensures OwnAsOught(storage, digest, After(files, storage, digest, i).safe)
  {
    hide *;
    AfterIs(files, storage, digest, i);
    NothingOwn(storage, digest);
    if i > 0 {
      AfterOwn(files, storage, digest, i - 1);
      var before, te := After(files, storage, digest, i - 1), files[i - 1];
      AfterIsShort(files, storage, digest, i - 1);
      AllDeeper(files, storage, i - 1, before.stands);
      if te in storage && te != ROOT {
        GiveOwn(storage, digest, before, te);
      }
    }
  }

  lemma NothingOwn(storage: set<Path>, digest: string -> string)
    requires ROOT in storage
    ensures OwnAsOught(storage, digest, map[])
  {
  }

  lemma AllDeeper(files: seq<Path>, storage: set<Path>, i: nat, stands: Directories)
    requires i < |files| && DeeperFirst(files) && StandForStorage(files[..i], storage, stands)
    ensures forall d :: d in stands ==> |stands[d]| >= |files[i]|
  {
  }

  /** Paths that stand for a directory go on standing for some, and given safe paths stay. */
  lemma {:induction false} AfterGrows(files: seq<Path>, storage: set<Path>, digest: string -> string, i: nat, n: nat)
    requires i <= n <= |files| && ROOT in storage && (forall s :: s in storage ==> s[0] == "")
    ensures After(files, storage, digest, i).stands.Keys <= After(files, storage, digest, n).stands.Keys
    ensures forall s :: s in files[..i] && s in storage && s != ROOT ==>
      var given := After(files, storage, digest, n); s in given.safe && given.safe[s] in given.stands
    decreases n
  {
    hide Give;
    if n > 0 {
      assert files[..n] == files[..n - 1] + [files[n - 1]];
      if i < n {
        AfterGrows(files, storage, digest, i, n - 1);
      } else {
        AfterGrows(files, storage, digest, n - 1, n - 1);
      }
    }
  }

  /** What is untangled in the end has never been tangled above, if safe paths differ. */
  lemma StandsForDeep(files: seq<Path>, storage: set<Path>, digest: string -> string, i: nat, p: Path, at: Path)
    requires i < |files| && DeeperFirst(files) && Untangled(files, storage, digest) && Distinct(storage, digest)
    requires AsOught(storage, digest, After(files, storage, digest, i).safe) && p in files && at < p
    requires at in After(files, storage, digest, i).stands
    ensures |at| >= |files[i]|
  {
    hide *;
    StorageIsAbsolute(storage, digest);
    var now, end := After(files, storage, digest, i), After(files, storage, digest, |files|);
    AfterIsShort(files, storage, digest, i);
    AfterIsShort(files, storage, digest, |files|);
    AfterGrows(files, storage, digest, i, |files|);
    AfterOwn(files, storage, digest, |files|);
    AllDeeper(files, storage, i, now.stands);
    OwnInTheEnd(files, storage, digest, end, p, at);
    OnlyOwn(files[..i], storage, digest, now, at);
  }

  lemma OwnInTheEnd(files: seq<Path>, storage: set<Path>, digest: string -> string, end: Given, p: Path, at: Path)
    requires Untangled(files, storage, digest) && end == After(files, storage, digest, |files|)
    requires AllShort(end) && OwnAsOught(storage, digest, end.safe)
    requires StandForStorage(files[..|files|], storage, end.stands)
    requires p in files && at < p && at in end.stands
    ensures at in storage && at[0] == "" && SafeOf(storage, digest, at) == at
  {
    hide After, SafeOf;
  }

  lemma OnlyOwn(met: seq<Path>, storage: set<Path>, digest: string -> string, now: Given, at: Path)
    requires AllShort(now) && StandForStorage(met, storage, now.stands) && AsOught(storage, digest, now.safe)
    requires Distinct(storage, digest) && at in now.stands && at in storage && SafeOf(storage, digest, at) == at
    ensures now.stands[at] == at
  {
    hide SafeOf;
  }

  lemma RootAsOught(storage: set<Path>, digest: string -> string, safe: Directories)
    requires AsOught(storage, digest, safe)
    ensures AsOught(storage, digest, safe[ROOT := ROOT])
  {
    SafeOfRoot(storage, digest);
    hide SafeOf;
  }

  lemma {:induction false} GiveAsOught(files: seq<Path>, storage: set<Path>, digest: string -> string, i: nat, p: Path,
                                       safe: Directories, s: Path)
    requires i < |files| && DeeperFirst(files) && Untangled(files, storage, digest) && Distinct(storage, digest)
    requires AsOught(storage, digest, After(files, storage, digest, i).safe) && p in files && s <= p
    requires |s| <= |files[i]| && s[0] == "" && AsOught(storage, digest, safe)
    ensures AsOught(storage, digest, Give(storage, digest, After(files, storage, digest, i).stands, safe, s))
    decreases |s|
  {
    hide *;
    StorageIsAbsolute(storage, digest);
    var stands := After(files, storage, digest, i).stands;
    GiveIs(storage, digest, stands, safe, s);
    RootAsOught(storage, digest, safe);
    if s !in safe && s != ROOT {
      var at := FirstMet(storage, stands, Parent(s));
      if at in stands {
        StandsForDeep(files, storage, digest, i, p, at);
        assert false;
      }
      GiveAsOught(files, storage, digest, i, p, safe, at);
      FirstIsNearestOf(storage, stands, Parent(s));
      AsOughtStep(storage, digest, Give(storage, digest, stands, safe, at), s, at,
                  Give(storage, digest, stands, safe, at)[at] + Piece(s, at, digest));
    }
  }

  lemma FirstIsNearestOf(storage: set<Path>, stands: Directories, d: Path)
    requires ROOT in storage && ROOT <= d && FirstMet(storage, stands, d) !in stands
    ensures FirstMet(storage, stands, d) == Nearest(storage, d)
  {
    var at, n := FirstMet(storage, stands, d), Nearest(storage, d);
    assert n <= at && at <= n && n == at[..|n|] == at;
  }

  lemma {:induction false} AfterAsOught(files: seq<Path>, storage: set<Path>, digest: string -> string, i: nat)
    requires i <= |files| && DeeperFirst(files) && Untangled(files, storage, digest) && Distinct(storage, digest)
    ensures AsOught(storage, digest, After(files, storage, digest, i).safe)
  {
    hide *;
    StorageIsAbsolute(storage, digest);
    AfterIs(files, storage, digest, i);
    NothingGiven(storage, digest);
    if i > 0 {
      AfterAsOught(files, storage, digest, i - 1);
      var before, te := After(files, storage, digest, i - 1), files[i - 1];
      if te in storage && te != ROOT {
        GiveAsOught(files, storage, digest, i - 1, te, before.safe, te);
      }
    }
  }

  lemma StorageIsAbsolute(storage: set<Path>, digest: string -> string)
    requires Distinct(storage, digest)
    ensures ROOT in storage && forall s :: s in storage ==> s[0] == ""
  {
  }

  /**
   Where no two storage directories ought to have the same safe path, files get into the nearest one exactly
   if no safe path is the path of another directory.
   */
  lemma UntangledIfDistinct(files: seq<Path>, dirs: set<Path>, storage: set<Path>, digest: string -> string)
    requires Closed(files, dirs) && storage <= dirs && DeeperFirst(files) && Distinct(storage, digest)
    ensures Untangled(files, storage, digest) <==> Clear(files, storage, digest)
  {
    hide *;
    StorageIsAbsolute(storage, digest);
    if Clear(files, storage, digest) {
      ClearIsUntangled(files, storage, digest);
    }
    if Untangled(files, storage, digest) {
      AfterAsOught(files, storage, digest, |files|);
      AfterGrows(files, storage, digest, |files|, |files|);
      AfterIsShort(files, storage, digest, |files|);
      StorageStands(files[..|files|], storage, After(files, storage, digest, |files|).stands);
      InFiles(files, dirs, storage);
      ClearIfOught(files, storage, digest, After(files, storage, digest, |files|));
    }
  }

  lemma ClearIfOught(files: seq<Path>, storage: set<Path>, digest: string -> string, given: Given)
    requires Untangled(files, storage, digest) && given == After(files, storage, digest, |files|)
    requires AsOught(storage, digest, given.safe) && Distinct(storage, digest) && AllShort(given)
    requires forall s :: s in files[..|files|] && s in storage && s != ROOT ==>
      s in given.safe && given.safe[s] in given.stands
    requires forall s :: s in storage ==> s in files
    requires forall d :: d in given.stands ==> given.stands[d] in storage
    ensures Clear(files, storage, digest)
  {
    assert files[..|files|] == files;
    SafeOfRoot(storage, digest);
    hide After, SafeOf;
    forall s, p | s in storage && s[0] == "" && p in files && SafeOf(storage, digest, s) < p
      ensures SafeOf(storage, digest, s) == s
    {
      if s != ROOT {
        var d := SafeOf(storage, digest, s);
        assert given.safe[s] == d && given.stands[d] == d && given.safe[d] == d;
        assert SafeOf(storage, digest, d) == d;
      }
    }
  }

  // ---------------------------------------------------------------- where no safe path is another directory's

  lemma StandsClear(files: seq<Path>, storage: set<Path>, digest: string -> string, given: Given, p: Path, d: Path)
    requires Clear(files, storage, digest) && AsOught(storage, digest, given.safe) && AllShort(given)
    requires forall d :: d in given.stands ==> given.stands[d] in storage
    requires p in files && d < p && d in given.stands
    ensures given.stands[d] == d
  {
    hide SafeOf;
  }

  lemma {:induction false} GiveClear(files: seq<Path>, storage: set<Path>, digest: string -> string, given: Given,
                                     p: Path, s: Path)
    requires Clear(files, storage, digest) && AsOught(storage, digest, given.safe) && AllShort(given)
    requires ROOT in storage && forall d :: d in given.stands ==> given.stands[d] in storage
    requires p in files && s <= p && s[0] == ""
    ensures AsOught(storage, digest, Give(storage, digest, given.stands, given.safe, s))
    decreases |s|
  {
    hide *;
    GiveIs(storage, digest, given.stands, given.safe, s);
    RootAsOught(storage, digest, given.safe);
    if s !in given.safe && s != ROOT {
      var at := FirstMet(storage, given.stands, Parent(s));
      if at in given.stands {
        StandsClear(files, storage, digest, given, p, at);
        LeadsToNearest(storage, given, Parent(s));
        AsOughtStep(storage, digest, given.safe, s, at, at + Piece(s, at, digest));
      } else {
        GiveClear(files, storage, digest, given, p, at);
        FirstIsNearestOf(storage, given.stands, Parent(s));
        AsOughtStep(storage, digest, Give(storage, digest, given.stands, given.safe, at), s, at,
                    Give(storage, digest, given.stands, given.safe, at)[at] + Piece(s, at, digest));
      }
    }
  }

  lemma LeadsToNearest(storage: set<Path>, given: Given, d: Path)
    requires ROOT in storage && ROOT <= d && AllShort(given)
    requires forall x :: x in given.stands ==> given.stands[x] in storage
    requires var at := FirstMet(storage, given.stands, d); at in given.stands && given.stands[at] == at
    ensures var at := FirstMet(storage, given.stands, d);
      at == Nearest(storage, d) && at in given.safe && given.safe[at] == at
  {
    FoundIsNearest(storage, given, d);
  }

  lemma {:induction false} AfterClear(files: seq<Path>, storage: set<Path>, digest: string -> string, i: nat)
    requires i <= |files| && Clear(files, storage, digest) && ROOT in storage && forall s :: s in storage ==> s[0] == ""
    ensures AsOught(storage, digest, After(files, storage, digest, i).safe)
    decreases i
  {
    hide *;
    AfterIs(files, storage, digest, i);
    NothingGiven(storage, digest);
    if i > 0 {
      AfterClear(files, storage, digest, i - 1);
      AfterIsShort(files, storage, digest, i - 1);
      StorageStands(files[..i - 1], storage, After(files, storage, digest, i - 1).stands);
      if files[i - 1] in storage && files[i - 1] != ROOT {
        GiveClear(files, storage, digest, After(files, storage, digest, i - 1), files[i - 1], files[i - 1]);
      }
    }
  }

  lemma NothingGiven(storage: set<Path>, digest: string -> string)
    requires ROOT in storage
    ensures AsOught(storage, digest, map[])
  {
  }

  /** Safe paths that are no other directory's paths tangle nothing, even if some are the same. */
  lemma ClearIsUntangled(files: seq<Path>, storage: set<Path>, digest: string -> string)
    requires Clear(files, storage, digest) && ROOT in storage && forall s :: s in storage ==> s[0] == ""
    ensures Untangled(files, storage, digest)
  {
    AfterClear(files, storage, digest, |files|);
    AfterIsShort(files, storage, digest, |files|);
    hide After, Clear, AsOught, AllShort;
    var given := After(files, storage, digest, |files|);
    StorageStands(files[..|files|], storage, given.stands);
    forall d, p | d in given.stands && p in files && d < p
      ensures given.stands[d] == d
    {
      StandsClear(files, storage, digest, given, p, d);
    }
  }

  // ---------------------------------------------------------------- two trees

  /** The first storage directory's safe path is given to it when nothing stands in between. */
  lemma FirstGiven(storage: set<Path>, digest: string -> string)
    requires ROOT in storage && ["", "a"] !in storage
    ensures Give(storage, digest, map[], map[], ["", "a", "b"]) == map[ROOT := ROOT][["", "a", "b"] := ["", "a_b"]]
  {
    var s: Path := ["", "a", "b"];
    GiveIs(storage, digest, map[], map[], s);
    GiveIs(storage, digest, map[], map[], ROOT);
    var at := FirstMet(storage, map[], Parent(s));
    assert Parent(s) == ["", "a"];
    assert at == ROOT by {
      assert at == ["", "a"][..|at|];
    }
    NamesOfAB(digest);
    hide Piece, FirstMet;
    assert ROOT + ["a_b"] == ["", "a_b"];
  }

  lemma NamesOfAB(digest: string -> string)
    ensures Piece(["", "a", "b"], ROOT, digest) == ["a_b"] && Piece(["", "a_b"], ROOT, digest) == ["a_b"]
  {
    assert Beyond(["", "a", "b"], 1) == ["a", "b"] && Beyond(["", "a_b"], 1) == ["a_b"];
    SafeOfAB();
    assert "a_b"[1..] == "_b" && "_b"[1..] == "b" && "b"[1..] == "";
    assert SafeDirectory("a_b") == "a_b" && Slashed(["a_b"]) == "a_b";
    hide Slashed, SafeDirectory;
  }

  lemma SecondGiven(storage: set<Path>, digest: string -> string, given: Given)
    requires ROOT in storage && ROOT in given.safe && given.safe[ROOT] == ROOT && ["", "a_b"] !in given.safe
    requires given.stands.Keys == {["", "a_b"]}
    ensures Give(storage, digest, given.stands, given.safe, ["", "a_b"]) == given.safe[["", "a_b"] := ["", "a_b"]]
  {
    var s: Path := ["", "a_b"];
    GiveIs(storage, digest, given.stands, given.safe, s);
    GiveIs(storage, digest, given.stands, given.safe, ROOT);
    assert Parent(s) == ROOT;
    NamesOfAB(digest);
    hide Piece, Give;
    assert ROOT + ["a_b"] == ["", "a_b"];
  }

  lemma SameSafePath(storage: set<Path>, digest: string -> string)
    requires storage == {ROOT, ["", "a", "b"], ["", "a_b"]}
    ensures SafeOf(storage, digest, ["", "a", "b"]) == ["", "a_b"] == SafeOf(storage, digest, ["", "a_b"])
  {
    NamesOfAB(digest);
    SafeOfRoot(storage, digest);
    hide Piece;
    assert Nearest(storage, Parent(["", "a", "b"])) == ROOT;
    assert Nearest(storage, Parent(["", "a_b"])) == ROOT;
  }

  const TREE: seq<Path> := [["", "a", "b"], ["", "a_b", "x"], ["", "a"], ["", "a_b"], [""]]

  /** Once /a/b has been given its safe path. */
  function GivenFirst(): Given {
    Given(map[ROOT := ROOT][["", "a", "b"] := ["", "a_b"]], map[["", "a_b"] := ["", "a", "b"]])
  }

  lemma AfterThree(storage: set<Path>, digest: string -> string)
    requires ROOT in storage && ["", "a", "b"] in storage && (forall s :: s in storage ==> s[0] == "")
    requires ["", "a_b", "x"] !in storage && ["", "a"] !in storage
    ensures After(TREE, storage, digest, 3) == GivenFirst()
  {
    FirstGiven(storage, digest);
    TreeHas();
    AfterIs(TREE, storage, digest, 0);
    hide After, Give, TREE;
    AfterIs(TREE, storage, digest, 1);
    AfterIs(TREE, storage, digest, 2);
    AfterIs(TREE, storage, digest, 3);
  }

  lemma TreeHas()
    ensures |TREE| == 5 && TREE[0] == ["", "a", "b"] && TREE[1] == ["", "a_b", "x"] && TREE[2] == ["", "a"]
    ensures TREE[3] == ["", "a_b"] && TREE[4] == ROOT && ["", "a_b", "x"] in TREE && ["", "a_b"] < ["", "a_b", "x"]
  {
    assert TREE[1] in TREE;
  }

  /** With /a/b the only storage directory below the root, /a_b stands for it, and what is in /a_b gets there. */
  lemma UnderscoreTangles(digest: string -> string)
    ensures !Untangled(TREE, {ROOT, ["", "a", "b"]}, digest)
  {
    var storage: set<Path> := {ROOT, ["", "a", "b"]};
    TreeHas();
    AfterThree(storage, digest);
    AfterIs(TREE, storage, digest, 4);
    AfterIs(TREE, storage, digest, 5);
    hide After, Give;
    assert ["", "a_b"] in After(TREE, storage, digest, 5).stands;
  }

  /**
   With /a_b a storage directory too, it comes later and gets its own path back: all files are put into the
   nearest storage directory, although two of these have the same safe path, and one has the other's path.
   */
  lemma PutRightAgain(digest: string -> string)
    ensures var storage: set<Path> := {ROOT, ["", "a", "b"], ["", "a_b"]};
      Untangled(TREE, storage, digest) && !Clear(TREE, storage, digest) && !Distinct(storage, digest)
  {
    hide *;
    var storage: set<Path> := {ROOT, ["", "a", "b"], ["", "a_b"]};
    NotClearThere(storage, digest);
    StandsAtLast(storage, digest);
    OwnIsUntangled(storage, digest);
  }

  lemma StandsAtLast(storage: set<Path>, digest: string -> string)
    requires storage == {ROOT, ["", "a", "b"], ["", "a_b"]}
    ensures ROOT in storage && forall s :: s in storage ==> s[0] == ""
    ensures After(TREE, storage, digest, |TREE|).stands == map[["", "a_b"] := ["", "a_b"]]
  {
    TreeHas();
    AfterThree(storage, digest);
    SecondGiven(storage, digest, GivenFirst());
    hide TREE, After, Give;
    GetsItBack(TREE, storage, digest, GivenFirst(), ["", "a_b"], ["", "a", "b"]);
  }

  /** A storage directory whose path stands for another one gets it back when its own turn comes. */
  lemma GetsItBack(files: seq<Path>, storage: set<Path>, digest: string -> string, given: Given, u: Path, s: Path)
    requires |files| == 5 && files[3] == u && files[4] == ROOT && u != ROOT
    requires ROOT in storage && u in storage && forall s :: s in storage ==> s[0] == ""
    requires After(files, storage, digest, 3) == given && given.stands == map[u := s]
    requires Give(storage, digest, given.stands, given.safe, u) == given.safe[u := u]
    ensures After(files, storage, digest, 5).stands == map[u := u]
  {
    hide After, Give;
    AfterIs(files, storage, digest, 4);
    AfterIs(files, storage, digest, 5);
    assert map[u := s][u := u] == map[u := u];
  }

  lemma OwnIsUntangled(storage: set<Path>, digest: string -> string)
    requires ROOT in storage && forall s :: s in storage ==> s[0] == ""
    requires After(TREE, storage, digest, |TREE|).stands == map[["", "a_b"] := ["", "a_b"]]
    ensures Untangled(TREE, storage, digest)
  {
    hide After;
  }

  lemma NotClearThere(storage: set<Path>, digest: string -> string)
    requires storage == {ROOT, ["", "a", "b"], ["", "a_b"]}
    ensures !Clear(TREE, storage, digest) && !Distinct(storage, digest)
  {
    SameSafePath(storage, digest);
    TreeHas();
    hide SafeOf;
    var s: Path, t: Path := ["", "a", "b"], ["", "a_b"];
    assert s in storage && t in storage && SafeOf(storage, digest, s) == SafeOf(storage, digest, t);
    assert s != t by {
      assert |s| != |t|;
    }
  }
}
