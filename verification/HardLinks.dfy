/**
 Hard links: the first of the files with an inode keeps the content, the others become links to it.
 A link has to be in a tar from which its target can be reached, so links move up between storage
 directories, and the directories they are in are copied up to follow them.
 */
module HardLinks {
  import opened Paths
  import opened StorageDirs

  datatype Item = File(path: Path) | Copy(path: Path)

  datatype Move = Move(entry: Path, to: Path)

  type Links = map<Path, Path>

  type Entries = map<Path, seq<Item>>

  /** The first of the files that is the same file on disk. */
  function FirstWith(files: seq<Path>, inodes: map<Path, nat>, inode: nat): (p: Path)
    requires exists q :: q in files && q in inodes && inodes[q] == inode
    ensures p in files && p in inodes && inodes[p] == inode
  {
    if files[0] in inodes && inodes[files[0]] == inode then files[0] else FirstWith(files[1..], inodes, inode)
  }

  /** In a list that is sorted deepest first, the first one is the deepest one. */
  lemma {:induction false} FirstIsDeepest(files: seq<Path>, inodes: map<Path, nat>, q: Path)
    requires forall i, j :: 0 <= i < j < |files| ==> DepthFirstLess(files[i], files[j])
    requires q in files && q in inodes
    ensures q == FirstWith(files, inodes, inodes[q]) || DepthFirstLess(FirstWith(files, inodes, inodes[q]), q)
  {
    if files[0] in inodes && inodes[files[0]] == inodes[q] {
      var j :| 0 <= j < |files| && files[j] == q;
    } else {
      FirstIsDeepest(files[1..], inodes, q);
    }
  }

  lemma {:induction false} FirstWithOneMore(files: seq<Path>, more: seq<Path>, inodes: map<Path, nat>, inode: nat)
    requires exists q :: q in files && q in inodes && inodes[q] == inode
    ensures exists q :: q in files + more && q in inodes && inodes[q] == inode
    ensures FirstWith(files + more, inodes, inode) == FirstWith(files, inodes, inode)
  {
    var q :| q in files && q in inodes && inodes[q] == inode;
    assert q in files + more;
    if !(files[0] in inodes && inodes[files[0]] == inode) {
      assert (files + more)[1..] == files[1..] + more;
      FirstWithOneMore(files[1..], more, inodes, inode);
    }
  }

  /** The deepest storage directory with both a link and its target below it. */
  function Lowest(storage: set<Path>, h: Path, t: Path): (s: Path)
    requires ROOT in storage && h[0] == "" && t[0] == ""
    ensures s in storage && s <= h && s <= t && forall r :: r in storage && r <= h && r <= t ==> r <= s
  {
    CommonIsLongest(h, t, ROOT);
    assert ROOT <= Common(h, t);
    assert forall r :: r in storage && r <= h && r <= t ==> r <= Common(h, t) by {
      forall r | r in storage && r <= h && r <= t
        ensures r <= Common(h, t)
      {
        CommonIsLongest(h, t, r);
      }
    }
    Nearest(storage, Common(h, t))
  }

  /** How often a file is among the entries. */
  function Times(items: seq<Item>, p: Path): nat {
    multiset(items)[File(p)]
  }

  /** Every file is in the entries of its place, once, and in no others. */
  ghost predicate Placed(entries: Entries, place: map<Path, Path>) {
    && (forall p :: p in place ==> place[p] in entries)
    && (forall p, t :: p in place && t in entries ==> Times(entries[t], p) == if place[p] == t then 1 else 0)
    && (forall p, t :: t in entries && File(p) in entries[t] ==> p in place)
  }

  /**
   The directory a link gets into: it stays at home if it has as many nodes in common with its target as
   the home has, and moves to the lowest directory above both otherwise.
   */
  function Goal(storage: set<Path>, home: map<Path, Path>, target: Links, h: Path): Path
    requires h in target
  {
    if ROOT !in storage || h !in home || h[0] != "" || target[h][0] != "" then ROOT
    else if |home[h]| <= |Common(h, target[h])| then home[h]
    else Lowest(storage, h, target[h])
  }

  /** A directory that is dealt with has its links moved to where they belong. */
  function TurnsTo(done: set<Path>, n: Path, d: Path): Path {
    if n in done then d else n
  }

  /** Where a file is when the directories of a set have been dealt with. */
  function PlaceOf(storage: set<Path>, home: map<Path, Path>, target: Links, done: set<Path>, p: Path): Path
    requires p in home
  {
    if p in target then TurnsTo(done, home[p], Goal(storage, home, target, p)) else home[p]
  }

  /** The planner's input: every file is in some storage directory, and links and their targets are files. */
  ghost predicate Housed(storage: set<Path>, home: map<Path, Path>, target: Links) {
    && ROOT in storage && (forall s :: s in storage ==> s[0] == "")
    && (forall p :: p in home ==> |p| > 1 && p[0] == "" && home[p] in storage)
    && (forall h :: h in target ==> h in home && target[h] in home)
  }

  lemma HomeIs(storage: set<Path>, home: map<Path, Path>, target: Links, h: Path)
    requires Housed(storage, home, target) && h in target
    ensures h in home && |h| > 1 && h[0] == "" && target[h][0] == "" && ROOT in storage && home[h] in storage
  {
  }

  /** A link stays at home or moves up. */
  lemma LinkIs(storage: set<Path>, home: map<Path, Path>, target: Links, h: Path)
    requires Housed(storage, home, target) && h in target
    ensures h in home && |h| > 1 && h[0] == "" && target[h][0] == "" && ROOT in storage
    ensures
      var d, n, c := Goal(storage, home, target, h), home[h], Common(h, target[h]);
      && (d != n ==> d == Lowest(storage, h, target[h]) && |d| < |n|)
      && d in storage && n in storage && |d| <= |c| && (|n| <= |c| <==> d == n)
  {
    hide Nearest, Lowest, Common, Housed;
    HomeIs(storage, home, target, h);
    CommonIsLongest(h, target[h], Lowest(storage, h, target[h]));
  }

  /** Every file is in the nearest storage directory above it. */
  ghost predicate AtHome(storage: set<Path>, home: map<Path, Path>, target: Links) {
    && ROOT in storage && (forall s :: s in storage ==> s[0] == "")
    && (forall p :: p in home ==> |p| > 1 && p[0] == "" && ROOT <= Parent(p) && home[p] == Nearest(storage, Parent(p)))
    && (forall h :: h in target ==> h in home && target[h] in home && h !in storage && target[h] !in storage)
  }

  lemma NearestIsHome(storage: set<Path>, home: map<Path, Path>, target: Links, h: Path)
    requires AtHome(storage, home, target) && h in target
    ensures h in home && |h| > 1 && h[0] == "" && target[h][0] == "" && ROOT in storage && ROOT <= Parent(h)
    ensures home[h] == Nearest(storage, Parent(h)) && h !in storage && target[h] !in storage
  {
  }

  /** The lowest common directory is the home, or further up if not all of the home's path is common. */
  lemma LowestIs(storage: set<Path>, h: Path, t: Path)
    requires ROOT in storage && |h| > 1 && h[0] == "" && t[0] == "" && ROOT <= Parent(h)
    requires h !in storage && t !in storage
    ensures var d, n := Lowest(storage, h, t), Nearest(storage, Parent(h));
      d <= n < h && d < t && |d| <= |Common(h, t)| && (|n| <= |Common(h, t)| <==> d == n)
  {
    var d, n := Lowest(storage, h, t), Nearest(storage, Parent(h));
    hide Nearest, Lowest, Common;
    assert d == h[..|d|] && d != h && d != t;
    assert d <= Parent(h);
    CommonIsLongest(h, t, d);
    CommonIsLongest(h, t, n);
    PrefixIfShort(h, n, Common(h, t));
  }

  lemma PrefixIfShort(p: seq<string>, a: seq<string>, b: seq<string>)
    requires a <= p && b <= p
    ensures a <= b <==> |a| <= |b|
  {
  }

  /**
   Where every file starts out in the nearest storage directory, a link gets into the deepest one above both
   it and its target, and that directory's path and the link's cut text make up the target.
   */
  lemma GoalIsLowest(storage: set<Path>, home: map<Path, Path>, target: Links, h: Path)
    requires AtHome(storage, home, target) && h in target
    ensures ROOT in storage && h[0] == "" && target[h][0] == ""
    ensures var d, t := Goal(storage, home, target, h), target[h];
      d == Lowest(storage, h, t) && d + Beyond(t, |d|) == t
  {
    hide Nearest, Lowest, Common, AtHome;
    NearestIsHome(storage, home, target, h);
    LowestIs(storage, h, target[h]);
  }

  lemma AtHomeIsHoused(storage: set<Path>, home: map<Path, Path>, target: Links)
    requires AtHome(storage, home, target)
    ensures Housed(storage, home, target)
  {
    hide Nearest;
  }

  // ---------------------------------------------------------------- one move

  lemma NoRepeat(items: seq<Item>, k: nat)
    requires k < |items| && multiset(items)[items[k]] <= 1
    ensures items[k] !in items[..k]
  {
    assert items == items[..k] + [items[k]] + items[k + 1..];
  }

  /** std::find and erase. */
  function Without(items: seq<Item>, x: Item): (r: seq<Item>)
    requires x in items
    ensures multiset(r) == multiset(items) - multiset{x} && forall y :: y in r ==> y in items
  {
    if items[0] == x then
      assert items == [items[0]] + items[1..];
      items[1..]
    else
      assert items == [items[0]] + items[1..];
      [items[0]] + Without(items[1..], x)
  }

  lemma MoveStep(entries: Entries, place: map<Path, Path>, e: Path, from: Path, to: Path)
    requires Placed(entries, place) && e in place && place[e] == from && to in entries && to != from
    ensures File(e) in entries[from]
    ensures Placed(entries[from := Without(entries[from], File(e))][to := entries[to] + [File(e)]], place[e := to])
  {
    hide *;
    IsThere(entries, place, e);
    var less := Without(entries[from], File(e));
    var after, now := entries[from := less][to := entries[to] + [File(e)]], place[e := to];
    TimesAfter(entries, place, e, from, to, after, now);
    StillPlaced(entries, place, e, from, less, to);
    PlacedIs(after, now);
  }

  lemma IsThere(entries: Entries, place: map<Path, Path>, e: Path)
    requires Placed(entries, place) && e in place
    ensures forall p :: p in place ==> place[p] in entries
    ensures File(e) in entries[place[e]]
  {
    assert Times(entries[place[e]], e) == 1;
  }

  lemma TimesAfter(entries: Entries, place: map<Path, Path>, e: Path, from: Path, to: Path,
                   after: Entries, now: map<Path, Path>)
    requires Placed(entries, place) && e in place && place[e] == from && to in entries && to != from
    requires File(e) in entries[from] && now == place[e := to]
    requires after == entries[from := Without(entries[from], File(e))][to := entries[to] + [File(e)]]
    ensures forall p, t :: p in now && t in after ==> Times(after[t], p) == if now[p] == t then 1 else 0
  {
    hide Without, Times;
    forall p {
      TimesMoved(entries[from], entries[to], e, p);
    }
  }

  lemma StillPlaced(entries: Entries, place: map<Path, Path>, e: Path, from: Path, less: seq<Item>, to: Path)
    requires Placed(entries, place) && e in place && from in entries && to in entries
    requires to != from && forall i :: i in less ==> i in entries[from]
    ensures var after := entries[from := less][to := entries[to] + [File(e)]];
      forall p, t :: t in after && File(p) in after[t] ==> p in place[e := to]
  {
    hide Times;
    var after := entries[from := less][to := entries[to] + [File(e)]];
    forall p, t | t in after && File(p) in after[t]
      ensures p == e || p in place
    {
      assert p == e || File(p) in entries[t];
    }
  }

  lemma PlacedIs(entries: Entries, place: map<Path, Path>)
    requires forall p :: p in place ==> place[p] in entries
    requires forall p, t :: p in place && t in entries ==> Times(entries[t], p) == if place[p] == t then 1 else 0
    requires forall p, t :: t in entries && File(p) in entries[t] ==> p in place
    ensures Placed(entries, place)
  {
  }

  lemma TimesMoved(from: seq<Item>, to: seq<Item>, e: Path, p: Path)
    requires File(e) in from
    ensures Times(Without(from, File(e)), p) == Times(from, p) - if p == e then 1 else 0
    ensures Times(to + [File(e)], p) == Times(to, p) + if p == e then 1 else 0
  {
    hide Without;
  }

  lemma CopyStep(entries: Entries, place: map<Path, Path>, d: Path, to: Path)
    requires Placed(entries, place) && to in entries
    ensures Placed(entries[to := entries[to] + [Copy(d)]], place)
  {
  }

  lemma AddStep(entries: Entries, place: map<Path, Path>, p: Path, to: Path)
    requires Placed(entries, place) && p !in place && to in entries
    ensures Placed(entries[to := entries[to] + [File(p)]], place[p := to])
  {
    var after, now := entries[to := entries[to] + [File(p)]], place[p := to];
    assert forall t :: t in entries ==> File(p) !in entries[t];
    forall q, t | q in now && t in after
      ensures Times(after[t], q) == if now[q] == t then 1 else 0
    {
      TimesAdded(entries[to], p, q);
    }
  }

  lemma TimesAdded(items: seq<Item>, p: Path, q: Path)
    ensures Times(items + [File(p)], q) == Times(items, q) + if p == q then 1 else 0
  {
  }

  /** Adds every file to the entries of its home, in the order of the files. */
  method AddAll(files: seq<Path>, home: map<Path, Path>, storage: set<Path>) returns (entries: Entries)
    requires forall i, j :: 0 <= i < j < |files| ==> files[i] != files[j]
    requires home.Keys == (set p | p in files && p != ROOT) && forall p :: p in home ==> home[p] in storage
    ensures Placed(entries, home) && entries.Keys == storage && forall t, d :: t in entries ==> Copy(d) !in entries[t]
  {
    hide Placed;
    entries := map s | s in storage :: [];
    ghost var place: map<Path, Path> := map[];
    NothingPlaced(entries);
    for i := 0 to |files|
      invariant Placed(entries, place) && entries.Keys == storage
      invariant forall t, d :: t in entries ==> Copy(d) !in entries[t]
      invariant place.Keys == (set p | p in files[..i] && p != ROOT)
      invariant forall p :: p in place ==> p in home && place[p] == home[p]
    {
      var te := files[i];
      assert files[..i + 1] == files[..i] + [te];
      if te != ROOT {
        assert te !in files[..i];
        var dir := home[te];
        AddStep(entries, place, te, dir);
        entries := entries[dir := entries[dir] + [File(te)]];
        place := place[te := dir];
      }
    }
    assert files[..|files|] == files;
    assert place == home;
  }

  lemma NothingPlaced(entries: Entries)
    requires forall t :: t in entries ==> entries[t] == []
    ensures Placed(entries, map[])
  {
  }

  // ---------------------------------------------------------------- finding the links

  /** What is known after some files: the first file with every inode, and the others, linked to it. */
  ghost predicate Found(files: seq<Path>, inodes: map<Path, nat>, first: map<nat, Path>, link: Links) {
    && (forall p :: p in files && p in inodes ==> inodes[p] in first)
    && (forall n :: n in first ==> (exists q :: q in files && q in inodes && inodes[q] == n)
                                   && first[n] == FirstWith(files, inodes, n))
    && (forall p :: p in link <==> p in files && p in inodes && p != FirstWith(files, inodes, inodes[p]))
    && (forall p :: p in link ==> link[p] == FirstWith(files, inodes, inodes[p]))
  }

  /** What tells files on disk apart: inode numbers count per device. */
  datatype FileId = FileId(device: nat, inode: nat)

  function InodesOf(ids: map<Path, FileId>): (inodes: map<Path, nat>)
    ensures inodes.Keys == ids.Keys
  {
    map p | p in ids :: ids[p].inode
  }

  /**
   Finds the links among the files that are not directories and have more than one link to them, by
   their inode numbers alone.
   */
  method FindHardLinks(files: seq<Path>, ids: map<Path, FileId>, ghost inodes: map<Path, nat>) returns (link: Links)
    requires forall i, j :: 0 <= i < j < |files| ==> files[i] != files[j]
    requires inodes == InodesOf(ids)
    ensures forall p :: p in link <==> p in files && p in inodes && p != FirstWith(files, inodes, inodes[p])
    ensures forall p :: p in link ==> link[p] == FirstWith(files, inodes, inodes[p])
  {
    hide Found, FirstWith;
    var first: map<nat, Path> := map[];
    link := map[];
    NothingFound(inodes);
    for i := 0 to |files|
      invariant Found(files[..i], inodes, first, link)
    {
      var te := files[i];
      FoundStep(files, inodes, first, link, i);
      if te in ids {
        if ids[te].inode in first {
          link := link[te := first[ids[te].inode]];
        } else {
          first := first[ids[te].inode := te];
        }
      }
    }
    assert files[..|files|] == files;
    FoundIs(files, inodes, first, link);
  }

  lemma NothingFound(inodes: map<Path, nat>)
    ensures Found([], inodes, map[], map[])
  {
  }

  lemma FoundIs(files: seq<Path>, inodes: map<Path, nat>, first: map<nat, Path>, link: Links)
    requires Found(files, inodes, first, link)
    ensures forall p :: p in link <==> p in files && p in inodes && p != FirstWith(files, inodes, inodes[p])
    ensures forall p :: p in link ==> link[p] == FirstWith(files, inodes, inodes[p])
  {
  }

  lemma FoundStep(files: seq<Path>, inodes: map<Path, nat>, first: map<nat, Path>, link: Links, i: nat)
    requires i < |files| && Found(files[..i], inodes, first, link)
    requires forall i, j :: 0 <= i < j < |files| ==> files[i] != files[j]
    ensures files[i] !in inodes ==> Found(files[..i + 1], inodes, first, link)
    ensures files[i] in inodes && inodes[files[i]] in first ==>
      Found(files[..i + 1], inodes, first, link[files[i] := first[inodes[files[i]]]])
    ensures files[i] in inodes && inodes[files[i]] !in first ==>
      Found(files[..i + 1], inodes, first[inodes[files[i]] := files[i]], link)
  {
    var te, before := files[i], files[..i];
    assert files[..i + 1] == before + [te];
    assert te !in before;
    hide Found, FirstWith;
    if te !in inodes {
      OtherFound(before, te, inodes, first, link);
    } else if inodes[te] in first {
      LinkFound(before, te, inodes, first, link);
    } else {
      FirstFound(before, te, inodes, first, link);
    }
  }

  lemma FirstsStay(before: seq<Path>, te: Path, inodes: map<Path, nat>)
    ensures forall n | (exists q :: q in before && q in inodes && inodes[q] == n) ::
      (exists q :: q in before + [te] && q in inodes && inodes[q] == n)
      && FirstWith(before + [te], inodes, n) == FirstWith(before, inodes, n)
  {
    hide FirstWith;
    forall n | exists q :: q in before && q in inodes && inodes[q] == n
      ensures exists q :: q in before + [te] && q in inodes && inodes[q] == n
      ensures FirstWith(before + [te], inodes, n) == FirstWith(before, inodes, n)
    {
      FirstWithOneMore(before, [te], inodes, n);
    }
  }

  lemma OtherFound(before: seq<Path>, te: Path, inodes: map<Path, nat>, first: map<nat, Path>, link: Links)
    requires Found(before, inodes, first, link) && te !in inodes
    ensures Found(before + [te], inodes, first, link)
  {
    FirstsStay(before, te, inodes);
    hide FirstWith;
  }

  lemma LinkFound(before: seq<Path>, te: Path, inodes: map<Path, nat>, first: map<nat, Path>, link: Links)
    requires Found(before, inodes, first, link) && te in inodes && inodes[te] in first && te !in before
    ensures Found(before + [te], inodes, first, link[te := first[inodes[te]]])
  {
    FirstsStay(before, te, inodes);
    hide FirstWith;
  }

  lemma FirstFound(before: seq<Path>, te: Path, inodes: map<Path, nat>, first: map<nat, Path>, link: Links)
    requires Found(before, inodes, first, link) && te in inodes && inodes[te] !in first && te !in before
    ensures Found(before + [te], inodes, first[inodes[te] := te], link)
  {
    FirstsStay(before, te, inodes);
    hide FirstWith;
    assert forall q :: q in before && q in inodes ==> inodes[q] != inodes[te];
    FirstIsNew(before, te, inodes);
  }

  lemma {:induction false} FirstIsNew(before: seq<Path>, te: Path, inodes: map<Path, nat>)
    requires te in inodes && forall q :: q in before && q in inodes ==> inodes[q] != inodes[te]
    ensures te in before + [te] && FirstWith(before + [te], inodes, inodes[te]) == te
  {
    if before != [] {
      assert (before + [te])[1..] == before[1..] + [te];
      FirstIsNew(before[1..], te, inodes);
    }
  }

  /** A link's target has the same inode, is no link itself, and is no less deep. */
  lemma TargetKeepsContent(files: seq<Path>, inodes: map<Path, nat>, link: Links, h: Path)
    requires forall i, j :: 0 <= i < j < |files| ==> DepthFirstLess(files[i], files[j])
    requires forall p :: p in link <==> p in files && p in inodes && p != FirstWith(files, inodes, inodes[p])
    requires forall p :: p in link ==> link[p] == FirstWith(files, inodes, inodes[p])
    requires h in link
    ensures link[h] in inodes && inodes[link[h]] == inodes[h] && link[h] in files && link[h] !in link
    ensures DepthFirstLess(link[h], h)
  {
    FirstIsDeepest(files, inodes, h);
  }

  /** No two files of the tree share an inode number, except the names of one file. */
  ghost predicate InodesTellApart(files: seq<Path>, ids: map<Path, FileId>) {
    forall p, q :: p in files && q in files && p in ids && q in ids && ids[p].inode == ids[q].inode ==> ids[p] == ids[q]
  }

  /** Every link is another name of the file it links to, exactly if inode numbers tell files apart. */
  lemma LinksAreSameFile(files: seq<Path>, ids: map<Path, FileId>, link: Links)
    requires var inodes := InodesOf(ids);
      && (forall p :: p in link <==> p in files && p in inodes && p != FirstWith(files, inodes, inodes[p]))
      && (forall p :: p in link ==> link[p] == FirstWith(files, inodes, inodes[p]))
    ensures (forall h :: h in link ==> h in ids && link[h] in ids && ids[link[h]] == ids[h]) <==>
      InodesTellApart(files, ids)
  {
    var inodes := InodesOf(ids);
    if forall h :: h in link ==> h in ids && link[h] in ids && ids[link[h]] == ids[h] {
      forall p, q | p in files && q in files && p in ids && q in ids && ids[p].inode == ids[q].inode
        ensures ids[p] == ids[q]
      {
        var first := FirstWith(files, inodes, inodes[p]);
        assert p == first || p in link;
        assert q == first || q in link;
      }
    }
  }

  /** Two files on two devices: one of them is taken for a link to the other, and its content is lost. */
  lemma DevicesAreMixedUp()
    ensures
      var files: seq<Path> := [["", "disk", "a"], ["", "mount", "b"]];
      var ids: map<Path, FileId> := map[files[0] := FileId(1, 7), files[1] := FileId(2, 7)];
      !InodesTellApart(files, ids) && FirstWith(files, InodesOf(ids), 7) == files[0] != files[1]
  {
    var files: seq<Path> := [["", "disk", "a"], ["", "mount", "b"]];
    assert files[0] in files && files[1] in files;
    assert files[0][1] == "disk" && files[1][1] == "mount";
  }

  // ---------------------------------------------------------------- fixing the links

  /** The text of a link: cut down to its tar once its directory has been dealt with. */
  function TextOf(storage: set<Path>, home: map<Path, Path>, target: Links, done: set<Path>, h: Path): Path
    requires h in target
  {
    var d := Goal(storage, home, target, h);
    if d in done then Beyond(target[h], |d|) else target[h]
  }

  ghost predicate Texts(storage: set<Path>, home: map<Path, Path>, target: Links, done: set<Path>, link: Links) {
    link.Keys == target.Keys && forall h :: h in target ==> link[h] == TextOf(storage, home, target, done, h)
  }

  ghost predicate Places(storage: set<Path>, home: map<Path, Path>, target: Links, done: set<Path>,
                         place: map<Path, Path>)
  {
    place.Keys == home.Keys && forall p :: p in home ==> place[p] == PlaceOf(storage, home, target, done, p)
  }

  /** Directories are dealt with deepest first, and s is next. */
  ghost predicate Next(storage: set<Path>, done: set<Path>, s: Path) {
    && s in storage && s !in done
    && (forall r :: r in done ==> r in storage && |r| >= |s|)
    && (forall r :: r in storage && |r| > |s| ==> r in done)
  }

  /**
   When a directory's turn comes, links that belong there are there, and the others that are there
   have been from the start.
   */
  lemma Turn(storage: set<Path>, home: map<Path, Path>, target: Links, done: set<Path>, s: Path, h: Path)
    requires Housed(storage, home, target) && Next(storage, done, s) && h in target
    ensures h in home && h[0] == "" && target[h][0] == "" && ROOT in storage
    ensures
      var d, c, at := Goal(storage, home, target, h), Common(h, target[h]), PlaceOf(storage, home, target, done, h);
      && d in storage && (d == s ==> at == s)
      && (at == s ==>
            && (d == s <==> |s| <= |c|) && d !in done
            && (d != s ==> home[h] == s && |d| < |s| && d == Lowest(storage, h, target[h])))
      && PlaceOf(storage, home, target, done + {s}, h) == if at == s then d else at
  {
    hide Goal, Lowest, Common, Housed, Next, TurnsTo;
    LinkIs(storage, home, target, h);
    InTurn(storage, done, s, home[h], Goal(storage, home, target, h), |Common(h, target[h])|);
  }

  lemma InTurn(storage: set<Path>, done: set<Path>, s: Path, n: Path, d: Path, common: nat)
    requires Next(storage, done, s) && n in storage && d in storage && (d != n ==> |d| < |n|)
    requires |d| <= common && (|n| <= common <==> d == n)
    ensures d == s ==> TurnsTo(done, n, d) == s
    ensures TurnsTo(done, n, d) == s ==>
      (d == s <==> |s| <= common) && d !in done && (d != s ==> n == s && |d| < |s|)
    ensures TurnsTo(done + {s}, n, d) == if TurnsTo(done, n, d) == s then d else TurnsTo(done, n, d)
  {
  }

  // ---------------------------------------------------------------- collecting the moves of one directory

  /** What has been collected from some of a directory's entries: the links that belong elsewhere. */
  ghost predicate Collected(storage: set<Path>, home: map<Path, Path>, target: Links, s: Path, seen: seq<Item>,
                            toMove: seq<Move>)
  {
    && (forall m :: m in toMove ==>
          m.entry in target && File(m.entry) in seen && m.to == Goal(storage, home, target, m.entry) != s)
    && (forall h :: h in target && File(h) in seen && Goal(storage, home, target, h) != s ==>
          Move(h, Goal(storage, home, target, h)) in toMove)
    && (forall i, j :: 0 <= i < j < |toMove| ==> toMove[i].entry != toMove[j].entry)
  }

  /** The texts after some of a directory's entries: those that belong there have been cut. */
  ghost predicate TextsSoFar(storage: set<Path>, home: map<Path, Path>, target: Links, done: set<Path>, s: Path,
                             seen: seq<Item>, link: Links)
  {
    link.Keys == target.Keys && forall h :: h in target ==>
      link[h] == if File(h) in seen && Goal(storage, home, target, h) == s then Beyond(target[h], |s|)
                 else TextOf(storage, home, target, done, h)
  }

  /** The directories between a storage directory and a file, and where they are to be copied to. */
  function Chain(h: Path, s: Path, to: Path): (c: seq<Move>)
    requires |h| > 1
    ensures forall m :: m in c <==> m.to == to && m.entry < h && |m.entry| > |s|
    decreases |h|
  {
    if |h| - 1 <= |s| then []
    else
      ParentsOf(h);
      [Move(Parent(h), to)] + Chain(Parent(h), s, to)
  }

  lemma ParentsOf(h: Path)
    requires |h| > 1
    ensures forall m: Move :: m.entry < h <==> m.entry == Parent(h) || m.entry < Parent(h)
  {
    forall m: Move
      ensures m.entry < h <==> m.entry == Parent(h) || m.entry < Parent(h)
    {
      if m.entry < h && |m.entry| == |h| - 1 {
        assert m.entry == h[..|m.entry|];
      }
    }
  }

  ghost predicate Follows(s: Path, toMove: seq<Move>, toCopy: seq<Move>) {
    forall c :: c in toCopy <==> exists m :: m in toMove && c.to == m.to && c.entry < m.entry && |c.entry| > |s|
  }

  lemma NothingCollected(storage: set<Path>, home: map<Path, Path>, target: Links, done: set<Path>, s: Path,
                         link: Links)
    requires Texts(storage, home, target, done, link)
    ensures Collected(storage, home, target, s, [], []) && TextsSoFar(storage, home, target, done, s, [], link)
    ensures Follows(s, [], [])
  {
  }

  lemma StayStep(storage: set<Path>, home: map<Path, Path>, target: Links, done: set<Path>, s: Path, seen: seq<Item>,
                 toMove: seq<Move>, link: Links, h: Path)
    requires Collected(storage, home, target, s, seen, toMove) && TextsSoFar(storage, home, target, done, s, seen, link)
    requires h in target && Goal(storage, home, target, h) == s
    ensures Collected(storage, home, target, s, seen + [File(h)], toMove)
    ensures TextsSoFar(storage, home, target, done, s, seen + [File(h)], link[h := Beyond(target[h], |s|)])
  {
    hide Goal, TextOf;
  }

  lemma LeaveStep(storage: set<Path>, home: map<Path, Path>, target: Links, done: set<Path>, s: Path, seen: seq<Item>,
                  toMove: seq<Move>, link: Links, h: Path)
    requires Collected(storage, home, target, s, seen, toMove) && TextsSoFar(storage, home, target, done, s, seen, link)
    requires h in target && Goal(storage, home, target, h) != s && File(h) !in seen
    ensures Collected(storage, home, target, s, seen + [File(h)], toMove + [Move(h, Goal(storage, home, target, h))])
    ensures TextsSoFar(storage, home, target, done, s, seen + [File(h)], link)
  {
    hide Goal, TextOf;
    LeaveCollected(storage, home, target, s, seen, toMove, h);
  }

  lemma LeaveCollected(storage: set<Path>, home: map<Path, Path>, target: Links, s: Path, seen: seq<Item>,
                       toMove: seq<Move>, h: Path)
    requires Collected(storage, home, target, s, seen, toMove) && h in target && Goal(storage, home, target, h) != s
    requires File(h) !in seen
    ensures Collected(storage, home, target, s, seen + [File(h)], toMove + [Move(h, Goal(storage, home, target, h))])
  {
    hide Goal;
    assert forall i :: 0 <= i < |toMove| ==> toMove[i] in toMove;
  }

  lemma OtherStep(storage: set<Path>, home: map<Path, Path>, target: Links, done: set<Path>, s: Path, seen: seq<Item>,
                  toMove: seq<Move>, link: Links, item: Item)
    requires Collected(storage, home, target, s, seen, toMove) && TextsSoFar(storage, home, target, done, s, seen, link)
    requires item.Copy? || item.path !in target
    ensures Collected(storage, home, target, s, seen + [item], toMove)
    ensures TextsSoFar(storage, home, target, done, s, seen + [item], link)
  {
    hide Goal, TextOf;
  }

  lemma FollowsStep(s: Path, toMove: seq<Move>, toCopy: seq<Move>, m: Move)
    requires Follows(s, toMove, toCopy) && |m.entry| > 1
    ensures Follows(s, toMove + [m], toCopy + Chain(m.entry, s, m.to))
  {
    hide Chain;
    assert m in toMove + [m];
    assert forall x :: x in toMove + [m] <==> x in toMove || x == m;
  }

  /** A link among the entries: its text is still whole, and how much is common decides whether it stays. */
  lemma LinkAt(storage: set<Path>, home: map<Path, Path>, target: Links, done: set<Path>, place: map<Path, Path>,
               entries: Entries, s: Path, link: Links, toMove: seq<Move>, k: nat)
    requires Housed(storage, home, target) && Next(storage, done, s) && Places(storage, home, target, done, place)
    requires Placed(entries, place) && entries.Keys == storage && s in entries && k < |entries[s]|
    requires var item := entries[s][k]; item.File? && item.path in target
    requires TextsSoFar(storage, home, target, done, s, entries[s][..k], link)
    ensures
      var h := entries[s][k].path; var t := target[h];
      && File(h) !in entries[s][..k] && h in link && link[h] == t && h[0] == "" && t[0] == "" && |h| > 1
      && ROOT in storage && (Goal(storage, home, target, h) == s <==> |s| <= |Common(h, t)|)
      && (Goal(storage, home, target, h) != s ==> Goal(storage, home, target, h) == Lowest(storage, h, t))
  {
    var h := entries[s][k].path;
    EntryIs(entries, place, s, k);
    Turn(storage, home, target, done, s, h);
    LinkIs(storage, home, target, h);
    hide Housed, Goal, Lowest, Common, Placed, Next, Beyond, TurnsTo;
  }

  lemma EntryIs(entries: Entries, place: map<Path, Path>, s: Path, k: nat)
    requires Placed(entries, place) && s in entries && k < |entries[s]| && entries[s][k].File?
    ensures entries[s][k].path in place && place[entries[s][k].path] == s && entries[s][k] !in entries[s][..k]
  {
    var h := entries[s][k].path;
    assert entries[s][k] == File(h);
    assert File(h) in entries[s];
    assert Times(entries[s], h) >= 1;
    NoRepeat(entries[s], k);
  }

  /** Links that belong to the directory have all been seen. */
  lemma TextsDone(storage: set<Path>, home: map<Path, Path>, target: Links, done: set<Path>, place: map<Path, Path>,
                  entries: Entries, s: Path, link: Links)
    requires Housed(storage, home, target) && Next(storage, done, s) && Places(storage, home, target, done, place)
    requires Placed(entries, place) && s in entries && TextsSoFar(storage, home, target, done, s, entries[s], link)
    ensures Texts(storage, home, target, done + {s}, link)
  {
    hide Housed, Goal, Next;
    forall h | h in target
      ensures link[h] == TextOf(storage, home, target, done + {s}, h)
    {
      Turn(storage, home, target, done, s, h);
      if Goal(storage, home, target, h) == s {
        assert Times(entries[s], h) == 1;
      }
    }
  }

  // ---------------------------------------------------------------- carrying out the moves

  /** Exactly the links whose home this is and that belong elsewhere leave. */
  lemma Leaving(storage: set<Path>, home: map<Path, Path>, target: Links, done: set<Path>, place: map<Path, Path>,
                entries: Entries, s: Path, toMove: seq<Move>, h: Path, to: Path)
    requires Housed(storage, home, target) && Next(storage, done, s) && Places(storage, home, target, done, place)
    requires Placed(entries, place) && s in entries && Collected(storage, home, target, s, entries[s], toMove)
    ensures Move(h, to) in toMove <==>
      h in target && h in home && home[h] == s && to == Goal(storage, home, target, h) != s
    ensures Move(h, to) in toMove ==> |h| > 1 && place[h] == s && to in storage
  {
    if h in target {
      Turn(storage, home, target, done, s, h);
      LinkIs(storage, home, target, h);
      hide Housed, Goal, Next;
      assert Times(entries[s], h) == if place[h] == s then 1 else 0;
    }
  }

  /** Some moves have been carried out. */
  ghost predicate Moved(place: map<Path, Path>, moves: seq<Move>, now: map<Path, Path>) {
    now.Keys == place.Keys && forall p :: p in place ==>
      || (now[p] == place[p] && forall m :: m in moves ==> m.entry != p)
      || (Move(p, now[p]) in moves)
  }

  lemma NothingMoved(place: map<Path, Path>)
    ensures Moved(place, [], place)
  {
  }

  lemma MovedStep(place: map<Path, Path>, toMove: seq<Move>, now: map<Path, Path>, j: nat)
    requires j < |toMove| && Moved(place, toMove[..j], now) && toMove[j].entry in place
    requires forall i, j :: 0 <= i < j < |toMove| ==> toMove[i].entry != toMove[j].entry
    ensures toMove[j].entry in now && now[toMove[j].entry] == place[toMove[j].entry]
    ensures Moved(place, toMove[..j + 1], now[toMove[j].entry := toMove[j].to])
  {
    assert toMove[..j + 1] == toMove[..j] + [toMove[j]];
    forall m | m in toMove[..j]
      ensures m.entry != toMove[j].entry
    {
      var i :| 0 <= i < j && toMove[i] == m;
    }
  }

  /** With the moves carried out, everything is where it should be after one more directory. */
  lemma PlacesDone(storage: set<Path>, home: map<Path, Path>, target: Links, done: set<Path>, place: map<Path, Path>,
                   entries: Entries, s: Path, toMove: seq<Move>, now: map<Path, Path>)
    requires Housed(storage, home, target) && Next(storage, done, s) && Places(storage, home, target, done, place)
    requires Placed(entries, place) && s in entries && Collected(storage, home, target, s, entries[s], toMove)
    requires Moved(place, toMove, now)
    ensures Places(storage, home, target, done + {s}, now)
  {
    hide Housed, Goal, Next, Placed, Collected;
    forall p | p in home
      ensures now[p] == PlaceOf(storage, home, target, done + {s}, p)
    {
      Leaving(storage, home, target, done, place, entries, s, toMove, p, now[p]);
      if p in target {
        Leaving(storage, home, target, done, place, entries, s, toMove, p, Goal(storage, home, target, p));
        Turn(storage, home, target, done, s, p);
        StaysIf(storage, home, target, done, place, entries, s, toMove, p);
      }
    }
  }

  /** A link that is elsewhere is not among the moves. */
  lemma StaysIf(storage: set<Path>, home: map<Path, Path>, target: Links, done: set<Path>, place: map<Path, Path>,
                entries: Entries, s: Path, toMove: seq<Move>, h: Path)
    requires Housed(storage, home, target) && Next(storage, done, s) && Places(storage, home, target, done, place)
    requires Placed(entries, place) && s in entries && Collected(storage, home, target, s, entries[s], toMove)
    requires h in target
    ensures (exists m :: m in toMove && m.entry == h) ==>
      Move(h, Goal(storage, home, target, h)) in toMove && place[h] == s
  {
    hide Housed, Goal, Next, Places, Placed;
    if m :| m in toMove && m.entry == h {
      assert m == Move(h, m.to);
      Leaving(storage, home, target, done, place, entries, s, toMove, h, m.to);
    }
  }

  ghost predicate SameCopies(a: Entries, b: Entries) {
    a.Keys == b.Keys && forall t, d :: t in a ==> (Copy(d) in a[t] <==> Copy(d) in b[t])
  }

  lemma SameCopiesStep(was: Entries, entries: Entries, from: Path, to: Path, e: Path)
    requires SameCopies(was, entries) && from in entries && to in entries && from != to && File(e) in entries[from]
    ensures SameCopies(was, entries[from := Without(entries[from], File(e))][to := entries[to] + [File(e)]])
  {
    var less := Without(entries[from], File(e));
    hide Without;
    forall d
      ensures Copy(d) in less <==> Copy(d) in entries[from]
    {
      assert multiset(less)[Copy(d)] == multiset(entries[from])[Copy(d)];
    }
  }

  lemma ItsOwnCopies(entries: Entries)
    ensures SameCopies(entries, entries)
  {
  }

  lemma MovesAre(storage: set<Path>, home: map<Path, Path>, target: Links, done: set<Path>, place: map<Path, Path>,
                 entries: Entries, s: Path, toMove: seq<Move>)
    requires Housed(storage, home, target) && Next(storage, done, s) && Places(storage, home, target, done, place)
    requires Placed(entries, place) && s in entries && Collected(storage, home, target, s, entries[s], toMove)
    ensures forall i, j :: 0 <= i < j < |toMove| ==> toMove[i].entry != toMove[j].entry
    ensures forall j :: 0 <= j < |toMove| ==>
      && toMove[j].entry in place && place[toMove[j].entry] == s && toMove[j].to in storage && toMove[j].to != s
  {
    hide Housed, Next, Places, Placed, Goal;
    forall j | 0 <= j < |toMove|
      ensures toMove[j].entry in place && place[toMove[j].entry] == s && toMove[j].to in storage && toMove[j].to != s
    {
      var m := toMove[j];
      assert m in toMove && m == Move(m.entry, m.to);
      Leaving(storage, home, target, done, place, entries, s, toMove, m.entry, m.to);
      EntryKnown(storage, home, target, done, place, m.entry);
    }
  }

  lemma EntryKnown(storage: set<Path>, home: map<Path, Path>, target: Links, done: set<Path>, place: map<Path, Path>,
                   h: Path)
    requires Places(storage, home, target, done, place) && h in home
    ensures h in place
  {
  }

  // ---------------------------------------------------------------- the copies of directories

  ghost predicate CopiesAdded(was: Entries, toCopy: seq<Move>, entries: Entries) {
    && was.Keys == entries.Keys
    && (forall t, d :: t in was ==> (Copy(d) in entries[t] <==> Copy(d) in was[t] || Move(d, t) in toCopy))
  }

  lemma NoCopiesAdded(entries: Entries)
    ensures CopiesAdded(entries, [], entries)
  {
  }

  lemma CopiesAddedStep(was: Entries, toCopy: seq<Move>, entries: Entries, c: Move)
    requires CopiesAdded(was, toCopy, entries) && c.to in entries
    ensures CopiesAdded(was, toCopy + [c], entries[c.to := entries[c.to] + [Copy(c.entry)]])
  {
    forall d, t
      ensures Move(d, t) in toCopy + [c] <==> Move(d, t) in toCopy || (c.entry == d && c.to == t)
    {
    }
  }

  /** A link was moved past this directory. */
  ghost predicate Passed(storage: set<Path>, home: map<Path, Path>, target: Links, done: set<Path>, t: Path, d: Path) {
    exists h ::
      && h in target && h in home && home[h] in done && t == Goal(storage, home, target, h) != home[h]
      && |d| > |home[h]| && d < h
  }

  /** Directories are copied to where the links in them have been moved to. */
  ghost predicate Copied(storage: set<Path>, home: map<Path, Path>, target: Links, done: set<Path>, entries: Entries) {
    forall t, d :: t in entries ==> (Copy(d) in entries[t] <==> Passed(storage, home, target, done, t, d))
  }

  lemma PassedStep(storage: set<Path>, home: map<Path, Path>, target: Links, done: set<Path>, place: map<Path, Path>,
                   entries: Entries, s: Path, toMove: seq<Move>, toCopy: seq<Move>, t: Path, d: Path)
    requires Housed(storage, home, target) && Next(storage, done, s) && Places(storage, home, target, done, place)
    requires Placed(entries, place) && s in entries && Collected(storage, home, target, s, entries[s], toMove)
    requires Follows(s, toMove, toCopy)
    ensures Passed(storage, home, target, done + {s}, t, d) <==>
      Passed(storage, home, target, done, t, d) || Move(d, t) in toCopy
  {
    hide Housed, Next, Places, Placed, Goal, Collected;
    if Move(d, t) in toCopy {
      var m :| m in toMove && t == m.to && d < m.entry && |d| > |s|;
      assert m == Move(m.entry, m.to);
      Leaving(storage, home, target, done, place, entries, s, toMove, m.entry, m.to);
    }
    if h :| h in target && h in home && home[h] == s && t == Goal(storage, home, target, h) != s && |d| > |s| && d < h {
      Leaving(storage, home, target, done, place, entries, s, toMove, h, t);
      var c := Move(d, t);
      assert c.to == Move(h, t).to && c.entry < Move(h, t).entry && |c.entry| > |s|;
    }
  }

  lemma CopiedStep(storage: set<Path>, home: map<Path, Path>, target: Links, done: set<Path>, place: map<Path, Path>,
                   was: Entries, s: Path, toMove: seq<Move>, toCopy: seq<Move>, moved: Entries, entries: Entries)
    requires Housed(storage, home, target) && Next(storage, done, s) && Places(storage, home, target, done, place)
    requires Placed(was, place) && s in was && Collected(storage, home, target, s, was[s], toMove)
    requires Follows(s, toMove, toCopy) && Copied(storage, home, target, done, was)
    requires SameCopies(was, moved) && CopiesAdded(moved, toCopy, entries)
    ensures Copied(storage, home, target, done + {s}, entries)
  {
    hide Housed, Next, Places, Placed, Goal, Collected, Follows, Passed;
    forall t, d | t in entries
      ensures Copy(d) in entries[t] <==> Passed(storage, home, target, done + {s}, t, d)
    {
      PassedStep(storage, home, target, done, place, was, s, toMove, toCopy, t, d);
    }
  }

  lemma CopiesHaveRoom(storage: set<Path>, home: map<Path, Path>, target: Links, done: set<Path>,
                       place: map<Path, Path>, entries: Entries, s: Path, toMove: seq<Move>, toCopy: seq<Move>)
    requires Housed(storage, home, target) && Next(storage, done, s) && Places(storage, home, target, done, place)
    requires Placed(entries, place) && s in entries && Collected(storage, home, target, s, entries[s], toMove)
    requires Follows(s, toMove, toCopy)
    ensures forall c :: c in toCopy ==> c.to in storage
  {
    hide Housed, Next, Places, Placed, Goal, Collected;
    forall c | c in toCopy
      ensures c.to in storage
    {
      var m :| m in toMove && c.to == m.to;
      assert m == Move(m.entry, m.to);
      Leaving(storage, home, target, done, place, entries, s, toMove, m.entry, m.to);
    }
  }

  // ---------------------------------------------------------------- all of it

  ghost predicate DeepestFirst(storage: set<Path>, order: seq<Path>) {
    && (forall s :: s in order <==> s in storage)
    && (forall i, j :: 0 <= i < j < |order| ==> order[i] != order[j] && |order[i]| >= |order[j]|)
  }

  /** A map that is sorted by the depth-first order is gone through deepest first. */
  lemma SortedIsDeepestFirst(storage: set<Path>, order: seq<Path>)
    requires forall s :: s in order <==> s in storage
    requires forall i, j :: 0 <= i < j < |order| ==> DepthFirstLess(order[i], order[j])
    ensures DeepestFirst(storage, order)
  {
    forall i, j | 0 <= i < j < |order|
      ensures order[i] != order[j] && |order[i]| >= |order[j]|
    {
      DepthFirstIs(order[i], order[j]);
    }
  }

  function Done(order: seq<Path>, i: nat): set<Path>
    requires i <= |order|
  {
    set s | s in order[..i]
  }

  lemma InOrder(storage: set<Path>, order: seq<Path>, i: nat)
    requires DeepestFirst(storage, order) && i < |order|
    ensures Next(storage, Done(order, i), order[i]) && Done(order, i + 1) == Done(order, i) + {order[i]}
  {
    var s := order[i];
    assert order[..i + 1] == order[..i] + [s];
    assert s !in order[..i];
    forall r | r in storage && |r| > |s|
      ensures r in order[..i]
    {
      var j :| 0 <= j < |order| && order[j] == r;
      assert order[..i][j] == r;
    }
  }

  /** Nothing has been dealt with yet. */
  lemma AtStart(storage: set<Path>, home: map<Path, Path>, target: Links, order: seq<Path>, entries: Entries)
    requires Housed(storage, home, target) && forall t, d :: t in entries ==> Copy(d) !in entries[t]
    ensures Places(storage, home, target, Done(order, 0), home) && Texts(storage, home, target, Done(order, 0), target)
    ensures Copied(storage, home, target, Done(order, 0), entries)
  {
    hide Housed, Goal;
  }

  /** Where every file is in the end. */
  function FinalPlace(storage: set<Path>, home: map<Path, Path>, target: Links, p: Path): Path
    requires p in home
  {
    if p in target then Goal(storage, home, target, p) else home[p]
  }

  lemma AtEnd(storage: set<Path>, home: map<Path, Path>, target: Links, order: seq<Path>, place: map<Path, Path>,
              entries: Entries, link: Links)
    requires Housed(storage, home, target) && DeepestFirst(storage, order)
    requires Places(storage, home, target, Done(order, |order|), place) && Placed(entries, place)
    requires Texts(storage, home, target, Done(order, |order|), link)
    requires Copied(storage, home, target, Done(order, |order|), entries)
    ensures Done(order, |order|) == storage
    ensures forall p, t :: p in home && t in entries ==>
      Times(entries[t], p) == if FinalPlace(storage, home, target, p) == t then 1 else 0
    ensures forall p, t :: t in entries && File(p) in entries[t] ==> p in home
    ensures link.Keys == target.Keys
    ensures forall h :: h in target ==> link[h] == Beyond(target[h], |Goal(storage, home, target, h)|)
  {
    AllDone(storage, order);
    hide *;
    PlacesAtEnd(storage, home, target, place, entries);
    TextsAtEnd(storage, home, target, link);
  }

  lemma AllDone(storage: set<Path>, order: seq<Path>)
    requires DeepestFirst(storage, order)
    ensures Done(order, |order|) == storage
  {
    assert order[..|order|] == order;
  }

  lemma PlacesAtEnd(storage: set<Path>, home: map<Path, Path>, target: Links, place: map<Path, Path>, entries: Entries)
    requires Housed(storage, home, target) && Places(storage, home, target, storage, place) && Placed(entries, place)
    ensures forall p, t :: p in home && t in entries ==>
      Times(entries[t], p) == if FinalPlace(storage, home, target, p) == t then 1 else 0
    ensures forall p, t :: t in entries && File(p) in entries[t] ==> p in home
  {
    hide Housed, Goal;
    forall p | p in home
      ensures place[p] == FinalPlace(storage, home, target, p)
    {
      if p in target {
        LinkIs(storage, home, target, p);
      }
    }
  }

  lemma TextsAtEnd(storage: set<Path>, home: map<Path, Path>, target: Links, link: Links)
    requires Housed(storage, home, target) && Texts(storage, home, target, storage, link)
    ensures link.Keys == target.Keys
    ensures forall h :: h in target ==> link[h] == Beyond(target[h], |Goal(storage, home, target, h)|)
  {
    hide Housed, Goal;
    forall h | h in target
      ensures link[h] == Beyond(target[h], |Goal(storage, home, target, h)|)
    {
      LinkIs(storage, home, target, h);
    }
  }

  class LinkPlanner {
    const storage: set<Path>
    /** The storage directories, deepest first. */
    const order: seq<Path>
    var link: Links
    var entries: Entries

    constructor (storage: set<Path>, order: seq<Path>, link: Links, entries: Entries)
      ensures this.storage == storage && this.order == order && this.link == link && this.entries == entries
    {
      this.storage, this.order, this.link, this.entries := storage, order, link, entries;
    }

    /** The nearest storage directory above both paths. */
    method FindNearestStorageDirectory(a: Path, b: Path) returns (s: Path)
      requires ROOT in storage && a[0] == "" && b[0] == ""
      ensures s == Lowest(storage, a, b)
    {
      var common := CommonPrefix(a, b);
      CommonIsLongest(a, b, ROOT);
      while common !in storage
        invariant ROOT <= common && Nearest(storage, common) == Lowest(storage, a, b)
        decreases |common|
      {
        assert common != ROOT;
        common := common[..|common| - 1];
      }
      s := common;
    }

    /** Cuts the links that stay in a directory, and collects those that have to leave. */
    method CollectMoves(s: Path, ghost home: map<Path, Path>, ghost target: Links, ghost done: set<Path>,
                        ghost place: map<Path, Path>)
      returns (toMove: seq<Move>, toCopy: seq<Move>)
      requires Housed(storage, home, target) && Next(storage, done, s) && Places(storage, home, target, done, place)
      requires Placed(entries, place) && entries.Keys == storage && s in entries
      requires Texts(storage, home, target, done, link)
      modifies `link
      ensures Texts(storage, home, target, done + {s}, link)
      ensures Collected(storage, home, target, s, entries[s], toMove) && Follows(s, toMove, toCopy)
    {
      hide *;
      toMove, toCopy := [], [];
      var items := entries[s];
      NothingCollected(storage, home, target, done, s, link);
      assert items[..0] == [];
      for k := 0 to |items|
        invariant entries == old(entries) && link.Keys == target.Keys
        invariant Collected(storage, home, target, s, items[..k], toMove)
        invariant TextsSoFar(storage, home, target, done, s, items[..k], link)
        invariant Follows(s, toMove, toCopy)
      {
        var item := items[k];
        assert items[..k + 1] == items[..k] + [item];
        if item.File? && item.path in link {
          var h := item.path;
          LinkAt(storage, home, target, done, place, entries, s, link, toMove, k);
          var common := CommonPrefix(h, link[h]);
          if |common| >= |s| {
            StayStep(storage, home, target, done, s, items[..k], toMove, link, h);
            var cut := Subpath(link[h], |s|);
            link := link[h := cut];
          } else {
            var to := FindNearestStorageDirectory(h, link[h]);
            LeaveStep(storage, home, target, done, s, items[..k], toMove, link, h);
            toMove, toCopy := Collect(toMove, toCopy, h, s, to);
          }
        } else {
          OtherStep(storage, home, target, done, s, items[..k], toMove, link, item);
        }
      }
      assert items[..|items|] == items;
      TextsDone(storage, home, target, done, place, entries, s, link);
    }

    static method Collect(before: seq<Move>, copies: seq<Move>, h: Path, s: Path, to: Path)
      returns (toMove: seq<Move>, toCopy: seq<Move>)
      requires |h| > 1 && Follows(s, before, copies)
      ensures toMove == before + [Move(h, to)] && Follows(s, toMove, toCopy)
    {
      hide *;
      FollowsStep(s, before, copies, Move(h, to));
      toMove := before + [Move(h, to)];
      toCopy := CopyParents(copies, h, s, to);
    }

    static method CopyParents(before: seq<Move>, h: Path, s: Path, to: Path) returns (toCopy: seq<Move>)
      requires |h| > 1
      ensures toCopy == before + Chain(h, s, to)
    {
      toCopy := before;
      var dir: Path := Parent(h);
      ghost var below := h;
      while |dir| > |s|
        invariant |below| > 1 && dir == Parent(below) && toCopy + Chain(below, s, to) == before + Chain(h, s, to)
        decreases |dir|
      {
        toCopy := toCopy + [Move(dir, to)];
        below, dir := dir, Parent(dir);
      }
    }

    /** Moves the collected links to the ends of other directories' entries. */
    method MoveAll(s: Path, toMove: seq<Move>, ghost home: map<Path, Path>, ghost target: Links, ghost done: set<Path>,
                   ghost place: map<Path, Path>)
      returns (ghost now: map<Path, Path>)
      requires Housed(storage, home, target) && Next(storage, done, s) && Places(storage, home, target, done, place)
      requires Placed(entries, place) && entries.Keys == storage && s in entries
      requires Collected(storage, home, target, s, entries[s], toMove)
      modifies `entries
      ensures Places(storage, home, target, done + {s}, now) && Placed(entries, now)
      ensures entries.Keys == storage && SameCopies(old(entries), entries)
    {
      hide *;
      now := place;
      NothingMoved(place);
      assert toMove[..0] == [];
      MovesAre(storage, home, target, done, place, entries, s, toMove);
      ItsOwnCopies(entries);
      for j := 0 to |toMove|
        invariant Moved(place, toMove[..j], now) && Placed(entries, now)
        invariant entries.Keys == storage && SameCopies(old(entries), entries)
      {
        var e, to := toMove[j].entry, toMove[j].to;
        MovedStep(place, toMove, now, j);
        MoveStep(entries, now, e, s, to);
        SameCopiesStep(old(entries), entries, s, to, e);
        entries := entries[s := Without(entries[s], File(e))][to := entries[to] + [File(e)]];
        now := now[e := to];
      }
      assert toMove[..|toMove|] == toMove;
      PlacesDone(storage, home, target, done, place, old(entries), s, toMove, now);
    }

    method CopyAll(toCopy: seq<Move>, ghost place: map<Path, Path>)
      requires Placed(entries, place) && entries.Keys == storage && forall c :: c in toCopy ==> c.to in storage
      modifies `entries
      ensures Placed(entries, place) && entries.Keys == storage && CopiesAdded(old(entries), toCopy, entries)
    {
      hide *;
      NoCopiesAdded(entries);
      assert toCopy[..0] == [];
      for j := 0 to |toCopy|
        invariant Placed(entries, place) && entries.Keys == storage && CopiesAdded(old(entries), toCopy[..j], entries)
      {
        var d, to := toCopy[j].entry, toCopy[j].to;
        assert toCopy[..j + 1] == toCopy[..j] + [toCopy[j]];
        CopyStep(entries, place, d, to);
        CopiesAddedStep(old(entries), toCopy[..j], entries, toCopy[j]);
        entries := entries[to := entries[to] + [Copy(d)]];
      }
      assert toCopy[..|toCopy|] == toCopy;
    }

    /**
     Moves every link into its goal, and cuts the text of the link by the goal's depth. Nothing else is
     moved; see GoalIsLowest for what that comes to.
     */
    method FixHardLinks(ghost home: map<Path, Path>)
      requires Housed(storage, home, link) && DeepestFirst(storage, order)
      requires Placed(entries, home) && entries.Keys == storage
      requires forall t, d :: t in entries ==> Copy(d) !in entries[t]
      modifies `link, `entries
      ensures entries.Keys == storage && link.Keys == old(link).Keys
      ensures forall p, t :: p in home && t in storage ==>
        Times(entries[t], p) == if FinalPlace(storage, home, old(link), p) == t then 1 else 0
      ensures forall p, t :: t in entries && File(p) in entries[t] ==> p in home
      ensures forall h :: h in old(link) ==> link[h] == Beyond(old(link)[h], |Goal(storage, home, old(link), h)|)
      ensures Copied(storage, home, old(link), storage, entries)
    {
      hide *;
      ghost var target, place := link, home;
      AtStart(storage, home, target, order, entries);
      for i := 0 to |order|
        invariant Places(storage, home, target, Done(order, i), place) && Placed(entries, place)
        invariant entries.Keys == storage
        invariant Texts(storage, home, target, Done(order, i), link)
        invariant Copied(storage, home, target, Done(order, i), entries)
      {
        var s := order[i];
        ghost var done, was := Done(order, i), entries;
        InOrder(storage, order, i);
        InStorage(storage, done, s);
        var toMove, toCopy := CollectMoves(s, home, target, done, place);
        CopiesHaveRoom(storage, home, target, done, place, entries, s, toMove, toCopy);
        ghost var now := MoveAll(s, toMove, home, target, done, place);
        ghost var moved := entries;
        CopyAll(toCopy, now);
        CopiedStep(storage, home, target, done, place, was, s, toMove, toCopy, moved, entries);
        place := now;
      }
      AtEnd(storage, home, target, order, place, entries, link);
    }
  }

  lemma InStorage(storage: set<Path>, done: set<Path>, s: Path)
    requires Next(storage, done, s)
    ensures s in storage
  {
  }
}
