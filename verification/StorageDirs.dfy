/**
 Choosing the storage directories: sizes are summed up towards the root, and every directory that is
 chosen takes its share out of the directories above it again.
 */
module StorageDirs {
  import opened Blocks
  import opened Paths

  type Sizes = map<Path, nat>

  /** Subtraction of size_t. */
  function Minus(a: nat, b: nat): nat {
    var difference: int := a - b;
    ToSize(difference)
  }

  lemma MinusIs(a: nat, b: nat)
    requires b <= a < SIZE_LIMIT
    ensures Minus(a, b) == a - b
  {
  }

  lemma MinusWraps(a: nat, b: nat)
    requires a < b < SIZE_LIMIT
    ensures Minus(a, b) == SIZE_LIMIT - (b - a)
  {
  }

  /** The sizes of the files of a list that are in a set, summed up. */
  function Total(files: seq<Path>, sizes: Sizes, s: set<Path>): nat
    requires forall p :: p in files ==> p in sizes
  {
    if files == [] then 0
    else Total(files[1..], sizes, s) + if files[0] in s then sizes[files[0]] else 0
  }

  lemma {:induction false} TotalOfUnion(files: seq<Path>, sizes: Sizes, s: set<Path>, t: set<Path>)
    requires (forall p :: p in files ==> p in sizes) && s !! t
    ensures Total(files, sizes, s + t) == Total(files, sizes, s) + Total(files, sizes, t)
  {
    if files != [] {
      TotalOfUnion(files[1..], sizes, s, t);
    }
  }

  lemma {:induction false} TotalOfOne(files: seq<Path>, sizes: Sizes, p: Path)
    requires (forall q :: q in files ==> q in sizes) && p in files
    requires forall i, j :: 0 <= i < j < |files| ==> files[i] != files[j]
    ensures Total(files, sizes, {p}) == sizes[p]
  {
    if files[0] == p {
      TotalOfNone(files[1..], sizes, {p});
    } else {
      TotalOfOne(files[1..], sizes, p);
    }
  }

  lemma {:induction false} TotalOfNone(files: seq<Path>, sizes: Sizes, s: set<Path>)
    requires (forall q :: q in files ==> q in sizes) && forall q :: q in files ==> q !in s
    ensures Total(files, sizes, s) == 0
  {
    if files != [] {
      TotalOfNone(files[1..], sizes, s);
    }
  }

  /** A path and everything below it. */
  function Below(files: seq<Path>, p: Path): set<Path> {
    set q | q in files && p <= q
  }

  /** What a directory holds once the chosen directories below it are taken out. */
  function Own(files: seq<Path>, p: Path, chosen: set<Path>): set<Path> {
    set q | q in files && p <= q && !exists s :: s in chosen && p < s && s <= q
  }

  /** The scanned tree as the planner holds it: deepest paths first, every path's directory in it too. */
  ghost predicate IsTree(files: seq<Path>, dirs: set<Path>, sizes: Sizes) {
    && (forall p :: p in files ==> p in sizes)
    && (forall i, j :: 0 <= i < j < |files| ==> DepthFirstLess(files[i], files[j]))
    && Closed(files, dirs)
  }

  ghost predicate Closed(files: seq<Path>, dirs: set<Path>) {
    && (forall p :: p in files ==> p[0] == "" && (|p| > 1 ==> Parent(p) in files && Parent(p) in dirs))
    && ROOT in files && ROOT in dirs
    && (forall p :: p in dirs ==> p in files)
  }

  lemma TreeIs(files: seq<Path>, dirs: set<Path>, sizes: Sizes)
    requires IsTree(files, dirs, sizes)
    ensures forall p :: p in files ==> p in sizes
    ensures forall i, j :: 0 <= i < j < |files| ==> files[i] != files[j] && |files[i]| >= |files[j]|
    ensures forall p :: p in files && |p| > 1 ==> Parent(p) in files
  {
    forall i, j | 0 <= i < j < |files|
      ensures files[i] != files[j] && |files[i]| >= |files[j]|
    {
      DepthFirstIs(files[i], files[j]);
    }
  }

  /** Every directory on the way to a path is in the tree. */
  lemma {:induction false} Ancestors(files: seq<Path>, dirs: set<Path>, p: Path, n: nat)
    requires Closed(files, dirs) && p in files && 0 < n <= |p|
    ensures p[..n] in files && (n < |p| ==> p[..n] in dirs)
    decreases |p|
  {
    if n < |p| {
      if n < |p| - 1 {
        Ancestors(files, dirs, Parent(p), n);
        assert Parent(p)[..n] == p[..n];
      }
    } else {
      assert p[..n] == p;
    }
  }

  class Planner {
    const files: seq<Path>
    const dirs: set<Path>
    const blocked: Sizes
    const triggerSize: nat
    /** Directories that have to be storage directories: by depth, or by a glob of the settings. */
    const must: set<Path>
    var childrenSize: Sizes
    var storageDirs: set<Path>

    ghost predicate Valid()
      reads this
    {
      && IsTree(files, dirs, blocked) && (forall p :: p in dirs && |p| <= 1 ==> p in must)
      && Total(files, blocked, Below(files, ROOT)) < SIZE_LIMIT
      && childrenSize.Keys == blocked.Keys
    }

    /** Entries start out with their own blocked sizes. */
    constructor (files: seq<Path>, dirs: set<Path>, blocked: Sizes, triggerSize: nat, must: set<Path>)
      requires IsTree(files, dirs, blocked) && (forall p :: p in dirs && |p| <= 1 ==> p in must)
      requires Total(files, blocked, Below(files, ROOT)) < SIZE_LIMIT
      ensures Valid() && storageDirs == {} && childrenSize == blocked
      ensures this.files == files && this.dirs == dirs && this.blocked == blocked
      ensures this.triggerSize == triggerSize && this.must == must
    {
      this.files, this.dirs, this.blocked, this.triggerSize, this.must := files, dirs, blocked, triggerSize, must;
      childrenSize, storageDirs := blocked, {};
    }

    /** Sums sizes up: afterwards every path knows the size of all that is below it. */
    method AccumulateSizes()
      requires Valid() && childrenSize == blocked
      modifies `childrenSize
      ensures Valid() && forall p :: p in files ==> childrenSize[p] == Total(files, blocked, Below(files, p))
    {
      hide IsTree, Total, Below, Counted, ToSize, DepthFirstLess;
      ValidIs();
      CountedAtStart(files, dirs, blocked);
      for i := 0 to |files|
        invariant Valid() && childrenSize.Keys == blocked.Keys
        invariant forall p :: p in files ==> childrenSize[p] == Total(files, blocked, Counted(files, p, i))
      {
        var te := files[i];
        CountedStep(files, dirs, blocked, i);
        if |te| > 1 {
          var dir := Parent(te);
          childrenSize := childrenSize[dir := ToSize(childrenSize[dir] + childrenSize[te])];
        }
      }
      CountedAtEnd(files, dirs, blocked);
    }

    /**
     Chooses the storage directories, deepest first. Nothing wraps around: every size is that of what
     the directory holds for itself, and a directory is chosen if it must be, or if that is too much.
     */
    method SelectStorageDirs()
      requires Valid() && storageDirs == {}
      requires forall p :: p in files ==> childrenSize[p] == Total(files, blocked, Below(files, p))
      modifies `childrenSize, `storageDirs
      ensures Valid() && storageDirs <= dirs
      ensures Shares(files, blocked, childrenSize, storageDirs)
      ensures Decided(files, dirs, blocked, must, triggerSize, storageDirs, |files|)
    {
      hide IsTree, Total, Below, Own, Shares, Decided, TookOut, ToSize, DepthFirstLess;
      ValidIs();
      NothingChosen(files, blocked, childrenSize);
      NothingDecided(files, dirs, blocked, must, triggerSize);
      for i := 0 to |files|
        invariant Valid() && storageDirs <= dirs && forall s :: s in storageDirs ==> s in files[..i]
        invariant Shares(files, blocked, childrenSize, storageDirs)
        invariant Decided(files, dirs, blocked, must, triggerSize, storageDirs, i)
      {
        var te := files[i];
        ghost var was, before := childrenSize, storageDirs;
        ShareOf(files, blocked, was, before, te);
        assert files[..i + 1] == files[..i] + [te];
        if te in dirs && (te in must || (triggerSize > 0 && childrenSize[te] > triggerSize)) {
          storageDirs := storageDirs + {te};
          TakeOut(te);
          ShareStep(files, dirs, blocked, was, childrenSize, before, i);
        }
        DecideStep(files, dirs, blocked, must, triggerSize, before, storageDirs, i);
      }
    }

    /** Takes a directory's size out of all directories above it. */
    method TakeOut(te: Path)
      requires Valid() && te in files
      modifies `childrenSize
      ensures Valid() && TookOut(files, old(childrenSize), childrenSize, te, 1)
    {
      hide IsTree, Closed, Total, Below, TookOut, Minus, Parent;
      ValidIs();
      ghost var was := childrenSize;
      var size := childrenSize[te];
      var i: Path := te;
      NothingTaken(files, was, te);
      while |i| > 1
        invariant i <= te && Valid() && TookOut(files, was, childrenSize, te, |i|)
        decreases |i|
      {
        Ancestors(files, dirs, te, |i| - 1);
        ParentOnTheWay(i, te);
        i := Parent(i);
        TakeStep(files, was, childrenSize, te, i);
        childrenSize := childrenSize[i := Minus(childrenSize[i], size)];
      }
    }

    lemma ValidIs()
      requires Valid()
      ensures IsTree(files, dirs, blocked) && Total(files, blocked, Below(files, ROOT)) < SIZE_LIMIT
      ensures forall p :: p in files ==> p in childrenSize && p in blocked
    {
    }
  }

  /** A path and what has been counted into it when the first i files have passed their sizes on. */
  function Counted(files: seq<Path>, p: Path, i: nat): set<Path>
    requires i <= |files|
  {
    set q | q in files && p <= q && (q == p || q[..|p| + 1] in files[..i])
  }

  lemma CountedAtStart(files: seq<Path>, dirs: set<Path>, sizes: Sizes)
    requires IsTree(files, dirs, sizes)
    ensures forall p :: p in files ==> p in sizes && Total(files, sizes, Counted(files, p, 0)) == sizes[p]
  {
    TreeIs(files, dirs, sizes);
    hide IsTree, Total;
    forall p | p in files
      ensures Total(files, sizes, Counted(files, p, 0)) == sizes[p]
    {
      assert Counted(files, p, 0) == {p};
      TotalOfOne(files, sizes, p);
    }
  }

  lemma CountedAtEnd(files: seq<Path>, dirs: set<Path>, sizes: Sizes)
    requires IsTree(files, dirs, sizes)
    ensures forall p :: p in files ==> Counted(files, p, |files|) == Below(files, p)
  {
    assert files[..|files|] == files;
    forall p, q | p in files && q in Below(files, p) && q != p
      ensures q[..|p| + 1] in files
    {
      Ancestors(files, dirs, q, |p| + 1);
    }
  }

  /** The file at i is complete when its turn comes, and adds all that is below it to its directory. */
  lemma CountedStep(files: seq<Path>, dirs: set<Path>, sizes: Sizes, i: nat)
    requires IsTree(files, dirs, sizes) && i < |files|
    ensures forall p :: p in files ==> p in sizes
    ensures Counted(files, files[i], i) == Below(files, files[i])
    ensures forall p :: p in files && !(|files[i]| > 1 && p == Parent(files[i])) ==>
      Counted(files, p, i + 1) == Counted(files, p, i)
    ensures |files[i]| > 1 ==>
      && Parent(files[i]) in files
      && Total(files, sizes, Counted(files, Parent(files[i]), i + 1))
         == Total(files, sizes, Counted(files, Parent(files[i]), i)) + Total(files, sizes, Counted(files, files[i], i))
         <= Total(files, sizes, Below(files, ROOT))
  {
    hide *;
    var te := files[i];
    TreeIs(files, dirs, sizes);
    CompleteInTurn(files, dirs, sizes, i);
    forall p | p in files && !(|te| > 1 && p == Parent(te))
      ensures Counted(files, p, i + 1) == Counted(files, p, i)
    {
      CountedNext(files, i, p);
    }
    if |te| > 1 {
      NotYetCounted(files, i);
      CountedNext(files, i, Parent(te));
      TotalOfUnion(files, sizes, Counted(files, Parent(te), i), Below(files, te));
      CountedIsInside(files, Parent(te), i + 1);
      AllBelowRoot(files, dirs, sizes, Counted(files, Parent(te), i + 1));
    }
  }

  lemma CountedIsInside(files: seq<Path>, p: Path, i: nat)
    requires i <= |files|
    ensures forall q :: q in Counted(files, p, i) ==> q in files
  {
  }

  lemma EarlierIfDeeper(files: seq<Path>, i: nat, q: Path)
    requires i < |files| && (forall i, j :: 0 <= i < j < |files| ==> |files[i]| >= |files[j]|)
    requires q in files && |q| > |files[i]|
    ensures q in files[..i]
  {
    var j :| 0 <= j < |files| && files[j] == q;
    assert j < i;
    assert files[..i][j] == q;
  }

  lemma CompleteInTurn(files: seq<Path>, dirs: set<Path>, sizes: Sizes, i: nat)
    requires IsTree(files, dirs, sizes) && i < |files|
    ensures Counted(files, files[i], i) == Below(files, files[i])
  {
    var te := files[i];
    TreeIs(files, dirs, sizes);
    hide IsTree;
    forall q | q in Below(files, te) && q != te
      ensures q[..|te| + 1] in files[..i]
    {
      Ancestors(files, dirs, q, |te| + 1);
      EarlierIfDeeper(files, i, q[..|te| + 1]);
    }
  }

  lemma CountedNext(files: seq<Path>, i: nat, p: Path)
    requires i < |files|
    ensures var te := files[i];
      Counted(files, p, i + 1)
      == if |te| > 1 && p == Parent(te) then Counted(files, p, i) + Below(files, te) else Counted(files, p, i)
  {
    var te := files[i];
    assert files[..i + 1] == files[..i] + [te];
    forall q: Path | q in files && p <= q && q != p
      ensures q[..|p| + 1] == te <==> |te| > 1 && p == Parent(te) && te <= q
    {
      ChildOnTheWay(p, q, te);
    }
  }

  lemma ChildOnTheWay(p: Path, q: Path, te: Path)
    requires p < q
    ensures q[..|p| + 1] == te <==> |te| > 1 && p == Parent(te) && te <= q
  {
    if q[..|p| + 1] == te {
      assert Parent(te) == q[..|p|];
    }
  }

  lemma NotYetCounted(files: seq<Path>, i: nat)
    requires i < |files| && |files[i]| > 1
    requires forall i, j :: 0 <= i < j < |files| ==> files[i] != files[j]
    ensures Counted(files, Parent(files[i]), i) !! Below(files, files[i])
  {
    var te := files[i];
    var dir := Parent(te);
    assert te !in files[..i];
    forall q | q in Below(files, te)
      ensures q !in Counted(files, dir, i)
    {
      assert q[..|dir| + 1] == te;
    }
  }

  lemma AllBelowRoot(files: seq<Path>, dirs: set<Path>, sizes: Sizes, s: set<Path>)
    requires IsTree(files, dirs, sizes) && forall p :: p in s ==> p in files
    ensures forall p :: p in files ==> p in sizes
    ensures Total(files, sizes, s) <= Total(files, sizes, Below(files, ROOT))
  {
    TreeIs(files, dirs, sizes);
    assert s <= Below(files, ROOT);
    TotalOfPart(files, sizes, s, Below(files, ROOT));
  }

  lemma TotalOfPart(files: seq<Path>, sizes: Sizes, s: set<Path>, t: set<Path>)
    requires (forall p :: p in files ==> p in sizes) && s <= t
    ensures Total(files, sizes, t) == Total(files, sizes, s) + Total(files, sizes, t - s)
  {
    TotalOfUnion(files, sizes, s, t - s);
    assert s + (t - s) == t;
  }

  /** Every path's size is that of what it holds for itself. */
  ghost predicate Shares(files: seq<Path>, sizes: Sizes, now: Sizes, chosen: set<Path>) {
    && (forall p :: p in files ==> p in sizes && p in now)
    && forall p :: p in files ==> now[p] == Total(files, sizes, Own(files, p, chosen))
  }

  lemma NothingChosen(files: seq<Path>, sizes: Sizes, now: Sizes)
    requires (forall p :: p in files ==> p in sizes && p in now)
    requires forall p :: p in files ==> now[p] == Total(files, sizes, Below(files, p))
    ensures Shares(files, sizes, now, {})
  {
    hide Total;
    forall p | p in files
      ensures Own(files, p, {}) == Below(files, p)
    {
    }
  }

  lemma ShareOf(files: seq<Path>, sizes: Sizes, now: Sizes, chosen: set<Path>, p: Path)
    requires Shares(files, sizes, now, chosen) && p in files
    ensures p in now && (forall q :: q in files ==> q in sizes)
    ensures now[p] == Total(files, sizes, Own(files, p, chosen))
  {
  }

  /** A size was taken out of the directories above te, down to some depth. */
  ghost predicate TookOut(files: seq<Path>, was: Sizes, now: Sizes, te: Path, depth: nat) {
    te in was && now.Keys == was.Keys && forall p :: p in files && p in was ==>
      now[p] == if p < te && depth <= |p| then Minus(was[p], was[te]) else was[p]
  }

  lemma NothingTaken(files: seq<Path>, was: Sizes, te: Path)
    requires te in was
    ensures TookOut(files, was, was, te, |te|)
  {
  }

  lemma ParentOnTheWay(i: Path, te: Path)
    requires i <= te && |i| > 1
    ensures Parent(i) == te[..|i| - 1] && Parent(i) < te && |Parent(i)| == |i| - 1
  {
  }

  lemma TakeStep(files: seq<Path>, was: Sizes, before: Sizes, te: Path, i: Path)
    requires TookOut(files, was, before, te, |i| + 1) && i < te && i in files && i in before
    ensures te in was && before.Keys == was.Keys
    ensures TookOut(files, was, before[i := Minus(before[i], was[te])], te, |i|)
  {
    hide Minus;
    forall p: Path | p < te && |p| == |i|
      ensures p == i
    {
    }
  }

  /** The choices made for the first i files, by what is known in the end. */
  ghost predicate Decided(files: seq<Path>, dirs: set<Path>, sizes: Sizes, must: set<Path>, triggerSize: nat,
                          chosen: set<Path>, i: nat)
  {
    i <= |files| && (forall q :: q in files ==> q in sizes) && forall j :: 0 <= j < i ==>
      (files[j] in chosen <==> files[j] in dirs && Ought(files, sizes, must, triggerSize, chosen, files[j]))
  }

  /** A directory that has to be chosen, or that holds too much for itself. */
  predicate Ought(files: seq<Path>, sizes: Sizes, must: set<Path>, triggerSize: nat, chosen: set<Path>, p: Path)
    requires forall q :: q in files ==> q in sizes
  {
    p in must || (triggerSize > 0 && Total(files, sizes, Own(files, p, chosen)) > triggerSize)
  }

  lemma NothingDecided(files: seq<Path>, dirs: set<Path>, sizes: Sizes, must: set<Path>, triggerSize: nat)
    requires forall q :: q in files ==> q in sizes
    ensures Decided(files, dirs, sizes, must, triggerSize, {}, 0)
  {
  }

  /** Choosing one more directory does not change what the files before it hold for themselves. */
  lemma DecideStep(files: seq<Path>, dirs: set<Path>, sizes: Sizes, must: set<Path>, triggerSize: nat,
                   before: set<Path>, chosen: set<Path>, i: nat)
    requires IsTree(files, dirs, sizes) && i < |files| && (forall s :: s in before ==> s in files[..i])
    requires Decided(files, dirs, sizes, must, triggerSize, before, i)
    requires var te := files[i];
      chosen == before + if te in dirs && Ought(files, sizes, must, triggerSize, before, te) then {te} else {}
    ensures Decided(files, dirs, sizes, must, triggerSize, chosen, i + 1)
  {
    TreeIs(files, dirs, sizes);
    hide Own, Ought, Total, IsTree, DepthFirstLess;
    EarlierUnchanged(files, before, chosen, i);
    forall j | 0 <= j <= i
      ensures files[j] in chosen <==> files[j] in dirs && Ought(files, sizes, must, triggerSize, chosen, files[j])
    {
      OughtUnchanged(files, sizes, must, triggerSize, before, chosen, files[j]);
    }
  }

  lemma OughtUnchanged(files: seq<Path>, sizes: Sizes, must: set<Path>, triggerSize: nat,
                       before: set<Path>, chosen: set<Path>, p: Path)
    requires forall q :: q in files ==> q in sizes
    requires Own(files, p, before) == Own(files, p, chosen)
    ensures Ought(files, sizes, must, triggerSize, before, p) <==> Ought(files, sizes, must, triggerSize, chosen, p)
  {
  }

  lemma EarlierUnchanged(files: seq<Path>, before: set<Path>, chosen: set<Path>, i: nat)
    requires i < |files| && (forall s :: s in before ==> s in files[..i])
    requires forall i, j :: 0 <= i < j < |files| ==> files[i] != files[j] && |files[i]| >= |files[j]|
    requires before <= chosen <= before + {files[i]}
    ensures forall j :: 0 <= j <= i ==> Own(files, files[j], chosen) == Own(files, files[j], before)
    ensures forall j :: 0 <= j < i ==> (files[j] in chosen <==> files[j] in before)
    ensures files[i] !in before
  {
    var te := files[i];
    hide Own;
    assert te !in files[..i];
    if te in chosen {
      assert chosen == before + {te};
      forall j | 0 <= j <= i
        ensures Own(files, files[j], chosen) == Own(files, files[j], before)
      {
        NotAbove(files, files[j], te, before);
      }
    } else {
      assert chosen == before;
    }
  }

  lemma NotAbove(files: seq<Path>, p: Path, te: Path, chosen: set<Path>)
    requires !(p < te)
    ensures Own(files, p, chosen + {te}) == Own(files, p, chosen)
  {
  }

  /** Moving what te holds out of the directories above it leaves every directory with its own. */
  lemma ShareStep(files: seq<Path>, dirs: set<Path>, sizes: Sizes, was: Sizes, now: Sizes, chosen: set<Path>, i: nat)
    requires IsTree(files, dirs, sizes) && i < |files| && (forall s :: s in chosen ==> s in files[..i])
    requires Total(files, sizes, Below(files, ROOT)) < SIZE_LIMIT
    requires Shares(files, sizes, was, chosen) && TookOut(files, was, now, files[i], 1)
    ensures Shares(files, sizes, now, chosen + {files[i]})
  {
    var te := files[i];
    hide *;
    forall p | p in files
      ensures p in sizes && p in now && now[p] == Total(files, sizes, Own(files, p, chosen + {te}))
    {
      ShareAt(files, sizes, was, now, chosen, te, p);
      if p < te {
        TakenFrom(files, dirs, sizes, chosen, i, p);
        MinusIs(was[p], was[te]);
      } else {
        NotAbove(files, p, te, chosen);
      }
    }
    SharesAre(files, sizes, now, chosen + {te});
  }

  lemma SharesAre(files: seq<Path>, sizes: Sizes, now: Sizes, chosen: set<Path>)
    requires forall p :: p in files ==> p in sizes
    requires forall p :: p in files ==> p in now && now[p] == Total(files, sizes, Own(files, p, chosen))
    ensures Shares(files, sizes, now, chosen)
  {
  }

  lemma ShareAt(files: seq<Path>, sizes: Sizes, was: Sizes, now: Sizes, chosen: set<Path>, te: Path, p: Path)
    requires Shares(files, sizes, was, chosen) && TookOut(files, was, now, te, 1) && te in files && p in files
    ensures (forall q :: q in files ==> q in sizes) && p in was && te in was && p in now
    ensures was[p] == Total(files, sizes, Own(files, p, chosen))
    ensures was[te] == Total(files, sizes, Own(files, te, chosen))
    ensures now[p] == if p < te then Minus(was[p], was[te]) else was[p]
  {
    hide Total, Own, Minus;
  }

  /** What a directory above te holds is what it holds without te, and what te holds. */
  lemma TakenFrom(files: seq<Path>, dirs: set<Path>, sizes: Sizes, chosen: set<Path>, i: nat, p: Path)
    requires IsTree(files, dirs, sizes) && i < |files| && (forall s :: s in chosen ==> s in files[..i])
    requires p in files && p < files[i]
    ensures forall q :: q in files ==> q in sizes
    ensures Total(files, sizes, Own(files, p, chosen))
         == Total(files, sizes, Own(files, p, chosen + {files[i]})) + Total(files, sizes, Own(files, files[i], chosen))
         <= Total(files, sizes, Below(files, ROOT))
  {
    var te := files[i];
    TreeIs(files, dirs, sizes);
    ChosenAreDeeper(files, chosen, i);
    OwnSplits(files, p, te, chosen);
    AllBelowRoot(files, dirs, sizes, Own(files, p, chosen));
    hide Own, Total, Below, IsTree;
    TotalOfUnion(files, sizes, Own(files, p, chosen + {te}), Own(files, te, chosen));
  }

  lemma ChosenAreDeeper(files: seq<Path>, chosen: set<Path>, i: nat)
    requires i < |files| && (forall s :: s in chosen ==> s in files[..i])
    requires forall i, j :: 0 <= i < j < |files| ==> files[i] != files[j] && |files[i]| >= |files[j]|
    ensures forall s :: s in chosen ==> s != files[i] && |s| >= |files[i]|
  {
    forall s | s in chosen
      ensures s != files[i] && |s| >= |files[i]|
    {
      var j :| 0 <= j < i && files[..i][j] == s;
    }
  }

  lemma OwnSplits(files: seq<Path>, p: Path, te: Path, chosen: set<Path>)
    requires p < te && forall s :: s in chosen ==> s != te && |s| >= |te|
    ensures Own(files, p, chosen) == Own(files, p, chosen + {te}) + Own(files, te, chosen)
    ensures Own(files, p, chosen + {te}) !! Own(files, te, chosen)
  {
    forall q | q in files && te <= q
      ensures (exists s :: s in chosen && p < s && s <= q) <==> (exists s :: s in chosen && te < s && s <= q)
    {
      if s :| s in chosen && p < s && s <= q {
        assert te == q[..|te|] && s == q[..|s|] && te == s[..|te|];
      }
    }
  }

  // ---------------------------------------------------------------- the shares make up the tree

  /** The deepest chosen directory on the way to a path. */
  function Nearest(chosen: set<Path>, p: seq<string>): (s: Path)
    requires exists s :: s in chosen && s <= p
    ensures s in chosen && s <= p && forall t :: t in chosen && t <= p ==> t <= s
    decreases |p|
  {
    if p != [] && p in chosen then p
    else
      ShorterIfNot(chosen, p);
      Nearest(chosen, p[..|p| - 1])
  }

  lemma ShorterIfNot(chosen: set<Path>, p: seq<string>)
    requires p == [] || p !in chosen
    ensures forall t :: t in chosen && t <= p ==> |p| > 0 && t <= p[..|p| - 1]
  {
    forall t | t in chosen && t <= p
      ensures |p| > 0 && t <= p[..|p| - 1]
    {
      assert t == p[..|t|];
      assert p == p[..|p|];
    }
  }

  /** Every path belongs to one chosen directory only: the nearest one above it. */
  lemma OwnerIsNearest(files: seq<Path>, chosen: set<Path>, p: Path, s: Path)
    requires ROOT in chosen && p in files && p[0] == "" && s in chosen
    ensures (exists t :: t in chosen && t <= p)
    ensures p in Own(files, s, chosen) <==> s == Nearest(chosen, p)
  {
    assert ROOT <= p;
    var n := Nearest(chosen, p);
    if p in Own(files, s, chosen) {
      assert s <= n && n <= p && !(s < n);
    }
  }

  /** What all the directories of a set hold for themselves. */
  ghost function SumOfShares(files: seq<Path>, sizes: Sizes, chosen: set<Path>, some: set<Path>): nat
    requires forall p :: p in files ==> p in sizes
  {
    if some == {} then 0
    else
      var s :| s in some;
      Total(files, sizes, Own(files, s, chosen)) + SumOfShares(files, sizes, chosen, some - {s})
  }

  /** The paths that belong to the directories of a set. */
  function OwnedBy(files: seq<Path>, chosen: set<Path>, some: set<Path>): set<Path> {
    set p | p in files && exists s :: s in some && p in Own(files, s, chosen)
  }

  lemma {:induction false} SharesAddUp(files: seq<Path>, sizes: Sizes, chosen: set<Path>, some: set<Path>)
    requires (forall p :: p in files ==> p in sizes && p[0] == "") && ROOT in chosen && some <= chosen
    ensures SumOfShares(files, sizes, chosen, some) == Total(files, sizes, OwnedBy(files, chosen, some))
    decreases some
  {
    if some == {} {
      TotalOfNone(files, sizes, OwnedBy(files, chosen, some));
    } else {
      var s :| s in some
        && SumOfShares(files, sizes, chosen, some)
           == Total(files, sizes, Own(files, s, chosen)) + SumOfShares(files, sizes, chosen, some - {s});
      SharesAddUp(files, sizes, chosen, some - {s});
      OwnersSplit(files, chosen, some, s);
      TotalOfUnion(files, sizes, OwnedBy(files, chosen, some - {s}), Own(files, s, chosen));
    }
  }

  lemma OwnersSplit(files: seq<Path>, chosen: set<Path>, some: set<Path>, s: Path)
    requires (forall p :: p in files ==> p[0] == "") && ROOT in chosen && some <= chosen && s in some
    ensures OwnedBy(files, chosen, some) == OwnedBy(files, chosen, some - {s}) + Own(files, s, chosen)
    ensures OwnedBy(files, chosen, some - {s}) !! Own(files, s, chosen)
  {
    forall p | p in OwnedBy(files, chosen, some - {s})
      ensures p !in Own(files, s, chosen)
    {
      var t :| t in some - {s} && p in Own(files, t, chosen);
      OwnerIsNearest(files, chosen, p, t);
      OwnerIsNearest(files, chosen, p, s);
    }
  }

  /**
   The result of the selection: the storage directories' sizes sum up to the whole tree, and none of
   the other directories holds more for itself than the limit, if there is one.
   */
  lemma SelectionIsBalanced(files: seq<Path>, dirs: set<Path>, sizes: Sizes, must: set<Path>, triggerSize: nat,
                            chosen: set<Path>)
    requires IsTree(files, dirs, sizes) && ROOT in must && chosen <= dirs
    requires Decided(files, dirs, sizes, must, triggerSize, chosen, |files|)
    ensures forall p :: p in files ==> p in sizes
    ensures ROOT in chosen && must * dirs <= chosen
    ensures SumOfShares(files, sizes, chosen, chosen) == Total(files, sizes, Below(files, ROOT))
    ensures forall d :: d in dirs && d !in chosen && triggerSize > 0 ==>
      Total(files, sizes, Own(files, d, chosen)) <= triggerSize
    ensures forall d :: d in chosen && d !in must ==>
      triggerSize > 0 && Total(files, sizes, Own(files, d, chosen)) > triggerSize
  {
    hide Total, Own;
    forall d | d in dirs
      ensures d in chosen <==> Ought(files, sizes, must, triggerSize, chosen, d)
    {
      var j :| 0 <= j < |files| && files[j] == d;
    }
    SharesAddUp(files, sizes, chosen, chosen);
    forall p | p in files
      ensures p in OwnedBy(files, chosen, chosen)
    {
      OwnerIsNearest(files, chosen, p, ROOT);
      OwnerIsNearest(files, chosen, p, Nearest(chosen, p));
    }
    assert OwnedBy(files, chosen, chosen) == Below(files, ROOT);
  }
}
