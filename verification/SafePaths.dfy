/**
 Where storage directories are stored: below the parent storage directory, under one name that any
 file system takes. These names share a table with the directories' real paths.
 */
module SafePaths {
  import opened Texts
  import opened Paths
  import opened StorageDirs

  predicate Forbidden(c: char) {
    c < 32 as char || c == 127 as char || c in "<>:\"\\|?*"
  }

  /** The characters that stand for themselves. */
  predicate Harmless(c: char) {
    !Forbidden(c) && c != '/' && c != ' '
  }

  function UpperDigit(d: nat): char
    requires d < 16
  {
    if d < 10 then '0' + d as char else 'A' + (d - 10) as char
  }

  function SafeChar(c: char): (r: string)
    ensures r != "" && forall x :: x in r ==> Harmless(x)
  {
    if c == '/' then "_"
    else if c == ' ' then "~"
    else if Forbidden(c) then
      assert c as nat < 128;
      ['%', UpperDigit(c as nat / 16), UpperDigit(c as nat % 16)]
    else [c]
  }

  function SafeDirectory(s: string): string {
    if s == "" then "" else SafeChar(s[0]) + SafeDirectory(s[1..])
  }

  method MakeSafeDirectory(s: string) returns (r: string)
    ensures r == SafeDirectory(s)
  {
    hide SafeChar;
    r := "";
    for i := 0 to |s|
      invariant r + SafeDirectory(s[i..]) == SafeDirectory(s)
    {
      assert s[i..][1..] == s[i + 1..];
      r := r + SafeChar(s[i]);
    }
  }

  /** Safe names are harmless, and harmless names are left alone. */
  lemma {:induction false} SafeDirectoryIsHarmless(s: string)
    ensures forall c :: c in SafeDirectory(s) ==> Harmless(c)
    ensures SafeDirectory(s) == s <==> forall c :: c in s ==> Harmless(c)
    ensures |SafeDirectory(s)| >= |s|
  {
    if s != "" {
      SafeDirectoryIsHarmless(s[1..]);
      assert s == [s[0]] + s[1..];
      if forall c :: c in s ==> Harmless(c) {
        assert Harmless(s[0]);
      }
    }
  }

  lemma SafeDirectoryHasNoSpace(s: string)
    ensures ' ' !in SafeDirectory(s) && '/' !in SafeDirectory(s)
    ensures SafeDirectory(SafeDirectory(s)) == SafeDirectory(s)
  {
    SafeDirectoryIsHarmless(s);
    SafeDirectoryIsHarmless(SafeDirectory(s));
  }

  /** Control characters and those that other systems do not allow, by their codes. */
  lemma ForbiddenCodes(c: char)
    ensures Forbidden(c) <==> c as int < 32 || c as int in [34, 42, 58, 60, 62, 63, 92, 124, 127]
  {
  }

  lemma SafeForms()
    ensures SafeChar('/') == "_" && SafeChar(' ') == "~" && SafeChar(':') == "%3A" && SafeChar('a') == "a"
  {
  }

  /** The characters that other characters are replaced by. */
  predicate Plain(s: string) {
    '_' !in s && '~' !in s && '%' !in s
  }

  lemma {:induction false} SafeNamesDiffer(s: string, t: string)
    requires Plain(s) && Plain(t) && SafeDirectory(s) == SafeDirectory(t)
    ensures s == t
  {
    if s == "" || t == "" {
      SafeDirectoryIsHarmless(s);
      SafeDirectoryIsHarmless(t);
    } else {
      var a, b := SafeChar(s[0]), SafeChar(t[0]);
      assert SafeDirectory(s)[..|a|] == a && SafeDirectory(t)[..|b|] == b;
      assert a[0] == b[0];
      SafeCharsDiffer(s[0], t[0]);
      assert SafeDirectory(s)[|a|..] == SafeDirectory(s[1..]) && SafeDirectory(t)[|b|..] == SafeDirectory(t[1..]);
      SafeNamesDiffer(s[1..], t[1..]);
      assert s == [s[0]] + s[1..] && t == [t[0]] + t[1..];
    }
  }

  lemma SafeCharsDiffer(c: char, d: char)
    requires Plain([c]) && Plain([d]) && SafeChar(c)[0] == SafeChar(d)[0]
    ensures |SafeChar(c)| == |SafeChar(d)|
    ensures SafeChar(c) == SafeChar(d) ==> c == d
  {
  }

  /** Names that are too long are cut, and told apart by a digest and their length. */
  function SafeName(org: string, digest: string -> string): string {
    var safe := SafeDirectory(org);
    if |safe| <= 143 then safe
    else Cut(safe, digest(org) + "L" + Printed(|org|, Dec))
  }

  function Cut(safe: string, hash: string): string
    requires |safe| > 143
  {
    var len: int := 143 - |hash| - 2;
    (if len < 0 then safe else safe[..len]) + "_" + hash
  }

  lemma SafeNameFits(org: string, digest: string -> string)
    requires |digest(org)| == 64 && (forall c :: c in digest(org) ==> Harmless(c))
    requires |org| < Power(Dec, 20)
    ensures |SafeName(org, digest)| <= 143
    ensures forall c :: c in SafeName(org, digest) ==> Harmless(c)
  {
    hide *;
    SafeDirectoryIsHarmless(org);
    if |SafeDirectory(org)| > 143 {
      CutNameIs(org, digest);
      DigitsAreHarmless(Printed(|org|, Dec));
    } else {
      ShortNameIs(org, digest);
    }
  }

  lemma ShortNameIs(org: string, digest: string -> string)
    requires |SafeDirectory(org)| <= 143
    ensures SafeName(org, digest) == SafeDirectory(org)
  {
    hide SafeDirectory, Printed;
  }

  /** A cut name has 142 characters: the start of the safe name, the digest, and the length. */
  lemma CutNameIs(org: string, digest: string -> string)
    requires |digest(org)| == 64 && |SafeDirectory(org)| > 143 && |org| < Power(Dec, 20)
    ensures
      var name, tail := SafeName(org, digest), "_" + digest(org) + "L" + Printed(|org|, Dec);
      && |name| == 142 && name == SafeDirectory(org)[..142 - |tail|] + tail
  {
    hide *;
    PrintedLength(|org|, Dec, 20);
    CutTo(SafeDirectory(org), digest(org), Printed(|org|, Dec));
    SafeNameIs(org, digest);
  }

  lemma SafeNameIs(org: string, digest: string -> string)
    requires |SafeDirectory(org)| > 143
    ensures SafeName(org, digest) == Cut(SafeDirectory(org), digest(org) + "L" + Printed(|org|, Dec))
  {
    hide SafeDirectory, Printed;
  }

  lemma CutTo(safe: string, digest: string, digits: string)
    requires |safe| > 143 && |digest| == 64 && |digits| <= 20
    ensures var tail := "_" + digest + "L" + digits;
      Cut(safe, digest + "L" + digits) == safe[..142 - |tail|] + tail && |Cut(safe, digest + "L" + digits)| == 142
  {
    var tail := "_" + digest + "L" + digits;
    assert tail == "_" + (digest + "L" + digits);
  }

  /** Names that are cut are told apart by their digests and their lengths. */
  lemma CutNamesDiffer(a: string, b: string, digest: string -> string)
    requires |digest(a)| == |digest(b)| == 64 && |SafeDirectory(a)| > 143 && |SafeDirectory(b)| > 143
    requires |a| < Power(Dec, 20) && |b| < Power(Dec, 20) && SafeName(a, digest) == SafeName(b, digest)
    ensures digest(a) == digest(b) && |a| == |b|
  {
    var x, s := CutParts(a, digest);
    var y, t := CutParts(b, digest);
    hide *;
    SameDigits(x, s, y, t);
    ValueOfPrinted(|a|, Dec);
    ValueOfPrinted(|b|, Dec);
  }

  lemma CutParts(org: string, digest: string -> string) returns (front: string, digits: string)
    requires |digest(org)| == 64 && |SafeDirectory(org)| > 143 && |org| < Power(Dec, 20)
    ensures SafeName(org, digest) == front + "L" + digits && digits == Printed(|org|, Dec) && DigitsOnly(digits)
    ensures |front| >= 64 && front[|front| - 64..] == digest(org)
  {
    hide *;
    CutNameIs(org, digest);
    digits := Printed(|org|, Dec);
    var left := SafeDirectory(org)[..142 - |"_" + digest(org) + "L" + digits|];
    front := left + "_" + digest(org);
    DigestEnds(left, digest(org), digits);
  }

  lemma DigestEnds(left: string, digest: string, digits: string)
    requires |digest| == 64
    ensures left + ("_" + digest + "L" + digits) == left + "_" + digest + "L" + digits
    ensures (left + "_" + digest)[|left + "_" + digest| - 64..] == digest
  {
  }

  /** The digits behind the last 'L' are found again. */
  lemma SameDigits(x: string, s: string, y: string, t: string)
    requires DigitsOnly(s) && DigitsOnly(t) && x + "L" + s == y + "L" + t
    ensures x == y && s == t
  {
    var name := x + "L" + s;
    LastL(x, s);
    LastL(y, t);
    assert name[|x|] == 'L' && name[|y|] == 'L';
    assert name[..|x|] == x && name[..|y|] == y && name[|x| + 1..] == s && name[|y| + 1..] == t;
  }

  lemma LastL(x: string, s: string)
    requires DigitsOnly(s)
    ensures var name := x + "L" + s; forall i :: |x| < i < |name| ==> name[i] != 'L'
  {
    var name := x + "L" + s;
    forall i | |x| < i < |name|
      ensures name[i] != 'L'
    {
      assert name[i] == s[i - |x| - 1] && s[i - |x| - 1] in s;
    }
  }

  lemma DigitsAreHarmless(s: string)
    requires DigitsOnly(s)
    ensures Harmless('L') && Harmless('_') && forall c :: c in s ==> Harmless(c)
  {
  }

  // ---------------------------------------------------------------- the table of directories

  /** A path as text: its nodes with slashes between them. */
  function Slashed(nodes: seq<string>): string
    requires nodes != []
  {
    if |nodes| == 1 then nodes[0] else nodes[0] + "/" + Slashed(nodes[1..])
  }

  /** The node for a storage directory below its parent: none, if no path is left. */
  function Piece(p: Path, parent: Path, digest: string -> string): seq<string> {
    var name := SafeName(Slashed(Beyond(p, |parent|)), digest);
    if name == "" then [] else [name]
  }

  /** The safe path a storage directory ought to have, below that of the nearest storage directory above. */
  function SafeOf(storage: set<Path>, digest: string -> string, s: Path): Path
    requires ROOT in storage && s[0] == ""
    decreases |s|
  {
    if s == ROOT then ROOT
    else
      assert ROOT <= Parent(s);
      var parent := Nearest(storage, Parent(s));
      SafeOf(storage, digest, parent) + Piece(s, parent, digest)
  }

  lemma {:induction false} SafeOfIsShort(storage: set<Path>, digest: string -> string, s: Path)
    requires ROOT in storage && s[0] == ""
    ensures |SafeOf(storage, digest, s)| <= |s|
    decreases |s|
  {
    if s != ROOT {
      assert ROOT <= Parent(s);
      SafeOfIsShort(storage, digest, Nearest(storage, Parent(s)));
    }
  }

  type Directories = map<Path, Path>

  /** The first storage directory that the table has for a path or, else, for the paths above it. */
  function FirstAbove(directories: Directories, storage: set<Path>, d: Path): Path
    requires d[0] == "" && ROOT in directories && directories[ROOT] in storage
    decreases |d|
  {
    if d in directories && directories[d] in storage then directories[d]
    else
      assert d != ROOT;
      FirstAbove(directories, storage, Parent(d))
  }

  /** A path stands for a storage directory whose safe path it is. */
  predicate Registered(storage: set<Path>, safe: Directories, d: Path, s: Path) {
    s in storage && s in safe && safe[s] == d
  }

  /** The table has all directories on the way to storage directories, as themselves or as safe paths. */
  ghost predicate Tabled(storage: set<Path>, directories: Directories, safe: Directories) {
    && (forall s, n :: s in storage && 0 < n <= |s| ==> s[..n] in directories)
    && (forall d :: d in directories ==> d == directories[d] || Registered(storage, safe, d, directories[d]))
    && (forall s :: s in safe ==> s in storage)
  }

  /** The safe paths given so far are those that ought to be given. */
  ghost predicate AsOught(storage: set<Path>, digest: string -> string, safe: Directories) {
    ROOT in storage && forall s :: s in safe ==> s[0] == "" && safe[s] == SafeOf(storage, digest, s)
  }

  /** No storage directory's safe path is the path of another directory. */
  ghost predicate Clear(files: seq<Path>, storage: set<Path>, digest: string -> string) {
    && ROOT in storage
    && (forall s, p | s in storage && s[0] == "" && p in files && SafeOf(storage, digest, s) < p ::
          SafeOf(storage, digest, s) == s)
  }

  lemma RootStays(storage: set<Path>, directories: Directories, safe: Directories)
    requires Tabled(storage, directories, safe) && ROOT in storage
    ensures ROOT in directories && directories[ROOT] in storage
  {
    assert ROOT[..1] == ROOT;
  }

  /** The first path from d upwards that is a storage directory's own path or stands for one. */
  function FirstMet(storage: set<Path>, stands: Directories, d: Path): (at: Path)
    requires ROOT in storage && ROOT <= d
    ensures at <= d && ROOT <= at && (at in storage || at in stands)
    ensures forall t :: (t in storage || t in stands) && t <= d ==> t <= at
  {
    Nearest(storage + stands.Keys, d)
  }

  /**
   Gives a directory its safe path, and one to those above that it needs. A path that stands for another
   directory by then is taken for that one: its safe path is known, but it need not lie above.
   */
  function Give(storage: set<Path>, digest: string -> string, stands: Directories, safe: Directories, s: Path)
    : (given: Directories)
    requires ROOT in storage && s[0] == ""
    ensures s in given && forall t :: t in safe ==> t in given && given[t] == safe[t]
    decreases |s|
  {
    if s in safe then safe
    else if s == ROOT then safe[ROOT := ROOT]
    else
      assert ROOT <= Parent(s);
      var at := FirstMet(storage, stands, Parent(s));
      if at in stands then safe[s := at + Piece(s, stands[at], digest)]
      else
        var more := Give(storage, digest, stands, safe, at);
        more[s := more[at] + Piece(s, at, digest)]
  }

  /** Safe paths, and what paths stand for because of them. */
  datatype Given = Given(safe: Directories, stands: Directories)

  /** Storage directories get safe paths in the order of the files; the last one with a safe path has it. */
  function After(files: seq<Path>, storage: set<Path>, digest: string -> string, i: nat): Given
    requires i <= |files| && ROOT in storage && forall s :: s in storage ==> s[0] == ""
  {
    if i == 0 then Given(map[], map[])
    else
      var before, te := After(files, storage, digest, i - 1), files[i - 1];
      if te in storage && te != ROOT then
        var safe := Give(storage, digest, before.stands, before.safe, te);
        Given(safe, before.stands[safe[te] := te])
      else before
  }

  /** What giving a safe path comes to. */
  lemma GiveIs(storage: set<Path>, digest: string -> string, stands: Directories, safe: Directories, s: Path)
    requires ROOT in storage && s[0] == ""
    ensures s in safe ==> Give(storage, digest, stands, safe, s) == safe
    ensures s !in safe && s == ROOT ==> Give(storage, digest, stands, safe, s) == safe[ROOT := ROOT]
    ensures s !in safe && s != ROOT ==>
      && |s| > 1 && ROOT <= Parent(s)
      && var at := FirstMet(storage, stands, Parent(s));
         && at[0] == "" && at < s
         && var more := Give(storage, digest, stands, safe, at);
            Give(storage, digest, stands, safe, s)
            == if at in stands then safe[s := at + Piece(s, stands[at], digest)]
               else more[s := more[at] + Piece(s, at, digest)]
  {
    hide Piece;
    if s != ROOT {
      assert ROOT <= Parent(s);
    }
  }

  /** The safe path is made from that of the directory found, which is given one first if it has none. */
  lemma GiveFrom(storage: set<Path>, digest: string -> string, stands: Directories, safe: Directories, s: Path,
                 parent: Path, more: Directories)
    requires ROOT in storage && s[0] == "" && |s| > 1 && ROOT <= Parent(s) && s !in safe
    requires
      var at := FirstMet(storage, stands, Parent(s));
      if at in stands then parent == stands[at] && parent in safe && safe[parent] == at && more == safe
      else parent == at && more == Give(storage, digest, stands, safe, at)
    ensures parent in more
    ensures Give(storage, digest, stands, safe, s) == more[s := more[parent] + Piece(s, parent, digest)]
  {
    GiveIs(storage, digest, stands, safe, s);
    hide Give, Piece, FirstMet;
    assert s != ROOT;
  }

  /** What one more file comes to. */
  lemma AfterIs(files: seq<Path>, storage: set<Path>, digest: string -> string, i: nat)
    requires i <= |files| && ROOT in storage && forall s :: s in storage ==> s[0] == ""
    ensures i == 0 ==> After(files, storage, digest, i) == Given(map[], map[])
    ensures i > 0 ==>
      var before, te := After(files, storage, digest, i - 1), files[i - 1];
      After(files, storage, digest, i)
      == if te in storage && te != ROOT then
           var safe := Give(storage, digest, before.stands, before.safe, te);
           Given(safe, before.stands[safe[te] := te])
         else before
  {
    hide Give;
  }

  /** A table in which paths stand for themselves, but for those that are safe paths of storage directories. */
  ghost predicate Overlaid(storage: set<Path>, base: Directories, directories: Directories, given: Given) {
    && (forall s :: s in storage ==> s in base) && (forall d :: d in base ==> base[d] == d)
    && directories == base + given.stands
    && (forall d :: d in given.stands ==> Registered(storage, given.safe, d, given.stands[d]))
  }

  /** Such a table finds who stands for the first path met. */
  lemma {:induction false} FoundIs(storage: set<Path>, base: Directories, directories: Directories, given: Given,
                                   d: Path)
    requires Overlaid(storage, base, directories, given) && ROOT in storage && ROOT <= d
    requires ROOT in directories && directories[ROOT] in storage
    ensures var at := FirstMet(storage, given.stands, d);
      FirstAbove(directories, storage, d) == if at in given.stands then given.stands[at] else at
    decreases |d|
  {
    var at := FirstMet(storage, given.stands, d);
    if d in directories && directories[d] in storage {
      assert d in storage || d in given.stands;
      assert at == d;
    } else {
      assert d != ROOT && d !in storage && d !in given.stands;
      var up := Parent(d);
      assert ROOT <= up;
      FoundIs(storage, base, directories, given, up);
      assert at != d && at <= up;
      assert FirstMet(storage, given.stands, up) == at;
    }
  }

  /** Where the table is clear, it finds the nearest storage directory. */
  lemma {:induction false} FirstIsNearest(storage: set<Path>, directories: Directories, safe: Directories, d: Path)
    requires Tabled(storage, directories, safe) && ROOT in storage && d[0] == ""
    requires ROOT in directories && directories[ROOT] in storage
    requires forall n :: 0 < n <= |d| && d[..n] in directories ==> directories[d[..n]] == d[..n]
    ensures ROOT <= d && FirstAbove(directories, storage, d) == Nearest(storage, d)
    decreases |d|
  {
    assert ROOT <= d && d[..|d|] == d;
    if !(d in directories && directories[d] in storage) {
      assert d != ROOT && d !in storage;
      var up := Parent(d);
      forall n | 0 < n <= |up|
        ensures up[..n] == d[..n]
      {
      }
      FirstIsNearest(storage, directories, safe, up);
    }
  }

  lemma StandsForItself(files: seq<Path>, storage: set<Path>, digest: string -> string, directories: Directories,
                        safe: Directories, p: Path)
    requires Tabled(storage, directories, safe) && Clear(files, storage, digest) && AsOught(storage, digest, safe)
    requires p in files
    ensures forall d :: d in directories && d < p ==> directories[d] == d
  {
  }

  lemma ParentIsNearest(files: seq<Path>, storage: set<Path>, digest: string -> string, directories: Directories,
                        safe: Directories, p: Path)
    requires Tabled(storage, directories, safe) && Clear(files, storage, digest) && AsOught(storage, digest, safe)
    requires p in files && p[0] == "" && |p| > 1
    ensures ROOT in directories && directories[ROOT] in storage && ROOT <= Parent(p)
    ensures FirstAbove(directories, storage, Parent(p)) == Nearest(storage, Parent(p))
  {
    StandsForItself(files, storage, digest, directories, safe, p);
    hide SafeOf;
    RootStays(storage, directories, safe);
    forall n | 0 < n <= |Parent(p)| && Parent(p)[..n] in directories
      ensures directories[Parent(p)[..n]] == Parent(p)[..n]
    {
      assert Parent(p)[..n] == p[..n];
    }
    FirstIsNearest(storage, directories, safe, Parent(p));
  }

  function Among(directories: Directories, paths: set<Path>): Directories {
    map d | d in directories && d in paths :: directories[d]
  }

  function Themselves(dirs: set<Path>): Directories {
    map d | d in dirs :: d
  }

  /** The directories on the way to storage directories, each standing for itself. */
  function OnTheWay(dirs: set<Path>, storage: set<Path>): Directories {
    map d | d in dirs && (exists s :: s in storage && d <= s) :: d
  }

  ghost predicate Upwards(some: set<Path>, paths: set<Path>) {
    forall d :: d in paths <==> exists s :: s in some && d <= s
  }

  lemma UpwardsStep(some: set<Path>, before: set<Path>, p: Path, paths: set<Path>)
    requires Upwards(some, before) && forall d: Path :: d in paths <==> d in before || d <= p
    ensures Upwards(some + {p}, paths)
  {
  }

  lemma UpwardsOfUpwards(some: set<Path>, paths: set<Path>)
    requires Upwards(some, paths)
    ensures forall d, n :: d in paths && 0 < n <= |d| ==> d[..n] in paths
  {
  }

  lemma ThoseAreOnTheWay(dirs: set<Path>, storage: set<Path>, paths: set<Path>, directories: Directories)
    requires ROOT in storage && storage <= dirs && Upwards(storage, paths)
    requires directories == Themselves(dirs)
    ensures Among(directories, paths)[ROOT := ROOT] == OnTheWay(dirs, storage)
  {
    assert ROOT <= ROOT;
  }

  lemma PrunedIsTabled(files: seq<Path>, dirs: set<Path>, storage: set<Path>)
    requires Closed(files, dirs) && ROOT in storage && storage <= dirs
    ensures ROOT in dirs && Tabled(storage, OnTheWay(dirs, storage), map[])
  {
    forall s, n | s in storage && 0 < n <= |s|
      ensures s[..n] in dirs && s[..n] <= s
    {
      Ancestors(files, dirs, s, n);
      assert s[..|s|] == s;
    }
  }

  /** One more safe path, given as it ought to be. */
  lemma SafeStep(files: seq<Path>, storage: set<Path>, digest: string -> string, directories: Directories,
                 safe: Directories, tcd: Path, parent: Path, safePath: Path)
    requires Tabled(storage, directories, safe) && ROOT in storage && tcd in files && tcd[0] == ""
    requires tcd in storage && tcd !in safe && |tcd| > 1 && parent in safe
    requires ROOT in directories && directories[ROOT] in storage
    requires parent == FirstAbove(directories, storage, Parent(tcd))
    requires safePath == safe[parent] + Piece(tcd, parent, digest)
    ensures Tabled(storage, directories, safe[tcd := safePath])
    ensures Clear(files, storage, digest) && AsOught(storage, digest, safe) ==>
      AsOught(storage, digest, safe[tcd := safePath])
  {
    hide *;
    TabledStep(storage, directories, safe, tcd, safePath);
    if Clear(files, storage, digest) && AsOught(storage, digest, safe) {
      ParentIsNearest(files, storage, digest, directories, safe, tcd);
      AsOughtStep(storage, digest, safe, tcd, parent, safePath);
    }
  }

  lemma TabledStep(storage: set<Path>, directories: Directories, safe: Directories, tcd: Path, safePath: Path)
    requires Tabled(storage, directories, safe) && tcd in storage && tcd !in safe
    ensures Tabled(storage, directories, safe[tcd := safePath])
  {
  }

  lemma AsOughtStep(storage: set<Path>, digest: string -> string, safe: Directories, tcd: Path, parent: Path,
                    safePath: Path)
    requires AsOught(storage, digest, safe) && parent in safe && tcd[0] == "" && |tcd| > 1
    requires ROOT in storage && ROOT <= Parent(tcd) && parent == Nearest(storage, Parent(tcd))
    requires safePath == safe[parent] + Piece(tcd, parent, digest)
    ensures AsOught(storage, digest, safe[tcd := safePath])
  {
    hide Piece, Nearest;
    assert safePath == SafeOf(storage, digest, tcd);
    hide SafeOf;
  }

  lemma SafeRoot(storage: set<Path>, digest: string -> string, directories: Directories, safe: Directories)
    requires Tabled(storage, directories, safe) && ROOT in storage && ROOT !in safe
    ensures Tabled(storage, directories, safe[ROOT := ROOT])
    ensures AsOught(storage, digest, safe) ==> AsOught(storage, digest, safe[ROOT := ROOT])
  {
    hide Piece;
  }

  class Planned {
    const files: seq<Path>
    const dirs: set<Path>
    const storage: set<Path>
    const digest: string -> string
    /** Which directory a path stands for. */
    var directories: Directories
    var safe: Directories

    ghost predicate Tree() {
      Closed(files, dirs) && ROOT in storage && storage <= dirs
    }

    ghost predicate Valid()
      reads this
    {
      Tree() && Tabled(storage, directories, safe)
    }

    constructor (files: seq<Path>, dirs: set<Path>, storage: set<Path>, digest: string -> string)
      ensures this.files == files && this.dirs == dirs && this.storage == storage && this.digest == digest
      ensures safe == map[] && directories == Themselves(dirs)
    {
      this.files, this.dirs, this.storage, this.digest := files, dirs, storage, digest;
      safe, directories := map[], Themselves(dirs);
    }

    /** Keeps only the directories on the way to storage directories. */
    method PruneDirectories()
      requires Tree() && safe == map[] && directories == Themselves(dirs)
      modifies `directories
      ensures Valid() && directories == OnTheWay(dirs, storage)
    {
      hide Upwards, Closed, Tabled, OnTheWay, Themselves;
      var paths := OnTheWayTo(storage);
      PrunedIsTabled(files, dirs, storage);
      ThoseAreOnTheWay(dirs, storage, paths, directories);
      directories := Among(directories, paths);
      directories := directories[ROOT := ROOT];
    }

    static method OnTheWayTo(storage: set<Path>) returns (paths: set<Path>)
      ensures Upwards(storage, paths)
    {
      var todo := storage;
      paths := {};
      while todo != {}
        invariant todo <= storage && Upwards(storage - todo, paths)
        decreases todo
      {
        var p :| p in todo;
        ghost var before := paths;
        UpwardsOfUpwards(storage - todo, paths);
        paths := AddUpwards(paths, p);
        UpwardsStep(storage - todo, before, p, paths);
        assert storage - todo + {p} == storage - (todo - {p});
        todo := todo - {p};
      }
      assert storage - todo == storage;
    }

    /** Adds a path and the paths above it, up to the first one that is there already. */
    static method AddUpwards(before: set<Path>, p: Path) returns (paths: set<Path>)
      requires forall d, n :: d in before && 0 < n <= |d| ==> d[..n] in before
      ensures forall d: Path :: d in paths <==> d in before || d <= p
    {
      var s: Path := p;
      paths := before;
      while true
        invariant s <= p
        invariant forall d :: d in paths <==> d in before || (d <= p && |d| > |s|)
        decreases |s|
      {
        assert s == p[..|s|];
        forall d: Path | |d| == |s| && d <= p
          ensures d == s
        {
          assert d == p[..|d|];
        }
        if s in paths {
          assert forall d: Path :: d <= s ==> d == s[..|d|];
          break;
        }
        paths := paths + {s};
        if |s| == 1 {
          break;
        }
        s := Parent(s);
      }
    }

    /** The nearest storage directory above, as the table has it. */
    method FindParentTCD(te: Path) returns (tcd: Path)
      requires Valid() && te in storage && |te| > 1
      ensures te[0] == "" && ROOT in directories && directories[ROOT] in storage
      ensures tcd == FirstAbove(directories, storage, Parent(te)) && tcd in storage && (tcd in safe || tcd < te)
    {
      RootStays(storage, directories, safe);
      var i: Path := Parent(te);
      assert i == te[..|i|];
      while true
        invariant i < te && i in directories
        invariant FirstAbove(directories, storage, Parent(te)) == FirstAbove(directories, storage, i)
        decreases |i|
      {
        tcd := directories[i];
        if |i| == 1 || tcd in storage {
          break;
        }
        i := Parent(i);
        assert i == te[..|i|];
      }
    }

    method CalculateSafePath(tcd: Path, ghost base: Directories, ghost stands: Directories)
      requires Valid() && tcd in storage
      requires tcd[0] == "" && Overlaid(storage, base, directories, Given(safe, stands))
      modifies `safe
      ensures safe == Give(storage, digest, stands, old(safe), tcd)
      ensures Valid() && tcd in safe
      ensures forall s :: s in old(safe) ==> s in safe && safe[s] == old(safe[s])
      ensures forall s :: s in safe && s !in old(safe) ==> s <= tcd
      ensures Clear(files, storage, digest) && old(AsOught(storage, digest, safe)) ==> AsOught(storage, digest, safe)
      decreases |tcd|
    {
      hide *;
      ValidIs();
      InFiles(files, dirs, storage);
      GiveIs(storage, digest, stands, safe, tcd);
      if tcd in safe {
        return;
      }
      if |tcd| == 1 {
        SafeRoot(storage, digest, directories, safe);
        safe := safe[tcd := tcd];
        ValidAgain();
        return;
      }
      var parent := FindParentTCD(tcd);
      ParentFound(storage, base, directories, Given(safe, stands), tcd);
      ghost var was := safe;
      if parent !in safe {
        CalculateSafePath(parent, base, stands);
        ValidIs();
      } else {
        GiveIs(storage, digest, stands, safe, parent);
      }
      GiveFrom(storage, digest, stands, was, tcd, parent, safe);
      var safePath := safe[parent] + Piece(tcd, parent, digest);
      SafeStep(files, storage, digest, directories, safe, tcd, parent, safePath);
      safe := safe[tcd := safePath];
      ValidAgain();
    }

    lemma ValidIs()
      requires Valid()
      ensures Tree() && Closed(files, dirs) && ROOT in storage && storage <= dirs
      ensures Tabled(storage, directories, safe) && ROOT in directories && directories[ROOT] in storage
    {
      RootStays(storage, directories, safe);
      hide Closed, Tabled;
    }

    lemma ValidAgain()
      requires Tree() && Tabled(storage, directories, safe)
      ensures Valid()
    {
      hide Closed, Tabled;
    }

    /** Gives every storage directory its safe path, and lets the safe path stand for it. */
    method AddDirs()
      requires Valid() && safe == map[]
      modifies `safe, `directories
      ensures Valid() && Added(storage, directories, safe, storage - {ROOT})
      ensures Clear(files, storage, digest) ==> AsOught(storage, digest, safe)
      ensures forall d :: d in old(directories) ==> d in directories
      ensures (forall s :: s in storage ==> s[0] == "") && safe == After(files, storage, digest, |files|).safe
      ensures Overlaid(storage, old(directories), directories, After(files, storage, digest, |files|))
    {
      hide *;
      ghost var base := directories;
      ValidIs();
      InFiles(files, dirs, storage);
      NothingAdded(storage, digest, directories);
      NothingOverlaid(storage, directories, safe);
      SeenIs(files, storage - {ROOT});
      AfterIs(files, storage, digest, 0);
      for i := 0 to |files|
        invariant safe == After(files, storage, digest, i).safe
        invariant Overlaid(storage, base, directories, After(files, storage, digest, i))
        invariant Valid() && Added(storage, directories, safe, Seen(files, i, storage - {ROOT}))
        invariant Clear(files, storage, digest) ==> AsOught(storage, digest, safe)
        invariant forall d :: d in old(directories) ==> d in directories
      {
        var te := files[i];
        ghost var some, before, was := Seen(files, i, storage - {ROOT}), directories, safe;
        OneMoreSeen(files, i, storage - {ROOT});
        AfterIs(files, storage, digest, i + 1);
        if te in dirs && te != ROOT && te in storage {
          ghost var given := After(files, storage, digest, i);
          CalculateSafePath(te, base, given.stands);
          ValidIs();
          directories := directories[safe[te] := te];
          AddedStep(storage, before, was, safe, some, te);
          OverlaidStep(storage, base, before, given, safe, te);
          ValidAgain();
        }
      }
    }

    /** Puts every file and directory into the storage directory that the table has nearest above it. */
    method AddEntries() returns (home: Directories)
      requires Valid()
      ensures ROOT in directories && directories[ROOT] in storage
      ensures home.Keys == (set p | p in files && p != ROOT)
      ensures forall p :: p in home ==> |p| > 1 && p[0] == "" && home[p] == FirstAbove(directories, storage, Parent(p))
    {
      RootStays(storage, directories, safe);
      home := map[];
      for i := 0 to |files|
        invariant home.Keys == (set p | p in files[..i] && p != ROOT)
        invariant forall p :: p in home ==>
          |p| > 1 && p[0] == "" && home[p] == FirstAbove(directories, storage, Parent(p))
      {
        var te := files[i];
        assert files[..i + 1] == files[..i] + [te];
        if te != ROOT {
          var dir := FirstDir(te);
          home := home[te := dir];
        }
      }
    }

    /** All of it: the table is made, storage directories are put into it, and then files are assigned. */
    method Assign() returns (home: Directories)
      requires Tree() && safe == map[] && directories == Themselves(dirs)
      modifies `safe, `directories
      ensures Assigned(files, dirs, storage, digest, directories, safe, home)
      ensures AsOught(storage, digest, safe) && OneToOne(safe) && AllAtHome(storage, home)
         <==> Clear(files, storage, digest) && Distinct(storage, digest)
    {
      hide Closed, Tabled, Added, Clear, AsOught, OneToOne, AllAtHome, Distinct, FirstAbove, Themselves, OnTheWay,
        Overlaid, After;
      PruneDirectories();
      AddDirs();
      home := AddEntries();
      SafePathsWork(files, dirs, storage, digest, directories, safe, home);
    }

    method FirstDir(te: Path) returns (dir: Path)
      requires te in files && te != ROOT && Closed(files, dirs) && ROOT in directories && directories[ROOT] in storage
      ensures |te| > 1 && te[0] == "" && dir == FirstAbove(directories, storage, Parent(te))
    {
      assert te[0] == "" && |te| > 1;
      var path: Path := Parent(te);
      while !(path in directories && directories[path] in storage)
        invariant path[0] == ""
        invariant FirstAbove(directories, storage, Parent(te)) == FirstAbove(directories, storage, path)
        decreases |path|
      {
        assert path != ROOT;
        path := Parent(path);
      }
      dir := directories[path];
    }
  }

  lemma InFiles(files: seq<Path>, dirs: set<Path>, storage: set<Path>)
    requires Closed(files, dirs) && storage <= dirs
    ensures forall s :: s in storage ==> s in files && s[0] == "" && (|s| == 1 ==> s == ROOT)
  {
  }

  /** The safe paths of some storage directories stand for them, or for others with the same safe path. */
  ghost predicate Added(storage: set<Path>, directories: Directories, safe: Directories, some: set<Path>) {
    forall s :: s in some ==>
      s in safe && safe[s] in directories && Registered(storage, safe, safe[s], directories[safe[s]])
  }

  lemma NothingAdded(storage: set<Path>, digest: string -> string, directories: Directories)
    requires ROOT in storage
    ensures Added(storage, directories, map[], {}) && AsOught(storage, digest, map[])
  {
  }

  /** Those of some paths that are among the first i files. */
  function Seen(files: seq<Path>, i: nat, some: set<Path>): set<Path>
    requires i <= |files|
  {
    set p | p in some && p in files[..i]
  }

  lemma SeenIs(files: seq<Path>, some: set<Path>)
    requires forall s :: s in some ==> s in files
    ensures Seen(files, 0, some) == {} && Seen(files, |files|, some) == some
  {
    assert files[..|files|] == files;
  }

  lemma OneMoreSeen(files: seq<Path>, i: nat, some: set<Path>)
    requires i < |files|
    ensures Seen(files, i + 1, some) ==
      if files[i] in some then Seen(files, i, some) + {files[i]} else Seen(files, i, some)
  {
    assert files[..i + 1] == files[..i] + [files[i]];
  }

  lemma AddedStep(storage: set<Path>, directories: Directories, was: Directories, safe: Directories, some: set<Path>,
                  te: Path)
    requires Tabled(storage, directories, safe) && Added(storage, directories, was, some)
    requires forall s :: s in was ==> s in safe && safe[s] == was[s]
    requires te in storage && te in safe
    ensures Tabled(storage, directories[safe[te] := te], safe)
    ensures Added(storage, directories[safe[te] := te], safe, some + {te})
  {
  }

  // ---------------------------------------------------------------- when everything is found

  lemma NothingOverlaid(storage: set<Path>, directories: Directories, safe: Directories)
    requires Tabled(storage, directories, safe) && safe == map[]
    ensures Overlaid(storage, directories, directories, Given(map[], map[]))
  {
    assert forall s :: s in storage ==> s[..|s|] == s;
    assert directories + map[] == directories;
  }

  lemma OverlaidStep(storage: set<Path>, base: Directories, directories: Directories, given: Given, safe: Directories,
                     te: Path)
    requires Overlaid(storage, base, directories, given) && te in storage && te in safe
    requires forall s :: s in given.safe ==> s in safe && safe[s] == given.safe[s]
    ensures Overlaid(storage, base, directories[safe[te] := te], Given(safe, given.stands[safe[te] := te]))
  {
    assert (base + given.stands)[safe[te] := te] == base + given.stands[safe[te] := te];
  }

  lemma ParentFound(storage: set<Path>, base: Directories, directories: Directories, given: Given, tcd: Path)
    requires Overlaid(storage, base, directories, given) && ROOT in storage && tcd[0] == "" && |tcd| > 1
    requires ROOT in directories && directories[ROOT] in storage
    ensures ROOT <= Parent(tcd)
    ensures
      var at := FirstMet(storage, given.stands, Parent(tcd));
      var parent := FirstAbove(directories, storage, Parent(tcd));
      if at in given.stands then parent == given.stands[at] && parent in given.safe && given.safe[parent] == at
      else parent == at
  {
    FoundIs(storage, base, directories, given, Parent(tcd));
    hide FirstAbove;
  }

  ghost predicate OneToOne(safe: Directories) {
    && (forall s, t :: s in safe && t in safe && safe[s] == safe[t] ==> s == t)
    && (forall s :: s in safe && safe[s] == ROOT ==> s == ROOT)
  }

  /** Every file is in the nearest storage directory above it. */
  ghost predicate AllAtHome(storage: set<Path>, home: Directories) {
    ROOT in storage && forall p :: p in home ==> |p| > 1 && ROOT <= Parent(p) && home[p] == Nearest(storage, Parent(p))
  }

  ghost predicate Distinct(storage: set<Path>, digest: string -> string) {
    && ROOT in storage && (forall s :: s in storage ==> s[0] == "")
    && (forall s, t | s in storage && t in storage ::
          SafeOf(storage, digest, s) == SafeOf(storage, digest, t) ==> s == t)
  }

  /** What AddDirs and AddEntries leave behind. */
  ghost predicate Assigned(files: seq<Path>, dirs: set<Path>, storage: set<Path>, digest: string -> string,
                           directories: Directories, safe: Directories, home: Directories)
  {
    && Closed(files, dirs) && ROOT in storage && storage <= dirs && (forall s :: s in storage ==> s[0] == "")
    && safe == After(files, storage, digest, |files|).safe
    && Overlaid(storage, OnTheWay(dirs, storage), directories, After(files, storage, digest, |files|))
    && Tabled(storage, directories, safe) && Added(storage, directories, safe, storage - {ROOT})
    && (Clear(files, storage, digest) ==> AsOught(storage, digest, safe))
    && ROOT in directories && directories[ROOT] in storage
    && home.Keys == (set p | p in files && p != ROOT)
    && (forall p :: p in home ==> |p| > 1 && p[0] == "" && home[p] == FirstAbove(directories, storage, Parent(p)))
  }

  /**
   Storage directories get the safe paths they ought to get, no two the same, and all files get into
   the nearest storage directory above them, exactly if safe paths that ought to be given differ from
   one another and from the paths of other directories.
   */
  lemma SafePathsWork(files: seq<Path>, dirs: set<Path>, storage: set<Path>, digest: string -> string,
                      directories: Directories, safe: Directories, home: Directories)
    requires Assigned(files, dirs, storage, digest, directories, safe, home)
    ensures AsOught(storage, digest, safe) && OneToOne(safe) && AllAtHome(storage, home)
       <==> Clear(files, storage, digest) && Distinct(storage, digest)
  {
    InFiles(files, dirs, storage);
    hide SafeOf, Closed, Tabled, FirstAbove, Clear, Distinct, AsOught, OneToOne, AllAtHome, Added, Overlaid, After,
      OnTheWay;
    if Clear(files, storage, digest) && Distinct(storage, digest) {
      OneToOneIfDistinct(storage, digest, directories, safe);
      AtHomeIfClear(files, dirs, storage, digest, directories, safe, home);
    } else if AsOught(storage, digest, safe) && OneToOne(safe) && AllAtHome(storage, home) {
      DistinctIfOneToOne(storage, digest, directories, safe);
      ClearIfAtHome(files, dirs, storage, digest, directories, safe, home);
    }
  }

  lemma OneToOneIfDistinct(storage: set<Path>, digest: string -> string, directories: Directories, safe: Directories)
    requires Tabled(storage, directories, safe) && AsOught(storage, digest, safe) && Distinct(storage, digest)
    ensures OneToOne(safe)
  {
    SafeOfRoot(storage, digest);
    hide SafeOf;
  }

  lemma DistinctIfOneToOne(storage: set<Path>, digest: string -> string, directories: Directories, safe: Directories)
    requires AsOught(storage, digest, safe) && OneToOne(safe)
    requires Added(storage, directories, safe, storage - {ROOT}) && forall s :: s in storage ==> s[0] == ""
    ensures Distinct(storage, digest)
  {
    SafeOfRoot(storage, digest);
    hide SafeOf;
  }

  lemma AtHomeIfClear(files: seq<Path>, dirs: set<Path>, storage: set<Path>, digest: string -> string,
                      directories: Directories, safe: Directories, home: Directories)
    requires Assigned(files, dirs, storage, digest, directories, safe, home) && Clear(files, storage, digest)
    ensures AllAtHome(storage, home)
  {
    hide Closed, Clear, Added, AsOught, Tabled, SafeOf, FirstAbove, Nearest, Overlaid, After, OnTheWay;
    forall p | p in home
      ensures |p| > 1 && ROOT <= Parent(p) && home[p] == Nearest(storage, Parent(p))
    {
      ParentIsNearest(files, storage, digest, directories, safe, p);
    }
  }

  lemma ClearIfAtHome(files: seq<Path>, dirs: set<Path>, storage: set<Path>, digest: string -> string,
                      directories: Directories, safe: Directories, home: Directories)
    requires Assigned(files, dirs, storage, digest, directories, safe, home)
    requires AsOught(storage, digest, safe) && OneToOne(safe) && AllAtHome(storage, home)
    ensures Clear(files, storage, digest)
  {
    InFiles(files, dirs, storage);
    SafeOfRoot(storage, digest);
    hide Assigned, AsOught, OneToOne, AllAtHome, SafeOf;
    forall s, p | s in storage && s[0] == "" && p in files && SafeOf(storage, digest, s) < p
      ensures SafeOf(storage, digest, s) == s
    {
      if s != ROOT {
        NotAnothers(files, dirs, storage, digest, directories, safe, home, s, p);
      }
    }
  }

  lemma SafeOfRoot(storage: set<Path>, digest: string -> string)
    requires ROOT in storage
    ensures SafeOf(storage, digest, ROOT) == ROOT
  {
  }

  /** Once safe paths are one to one, each stands for its own directory. */
  lemma StandsForIts(storage: set<Path>, digest: string -> string, directories: Directories, safe: Directories, s: Path)
    requires AsOught(storage, digest, safe) && OneToOne(safe) && Added(storage, directories, safe, storage - {ROOT})
    requires s in storage && s != ROOT && s[0] == "" && ROOT in directories && directories[ROOT] in storage
    ensures var d := SafeOf(storage, digest, s); d[0] == "" && FirstAbove(directories, storage, d) == s
  {
    hide SafeOf;
    SafeOfIsAbsolute(storage, digest, s);
    var d := SafeOf(storage, digest, s);
    assert d in directories && directories[d] == s;
  }

  lemma {:induction false} SafeOfIsAbsolute(storage: set<Path>, digest: string -> string, s: Path)
    requires ROOT in storage && s[0] == ""
    ensures SafeOf(storage, digest, s)[0] == ""
    decreases |s|
  {
    if s != ROOT {
      assert ROOT <= Parent(s);
      SafeOfIsAbsolute(storage, digest, Nearest(storage, Parent(s)));
    }
  }

  lemma HomeOfAnothers(files: seq<Path>, dirs: set<Path>, storage: set<Path>, digest: string -> string,
                       directories: Directories, safe: Directories, home: Directories, s: Path)
    requires Assigned(files, dirs, storage, digest, directories, safe, home)
    requires AsOught(storage, digest, safe) && OneToOne(safe) && s in storage && s != ROOT && s[0] == ""
    ensures ROOT in storage && ROOT in directories && directories[ROOT] in storage
    ensures var d := SafeOf(storage, digest, s); d[0] == "" && FirstAbove(directories, storage, d) == s
  {
    hide Closed, Clear, Added, AsOught, Tabled, SafeOf, FirstAbove, OneToOne, Overlaid, After, OnTheWay;
    StandsForIts(storage, digest, directories, safe, s);
  }

  lemma ChildOnTheWayTo(files: seq<Path>, dirs: set<Path>, storage: set<Path>, digest: string -> string,
                        directories: Directories, safe: Directories, home: Directories, d: Path, p: Path)
    returns (child: Path)
    requires Assigned(files, dirs, storage, digest, directories, safe, home) && p in files && d < p
    ensures child in files && |child| > 1 && Parent(child) == d
  {
    hide Clear, Added, AsOught, Tabled, FirstAbove, Overlaid, After, OnTheWay;
    child := p[..|d| + 1];
    Ancestors(files, dirs, p, |d| + 1);
    assert Parent(child) == d;
  }

  lemma NotAnothers(files: seq<Path>, dirs: set<Path>, storage: set<Path>, digest: string -> string,
                    directories: Directories, safe: Directories, home: Directories, s: Path, p: Path)
    requires Assigned(files, dirs, storage, digest, directories, safe, home)
    requires AsOught(storage, digest, safe) && OneToOne(safe) && AllAtHome(storage, home)
    requires s in storage && s != ROOT && s[0] == "" && p in files && SafeOf(storage, digest, s) < p
    ensures SafeOf(storage, digest, s) == s
  {
    hide *;
    AssignedIs(files, dirs, storage, digest, directories, safe, home);
    var d := SafeOf(storage, digest, s);
    SafeOfIsShort(storage, digest, s);
    HomeOfAnothers(files, dirs, storage, digest, directories, safe, home, s);
    var child := ChildOnTheWayTo(files, dirs, storage, digest, directories, safe, home, d, p);
    HomeIs(files, dirs, storage, digest, directories, safe, home, child);
  }

  lemma AssignedIs(files: seq<Path>, dirs: set<Path>, storage: set<Path>, digest: string -> string,
                  directories: Directories, safe: Directories, home: Directories)
    requires Assigned(files, dirs, storage, digest, directories, safe, home)
    ensures Closed(files, dirs) && ROOT in storage && storage <= dirs && (forall s :: s in storage ==> s[0] == "")
    ensures ROOT in directories && directories[ROOT] in storage && forall p :: p in home <==> p in files && |p| > 1
  {
    hide Overlaid, After, OnTheWay, Clear, AsOught, Tabled, Added, FirstAbove;
  }

  lemma HomeIs(files: seq<Path>, dirs: set<Path>, storage: set<Path>, digest: string -> string,
               directories: Directories, safe: Directories, home: Directories, p: Path)
    requires Assigned(files, dirs, storage, digest, directories, safe, home) && AllAtHome(storage, home)
    requires p in files && |p| > 1
    ensures p[0] == "" && ROOT in directories && directories[ROOT] in storage
    ensures FirstAbove(directories, storage, Parent(p)) <= Parent(p)
  {
    hide Closed, Clear, Added, AsOught, Tabled, FirstAbove, Overlaid, After, OnTheWay;
    assert p in home;
    assert home[p] == Nearest(storage, Parent(p));
  }

  lemma SafeOfAB()
    ensures Slashed(["a", "b"]) == "a/b" && SafeDirectory("a/b") == "a_b"
  {
    assert ["a", "b"][1..] == ["b"];
    assert "a/b"[1..] == "/b" && "/b"[1..] == "b" && "b"[1..] == "";
  }

  /** A storage directory two levels down can stand in for its sibling's neighbour. */
  lemma UnderscoreCollides(digest: string -> string)
    ensures var files: seq<Path> := [["", "a", "b"], ["", "a_b", "x"], ["", "a"], ["", "a_b"], [""]];
      var storage: set<Path> := {[""], ["", "a", "b"]};
      && SafeOf(storage, digest, ["", "a", "b"]) == ["", "a_b"]
      && !Clear(files, storage, digest)
  {
    var files: seq<Path> := [["", "a", "b"], ["", "a_b", "x"], ["", "a"], ["", "a_b"], [""]];
    var storage: set<Path> := {[""], ["", "a", "b"]};
    var s: Path := ["", "a", "b"];
    assert Parent(s) == ["", "a"] && Nearest(storage, Parent(s)) == ROOT;
    assert Beyond(s, 1) == ["a", "b"];
    SafeOfAB();
    hide Slashed, SafeDirectory, Beyond, Nearest;
    assert SafeOf(storage, digest, s) == ["", "a_b"];
    var p: Path := files[1];
    assert p in files && ["", "a_b"] < p;
  }

  // ---------------------------------------------------------------- names without the replacing characters

  ghost predicate PlainNodes(p: seq<string>) {
    forall x :: x in p ==> Plain(x) && '/' !in x
  }

  lemma {:induction false} SlashedDiffers(a: seq<string>, b: seq<string>)
    requires a != [] && b != [] && PlainNodes(a) && PlainNodes(b) && Slashed(a) == Slashed(b)
    ensures a == b
  {
    SlashedIsPlain(a);
    SlashedIsPlain(b);
    if |a| > 1 {
      FirstSlash(a[0], Slashed(a[1..]), b[0], Slashed(b[1..]));
      SlashedDiffers(a[1..], b[1..]);
      assert a == [a[0]] + a[1..] && b == [b[0]] + b[1..];
    } else {
      assert a == [a[0]] && b == [b[0]];
    }
  }

  lemma FirstSlash(a: string, x: string, b: string, y: string)
    requires '/' !in a && '/' !in b && a + "/" + x == b + "/" + y
    ensures a == b && x == y
  {
    var s, t := a + "/" + x, b + "/" + y;
    assert s[|a|] == '/' && t[|b|] == '/';
    assert forall i :: 0 <= i < |a| ==> s[i] == a[i] != '/';
    assert forall i :: 0 <= i < |b| ==> t[i] == b[i] != '/';
    assert s[..|a|] == a && t[..|b|] == b && s[|a| + 1..] == x && t[|b| + 1..] == y;
  }

  lemma {:induction false} SlashedIsPlain(nodes: seq<string>)
    requires nodes != [] && PlainNodes(nodes)
    ensures Plain(Slashed(nodes)) && (|nodes| > 1 <==> '/' in Slashed(nodes))
  {
    assert nodes[0] in nodes;
    if |nodes| > 1 {
      SlashedIsPlain(nodes[1..]);
      assert (nodes[0] + "/")[|nodes[0]|] == '/';
    }
  }

  /** A safe name without replacing characters is the name itself. */
  lemma {:induction false} PlainAndSafe(s: string)
    requires Plain(SafeDirectory(s))
    ensures SafeDirectory(s) == s && '/' !in s
  {
    if s != "" {
      assert forall c :: c in SafeChar(s[0]) ==> c in SafeDirectory(s);
      assert forall c :: c in SafeDirectory(s[1..]) ==> c in SafeDirectory(s);
      PlainAndSafe(s[1..]);
      assert SafeChar(s[0])[0] in SafeChar(s[0]);
      assert s == [s[0]] + s[1..];
    }
  }

  /** Names of files and directories have none of the replacing characters, and storage directories are not cut. */
  ghost predicate PlainTree(files: seq<Path>, storage: set<Path>) {
    && ROOT in storage && (forall p :: p in files ==> p[0] == "" && PlainNodes(p))
    && (forall s :: s in storage ==> s in files && Short(s))
  }

  ghost predicate Short(s: Path) {
    forall n :: 0 < n < |s| ==> 0 < |Slashed(Beyond(s, n))| && |SafeDirectory(Slashed(Beyond(s, n)))| <= 143
  }

  lemma PlainPiece(s: Path, parent: Path, digest: string -> string)
    requires PlainNodes(s) && Short(s) && parent < s
    ensures Piece(s, parent, digest) == [SafeDirectory(Slashed(s[|parent|..]))]
    ensures PlainNodes(s[|parent|..]) && s[|parent|..] != [] && s == parent + s[|parent|..]
  {
    var rest := s[|parent|..];
    assert Beyond(s, |parent|) == rest && 0 < |Slashed(rest)|;
    SafeDirectoryIsHarmless(Slashed(rest));
  }

  lemma {:induction false} PlainSafesDiffer(files: seq<Path>, storage: set<Path>, digest: string -> string, s: Path,
                                            t: Path)
    requires PlainTree(files, storage) && s in storage && t in storage
    requires SafeOf(storage, digest, s) == SafeOf(storage, digest, t)
    ensures s == t
    decreases |s|
  {
    if s != ROOT && t != ROOT {
      assert ROOT <= Parent(s) && ROOT <= Parent(t);
      var u, v := Nearest(storage, Parent(s)), Nearest(storage, Parent(t));
      PlainPiece(s, u, digest);
      PlainPiece(t, v, digest);
      var a, b := s[|u|..], t[|v|..];
      LastsAgree(SafeOf(storage, digest, u), SafeDirectory(Slashed(a)), SafeOf(storage, digest, v),
        SafeDirectory(Slashed(b)));
      SlashedIsPlain(a);
      SlashedIsPlain(b);
      SafeNamesDiffer(Slashed(a), Slashed(b));
      SlashedDiffers(a, b);
      PlainSafesDiffer(files, storage, digest, u, v);
    } else {
      NotRoot(files, storage, digest, s);
      NotRoot(files, storage, digest, t);
    }
  }

  lemma NotRoot(files: seq<Path>, storage: set<Path>, digest: string -> string, s: Path)
    requires PlainTree(files, storage) && s in storage
    ensures SafeOf(storage, digest, s) == ROOT <==> s == ROOT
  {
    if s != ROOT {
      assert ROOT <= Parent(s);
      PlainPiece(s, Nearest(storage, Parent(s)), digest);
    }
  }

  lemma LastsAgree(a: seq<string>, x: string, b: seq<string>, y: string)
    requires a + [x] == b + [y]
    ensures a == b && x == y
  {
    assert (a + [x])[|a|] == x && (b + [y])[|b|] == y;
    assert (a + [x])[..|a|] == a && (b + [y])[..|b|] == b;
  }

  lemma {:induction false} PlainSafeIsItself(files: seq<Path>, storage: set<Path>, digest: string -> string, s: Path)
    requires PlainTree(files, storage) && s in storage && PlainNodes(SafeOf(storage, digest, s))
    ensures SafeOf(storage, digest, s) == s
    decreases |s|
  {
    if s != ROOT {
      assert ROOT <= Parent(s);
      var u := Nearest(storage, Parent(s));
      PlainPiece(s, u, digest);
      var rest := s[|u|..];
      assert SafeDirectory(Slashed(rest)) in SafeOf(storage, digest, s);
      PlainAndSafe(Slashed(rest));
      SlashedIsPlain(rest);
      assert forall x :: x in SafeOf(storage, digest, u) ==> x in SafeOf(storage, digest, s);
      PlainSafeIsItself(files, storage, digest, u);
      assert rest == [Slashed(rest)];
    }
  }

  /** Trees without the characters that replace others in safe names have no trouble with safe paths. */
  lemma PlainTreesAreClear(files: seq<Path>, storage: set<Path>, digest: string -> string)
    requires PlainTree(files, storage)
    ensures Clear(files, storage, digest) && Distinct(storage, digest)
  {
    forall s, t | s in storage && t in storage && SafeOf(storage, digest, s) == SafeOf(storage, digest, t)
      ensures s == t
    {
      PlainSafesDiffer(files, storage, digest, s, t);
    }
    forall s, p | s in storage && s[0] == "" && p in files && SafeOf(storage, digest, s) < p
      ensures SafeOf(storage, digest, s) == s
    {
      assert forall x :: x in SafeOf(storage, digest, s) ==> x in p;
      PlainSafeIsItself(files, storage, digest, s);
    }
  }
}
