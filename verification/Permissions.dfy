/** File modes as the ten characters of a listing, and back. */
module Permissions {
  datatype FileKind = Directory | SymLink | CharDevice | BlockDevice | Fifo | Socket | Regular

  /** Read, write and execute for a class of users, and the special bit shown in place of its x. */
  datatype Access = Access(r: bool, w: bool, x: bool, special: bool)

  datatype Mode = Mode(kind: FileKind, user: Access, group: Access, other: Access)

  datatype ReadMode = BadMode | GoodMode(mode: Mode)

  function KindChar(k: FileKind): char {
    match k
    case Directory => 'd'
    case SymLink => 'l'
    case CharDevice => 'c'
    case BlockDevice => 'b'
    case Fifo => 'p'
    case Socket => 's'
    case Regular => '-'
  }

  /** Built up class by class; s stands for the set-id bits and t for the sticky bit. */
  method PermissionString(m: Mode) returns (s: string)
    ensures s == Shown(m)
  {
    hide ShownAccess;
    s := [KindChar(m.kind)];
    s := AppendAccess(s, m.user, 's');
    s := AppendAccess(s, m.group, 's');
    s := AppendAccess(s, m.other, 't');
  }

  method AppendAccess(s: string, a: Access, special: char) returns (t: string)
    ensures t == s + ShownAccess(a, special)
  {
    t := s + if a.r then "r" else "-";
    t := t + if a.w then "w" else "-";
    if a.special {
      t := t + [special];
    } else {
      t := t + if a.x then "x" else "-";
    }
  }

  function ShownAccess(a: Access, special: char): (s: string)
    ensures |s| == 3
  {
    [if a.r then 'r' else '-', if a.w then 'w' else '-', if a.special then special else if a.x then 'x' else '-']
  }

  function Shown(m: Mode): (s: string)
    ensures |s| == 10 && s[0] == KindChar(m.kind)
    ensures s[1..4] == ShownAccess(m.user, 's') && s[4..7] == ShownAccess(m.group, 's')
    ensures s[7..10] == ShownAccess(m.other, 't')
  {
    [KindChar(m.kind)] + ShownAccess(m.user, 's') + ShownAccess(m.group, 's') + ShownAccess(m.other, 't')
  }

  function KindOf(c: char): seq<FileKind> {
    match c
    case 'd' => [Directory]
    case 'l' => [SymLink]
    case 'c' => [CharDevice]
    case 'b' => [BlockDevice]
    case 'p' => [Fifo]
    case 's' => [Socket]
    case '-' => [Regular]
    case _ => []
  }

  predicate IsAccess(s: string, special: char)
    requires |s| == 3
  {
    && (s[0] == 'r' || s[0] == '-') && (s[1] == 'w' || s[1] == '-')
    && (s[2] == 'x' || s[2] == special || s[2] == '-')
  }

  /** A special bit always comes with its execute bit. */
  function ReadAccess(s: string, special: char): Access
    requires |s| == 3
  {
    Access(s[0] == 'r', s[1] == 'w', s[2] == 'x' || s[2] == special, s[2] == special)
  }

  /** Characters after the tenth are not looked at. */
  function StringToPermission(s: string): ReadMode {
    if |s| < 10 || KindOf(s[0]) == [] || !IsAccess(s[1..4], 's') || !IsAccess(s[4..7], 's') || !IsAccess(s[7..10], 't')
    then BadMode
    else GoodMode(Mode(KindOf(s[0])[0], ReadAccess(s[1..4], 's'), ReadAccess(s[4..7], 's'), ReadAccess(s[7..10], 't')))
  }

  /** Every special bit is set together with its execute bit. */
  predicate SpecialsExecute(m: Mode) {
    (m.user.special ==> m.user.x) && (m.group.special ==> m.group.x) && (m.other.special ==> m.other.x)
  }

  function WithExecute(a: Access): Access {
    a.(x := a.x || a.special)
  }

  lemma AccessRoundTrip(a: Access, special: char)
    requires special != 'x' && special != '-'
    ensures IsAccess(ShownAccess(a, special), special) && ReadAccess(ShownAccess(a, special), special) == WithExecute(a)
  {
  }

  /** A shown mode always reads as a mode: as itself exactly when its special bits have their execute bits. */
  lemma ModeRoundTrip(m: Mode)
    ensures StringToPermission(Shown(m))
         == GoodMode(Mode(m.kind, WithExecute(m.user), WithExecute(m.group), WithExecute(m.other)))
    ensures StringToPermission(Shown(m)) == GoodMode(m) <==> SpecialsExecute(m)
  {
    hide *;
    KindRoundTrip(m.kind);
    AccessRoundTrip(m.user, 's');
    AccessRoundTrip(m.group, 's');
    AccessRoundTrip(m.other, 't');
    ReadInPieces(Shown(m), m.kind);
    SameWithExecute(m);
  }

  lemma KindLetters()
    ensures [KindChar(Directory), KindChar(SymLink), KindChar(CharDevice), KindChar(BlockDevice), KindChar(Fifo),
             KindChar(Socket), KindChar(Regular)] == "dlcbps-"
  {
  }

  lemma KindRoundTrip(k: FileKind)
    ensures KindOf(KindChar(k)) == [k]
  {
  }

  lemma ReadInPieces(s: string, kind: FileKind)
    requires |s| == 10 && KindOf(s[0]) == [kind]
    requires IsAccess(s[1..4], 's') && IsAccess(s[4..7], 's') && IsAccess(s[7..10], 't')
    ensures StringToPermission(s)
         == GoodMode(Mode(kind, ReadAccess(s[1..4], 's'), ReadAccess(s[4..7], 's'), ReadAccess(s[7..10], 't')))
  {
    hide KindOf, IsAccess, ReadAccess;
  }

  lemma SameWithExecute(m: Mode)
    ensures Mode(m.kind, WithExecute(m.user), WithExecute(m.group), WithExecute(m.other)) == m <==> SpecialsExecute(m)
  {
  }

  /** Setuid on a file that its owner cannot execute. */
  lemma SetuidGainsExecute()
    ensures var r := Access(true, false, false, false); var m := Mode(Regular, Access(true, true, false, true), r, r);
      StringToPermission(Shown(m)) == GoodMode(m.(user := Access(true, true, true, true)))
  {
    var r := Access(true, false, false, false);
    var m := Mode(Regular, Access(true, true, false, true), r, r);
    hide Shown, StringToPermission;
    ModeRoundTrip(m);
  }
}
