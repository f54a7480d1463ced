/**
 The names of archive files: how they are printed, how they are parsed back, and the lists of part
 names that storing, indexing and restoring each build for themselves.
 */
module Names {
  import opened Blocks
  import opened Texts
  import opened TarKinds
  import opened Calendar

  /** The directory a name is printed with. The root has the empty path. */
  datatype Dir = NoDir | Dir(path: string) {
    /** What stands before the file name, and what the parser reports as the directory. */
    function Text(): (t: string)
      ensures t == "" || t[|t| - 1] == '/'
    {
      if NoDir? || path == "" then "" else path + "/"
    }
  }

  /** Path::lookup of the directory a parse reports: the last slash goes. */
  function LookupDir(text: string): Dir {
    if text != "" && text[|text| - 1] == '/' then Dir(text[..|text| - 1]) else Dir(text)
  }

  datatype TarFileName = TarFileName(
    kind: TarContents, sec: nat, nsec: nat, headerHash: string, partNr: nat, numParts: nat,
    size: nat, ondiskSize: nat, oldStyle: bool) {

    /**
     The fields of a tar that has been laid out. Seconds are 64-bit and signed, but never negative: a tar's time
     starts out as zero and only grows, see TarFiles.TarFile.Valid, and names are parsed from digits.
     */
    predicate Valid() {
      && sec <= LONG_MAX && nsec < 1_000_000_000
      && HexDigitsOnly(headerHash)
      && partNr < numParts < 0x1000_0000 && size < SIZE_LIMIT && ondiskSize < SIZE_LIMIT
    }
  }

  datatype Parsed = NotAName | Parsed(dir: string, name: TarFileName)

  /**
   The time printed for people, from the seconds: strftime on gmtime. It can be any text that fits the buffer
   for it and has no separators of a name, as GmDate does.
   */
  type DateText = nat -> string

  ghost predicate AreDates(date: DateText) {
    forall sec :: '_' !in date(sec) && '/' !in date(sec) && ' ' !in date(sec) && |date(sec)| <= 19
  }

  /** The date and time of day in UTC; strftime gives up on what does not fit its buffer. */
  function GmDate(sec: nat): string {
    var d, rest := Civil(sec / 86400), sec % 86400;
    var text := "." + Padded(d.year, Dec, 4) + "-" + Padded(d.month, Dec, 2) + "-" + Padded(d.day, Dec, 2)
      + "." + Padded(rest / 3600, Dec, 2) + Padded(rest / 60 % 60, Dec, 2) + Padded(rest % 60, Dec, 2);
    if |text| <= 19 then text else ""
  }

  lemma GmDatesAreDates()
    ensures AreDates(GmDate)
  {
    hide Civil, Padded;
  }

  /** The numbers of the text are those of the civil date and of the time of day. */
  lemma GmDateSays(sec: nat)
    requires Civil(sec / 86400).year < 10_000
    ensures
      var t, d := GmDate(sec), Civil(sec / 86400);
      && |t| == 18 && t[0] == '.' && t[5] == '-' && t[8] == '-' && t[11] == '.'
      && d == Date(ValueOf(t[1..5], Dec), ValueOf(t[6..8], Dec), ValueOf(t[9..11], Dec))
      && ValueOf(t[12..14], Dec) < 24 && ValueOf(t[14..16], Dec) < 60 && ValueOf(t[16..], Dec) < 60
      && sec % 86400
         == 3600 * ValueOf(t[12..14], Dec) + 60 * ValueOf(t[14..16], Dec) + ValueOf(t[16..], Dec)
  {
    hide *;
    var d, rest := Civil(sec / 86400), sec % 86400;
    var year, month, day := Padded(d.year, Dec, 4), Padded(d.month, Dec, 2), Padded(d.day, Dec, 2);
    var h, m, s := Padded(rest / 3600, Dec, 2), Padded(rest / 60 % 60, Dec, 2), Padded(rest % 60, Dec, 2);
    DateIsShort(d);
    PaddedReads(d.year, 4);
    PaddedReads(d.month, 2);
    PaddedReads(d.day, 2);
    PaddedReads(rest / 3600, 2);
    PaddedReads(rest / 60 % 60, 2);
    PaddedReads(rest % 60, 2);
    DateInPieces(year, month, day, h, m, s);
    GmDateIs(sec, year, month, day, h, m, s);
    TimeOfDay(rest);
  }

  lemma DateIsShort(d: Date)
    requires ValidDate(d)
    ensures Power(Dec, 4) == 10_000 && Power(Dec, 2) == 100 && d.month < 100 && d.day < 100
  {
    assert Power(Dec, 3) == 1000;
  }

  lemma TimeOfDay(rest: nat)
    ensures rest < 86400 ==> rest / 3600 < 24
    ensures rest == 3600 * (rest / 3600) + 60 * (rest / 60 % 60) + rest % 60
  {
  }

  lemma GmDateIs(sec: nat, year: string, month: string, day: string, h: string, m: string, s: string)
    requires
      var d, rest := Civil(sec / 86400), sec % 86400;
      && year == Padded(d.year, Dec, 4) && month == Padded(d.month, Dec, 2) && day == Padded(d.day, Dec, 2)
      && h == Padded(rest / 3600, Dec, 2) && m == Padded(rest / 60 % 60, Dec, 2) && s == Padded(rest % 60, Dec, 2)
    ensures var t := "." + year + "-" + month + "-" + day + "." + h + m + s; |t| <= 19 ==> GmDate(sec) == t
  {
    hide Padded, Civil;
  }

  lemma DateInPieces(year: string, month: string, day: string, h: string, m: string, s: string)
    requires |year| == 4 && |month| == |day| == |h| == |m| == |s| == 2
    ensures
      var t := "." + year + "-" + month + "-" + day + "." + h + m + s;
      && |t| == 18 && t[0] == '.' && t[5] == '-' && t[8] == '-' && t[11] == '.'
      && t[1..5] == year && t[6..8] == month && t[9..11] == day
      && t[12..14] == h && t[14..16] == m && t[16..] == s
  {
  }

  function PartNumber(t: TarFileName): string {
    Padded(ToUint(t.partNr + 1), Hex, |Printed(t.numParts, Hex)|)
  }

  /** How many hexadecimal digits toHex counts in the greatest value. */
  function HexWidth(max: nat): nat {
    if max == 0 then 0 else 1 + HexWidth(max / 16)
  }

  /**
   A part number is printed as wide as the number of parts, and toHex asserts that this takes fewer than eight
   digits: a tar of 2^28 parts or more is counted and cut, but not named.
   */
  lemma PartsCanBeNamed(numParts: nat)
    requires numParts > 0
    ensures HexWidth(numParts) == |Printed(numParts, Hex)|
    ensures HexWidth(numParts) < 8 <==> numParts < 0x1000_0000
  {
    WidthIsLength(numParts);
    PrintedLength(numParts, Hex, 7);
    assert Power(Hex, 7) == 0x1000_0000 by {
      assert Power(Hex, 3) == 0x1000;
    }
  }

  lemma {:induction false} WidthIsLength(v: nat)
    requires v > 0
    ensures HexWidth(v) == |Printed(v, Hex)|
  {
    if v >= 16 {
      WidthIsLength(v / 16);
    } else {
      assert HexWidth(v / 16) == 0;
    }
  }

  /** Microseconds, at least six digits of them, and the date. */
  function MicrosAndDate(t: TarFileName, date: DateText): string {
    Padded(t.nsec / 1000, Dec, 6) + if t.oldStyle then "" else date(t.sec)
  }

  /** The printed fields of a name. */
  function FieldTexts(t: TarFileName, date: DateText): (texts: seq<string>)
    ensures |texts| == 8
  {
    [Printed(t.sec, Dec), MicrosAndDate(t, date), t.headerHash, PartNumber(t), Printed(t.numParts, Hex),
     Printed(t.size, Dec), Printed(t.ondiskSize, Dec), SuffixType(t.kind)]
  }

  const SEPARATORS := ".__-__."

  function AfterKind(t: TarFileName, date: DateText): string {
    Joined(FieldTexts(t, date), SEPARATORS)
  }

  function Marker(kind: TarContents): string {
    "beak_" + [CharType(kind)] + "_"
  }

  function FileName(t: TarFileName, date: DateText): string {
    Marker(t.kind) + AfterKind(t, date)
  }

  function FullName(t: TarFileName, date: DateText, dir: Dir): string {
    dir.Text() + FileName(t, date)
  }

  /** A name of the documentation: 16384 bytes in one part, which take up 20000. */
  lemma DocumentedName(date: DateText, hash: string)
    ensures FileName(TarFileName(SMALL_FILES_TAR, 1_575_491_997, 351_991_000, hash, 0, 1, 16384, 20000, true), date)
         == "beak_s_" + Joined(["1575491997", "351991", hash, "1", "1", "16384", "20000", "tar"], ".__-__.")
  {
    hide *;
    var t := TarFileName(SMALL_FILES_TAR, 1_575_491_997, 351_991_000, hash, 0, 1, 16384, 20000, true);
    DocumentedNumbers();
    DocumentedFields(t, date);
    MarkerAndFields(t, date);
  }

  lemma DocumentedFields(t: TarFileName, date: DateText)
    requires t.oldStyle && t.nsec / 1000 == 351_991 && t.partNr == 0 && t.numParts == 1
    requires Padded(351_991, Dec, 6) == "351991" && Printed(1, Hex) == "1" && Padded(1, Hex, 1) == "1"
    ensures FieldTexts(t, date) == [Printed(t.sec, Dec), "351991", t.headerHash, "1", "1", Printed(t.size, Dec),
                                    Printed(t.ondiskSize, Dec), SuffixType(t.kind)]
  {
    hide Padded, Printed;
    assert MicrosAndDate(t, date) == "351991" + "" == "351991";
    assert |"1"| == 1 && PartNumber(t) == "1";
  }

  lemma MarkerAndFields(t: TarFileName, date: DateText)
    requires t.kind == SMALL_FILES_TAR
    ensures FileName(t, date) == "beak_s_" + Joined(FieldTexts(t, date), ".__-__.") && SuffixType(t.kind) == "tar"
  {
    hide Joined, FieldTexts;
  }

  lemma DocumentedNumbers()
    ensures Printed(1_575_491_997, Dec) == "1575491997" && Padded(351_991, Dec, 6) == "351991"
    ensures Printed(1, Hex) == "1" && Padded(1, Hex, 1) == "1"
    ensures Printed(16384, Dec) == "16384" && Printed(20000, Dec) == "20000"
  {
    PrintedNext(1, 5);
    PrintedNext(15, 7);
    PrintedNext(157, 5);
    PrintedNext(1575, 4);
    PrintedNext(15754, 9);
    PrintedNext(157549, 1);
    PrintedNext(1575491, 9);
    PrintedNext(15754919, 9);
    PrintedNext(157549199, 7);
  }

  /** snprintf into a buffer: the name is cut when it does not fit with its NUL. */
  function Written(t: TarFileName, date: DateText, dir: Dir, bufLen: nat): string
    requires bufLen > 0
  {
    var name := FullName(t, date, dir);
    if |name| < bufLen then name else name[..bufLen - 1]
  }

  function ParseFileName(name: string): Parsed {
    if name == "" then NotAName
    else
      var p0 := AfterSlash(name);
      if |name| < p0 + 7 || name[p0..p0 + 5] != "beak_" || name[p0 + 6] != '_' then NotAName
      else
        match TypeFromChar(name[p0 + 5])
        case NoKind => NotAName
        case Kind(kind) => ParseVersion(kind, name[..p0], name, p0 + 7)
  }

  /** The seconds have at least one digit: the first search starts one character into them. */
  function ParseVersion(kind: TarContents, dir: string, name: string, p1: nat): Parsed
    requires p1 <= |name|
  {
    match SplitFields(name, p1, 1, SEPARATORS)
    case NoFields => NotAName
    case Fields(texts) => ParseFields(kind, dir, texts)
  }

  function ParseFields(kind: TarContents, dir: string, texts: seq<string>): Parsed
    requires |texts| == 8
  {
    if !DigitsOnly(texts[0]) || |texts[1]| < 6 || !DigitsOnly(texts[1][..6]) || !HexDigitsOnly(texts[2])
       || !HexDigitsOnly(texts[3]) || !HexDigitsOnly(texts[4]) || !DigitsOnly(texts[5]) || !DigitsOnly(texts[6])
       || texts[7] != SuffixType(kind)
    then NotAName
    else
      Parsed(dir, TarFileName(kind, Strtol(texts[0], Dec), 1000 * Strtol(texts[1][..6], Dec), texts[2],
                              ToUint(Strtol(texts[3], Hex) - 1), ToUint(Strtol(texts[4], Hex)),
                              Strtol(texts[5], Dec), Strtol(texts[6], Dec), |texts[1]| == 6))
  }

  // ---------------------------------------------------------------- parsing what was printed

  /** What a parse gives for a name that was not cut. */
  function Reread(t: TarFileName, date: DateText): TarFileName {
    t.(sec := Min(t.sec, LONG_MAX), nsec := 1000 * (t.nsec / 1000),
       size := Min(t.size, LONG_MAX), ondiskSize := Min(t.ondiskSize, LONG_MAX),
       oldStyle := t.oldStyle || date(t.sec) == "")
  }

  lemma SmallNumberIsRead(v: nat, radix: Radix, width: nat)
    requires v < 0x1_0000_0000
    ensures Strtol(Padded(v, radix, width), radix) == v
  {
    ValueOfPadded(v, radix, width);
  }

  lemma NumberIsRead(v: nat, radix: Radix)
    ensures Strtol(Printed(v, radix), radix) == Min(v, LONG_MAX)
  {
    ValueOfPrinted(v, radix);
  }

  lemma MicrosAreRead(t: TarFileName, date: DateText)
    requires t.Valid()
    ensures var s := MicrosAndDate(t, date);
      |s| >= 6 && DigitsOnly(s[..6]) && Strtol(s[..6], Dec) == t.nsec / 1000
    ensures |MicrosAndDate(t, date)| == 6 <==> t.oldStyle || date(t.sec) == ""
  {
    var s, micros := MicrosAndDate(t, date), Padded(t.nsec / 1000, Dec, 6);
    assert Power(Dec, 6) == 1_000_000 by {
      assert Power(Dec, 2) == 100;
      assert Power(Dec, 4) == 10_000;
    }
    PaddedLength(t.nsec / 1000, Dec, 6);
    SmallNumberIsRead(t.nsec / 1000, Dec, 6);
    assert s[..6] == micros;
  }

  lemma FieldsParsed(t: TarFileName, date: DateText, dir: string)
    requires t.Valid()
    ensures ParseFields(t.kind, dir, FieldTexts(t, date)) == Parsed(dir, Reread(t, date))
  {
    hide Printed, Padded, Strtol, MicrosAndDate, DigitsOnly, HexDigitsOnly;
    NumberIsRead(t.sec, Dec);
    MicrosAreRead(t, date);
    SmallNumberIsRead(t.partNr + 1, Hex, |Printed(t.numParts, Hex)|);
    NumberIsRead(t.numParts, Hex);
    NumberIsRead(t.size, Dec);
    NumberIsRead(t.ondiskSize, Dec);
  }

  lemma NoSeparatorInFields(t: TarFileName, date: DateText)
    requires t.Valid() && AreDates(date)
    ensures var texts := FieldTexts(t, date);
      |texts[0]| >= 1 && forall i :: 0 <= i < |SEPARATORS| ==> SEPARATORS[i] !in texts[i]
  {
    assert '_' !in MicrosAndDate(t, date);
    assert '-' !in PartNumber(t);
    hide Printed, Padded, MicrosAndDate, PartNumber, ToSize, SuffixType;
  }

  lemma ParseAfterKind(t: TarFileName, date: DateText, front: string, dir: string)
    requires t.Valid() && AreDates(date)
    ensures ParseVersion(t.kind, dir, front + AfterKind(t, date), |front|) == Parsed(dir, Reread(t, date))
  {
    FieldsParsed(t, date, dir);
    NoSeparatorInFields(t, date);
    hide FieldTexts, ParseFields, Reread, Joined, SplitFields;
    SplitOfJoined(front, FieldTexts(t, date), SEPARATORS, 1);
  }

  /** Printed in any directory and not cut, a name parses to that directory and its own fields, numbers saturated. */
  lemma ParseOfFullName(t: TarFileName, date: DateText, dir: Dir)
    requires t.Valid() && AreDates(date)
    ensures ParseFileName(FullName(t, date, dir)) == Parsed(dir.Text(), Reread(t, date))
  {
    hide *;
    FullNameIs(t, date, dir);
    ParseAfterKind(t, date, dir.Text() + Marker(t.kind), dir.Text());
    ParseMarked(t.kind, dir.Text(), AfterKind(t, date));
  }

  lemma FullNameIs(t: TarFileName, date: DateText, dir: Dir)
    requires t.Valid() && AreDates(date)
    ensures FullName(t, date, dir) == dir.Text() + Marker(t.kind) + AfterKind(t, date)
    ensures '/' !in AfterKind(t, date)
  {
    NoSlashInFields(t, date);
    hide FieldTexts, Joined;
    NotInJoined('/', FieldTexts(t, date), SEPARATORS);
  }

  /** A name ends with the suffix of its kind, and with nothing that a path would drop. */
  lemma NameEnds(t: TarFileName, date: DateText, dir: Dir)
    ensures var name := FullName(t, date, dir);
      name != "" && name[|name| - 1] != '/' && name[|name| - 1] != '\n'
  {
    var suffix := SuffixType(t.kind);
    assert FieldTexts(t, date)[|SEPARATORS|] == suffix;
    JoinedEnds(FieldTexts(t, date), SEPARATORS);
    hide FieldTexts, Joined;
    var rest := AfterKind(t, date);
    assert rest[|rest| - 1] == rest[|rest| - |suffix|..][|suffix| - 1];
  }

  lemma ParseMarked(kind: TarContents, dir: string, rest: string)
    requires (dir == "" || dir[|dir| - 1] == '/') && '/' !in rest
    ensures var name := dir + Marker(kind) + rest; var p1 := |dir| + 7;
      p1 <= |name| && ParseFileName(name) == ParseVersion(kind, dir, name, p1)
      && AfterSlash(name) == |dir| && p1 == |dir + Marker(kind)|
  {
    hide CharType, TypeFromChar, ParseVersion, AfterSlash, Marker;
    LetterOfKind(kind, CharType(kind));
    MarkerAt(kind, dir, rest);
    NoSlashInMarker(kind, rest);
    AfterSlashIs(dir, Marker(kind) + rest);
  }

  lemma NoSlashInMarker(kind: TarContents, rest: string)
    requires '/' !in rest
    ensures '/' !in Marker(kind) + rest
  {
  }

  lemma MarkerAt(kind: TarContents, dir: string, rest: string)
    ensures var name := dir + Marker(kind) + rest;
      && |Marker(kind)| == 7 && name == dir + (Marker(kind) + rest) && name[..|dir|] == dir
      && name[|dir|..|dir| + 5] == "beak_" && name[|dir| + 5] == CharType(kind) && name[|dir| + 6] == '_'
  {
    hide CharType;
  }

  lemma NoSlashInFields(t: TarFileName, date: DateText)
    requires t.Valid() && AreDates(date)
    ensures var texts := FieldTexts(t, date); '/' !in SEPARATORS && forall i :: 0 <= i < |texts| ==> '/' !in texts[i]
  {
    assert '/' !in MicrosAndDate(t, date);
    assert '/' !in PartNumber(t) && '/' !in SuffixType(t.kind);
    hide Printed, Padded, MicrosAndDate, PartNumber, ToSize, SuffixType;
  }

  /** A name cut short never parses to the directory it was printed with. */
  lemma CutNameIsAnother(t: TarFileName, date: DateText, dir: Dir, n: nat)
    requires t.Valid() && AreDates(date) && n < |FullName(t, date, dir)|
    ensures var p := ParseFileName(FullName(t, date, dir)[..n]); p.Parsed? ==> p.dir != dir.Text()
  {
    hide *;
    var name := FullName(t, date, dir);
    MarkedFullName(t, date, dir);
    if ParseFileName(name[..n]).Parsed? {
      CutParse(name, n, t.kind, dir.Text());
    }
  }

  lemma MarkedFullName(t: TarFileName, date: DateText, dir: Dir)
    requires t.Valid() && AreDates(date)
    ensures var name, p0 := FullName(t, date, dir), |dir.Text()|;
      && p0 + 7 <= |name| && name[..p0] == dir.Text() && TypeFromChar(name[p0 + 5]) == Kind(t.kind)
      && ParseVersion(t.kind, dir.Text(), name, p0 + 7).Parsed?
  {
    hide *;
    FullNameIs(t, date, dir);
    MarkerAt(t.kind, dir.Text(), AfterKind(t, date));
    LetterOfKind(t.kind, CharType(t.kind));
    ParseAfterKind(t, date, dir.Text() + Marker(t.kind), dir.Text());
  }

  lemma CutParse(name: string, n: nat, kind: TarContents, dir: string)
    requires |dir| + 7 <= |name| && n < |name| && name[..|dir|] == dir
    requires TypeFromChar(name[|dir| + 5]) == Kind(kind)
    requires ParseVersion(kind, dir, name, |dir| + 7).Parsed?
    requires ParseFileName(name[..n]).Parsed?
    ensures ParseFileName(name[..n]).dir != dir
  {
    var p := ParseFileName(name[..n]);
    hide TypeFromChar, SplitFields, AfterSlash;
    ParsedDir(name[..n]);
    if p.dir == dir {
      assert name[..n][|dir| + 5] == name[|dir| + 5];
      assert name[..n][..|dir|] == dir;
      SplitOfCut(name, n, |dir| + 7, 1, SEPARATORS);
    }
  }

  /** A parse reports what stands up to the last slash as the directory. */
  lemma ParsedDir(name: string)
    ensures ParseFileName(name).Parsed? ==> ParseFileName(name).dir == name[..AfterSlash(name)]
  {
    hide TypeFromChar, SplitFields, AfterSlash;
  }

  /**
   A written name parses back to its directory and fields, nanoseconds truncated to microseconds,
   exactly when it fits the buffer and the sizes fit 63 bits.
   */
  lemma NameRoundTrip(t: TarFileName, date: DateText, dir: Dir, bufLen: nat)
    requires t.Valid() && AreDates(date) && bufLen > 0
    ensures ParseFileName(Written(t, date, dir, bufLen))
         == Parsed(dir.Text(), t.(nsec := 1000 * (t.nsec / 1000), oldStyle := t.oldStyle || date(t.sec) == ""))
      <==> |FullName(t, date, dir)| < bufLen && t.size <= LONG_MAX && t.ondiskSize <= LONG_MAX
  {
    hide FullName, ParseFileName;
    ParseOfFullName(t, date, dir);
    if |FullName(t, date, dir)| >= bufLen {
      CutNameIsAnother(t, date, dir, bufLen - 1);
    }
  }

  // ---------------------------------------------------------------- names are short

  function Lengths(texts: seq<string>): nat {
    if texts == [] then 0 else |texts[0]| + Lengths(texts[1..])
  }

  lemma {:induction false} JoinedLengthIs(texts: seq<string>, seps: string)
    requires |texts| == |seps| + 1
    ensures |Joined(texts, seps)| == Lengths(texts) + |seps|
  {
    if seps != "" {
      JoinedLengthIs(texts[1..], seps[1..]);
    } else {
      assert texts[1..] == [];
    }
  }

  lemma EightLengths(t: seq<string>)
    requires |t| == 8
    ensures Lengths(t) == |t[0]| + |t[1]| + |t[2]| + |t[3]| + |t[4]| + |t[5]| + |t[6]| + |t[7]|
  {
    hide Lengths;
    forall k: nat | k < 8
      ensures Lengths(t[k..]) == |t[k]| + Lengths(t[k + 1..])
    {
      LengthsFrom(t, k);
    }
    assert t[0..] == t;
    LengthsFrom(t, 8);
  }

  lemma LengthsFrom(t: seq<string>, k: nat)
    requires k <= |t|
    ensures Lengths(t[k..]) == if k == |t| then 0 else |t[k]| + Lengths(t[k + 1..])
  {
    if k < |t| {
      assert t[k..][1..] == t[k + 1..];
    }
  }

  /** With a hash of 256 bits, a name without its directory has fewer than 200 characters. */
  lemma NameIsShort(t: TarFileName, date: DateText)
    requires t.Valid() && AreDates(date) && |t.headerHash| <= 64
    ensures |FullName(t, date, NoDir)| < 200
  {
    var texts := FieldTexts(t, date);
    FieldLengths(t, date);
    hide FieldTexts, Joined, CharType;
    EightLengths(texts);
    JoinedLengthIs(texts, SEPARATORS);
  }

  lemma FieldLengths(t: TarFileName, date: DateText)
    requires t.Valid() && AreDates(date)
    ensures var texts := FieldTexts(t, date);
      && |texts[0]| <= 19 && |texts[1]| <= 25 && texts[2] == t.headerHash && |texts[3]| <= 7 && |texts[4]| <= 7
      && |texts[5]| <= 20 && |texts[6]| <= 20 && |texts[7]| <= 8
  {
    hide Printed, Padded, Power, ToUint;
    TenToThe20();
    PrintedLength(t.sec, Dec, 19);
    PaddedLength(t.nsec / 1000, Dec, 6);
    PrintedLength(t.numParts, Hex, 7);
    PrintedLength(t.partNr + 1, Hex, 7);
    PaddedIs(t.partNr + 1, Hex, |Printed(t.numParts, Hex)|);
    PrintedLength(t.size, Dec, 20);
    PrintedLength(t.ondiskSize, Dec, 20);
    SuffixLength(t.kind);
  }

  lemma PaddedIs(v: nat, radix: Radix, width: nat)
    ensures |Padded(v, radix, width)| == if |Printed(v, radix)| >= width then |Printed(v, radix)| else width
  {
  }

  lemma SuffixLength(kind: TarContents)
    ensures |SuffixType(kind)| <= 8
  {
  }

  lemma TenToThe20()
    ensures Power(Dec, 6) == 1_000_000 && Power(Dec, 19) == 10_000_000_000_000_000_000
    ensures Power(Dec, 20) == 100_000_000_000_000_000_000 && Power(Hex, 7) == 0x1000_0000
  {
    assert Power(Dec, 5) == 100_000;
    assert Power(Dec, 10) == 10_000_000_000;
    assert Power(Dec, 15) == 1_000_000_000_000_000;
    assert Power(Hex, 3) == 0x1000;
  }
}
