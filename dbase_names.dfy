/** The naming conventions of the sync controller in src/Dbase/Data.php:
    archive names `fias_<version>.rar`, the version parsed back out of a
    file name, the date in the database label, and the choice of download
    URL. File names and the label are byte strings, as PHP sees them. */
module DbaseNames {
  import opened Wrappers
  import opened Seqs

  newtype byte = x: int | 0 <= x < 256

  type Bytes = seq<byte>

  /** "fias_" */
  const ArchivePrefix: Bytes := [102, 105, 97, 115, 95]

  /** ".rar" */
  const RarSuffix: Bytes := [46, 114, 97, 114]

  /** "rar", the extension SplFileInfo::getExtension reports for an archive. */
  const RarExtension: Bytes := [114, 97, 114]

  const Dot: byte := 46
  const Minus: byte := 45
  const Plus: byte := 43

  /** "от" in UTF-8, the word before the date in the database label. */
  const DateMarker: Bytes := [0xD0, 0xBE, 0xD1, 0x82]

  /** The bytes an integer cast skips before the number: space, tab, newline,
      carriage return, vertical tab, form feed. */
  const CastWhitespace: set<byte> := {32, 9, 10, 13, 11, 12}

  predicate IsDigit(b: byte)
  {
    48 <= b <= 57
  }

  predicate AllDigits(s: Bytes)
  {
    forall i :: 0 <= i < |s| ==> IsDigit(s[i])
  }

  /** The number a string of decimal digits spells. */
  function DigitsValue(ds: Bytes): nat
    requires AllDigits(ds)
    decreases |ds|
  {
    if ds == [] then 0 else DigitsValue(ds[..|ds| - 1]) * 10 + (ds[|ds| - 1] - 48) as int
  }

  /** The decimal representation of `n`, without leading zeros. */
  function DecimalDigits(n: nat): (ds: Bytes)
    ensures |ds| >= 1 && AllDigits(ds)
    ensures DigitsValue(ds) == n
    ensures ds[0] == 48 ==> n == 0
  {
    if n < 10 then [(48 + n) as byte]
    else
      var prefix := DecimalDigits(n / 10);
      var ds := prefix + [(48 + n % 10) as byte];
      assert ds[..|ds| - 1] == prefix;
      ds
  }

  /** How PHP writes an integer into a string. */
  function IntToString(v: int): (s: Bytes)
    ensures |s| >= 1 && Dot !in s
    ensures s[0] == Minus || IsDigit(s[0])
  {
    if v < 0 then [Minus] + DecimalDigits(-v) else DecimalDigits(v)
  }

  /** The longest prefix of decimal digits. */
  function LeadingDigits(s: Bytes): (d: Bytes)
    ensures |d| <= |s| && d == s[..|d|] && AllDigits(d)
    ensures |d| < |s| ==> !IsDigit(s[|d|])
  {
    if s != [] && IsDigit(s[0]) then [s[0]] + LeadingDigits(s[1..]) else []
  }

  /** PHP's `(int)` of a string: leading whitespace is skipped, then an
      optional sign and the leading decimal digits are read; no digits give 0. */
  function IntCast(s: Bytes): (r: int)
    ensures (forall i :: 0 <= i < |s| ==> !IsDigit(s[i])) ==> r == 0
    ensures r < 0 ==> Minus in s
  {
    var t := TrimLeft(s, CastWhitespace);
    assert t != [] ==> t[0] == s[|s| - |t|];
    assert |t| > 1 ==> t[1..][0] == s[|s| - |t| + 1];
    if t != [] && t[0] == Minus then -(DigitsValue(LeadingDigits(t[1..])) as int)
    else if t != [] && t[0] == Plus then DigitsValue(LeadingDigits(t[1..]))
    else DigitsValue(LeadingDigits(t))
  }

  /** Casting the string PHP writes for an integer gives back that integer. */
  lemma IntCastOfIntToString(v: int)
    ensures IntCast(IntToString(v)) == v
  {
    var s := IntToString(v);
    assert s[0] !in CastWhitespace;
    assert TrimLeft(s, CastWhitespace) == s;
    if v < 0 {
      LeadingDigitsOfAll(DecimalDigits(-v));
      assert s[1..] == DecimalDigits(-v);
    } else {
      LeadingDigitsOfAll(s);
    }
  }

  lemma {:induction false} LeadingDigitsOfAll(ds: Bytes)
    requires AllDigits(ds)
    ensures LeadingDigits(ds) == ds
    decreases |ds|
  {
    if ds != [] {
      assert AllDigits(ds[1..]) by {
        forall i | 0 <= i < |ds| - 1 ensures IsDigit(ds[1..][i]) {
          assert ds[1..][i] == ds[i + 1];
        }
      }
      LeadingDigitsOfAll(ds[1..]);
    }
  }

  /** PHP 8's `substr($s, $start)` for a start at or past the beginning:
      the tail from `start`, empty when `start` is past the end. */
  function Substr(s: Bytes, start: nat): (r: Bytes)
    ensures start <= |s| ==> r == s[start..]
    ensures start > |s| ==> r == []
  {
    if start <= |s| then s[start..] else []
  }

  /** `strstr($s, $b, true)`: the text before the first `b`, or nothing when
      `s` holds no `b` (PHP's false). */
  function BeforeFirst(s: Bytes, b: byte): (r: Option<Bytes>)
    ensures r.None? <==> b !in s
    ensures r.Some? ==> |r.value| < |s| && b !in r.value && r.value + [b] == s[..|r.value| + 1]
  {
    var i := FirstIndex(s, b);
    FirstIndexSpec(s, b);
    if i == |s| then None
    else
      assert s[..i + 1] == s[..i] + [b];
      Some(s[..i])
  }

  /** `getLocalDatabaseVerion`: the integer cast of the part of the name
      between byte 5 and the first dot after it; 0 when there is no dot
      (the cast of false). */
  function LocalVersion(name: Bytes): (v: int)
    ensures Dot !in Substr(name, 5) ==> v == 0
  {
    match BeforeFirst(Substr(name, 5), Dot)
    case None => 0
    case Some(stem) => IntCast(stem)
  }

  /** `isLocalDatabaseOlderVersion`: the name's version is below the current
      one, or the name is empty (the empty string equals null). */
  predicate IsLocalOlder(name: Bytes, version: int)
  {
    LocalVersion(name) < version || name == []
  }

  /** The archive file name used for `version`: "fias_" + version + ".rar". */
  function ArchiveName(version: int): (name: Bytes)
    ensures |name| >= |ArchivePrefix| + 1 + |RarSuffix|
    ensures name[..5] == ArchivePrefix
  {
    ArchivePrefix + IntToString(version) + RarSuffix
  }

  /** Reading the version back out of an archive name gives the version it was built from. */
  lemma VersionRoundTrip(version: int)
    ensures LocalVersion(ArchiveName(version)) == version
  {
    var digits := IntToString(version);
    var name := ArchiveName(version);
    assert Substr(name, 5) == digits + RarSuffix;
    assert Dot !in digits;
    FirstIndexAfter(digits, Dot, RarSuffix[1..]);
    assert digits + RarSuffix == digits + [Dot] + RarSuffix[1..];
    assert BeforeFirst(digits + RarSuffix, Dot) == Some(digits);
    IntCastOfIntToString(version);
  }

  /** An archive counts as older exactly when its version is below the current one. */
  lemma ArchiveOlderIff(archived: int, current: int)
    ensures IsLocalOlder(ArchiveName(archived), current) <==> archived < current
  {
    VersionRoundTrip(archived);
  }

  /** `SplFileInfo::getExtension`: what follows the last dot of the name,
      nothing when it has none. */
  function Extension(name: Bytes): (ext: Bytes)
    ensures Dot !in ext
    ensures Dot in name ==> |ext| < |name| && name == name[..|name| - |ext| - 1] + [Dot] + ext
    ensures Dot !in name ==> ext == []
  {
    var i := LastIndex(name, Dot);
    if i < 0 then []
    else
      assert name == name[..i] + [Dot] + name[i + 1..];
      name[i + 1..]
  }

  /** A name the pattern `*.rar` of glob() matches: it ends in ".rar" and
      does not start with a dot. */
  predicate MatchesRarGlob(name: Bytes)
  {
    |name| >= |RarSuffix| && name[|name| - |RarSuffix|..] == RarSuffix && name[0] != Dot
  }

  /** Every archive name has the extension "rar" and matches `*.rar`. */
  lemma ArchiveNameIsRar(version: int)
    ensures Extension(ArchiveName(version)) == RarExtension
    ensures MatchesRarGlob(ArchiveName(version))
  {
    var stem := ArchivePrefix + IntToString(version);
    assert ArchiveName(version) == stem + RarSuffix;
    assert stem[0] == ArchivePrefix[0];
    RarSuffixExtension(stem);
  }

  /** Whatever comes before ".rar", the extension is "rar". */
  lemma RarSuffixExtension(stem: Bytes)
    ensures Extension(stem + RarSuffix) == RarExtension
    ensures (stem + RarSuffix)[|stem|..] == RarSuffix
  {
    var name := stem + RarSuffix;
    var i := |stem|;
    assert name[i..] == RarSuffix;
    assert name[i + 1..] == RarExtension;
    assert Dot !in RarExtension;
    LastIndexAt(name, Dot, i);
  }

  lemma LastIndexAt(s: Bytes, x: byte, i: nat)
    requires i < |s| && s[i] == x && x !in s[i + 1..]
    ensures LastIndex(s, x) == i
  {
  }

  /** `pat` occurs in `s` at `i`. */
  predicate OccursAt(s: Bytes, pat: Bytes, i: nat)
  {
    i + |pat| <= |s| && s[i..i + |pat|] == pat
  }

  /** `strpos`: the first position at which `pat` occurs, or nothing. */
  function IndexOf(s: Bytes, pat: Bytes): (r: Option<nat>)
    ensures r.Some? ==> OccursAt(s, pat, r.value) && forall j :: 0 <= j < r.value ==> !OccursAt(s, pat, j)
    ensures r.None? ==> forall j :: 0 <= j <= |s| ==> !OccursAt(s, pat, j)
    decreases |s|
  {
    if |s| < |pat| then None
    else if s[..|pat|] == pat then
      assert s[0..|pat|] == s[..|pat|];
      Some(0)
    else
      assert !OccursAt(s, pat, 0) by {
        assert s[0..|pat|] == s[..|pat|];
      }
      OccursShifted(s, pat);
      var rest := IndexOf(s[1..], pat);
      if rest.None? then
        assert forall j :: 0 < j <= |s| ==> !OccursAt(s, pat, j) by {
          forall j | 0 < j <= |s| ensures !OccursAt(s, pat, j) {
            assert !OccursAt(s[1..], pat, j - 1);
          }
        }
        None
      else
        assert forall j :: 0 < j <= rest.value ==> !OccursAt(s, pat, j) by {
          forall j | 0 < j <= rest.value ensures !OccursAt(s, pat, j) {
            assert !OccursAt(s[1..], pat, j - 1);
          }
        }
        Some(rest.value + 1)
  }

  /** The first occurrence is where `strpos` finds the pattern. */
  lemma IndexOfFirst(s: Bytes, pat: Bytes, i: nat)
    requires OccursAt(s, pat, i)
    requires forall j :: 0 <= j < i ==> !OccursAt(s, pat, j)
    ensures IndexOf(s, pat) == Some(i)
  {
  }

  lemma OccursShifted(s: Bytes, pat: Bytes)
    requires s != []
    ensures forall j: nat :: OccursAt(s, pat, j + 1) <==> OccursAt(s[1..], pat, j)
  {
    forall j: nat ensures OccursAt(s, pat, j + 1) <==> OccursAt(s[1..], pat, j) {
      if j + 1 + |pat| <= |s| {
        assert s[1..][j..j + |pat|] == s[j + 1..j + 1 + |pat|];
      }
    }
  }

  /** `getDatabaseDateCreated`: the database name from five bytes after the first
      "от" (its four bytes and one separator); when the name holds no "от",
      false counts as 0 and the name is read from byte 5. */
  function DateCreated(title: Bytes): (date: Bytes)
    ensures |date| <= |title| && date == title[|title| - |date|..]
  {
    var found := IndexOf(title, DateMarker);
    var at := if found.Some? then found.value else 0;
    Substr(title, at + 5)
  }

  /** A database name "<text> от <date>" whose text holds no "от" yields the date. */
  lemma DateCreatedOfLabel(text: Bytes, separator: byte, date: Bytes)
    requires forall j :: 0 <= j <= |text| ==> !OccursAt(text + DateMarker, DateMarker, j) || j == |text|
    ensures DateCreated(text + DateMarker + [separator] + date) == date
  {
    var title := text + DateMarker + [separator] + date;
    assert |DateMarker| == 4;
    assert title[|text|..|text| + 4] == DateMarker;
    forall j | 0 <= j < |text| ensures !OccursAt(title, DateMarker, j) {
      if OccursAt(title, DateMarker, j) {
        assert title[j..j + 4] == (text + DateMarker)[j..j + 4];
        assert OccursAt(text + DateMarker, DateMarker, j);
      }
    }
    IndexOfFirst(title, DateMarker, |text|);
    assert title[|text| + 5..] == date;
  }

  /** The download addresses read from the catalog. */
  datatype Urls = Urls(
    allDbf: string, allXml: string, deltaDbf: string, deltaXml: string, kladrArj: string, kladr7z: string)

  const TypeDbfAll := 1
  const TypeXmlAll := 2
  const TypeDbfDelta := 3
  const TypeXmlDelta := 4
  const TypeKladrArj := 5
  const TypeKladr7z := 6

  /** `getUrlForArchve`: the address for a data type; no type, or any other
      number, selects the full DBF archive. */
  function UrlFor(dataType: Option<int>, urls: Urls): (url: string)
    ensures dataType == Some(TypeDbfAll) ==> url == urls.allDbf
    ensures dataType == Some(TypeXmlAll) ==> url == urls.allXml
    ensures dataType == Some(TypeDbfDelta) ==> url == urls.deltaDbf
    ensures dataType == Some(TypeXmlDelta) ==> url == urls.deltaXml
    ensures dataType == Some(TypeKladrArj) ==> url == urls.kladrArj
    ensures dataType == Some(TypeKladr7z) ==> url == urls.kladr7z
    ensures (dataType.None? || !(1 <= dataType.value <= 6)) ==> url == urls.allDbf
  {
    match dataType
    case None => urls.allDbf
    case Some(t) =>
      if t == TypeXmlAll then urls.allXml
      else if t == TypeDbfDelta then urls.deltaDbf
      else if t == TypeXmlDelta then urls.deltaXml
      else if t == TypeKladrArj then urls.kladrArj
      else if t == TypeKladr7z then urls.kladr7z
      else urls.allDbf
  }
}
