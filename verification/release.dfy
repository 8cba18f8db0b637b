/**
 * The pure steps of the release manager: bumping the version and build
 * number, sorting commit messages into changelog sections, writing the
 * changelog entry, and splicing it into an existing changelog.
 */
module Release {
  import opened Wrappers
  import Text
  import Numerals
  import Tables
  import Versions
  import Updater

  // ---------------------------------------------------------------------
  // Version information
  // ---------------------------------------------------------------------

  /** `version.json`, when it exists, as the dictionary of strings the tool writes. */
  datatype VersionFile = NoFile | Stored(data: map<string, string>)

  const FirstVersion := "1.0.0"
  const FirstBuild := "001"

  /** `load_version_info`, with `today` the `%Y-%m-%d` date of the call. */
  function LoadVersionInfo(f: VersionFile, today: string): (d: map<string, string>)
    ensures f.Stored? ==> d == f.data
    ensures f.NoFile? ==> d.Keys == {"version", "release_date", "build_number"}
    ensures f.NoFile? ==> d["version"] == FirstVersion && d["build_number"] == FirstBuild && d["release_date"] == today
  {
    match f
    case Stored(data) => data
    case NoFile => map["version" := FirstVersion, "release_date" := today, "build_number" := FirstBuild]
  }

  /** The part of the version a release bumps: "major", "minor", anything else a patch. */
  function Bump(t: Versions.Triple, kind: string): Versions.Triple {
    if kind == "major" then Versions.Triple(t.major + 1, 0, 0)
    else if kind == "minor" then Versions.Triple(t.major, t.minor + 1, 0)
    else Versions.Triple(t.major, t.minor, t.patch + 1)
  }

  /** A bump yields a version the updater's comparison ranks strictly newer. */
  lemma BumpIsNewer(t: Versions.Triple, kind: string)
    ensures Updater.Compare(Versions.Format(t), Versions.Format(Bump(t, kind))) == -1
  {
    var u := Bump(t, kind);
    Updater.KeyOfTriple(t);
    Updater.KeyOfTriple(u);
    var a := [t.major, t.minor, t.patch];
    var b := [u.major, u.minor, u.patch];
    assert a != b by {
      assert a[0] != b[0] || a[1] != b[1] || a[2] != b[2];
    }
    assert Tables.LexLe(a, b) by {
      if a[0] == b[0] {
        assert a[1..] == [t.minor, t.patch] && b[1..] == [u.minor, u.patch];
        if a[1] == b[1] {
          assert a[1..][1..] == [t.patch] && b[1..][1..] == [u.patch];
          assert [t.patch][1..] == [] && [u.patch][1..] == [];
        }
      }
    }
  }

  /** The three bumps the project's tests assert, starting from 1.0.0. */
  lemma BumpExamples()
    ensures Versions.Format(Bump(Versions.Triple(1, 0, 0), "patch")) == "1.0.1"
    ensures Versions.Format(Bump(Versions.Triple(1, 0, 0), "minor")) == "1.1.0"
    ensures Versions.Format(Bump(Versions.Triple(1, 0, 0), "major")) == "2.0.0"
  {
    assert Bump(Versions.Triple(1, 0, 0), "patch") == Versions.Triple(1, 0, 1);
    assert Bump(Versions.Triple(1, 0, 0), "minor") == Versions.Triple(1, 1, 0);
    assert Bump(Versions.Triple(1, 0, 0), "major") == Versions.Triple(2, 0, 0);
    Versions.FormatDigits(1, 0, 1);
    Versions.FormatDigits(1, 1, 0);
    Versions.FormatDigits(2, 0, 0);
  }

  const KeyErrorVersion := "KeyError: 'version'"
  const BadVersion := "ValueError: version is not three integers"
  const BadBuild := "ValueError: invalid literal for int()"

  /** The new version string and the updated version information. */
  datatype Bumped = Bumped(version: string, data: map<string, string>)

  /** `version_data.get("build_number", "0")` */
  function BuildOf(data: map<string, string>): string {
    if "build_number" in data then data["build_number"] else "0"
  }

  /** `str(int(build) + 1).zfill(3)` */
  function NextBuild(build: string): Option<string> {
    match Numerals.ParseInt(build)
    case None => None
    case Some(n) => Some(Numerals.ZFill(Numerals.IntToString(n + 1), 3))
  }

  /**
   * The body of `increment_version` on the loaded information: the version
   * must be three integers, the build number (missing counts as "0") must
   * read as an integer; the new version, today's date and the next build
   * number replace the old ones and every other field is kept.
   */
  function Increment(data: map<string, string>, kind: string, today: string): Result<Bumped> {
    if "version" !in data then Err(KeyErrorVersion)
    else
      match Versions.ParseTriple(data["version"])
      case None => Err(BadVersion)
      case Some(t) =>
        var v := Versions.Format(Bump(t, kind));
        match NextBuild(BuildOf(data))
        case None => Err(BadBuild)
        case Some(b) => Ok(Bumped(v, data["version" := v]["release_date" := today]["build_number" := b]))
  }

  /** `increment_version`: load the version information, then bump it. */
  function IncrementVersion(f: VersionFile, kind: string, today: string): Result<Bumped> {
    Increment(LoadVersionInfo(f, today), kind, today)
  }

  /** A bump fails exactly when the version is missing or not three integers, or the build number does not read. */
  lemma IncrementFails(data: map<string, string>, kind: string, today: string)
    ensures Increment(data, kind, today).Err? <==>
      "version" !in data || Versions.ParseTriple(data["version"]).None? || NextBuild(BuildOf(data)).None?
  {
  }

  /** A successful bump sets the version, the date and the build number, and keeps every other field. */
  lemma IncrementKeeps(data: map<string, string>, kind: string, today: string)
    requires Increment(data, kind, today).Ok?
    ensures
      var r := Increment(data, kind, today).value;
      r.data.Keys == data.Keys + {"version", "release_date", "build_number"} &&
      r.data["version"] == r.version && r.data["release_date"] == today &&
      forall k :: k in data && k !in {"version", "release_date", "build_number"} ==> r.data[k] == data[k]
  {
    var t := Versions.ParseTriple(data["version"]).value;
    var b := NextBuild(BuildOf(data)).value;
    IncrementOk(data, kind, today, t, b);
    StampKeeps(data, Versions.Format(Bump(t, kind)), today, b);
  }

  lemma StampKeeps(data: map<string, string>, v: string, today: string, b: string)
    ensures
      var d := data["version" := v]["release_date" := today]["build_number" := b];
      d.Keys == data.Keys + {"version", "release_date", "build_number"} &&
      d["version"] == v && d["release_date"] == today && d["build_number"] == b &&
      forall k :: k in data && k !in {"version", "release_date", "build_number"} ==> d[k] == data[k]
  {
  }

  /** A bump succeeds with the next version and build whenever both read. */
  lemma IncrementOk(data: map<string, string>, kind: string, today: string, t: Versions.Triple, b: string)
    requires "version" in data && Versions.ParseTriple(data["version"]) == Some(t)
    requires NextBuild(BuildOf(data)) == Some(b)
    ensures Increment(data, kind, today) == Ok(Bumped(Versions.Format(Bump(t, kind)),
      data["version" := Versions.Format(Bump(t, kind))]["release_date" := today]["build_number" := b]))
  {
  }

  /**
   * What a successful bump writes reads back as the bumped triple, and the
   * build number it stores is the next build (see `NextBuildReads`).
   */
  lemma IncrementRoundTrip(data: map<string, string>, kind: string, today: string)
    requires Increment(data, kind, today).Ok?
    ensures
      var r := Increment(data, kind, today).value;
      Versions.ParseTriple(r.version) == Some(Bump(Versions.ParseTriple(data["version"]).value, kind)) &&
      NextBuild(BuildOf(data)) == Some(r.data["build_number"])
  {
    var t := Versions.ParseTriple(data["version"]).value;
    var b := NextBuild(BuildOf(data)).value;
    var v := Versions.Format(Bump(t, kind));
    var r := Increment(data, kind, today).value;
    assert r.version == v && r.data["build_number"] == b by {
      IncrementOk(data, kind, today, t, b);
      StampKeeps(data, v, today, b);
    }
    BumpReadsBack(t, kind);
  }

  /** A next build number has at least three digits and reads as one more than the old one. */
  lemma NextBuildReads(s: string, b: string)
    requires NextBuild(s) == Some(b)
    ensures Numerals.ParseInt(s).Some?
    ensures |b| >= 3 && Numerals.ParseInt(b) == Some(Numerals.ParseInt(s).value + 1)
  {
    var n := Numerals.ParseInt(s).value;
    NextBuildOf(s, n);
    BuildReadsBack(n);
  }

  lemma BumpReadsBack(t: Versions.Triple, kind: string)
    ensures Versions.ParseTriple(Versions.Format(Bump(t, kind))) == Some(Bump(t, kind))
  {
    Versions.ParseFormat(Bump(t, kind));
  }

  lemma BuildReadsBack(n: int)
    ensures |Numerals.ZFill(Numerals.IntToString(n + 1), 3)| >= 3
    ensures Numerals.ParseInt(Numerals.ZFill(Numerals.IntToString(n + 1), 3)) == Some(n + 1)
  {
    Numerals.ZFillParses(n + 1, 3);
  }

  /** The default "1.0.0" reads as the triple (1, 0, 0). */
  lemma FirstVersionParses()
    ensures Versions.ParseTriple(FirstVersion) == Some(Versions.Triple(1, 0, 0))
  {
    var t := Versions.Triple(1, 0, 0);
    Versions.ParseFormat(t);
    Versions.FormatDigits(1, 0, 0);
  }

  /** The default build "001" reads as 1. */
  lemma FirstBuildParses()
    ensures Numerals.ParseInt(FirstBuild) == Some(1)
  {
    Numerals.ParseIntToString(1);
    Numerals.LeadingZerosValue(2, "1");
    assert FirstBuild == Numerals.Zeros(2) + "1";
  }

  /** The build after "001" is "002". */
  lemma SecondBuild()
    ensures NextBuild(FirstBuild) == Some("002")
  {
    FirstBuildParses();
    NextBuildOf(FirstBuild, 1);
    PadTwo();
  }

  lemma NextBuildOf(b: string, n: int)
    requires Numerals.ParseInt(b) == Some(n)
    ensures NextBuild(b) == Some(Numerals.ZFill(Numerals.IntToString(n + 1), 3))
  {
  }

  lemma PadTwo()
    ensures Numerals.ZFill(Numerals.IntToString(2), 3) == "002"
  {
    assert Numerals.IntToString(2) == "2";
    assert Numerals.Zeros(2) == "00";
  }

  /** Without a version file the first patch release is 1.0.1 with build 002. */
  lemma FirstRelease(today: string)
    ensures IncrementVersion(NoFile, "patch", today).Ok?
    ensures IncrementVersion(NoFile, "patch", today).value.version == "1.0.1"
    ensures IncrementVersion(NoFile, "patch", today).value.data["build_number"] == "002"
  {
    var d := LoadVersionInfo(NoFile, today);
    FirstVersionParses();
    assert BuildOf(d) == FirstBuild;
    SecondBuild();
    IncrementOk(d, "patch", today, Versions.Triple(1, 0, 0), "002");
    BumpExamples();
  }

  // ---------------------------------------------------------------------
  // Changelog sections
  // ---------------------------------------------------------------------

  datatype Bucket = Features | Fixes | Improvements | Other

  const FeatureWords := ["feat:", "feature:", "add:", "new:"]
  const FixWords := ["fix:", "bug:", "patch:"]
  const ImprovementWords := ["improve:", "enhance:", "update:", "refactor:"]

  /** `any(keyword in text for keyword in words)` */
  function AnyIn(words: seq<string>, text: string): (b: bool)
    ensures b <==> exists i :: 0 <= i < |words| && Text.IsInfix(words[i], text)
    decreases |words|
  {
    if |words| == 0 then false
    else
      var rest := AnyIn(words[1..], text);
      assert rest <==> exists i :: 1 <= i < |words| && Text.IsInfix(words[i], text) by {
        if rest {
          var j :| 0 <= j < |words| - 1 && Text.IsInfix(words[1..][j], text);
          assert words[j + 1] == words[1..][j];
        }
        forall i | 1 <= i < |words| && Text.IsInfix(words[i], text) ensures rest {
          assert words[1..][i - 1] == words[i];
        }
      }
      Text.IsInfix(words[0], text) || rest
  }

  /** The section of one commit message: features before fixes before improvements. */
  function Categorize(change: string): Bucket {
    var lower := Text.Lower(change);
    if AnyIn(FeatureWords, lower) then Features
    else if AnyIn(FixWords, lower) then Fixes
    else if AnyIn(ImprovementWords, lower) then Improvements
    else Other
  }

  /** A message lands among the fixes exactly when it names a fix keyword and no feature keyword. */
  lemma CategorizePriority(change: string)
    ensures Categorize(change) == Features <==>
      exists i :: 0 <= i < |FeatureWords| && Text.IsInfix(FeatureWords[i], Text.Lower(change))
    ensures Categorize(change) == Fixes <==>
      (forall i :: 0 <= i < |FeatureWords| ==> !Text.IsInfix(FeatureWords[i], Text.Lower(change))) &&
      (exists i :: 0 <= i < |FixWords| && Text.IsInfix(FixWords[i], Text.Lower(change)))
    ensures Categorize(change) == Other ==>
      forall w :: w in FeatureWords + FixWords + ImprovementWords ==> !Text.IsInfix(w, Text.Lower(change))
  {
    var lower := Text.Lower(change);
    if Categorize(change) == Other {
      forall w | w in FeatureWords + FixWords + ImprovementWords ensures !Text.IsInfix(w, lower) {
        if w in FeatureWords {
          var i :| 0 <= i < |FeatureWords| && FeatureWords[i] == w;
        } else if w in FixWords {
          var i :| 0 <= i < |FixWords| && FixWords[i] == w;
        } else {
          var i :| 0 <= i < |ImprovementWords| && ImprovementWords[i] == w;
        }
      }
    }
  }

  /** A way of sorting messages into sections; the entry is built from `Categorize`. */
  type Categorizer = string -> Bucket

  function InBucket(b: Bucket, cat: Categorizer): string -> bool {
    c => cat(c) == b
  }

  /** The messages of one section, in their original order. */
  function Section(changes: seq<string>, b: Bucket, cat: Categorizer): seq<string> {
    Tables.Filter(changes, InBucket(b, cat))
  }

  /** Every message lands in exactly one section, as often as it occurs. */
  lemma SectionsPartition(changes: seq<string>, cat: Categorizer)
    ensures multiset(Section(changes, Features, cat)) + multiset(Section(changes, Improvements, cat)) +
            multiset(Section(changes, Fixes, cat)) + multiset(Section(changes, Other, cat)) == multiset(changes)
  {
    var f := Section(changes, Features, cat);
    var i := Section(changes, Improvements, cat);
    var x := Section(changes, Fixes, cat);
    var o := Section(changes, Other, cat);
    forall c ensures (multiset(f) + multiset(i) + multiset(x) + multiset(o))[c] == multiset(changes)[c] {
      assert multiset(f)[c] == if cat(c) == Features then multiset(changes)[c] else 0;
      assert multiset(i)[c] == if cat(c) == Improvements then multiset(changes)[c] else 0;
      assert multiset(x)[c] == if cat(c) == Fixes then multiset(changes)[c] else 0;
      assert multiset(o)[c] == if cat(c) == Other then multiset(changes)[c] else 0;
    }
  }

  // ---------------------------------------------------------------------
  // The changelog entry
  // ---------------------------------------------------------------------

  const FeaturesTitle := "### \U{2728} New Features\n"
  const ImprovementsTitle := "### \U{1F680} Improvements\n"
  const FixesTitle := "### \U{1F41B} Bug Fixes\n"
  const OtherTitle := "### \U{1F4DD} Other Changes\n"

  function EntryHeader(version: string, date: string): string {
    "\n## [" + version + "] - " + date + "\n\n"
  }

  /** `f"- {change}\n"` */
  function Line(change: string): string {
    "- " + change + "\n"
  }

  /** The lines of a section, one per message. */
  function Lines(changes: seq<string>): (s: string)
    decreases |changes|
  {
    if |changes| == 0 then "" else Line(changes[0]) + Lines(changes[1..])
  }

  /** A section with its title and closing blank line, or nothing when it has no messages. */
  function Block(title: string, changes: seq<string>): string {
    if |changes| == 0 then "" else title + Lines(changes) + "\n"
  }

  /** The entry for messages sorted by `cat`: the header, then the non-empty sections in order. */
  function EntryBy(version: string, date: string, changes: seq<string>, cat: Categorizer): string {
    EntryHeader(version, date)
    + Block(FeaturesTitle, Section(changes, Features, cat))
    + Block(ImprovementsTitle, Section(changes, Improvements, cat))
    + Block(FixesTitle, Section(changes, Fixes, cat))
    + Block(OtherTitle, Section(changes, Other, cat))
  }

  /** `generate_changelog_entry`, with `date` the `%Y-%m-%d` date of the call. */
  function ChangelogEntry(version: string, date: string, changes: seq<string>): string {
    EntryBy(version, date, changes, Categorize)
  }

  lemma {:induction false} LinesSplit(changes: seq<string>, k: nat)
    requires k < |changes|
    ensures Lines(changes) == Lines(changes[..k]) + Line(changes[k]) + Lines(changes[k + 1..])
    decreases k
  {
    if k > 0 {
      LinesSplit(changes[1..], k - 1);
      assert changes[1..][..k - 1] == changes[1..k];
      assert changes[1..][k - 1] == changes[k];
      assert changes[1..][k..] == changes[k + 1..];
      assert changes[..k][1..] == changes[1..k];
      assert Lines(changes[..k]) == Line(changes[0]) + Lines(changes[1..k]);
    } else {
      assert changes[..0] == [];
      assert changes[1..] == changes[k + 1..];
    }
  }

  /** Text that contains `n` still contains it with more text after it. */
  lemma {:induction false} InfixAppend(n: string, x: string, b: string)
    requires Text.IsInfix(n, x)
    ensures Text.IsInfix(n, x + b)
    decreases |x|
  {
    if Text.StartsWith(x, n) {
      assert (x + b)[..|n|] == x[..|n|];
    } else {
      assert (x + b)[1..] == x[1..] + b;
      InfixAppend(n, x[1..], b);
    }
  }

  /** Text that contains `n` still contains it with more text around it. */
  lemma {:induction false} InfixWithin(n: string, x: string, a: string, b: string)
    requires Text.IsInfix(n, x)
    ensures Text.IsInfix(n, a + x + b)
    decreases |a|
  {
    if |a| == 0 {
      assert a + x + b == x + b;
      InfixAppend(n, x, b);
    } else {
      assert (a + x + b)[1..] == a[1..] + x + b;
      InfixWithin(n, x, a[1..], b);
    }
  }

  lemma InfixSelf(n: string)
    ensures Text.IsInfix(n, n)
  {
    assert n[..|n|] == n;
  }

  /** Every message of a section is written as one of its lines. */
  lemma BlockLists(title: string, changes: seq<string>, c: string)
    requires c in changes
    ensures Text.IsInfix(Line(c), Block(title, changes))
  {
    var k :| 0 <= k < |changes| && changes[k] == c;
    var n := Line(c);
    LinesSplit(changes, k);
    InfixSelf(n);
    InfixWithin(n, n, Lines(changes[..k]), Lines(changes[k + 1..]));
    InfixWithin(n, Lines(changes), title, "\n");
  }

  /** The block of the section a message belongs to lists it. */
  lemma SectionLists(changes: seq<string>, c: string, cat: Categorizer)
    requires c in changes
    ensures Text.IsInfix(Line(c), Block(TitleOf(cat(c)), Section(changes, cat(c), cat)))
  {
    Tables.FilterMembers(changes, InBucket(cat(c), cat));
    BlockLists(TitleOf(cat(c)), Section(changes, cat(c), cat), c);
  }

  /** The title of each section. */
  function TitleOf(b: Bucket): string {
    match b
    case Features => FeaturesTitle
    case Improvements => ImprovementsTitle
    case Fixes => FixesTitle
    case Other => OtherTitle
  }

  /** Whatever one section's block contains, the entry contains. */
  lemma EntryHoldsBlock(version: string, date: string, changes: seq<string>, cat: Categorizer, b: Bucket, n: string)
    requires Text.IsInfix(n, Block(TitleOf(b), Section(changes, b, cat)))
    ensures Text.IsInfix(n, EntryBy(version, date, changes, cat))
  {
    var h := EntryHeader(version, date);
    var bf := Block(FeaturesTitle, Section(changes, Features, cat));
    var bi := Block(ImprovementsTitle, Section(changes, Improvements, cat));
    var bx := Block(FixesTitle, Section(changes, Fixes, cat));
    var bo := Block(OtherTitle, Section(changes, Other, cat));
    var e := EntryBy(version, date, changes, cat);
    match b
    case Features =>
      InfixWithin(n, bf, h, "");
      assert h + bf + "" == h + bf;
      InfixAppend(n, h + bf, bi);
      InfixAppend(n, h + bf + bi, bx);
      InfixAppend(n, h + bf + bi + bx, bo);
    case Improvements =>
      InfixWithin(n, bi, h + bf, "");
      assert h + bf + bi + "" == h + bf + bi;
      InfixAppend(n, h + bf + bi, bx);
      InfixAppend(n, h + bf + bi + bx, bo);
    case Fixes =>
      InfixWithin(n, bx, h + bf + bi, "");
      assert h + bf + bi + bx + "" == h + bf + bi + bx;
      InfixAppend(n, h + bf + bi + bx, bo);
    case Other =>
      InfixWithin(n, bo, h + bf + bi + bx, "");
      assert h + bf + bi + bx + bo + "" == e;
  }

  /** The entry opens with its header. */
  lemma EntryStartsWithHeader(version: string, date: string, changes: seq<string>, cat: Categorizer)
    ensures Text.StartsWith(EntryBy(version, date, changes, cat), EntryHeader(version, date))
  {
    var h := EntryHeader(version, date);
    var e := EntryBy(version, date, changes, cat);
    assert e[..|h|] == h;
  }

  /**
   * The changelog entry opens with its header and lists every message on a
   * line of its own, in the block of its section; the sections together
   * hold every message exactly as often as it was given.
   */
  lemma EntryListsEveryChange(version: string, date: string, changes: seq<string>, c: string)
    requires c in changes
    ensures Text.StartsWith(ChangelogEntry(version, date, changes), EntryHeader(version, date))
    ensures Text.IsInfix(Line(c), ChangelogEntry(version, date, changes))
    ensures Text.IsInfix(Line(c), Block(TitleOf(Categorize(c)), Section(changes, Categorize(c), Categorize)))
  {
    EntryStartsWithHeader(version, date, changes, Categorize);
    SectionLists(changes, c, Categorize);
    EntryHoldsBlock(version, date, changes, Categorize, Categorize(c), Line(c));
  }

  /** With no messages the entry is its header alone. */
  lemma EntryWithoutChanges(version: string, date: string)
    ensures EntryBy(version, date, [], Categorize) == EntryHeader(version, date)
  {
  }

  // ---------------------------------------------------------------------
  // Splicing the entry into the changelog
  // ---------------------------------------------------------------------

  predicate IsRelease(line: string) {
    Text.StartsWith(line, "## [")
  }

  predicate IsTitle(line: string) {
    Text.StartsWith(line, Title)
  }

  /** None of the first `n` lines is a release heading or the changelog title. */
  predicate NoMarkerBefore(lines: seq<string>, n: nat)
    requires n <= |lines|
  {
    forall j :: 0 <= j < n ==> !IsRelease(lines[j]) && !IsTitle(lines[j])
  }

  /** The index of the first line that is a release heading or the changelog title. */
  function FirstMarker(lines: seq<string>): (r: Option<nat>)
    ensures r.Some? ==> r.value < |lines| && (IsRelease(lines[r.value]) || IsTitle(lines[r.value]))
    ensures r.Some? ==> forall j :: 0 <= j < r.value ==> !IsRelease(lines[j]) && !IsTitle(lines[j])
    ensures r.None? ==> forall j :: 0 <= j < |lines| ==> !IsRelease(lines[j]) && !IsTitle(lines[j])
    decreases |lines|
  {
    if |lines| == 0 then None
    else if IsRelease(lines[0]) || IsTitle(lines[0]) then Some(0)
    else
      match FirstMarker(lines[1..])
      case None => None
      case Some(i) => Some(i + 1)
  }

  /**
   * `header_end`: right after the first title line, or right before the
   * first release heading, whichever comes first; 0 without either.
   */
  function HeaderEnd(lines: seq<string>): (h: nat)
    ensures h <= |lines|
    ensures
      (h > 0 && IsTitle(lines[h - 1]) && NoMarkerBefore(lines, h - 1)) ||
      (h < |lines| && IsRelease(lines[h]) && NoMarkerBefore(lines, h)) ||
      (h == 0 && NoMarkerBefore(lines, |lines|))
  {
    match FirstMarker(lines)
    case None => 0
    case Some(i) => if IsTitle(lines[i]) then i + 1 else i
  }

  const Title := "# Changelog"
  const Preamble := Title + "\n\nAll notable changes to the Energy Adjustment Calculator will be documented in this file.\n"

  function LinesOf(content: string): seq<string> {
    Text.Split(content, '\n')
  }

  /** The text before the insertion point. */
  function Before(content: string): string {
    var lines := LinesOf(content);
    Text.Join(lines[..HeaderEnd(lines)], '\n')
  }

  /** The text after the insertion point. */
  function After(content: string): string {
    var lines := LinesOf(content);
    Text.Join(lines[HeaderEnd(lines)..], '\n')
  }

  /** `update_changelog`: the new file text, given the old one if the file exists. */
  function UpdateChangelog(existing: Option<string>, entry: string): string {
    match existing
    case None => Preamble + entry
    case Some(content) => Before(content) + entry + After(content)
  }

  /**
   * The old text is exactly the part before the insertion point and the
   * part after it, rejoined at the newline that separated them (there is
   * no such newline when either part is empty of lines), so the update
   * keeps every existing line, in order.
   */
  lemma SpliceKeepsContent(content: string, entry: string)
    ensures UpdateChangelog(Some(content), entry) == Before(content) + entry + After(content)
    ensures
      var lines := LinesOf(content);
      var h := HeaderEnd(lines);
      content == if h == 0 then After(content)
                 else if h == |lines| then Before(content)
                 else Before(content) + "\n" + After(content)
  {
    var lines := LinesOf(content);
    var h := HeaderEnd(lines);
    if h == 0 {
      assert lines[h..] == lines;
    } else if h == |lines| {
      assert lines[..h] == lines;
    } else {
      Text.JoinSplitAt(lines, '\n', h);
    }
  }

  /** A new changelog is the fixed preamble followed by the entry. */
  lemma NewChangelog(entry: string)
    ensures IsTitle(UpdateChangelog(None, entry))
    ensures Text.StartsWith(UpdateChangelog(None, entry), Preamble)
  {
    var s := UpdateChangelog(None, entry);
    assert s[..|Preamble|] == Preamble;
    assert s == Title + (Preamble[|Title|..] + entry);
    assert s[..|Title|] == Title;
  }
}
