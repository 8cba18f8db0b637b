/**
 * The decisions of the auto-updater, without its network, file and dialog
 * plumbing: how two version strings compare, how the saved configuration is
 * merged with its defaults, when an update check is due, when a release is
 * offered, and which backup archives are deleted.
 */
module Updater {
  import opened Wrappers
  import Text
  import Tables
  import Versions
  import Numerals

  // ---------------------------------------------------------------------
  // Version keys: the Python tuples `version_tuple` builds
  // ---------------------------------------------------------------------

  /** One entry of a version tuple: an `int`, or the whole `dev-` string. */
  datatype Elem = Num(n: int) | Tag(s: string)

  const TypeError := "TypeError: '<' not supported between instances of 'int' and 'str'"

  /** Python's `<` on two strings: code point by code point, a proper prefix first. */
  predicate StrLess(s: string, t: string) {
    s != t && Tables.LexLe(Tables.Codes(s), Tables.Codes(t))
  }

  /** Python's `<` on two entries; an `int` against a `str` raises. */
  function ElemLess(x: Elem, y: Elem): Result<bool> {
    if x.Num? && y.Num? then Ok(x.n < y.n)
    else if x.Tag? && y.Tag? then Ok(StrLess(x.s, y.s))
    else Err(TypeError)
  }

  /**
   * Python's `<` on two tuples: the first position where the entries differ
   * decides, and when one tuple runs out first the shorter one is smaller.
   */
  function TupleLess(a: seq<Elem>, b: seq<Elem>): Result<bool>
    decreases |a|
  {
    if |a| == 0 || |b| == 0 then Ok(|a| < |b|)
    else if a[0] == b[0] then TupleLess(a[1..], b[1..])
    else ElemLess(a[0], b[0])
  }

  /** A tuple of integers. */
  function Nums(ns: seq<int>): (es: seq<Elem>)
    ensures |es| == |ns|
    ensures forall i :: 0 <= i < |ns| ==> es[i] == Num(ns[i])
  {
    seq(|ns|, i requires 0 <= i < |ns| => Num(ns[i]))
  }

  predicate IsDev(v: string) {
    Text.StartsWith(v, "dev-")
  }

  /** The integers of a release string, or `(0, 0, 0)` when `int()` raises on a piece. */
  function NumericKey(v: string): seq<int> {
    match Versions.Numbers(v)
    case Some(ns) => ns
    case None => [0, 0, 0]
  }

  /** `version_tuple(v)` */
  function KeyOf(v: string): seq<Elem> {
    if IsDev(v) then Nums([0, 0, 0]) + [Tag(v)] else Nums(NumericKey(v))
  }

  /**
   * `compare_versions` as written: `-1` when the first tuple is smaller,
   * `1` when it is larger, `0` otherwise; a `TypeError` from either
   * comparison escapes.
   */
  function CompareVersions(v1: string, v2: string): Result<int> {
    var a := KeyOf(v1);
    var b := KeyOf(v2);
    match TupleLess(a, b)
    case Err(e) => Err(e)
    case Ok(lt) =>
      if lt then Ok(-1)
      else
        match TupleLess(b, a)
        case Err(e) => Err(e)
        case Ok(gt) => Ok(if gt then 1 else 0)
  }

  // ---------------------------------------------------------------------
  // Properties of the tuple order
  // ---------------------------------------------------------------------

  lemma {:induction false} StrLessTrichotomy(s: string, t: string)
    ensures s == t || StrLess(s, t) || StrLess(t, s)
    ensures !(StrLess(s, t) && StrLess(t, s))
  {
    Tables.LexLeTotal(Tables.Codes(s), Tables.Codes(t));
    if Tables.LexLe(Tables.Codes(s), Tables.Codes(t)) && Tables.LexLe(Tables.Codes(t), Tables.Codes(s)) {
      Tables.LexLeAntisymmetric(Tables.Codes(s), Tables.Codes(t));
      Tables.CodesInjective(s, t);
    }
  }

  lemma ElemLessAsymmetric(x: Elem, y: Elem)
    requires x != y
    ensures ElemLess(x, y).Err? <==> ElemLess(y, x).Err?
    ensures ElemLess(x, y).Ok? ==> ElemLess(y, x) == Ok(!ElemLess(x, y).value)
  {
    if x.Tag? && y.Tag? {
      StrLessTrichotomy(x.s, y.s);
    }
  }

  /**
   * The tuple order never holds both ways, raises the same way in both
   * directions, and holds neither way only between equal tuples.
   */
  lemma {:induction false} TupleLessAsymmetric(a: seq<Elem>, b: seq<Elem>)
    ensures TupleLess(a, b).Err? <==> TupleLess(b, a).Err?
    ensures TupleLess(a, b) == Ok(true) ==> TupleLess(b, a) == Ok(false)
    ensures TupleLess(a, b) == Ok(false) && TupleLess(b, a) == Ok(false) ==> a == b
    decreases |a|
  {
    if |a| > 0 && |b| > 0 {
      if a[0] == b[0] {
        TupleLessAsymmetric(a[1..], b[1..]);
        if a[1..] == b[1..] {
          assert a == [a[0]] + a[1..] && b == [b[0]] + b[1..];
        }
      } else {
        ElemLessAsymmetric(a[0], b[0]);
      }
    }
  }

  lemma {:induction false} TupleLessIrreflexive(a: seq<Elem>)
    ensures TupleLess(a, a) == Ok(false)
    decreases |a|
  {
    if |a| > 0 {
      TupleLessIrreflexive(a[1..]);
    }
  }

  /** On integer tuples the order is the lexicographic one and never raises. */
  lemma {:induction false} NumericLess(a: seq<int>, b: seq<int>)
    ensures TupleLess(Nums(a), Nums(b)) == Ok(a != b && Tables.LexLe(a, b))
    decreases |a|
  {
    if |a| > 0 && |b| > 0 {
      NumericLess(a[1..], b[1..]);
      assert Nums(a)[1..] == Nums(a[1..]);
      assert Nums(b)[1..] == Nums(b[1..]);
      if a[0] == b[0] {
        assert a != b <==> a[1..] != b[1..] by {
          assert a == [a[0]] + a[1..] && b == [b[0]] + b[1..];
        }
      }
    }
  }

  lemma NumsAppend(a: seq<int>, b: seq<int>)
    ensures Nums(a + b) == Nums(a) + Nums(b)
  {
  }

  /** A shared prefix does not change how two tuples compare. */
  lemma {:induction false} TupleLessPrefix(p: seq<Elem>, a: seq<Elem>, b: seq<Elem>)
    ensures TupleLess(p + a, p + b) == TupleLess(a, b)
    decreases |p|
  {
    if |p| > 0 {
      assert (p + a)[0] == p[0] == (p + b)[0];
      assert (p + a)[1..] == p[1..] + a;
      assert (p + b)[1..] == p[1..] + b;
      TupleLessPrefix(p[1..], a, b);
    } else {
      assert p + a == a && p + b == b;
    }
  }

  // ---------------------------------------------------------------------
  // Properties of compare_versions as written
  // ---------------------------------------------------------------------

  /** A version compares equal to itself. */
  lemma CompareReflexive(v: string)
    ensures CompareVersions(v, v) == Ok(0)
  {
    TupleLessIrreflexive(KeyOf(v));
  }

  /** Swapping the arguments negates the answer, and raises exactly when the other order raises. */
  lemma CompareAntisymmetric(v1: string, v2: string)
    ensures CompareVersions(v1, v2).Err? <==> CompareVersions(v2, v1).Err?
    ensures CompareVersions(v1, v2).Ok? ==> CompareVersions(v2, v1) == Ok(-CompareVersions(v1, v2).value)
    ensures CompareVersions(v1, v2) == Ok(0) <==> KeyOf(v1) == KeyOf(v2)
  {
    TupleLessAsymmetric(KeyOf(v1), KeyOf(v2));
    TupleLessIrreflexive(KeyOf(v1));
  }

  /** The order of two release strings: lexicographic on their integer pieces. */
  function LexSign(a: seq<int>, b: seq<int>): int {
    if a == b then 0 else if Tables.LexLe(a, b) then -1 else 1
  }

  /** Between two release strings the answer is the lexicographic order of their integers. */
  lemma CompareReleases(v1: string, v2: string)
    requires !IsDev(v1) && !IsDev(v2)
    ensures CompareVersions(v1, v2) == Ok(LexSign(NumericKey(v1), NumericKey(v2)))
  {
    var a := NumericKey(v1);
    var b := NumericKey(v2);
    NumericLess(a, b);
    NumericLess(b, a);
    if a != b && !Tables.LexLe(a, b) {
      Tables.LexLeTotal(a, b);
    }
  }

  /** The release "0.0.0". */
  function Zero(): string {
    Versions.Format(Versions.Triple(0, 0, 0))
  }

  lemma ZeroText()
    ensures Zero() == "0.0.0"
  {
  }

  /** A string that is neither a release nor a `dev-` build gets the tuple of "0.0.0". */
  lemma UnparsableKey(v: string)
    requires !IsDev(v) && Versions.Numbers(v).None?
    ensures KeyOf(v) == KeyOf(Zero())
  {
    ZeroKey();
  }

  /** So it compares like "0.0.0" against every version. */
  lemma UnparsableIsZero(v: string, w: string)
    requires !IsDev(v) && Versions.Numbers(v).None?
    ensures CompareVersions(v, w) == CompareVersions(Zero(), w)
  {
    UnparsableKey(v);
    CompareByKey(v, Zero(), w);
  }

  /** The comparison sees a version only through its tuple. */
  lemma CompareByKey(v: string, u: string, w: string)
    requires KeyOf(v) == KeyOf(u)
    ensures CompareVersions(v, w) == CompareVersions(u, w)
  {
  }

  lemma ZeroKey()
    ensures KeyOf(Zero()) == Nums([0, 0, 0])
  {
    KeyOfTriple(Versions.Triple(0, 0, 0));
  }

  /** A written version starts with a digit or a minus sign, so it is never a dev build. */
  lemma FormatNotDev(t: Versions.Triple)
    ensures !IsDev(Versions.Format(t))
  {
    var s := Versions.Format(t);
    var m := Numerals.IntToString(t.major);
    assert m[0] == '-' || Numerals.IsDigit(m[0]);
    assert s[0] == m[0];
    assert "dev-"[0] == 'd';
  }

  lemma KeyOfTriple(t: Versions.Triple)
    ensures !IsDev(Versions.Format(t))
    ensures NumericKey(Versions.Format(t)) == [t.major, t.minor, t.patch]
  {
    FormatNotDev(t);
    Versions.ParseFormat(t);
  }

  /** The comparisons the project's own tests assert for release strings. */
  lemma CompareExamples()
    ensures CompareVersions("1.0.0", "1.0.1") == Ok(-1)
    ensures CompareVersions("1.1.0", "1.0.0") == Ok(1)
    ensures CompareVersions("1.0.0", "1.0.0") == Ok(0)
  {
    var t100 := Versions.Triple(1, 0, 0);
    var t101 := Versions.Triple(1, 0, 1);
    var t110 := Versions.Triple(1, 1, 0);
    Versions.FormatDigits(1, 0, 0);
    Versions.FormatDigits(1, 0, 1);
    Versions.FormatDigits(1, 1, 0);
    KeyOfTriple(t100);
    KeyOfTriple(t101);
    KeyOfTriple(t110);
    CompareReleases("1.0.0", "1.0.1");
    CompareReleases("1.1.0", "1.0.0");
    CompareReflexive("1.0.0");
    assert Tables.LexLe([1, 0, 0], [1, 0, 1]);
    assert !Tables.LexLe([1, 1, 0], [1, 0, 0]);
  }

  /**
   * As written, a `dev-` build sorts as `(0, 0, 0, v)`, so every release
   * whose first number is positive counts as newer than any `dev-` build.
   */
  lemma DevOlderAsWritten(v: string, d: string)
    requires !IsDev(v) && IsDev(d)
    requires |NumericKey(v)| > 0 && NumericKey(v)[0] > 0
    ensures CompareVersions(v, d) == Ok(1)
  {
    var a := Nums(NumericKey(v));
    var b := KeyOf(d);
    assert b[0] == Num(0);
    assert a[0] != b[0];
    CompareAntisymmetric(v, d);
    assert TupleLess(b, a) == Ok(true);
  }

  /** The project's test expects -1 here; as written the answer is 1. */
  lemma DevExample()
    ensures CompareVersions("1.0.0", "dev-abc123") == Ok(1)
  {
    var t := Versions.Triple(1, 0, 0);
    Versions.FormatDigits(1, 0, 0);
    KeyOfTriple(t);
    assert IsDev("dev-abc123");
    DevOlderAsWritten("1.0.0", "dev-abc123");
  }

  /** As written, a four-number release starting with three zeros cannot be compared with a `dev-` build. */
  lemma DevTypeError(v: string, d: string)
    requires !IsDev(v) && IsDev(d)
    requires |NumericKey(v)| >= 4 && NumericKey(v)[..3] == [0, 0, 0]
    ensures CompareVersions(v, d).Err?
  {
    var ns := NumericKey(v);
    var p := Nums([0, 0, 0]);
    var rest := Nums(ns[3..]);
    assert KeyOf(v) == p + rest by {
      assert ns == ns[..3] + ns[3..];
      NumsAppend(ns[..3], ns[3..]);
    }
    TupleLessPrefix(p, rest, [Tag(d)]);
    TupleLessPrefix(p, [Tag(d)], rest);
    assert ElemLess(rest[0], Tag(d)).Err?;
    assert TupleLess(KeyOf(v), KeyOf(d)).Err?;
  }

  // ---------------------------------------------------------------------
  // The comparison the comment intends: a dev build is always newer
  // ---------------------------------------------------------------------

  /**
   * `compare_versions` as its comment describes it: any `dev-` build is
   * newer than any release, two `dev-` builds compare as strings, two
   * releases compare by their integers.
   */
  function Compare(v1: string, v2: string): (r: int)
    ensures -1 <= r <= 1
  {
    if IsDev(v1) && IsDev(v2) then (if v1 == v2 then 0 else if StrLess(v1, v2) then -1 else 1)
    else if IsDev(v1) then 1
    else if IsDev(v2) then -1
    else LexSign(NumericKey(v1), NumericKey(v2))
  }

  /** The intended order differs from the written one only between a release and a dev build. */
  lemma CompareAgrees(v1: string, v2: string)
    requires IsDev(v1) == IsDev(v2)
    ensures CompareVersions(v1, v2) == Ok(Compare(v1, v2))
  {
    if IsDev(v1) {
      var p := Nums([0, 0, 0]);
      TupleLessPrefix(p, [Tag(v1)], [Tag(v2)]);
      TupleLessPrefix(p, [Tag(v2)], [Tag(v1)]);
      StrLessTrichotomy(v1, v2);
      assert [Tag(v1)][1..] == [] && [Tag(v2)][1..] == [];
    } else {
      CompareReleases(v1, v2);
    }
  }

  /** Every dev build is newer than every release. */
  lemma DevNewest(v: string, d: string)
    requires !IsDev(v) && IsDev(d)
    ensures Compare(v, d) == -1 && Compare(d, v) == 1
  {
  }

  lemma {:induction false} LexSignAntisymmetric(a: seq<int>, b: seq<int>)
    ensures LexSign(b, a) == -LexSign(a, b)
  {
    Tables.LexLeTotal(a, b);
    if Tables.LexLe(a, b) && Tables.LexLe(b, a) {
      Tables.LexLeAntisymmetric(a, b);
    }
  }

  /** The intended comparison is an order: reflexive, antisymmetric and transitive. */
  lemma CompareOrder(v1: string, v2: string, v3: string)
    ensures Compare(v1, v1) == 0
    ensures Compare(v2, v1) == -Compare(v1, v2)
    ensures Compare(v1, v2) <= 0 && Compare(v2, v3) <= 0 ==> Compare(v1, v3) <= 0
  {
    LexSignAntisymmetric(NumericKey(v1), NumericKey(v2));
    StrLessTrichotomy(v1, v2);
    if Compare(v1, v2) <= 0 && Compare(v2, v3) <= 0 {
      if IsDev(v1) && IsDev(v2) && IsDev(v3) {
        var a := Tables.Codes(v1);
        var b := Tables.Codes(v2);
        var c := Tables.Codes(v3);
        if v1 != v2 && v2 != v3 {
          Tables.LexLeTransitive(a, b, c);
          StrLessTrichotomy(v1, v3);
        }
      } else if !IsDev(v1) && !IsDev(v2) && !IsDev(v3) {
        var a := NumericKey(v1);
        var b := NumericKey(v2);
        var c := NumericKey(v3);
        if a != b && b != c {
          Tables.LexLeTransitive(a, b, c);
        }
      }
    }
  }

  // ---------------------------------------------------------------------
  // The configuration file
  // ---------------------------------------------------------------------

  /** A JSON value as `json.load` returns it; nested values only matter through their size. */
  datatype Json = JNull | JBool(b: bool) | JNum(x: real) | JStr(s: string) | JCollection(size: nat)

  /** Python truthiness of a JSON value. */
  predicate Truthy(j: Json) {
    match j
    case JNull => false
    case JBool(b) => b
    case JNum(x) => x != 0.0
    case JStr(s) => |s| > 0
    case JCollection(n) => n > 0
  }

  type Config = map<string, Json>

  datatype Setting = Setting(key: string, value: Json)

  /** `default_config`, in its written order. */
  const Defaults: seq<Setting> := [
    Setting("auto_check", JBool(true)),
    Setting("last_check", JNull),
    Setting("update_channel", JStr("stable")),
    Setting("backup_enabled", JBool(true)),
    Setting("silent_updates", JBool(false)),
    Setting("check_interval_hours", JNum(24.0))
  ]

  /** The dictionary a list of settings builds, the first of two equal keys winning. */
  function SettingsMap(ds: seq<Setting>): Config
    decreases |ds|
  {
    if |ds| == 0 then map[] else SettingsMap(ds[1..])[ds[0].key := ds[0].value]
  }

  /** The defaults as a dictionary. */
  function DefaultConfig(): Config {
    SettingsMap(Defaults)
  }

  /** The merge loop: every default whose key is missing is added, present keys are left alone. */
  function Merge(cfg: Config, ds: seq<Setting>): Config
    decreases |ds|
  {
    if |ds| == 0 then cfg
    else
      var d := ds[0];
      Merge(if d.key in cfg then cfg else cfg[d.key := d.value], ds[1..])
  }

  /** The merge is the defaults overlaid with the loaded document. */
  lemma {:induction false} MergeIsOverlay(cfg: Config, ds: seq<Setting>)
    ensures Merge(cfg, ds) == SettingsMap(ds) + cfg
    decreases |ds|
  {
    if |ds| > 0 {
      var d := ds[0];
      var next := if d.key in cfg then cfg else cfg[d.key := d.value];
      MergeIsOverlay(next, ds[1..]);
      var m := SettingsMap(ds[1..]);
      assert SettingsMap(ds) == m[d.key := d.value];
      forall k ensures k in m + next <==> k in m[d.key := d.value] + cfg {
      }
      forall k | k in m + next ensures (m + next)[k] == (m[d.key := d.value] + cfg)[k] {
      }
      assert m + next == m[d.key := d.value] + cfg;
    }
  }

  /** The document a configuration file holds, if it could be read. */
  datatype Document = Object(fields: Config) | NotObject
  datatype ConfigFile = Absent | Unreadable | Loaded(doc: Document)

  /**
   * `load_config`: a readable JSON object gets every missing default key
   * added; a missing file, a read or parse error, or a document the merge
   * fails on gives the defaults.
   */
  function LoadConfig(f: ConfigFile): (c: Config)
    ensures forall k :: k in DefaultConfig() ==> k in c
    ensures f.Loaded? && f.doc.Object? ==>
      forall k :: k in f.doc.fields ==> k in c && c[k] == f.doc.fields[k]
    ensures forall k :: k in c && !(f.Loaded? && f.doc.Object? && k in f.doc.fields) ==>
      k in DefaultConfig() && c[k] == DefaultConfig()[k]
    ensures !(f.Loaded? && f.doc.Object?) ==> c == DefaultConfig()
  {
    if f.Loaded? && f.doc.Object? then
      MergeIsOverlay(f.doc.fields, Defaults);
      Merge(f.doc.fields, Defaults)
    else DefaultConfig()
  }

  /** The default configuration holds the values the source lists. */
  lemma DefaultValues()
    ensures DefaultConfig() == map[
      "auto_check" := JBool(true), "last_check" := JNull, "update_channel" := JStr("stable"),
      "backup_enabled" := JBool(true), "silent_updates" := JBool(false),
      "check_interval_hours" := JNum(24.0)]
  {
    var m5 := map["check_interval_hours" := JNum(24.0)];
    var m4 := m5["silent_updates" := JBool(false)];
    var m3 := m4["backup_enabled" := JBool(true)];
    var m2 := m3["update_channel" := JStr("stable")];
    var m1 := m2["last_check" := JNull];
    assert Defaults[5..][1..] == [];
    assert SettingsMap(Defaults[5..]) == m5;
    assert Defaults[4..][1..] == Defaults[5..];
    assert SettingsMap(Defaults[4..]) == m4;
    assert Defaults[3..][1..] == Defaults[4..];
    assert SettingsMap(Defaults[3..]) == m3;
    assert Defaults[2..][1..] == Defaults[3..];
    assert SettingsMap(Defaults[2..]) == m2;
    assert Defaults[1..][1..] == Defaults[2..];
    assert SettingsMap(Defaults[1..]) == m1;
  }

  // ---------------------------------------------------------------------
  // When a check is due
  // ---------------------------------------------------------------------

  const KeyError := "KeyError: 'auto_check'"

  /**
   * `timedelta(hours=config["check_interval_hours"])`: a number, or a
   * boolean counted as 0 or 1; anything else, or a missing key, raises.
   */
  function IntervalHours(cfg: Config): Option<real> {
    if "check_interval_hours" !in cfg then None
    else
      match cfg["check_interval_hours"]
      case JNum(x) => Some(x)
      case JBool(b) => Some(if b then 1.0 else 0.0)
      case _ => None
  }

  /** The time of the last check, in seconds, when one is recorded and reads as an ISO date-time. */
  function LastCheck(cfg: Config, readIso: string -> Option<real>): Option<real> {
    if "last_check" !in cfg then None
    else
      var j := cfg["last_check"];
      if Truthy(j) && j.JStr? then readIso(j.s) else None
  }

  /**
   * `should_check_for_updates` at time `now` (seconds): `auto_check` off
   * means no; otherwise yes unless a readable last check and interval say
   * that less than the interval has passed. Every error inside the `try`
   * means yes; a missing `auto_check` raises.
   */
  function ShouldCheck(cfg: Config, now: real, readIso: string -> Option<real>): (r: Result<bool>)
    ensures r.Err? <==> "auto_check" !in cfg
    ensures r == Ok(false) <==>
      "auto_check" in cfg &&
      (!Truthy(cfg["auto_check"]) ||
       (LastCheck(cfg, readIso).Some? && IntervalHours(cfg).Some? &&
        now - LastCheck(cfg, readIso).value <= IntervalHours(cfg).value * 3600.0))
  {
    if "auto_check" !in cfg then Err(KeyError)
    else if !Truthy(cfg["auto_check"]) then Ok(false)
    else
      var last := if "last_check" in cfg then cfg["last_check"] else JNull;
      if !Truthy(last) || !last.JStr? then Ok(true)
      else
        match readIso(last.s)
        case None => Ok(true)
        case Some(t) =>
          match IntervalHours(cfg)
          case None => Ok(true)
          case Some(h) => Ok(now - t > h * 3600.0)
  }

  /** A loaded configuration always has `auto_check`, so the decision never raises. */
  lemma LoadedNeverRaises(f: ConfigFile, now: real, readIso: string -> Option<real>)
    ensures ShouldCheck(LoadConfig(f), now, readIso).Ok?
  {
    DefaultValues();
  }

  /** On first run, with no configuration file, a check is due. */
  lemma FirstRunChecks(now: real, readIso: string -> Option<real>)
    ensures ShouldCheck(LoadConfig(Absent), now, readIso) == Ok(true)
  {
    DefaultValues();
  }

  /** Turning `auto_check` off stops every check. */
  lemma AutoCheckOff(cfg: Config, now: real, readIso: string -> Option<real>)
    ensures ShouldCheck(cfg["auto_check" := JBool(false)], now, readIso) == Ok(false)
  {
  }

  /** Once a check is due it stays due as time goes on. */
  lemma DueStaysDue(cfg: Config, now: real, later: real, readIso: string -> Option<real>)
    requires ShouldCheck(cfg, now, readIso) == Ok(true) && now <= later
    ensures ShouldCheck(cfg, later, readIso) == Ok(true)
  {
  }

  // ---------------------------------------------------------------------
  // Whether a release is offered
  // ---------------------------------------------------------------------

  /** The facts about the latest release the decision uses. */
  datatype Info = Info(version: string, name: string)

  datatype Checked = Checked(offer: Option<Info>, config: Config)

  /**
   * The decision in `check_for_updates`: offline or without release
   * information nothing happens; otherwise the check time is recorded and
   * the release is offered when the current version is older. The
   * comparison is the intended one, `Compare`.
   */
  function CheckForUpdates(current: string, cfg: Config, online: bool, latest: Option<Info>, stamp: string): (c: Checked)
    ensures c.offer.Some? ==> online && c.offer == latest
    ensures online && latest.Some? ==> c.config == cfg["last_check" := JStr(stamp)]
    ensures !(online && latest.Some?) ==> c == Checked(None, cfg)
  {
    if !online || latest.None? then Checked(None, cfg)
    else
      var recorded := cfg["last_check" := JStr(stamp)];
      if Compare(current, latest.value.version) < 0 then Checked(latest, recorded)
      else Checked(None, recorded)
  }

  /** A release is offered exactly when it is strictly newer than the running version. */
  lemma OfferedIsNewer(current: string, cfg: Config, info: Info, stamp: string)
    ensures CheckForUpdates(current, cfg, true, Some(info), stamp).offer.Some? <==>
      Compare(info.version, current) == 1
  {
    CompareOrder(current, info.version, current);
  }

  /** The running version itself is never offered. */
  lemma NoSelfOffer(current: string, cfg: Config, name: string, stamp: string)
    ensures CheckForUpdates(current, cfg, true, Some(Info(current, name)), stamp).offer.None?
  {
    CompareOrder(current, current, current);
  }

  /** Between two releases, or two dev builds, the decision is the one the written comparison makes. */
  lemma OfferAsWritten(current: string, cfg: Config, info: Info, stamp: string)
    requires IsDev(current) == IsDev(info.version)
    ensures CheckForUpdates(current, cfg, true, Some(info), stamp).offer.Some? <==>
      CompareVersions(current, info.version) == Ok(-1)
  {
    CompareAgrees(current, info.version);
  }

  /** A check just recorded is not due again while the interval has not passed. */
  lemma RecordedNotDue(current: string, cfg: Config, info: Info, stamp: string, now: real, later: real,
                       readIso: string -> Option<real>)
    requires "auto_check" in cfg && Truthy(cfg["auto_check"])
    requires |stamp| > 0 && readIso(stamp) == Some(now)
    requires IntervalHours(cfg).Some? && now <= later <= now + IntervalHours(cfg).value * 3600.0
    ensures ShouldCheck(CheckForUpdates(current, cfg, true, Some(info), stamp).config, later, readIso) == Ok(false)
  {
    var c := CheckForUpdates(current, cfg, true, Some(info), stamp).config;
    assert IntervalHours(c) == IntervalHours(cfg);
    assert LastCheck(c, readIso) == Some(now);
  }

  /** `tag_name.lstrip('v')`: every leading `v` removed. */
  function StripV(tag: string): (v: string)
    ensures |v| <= |tag| && v == tag[|tag| - |v|..]
    ensures |v| > 0 ==> v[0] != 'v'
    ensures forall i :: 0 <= i < |tag| - |v| ==> tag[i] == 'v'
    decreases |tag|
  {
    if |tag| > 0 && tag[0] == 'v' then StripV(tag[1..]) else tag
  }

  // ---------------------------------------------------------------------
  // Backup retention
  // ---------------------------------------------------------------------

  predicate EndsWith(s: string, suffix: string) {
    |suffix| <= |s| && s[|s| - |suffix|..] == suffix
  }

  /** A name the pattern `backup_*.zip` matches. */
  predicate IsBackup(name: string) {
    |name| >= 11 && Text.StartsWith(name, "backup_") && EndsWith(name, ".zip")
  }

  /** `f"backup_{version}_{timestamp}.zip"` */
  function BackupName(version: string, stamp: string): string {
    "backup_" + version + "_" + stamp + ".zip"
  }

  /** Every archive the updater writes is one the retention step counts. */
  lemma BackupNameMatches(version: string, stamp: string)
    ensures IsBackup(BackupName(version, stamp))
  {
    var n := BackupName(version, stamp);
    assert n[..7] == "backup_";
    assert n[|n| - 4..] == ".zip";
  }

  const KeepLast := 5

  /** `sorted(backup_dir.glob("backup_*.zip"))`, by name. */
  function SortedBackups(names: seq<string>): seq<string> {
    Tables.SortBy(Tables.Filter(names, IsBackup), Tables.Codes)
  }

  /** `backups[:-5]` when there are more than five: the archives deleted. */
  function Stale(names: seq<string>): seq<string> {
    var b := SortedBackups(names);
    if |b| > KeepLast then b[..|b| - KeepLast] else []
  }

  /** The archives left in place. */
  function Kept(names: seq<string>): seq<string> {
    var b := SortedBackups(names);
    if |b| > KeepLast then b[|b| - KeepLast..] else b
  }

  /** Retention deletes only backups the directory holds. */
  lemma StaleAreBackups(names: seq<string>)
    ensures forall s :: s in Stale(names) ==> s in names && IsBackup(s)
  {
    var b := SortedBackups(names);
    Tables.FilterMembers(names, IsBackup);
    forall s | s in Stale(names) ensures s in names && IsBackup(s) {
      assert s in multiset(b);
    }
  }

  /** Deleted and kept archives together are every backup, and at most five are kept. */
  lemma RetentionCounts(names: seq<string>)
    ensures multiset(Stale(names)) + multiset(Kept(names)) == multiset(Tables.Filter(names, IsBackup))
    ensures |Kept(names)| == if |Tables.Filter(names, IsBackup)| > KeepLast then KeepLast else |Tables.Filter(names, IsBackup)|
  {
    var b := SortedBackups(names);
    assert b == Stale(names) + Kept(names);
  }

  /** Every kept name sorts after every deleted one: the five largest names survive. */
  lemma RetentionOrder(names: seq<string>)
    ensures forall i, j :: 0 <= i < |Stale(names)| && 0 <= j < |Kept(names)| ==>
      Tables.LexLe(Tables.Codes(Stale(names)[i]), Tables.Codes(Kept(names)[j]))
  {
    var b := SortedBackups(names);
    if |b| > KeepLast {
      SortedSplit(b, |b| - KeepLast);
    }
  }

  /** In a table sorted by name, every name before a cut sorts before every name after it. */
  lemma SortedSplit(b: seq<string>, n: nat)
    requires n <= |b| && Tables.SortedBy(b, Tables.Codes)
    ensures forall i, j :: 0 <= i < |b[..n]| && 0 <= j < |b[n..]| ==>
      Tables.LexLe(Tables.Codes(b[..n][i]), Tables.Codes(b[n..][j]))
  {
    forall i, j | 0 <= i < |b[..n]| && 0 <= j < |b[n..]|
      ensures Tables.LexLe(Tables.Codes(b[..n][i]), Tables.Codes(b[n..][j]))
    {
      assert b[..n][i] == b[i] && b[n..][j] == b[n + j];
    }
  }
}
