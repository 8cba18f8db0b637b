/**
 * Dotted version strings as both release utilities read and write them:
 * `map(int, v.split('.'))` and `f"{major}.{minor}.{patch}"`.
 */
module Versions {
  import opened Wrappers
  import Text
  import Numerals

  /**
   * `map(read, parts)` forced into a tuple: every piece read in turn, or
   * `None` as soon as one of them raises.
   */
  function ParseAll(parts: seq<string>, read: string -> Option<int>): (r: Option<seq<int>>)
    ensures r.Some? ==> |r.value| == |parts|
    decreases |parts|
  {
    if |parts| == 0 then Some([])
    else
      var head := read(parts[0]);
      var rest := ParseAll(parts[1..], read);
      if head.Some? && rest.Some? then Some([head.value] + rest.value) else None
  }

  /** Every piece reads. */
  predicate AllParse(parts: seq<string>, read: string -> Option<int>) {
    forall i :: 0 <= i < |parts| ==> read(parts[i]).Some?
  }

  /** `ParseAll` succeeds exactly when every piece reads, and then holds each piece's value. */
  lemma {:induction false} ParseAllSpec(parts: seq<string>, read: string -> Option<int>)
    ensures ParseAll(parts, read).Some? <==> AllParse(parts, read)
    ensures ParseAll(parts, read).Some? ==>
      forall i :: 0 <= i < |parts| ==> read(parts[i]) == Some(ParseAll(parts, read).value[i])
    decreases |parts|
  {
    if |parts| > 0 {
      var rest := parts[1..];
      ParseAllSpec(rest, read);
      var head := read(parts[0]);
      assert AllParse(parts, read) <==> head.Some? && AllParse(rest, read) by {
        assert forall i :: 1 <= i < |parts| ==> parts[i] == rest[i - 1];
      }
      if head.Some? && ParseAll(rest, read).Some? {
        var ns := [head.value] + ParseAll(rest, read).value;
        assert ParseAll(parts, read) == Some(ns);
        forall i | 0 <= i < |parts| ensures read(parts[i]) == Some(ns[i]) {
          if i > 0 {
            assert parts[i] == rest[i - 1];
          }
        }
      }
    }
  }

  /** The integers of a dotted version string, one per piece. */
  function Numbers(v: string): Option<seq<int>> {
    ParseAll(Text.Split(v, '.'), Numerals.ParseInt)
  }

  /** A three-part version. */
  datatype Triple = Triple(major: int, minor: int, patch: int)

  /** `f"{major}.{minor}.{patch}"` */
  function Format(t: Triple): string {
    Numerals.IntToString(t.major) + "." + Numerals.IntToString(t.minor) + "." + Numerals.IntToString(t.patch)
  }

  /** `major, minor, patch = map(int, v.split('.'))`: exactly three integer pieces. */
  function ParseTriple(v: string): Option<Triple> {
    match Numbers(v)
    case Some(ns) => if |ns| == 3 then Some(Triple(ns[0], ns[1], ns[2])) else None
    case None => None
  }

  /** Decimal numerals never contain a dot. */
  lemma NoDot(i: int)
    ensures '.' !in Numerals.IntToString(i)
  {
    var s := Numerals.IntToString(i);
    var d := Numerals.NatToString(if i < 0 then -i else i);
    assert Numerals.AllDigits(d);
    if i < 0 {
      assert s == "-" + d;
      assert forall k :: 0 <= k < |s| ==> s[k] == '-' || Numerals.IsDigit(s[k]);
    }
  }

  /** A written version splits at its two dots into the three numerals. */
  lemma SplitFormat(t: Triple)
    ensures Text.Split(Format(t), '.') ==
      [Numerals.IntToString(t.major), Numerals.IntToString(t.minor), Numerals.IntToString(t.patch)]
  {
    var a := Numerals.IntToString(t.major);
    var b := Numerals.IntToString(t.minor);
    var c := Numerals.IntToString(t.patch);
    assert '.' !in a && '.' !in b && '.' !in c by {
      NoDot(t.major);
      NoDot(t.minor);
      NoDot(t.patch);
    }
    assert Format(t) == a + ['.'] + (b + ['.'] + c);
    Text.SplitCons(a, '.', b + "." + c);
    Text.SplitCons(b, '.', c);
  }

  /** Reading a piece in front of pieces that read puts its value in front. */
  lemma ParseAllCons(h: string, rest: seq<string>, x: int, ns: seq<int>, read: string -> Option<int>)
    requires read(h) == Some(x) && ParseAll(rest, read) == Some(ns)
    ensures ParseAll([h] + rest, read) == Some([x] + ns)
  {
    assert ([h] + rest)[0] == h && ([h] + rest)[1..] == rest;
  }

  /** Three pieces that read give their three values. */
  lemma ParseThree(a: string, b: string, c: string, x: int, y: int, z: int, read: string -> Option<int>)
    requires read(a) == Some(x) && read(b) == Some(y) && read(c) == Some(z)
    ensures ParseAll([a, b, c], read) == Some([x, y, z])
  {
    ParseAllCons(c, [], z, [], read);
    assert [c] + [] == [c] && [z] + [] == [z];
    ParseAllCons(b, [c], y, [z], read);
    assert [b] + [c] == [b, c] && [y] + [z] == [y, z];
    ParseAllCons(a, [b, c], x, [y, z], read);
    assert [a] + [b, c] == [a, b, c] && [x] + [y, z] == [x, y, z];
  }

  /** A version of three one-digit numbers is written as five characters. */
  lemma FormatDigits(a: nat, b: nat, c: nat)
    requires a < 10 && b < 10 && c < 10
    ensures Format(Triple(a, b, c)) == [Numerals.DigitChar(a), '.', Numerals.DigitChar(b), '.', Numerals.DigitChar(c)]
  {
    assert Numerals.IntToString(a) == [Numerals.DigitChar(a)];
    assert Numerals.IntToString(b) == [Numerals.DigitChar(b)];
    assert Numerals.IntToString(c) == [Numerals.DigitChar(c)];
  }

  /** Writing a version and reading it back gives the same three numbers. */
  lemma ParseFormat(t: Triple)
    ensures Numbers(Format(t)) == Some([t.major, t.minor, t.patch])
    ensures ParseTriple(Format(t)) == Some(t)
  {
    var a, b, c := Numerals.IntToString(t.major), Numerals.IntToString(t.minor), Numerals.IntToString(t.patch);
    assert Text.Split(Format(t), '.') == [a, b, c] by {
      SplitFormat(t);
    }
    assert ParseAll([a, b, c], Numerals.ParseInt) == Some([t.major, t.minor, t.patch]) by {
      Numerals.ParseIntToString(t.major);
      Numerals.ParseIntToString(t.minor);
      Numerals.ParseIntToString(t.patch);
      ParseThree(a, b, c, t.major, t.minor, t.patch, Numerals.ParseInt);
    }
  }
}
