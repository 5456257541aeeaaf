/**
 * The version helpers of scripts/bootstrap.py: `version_to_tuple` parses a
 * dotted version string into three naturals and `is_version_ge` compares two
 * versions as Python compares tuples.
 */
module Versions {

  /** The result of `version_to_tuple`: (major, minor, patch). */
  type Triple = (nat, nat, nat)

  /** `s.join(parts)` with a one-character separator. */
  function Join(parts: seq<string>, sep: char): string
  {
    if |parts| == 0 then ""
    else if |parts| == 1 then parts[0]
    else parts[0] + [sep] + Join(parts[1..], sep)
  }

  /**
   * `s.split(sep)`: the maximal runs between separators, so there is always
   * at least one part, empty parts are kept, and joining the parts back with
   * the separator gives `s` again.
   */
  function Split(s: string, sep: char): (parts: seq<string>)
    ensures |parts| >= 1
    ensures forall i :: 0 <= i < |parts| ==> sep !in parts[i]
    ensures Join(parts, sep) == s
    decreases |s|
  {
    if |s| == 0 then [""]
    else
      var rest := Split(s[1..], sep);
      if s[0] == sep then
        assert [sep] + s[1..] == s;
        [""] + rest
      else
        var parts := [[s[0]] + rest[0]] + rest[1..];
        assert Join(parts, sep) == s by {
          if |rest| > 1 {
            assert parts[1..] == rest[1..];
            assert Join(rest, sep) == rest[0] + [sep] + Join(rest[1..], sep);
          }
        }
        parts
  }

  /** Splitting a join of separator-free parts gives the parts back. */
  lemma {:induction false} SplitJoin(parts: seq<string>, sep: char)
    requires |parts| >= 1
    requires forall i :: 0 <= i < |parts| ==> sep !in parts[i]
    ensures Split(Join(parts, sep), sep) == parts
    decreases |parts|, |parts[0]|
  {
    if |parts[0]| == 0 {
      if |parts| > 1 {
        SplitJoin(parts[1..], sep);
        assert Join(parts, sep) == [sep] + Join(parts[1..], sep);
        assert Join(parts, sep)[1..] == Join(parts[1..], sep);
        assert parts == [""] + parts[1..];
      }
    } else {
      var c := parts[0][0];
      var shorter := [parts[0][1..]] + parts[1..];
      assert forall i :: 1 <= i < |shorter| ==> shorter[i] == parts[i];
      SplitJoin(shorter, sep);
      JoinFirstChar(parts, sep);
      SplitFirstChar(c, Join(shorter, sep), sep);
      assert parts[0] == [c] + shorter[0];
      assert shorter[1..] == parts[1..];
      assert [[c] + shorter[0]] + shorter[1..] == parts;
    }
  }

  /** The first character of the first part leads the joined text. */
  lemma JoinFirstChar(parts: seq<string>, sep: char)
    requires |parts| >= 1 && |parts[0]| > 0
    ensures Join(parts, sep) == [parts[0][0]] + Join([parts[0][1..]] + parts[1..], sep)
  {
    var shorter := [parts[0][1..]] + parts[1..];
    if |parts| > 1 {
      assert shorter[1..] == parts[1..];
    }
  }

  /** A leading non-separator character joins the first part. */
  lemma SplitFirstChar(c: char, s: string, sep: char)
    requires c != sep
    ensures Split([c] + s, sep) == [[c] + Split(s, sep)[0]] + Split(s, sep)[1..]
  {
    assert ([c] + s)[1..] == s;
  }

  /** Joining two lists of parts puts one separator between them. */
  lemma {:induction false} JoinAppend(xs: seq<string>, ys: seq<string>, sep: char)
    requires |xs| >= 1 && |ys| >= 1
    ensures Join(xs + ys, sep) == Join(xs, sep) + [sep] + Join(ys, sep)
    decreases |xs|
  {
    if |xs| == 1 {
      assert (xs + ys)[1..] == ys;
    } else {
      JoinAppend(xs[1..], ys, sep);
      assert (xs + ys)[1..] == xs[1..] + ys;
    }
  }

  /** A separator inside the text splits it into the parts on either side. */
  lemma SplitAppend(x: string, y: string, sep: char)
    ensures Split(x + [sep] + y, sep) == Split(x, sep) + Split(y, sep)
  {
    var xs, ys := Split(x, sep), Split(y, sep);
    JoinAppend(xs, ys, sep);
    SplitJoin(xs + ys, sep);
  }

  /** `c.isdigit()` on ASCII characters. */
  predicate IsDigitChar(c: char)
  {
    '0' <= c <= '9'
  }

  /** `s.isdigit()` on ASCII text: non-empty and made of digits only. */
  predicate IsDigits(s: string)
  {
    |s| > 0 && forall i :: 0 <= i < |s| ==> IsDigitChar(s[i])
  }

  /** A numeric part never holds the separator. */
  lemma DigitsHaveNoDot(s: string)
    requires IsDigits(s)
    ensures '.' !in s
  {
    assert forall j :: 0 <= j < |s| ==> s[j] != '.';
  }

  /** `int(s)` for a string of decimal digits (leading zeros allowed). */
  function DigitsValue(s: string): nat
    requires forall i :: 0 <= i < |s| ==> IsDigitChar(s[i])
  {
    if |s| == 0 then 0
    else
      assert IsDigitChar(s[|s| - 1]);
      DigitsValue(s[..|s| - 1]) * 10 + (s[|s| - 1] as int - '0' as int)
  }

  /** The decimal spelling of `n`, as `str(n)` writes it. */
  function NatToString(n: nat): (r: string)
    ensures IsDigits(r)
    ensures DigitsValue(r) == n
  {
    var last := [('0' as int + n % 10) as char];
    if n < 10 then last
    else
      var prefix := NatToString(n / 10);
      assert (prefix + last)[..|prefix|] == prefix;
      prefix + last
  }

  /** `[int(part) for part in parts if part.isdigit()]`. */
  function Numbers(parts: seq<string>): seq<nat>
  {
    if |parts| == 0 then []
    else if IsDigits(parts[0]) then [DigitsValue(parts[0])] + Numbers(parts[1..])
    else Numbers(parts[1..])
  }

  /** The list comprehension distributes over concatenation. */
  lemma {:induction false} NumbersAppend(xs: seq<string>, ys: seq<string>)
    ensures Numbers(xs + ys) == Numbers(xs) + Numbers(ys)
    decreases |xs|
  {
    if |xs| > 0 {
      assert (xs + ys)[1..] == xs[1..] + ys;
      NumbersAppend(xs[1..], ys);
    } else {
      assert xs + ys == ys;
    }
  }

  /** When every part is numeric, none is dropped. */
  lemma {:induction false} NumbersOfDigits(parts: seq<string>)
    requires forall i :: 0 <= i < |parts| ==> IsDigits(parts[i])
    ensures |Numbers(parts)| == |parts|
    ensures forall i :: 0 <= i < |parts| ==> IsDigits(parts[i]) && Numbers(parts)[i] == DigitsValue(parts[i])
    decreases |parts|
  {
    if |parts| > 0 {
      NumbersOfDigits(parts[1..]);
    }
  }

  /** The `while len(parts) < 3: parts.append(0)` loop. */
  function PadToThree(parts: seq<nat>): (r: seq<nat>)
    ensures |r| == if |parts| < 3 then 3 else |parts|
    ensures r[..|parts|] == parts
    ensures forall i :: |parts| <= i < |r| ==> r[i] == 0
    decreases 3 - |parts|
  {
    if |parts| < 3 then
      var r := PadToThree(parts + [0]);
      assert r[..|parts|] == r[..|parts| + 1][..|parts|];
      r
    else parts
  }

  /** The component of a numeric list at `i`, 0 when the list is too short. */
  function ComponentOr0(ns: seq<nat>, i: nat): nat
  {
    if i < |ns| then ns[i] else 0
  }

  /**
   * `version_to_tuple`: the all-digit dot-separated parts, in order, padded
   * with zeros and truncated to the first three.
   */
  function VersionToTuple(version: string): (r: Triple)
    ensures r.0 == ComponentOr0(Numbers(Split(version, '.')), 0)
    ensures r.1 == ComponentOr0(Numbers(Split(version, '.')), 1)
    ensures r.2 == ComponentOr0(Numbers(Split(version, '.')), 2)
  {
    var numbers := Numbers(Split(version, '.'));
    var padded := PadToThree(numbers);
    assert forall i :: 0 <= i < |numbers| ==> padded[i] == numbers[i] by {
      assert forall i :: 0 <= i < |numbers| ==> padded[..|numbers|][i] == padded[i];
    }
    (padded[0], padded[1], padded[2])
  }

  /** The canonical spelling `a.b.c` of a triple. */
  function Format(v: Triple): string
  {
    Join([NatToString(v.0), NatToString(v.1), NatToString(v.2)], '.')
  }

  /** Parsing the canonical spelling of a triple gives the triple back. */
  lemma ParseFormat(v: Triple)
    ensures Split(Format(v), '.') == [NatToString(v.0), NatToString(v.1), NatToString(v.2)]
    ensures VersionToTuple(Format(v)) == v
  {
    var parts := [NatToString(v.0), NatToString(v.1), NatToString(v.2)];
    forall i | 0 <= i < 3
      ensures '.' !in parts[i]
    {
      DigitsHaveNoDot(parts[i]);
    }
    SplitJoin(parts, '.');
    NumbersOfDigits(parts);
  }

  /**
   * Only the first three numeric parts matter: anything after a version
   * with three numbers (`2.43.0.windows.1`) is ignored.
   */
  lemma TruncatesToThree(v: Triple, rest: string)
    ensures VersionToTuple(Format(v) + "." + rest) == v
  {
    ParseFormat(v);
    SplitAppend(Format(v), rest, '.');
    var xs := Split(Format(v), '.');
    var ys := Split(rest, '.');
    NumbersAppend(xs, ys);
    NumbersOfDigits(xs);
    assert (Numbers(xs) + Numbers(ys))[..3] == Numbers(xs);
  }

  /** Missing components read as zero: `"3"` is version 3.0.0. */
  lemma PadsWithZeros(major: nat)
    ensures VersionToTuple(NatToString(major)) == (major, 0, 0)
  {
    var s := NatToString(major);
    DigitsHaveNoDot(s);
    SplitJoin([s], '.');
    NumbersOfDigits([s]);
  }

  /**
   * Python's sequence comparison `a >= b`: the first differing element
   * decides, and when one is a prefix of the other the longer one is larger.
   */
  function LexGe(a: seq<nat>, b: seq<nat>): bool
  {
    if |b| == 0 then true
    else if |a| == 0 then false
    else if a[0] != b[0] then a[0] > b[0]
    else LexGe(a[1..], b[1..])
  }

  /** A triple as the sequence Python compares. */
  function AsSeq(v: Triple): seq<nat>
  {
    [v.0, v.1, v.2]
  }

  /** On triples, Python's comparison is the familiar major/minor/patch order. */
  lemma LexGeTriple(x: Triple, y: Triple)
    ensures LexGe(AsSeq(x), AsSeq(y)) <==>
      x.0 > y.0 || (x.0 == y.0 && (x.1 > y.1 || (x.1 == y.1 && x.2 >= y.2)))
  {
    assert AsSeq(x)[1..] == [x.1, x.2] && AsSeq(y)[1..] == [y.1, y.2];
    assert [x.1, x.2][1..] == [x.2] && [y.1, y.2][1..] == [y.2];
    assert [x.2][1..] == [] && [y.2][1..] == [];
    assert LexGe([x.2], [y.2]) == (x.2 >= y.2);
    assert LexGe([x.1, x.2], [y.1, y.2]) == (if x.1 != y.1 then x.1 > y.1 else x.2 >= y.2);
  }

  /** `is_version_ge`: the parsed current version is at least the parsed minimum. */
  function IsVersionGe(current: string, minimum: string): (r: bool)
    ensures
      var c, m := VersionToTuple(current), VersionToTuple(minimum);
      r <==> c.0 > m.0 || (c.0 == m.0 && (c.1 > m.1 || (c.1 == m.1 && c.2 >= m.2)))
  {
    var c, m := VersionToTuple(current), VersionToTuple(minimum);
    LexGeTriple(c, m);
    LexGe(AsSeq(c), AsSeq(m))
  }

  /** `is_version_ge` is a total preorder on version strings. */
  lemma IsVersionGeOrder(a: string, b: string, c: string)
    ensures IsVersionGe(a, a)
    ensures IsVersionGe(a, b) || IsVersionGe(b, a)
    ensures IsVersionGe(a, b) && IsVersionGe(b, c) ==> IsVersionGe(a, c)
    ensures IsVersionGe(a, b) && IsVersionGe(b, a) <==> VersionToTuple(a) == VersionToTuple(b)
  {
  }

  /** The comparisons the tests of the source assert. */
  lemma IsVersionGeExamples()
    ensures IsVersionGe("2.49.0", "2.0.0")
    ensures !IsVersionGe("1.9.9", "2.0.0")
  {
    assert Format((2, 49, 0)) == "2.49.0";
    assert Format((2, 0, 0)) == "2.0.0";
    assert Format((1, 9, 9)) == "1.9.9";
    ParseFormat((2, 49, 0));
    ParseFormat((2, 0, 0));
    ParseFormat((1, 9, 9));
  }

  /** A version string with a platform suffix, as `git --version` prints on Windows. */
  lemma VersionWithSuffix()
    ensures VersionToTuple("2.43.0.windows.1") == (2, 43, 0)
  {
    assert Format((2, 43, 0)) == "2.43.0";
    TruncatesToThree((2, 43, 0), "windows.1");
    assert Format((2, 43, 0)) + "." + "windows.1" == "2.43.0.windows.1";
  }

  /**
   * A part that is not all digits is dropped and the later parts move up:
   * a leading `v` loses the major number.
   */
  lemma DropsNonNumericParts(v: Triple)
    ensures VersionToTuple("v" + Format(v)) == (v.1, v.2, 0)
  {
    ParseFormat(v);
    var s := "v" + Format(v);
    var parts := Split(Format(v), '.');
    assert s[0] == 'v' && s[1..] == Format(v);
    assert Split(s, '.') == [['v'] + parts[0]] + parts[1..];
    assert !IsDigits(['v'] + parts[0]) by {
      assert (['v'] + parts[0])[0] == 'v';
    }
    assert ([['v'] + parts[0]] + parts[1..])[1..] == parts[1..];
    NumbersOfDigits(parts[1..]);
  }

  /** `v16.0.0` reads as version 0.0.0. */
  lemma PrefixedVersionReadsAsZero()
    ensures VersionToTuple("v16.0.0") == (0, 0, 0)
  {
    assert Format((16, 0, 0)) == "16.0.0";
    DropsNonNumericParts((16, 0, 0));
  }
}
