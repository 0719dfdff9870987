/**
 * String operations the server relies on, with Python's meaning: the order
 * `<` on `str`, the substring test `in`, `str.lower()` and `sep.join(parts)`.
 */
module Strings {

  /** Python's `a < b` on `str`: lexicographic by code point, a proper prefix first. */
  predicate Less(a: string, b: string)
    decreases |a|
  {
    if |a| == 0 then |b| > 0
    else if |b| == 0 then false
    else if a[0] != b[0] then a[0] < b[0]
    else Less(a[1..], b[1..])
  }

  predicate LessOrEqual(a: string, b: string)
  {
    a == b || Less(a, b)
  }

  lemma {:induction false} LessIrreflexive(a: string)
    ensures !Less(a, a)
  {
    if |a| > 0 {
      LessIrreflexive(a[1..]);
    }
  }

  lemma {:induction false} LessTransitive(a: string, b: string, c: string)
    requires Less(a, b) && Less(b, c)
    ensures Less(a, c)
  {
    if |a| > 0 && a[0] == b[0] && b[0] == c[0] {
      LessTransitive(a[1..], b[1..], c[1..]);
    }
  }

  lemma {:induction false} LessTotal(a: string, b: string)
    ensures a == b || Less(a, b) || Less(b, a)
  {
    if |a| > 0 && |b| > 0 && a[0] == b[0] {
      LessTotal(a[1..], b[1..]);
      if a[1..] == b[1..] {
        assert a == [a[0]] + a[1..] && b == [b[0]] + b[1..];
      }
    }
  }

  lemma LessAsymmetric(a: string, b: string)
    requires Less(a, b)
    ensures !Less(b, a)
  {
    if Less(b, a) {
      LessTransitive(a, b, a);
      LessIrreflexive(a);
    }
  }

  /** `needle` occurs in `text` starting at index `i`. */
  predicate OccursAt(text: string, needle: string, i: int)
  {
    0 <= i <= |text| - |needle| && text[i..i + |needle|] == needle
  }

  /** Python's `needle in text` for `str`: some window of `text` equals `needle`. */
  function Contains(text: string, needle: string): (r: bool)
    ensures r <==> exists i :: OccursAt(text, needle, i)
    decreases |text|
  {
    if needle <= text then
      assert OccursAt(text, needle, 0);
      true
    else if |text| == 0 then false
    else
      var r := Contains(text[1..], needle);
      assert r ==> exists i :: OccursAt(text, needle, i) by {
        if r {
          var j :| OccursAt(text[1..], needle, j);
          assert text[j + 1..j + 1 + |needle|] == text[1..][j..j + |needle|];
          assert OccursAt(text, needle, j + 1);
        }
      }
      assert (exists i :: OccursAt(text, needle, i)) ==> r by {
        if exists i :: OccursAt(text, needle, i) {
          var i :| OccursAt(text, needle, i);
          assert i != 0;
          assert text[1..][i - 1..i - 1 + |needle|] == text[i..i + |needle|];
          assert OccursAt(text[1..], needle, i - 1);
        }
      }
      r
  }

  /** `str.lower()` on one character, for the ASCII letters. */
  function LowerChar(c: char): char
  {
    if 'A' <= c <= 'Z' then (c as int + 32) as char else c
  }

  /** `str.lower()`, for the ASCII letters. */
  function Lower(s: string): (r: string)
    ensures |r| == |s|
    ensures forall i :: 0 <= i < |s| ==> r[i] == LowerChar(s[i])
    decreases |s|
  {
    if |s| == 0 then "" else [LowerChar(s[0])] + Lower(s[1..])
  }

  /** Two strings that differ only in the case of ASCII letters. */
  predicate SameUpToCase(a: string, b: string)
  {
    |a| == |b| && forall i :: 0 <= i < |a| ==> LowerChar(a[i]) == LowerChar(b[i])
  }

  lemma LowerOfSameUpToCase(a: string, b: string)
    requires SameUpToCase(a, b)
    ensures Lower(a) == Lower(b)
  {
    assert forall i :: 0 <= i < |a| ==> Lower(a)[i] == Lower(b)[i];
  }

  /** A match found with case kept is still a match once both sides are lower-cased. */
  lemma ContainsLower(text: string, needle: string)
    requires Contains(text, needle)
    ensures Contains(Lower(text), Lower(needle))
  {
    var i :| OccursAt(text, needle, i);
    var lt, ln := Lower(text), Lower(needle);
    forall k | 0 <= k < |needle|
      ensures lt[i..i + |needle|][k] == ln[k]
    {
      assert text[i..i + |needle|][k] == needle[k];
    }
    assert lt[i..i + |needle|] == ln;
    assert OccursAt(lt, ln, i);
  }

  /** Python's `sep.join(parts)`. */
  function JoinWith(sep: string, parts: seq<string>): (r: string)
    decreases |parts|
  {
    if |parts| == 0 then ""
    else if |parts| == 1 then parts[0]
    else parts[0] + sep + JoinWith(sep, parts[1..])
  }

  /** A joined sequence ends with its last part. */
  lemma {:induction false} JoinWithEndsWithLast(sep: string, a: seq<string>)
    requires |a| > 0
    ensures var s, l := JoinWith(sep, a), a[|a| - 1];
      |l| <= |s| && s[|s| - |l|..] == l
    decreases |a|
  {
    if |a| > 1 {
      JoinWithEndsWithLast(sep, a[1..]);
      assert a[1..][|a[1..]| - 1] == a[|a| - 1];
    }
  }

  /** The name starts with a dot: `name.startswith(".")`. */
  predicate IsHidden(name: string)
  {
    |name| > 0 && name[0] == '.'
  }

  /** Index of the first '/' in `s`, or `|s|` when there is none. */
  function FirstSlash(s: string): (i: nat)
    ensures i <= |s|
    ensures forall k :: 0 <= k < i ==> s[k] != '/'
    ensures i < |s| ==> s[i] == '/'
    decreases |s|
  {
    if |s| == 0 || s[0] == '/' then 0 else 1 + FirstSlash(s[1..])
  }

  lemma {:induction false} FirstSlashAfter(x: string, y: string)
    requires '/' !in x
    ensures FirstSlash(x + y) == |x| + FirstSlash(y)
    decreases |x|
  {
    if |x| > 0 {
      assert (x + y)[0] == x[0] && x[0] in x;
      assert (x + y)[1..] == x[1..] + y;
      FirstSlashAfter(x[1..], y);
    } else {
      assert x + y == y;
    }
  }

  /** In a "/"-joined path the first slash ends the first part. */
  lemma JoinWithSlashHead(a: seq<string>)
    requires |a| > 0
    requires forall i :: 0 <= i < |a| ==> '/' !in a[i]
    ensures var s := JoinWith("/", a);
      && FirstSlash(s) == |a[0]|
      && s[..|a[0]|] == a[0]
      && (|a| == 1 ==> |s| == |a[0]|)
      && (|a| > 1 ==> |s| > |a[0]| && s[|a[0]| + 1..] == JoinWith("/", a[1..]))
  {
    var s := JoinWith("/", a);
    if |a| == 1 {
      FirstSlashAfter(a[0], "");
      assert a[0] + "" == a[0];
    } else {
      var rest := JoinWith("/", a[1..]);
      assert s == a[0] + ("/" + rest);
      FirstSlashAfter(a[0], "/" + rest);
    }
  }

  /**
   * Joining non-empty lists of slash-free names with "/" loses nothing: the
   * rendering of a relative path determines its parts.
   */
  lemma {:induction false} JoinWithSlashInjective(a: seq<string>, b: seq<string>)
    requires |a| > 0 && |b| > 0
    requires forall i :: 0 <= i < |a| ==> '/' !in a[i]
    requires forall i :: 0 <= i < |b| ==> '/' !in b[i]
    requires JoinWith("/", a) == JoinWith("/", b)
    ensures a == b
    decreases |a|
  {
    JoinWithSlashHead(a);
    JoinWithSlashHead(b);
    if |a| > 1 {
      JoinWithSlashInjective(a[1..], b[1..]);
      assert a == [a[0]] + a[1..] && b == [b[0]] + b[1..];
    }
  }
}
