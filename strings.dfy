/** The few `str` operations the core uses. */
module Strings {

  /** `s.startswith(p)` */
  predicate StartsWith(s: string, p: string)
  {
    |p| <= |s| && s[..|p|] == p
  }

  /** `a < b` on Python strings: code-point lexicographic order. */
  predicate LexLess(a: string, b: string)
  {
    if a == [] then b != []
    else if b == [] then false
    else if a[0] != b[0] then a[0] < b[0]
    else LexLess(a[1..], b[1..])
  }

  lemma {:induction false} LexLessIrreflexive(a: string)
    ensures !LexLess(a, a)
  {
    if a != [] {
      LexLessIrreflexive(a[1..]);
    }
  }

  lemma {:induction false} LexLessTransitive(a: string, b: string, c: string)
    requires LexLess(a, b) && LexLess(b, c)
    ensures LexLess(a, c)
  {
    if a != [] && b != [] && c != [] && a[0] == b[0] && b[0] == c[0] {
      LexLessTransitive(a[1..], b[1..], c[1..]);
    }
  }

  /** Two different strings are ordered one way or the other. */
  lemma {:induction false} LexLessTotal(a: string, b: string)
    requires a != b
    ensures LexLess(a, b) || LexLess(b, a)
  {
    if a != [] && b != [] && a[0] == b[0] {
      assert a == [a[0]] + a[1..] && b == [b[0]] + b[1..];
      LexLessTotal(a[1..], b[1..]);
    }
  }

  /** `"".join(parts)` */
  function Join(parts: seq<string>): string
  {
    if parts == [] then "" else Join(parts[..|parts| - 1]) + parts[|parts| - 1]
  }

  lemma {:induction false} JoinAppend(parts: seq<string>, last: string)
    ensures Join(parts + [last]) == Join(parts) + last
  {
    assert (parts + [last])[..|parts|] == parts;
  }

  /** Joining `n` four-character pieces gives `4 * n` characters, piece `i` at offset `4 * i`. */
  lemma {:induction false} JoinWidth4(parts: seq<string>)
    requires forall k :: 0 <= k < |parts| ==> |parts[k]| == 4
    ensures |Join(parts)| == 4 * |parts|
    ensures forall i :: 0 <= i < |parts| ==> Join(parts)[4 * i .. 4 * i + 4] == parts[i]
  {
    if parts != [] {
      var init := parts[..|parts| - 1];
      JoinWidth4(init);
      var j := Join(parts);
      assert j == Join(init) + parts[|parts| - 1];
      forall i | 0 <= i < |parts| ensures j[4 * i .. 4 * i + 4] == parts[i] {
        if i < |init| {
          assert j[4 * i .. 4 * i + 4] == Join(init)[4 * i .. 4 * i + 4];
        }
      }
    }
  }

  /** Every character of a join comes from one of its pieces. */
  lemma {:induction false} JoinChars(parts: seq<string>, c: char)
    requires c in Join(parts)
    ensures exists k :: 0 <= k < |parts| && c in parts[k]
  {
    var init := parts[..|parts| - 1];
    if c in Join(init) {
      JoinChars(init, c);
      var k :| 0 <= k < |init| && c in init[k];
      assert parts[k] == init[k];
    } else {
      assert c in parts[|parts| - 1];
    }
  }
}
