/** The few Python string operations the handlers use: substring tests and
    `str.lower()` restricted to ASCII letters. */
module Text {

  /** `p` occurs in `s` starting at index `i`. */
  predicate OccursAt(s: string, p: string, i: int)
  {
    0 <= i <= |s| && p <= s[i..]
  }

  /** Python's `p in s` for strings. */
  predicate Contains(s: string, p: string)
  {
    exists i :: 0 <= i <= |s| && OccursAt(s, p, i)
  }

  /** Python's `s.endswith(p)`. */
  predicate EndsWith(s: string, p: string)
  {
    |p| <= |s| && s[|s| - |p|..] == p
  }

  predicate IsUpper(c: char)
  {
    'A' <= c <= 'Z'
  }

  /** `c.lower()` for an ASCII letter; every other character is left as it is. */
  function LowerChar(c: char): (r: char)
    ensures !IsUpper(r)
    ensures !IsUpper(c) ==> r == c
  {
    if IsUpper(c) then (c as int + 32) as char else c
  }

  /** `s.lower()`, character by character. */
  function Lower(s: string): (r: string)
    ensures |r| == |s|
    ensures forall k :: 0 <= k < |s| ==> r[k] == LowerChar(s[k])
  {
    seq(|s|, k requires 0 <= k < |s| => LowerChar(s[k]))
  }

  /** `a` and `b` have the same length and agree once both are lowered. */
  predicate EqualIgnoringCase(a: string, b: string)
  {
    |a| == |b| && forall k :: 0 <= k < |a| ==> LowerChar(a[k]) == LowerChar(b[k])
  }

  /** The window of `s` at `i` spells `p` in any mixture of upper and lower case. */
  predicate OccursIgnoringCaseAt(s: string, p: string, i: int)
  {
    0 <= i && i + |p| <= |s| && EqualIgnoringCase(s[i..i + |p|], p)
  }

  /** Some window of `s` spells `p` in any mixture of upper and lower case. */
  predicate ContainsIgnoringCase(s: string, p: string)
  {
    exists i :: 0 <= i <= |s| && OccursIgnoringCaseAt(s, p, i)
  }

  /** Searching the lowered string for a lower-case pattern is a
      case-insensitive search of the original. */
  lemma LowerContains(s: string, p: string)
    requires forall k :: 0 <= k < |p| ==> !IsUpper(p[k])
    ensures Contains(Lower(s), p) <==> ContainsIgnoringCase(s, p)
  {
    if Contains(Lower(s), p) {
      var i :| 0 <= i <= |s| && OccursAt(Lower(s), p, i);
      assert i + |p| <= |s|;
      forall k | 0 <= k < |p|
        ensures LowerChar(s[i..i + |p|][k]) == LowerChar(p[k])
      {
        assert Lower(s)[i + k] == p[k];
      }
      assert OccursIgnoringCaseAt(s, p, i);
    }
    if ContainsIgnoringCase(s, p) {
      var i :| 0 <= i <= |s| && OccursIgnoringCaseAt(s, p, i);
      assert Lower(s)[i..i + |p|] == p by {
        forall k | 0 <= k < |p|
          ensures Lower(s)[i..i + |p|][k] == p[k]
        {
          assert LowerChar(s[i..i + |p|][k]) == LowerChar(p[k]);
        }
      }
      assert OccursAt(Lower(s), p, i);
    }
  }

  /** A match of `p` itself is a case-insensitive match of `p`. */
  lemma ContainsIsContainsIgnoringCase(s: string, p: string)
    requires Contains(s, p)
    ensures ContainsIgnoringCase(s, p)
  {
    var i :| 0 <= i <= |s| && OccursAt(s, p, i);
    assert s[i..i + |p|] == p;
    assert OccursIgnoringCaseAt(s, p, i);
  }

  /** A case-insensitive match of `p` is one of any `q` that equals `p`
      ignoring case. */
  lemma ContainsIgnoringCaseRespectsCase(s: string, p: string, q: string)
    requires EqualIgnoringCase(p, q)
    ensures ContainsIgnoringCase(s, p) <==> ContainsIgnoringCase(s, q)
  {
    if ContainsIgnoringCase(s, p) {
      var i :| 0 <= i <= |s| && OccursIgnoringCaseAt(s, p, i);
      assert OccursIgnoringCaseAt(s, q, i);
    }
    if ContainsIgnoringCase(s, q) {
      var i :| 0 <= i <= |s| && OccursIgnoringCaseAt(s, q, i);
      assert OccursIgnoringCaseAt(s, p, i);
    }
  }
}
