/** The POSIX path operations the output-link derivation applies to a URL:
    `str.rfind`, `os.path.basename` and `os.path.splitext` (main.py:257, 272). */
module Paths {
  import opened Text

  /** `s.rfind(c)`: the index of the last `c` in `s`, or -1. */
  function RFind(s: string, c: char): (r: int)
    ensures -1 <= r < |s|
    ensures r >= 0 ==> s[r] == c
    ensures forall k :: r < k < |s| ==> s[k] != c
  {
    if s == [] then -1
    else if s[|s| - 1] == c then |s| - 1
    else RFind(s[..|s| - 1], c)
  }

  /** The three properties of `RFind` pin its result down. */
  lemma RFindUnique(s: string, c: char, r: int)
    requires -1 <= r < |s| && (r >= 0 ==> s[r] == c)
    requires forall k :: r < k < |s| ==> s[k] != c
    ensures RFind(s, c) == r
  {
  }

  /** The last `c` of `s` stays the last one in any prefix that keeps it. */
  lemma RFindOfPrefix(s: string, c: char, n: nat)
    requires RFind(s, c) < n <= |s|
    ensures RFind(s[..n], c) == RFind(s, c)
  {
    RFindUnique(s[..n], c, RFind(s, c));
  }

  /** The last `/` of `x + t` is the last character of `x` when `t` has none. */
  lemma RFindPastSlash(x: string, t: string)
    requires x != [] && x[|x| - 1] == '/' && '/' !in t
    ensures RFind(x + t, '/') == |x| - 1
  {
    RFindUnique(x + t, '/', |x| - 1);
  }

  /** `os.path.basename(p)`: what follows the last `/`; the whole of `p`
      when it has none. */
  function BaseName(p: string): (r: string)
    ensures '/' !in r
    ensures EndsWith(p, r)
    ensures |r| < |p| ==> p[|p| - |r| - 1] == '/'
  {
    p[RFind(p, '/') + 1..]
  }

  /** The base name of `x + t` is `t` when `x` ends in a `/` and `t` has none. */
  lemma BaseNameAfterSlash(x: string, t: string)
    requires x != [] && x[|x| - 1] == '/' && '/' !in t
    ensures BaseName(x + t) == t
  {
    RFindPastSlash(x, t);
    assert (x + t)[|x|..] == t;
  }

  /** Appending text without `c` leaves the last `c` where it was. */
  lemma RFindOfAppend(x: string, t: string, c: char)
    requires c !in t
    ensures RFind(x + t, c) == RFind(x, c)
  {
    var r := RFind(x, c);
    forall k | r < k < |x + t|
      ensures (x + t)[k] != c
    {
      if k < |x| {
        assert (x + t)[k] == x[k];
      } else {
        assert (x + t)[k] == t[k - |x|];
      }
    }
    if r >= 0 {
      assert (x + t)[r] == x[r];
    }
    RFindUnique(x + t, c, r);
  }

  /** Appending text without a `/` appends it to the base name. */
  lemma BaseNameAppend(x: string, t: string)
    requires '/' !in t
    ensures BaseName(x + t) == BaseName(x) + t
  {
    RFindOfAppend(x, t, '/');
    var r := RFind(x, '/');
    assert (x + t)[r + 1..] == x[r + 1..] + t;
  }

  /** A file name has an extension when a `.` follows some character other
      than a dot: leading dots (as in ".bashrc") do not start one. */
  predicate HasExtension(name: string)
  {
    exists j, k :: 0 <= j < k < |name| && name[j] != '.' && name[k] == '.'
  }

  /** Some character of `p[lo..hi]` is not a dot. */
  predicate HasNonDot(p: string, lo: int, hi: int)
  {
    exists k :: lo <= k < hi && 0 <= k < |p| && p[k] != '.'
  }

  /** `os.path.splitext(p)` for POSIX paths: split at the last `.` after the
      last `/`, unless only dots precede it in the base name. */
  function SplitExt(p: string): (r: (string, string))
    ensures r.0 + r.1 == p
    ensures r.1 == [] || (r.1[0] == '.' && '/' !in r.1 && '.' !in r.1[1..])
  {
    var sepIndex := RFind(p, '/');
    var dotIndex := RFind(p, '.');
    if dotIndex > sepIndex && HasNonDot(p, sepIndex + 1, dotIndex) then
      (p[..dotIndex], p[dotIndex..])
    else
      (p, [])
  }

  /** When an extension is split off, it starts at the last dot. */
  lemma SplitExtSplits(p: string)
    requires SplitExt(p).1 != []
    ensures RFind(p, '.') > RFind(p, '/') && HasNonDot(p, RFind(p, '/') + 1, RFind(p, '.'))
  {
  }

  lemma SplitExtFindsExtension(p: string)
    requires SplitExt(p).1 != []
    ensures HasExtension(BaseName(p))
  {
    SplitExtSplits(p);
    var sepIndex := RFind(p, '/');
    var dotIndex := RFind(p, '.');
    var k :| sepIndex + 1 <= k < dotIndex && 0 <= k < |p| && p[k] != '.';
    NonDotBeforeDot(p, sepIndex, k, dotIndex);
  }

  lemma NonDotBeforeDot(p: string, sepIndex: int, k: int, dotIndex: int)
    requires sepIndex == RFind(p, '/')
    requires sepIndex + 1 <= k < dotIndex < |p| && p[k] != '.' && p[dotIndex] == '.'
    ensures HasExtension(BaseName(p))
  {
    SuffixHasExtension(p, sepIndex + 1, k, dotIndex);
  }

  lemma SuffixHasExtension(p: string, a: nat, k: nat, d: nat)
    requires a <= k < d < |p| && p[k] != '.' && p[d] == '.'
    ensures HasExtension(p[a..])
  {
    var name := p[a..];
    assert name[k - a] == p[k];
    assert name[d - a] == p[d];
  }

  lemma ExtensionIsSplit(p: string)
    requires HasExtension(BaseName(p))
    ensures SplitExt(p).1 != []
  {
    var sepIndex := RFind(p, '/');
    var dotIndex := RFind(p, '.');
    var name := BaseName(p);
    var j, k :| 0 <= j < k < |name| && name[j] != '.' && name[k] == '.';
    assert p[sepIndex + 1 + k] == name[k];
    assert p[sepIndex + 1 + j] == name[j];
    assert sepIndex + 1 + k <= dotIndex;
    assert HasNonDot(p, sepIndex + 1, dotIndex);
  }

  /** The extension is split off exactly when the base name has one. */
  lemma SplitExtIffExtension(p: string)
    ensures SplitExt(p).1 != [] <==> HasExtension(BaseName(p))
  {
    if SplitExt(p).1 != [] {
      SplitExtFindsExtension(p);
    }
    if HasExtension(BaseName(p)) {
      ExtensionIsSplit(p);
    }
  }

  /** Only the base name is cut: the root's base name followed by the
      extension is the base name of the path. */
  lemma SplitExtKeepsBaseName(p: string)
    ensures BaseName(SplitExt(p).0) + SplitExt(p).1 == BaseName(p)
  {
    var sepIndex := RFind(p, '/');
    var dotIndex := RFind(p, '.');
    if SplitExt(p).1 != [] {
      RFindOfPrefix(p, '/', dotIndex);
      assert p[..dotIndex][sepIndex + 1..] + p[dotIndex..] == p[sepIndex + 1..];
    }
  }
}
