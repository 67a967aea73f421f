/** Where `process_wsi` writes the thumbnail (main.py:257-273): the image link
    without its extension, with a Google Cloud Storage HTTPS host rewritten to
    the `gs://` scheme, followed by `_thumbnail.png`; or, when an output bucket
    is configured, that file name in the output bucket. */
module ThumbnailLink {
  import opened Wrappers
  import opened Text
  import opened Paths

  const GOOGLEAPIS_HOST: string := "https://storage.googleapis.com/"
  const CLOUD_HOST: string := "storage.cloud.google.com/"
  /** The regular expression `https?://storage\.cloud\.google\.com/` as its
      two spellings, in the order the greedy `s?` tries them. */
  const CLOUD_HOST_URLS: seq<string> := ["https://" + CLOUD_HOST, "http://" + CLOUD_HOST]
  const GS_SCHEME: string := "gs://"
  const THUMBNAIL_SUFFIX: string := "_thumbnail.png"

  /** No pattern is empty. */
  predicate NonEmpty(patterns: seq<string>)
  {
    forall k :: 0 <= k < |patterns| ==> patterns[k] != []
  }

  /** Every pattern ends with a `/`. */
  predicate EndInSlash(patterns: seq<string>)
  {
    forall k :: 0 <= k < |patterns| ==> patterns[k] != [] && patterns[k][|patterns[k]| - 1] == '/'
  }

  /** No pattern occurs in `s` at a start position in `lo..hi`. */
  predicate NoMatchIn(s: string, patterns: seq<string>, lo: int, hi: int)
  {
    forall i, p :: lo <= i < hi && p in patterns ==> !OccursAt(s, p, i)
  }

  /** The first pattern that `s` starts with: what a literal or an
      alternation matches at this position. */
  function MatchAtStart(s: string, patterns: seq<string>): (r: Option<string>)
    ensures r.Some? ==> r.value in patterns && r.value <= s
    ensures r.None? ==> forall p :: p in patterns ==> !(p <= s)
  {
    if patterns == [] then None
    else if patterns[0] <= s then Some(patterns[0])
    else
      assert forall p :: p in patterns ==> p == patterns[0] || p in patterns[1..];
      MatchAtStart(s, patterns[1..])
  }

  /** Scan left to right; replace each match by `replacement` and continue
      after it; copy every other character. With one literal pattern this is
      `str.replace`, with the alternatives of a regular expression `re.sub`. */
  function Substitute(s: string, patterns: seq<string>, replacement: string): string
    requires NonEmpty(patterns)
    decreases |s|
  {
    if s == [] then []
    else
      match MatchAtStart(s, patterns)
      case Some(m) => replacement + Substitute(s[|m|..], patterns, replacement)
      case None => [s[0]] + Substitute(s[1..], patterns, replacement)
  }

  /** `path.replace("https://storage.googleapis.com/", "gs://")`. */
  function ReplaceGoogleapisHost(path: string): string
  {
    Substitute(path, [GOOGLEAPIS_HOST], GS_SCHEME)
  }

  /** `re.sub(r'https?://storage\.cloud\.google\.com/', 'gs://', path)`. */
  function SubCloudHost(path: string): string
  {
    Substitute(path, CLOUD_HOST_URLS, GS_SCHEME)
  }

  /** The host rewrite of main.py:259-262. */
  function RewriteHost(path: string): string
  {
    if GOOGLEAPIS_HOST <= path then ReplaceGoogleapisHost(path)
    else if Contains(path, CLOUD_HOST) then SubCloudHost(path)
    else path
  }

  // ---------------------------------------------------------------------
  // Substitution replaces every match and nothing else

  /** Where no pattern matches, nothing is replaced. */
  lemma {:induction false} NoMatchUnchanged(s: string, patterns: seq<string>, replacement: string)
    requires NonEmpty(patterns) && NoMatchIn(s, patterns, 0, |s| + 1)
    ensures Substitute(s, patterns, replacement) == s
    decreases |s|
  {
    if s != [] {
      NoMatchAtStart(s, patterns);
      forall i, p | 0 <= i < |s| && p in patterns
        ensures !OccursAt(s[1..], p, i)
      {
        assert s[1..][i..] == s[i + 1..];
        assert !OccursAt(s, p, i + 1);
      }
      NoMatchUnchanged(s[1..], patterns, replacement);
    }
  }

  /** The leftmost match is replaced, the text before it is copied, and the
      scan resumes right after it. */
  lemma {:induction false} FirstMatchReplaced(x: string, m: string, y: string, patterns: seq<string>, replacement: string)
    requires NonEmpty(patterns) && MatchAtStart(m + y, patterns) == Some(m)
    requires NoMatchIn(x + m + y, patterns, 0, |x|)
    ensures Substitute(x + m + y, patterns, replacement) == x + replacement + Substitute(y, patterns, replacement)
    decreases |x|
  {
    if x == [] {
      assert x + m + y == m + y;
      MatchReplacedAtStart(m, y, patterns, replacement);
    } else {
      var s := x + m + y;
      NoMatchAtStart(s, patterns);
      assert s[1..] == x[1..] + m + y;
      forall i, p | 0 <= i < |x| - 1 && p in patterns
        ensures !OccursAt(x[1..] + m + y, p, i)
      {
        assert (x[1..] + m + y)[i..] == s[i + 1..];
        assert !OccursAt(s, p, i + 1);
      }
      FirstMatchReplaced(x[1..], m, y, patterns, replacement);
      assert [x[0]] + (x[1..] + replacement + Substitute(y, patterns, replacement))
        == x + replacement + Substitute(y, patterns, replacement);
    }
  }

  /** A match at the very start is replaced, and the scan resumes after it. */
  lemma MatchReplacedAtStart(m: string, y: string, patterns: seq<string>, replacement: string)
    requires NonEmpty(patterns) && MatchAtStart(m + y, patterns) == Some(m)
    ensures Substitute(m + y, patterns, replacement) == replacement + Substitute(y, patterns, replacement)
  {
    assert (m + y)[|m|..] == y;
  }

  /** `MatchAtStart` finds nothing where no pattern occurs at position 0. */
  lemma NoMatchAtStart(s: string, patterns: seq<string>)
    requires NoMatchIn(s, patterns, 0, 1)
    ensures MatchAtStart(s, patterns).None?
  {
    assert s[0..] == s;
    forall p | p in patterns
      ensures !(p <= s)
    {
      assert !OccursAt(s, p, 0);
    }
  }

  /** Text after the last `/` cannot take part in a match that ends with `/`. */
  lemma {:induction false} SubstituteBeforeNoSlash(x: string, t: string, patterns: seq<string>, replacement: string)
    requires NonEmpty(patterns) && EndInSlash(patterns) && '/' !in t
    ensures Substitute(x + t, patterns, replacement) == Substitute(x, patterns, replacement) + t
    decreases |x|
  {
    if x == [] {
      assert x + t == t;
      forall i, p | 0 <= i < |t| + 1 && p in patterns
        ensures !OccursAt(t, p, i)
      {
        if i + |p| <= |t| {
          assert p[|p| - 1] == '/';
          assert t[i + |p| - 1] != '/';
        }
      }
      NoMatchUnchanged(t, patterns, replacement);
    } else {
      var s := x + t;
      match MatchAtStart(s, patterns)
      case Some(m) =>
        assert s[|m| - 1] == '/';
        assert |m| <= |x|;
        assert MatchAtStart(x, patterns) == Some(m) by {
          assert m <= x;
          MatchAtStartOfPrefix(x, t, patterns);
        }
        assert s[|m|..] == x[|m|..] + t;
        SubstituteBeforeNoSlash(x[|m|..], t, patterns, replacement);
      case None =>
        assert MatchAtStart(x, patterns).None? by {
          MatchAtStartOfPrefix(x, t, patterns);
        }
        assert s[1..] == x[1..] + t;
        SubstituteBeforeNoSlash(x[1..], t, patterns, replacement);
    }
  }

  /** Whether a pattern that ends in `/` matches at the start of `x + t`
      is decided by `x` alone when `t` has no `/`. */
  lemma MatchAtStartOfPrefix(x: string, t: string, patterns: seq<string>)
    requires EndInSlash(patterns) && '/' !in t
    ensures MatchAtStart(x + t, patterns) == MatchAtStart(x, patterns)
    decreases |patterns|
  {
    if patterns != [] {
      var p := patterns[0];
      if p <= x + t {
        assert (x + t)[|p| - 1] == '/';
        assert p <= x;
      }
      MatchAtStartOfPrefix(x, t, patterns[1..]);
    }
  }

  /** Substitution keeps a final `/` when every pattern and the replacement
      end in one. */
  lemma {:induction false} SubstituteKeepsFinalSlash(x: string, patterns: seq<string>, replacement: string)
    requires NonEmpty(patterns) && EndInSlash(patterns)
    requires replacement != [] && replacement[|replacement| - 1] == '/'
    requires x != [] && x[|x| - 1] == '/'
    ensures var r := Substitute(x, patterns, replacement); r != [] && r[|r| - 1] == '/'
    decreases |x|
  {
    match MatchAtStart(x, patterns)
    case Some(m) =>
      if x[|m|..] != [] {
        SubstituteKeepsFinalSlash(x[|m|..], patterns, replacement);
      }
    case None =>
      if x[1..] != [] {
        SubstituteKeepsFinalSlash(x[1..], patterns, replacement);
      }
  }

  /** Substituting patterns and a replacement that all end in `/` leaves the
      base name alone. */
  lemma SubstituteKeepsBaseName(s: string, patterns: seq<string>, replacement: string)
    requires NonEmpty(patterns) && EndInSlash(patterns)
    requires replacement != [] && replacement[|replacement| - 1] == '/'
    ensures BaseName(Substitute(s, patterns, replacement)) == BaseName(s)
  {
    var k := RFind(s, '/');
    var x, t := s[..k + 1], s[k + 1..];
    assert s == x + t;
    SubstituteBeforeNoSlash(x, t, patterns, replacement);
    if k == -1 {
      assert x == [];
    } else {
      SubstituteKeepsFinalSlash(x, patterns, replacement);
      BaseNameAfterSlash(Substitute(x, patterns, replacement), t);
      BaseNameAfterSlash(x, t);
    }
  }

  // ---------------------------------------------------------------------
  // The host rewrite

  lemma GoogleapisPattern()
    ensures NonEmpty([GOOGLEAPIS_HOST]) && EndInSlash([GOOGLEAPIS_HOST])
  {
  }

  lemma CloudPatterns()
    ensures NonEmpty(CLOUD_HOST_URLS) && EndInSlash(CLOUD_HOST_URLS)
  {
  }

  /** The link the comment at main.py:254 has in mind:
      `https://storage.googleapis.com/bucket/path` becomes `gs://bucket/path`. */
  lemma GoogleapisLinkBecomesGs(rest: string)
    requires NoMatchIn(rest, [GOOGLEAPIS_HOST], 0, |rest| + 1)
    ensures RewriteHost(GOOGLEAPIS_HOST + rest) == GS_SCHEME + rest
  {
    GoogleapisPattern();
    MatchReplacedAtStart(GOOGLEAPIS_HOST, rest, [GOOGLEAPIS_HOST], GS_SCHEME);
    NoMatchUnchanged(rest, [GOOGLEAPIS_HOST], GS_SCHEME);
  }

  /** `http://` when `secure` is false, `https://` when it is true. */
  function WebScheme(secure: bool): string
  {
    if secure then "https://" else "http://"
  }

  /** A link to the storage.cloud.google.com host does not start with the
      googleapis host. */
  lemma CloudLinkIsNotGoogleapis(secure: bool, rest: string)
    ensures !(GOOGLEAPIS_HOST <= WebScheme(secure) + CLOUD_HOST + rest)
  {
    var s := WebScheme(secure) + CLOUD_HOST + rest;
    assert s[16] == (WebScheme(secure) + CLOUD_HOST)[16];
  }

  /** Such a link takes the second branch of the rewrite, and the
      alternation matches its own spelling at its start. */
  lemma CloudLinkStart(secure: bool, rest: string)
    ensures Contains(WebScheme(secure) + CLOUD_HOST + rest, CLOUD_HOST)
    ensures MatchAtStart(WebScheme(secure) + CLOUD_HOST + rest, CLOUD_HOST_URLS) == Some(WebScheme(secure) + CLOUD_HOST)
  {
    var s := WebScheme(secure) + CLOUD_HOST + rest;
    var w := WebScheme(secure);
    assert s[|w|..] == CLOUD_HOST + rest;
    assert OccursAt(s, CLOUD_HOST, |w|);
    assert s == (w + CLOUD_HOST) + rest;
    if !secure {
      assert s[4] == ':';
    }
  }

  /** A `http://` or `https://` link to `storage.cloud.google.com` becomes a
      `gs://` link to the same bucket and object. */
  lemma CloudLinkBecomesGs(secure: bool, rest: string)
    requires NoMatchIn(rest, CLOUD_HOST_URLS, 0, |rest| + 1)
    ensures RewriteHost(WebScheme(secure) + CLOUD_HOST + rest) == GS_SCHEME + rest
  {
    CloudPatterns();
    CloudLinkIsNotGoogleapis(secure, rest);
    CloudLinkStart(secure, rest);
    MatchReplacedAtStart(WebScheme(secure) + CLOUD_HOST, rest, CLOUD_HOST_URLS, GS_SCHEME);
    NoMatchUnchanged(rest, CLOUD_HOST_URLS, GS_SCHEME);
  }

  /** A link that does not start with the googleapis host and has no
      `http(s)://storage.cloud.google.com/` in it is left as it is. */
  lemma OtherLinksUnchanged(path: string)
    requires !(GOOGLEAPIS_HOST <= path)
    requires NoMatchIn(path, CLOUD_HOST_URLS, 0, |path| + 1)
    ensures RewriteHost(path) == path
  {
    CloudPatterns();
    NoMatchUnchanged(path, CLOUD_HOST_URLS, GS_SCHEME);
  }

  /** The rewrite never touches the part after the last `/`. */
  lemma RewriteKeepsBaseName(path: string)
    ensures BaseName(RewriteHost(path)) == BaseName(path)
  {
    if GOOGLEAPIS_HOST <= path {
      GoogleapisPattern();
      SubstituteKeepsBaseName(path, [GOOGLEAPIS_HOST], GS_SCHEME);
    } else if Contains(path, CLOUD_HOST) {
      CloudPatterns();
      SubstituteKeepsBaseName(path, CLOUD_HOST_URLS, GS_SCHEME);
    }
  }

  /** The thumbnail's file name is the image's, extension dropped and the
      suffix added. */
  lemma ThumbnailFileName(basePath: string)
    ensures BaseName(RewriteHost(basePath) + THUMBNAIL_SUFFIX) == BaseName(basePath) + THUMBNAIL_SUFFIX
  {
    assert '/' !in THUMBNAIL_SUFFIX;
    BaseNameAppend(RewriteHost(basePath), THUMBNAIL_SUFFIX);
    RewriteKeepsBaseName(basePath);
  }

  // ---------------------------------------------------------------------
  // The derivation itself

  /** Whatever ends with a text, ends with it. */
  lemma EndsWithAppended(x: string, suffix: string)
    ensures EndsWith(x + suffix, suffix)
  {
    assert (x + suffix)[|x|..] == suffix;
  }

  lemma AppendAssociates(a: string, b: string, c: string)
    ensures a + (b + c) == a + b + c
  {
  }

  /** main.py:257-273; `outputBucket` is the THUMBNAIL_OUTPUT_BUCKET
      environment variable, "" when it is unset. */
  method DeriveThumbnailLink(imageLink: string, outputBucket: string) returns (thumbnailLink: string)
    ensures EndsWith(thumbnailLink, THUMBNAIL_SUFFIX)
    ensures outputBucket == "" ==> thumbnailLink == RewriteHost(SplitExt(imageLink).0) + THUMBNAIL_SUFFIX
    ensures outputBucket != "" ==>
      thumbnailLink == GS_SCHEME + outputBucket + "/" + BaseName(SplitExt(imageLink).0) + THUMBNAIL_SUFFIX
  {
    var basePath := SplitExt(imageLink).0;
    var parsedPath := basePath;
    if GOOGLEAPIS_HOST <= parsedPath {
      parsedPath := ReplaceGoogleapisHost(parsedPath);
    } else if Contains(parsedPath, CLOUD_HOST) {
      parsedPath := SubCloudHost(parsedPath);
    }
    assert parsedPath == RewriteHost(basePath);
    thumbnailLink := parsedPath + THUMBNAIL_SUFFIX;
    EndsWithAppended(parsedPath, THUMBNAIL_SUFFIX);
    if outputBucket != "" {
      var filename := BaseName(thumbnailLink);
      ThumbnailFileName(basePath);
      ghost var bucketDir := GS_SCHEME + outputBucket + "/";
      AppendAssociates(bucketDir, BaseName(basePath), THUMBNAIL_SUFFIX);
      EndsWithAppended(bucketDir + BaseName(basePath), THUMBNAIL_SUFFIX);
      thumbnailLink := GS_SCHEME + outputBucket + "/" + filename;
    }
  }
}
