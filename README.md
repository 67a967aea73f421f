# Whole-slide image metadata and thumbnail link, in Dafny

The service reads the first page of a whole-slide image (an Aperio SVS or
generic TIFF). From it, it derives four things:

- the slide's dimensions;
- the vendor;
- the objective power;
- the microns per pixel (MPP).

The `/process` endpoint also derives the `gs://` link where it writes the
slide's PNG thumbnail. This project models both derivations and proves what
they promise.

- `wrappers.dfy` (`Wrappers`): `Option` and `Result`.
- `text.dfy` (`Text`): substring tests, ASCII lower-casing and
  case-insensitive search.
- `regex.dfy` (`Regex`): `re.search(r'KEY\s*=\s*([0-9.]+)', text)`. `\s` is
  Python's set of white-space characters. `Search` gives the leftmost match
  and its group 1.
- `metadata.dfy` (`SlideMetadata`): the rules that turn the tags of page 0
  into the metadata record.
  - `PageMetadata` is their reference definition.
  - `GetMetadata` and `ProcessMetadata` are the two handlers. They update
    their variables or their metadata record step by step, as the source does.
    Each is proved equal to the reference.
- `paths.dfy` (`Paths`): `str.rfind`, `os.path.basename` and
  `os.path.splitext` on POSIX paths.
- `link.dfy` (`ThumbnailLink`): the output link.
  - `Substitute` is a left-to-right, non-overlapping replacement. It stands
    for both `str.replace` and `re.sub` over an alternation.
  - `RewriteHost` is the host rewrite.
  - `DeriveThumbnailLink` is the derivation itself.

The modelling choices:

- A captured MPP or AppMag text is kept as text. A text that `float()` would
  reject (no digit, or two dots) is the error `NotAFloat`.
- An XResolution tuple is a pair of integers and is divided exactly. A zero
  denominator makes the tag unusable, as the caught ZeroDivisionError does.
- `get_metadata` fails with `NoPages` on a file without pages. `process_wsi`
  keeps its default record in that case.
- The environment variable THUMBNAIL_OUTPUT_BUCKET is a parameter, `""` when
  it is unset.

## Model

| member | source | states |
|---|---|---|
| Text.LowerContains | main.py:79 | for a pattern without capitals, a search in the lower-cased text is a case-insensitive search in the text, both ways |
| SlideMetadata.MentionsAperioIgnoringCase | main.py:79 | the two-part Aperio test holds exactly when "aperio" occurs in the description in any case |
| Regex.GroupAtIsLayout | main.py:82 | the pattern matches at a position with capture v exactly when: the key starts there, then spaces, `=`, spaces, and v is a non-empty maximal run of digits and dots |
| Regex.SearchFrom | main.py:82 | a result is a match at or after the start with no match between the start and it; no result means no match anywhere from the start |
| Regex.Search | main.py:82-88 | the result is a match of `KEY\s*=\s*([0-9.]+)` at its start with no match at any earlier position; no result means no match at any position |
| SlideMetadata.ResolutionValue | main.py:99-102 | the tuple value times its denominator is its numerator; a bare number is itself; only a zero denominator gives nothing |
| SlideMetadata.FallbackMpp | main.py:91-106 | a value exists exactly when both tags are present, the unit is 3 and the resolution is positive; it is positive and times the resolution gives 10000 |
| SlideMetadata.VendorIsAperioExactly | main.py:71-80 | the vendor is "aperio" exactly when the description mentions Aperio in any case, and "unknown" otherwise |
| SlideMetadata.OtherVendorsIgnoreDescription | main.py:75-88 | without an Aperio mention the derivation cannot fail, the objective power is null and any MPP is computed from the tags |
| SlideMetadata.AperioFieldsAreLeftmostCaptures | main.py:82-88 | for Aperio, the objective power is group 1 of the leftmost AppMag match, and a described MPP is group 1 of the leftmost MPP match; a missing match leaves the field null |
| SlideMetadata.FailsOnlyOnUnparsableCapture | main.py:84-88 | it fails exactly when an Aperio capture is not accepted by `float()`; the error carries that capture |
| SlideMetadata.DescribedMppTakesPrecedence | main.py:91 | with an MPP from the description the result is the same whatever the resolution tags hold |
| SlideMetadata.FallbackMppCases | main.py:91-106 | without a described MPP, an MPP exists exactly when both tags are present, the unit is centimetres and the resolution is positive; it is computed and equals 10000 / x_res |
| SlideMetadata.ComputedMppOnlyAsFallback | main.py:91-106 | a computed MPP implies the description gave none and both tags were there with unit 3 |
| SlideMetadata.GetMetadata | main.py:65-117 | on no pages the result is the NoPages error; otherwise it is the reference metadata of page 0, errors included |
| SlideMetadata.ProcessMetadata | main.py:193-232 | on no pages the result is the default record (all null, vendor "unknown"); otherwise it is the reference metadata of page 0, errors included |
| Paths.RFind | main.py:272 | the result is -1 or an index holding the character, and no later index holds it |
| Paths.BaseName | main.py:272 | the base name has no `/`, ends the path, and is preceded by `/` when shorter than the path |
| Paths.SplitExt | main.py:257 | root plus extension is the path; the extension is empty or a dot followed by neither `/` nor `.` |
| Paths.SplitExtIffExtension | main.py:257 | the extension is non-empty exactly when the base name has a dot after a character other than a dot |
| Paths.SplitExtKeepsBaseName | main.py:257 | the base name of the root followed by the extension is the base name of the path |
| Paths.BaseNameAppend | main.py:264-272 | appending text without `/` appends it to the base name |
| ThumbnailLink.MatchAtStart | main.py:262 | a result is one of the alternatives and a prefix of the text; no result means no alternative is a prefix |
| ThumbnailLink.NoMatchUnchanged | main.py:260-262 | a replacement over a text with no match anywhere returns it unchanged |
| ThumbnailLink.FirstMatchReplaced | main.py:260-262 | the text before the leftmost match is copied, the match is replaced, and the scan resumes right after it |
| ThumbnailLink.SubstituteKeepsBaseName | main.py:260-262 | replacing patterns that end in `/` by a replacement ending in `/` leaves the base name unchanged |
| ThumbnailLink.GoogleapisLinkBecomesGs | main.py:254-260 | `https://storage.googleapis.com/` + rest becomes `gs://` + rest when rest holds no further such host |
| ThumbnailLink.CloudLinkBecomesGs | main.py:261-262 | `http(s)://storage.cloud.google.com/` + rest becomes `gs://` + rest when rest holds no further such URL |
| ThumbnailLink.OtherLinksUnchanged | main.py:259-262 | a link not starting with the googleapis host and holding no storage.cloud.google.com URL is left unchanged |
| ThumbnailLink.RewriteKeepsBaseName | main.py:259-262 | the host rewrite never changes the base name |
| ThumbnailLink.ThumbnailFileName | main.py:264-272 | the thumbnail's file name is the image's base name without extension, followed by `_thumbnail.png` |
| ThumbnailLink.DeriveThumbnailLink | main.py:257-273 | the link ends in `_thumbnail.png`. Without an output bucket it is the rewritten root plus the suffix. With one it is `gs://` + bucket + `/` + the root's base name + the suffix |

## Left out

- Reading the file is not modelled: fsspec opening, TIFF parsing, page shapes and tag lookup. Page 0 comes in as its tag values, and `PageTags.description` is None for an absent or non-str tag.
- Thumbnail rendering, PNG encoding and the upload (`get_thumbnail`, steps 2, 3 and 4 of `process_wsi`) are I/O. Without pages, the rendering step fails after the metadata is derived; that failure is not modelled.
- HTTP plumbing is not modelled: request and response models, mapping failures to status 500, logging, and echoing `source_url`.
- SlideMetadata.PageMetadata: MPP and AppMag stay as text; the floating-point value `float()` gives is not modelled. Tuple division and `10000.0 / x_res` are exact (real numbers), not IEEE doubles.
- SlideMetadata.FallbackMpp: an XResolution value that is neither a pair of integers nor a number is not modelled. Such values make `float()` raise TypeError or ValueError; a tuple of another length is not modelled either.
- Text.Lower maps ASCII letters only. Python's `str.lower` also maps other letters; those mappings are not modelled.
- `\s` is Python's `str.isspace` set of characters. Regex flags and other regular-expression syntax are not modelled, since the source uses none.
- `os.environ.get` is a parameter of `DeriveThumbnailLink`.
