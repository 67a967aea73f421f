/** Slide metadata as the two request handlers derive it from the tags of
    page 0: the vendor and the objective power from the ImageDescription
    text, the microns per pixel from that text or, failing it, from the
    XResolution and ResolutionUnit tags (main.py:70-108 in `get_metadata`,
    main.py:193-232 in `process_wsi`). */
module SlideMetadata {
  import opened Wrappers
  import opened Text
  import opened Regex

  const UNKNOWN: string := "unknown"
  const APERIO: string := "aperio"
  /** The ResolutionUnit value that means centimetres. */
  const CENTIMETER: int := 3
  /** Micrometres in a centimetre. */
  const MICRONS_PER_CM: real := 10000.0

  /** An XResolution tag value: a `(numerator, denominator)` tuple or a bare number. */
  datatype XResolution = Ratio(num: int, den: int) | Plain(value: real)

  /** The tags of one page that the rules read. `description` is None when the
      ImageDescription tag is absent or its value is not a str; the two cases
      behave alike. */
  datatype PageTags = PageTags(
    width: nat,
    height: nat,
    description: Option<string>,
    xResolution: Option<XResolution>,
    resolutionUnit: Option<int>)

  /** A microns-per-pixel value: the text captured from the description, or
      the number computed from the resolution tags. */
  datatype Mpp = Described(text: string) | Computed(micronsPerPixel: real)

  /** The metadata dict: `width`, `height`, `mpp`, `objective_power`, `vendor`. */
  datatype Metadata = Metadata(
    width: Option<nat>,
    height: Option<nat>,
    mpp: Option<Mpp>,
    objectivePower: Option<string>,
    vendor: string)

  /** Why a handler fails: there is no page 0, or `float()` rejected a
      captured text (a ValueError). */
  datatype MetadataError = NoPages | NotAFloat(text: string)

  /** The source's test `'Aperio' in desc or 'aperio' in desc.lower()`. */
  predicate MentionsAperio(desc: string)
  {
    Contains(desc, "Aperio") || Contains(Lower(desc), APERIO)
  }

  /** The test is a case-insensitive search for "aperio"; its first half
      adds nothing to its second. */
  lemma MentionsAperioIgnoringCase(desc: string)
    ensures MentionsAperio(desc) <==> ContainsIgnoringCase(desc, APERIO)
  {
    assert forall k :: 0 <= k < |APERIO| ==> !IsUpper(APERIO[k]);
    LowerContains(desc, APERIO);
    if Contains(desc, "Aperio") {
      CapitalAperioIsAperio(desc);
    }
  }

  lemma CapitalAperioIsAperio(desc: string)
    requires Contains(desc, "Aperio")
    ensures ContainsIgnoringCase(desc, APERIO)
  {
    ContainsIsContainsIgnoringCase(desc, "Aperio");
    assert EqualIgnoringCase("Aperio", APERIO);
    ContainsIgnoringCaseRespectsCase(desc, "Aperio", APERIO);
  }

  /** Whether Python's `float()` accepts a run of `[0-9.]`: it needs at least
      one digit and at most one dot. */
  predicate IsFloatLiteral(t: string)
  {
    && (exists k :: 0 <= k < |t| && '0' <= t[k] <= '9')
    && (forall j, k :: 0 <= j < k < |t| ==> t[j] != '.' || t[k] != '.')
  }

  /** Group 1 of a search result, if there was a match. */
  function Group(m: Option<Match>): Option<string>
  {
    if m.Some? then Some(m.value.group) else None
  }

  /** What the description contributes: the vendor, and for Aperio the MPP
      and AppMag texts. */
  datatype DescribedFields = DescribedFields(vendor: string, mpp: Option<string>, objective: Option<string>)

  function DescriptionFields(desc: Option<string>): Result<DescribedFields, MetadataError>
  {
    if desc.None? || !MentionsAperio(desc.value) then Success(DescribedFields(UNKNOWN, None, None))
    else
      var mppText := Group(Search(desc.value, "MPP"));
      var objectiveText := Group(Search(desc.value, "AppMag"));
      if mppText.Some? && !IsFloatLiteral(mppText.value) then Failure(NotAFloat(mppText.value))
      else if objectiveText.Some? && !IsFloatLiteral(objectiveText.value) then Failure(NotAFloat(objectiveText.value))
      else Success(DescribedFields(APERIO, mppText, objectiveText))
  }

  /** `x_res`: `num / den` for a tuple, the number itself otherwise; None
      where the division raises ZeroDivisionError. */
  function ResolutionValue(x: XResolution): (r: Option<real>)
    ensures r.None? <==> x.Ratio? && x.den == 0
    ensures r.Some? && x.Ratio? ==> r.value * x.den as real == x.num as real
    ensures r.Some? && x.Plain? ==> r.value == x.value
  {
    match x
    case Ratio(num, den) => if den == 0 then None else Some(num as real / den as real)
    case Plain(v) => Some(v)
  }

  /** The resolution-tag fallback: micrometres per pixel from pixels per
      centimetre, for a positive resolution in centimetres only (main.py:93-106,
      main.py:224-230). */
  function FallbackMpp(xResolution: Option<XResolution>, unit: Option<int>): (r: Option<real>)
    ensures r.Some? <==>
      && xResolution.Some? && unit == Some(CENTIMETER)
      && ResolutionValue(xResolution.value).Some? && ResolutionValue(xResolution.value).value > 0.0
    ensures r.Some? ==> r.value > 0.0 && r.value * ResolutionValue(xResolution.value).value == MICRONS_PER_CM
  {
    if xResolution.None? || unit.None? then None
    else
      match ResolutionValue(xResolution.value)
      case None => None
      case Some(x) => if unit.value == CENTIMETER && x > 0.0 then Some(MICRONS_PER_CM / x) else None
  }

  /** The MPP field: the description's text if it gave one, else the
      fallback's value if it applies. */
  function ChooseMpp(described: Option<string>, fallback: Option<real>): Option<Mpp>
  {
    if described.Some? then Some(Described(described.value))
    else if fallback.Some? then Some(Computed(fallback.value))
    else None
  }

  /** The metadata of a page, or the error that `float()` raises on it. */
  function PageMetadata(page: PageTags): Result<Metadata, MetadataError>
  {
    match DescriptionFields(page.description)
    case Failure(e) => Failure(e)
    case Success(d) =>
      var mpp := ChooseMpp(d.mpp, FallbackMpp(page.xResolution, page.resolutionUnit));
      Success(Metadata(Some(page.width), Some(page.height), mpp, d.objective, d.vendor))
  }

  /** The page's description says "aperio" in some case. */
  predicate AperioDescription(page: PageTags)
  {
    page.description.Some? && ContainsIgnoringCase(page.description.value, APERIO)
  }

  /** The description yields an MPP text: it is an Aperio one and
      `MPP\s*=\s*([0-9.]+)` matches somewhere in it. */
  predicate HasDescribedMpp(page: PageTags)
  {
    AperioDescription(page) && Search(page.description.value, "MPP").Some?
  }

  // ---------------------------------------------------------------------
  // Properties of the derivation

  /** The vendor is "aperio" exactly when the description mentions Aperio in
      any case, and "unknown" otherwise. */
  lemma VendorIsAperioExactly(page: PageTags)
    requires PageMetadata(page).Success?
    ensures PageMetadata(page).value.vendor == APERIO <==> AperioDescription(page)
    ensures PageMetadata(page).value.vendor == APERIO || PageMetadata(page).value.vendor == UNKNOWN
  {
    if page.description.Some? {
      MentionsAperioIgnoringCase(page.description.value);
    }
  }

  /** A description that does not mention Aperio is not parsed: the
      derivation cannot fail, there is no objective power, and the MPP can
      only come from the resolution tags. */
  lemma OtherVendorsIgnoreDescription(page: PageTags)
    requires !AperioDescription(page)
    ensures PageMetadata(page).Success?
    ensures PageMetadata(page).value.vendor == UNKNOWN
    ensures PageMetadata(page).value.objectivePower.None?
    ensures PageMetadata(page).value.mpp.None? || PageMetadata(page).value.mpp.value.Computed?
  {
    if page.description.Some? {
      MentionsAperioIgnoringCase(page.description.value);
    }
  }

  /** For an Aperio description, the objective power is group 1 of the
      leftmost `AppMag\s*=\s*([0-9.]+)` match and the MPP is group 1 of the
      leftmost `MPP\s*=\s*([0-9.]+)` match; a missing match leaves the field
      to its default rather than failing. */
  lemma AperioFieldsAreLeftmostCaptures(page: PageTags)
    requires AperioDescription(page) && PageMetadata(page).Success?
    ensures PageMetadata(page).value.objectivePower == Group(Search(page.description.value, "AppMag"))
    ensures HasDescribedMpp(page) ==>
      PageMetadata(page).value.mpp == Some(Described(Search(page.description.value, "MPP").value.group))
  {
    MentionsAperioIgnoringCase(page.description.value);
  }

  /** The derivation fails exactly when the description is an Aperio one and
      one of its captures is not a number `float()` accepts; the error names
      that capture. */
  lemma FailsOnlyOnUnparsableCapture(page: PageTags)
    ensures PageMetadata(page).Failure? <==>
      && AperioDescription(page)
      && (|| (var m := Group(Search(page.description.value, "MPP")); m.Some? && !IsFloatLiteral(m.value))
          || (var o := Group(Search(page.description.value, "AppMag")); o.Some? && !IsFloatLiteral(o.value)))
    ensures PageMetadata(page).Failure? ==>
      && PageMetadata(page).error.NotAFloat?
      && !IsFloatLiteral(PageMetadata(page).error.text)
      && (|| Group(Search(page.description.value, "MPP")) == Some(PageMetadata(page).error.text)
          || Group(Search(page.description.value, "AppMag")) == Some(PageMetadata(page).error.text))
  {
    if page.description.Some? {
      MentionsAperioIgnoringCase(page.description.value);
    }
  }

  /** An MPP from the description wins: the resolution tags are then not
      consulted at all, whatever they hold. */
  lemma DescribedMppTakesPrecedence(page: PageTags, xResolution: Option<XResolution>, unit: Option<int>)
    requires HasDescribedMpp(page)
    ensures PageMetadata(page.(xResolution := xResolution, resolutionUnit := unit)) == PageMetadata(page)
  {
    MentionsAperioIgnoringCase(page.description.value);
  }

  /** Without an MPP from the description, the MPP is computed from the
      resolution tags exactly when both are present, the unit is centimetres
      and the resolution is positive; it is then 10000 / x_res. Any other
      unit, a zero denominator or a resolution at or below zero leaves it
      null. */
  lemma FallbackMppCases(page: PageTags)
    requires PageMetadata(page).Success? && !HasDescribedMpp(page)
    ensures PageMetadata(page).value.mpp.Some? <==>
      && page.xResolution.Some? && page.resolutionUnit == Some(CENTIMETER)
      && ResolutionValue(page.xResolution.value).Some? && ResolutionValue(page.xResolution.value).value > 0.0
    ensures PageMetadata(page).value.mpp.Some? ==>
      && PageMetadata(page).value.mpp.value.Computed?
      && PageMetadata(page).value.mpp.value.micronsPerPixel * ResolutionValue(page.xResolution.value).value == MICRONS_PER_CM
  {
    if page.description.Some? {
      MentionsAperioIgnoringCase(page.description.value);
    }
  }

  /** A computed MPP only ever appears when the description gave none. */
  lemma ComputedMppOnlyAsFallback(page: PageTags)
    requires PageMetadata(page).Success?
    requires PageMetadata(page).value.mpp.Some? && PageMetadata(page).value.mpp.value.Computed?
    ensures !HasDescribedMpp(page)
    ensures page.xResolution.Some? && page.resolutionUnit == Some(CENTIMETER)
  {
    if page.description.Some? {
      MentionsAperioIgnoringCase(page.description.value);
    }
  }

  // ---------------------------------------------------------------------
  // The two handlers, step by step as the source rebinds its variables

  /** `get_metadata` (main.py:65-117): page 0 must exist; the rules rebind
      `mpp`, `vendor` and `objective` one after the other. */
  method GetMetadata(pages: seq<PageTags>) returns (r: Result<Metadata, MetadataError>)
    ensures |pages| == 0 ==> r == Failure(NoPages)
    ensures |pages| > 0 ==> r == PageMetadata(pages[0])
  {
    if |pages| == 0 {
      return Failure(NoPages);
    }
    var page := pages[0];
    var width, height := page.width, page.height;
    var mpp: Option<Mpp> := None;
    var vendor := UNKNOWN;
    var objective: Option<string> := None;
    ghost var describedText: Option<string> := None;
    if page.description.Some? {
      var desc := page.description.value;
      if MentionsAperio(desc) {
        vendor := APERIO;
        var mppMatch := Search(desc, "MPP");
        if mppMatch.Some? {
          if !IsFloatLiteral(mppMatch.value.group) {
            assert DescriptionFields(page.description) == Failure(NotAFloat(mppMatch.value.group));
            return Failure(NotAFloat(mppMatch.value.group));
          }
          mpp := Some(Described(mppMatch.value.group));
        }
        describedText := Group(mppMatch);
        var objMatch := Search(desc, "AppMag");
        if objMatch.Some? {
          if !IsFloatLiteral(objMatch.value.group) {
            assert DescriptionFields(page.description) == Failure(NotAFloat(objMatch.value.group));
            return Failure(NotAFloat(objMatch.value.group));
          }
          objective := Some(objMatch.value.group);
        }
      }
    }
    assert DescriptionFields(page.description) == Success(DescribedFields(vendor, describedText, objective));
    assert mpp == ChooseMpp(describedText, None);
    ghost var fallback := FallbackMpp(page.xResolution, page.resolutionUnit);
    if mpp.None? {
      if page.xResolution.Some? && page.resolutionUnit.Some? {
        var xResTag := page.xResolution.value;
        var resUnit := page.resolutionUnit.value;
        // The try block: a zero denominator raises before the unit is tested.
        var xRes := ResolutionValue(xResTag);
        if xRes.Some? {
          if resUnit == CENTIMETER && xRes.value > 0.0 {
            mpp := Some(Computed(MICRONS_PER_CM / xRes.value));
          }
        }
        assert mpp == ChooseMpp(None, fallback);
      }
    }
    assert mpp == ChooseMpp(describedText, fallback);
    return Success(Metadata(Some(width), Some(height), mpp, objective, vendor));
  }

  /** The metadata part of `process_wsi` (main.py:193-232): the dict starts
      with every field null and the vendor "unknown", and is updated in place
      only when the file has a page. */
  method ProcessMetadata(pages: seq<PageTags>) returns (r: Result<Metadata, MetadataError>)
    ensures |pages| == 0 ==> r == Success(Metadata(None, None, None, None, UNKNOWN))
    ensures |pages| > 0 ==> r == PageMetadata(pages[0])
  {
    var metadata := Metadata(None, None, None, None, UNKNOWN);
    if |pages| > 0 {
      var page := pages[0];
      metadata := metadata.(width := Some(page.width), height := Some(page.height));
      ghost var describedText: Option<string> := None;
      if page.description.Some? {
        var desc := page.description.value;
        if MentionsAperio(desc) {
          metadata := metadata.(vendor := APERIO);
          var mppMatch := Search(desc, "MPP");
          if mppMatch.Some? {
            if !IsFloatLiteral(mppMatch.value.group) {
              assert DescriptionFields(page.description) == Failure(NotAFloat(mppMatch.value.group));
              return Failure(NotAFloat(mppMatch.value.group));
            }
            metadata := metadata.(mpp := Some(Described(mppMatch.value.group)));
          }
          describedText := Group(mppMatch);
          var objMatch := Search(desc, "AppMag");
          if objMatch.Some? {
            if !IsFloatLiteral(objMatch.value.group) {
              assert DescriptionFields(page.description) == Failure(NotAFloat(objMatch.value.group));
              return Failure(NotAFloat(objMatch.value.group));
            }
            metadata := metadata.(objectivePower := Some(objMatch.value.group));
          }
          assert metadata.objectivePower == Group(objMatch);
          assert DescriptionFields(page.description) == Success(DescribedFields(APERIO, describedText, Group(objMatch)));
        }
      }
      assert DescriptionFields(page.description)
        == Success(DescribedFields(metadata.vendor, describedText, metadata.objectivePower));
      assert metadata.mpp == ChooseMpp(describedText, None);
      ghost var fallback := FallbackMpp(page.xResolution, page.resolutionUnit);
      if metadata.mpp.None? && page.xResolution.Some? && page.resolutionUnit.Some? {
        var xRes := ResolutionValue(page.xResolution.value);
        // The bare `except: pass` swallows the ZeroDivisionError.
        if xRes.Some? && page.resolutionUnit.value == CENTIMETER && xRes.value > 0.0 {
          metadata := metadata.(mpp := Some(Computed(MICRONS_PER_CM / xRes.value)));
        }
        assert metadata.mpp == ChooseMpp(None, fallback);
      }
      assert metadata.mpp == ChooseMpp(describedText, fallback);
    }
    return Success(metadata);
  }
}
