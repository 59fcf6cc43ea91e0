/** `validate_series`: five screening checks over the metadata of one series,
    each reading one key of the metadata dictionary with a default for a
    missing key. A series goes on to inference only when every check
    passes. */
module Validation {
  import opened Common

  /** A spacing as the metadata reports it: a list of values, or the text
      "N/A" when the header has none. */
  datatype Spacing = NotAvailable | Values(values: seq<real>)

  /** The metadata dictionary of one series; `None` is a missing key. */
  datatype Meta = Meta(
    sourceFormat: Option<string>,
    modality: Option<string>,
    orientation: Option<string>,
    numFrames: Option<int>,
    studyUid: Option<string>,
    pixelSpacing: Spacing,
    sliceThickness: Spacing,
    bodyPart: Option<string>)

  datatype CheckKind = SourceFormatCheck | ModalityCheck | BodyPartCheck | OrientationCheck | SliceCountCheck

  datatype Check = Check(kind: CheckKind, passed: bool)

  /** The value `meta.get` substitutes for a missing text key. */
  const NotAvailableText: string := "N/A"

  /** Words that mark a chest study, matched in the upper-cased body part;
      the last is the stem of the Russian word for "chest". */
  const ChestKeywords: seq<string> := ["CHEST", "THORAX", "LUNG", "ГРУД"]

  /** A series needs strictly more slices than this. */
  const MinSlices: int := 10

  const AcceptedModalities: seq<string> := ["CT", "NIFTI"]

  predicate MentionsChest(bodyPart: string) {
    exists k :: 0 <= k < |ChestKeywords| && Contains(Upper(bodyPart), ChestKeywords[k])
  }

  /** The checks in the order the report lists them. */
  function Validate(m: Meta): (checks: seq<Check>)
    ensures |checks| == 5
    ensures checks[0].kind == SourceFormatCheck && checks[1].kind == ModalityCheck
         && checks[2].kind == BodyPartCheck && checks[3].kind == OrientationCheck
         && checks[4].kind == SliceCountCheck
    ensures checks[0].passed <==> m.sourceFormat.Some? && m.sourceFormat.value != NotAvailableText
    ensures checks[1].passed <==> m.modality == Some("CT") || m.modality == Some("NIFTI")
    ensures checks[2].passed <==> m.bodyPart.Some? && MentionsChest(m.bodyPart.value)
    ensures checks[3].passed <==> m.orientation == Some("Axial")
    ensures checks[4].passed <==> m.numFrames.Some? && m.numFrames.value > MinSlices
  {
    NotAvailableIsNoChest();
    [ Check(SourceFormatCheck, m.sourceFormat.GetOr(NotAvailableText) != NotAvailableText),
      Check(ModalityCheck, m.modality.GetOr(NotAvailableText) in AcceptedModalities),
      Check(BodyPartCheck, MentionsChest(m.bodyPart.GetOr(NotAvailableText))),
      Check(OrientationCheck, m.orientation.GetOr("Unknown") == "Axial"),
      Check(SliceCountCheck, m.numFrames.GetOr(0) > MinSlices) ]
  }

  predicate AllPassed(checks: seq<Check>) {
    forall i :: 0 <= i < |checks| ==> checks[i].passed
  }

  /** The caller's verdict: the series is valid when every check passes. */
  predicate IsValid(m: Meta) {
    AllPassed(Validate(m))
  }

  /** A word longer than the text cannot occur in it. */
  lemma ContainsNeedsRoom(s: string, w: string)
    requires |s| < |w|
    ensures !Contains(s, w)
  {
  }

  /** The default "N/A" names no body part, so a missing body part fails. */
  lemma NotAvailableIsNoChest()
    ensures !MentionsChest(NotAvailableText)
  {
    forall k | 0 <= k < |ChestKeywords| ensures !Contains(Upper(NotAvailableText), ChestKeywords[k]) {
      ContainsNeedsRoom(Upper(NotAvailableText), ChestKeywords[k]);
    }
  }

  lemma UpperAfterLower(s: string)
    ensures Upper(Lower(s)) == Upper(s)
  {
  }

  /** The body-part check ignores letter case: a lower-cased body part gets
      the same verdict. */
  lemma BodyPartIgnoresCase(b: string)
    ensures MentionsChest(Lower(b)) <==> MentionsChest(b)
  {
    UpperAfterLower(b);
  }

  /** A series is valid exactly when it comes from a known source, is a CT or
      NIfTI study of the chest, is sliced axially and has more than ten
      slices. */
  lemma ValidIffScreenable(m: Meta)
    ensures IsValid(m) <==>
      && m.sourceFormat.Some? && m.sourceFormat.value != NotAvailableText
      && (m.modality == Some("CT") || m.modality == Some("NIFTI"))
      && m.bodyPart.Some? && MentionsChest(m.bodyPart.value)
      && m.orientation == Some("Axial")
      && m.numFrames.Some? && m.numFrames.value > MinSlices
  {
    var c := Validate(m);
    assert IsValid(m) <==> c[0].passed && c[1].passed && c[2].passed && c[3].passed && c[4].passed;
  }

  /** Adding slices never makes a passing slice count fail. */
  lemma SliceCountMonotonic(m: Meta, n: int)
    requires Validate(m)[4].passed && m.numFrames.value <= n
    ensures Validate(m.(numFrames := Some(n)))[4].passed
  {
  }

  /** Body parts as scanners write them: English in any case, Russian in
      lower case. */
  lemma ChestSpellings()
    ensures MentionsChest("chest")
    ensures MentionsChest("Thorax/Abdomen")
    ensures MentionsChest("LUNGS")
    ensures MentionsChest("грудная клетка")
  {
    assert Upper("chest") == "CHEST";
    assert OccursAt(Upper("chest"), ChestKeywords[0], 0);
    assert Upper("Thorax/Abdomen")[..6] == "THORAX";
    assert OccursAt(Upper("Thorax/Abdomen"), ChestKeywords[1], 0);
    assert Upper("LUNGS")[..4] == "LUNG";
    assert OccursAt(Upper("LUNGS"), ChestKeywords[2], 0);
    assert Upper("грудная клетка")[..4] == "ГРУД";
    assert OccursAt(Upper("грудная клетка"), ChestKeywords[3], 0);
  }

  /** A complete axial chest CT series of twenty slices passes every check. */
  lemma AxialChestSeriesIsValid()
    ensures IsValid(Meta(Some("DICOM Series"), Some("CT"), Some("Axial"), Some(20), Some("1.2.3"),
                         NotAvailable, NotAvailable, Some("CHEST")))
  {
    assert OccursAt(Upper("CHEST"), ChestKeywords[0], 0);
  }
}
