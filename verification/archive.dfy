/** `parse_zip_archive` and its three readers: an uploaded ZIP payload is
    turned into one or more series, each a volume of slices with its
    metadata, or into one error. The decoders the service delegates to (the
    ZIP reader, pydicom, nibabel, PIL) are abstract here: every archive
    entry carries what each decoder would make of it, and decoded pixel
    arrays are opaque values with a shape. */
module Archive {
  import opened Common
  import opened Sorting
  import opened Orientation
  import opened Validation

  // ---------------------------------------------------------------------------
  // Decoder results

  /** A decoded pixel array: its shape and an identity standing for its content. */
  datatype PixelArray = PixelArray(shape: seq<nat>, content: nat)

  /** The pixel data of a DICOM dataset: absent, present but undecodable, or decoded. */
  datatype PixelData = NoPixelData | Undecodable | Pixels(decoded: PixelArray)

  /** The attributes of one dataset read by `pydicom.dcmread(..., force=True)`;
      `None` is an absent attribute. */
  datatype DicomDataset = DicomDataset(
    pixelData: PixelData,
    seriesUid: Option<string>,
    instanceNumber: Option<int>,
    numberOfFrames: Option<int>,
    orientation: Option<seq<real>>,
    modality: Option<string>,
    studyUid: Option<string>,
    pixelSpacing: Option<seq<real>>,
    sliceThickness: Option<real>,
    bodyPart: Option<string>)

  /** Outcome of reading only the header of an entry: a header, pydicom's
      `InvalidDicomError`, or any other exception. */
  datatype Sniff = HeaderRead | NotDicom | SniffRaised

  /** What nibabel yields for a NIfTI entry: the data array, the voxel sizes
      and the axis codes of the affine, joined into one string. */
  datatype NiftiImage = NiftiImage(data: PixelArray, zooms: seq<real>, axisCodes: string)

  /** One archive member; each decoder field is `None` where that decoder raises. */
  datatype Entry = Entry(
    name: string,
    dicom: Option<DicomDataset>,
    sniff: Sniff,
    nifti: Option<NiftiImage>,
    image: Option<PixelArray>)

  /** The uploaded bytes: their length and the archive members, or `None`
      when the bytes are not a readable ZIP archive. */
  datatype Payload = Payload(size: nat, entries: Option<seq<Entry>>)

  // ---------------------------------------------------------------------------
  // Results

  /** The assembled volume: slices stacked along a new leading axis, a
      decoded array as is, or a decoded array with its three axes reversed
      (`np.transpose(volume, (2, 1, 0))`). */
  datatype Volume = Stacked(frames: seq<PixelArray>) | Whole(data: PixelArray) | AxesReversed(data: PixelArray)

  datatype Series = Series(uid: string, volume: Volume, meta: Meta)

  /** Exceptions that end in the generic handler. */
  datatype Fault =
    | HeaderUnreadable     // the single entry's dataset cannot be read
    | PixelsUndecodable    // `pixel_array` raises
    | ShapeMismatch        // `np.stack` of slices of different shapes
    | ImageUndecodable     // PIL cannot open or convert an image
    | SniffFailed          // the header read raises something other than InvalidDicomError
    | ArchiveNameMissing   // the archive object has no file name

  datatype ParseError =
    | TooLarge
    | NotZip
    | EmptyArchive
    | MultipleNifti
    | NiftiUnreadable
    | NoImages
    | NoDicomFiles
    | NoDicomSeries
    | Unsupported
    | Unexpected(fault: Fault)

  /** Payloads above 500 MiB are refused before the archive is opened. */
  const MaxPayload: nat := 500 * 1024 * 1024

  function Reverse(s: seq<nat>): (r: seq<nat>)
    ensures |r| == |s| && forall i :: 0 <= i < |s| ==> r[i] == s[|s| - 1 - i]
  {
    seq(|s|, i requires 0 <= i < |s| => s[|s| - 1 - i])
  }

  /** The shape of the assembled volume. */
  function Shape(v: Volume): seq<nat> {
    match v
    case Stacked(frames) => [|frames|] + (if frames == [] then [] else frames[0].shape)
    case Whole(data) => data.shape
    case AxesReversed(data) => Reverse(data.shape)
  }

  /** `np.stack(frames)`: all slices must have the shape of the first. */
  function Stack(frames: seq<PixelArray>): (r: Result<Volume, Fault>)
    requires |frames| > 0
    ensures r.Success? <==> forall i :: 0 <= i < |frames| ==> frames[i].shape == frames[0].shape
    ensures r.Success? ==> r.value == Stacked(frames) && Shape(r.value)[0] == |frames|
    ensures r.Failure? ==> r.error == ShapeMismatch
  {
    if forall i :: 0 <= i < |frames| ==> frames[i].shape == frames[0].shape then Success(Stacked(frames))
    else Failure(ShapeMismatch)
  }

  // ---------------------------------------------------------------------------
  // Entry names

  predicate IsJunk(name: string) {
    StartsWith(name, "__MACOSX/") || EndsWith(name, "/")
  }

  /** Members that are neither macOS resource forks nor directories. */
  predicate IsContent(e: Entry) {
    !IsJunk(e.name)
  }

  predicate IsNiftiEntry(e: Entry) {
    EndsWith(Lower(e.name), ".nii") || EndsWith(Lower(e.name), ".nii.gz")
  }

  predicate IsImageEntry(e: Entry) {
    EndsWith(Lower(e.name), ".png") || EndsWith(Lower(e.name), ".jpg") || EndsWith(Lower(e.name), ".jpeg")
  }

  function EntryName(e: Entry): string {
    e.name
  }

  /** `name.split('/')[-1]`: the text after the last slash. */
  function LastComponent(name: string): (r: string)
    ensures EndsWith(name, r) && '/' !in r
    ensures |r| < |name| ==> name[|name| - |r| - 1] == '/'
  {
    if name == [] || name[|name| - 1] == '/' then []
    else
      var r := LastComponent(name[..|name| - 1]);
      assert name[..|name| - 1][|name| - 1 - |r|..] == name[|name| - 1 - |r|..|name| - 1];
      r + [name[|name| - 1]]
  }

  /** Whatever precedes the last slash, the component is the text after it. */
  lemma {:induction false} LastComponentAfterSlash(pre: string, tail: string)
    requires '/' !in tail
    ensures LastComponent(pre + "/" + tail) == tail
    decreases |tail|
  {
    var name := pre + "/" + tail;
    if tail == [] {
      assert name == pre + "/";
    } else {
      var init := tail[..|tail| - 1];
      assert name[..|name| - 1] == pre + "/" + init;
      assert name[|name| - 1] == tail[|tail| - 1];
      LastComponentAfterSlash(pre, init);
      assert tail == init + [tail[|tail| - 1]];
    }
  }

  // ---------------------------------------------------------------------------
  // DICOM

  /** The metadata both DICOM readers record, read from one dataset. */
  function DicomMeta(format: string, d: DicomDataset, numFrames: int): (m: Meta)
    ensures m.sourceFormat == Some(format) && m.numFrames == Some(numFrames)
    ensures m.orientation == Some(PlaneName(DicomOrientation(d.orientation)))
    ensures m.modality == Some(d.modality.GetOr(NotAvailableText))
    ensures m.bodyPart == Some(d.bodyPart.GetOr(NotAvailableText))
    ensures m.studyUid == Some(d.studyUid.GetOr(NotAvailableText))
    ensures m.pixelSpacing == (if d.pixelSpacing.Some? then Values(d.pixelSpacing.value) else NotAvailable)
    ensures m.sliceThickness == (if d.sliceThickness.Some? then Values([d.sliceThickness.value]) else NotAvailable)
  {
    Meta(
      Some(format),
      Some(d.modality.GetOr(NotAvailableText)),
      Some(PlaneName(DicomOrientation(d.orientation))),
      Some(numFrames),
      Some(d.studyUid.GetOr(NotAvailableText)),
      match d.pixelSpacing case Some(v) => Values(v) case None => NotAvailable,
      match d.sliceThickness case Some(t) => Values([t]) case None => NotAvailable,
      Some(d.bodyPart.GetOr(NotAvailableText)))
  }

  /** A single dataset declaring more than one frame becomes one series
      holding its whole pixel array; the frame count is the declared one. */
  function ParseMultiFrame(d: DicomDataset): (r: Result<seq<Series>, ParseError>)
    requires d.numberOfFrames.GetOr(1) > 1
    ensures r.Success? <==> d.pixelData.Pixels?
    ensures r.Success? ==> (&& |r.value| == 1 && r.value[0].uid == d.seriesUid.GetOr("MultiFrame_DICOM")
                            && r.value[0].volume == Whole(d.pixelData.decoded)
                            && r.value[0].meta == DicomMeta("Multi-frame DICOM", d, d.numberOfFrames.value))
    ensures r.Failure? ==> r.error == Unexpected(PixelsUndecodable)
  {
    match d.pixelData
    case Pixels(a) =>
      Success([Series(d.seriesUid.GetOr("MultiFrame_DICOM"), Whole(a),
                      DicomMeta("Multi-frame DICOM", d, d.numberOfFrames.value))])
    case _ => Failure(Unexpected(PixelsUndecodable))
  }

  /** The datasets the series loop keeps, in archive order: those that can be
      read and carry pixel data. */
  function Readable(files: seq<Entry>): (ds: seq<DicomDataset>)
    ensures |ds| <= |files|
    ensures forall i :: 0 <= i < |ds| ==> !ds[i].pixelData.NoPixelData?
  {
    if files == [] then []
    else
      (match files[0].dicom
       case Some(d) => if d.pixelData.NoPixelData? then [] else [d]
       case None => [])
      + Readable(files[1..])
  }

  /** Members are kept in archive order: reading a concatenation keeps the
      datasets of the first part ahead of those of the second. */
  lemma {:induction false} ReadableInArchiveOrder(a: seq<Entry>, b: seq<Entry>)
    ensures Readable(a + b) == Readable(a) + Readable(b)
  {
    if a != [] {
      assert (a + b)[0] == a[0] && (a + b)[1..] == a[1..] + b;
      ReadableInArchiveOrder(a[1..], b);
    } else {
      assert a + b == b;
    }
  }

  /** The grouping key: the series UID, or "default_series" without one. */
  function SeriesKey(d: DicomDataset): string {
    d.seriesUid.GetOr("default_series")
  }

  function InSeries(u: string): DicomDataset -> bool {
    d => SeriesKey(d) == u
  }

  /** The sort key: the instance number, 0 without one. */
  function InstanceKey(d: DicomDataset): int {
    d.instanceNumber.GetOr(0)
  }

  predicate Distinct(us: seq<string>) {
    forall i, j :: 0 <= i < j < |us| ==> us[i] != us[j]
  }

  /** Some dataset of series `a` comes before every dataset of series `b`:
      `a` first appears earlier than `b`. */
  predicate FirstBefore(ds: seq<DicomDataset>, a: string, b: string) {
    exists k :: 0 <= k < |ds| && SeriesKey(ds[k]) == a && forall m :: 0 <= m <= k ==> SeriesKey(ds[m]) != b
  }

  predicate InFirstAppearanceOrder(ds: seq<DicomDataset>, us: seq<string>) {
    forall i, j :: 0 <= i < j < |us| ==> FirstBefore(ds, us[i], us[j])
  }

  /** The keys of the series dictionary in insertion order: each series key
      once, in order of first appearance. */
  function SeriesOrder(ds: seq<DicomDataset>): (us: seq<string>)
    ensures Distinct(us)
    ensures forall u :: u in us <==> exists d :: d in ds && SeriesKey(d) == u
    ensures |ds| > 0 ==> |us| > 0
  {
    if ds == [] then []
    else
      var init := ds[..|ds| - 1];
      var us := SeriesOrder(init);
      var u := SeriesKey(ds[|ds| - 1]);
      assert forall d :: d in ds <==> d in init || d == ds[|ds| - 1] by {
        assert ds == init + [ds[|ds| - 1]];
      }
      if u in us then us else us + [u]
  }

  /** The keys come in order of first appearance. */
  lemma {:induction false} SeriesOrderFirstAppearance(ds: seq<DicomDataset>)
    ensures InFirstAppearanceOrder(ds, SeriesOrder(ds))
  {
    if ds != [] {
      var init := ds[..|ds| - 1];
      var us := SeriesOrder(init);
      var u := SeriesKey(ds[|ds| - 1]);
      SeriesOrderFirstAppearance(init);
      FirstBeforeGrows(ds, us);
      if u !in us {
        FirstBeforeLast(ds, us);
        AppendInOrder(ds, us, u);
      }
    }
  }

  /** An earlier first appearance stays earlier when a dataset is added. */
  lemma FirstBeforeGrows(ds: seq<DicomDataset>, us: seq<string>)
    requires |ds| > 0 && InFirstAppearanceOrder(ds[..|ds| - 1], us)
    ensures InFirstAppearanceOrder(ds, us)
  {
    var init := ds[..|ds| - 1];
    forall i, j | 0 <= i < j < |us| ensures FirstBefore(ds, us[i], us[j]) {
      assert FirstBefore(init, us[i], us[j]);
      var k :| 0 <= k < |init| && SeriesKey(init[k]) == us[i] && forall m :: 0 <= m <= k ==> SeriesKey(init[m]) != us[j];
      assert SeriesKey(ds[k]) == us[i];
      forall m | 0 <= m <= k ensures SeriesKey(ds[m]) != us[j] {
        assert ds[m] == init[m];
      }
    }
  }

  /** A key that first appears in the last dataset comes after every key
      seen before it. */
  lemma FirstBeforeLast(ds: seq<DicomDataset>, us: seq<string>)
    requires |ds| > 0
    requires forall u :: u in us <==> exists d :: d in ds[..|ds| - 1] && SeriesKey(d) == u
    requires SeriesKey(ds[|ds| - 1]) !in us
    ensures forall i :: 0 <= i < |us| ==> FirstBefore(ds, us[i], SeriesKey(ds[|ds| - 1]))
  {
    var init, u := ds[..|ds| - 1], SeriesKey(ds[|ds| - 1]);
    forall i | 0 <= i < |us| ensures FirstBefore(ds, us[i], u) {
      assert us[i] in us;
      var d :| d in init && SeriesKey(d) == us[i];
      var k :| 0 <= k < |init| && init[k] == d;
      forall m | 0 <= m <= k ensures SeriesKey(ds[m]) != u {
        assert ds[m] == init[m] && init[m] in init;
      }
      assert SeriesKey(ds[k]) == us[i];
    }
  }

  lemma AppendInOrder(ds: seq<DicomDataset>, us: seq<string>, u: string)
    requires InFirstAppearanceOrder(ds, us)
    requires forall i :: 0 <= i < |us| ==> FirstBefore(ds, us[i], u)
    ensures InFirstAppearanceOrder(ds, us + [u])
  {
    var vs := us + [u];
    forall i, j | 0 <= i < j < |vs| ensures FirstBefore(ds, vs[i], vs[j]) {
      assert vs[i] == us[i];
      if j < |us| {
        assert vs[j] == us[j];
      }
    }
  }

  /** The datasets of series `u`, sorted by instance number, ties in
      archive order. */
  function SortedGroup(ds: seq<DicomDataset>, u: string): seq<DicomDataset> {
    SortBy(Filter(ds, InSeries(u)), InstanceKey, IntLe)
  }

  lemma GroupNonEmpty(ds: seq<DicomDataset>, u: string)
    requires u in SeriesOrder(ds)
    ensures |SortedGroup(ds, u)| > 0
  {
    var d :| d in ds && SeriesKey(d) == u;
    FilterMembers(ds, InSeries(u));
    assert d in Filter(ds, InSeries(u));
  }

  /** The pixel array of each dataset in turn: the first undecodable
      dataset raises. */
  function DecodeAll(ds: seq<DicomDataset>): (r: Result<seq<PixelArray>, Fault>)
    ensures r.Success? <==> forall i :: 0 <= i < |ds| ==> ds[i].pixelData.Pixels?
    ensures r.Success? ==> |r.value| == |ds| && forall i :: 0 <= i < |ds| ==> ds[i].pixelData == Pixels(r.value[i])
    ensures r.Failure? ==> r.error == PixelsUndecodable
  {
    if ds == [] then Success([])
    else
      match ds[0].pixelData
      case Pixels(a) =>
        (match DecodeAll(ds[1..])
         case Success(rest) => Success([a] + rest)
         case Failure(f) => Failure(f))
      case _ => Failure(PixelsUndecodable)
  }

  /** Every dataset of `ds` has a pixel array, and all have one shape: what
      reading `pixel_array` of each and stacking them needs. */
  ghost predicate OneShapePixels(ds: seq<DicomDataset>) {
    && (forall d :: d in ds ==> d.pixelData.Pixels?)
    && (forall d, e :: d in ds && e in ds ==> d.pixelData.decoded.shape == e.pixelData.decoded.shape)
  }

  /** Decoding a group and stacking its arrays both succeed exactly when
      the group's pixel arrays all exist and share one shape. */
  lemma DecodeAndStackIff(group: seq<DicomDataset>)
    requires |group| > 0
    ensures (DecodeAll(group).Success? && Stack(DecodeAll(group).value).Success?) <==> OneShapePixels(group)
  {
    if OneShapePixels(group) {
      forall i | 0 <= i < |group| ensures group[i].pixelData.Pixels? {
        assert group[i] in group;
      }
      var frames := DecodeAll(group).value;
      forall i | 0 <= i < |frames| ensures frames[i].shape == frames[0].shape {
        assert group[i] in group && group[0] in group;
      }
    }
    if DecodeAll(group).Success? && Stack(DecodeAll(group).value).Success? {
      var frames := DecodeAll(group).value;
      forall d | d in group ensures d.pixelData.Pixels? && d.pixelData.decoded.shape == frames[0].shape {
        var i :| 0 <= i < |group| && group[i] == d;
      }
    }
  }

  /** The sorted group holds exactly the datasets carrying its key. */
  lemma SortedGroupMembers(ds: seq<DicomDataset>, u: string)
    ensures forall d :: d in SortedGroup(ds, u) <==> d in Filter(ds, InSeries(u))
  {
    forall d ensures d in SortedGroup(ds, u) <==> d in Filter(ds, InSeries(u)) {
      assert d in SortedGroup(ds, u) <==> d in multiset(SortedGroup(ds, u));
    }
  }

  /** Whether pixel arrays share one shape depends only on which datasets
      are present, not on their order. */
  lemma OneShapeSameMembers(a: seq<DicomDataset>, b: seq<DicomDataset>)
    requires forall d :: d in a <==> d in b
    ensures OneShapePixels(a) <==> OneShapePixels(b)
  {
  }

  /** One entry of the result dictionary: series `u` stacked in instance
      order, its metadata read from the first dataset after sorting. It is
      built exactly when every dataset carrying key `u` has a pixel array
      and all of them have one shape. */
  function AssembleSeries(ds: seq<DicomDataset>, u: string): (r: Result<Series, Fault>)
    requires u in SeriesOrder(ds)
    ensures r.Success? <==> OneShapePixels(Filter(ds, InSeries(u)))
    ensures r.Success? ==>
      && r.value.uid == u
      && r.value.meta.sourceFormat == Some("DICOM Series")
      && r.value.meta.numFrames == Some(|SortedGroup(ds, u)|)
      && r.value.volume.Stacked?
      && |r.value.volume.frames| == |SortedGroup(ds, u)|
      && (forall i :: 0 <= i < |SortedGroup(ds, u)| ==> SortedGroup(ds, u)[i].pixelData == Pixels(r.value.volume.frames[i]))
    ensures r.Success? ==> |SortedGroup(ds, u)| > 0 && r.value.meta == DicomMeta("DICOM Series", SortedGroup(ds, u)[0], |SortedGroup(ds, u)|)
  {
    GroupNonEmpty(ds, u);
    var group := SortedGroup(ds, u);
    DecodeAndStackIff(group);
    SortedGroupMembers(ds, u);
    OneShapeSameMembers(group, Filter(ds, InSeries(u)));
    var frames :- DecodeAll(group);
    var volume :- Stack(frames);
    Success(Series(u, volume, DicomMeta("DICOM Series", group[0], |group|)))
  }

  /** The result dictionary, built series by series; the first failure raises. */
  function AssembleAll(ds: seq<DicomDataset>, us: seq<string>): Result<seq<Series>, Fault>
    requires forall u :: u in us ==> u in SeriesOrder(ds)
  {
    AllOk(AssembleEach(ds, us))
  }

  /** One assembly outcome per key, in key order. */
  function AssembleEach(ds: seq<DicomDataset>, us: seq<string>): (rs: seq<Result<Series, Fault>>)
    requires forall u :: u in us ==> u in SeriesOrder(ds)
    ensures |rs| == |us| && forall i :: 0 <= i < |us| ==> rs[i] == AssembleSeries(ds, us[i])
  {
    seq(|us|, k requires 0 <= k < |us| => AssembleSeries(ds, us[k]))
  }

  /** The dictionary holds one assembled series per key, in key order, and
      exists exactly when every series can be assembled. */
  lemma AssembleAllSeries(ds: seq<DicomDataset>, us: seq<string>)
    requires forall u :: u in us ==> u in SeriesOrder(ds)
    ensures AssembleAll(ds, us).Success? <==> forall i :: 0 <= i < |us| ==> AssembleSeries(ds, us[i]).Success?
    ensures AssembleAll(ds, us).Success? ==>
              && |AssembleAll(ds, us).value| == |us|
              && forall i :: 0 <= i < |us| ==> AssembleSeries(ds, us[i]) == Success(AssembleAll(ds, us).value[i])
  {
    var rs := AssembleEach(ds, us);
    assert AssembleAll(ds, us) == AllOk(rs);
  }

  /** `_parse_dicom_series`. */
  function ParseDicomSeries(files: seq<Entry>): (r: Result<seq<Series>, ParseError>)
    ensures r == Failure(NoDicomFiles) <==> files == []
    ensures r.Failure? ==> r.error == NoDicomFiles || r.error == NoDicomSeries || r.error.Unexpected?
    ensures r.Success? ==> |r.value| > 0
  {
    if files == [] then Failure(NoDicomFiles)
    else if |files| == 1 && files[0].dicom.None? then Failure(Unexpected(HeaderUnreadable))
    else if |files| == 1 && files[0].dicom.value.numberOfFrames.GetOr(1) > 1 then ParseMultiFrame(files[0].dicom.value)
    else ParseSingleFrames(files)
  }

  /** The path the DICOM reader takes: nothing to read, a single member
      whose header cannot be read, a single member declaring more than one
      frame (the multi-frame path), or the series loop for every other
      single member and for two or more members. */
  lemma DicomReaderPath(files: seq<Entry>)
    ensures files == [] ==> ParseDicomSeries(files) == Failure(NoDicomFiles)
    ensures |files| == 1 && files[0].dicom.None? ==> ParseDicomSeries(files) == Failure(Unexpected(HeaderUnreadable))
    ensures |files| == 1 && files[0].dicom.Some? && files[0].dicom.value.numberOfFrames.GetOr(1) > 1 ==>
              ParseDicomSeries(files) == ParseMultiFrame(files[0].dicom.value)
    ensures |files| == 1 && files[0].dicom.Some? && files[0].dicom.value.numberOfFrames.GetOr(1) <= 1 ==>
              ParseDicomSeries(files) == ParseSingleFrames(files)
    ensures |files| >= 2 ==> ParseDicomSeries(files) == ParseSingleFrames(files)
  {
  }

  /** The loop over single-frame members: group the kept datasets by series
      key and assemble every group. */
  function ParseSingleFrames(files: seq<Entry>): (r: Result<seq<Series>, ParseError>)
    ensures r == Failure(NoDicomSeries) <==> Readable(files) == []
    ensures r.Failure? ==> r.error == NoDicomSeries || r.error.Unexpected?
    ensures r.Success? ==> |r.value| == |SeriesOrder(Readable(files))| > 0
  {
    var ds := Readable(files);
    if ds == [] then Failure(NoDicomSeries)
    else
      match AssembleAll(ds, SeriesOrder(ds))
      case Success(ss) => Success(ss)
      case Failure(f) => Failure(Unexpected(f))
  }

  /** Every kept dataset has a pixel array, and datasets of one series all
      have one shape. */
  ghost predicate SeriesShapesAgree(ds: seq<DicomDataset>) {
    && (forall d :: d in ds ==> d.pixelData.Pixels?)
    && (forall d, e :: d in ds && e in ds && SeriesKey(d) == SeriesKey(e) ==>
          d.pixelData.decoded.shape == e.pixelData.decoded.shape)
  }

  /** Shapes agree within every series exactly when each series key's
      datasets share one shape. */
  lemma SeriesShapesPerKey(ds: seq<DicomDataset>)
    ensures SeriesShapesAgree(ds) <==> forall u :: u in SeriesOrder(ds) ==> OneShapePixels(Filter(ds, InSeries(u)))
  {
    forall u {
      FilterMembers(ds, InSeries(u));
    }
    if forall u :: u in SeriesOrder(ds) ==> OneShapePixels(Filter(ds, InSeries(u))) {
      forall d | d in ds ensures d.pixelData.Pixels? {
        assert d in Filter(ds, InSeries(SeriesKey(d)));
      }
    }
  }

  /** The series loop succeeds exactly when some member is kept and, within
      each series, every dataset has a pixel array of one common shape. */
  lemma SingleFramesSucceed(files: seq<Entry>)
    ensures ParseSingleFrames(files).Success? <==> Readable(files) != [] && SeriesShapesAgree(Readable(files))
  {
    var ds := Readable(files);
    if ds != [] {
      var us := SeriesOrder(ds);
      AssembleAllSeries(ds, us);
      SeriesShapesPerKey(ds);
      assert ParseSingleFrames(files).Success? <==> AssembleAll(ds, us).Success?;
      forall i | 0 <= i < |us| ensures AssembleSeries(ds, us[i]).Success? <==> OneShapePixels(Filter(ds, InSeries(us[i]))) {
      }
    }
  }

  // ---------------------------------------------------------------------------
  // NIfTI

  /** The axis code starts with a left/right axis followed by an
      anterior/posterior one; `None` where indexing the second letter raises. */
  function NeedsTranspose(code: string): (r: Option<bool>)
    ensures r.None? <==> |code| == 1 && (code[0] == 'L' || code[0] == 'R')
    ensures r == Some(true) <==> |code| >= 2 && (code[0] == 'L' || code[0] == 'R') && (code[1] == 'A' || code[1] == 'P')
  {
    if |code| > 0 && (code[0] == 'L' || code[0] == 'R') then
      if |code| < 2 then None else Some(code[1] == 'A' || code[1] == 'P')
    else Some(false)
  }

  /** `_parse_nifti`: exactly one NIfTI member, read as one axial series. */
  function ParseNifti(niiFiles: seq<Entry>): (r: Result<seq<Series>, ParseError>)
    requires |niiFiles| > 0
    ensures r == Failure(MultipleNifti) <==> |niiFiles| > 1
    ensures r.Failure? ==> r.error == MultipleNifti || r.error == NiftiUnreadable
    ensures r.Success? ==> |r.value| == 1 && r.value[0].uid == "NIfTI_" + niiFiles[0].name
  {
    if |niiFiles| > 1 then Failure(MultipleNifti)
    else
      var e := niiFiles[0];
      match e.nifti
      case None => Failure(NiftiUnreadable)
      case Some(img) =>
        match NeedsTranspose(img.axisCodes)
        case None => Failure(NiftiUnreadable)
        case Some(swap) =>
          if swap && |img.data.shape| != 3 then Failure(NiftiUnreadable)
          else if |img.zooms| < 3 then Failure(NiftiUnreadable)
          else
            var volume := if swap then AxesReversed(img.data) else Whole(img.data);
            if |Shape(volume)| == 0 then Failure(NiftiUnreadable)
            else
              var z := img.zooms;
              var spacing := if swap then Values([z[1], z[0]]) else Values([z[0], z[1]]);
              Success([Series("NIfTI_" + e.name, volume,
                              Meta(Some("NIfTI"), Some("NIFTI"), Some("Axial"), Some(Shape(volume)[0]),
                                   Some(NotAvailableText), spacing, Values([z[2]]), Some(NotAvailableText)))])
  }

  // ---------------------------------------------------------------------------
  // Image series

  /** Each image in turn is opened and converted to grayscale; the first
      that cannot be raises. */
  function DecodeImages(files: seq<Entry>): (r: Result<seq<PixelArray>, Fault>)
    ensures r.Success? <==> forall i :: 0 <= i < |files| ==> files[i].image.Some?
    ensures r.Success? ==> |r.value| == |files| && forall i :: 0 <= i < |files| ==> files[i].image == Some(r.value[i])
    ensures r.Failure? ==> r.error == ImageUndecodable
  {
    if files == [] then Success([])
    else
      match files[0].image
      case Some(a) =>
        (match DecodeImages(files[1..])
         case Success(rest) => Success([a] + rest)
         case Failure(f) => Failure(f))
      case None => Failure(ImageUndecodable)
  }

  /** The series key of an image archive, built from the archive's file name
      (`zf.filename.split('/')[-1]`). An archive opened over an in-memory
      buffer has no file name, and the attribute access raises. */
  function ImageSeriesKey(archiveName: Option<string>): (r: Result<string, Fault>)
    ensures r.Failure? <==> archiveName.None?
    ensures r.Failure? ==> r.error == ArchiveNameMissing
    ensures r.Success? ==> r.value == "ImageSeries_" + LastComponent(archiveName.value)
  {
    match archiveName
    case None => Failure(ArchiveNameMissing)
    case Some(n) => Success("ImageSeries_" + LastComponent(n))
  }

  /** The metadata of an image series: only the frame count is known. */
  function ImageMeta(numFrames: nat): Meta {
    Meta(Some("Image Series"), Some("IMAGE"), Some(PlaneName(Unknown)), Some(numFrames),
         Some(NotAvailableText), NotAvailable, NotAvailable, Some(NotAvailableText))
  }

  /** `_parse_image_series`: the images in name order, stacked into one series. */
  function ParseImageSeries(imgFiles: seq<Entry>, archiveName: Option<string>): (r: Result<seq<Series>, ParseError>)
    ensures r == Failure(NoImages) <==> imgFiles == []
    ensures r.Failure? && imgFiles != [] ==> r.error.Unexpected?
    ensures r.Success? ==> archiveName.Some? && |r.value| == 1
  {
    var sorted := SortBy(imgFiles, EntryName, LexLe);
    match DecodeImages(sorted)
    case Failure(f) => Failure(Unexpected(f))
    case Success(frames) =>
      if frames == [] then Failure(NoImages)
      else
        match Stack(frames)
        case Failure(f) => Failure(Unexpected(f))
        case Success(volume) =>
          match ImageSeriesKey(archiveName)
          case Failure(f) => Failure(Unexpected(f))
          case Success(key) => Success([Series(key, volume, ImageMeta(|frames|))])
  }

  // ---------------------------------------------------------------------------
  // Dispatch

  /** `parse_zip_archive`, given the file name of the archive object the
      image reader asks for. */
  function ParseArchive(p: Payload, archiveName: Option<string>): (r: Result<seq<Series>, ParseError>)
    ensures p.size > MaxPayload ==> r == Failure(TooLarge)
    ensures p.size <= MaxPayload && p.entries.None? ==> r == Failure(NotZip)
  {
    if p.size > MaxPayload then Failure(TooLarge)
    else
      match p.entries
      case None => Failure(NotZip)
      case Some(all) =>
        var files := Filter(all, IsContent);
        if files == [] then Failure(EmptyArchive)
        else
          var nii := Filter(files, IsNiftiEntry);
          if nii != [] then ParseNifti(nii)
          else
            var imgs := Filter(files, IsImageEntry);
            if imgs != [] then ParseImageSeries(imgs, archiveName)
            else
              match files[0].sniff
              case NotDicom => Failure(Unsupported)
              case SniffRaised => Failure(Unexpected(SniffFailed))
              case HeaderRead => ParseDicomSeries(files)
  }

  /** The service as written: the archive is opened over an in-memory
      buffer, so the archive object carries no file name. */
  function ParseUploadAsWritten(p: Payload): Result<seq<Series>, ParseError> {
    ParseArchive(p, None)
  }

  // ---------------------------------------------------------------------------
  // Properties

  /** The series loop keeps exactly the members that can be read and carry
      pixel data; unreadable members are skipped, not fatal. */
  lemma {:induction false} ReadableKeepsDecodableMembers(files: seq<Entry>)
    ensures forall d :: d in Readable(files) <==>
              exists i :: 0 <= i < |files| && files[i].dicom == Some(d) && !d.pixelData.NoPixelData?
  {
    if files != [] {
      ReadableKeepsDecodableMembers(files[1..]);
      assert forall i :: 1 <= i < |files| ==> files[i] == files[1..][i - 1];
      forall d | exists i :: 0 <= i < |files| && files[i].dicom == Some(d) && !d.pixelData.NoPixelData?
        ensures d in Readable(files)
      {
        var i :| 0 <= i < |files| && files[i].dicom == Some(d) && !d.pixelData.NoPixelData?;
        if i > 0 {
          assert files[1..][i - 1].dicom == Some(d);
        }
      }
    }
  }

  /** Each series holds its datasets ordered by instance number, as a
      rearrangement of the datasets carrying its key, and datasets with the
      same instance number keep their archive order. */
  lemma SortedGroupOrder(ds: seq<DicomDataset>, u: string, n: int)
    ensures SortedBy(SortedGroup(ds, u), InstanceKey, IntLe)
    ensures multiset(SortedGroup(ds, u)) == multiset(Filter(ds, InSeries(u)))
    ensures forall d :: d in SortedGroup(ds, u) <==> d in ds && SeriesKey(d) == u
    ensures Filter(SortedGroup(ds, u), SameKey(InstanceKey, IntLe, n))
         == Filter(Filter(ds, InSeries(u)), SameKey(InstanceKey, IntLe, n))
  {
    IntLeIsTotalPreorder();
    SortByIsSorted(Filter(ds, InSeries(u)), InstanceKey, IntLe);
    SortByIsStable(Filter(ds, InSeries(u)), InstanceKey, IntLe, n);
    FilterMembers(ds, InSeries(u));
    forall d ensures d in SortedGroup(ds, u) <==> d in Filter(ds, InSeries(u)) {
      assert d in SortedGroup(ds, u) <==> d in multiset(SortedGroup(ds, u));
    }
  }

  /** The keys of a parse result, in order. */
  function Uids(ss: seq<Series>): (us: seq<string>)
    ensures |us| == |ss| && forall k :: 0 <= k < |ss| ==> us[k] == ss[k].uid
  {
    seq(|ss|, k requires 0 <= k < |ss| => ss[k].uid)
  }

  /** Series `s` is series `s.uid` of the kept datasets `ds`: it counts as
      many frames as datasets carry its key, and its frames are theirs in
      instance order. */
  ghost predicate AssembledFrom(ds: seq<DicomDataset>, s: Series) {
    && s.meta.sourceFormat == Some("DICOM Series")
    && s.meta.numFrames == Some(|Filter(ds, InSeries(s.uid))|)
    && s.volume.Stacked?
    && |s.volume.frames| == |Filter(ds, InSeries(s.uid))|
    && forall i :: 0 <= i < |s.volume.frames| ==> SortedGroup(ds, s.uid)[i].pixelData == Pixels(s.volume.frames[i])
  }

  lemma AssembledOne(ds: seq<DicomDataset>, u: string, s: Series)
    requires u in SeriesOrder(ds) && AssembleSeries(ds, u) == Success(s)
    ensures s.uid == u && AssembledFrom(ds, s)
  {
    assert |SortedGroup(ds, u)| == |Filter(ds, InSeries(u))|;
  }

  /** The single-frame path yields one series per series key found among
      the kept datasets, in order of first appearance; so the keys are
      distinct, every key of a kept dataset has its series, and each series
      is assembled from exactly the datasets carrying its key. */
  lemma DicomSeriesGrouping(files: seq<Entry>)
    requires ParseSingleFrames(files).Success?
    ensures Readable(files) != []
    ensures Uids(ParseSingleFrames(files).value) == SeriesOrder(Readable(files))
    ensures Distinct(Uids(ParseSingleFrames(files).value))
    ensures forall u :: u in Uids(ParseSingleFrames(files).value) <==> exists d :: d in Readable(files) && SeriesKey(d) == u
    ensures forall s :: s in ParseSingleFrames(files).value ==> AssembledFrom(Readable(files), s)
  {
    var ds := Readable(files);
    var us := SeriesOrder(ds);
    AssembleAllSeries(ds, us);
    var ss := AssembleAll(ds, us).value;
    assert ParseSingleFrames(files).value == ss;
    forall k | 0 <= k < |ss| ensures ss[k].uid == us[k] && AssembledFrom(ds, ss[k]) {
      AssembledOne(ds, us[k], ss[k]);
    }
    assert Uids(ss) == us;
  }

  /** Neither "no images" nor "no DICOM files" can be the outcome: both
      readers are only reached with a non-empty member list. */
  lemma UnreachableErrors(p: Payload, archiveName: Option<string>)
    ensures ParseArchive(p, archiveName) != Failure(NoImages)
    ensures ParseArchive(p, archiveName) != Failure(NoDicomFiles)
  {
    if p.size <= MaxPayload && p.entries.Some? {
      var files := Filter(p.entries.value, IsContent);
      if files != [] {
        var nii := Filter(files, IsNiftiEntry);
        var imgs := Filter(files, IsImageEntry);
        if nii != [] {
          assert ParseArchive(p, archiveName) == ParseNifti(nii);
          NiftiReaderErrors(nii);
        } else if imgs != [] {
          assert ParseArchive(p, archiveName) == ParseImageSeries(imgs, archiveName);
          ImageReaderErrors(imgs, archiveName);
        } else {
          assert ParseArchive(p, archiveName) == (
            match files[0].sniff
            case NotDicom => Failure(Unsupported)
            case SniffRaised => Failure(Unexpected(SniffFailed))
            case HeaderRead => ParseDicomSeries(files));
          DicomReaderErrors(files);
        }
      }
    }
  }

  /** The NIfTI reader fails only with its own two errors. */
  lemma NiftiReaderErrors(nii: seq<Entry>)
    requires |nii| > 0
    ensures ParseNifti(nii).Failure? ==> ParseNifti(nii).error == MultipleNifti || ParseNifti(nii).error == NiftiUnreadable
  {
  }

  /** The image reader reports "no images" exactly for an empty list;
      every other failure is an exception for the generic handler. */
  lemma ImageReaderErrors(imgs: seq<Entry>, archiveName: Option<string>)
    ensures ParseImageSeries(imgs, archiveName) == Failure(NoImages) <==> imgs == []
    ensures ParseImageSeries(imgs, archiveName).Failure? && imgs != [] ==> ParseImageSeries(imgs, archiveName).error.Unexpected?
  {
    var sorted := SortBy(imgs, EntryName, LexLe);
    assert |sorted| == |imgs|;
    if imgs == [] {
      assert sorted == [];
    }
  }

  /** The DICOM reader reports "no DICOM files" exactly for an empty list
      and never reports "no images". */
  lemma DicomReaderErrors(files: seq<Entry>)
    ensures ParseDicomSeries(files) == Failure(NoDicomFiles) <==> files == []
    ensures ParseDicomSeries(files) != Failure(NoImages)
  {
  }

  /** An archive holding nothing but directories and macOS resource forks is
      rejected as empty, and nothing else is. */
  lemma EmptyIffOnlyJunk(p: Payload, archiveName: Option<string>)
    ensures ParseArchive(p, archiveName) == Failure(EmptyArchive) <==>
              p.size <= MaxPayload && p.entries.Some?
              && forall i :: 0 <= i < |p.entries.value| ==> IsJunk(p.entries.value[i].name)
  {
    if p.size <= MaxPayload && p.entries.Some? {
      var all := p.entries.value;
      FilterMembers(all, IsContent);
      if forall i :: 0 <= i < |all| ==> IsJunk(all[i].name) {
        FilterNone(all, IsContent);
      } else {
        var i :| 0 <= i < |all| && !IsJunk(all[i].name);
        assert all[i] in Filter(all, IsContent);
        NoReaderReportsEmpty(p, archiveName);
      }
    }
  }

  lemma NoReaderReportsEmpty(p: Payload, archiveName: Option<string>)
    requires p.size <= MaxPayload && p.entries.Some? && Filter(p.entries.value, IsContent) != []
    ensures ParseArchive(p, archiveName) != Failure(EmptyArchive)
  {
  }

  /** A NIfTI member anywhere among the content takes precedence over every
      other reader: the outcome is the NIfTI reader's, so one axial NIfTI
      series or a NIfTI error. */
  lemma NiftiTakesPriority(p: Payload, archiveName: Option<string>, i: nat)
    requires p.size <= MaxPayload && p.entries.Some? && i < |p.entries.value|
    requires IsContent(p.entries.value[i]) && IsNiftiEntry(p.entries.value[i])
    ensures var nii := Filter(Filter(p.entries.value, IsContent), IsNiftiEntry);
            |nii| > 0 && ParseArchive(p, archiveName) == ParseNifti(nii)
    ensures var r := ParseArchive(p, archiveName);
            && (r.Success? ==> |r.value| == 1 && r.value[0].meta.sourceFormat == Some("NIfTI")
                               && r.value[0].meta.orientation == Some("Axial"))
            && (r.Failure? ==> r.error == MultipleNifti || r.error == NiftiUnreadable)
  {
    var all := p.entries.value;
    var files := Filter(all, IsContent);
    var nii := Filter(files, IsNiftiEntry);
    FilterMembers(all, IsContent);
    FilterMembers(files, IsNiftiEntry);
    assert all[i] in nii;
    assert ParseArchive(p, archiveName) == ParseNifti(nii);
    if ParseNifti(nii).Success? {
      NiftiReaderResult(nii);
    }
  }

  /** Two NIfTI members make the archive ambiguous. */
  lemma TwoNiftiMembersRejected(p: Payload, archiveName: Option<string>, i: nat, j: nat)
    requires p.size <= MaxPayload && p.entries.Some? && i < j < |p.entries.value|
    requires IsContent(p.entries.value[i]) && IsNiftiEntry(p.entries.value[i])
    requires IsContent(p.entries.value[j]) && IsNiftiEntry(p.entries.value[j])
    ensures ParseArchive(p, archiveName) == Failure(MultipleNifti)
  {
    var all := p.entries.value;
    var files := Filter(all, IsContent);
    var i', j' := FilterPositions(all, IsContent, i, j);
    FilterKeepsPair(files, IsNiftiEntry, i', j');
  }

  /** The positions two kept elements take in the filtered sequence. */
  lemma {:induction false} FilterPositions<T(!new)>(s: seq<T>, p: T -> bool, i: nat, j: nat) returns (i': nat, j': nat)
    requires i < j < |s| && p(s[i]) && p(s[j])
    ensures i' < j' < |Filter(s, p)| && Filter(s, p)[i'] == s[i] && Filter(s, p)[j'] == s[j]
  {
    var h := if p(s[0]) then [s[0]] else [];
    assert Filter(s, p) == h + Filter(s[1..], p);
    if i == 0 {
      FilterMembers(s[1..], p);
      assert s[j] == s[1..][j - 1];
      assert s[j] in Filter(s[1..], p);
      var m :| 0 <= m < |Filter(s[1..], p)| && Filter(s[1..], p)[m] == s[j];
      i', j' := 0, m + 1;
    } else {
      var a, b := FilterPositions(s[1..], p, i - 1, j - 1);
      i', j' := a + |h|, b + |h|;
    }
  }

  /** A NIfTI member decides the reader on its own: an ambiguous or
      undecodable one fails, otherwise it is one axial series. */
  lemma NiftiReaderResult(nii: seq<Entry>)
    requires |nii| > 0 && ParseNifti(nii).Success?
    ensures |ParseNifti(nii).value| == 1
    ensures var s := ParseNifti(nii).value[0];
            && s.uid == "NIfTI_" + nii[0].name
            && s.meta.sourceFormat == Some("NIfTI") && s.meta.modality == Some("NIFTI")
            && s.meta.orientation == Some("Axial") && s.meta.bodyPart == Some(NotAvailableText)
            && |Shape(s.volume)| > 0 && s.meta.numFrames == Some(Shape(s.volume)[0])
  {
  }

  /** The transposition choice: an axis code led by a left/right axis
      followed by an anterior/posterior axis reverses the three axes, so the
      depth is the last axis of the stored array and the two in-plane
      spacings trade places; any other code keeps the array as stored. */
  lemma NiftiAxes(e: Entry, img: NiftiImage)
    requires e.nifti == Some(img) && |img.data.shape| == 3 && |img.zooms| >= 3
    requires |img.axisCodes| >= 2
    ensures ParseNifti([e]).Success?
    ensures var s, z, shape := ParseNifti([e]).value[0], img.zooms, img.data.shape;
            var swap := (img.axisCodes[0] == 'L' || img.axisCodes[0] == 'R')
                        && (img.axisCodes[1] == 'A' || img.axisCodes[1] == 'P');
            && s.meta.sliceThickness == Values([z[2]])
            && (swap ==> s.volume == AxesReversed(img.data) && s.meta.pixelSpacing == Values([z[1], z[0]])
                         && s.meta.numFrames == Some(shape[2]))
            && (!swap ==> s.volume == Whole(img.data) && s.meta.pixelSpacing == Values([z[0], z[1]])
                          && s.meta.numFrames == Some(shape[0]))
  {
  }

  /** The image reader stacks the members in name order, one frame per
      member, under metadata in which only the frame count is known. */
  lemma ImageReaderResult(imgs: seq<Entry>, archiveName: Option<string>)
    requires imgs != [] && ParseImageSeries(imgs, archiveName).Success?
    ensures |ParseImageSeries(imgs, archiveName).value| == 1
    ensures var s, sorted := ParseImageSeries(imgs, archiveName).value[0], SortBy(imgs, EntryName, LexLe);
            && SortedBy(sorted, EntryName, LexLe)
            && multiset(sorted) == multiset(imgs)
            && Success(s.uid) == ImageSeriesKey(archiveName)
            && s.meta == ImageMeta(|imgs|)
            && s.volume.Stacked? && |s.volume.frames| == |imgs|
            && forall k :: 0 <= k < |imgs| ==> sorted[k].image == Some(s.volume.frames[k])
  {
    LexLeIsTotalPreorder();
    SortByIsSorted(imgs, EntryName, LexLe);
  }

  /** The DICOM reader yields either one multi-frame series or series
      assembled from the kept datasets, under distinct keys. */
  lemma DicomReaderResult(files: seq<Entry>)
    requires ParseDicomSeries(files).Success?
    ensures |ParseDicomSeries(files).value| > 0
    ensures Distinct(Uids(ParseDicomSeries(files).value))
    ensures forall s :: s in ParseDicomSeries(files).value ==>
              || (s.meta.sourceFormat == Some("Multi-frame DICOM") && s.volume.Whole?)
              || AssembledFrom(Readable(files), s)
  {
    if files != [] && !(|files| == 1 && (files[0].dicom.None? || files[0].dicom.value.numberOfFrames.GetOr(1) > 1)) {
      assert ParseDicomSeries(files) == ParseSingleFrames(files);
      DicomSeriesGrouping(files);
      assert |SeriesOrder(Readable(files))| > 0;
    }
  }

  /** Which reader produced a successful result. */
  lemma Dispatch(p: Payload, archiveName: Option<string>) returns (files: seq<Entry>)
    requires ParseArchive(p, archiveName).Success?
    ensures p.size <= MaxPayload && p.entries.Some? && files == Filter(p.entries.value, IsContent) && files != []
    ensures var r, nii, imgs := ParseArchive(p, archiveName), Filter(files, IsNiftiEntry), Filter(files, IsImageEntry);
            || (nii != [] && r == ParseNifti(nii))
            || (nii == [] && imgs != [] && r == ParseImageSeries(imgs, archiveName))
            || (nii == [] && imgs == [] && r == ParseDicomSeries(files))
  {
    files := Filter(p.entries.value, IsContent);
  }

  /** Every series except a multi-frame one counts exactly the slices of its
      volume; a multi-frame series reports the frame count its header
      declares. */
  lemma FramesMatchVolumeDepth(p: Payload, archiveName: Option<string>)
    requires ParseArchive(p, archiveName).Success?
    ensures forall s :: s in ParseArchive(p, archiveName).value && s.meta.sourceFormat != Some("Multi-frame DICOM") ==>
              |Shape(s.volume)| > 0 && s.meta.numFrames == Some(Shape(s.volume)[0])
  {
    var files := Dispatch(p, archiveName);
    var nii, imgs := Filter(files, IsNiftiEntry), Filter(files, IsImageEntry);
    if nii != [] {
      NiftiReaderResult(nii);
    } else if imgs != [] {
      ImageReaderResult(imgs, archiveName);
    } else {
      DicomReaderResult(files);
    }
  }

  /** A successful parse yields at least one series, under distinct keys. */
  lemma SeriesKeysDistinct(p: Payload, archiveName: Option<string>)
    requires ParseArchive(p, archiveName).Success?
    ensures |ParseArchive(p, archiveName).value| > 0
    ensures Distinct(Uids(ParseArchive(p, archiveName).value))
  {
    var files := Dispatch(p, archiveName);
    var nii, imgs := Filter(files, IsNiftiEntry), Filter(files, IsImageEntry);
    if nii != [] {
      NiftiReaderResult(nii);
    } else if imgs != [] {
      ImageReaderResult(imgs, archiveName);
    } else {
      DicomReaderResult(files);
    }
  }

  /** Only DICOM series can pass screening: a NIfTI series never names a
      body part, and an image series never has modality CT or NIFTI. */
  lemma OnlyDicomPassesScreening(p: Payload, archiveName: Option<string>)
    requires ParseArchive(p, archiveName).Success?
    ensures forall s :: s in ParseArchive(p, archiveName).value && IsValid(s.meta) ==>
              s.meta.sourceFormat == Some("DICOM Series") || s.meta.sourceFormat == Some("Multi-frame DICOM")
  {
    var files := Dispatch(p, archiveName);
    var nii, imgs := Filter(files, IsNiftiEntry), Filter(files, IsImageEntry);
    var r := ParseArchive(p, archiveName);
    if nii != [] {
      assert r == ParseNifti(nii);
      NiftiSeriesNeverValid(nii);
    } else if imgs != [] {
      assert r == ParseImageSeries(imgs, archiveName);
      ImageSeriesNeverValid(imgs, archiveName);
    } else {
      assert r == ParseDicomSeries(files);
      DicomReaderResult(files);
    }
  }

  lemma NiftiSeriesNeverValid(nii: seq<Entry>)
    requires |nii| > 0 && ParseNifti(nii).Success?
    ensures forall s :: s in ParseNifti(nii).value ==> !IsValid(s.meta)
  {
    NiftiReaderResult(nii);
    var s := ParseNifti(nii).value[0];
    NotAvailableIsNoChest();
    assert !Validate(s.meta)[2].passed;
  }

  lemma ImageSeriesNeverValid(imgs: seq<Entry>, archiveName: Option<string>)
    requires imgs != [] && ParseImageSeries(imgs, archiveName).Success?
    ensures forall s :: s in ParseImageSeries(imgs, archiveName).value ==> !IsValid(s.meta)
  {
    var v := ParseImageSeries(imgs, archiveName).value;
    ImageReaderMeta(imgs, archiveName);
    ImageMetaNeverValid(|imgs|);
    forall s | s in v ensures !IsValid(s.meta) {
      assert s == v[0];
    }
  }

  lemma ImageReaderMeta(imgs: seq<Entry>, archiveName: Option<string>)
    requires ParseImageSeries(imgs, archiveName).Success?
    ensures |ParseImageSeries(imgs, archiveName).value| == 1
    ensures ParseImageSeries(imgs, archiveName).value[0].meta == ImageMeta(|imgs|)
  {
    assert |SortBy(imgs, EntryName, LexLe)| == |imgs|;
  }

  /** Image metadata names modality IMAGE, which the modality check refuses. */
  lemma ImageMetaNeverValid(n: nat)
    ensures !IsValid(ImageMeta(n))
  {
    assert !Validate(ImageMeta(n))[1].passed;
  }

  /** With no NIfTI member, a raster member selects the image reader before
      any DICOM header is read. */
  lemma ImagesBeforeDicom(p: Payload, archiveName: Option<string>, i: nat)
    requires p.size <= MaxPayload && p.entries.Some? && i < |p.entries.value|
    requires IsContent(p.entries.value[i]) && IsImageEntry(p.entries.value[i])
    requires forall j :: 0 <= j < |p.entries.value| && IsContent(p.entries.value[j]) ==> !IsNiftiEntry(p.entries.value[j])
    ensures var files := Filter(p.entries.value, IsContent);
            ParseArchive(p, archiveName) == ParseImageSeries(Filter(files, IsImageEntry), archiveName)
  {
    var files := Filter(p.entries.value, IsContent);
    FilterMembers(p.entries.value, IsContent);
    FilterMembers(files, IsImageEntry);
    assert p.entries.value[i] in Filter(files, IsImageEntry);
    NoContentNifti(p.entries.value);
  }

  lemma NoContentNifti(all: seq<Entry>)
    requires forall j :: 0 <= j < |all| && IsContent(all[j]) ==> !IsNiftiEntry(all[j])
    ensures Filter(Filter(all, IsContent), IsNiftiEntry) == []
  {
    var files := Filter(all, IsContent);
    FilterMembers(all, IsContent);
    forall k | 0 <= k < |files| ensures !IsNiftiEntry(files[k]) {
      assert files[k] in files;
    }
    FilterNone(files, IsNiftiEntry);
  }

  /** With neither NIfTI nor raster members, the header of the first content
      member decides: not DICOM is unsupported, a header selects the DICOM
      reader for all content members. */
  lemma DicomNeedsHeader(p: Payload, archiveName: Option<string>)
    requires p.size <= MaxPayload && p.entries.Some? && Filter(p.entries.value, IsContent) != []
    requires forall j :: 0 <= j < |p.entries.value| && IsContent(p.entries.value[j]) ==>
               !IsNiftiEntry(p.entries.value[j]) && !IsImageEntry(p.entries.value[j])
    ensures var files, r := Filter(p.entries.value, IsContent), ParseArchive(p, archiveName);
            && (files[0].sniff == NotDicom ==> r == Failure(Unsupported))
            && (files[0].sniff == SniffRaised ==> r == Failure(Unexpected(SniffFailed)))
            && (files[0].sniff == HeaderRead ==> r == ParseDicomSeries(files))
  {
    var files := Filter(p.entries.value, IsContent);
    NoContentNifti(p.entries.value);
    FilterMembers(p.entries.value, IsContent);
    forall k | 0 <= k < |files| ensures !IsImageEntry(files[k]) {
      assert files[k] in files;
    }
    FilterNone(files, IsImageEntry);
  }

  // ---------------------------------------------------------------------------
  // The archive file name

  /** As written, no image archive is ever read: every upload that reaches
      the image reader with decodable images of one shape ends in the
      generic error, because the archive object has no file name. */
  lemma ImageArchiveFailsAsWritten(p: Payload, i: nat)
    requires p.size <= MaxPayload && p.entries.Some? && i < |p.entries.value|
    requires IsContent(p.entries.value[i]) && IsImageEntry(p.entries.value[i])
    requires forall j :: 0 <= j < |p.entries.value| && IsContent(p.entries.value[j]) ==> !IsNiftiEntry(p.entries.value[j])
    ensures ParseUploadAsWritten(p).Failure?
    ensures ParseUploadAsWritten(p).error.Unexpected?
  {
    ImagesBeforeDicom(p, None, i);
    var files := Filter(p.entries.value, IsContent);
    var imgs := Filter(files, IsImageEntry);
    FilterMembers(p.entries.value, IsContent);
    FilterMembers(files, IsImageEntry);
    assert p.entries.value[i] in imgs;
    ImageReaderErrors(imgs, None);
    ImageReaderNeedsName(imgs);
  }

  /** As written, a successful parse never holds an image series. */
  lemma NoImageSeriesAsWritten(p: Payload)
    requires ParseUploadAsWritten(p).Success?
    ensures forall s :: s in ParseUploadAsWritten(p).value ==> s.meta.sourceFormat != Some("Image Series")
  {
    var ss := ParseUploadAsWritten(p).value;
    var files := Dispatch(p, None);
    var nii, imgs := Filter(files, IsNiftiEntry), Filter(files, IsImageEntry);
    ImageReaderNeedsName(imgs);
    if nii != [] {
      assert ss == ParseNifti(nii).value;
      NiftiReaderFormats(nii);
    } else {
      assert ss == ParseDicomSeries(files).value;
      DicomReaderFormats(files);
    }
    assert NoImageSeries(ss);
  }

  /** No series in `ss` is labelled as an image series. */
  ghost predicate NoImageSeries(ss: seq<Series>) {
    forall s :: s in ss ==> s.meta.sourceFormat != Some("Image Series")
  }

  /** The NIfTI reader's one series is labelled as NIfTI. */
  lemma NiftiReaderFormats(nii: seq<Entry>)
    requires |nii| > 0 && ParseNifti(nii).Success?
    ensures forall s :: s in ParseNifti(nii).value ==> s.meta.sourceFormat == Some("NIfTI")
    ensures NoImageSeries(ParseNifti(nii).value)
  {
    NiftiReaderResult(nii);
  }

  /** Every series the DICOM reader returns is labelled as a multi-frame
      file or as an assembled DICOM series. */
  lemma DicomReaderFormats(files: seq<Entry>)
    requires ParseDicomSeries(files).Success?
    ensures forall s :: s in ParseDicomSeries(files).value ==>
              s.meta.sourceFormat in {Some("Multi-frame DICOM"), Some("DICOM Series")}
    ensures NoImageSeries(ParseDicomSeries(files).value)
  {
    DicomReaderResult(files);
  }

  lemma ImageReaderNeedsName(imgs: seq<Entry>)
    ensures ParseImageSeries(imgs, None).Failure?
  {
  }

  /** Given the archive's file name, an image archive whose images decode to
      one shape yields one series named after the archive, with one frame
      per image. */
  lemma ImageArchiveYieldsOneSeries(p: Payload, name: string, i: nat)
    requires p.size <= MaxPayload && p.entries.Some? && i < |p.entries.value|
    requires IsContent(p.entries.value[i]) && IsImageEntry(p.entries.value[i]) && p.entries.value[i].image.Some?
    requires forall j :: 0 <= j < |p.entries.value| && IsContent(p.entries.value[j]) ==> !IsNiftiEntry(p.entries.value[j])
    requires forall j :: 0 <= j < |p.entries.value| && IsContent(p.entries.value[j]) && IsImageEntry(p.entries.value[j]) ==>
               p.entries.value[j].image.Some? && p.entries.value[j].image.value.shape == p.entries.value[i].image.value.shape
    ensures var imgs := Filter(Filter(p.entries.value, IsContent), IsImageEntry);
            var r := ParseArchive(p, Some(name));
            && r.Success? && |r.value| == 1
            && r.value[0].uid == "ImageSeries_" + LastComponent(name)
            && r.value[0].meta == ImageMeta(|imgs|)
  {
    ImagesBeforeDicom(p, Some(name), i);
    var files := Filter(p.entries.value, IsContent);
    var imgs := Filter(files, IsImageEntry);
    FilterMembers(p.entries.value, IsContent);
    FilterMembers(files, IsImageEntry);
    var sorted := SortBy(imgs, EntryName, LexLe);
    forall k | 0 <= k < |sorted| ensures sorted[k].image.Some? && sorted[k].image.value.shape == p.entries.value[i].image.value.shape {
      assert sorted[k] in multiset(imgs);
      assert sorted[k] in imgs;
    }
    var frames := DecodeImages(sorted).value;
    assert frames[0].shape == p.entries.value[i].image.value.shape;
    assert Stack(frames).Success?;
  }

  /** The one member of the example upload below. */
  function ScanPng(): Entry {
    Entry("scan.png", None, NotDicom, None, Some(PixelArray([512, 512], 7)))
  }

  lemma ScanPngIsAnImage()
    ensures Filter([ScanPng()], IsContent) == [ScanPng()]
    ensures Filter([ScanPng()], IsNiftiEntry) == []
    ensures Filter([ScanPng()], IsImageEntry) == [ScanPng()]
  {
    var n := ScanPng().name;
    assert n[|n| - 1] == 'g';
    assert Lower(n) == n;
    assert n[|n| - 4..] == ".png" && n[|n| - 4..] != ".nii" && n[|n| - 7..] != ".nii.gz";
  }

  /** A one-image upload: the service as written reports the generic error,
      while the archive's own name gives the series key. */
  lemma SinglePngUpload()
    ensures ParseUploadAsWritten(Payload(1000, Some([ScanPng()]))) == Failure(Unexpected(ArchiveNameMissing))
    ensures ParseArchive(Payload(1000, Some([ScanPng()])), Some("uploads/study.zip"))
         == Success([Series("ImageSeries_study.zip", Stacked([PixelArray([512, 512], 7)]), ImageMeta(1))])
  {
    ScanPngIsAnImage();
    ScanPngSeries();
  }

  lemma ScanPngSeries()
    ensures ParseImageSeries([ScanPng()], None) == Failure(Unexpected(ArchiveNameMissing))
    ensures ParseImageSeries([ScanPng()], Some("uploads/study.zip"))
         == Success([Series("ImageSeries_study.zip", Stacked([PixelArray([512, 512], 7)]), ImageMeta(1))])
  {
    ScanPngDecodes();
    StudyArchiveName();
    assert "ImageSeries_" + "study.zip" == "ImageSeries_study.zip";
  }

  lemma ScanPngDecodes()
    ensures SortBy([ScanPng()], EntryName, LexLe) == [ScanPng()]
    ensures DecodeImages([ScanPng()]) == Success([PixelArray([512, 512], 7)])
    ensures Stack([PixelArray([512, 512], 7)]) == Success(Stacked([PixelArray([512, 512], 7)]))
  {
    var a := PixelArray([512, 512], 7);
    assert [ScanPng()][0].image == Some(a) && [ScanPng()][1..] == [] && DecodeImages([]) == Success([]);
    assert [a] + [] == [a];
  }

  lemma StudyArchiveName()
    ensures LastComponent("uploads/study.zip") == "study.zip"
  {
    assert "uploads/study.zip" == "uploads" + "/" + "study.zip";
    assert "study.zip"[0] != '/' && "study.zip"[1] != '/' && "study.zip"[2] != '/' && "study.zip"[3] != '/'
        && "study.zip"[4] != '/' && "study.zip"[5] != '/' && "study.zip"[6] != '/' && "study.zip"[7] != '/'
        && "study.zip"[8] != '/';
    LastComponentAfterSlash("uploads", "study.zip");
  }
}
