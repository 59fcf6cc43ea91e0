# medscreen core in Dafny

medscreen screens chest CT studies. The service takes an uploaded ZIP
archive and does three things with it:

1. It parses the archive into one or more series. Each series is a volume of
   slices plus metadata. The archive may hold a DICOM series, a multi-frame
   DICOM file, a NIfTI volume or a stack of PNG/JPEG images.
2. It validates each series with five screening checks.
3. For a series that passes every check, it runs a slice classifier and
   decides on the whole study. The classifier sees a quartile-weighted
   sample of slices. Each reply is parsed into a label. The anomaly share of
   the decisive labels is compared with a threshold. In a positive study,
   the anomalous slices are widened to their neighbours in the per-slice
   mask.

This project models those three stages as pure Dafny functions, plus two
methods that model the classification and dilation loops. It proves the
properties that each stage promises.

Modules:

- `Common`: `Option`/`Result` and the string operations Python provides
  (`in`, `startswith`/`endswith`, `split`, `strip`, `lower`, `upper`).
- `Sorting`: Python's stable `sort(key=...)` as an insertion sort over a
  total preorder. It is proved sorted, a permutation and stable. This module
  also holds list filtering and Python's string order.
- `Sampling`: `select_step` and `quartile_sample_indices`.
- `Inference`: the decision logic of `run_inference`. This covers label
  parsing, the vote record, the counts, the probability, the verdict and the
  mask dilation.
- `Validation`: `validate_series` and the caller's all-checks-pass verdict.
- `Orientation`: `_get_dicom_orientation`, the slice plane derived from
  `ImageOrientationPatient`.
- `Archive`: `parse_zip_archive` and its three readers
  (`_parse_dicom_series`, `_parse_nifti`, `_parse_image_series`).

The decoders are abstract:

- Each archive member carries what each decoder would make of it, or `None`
  where that decoder raises. The decoders are the ZIP reader, `pydicom`,
  `nibabel` and PIL.
- Pixel arrays are opaque values with a shape.
- The classifier is a function from slice index to reply text. It yields
  `None` when the call raised or returned no output.
- Errors are a datatype with one constructor per error message of the
  service. Exceptions that end in the generic handler of `parse_zip_archive`
  are `Unexpected(fault)`.

Three facts about the code shape the model:

- The multi-frame reader reports the header's `NumberOfFrames`, not the
  volume depth that app/file_io.py:19 documents for `num_frames`. See
  `Archive.ParseMultiFrame`. The depth equality is proved for every other
  kind of series in `Archive.FramesMatchVolumeDepth`.
- The NIfTI reader catches its own decode errors and reports them as
  "error reading NIfTI file". They never reach the generic handler of
  `parse_zip_archive`.
- A NIfTI series never passes validation, because the reader writes "N/A"
  as its body part and the body-part check fails. An image series never
  passes either. See `Archive.OnlyDicomPassesScreening`.

## Model

| member | source | states |
|---|---|---|
| `Sampling.SelectStep` | app/ml_inference.py:43-49 | The step is one of 1, 2, 4, 6, 8, 10. It is 1 below 50 slices and 10 from 600 slices on. |
| `Sampling.SelectStepMonotonic` | app/ml_inference.py:43-49 | A deeper volume is never sampled with a smaller step. |
| `Sampling.PyRange` | app/ml_inference.py:55-58 | Python `range` with a positive step holds exactly the values from start below stop whose distance from start is a multiple of the step, in ascending order. A negative step gives the mirror image. |
| `Sampling.QuartileSetIsPlan` | app/ml_inference.py:52-60 | The collected index set is exactly the reference plan: every `n`-th slice of the outer quartiles, every `max(1, n//2)`-th of the middle two, and the last slice. Every member is a slice of the volume. |
| `Sampling.AscendingMembers` | app/ml_inference.py:61 | `sorted(list(s))` is strictly ascending and holds exactly the members of the set. |
| `Sampling.QuartileSampleIndices` | app/ml_inference.py:51-61 | The result is strictly ascending, holds exactly the planned indices, and stays inside `[0, n_files)`. |
| `Sampling.PlanEndsWithLastSlice` | app/ml_inference.py:59-61 | The plan is empty exactly for an empty volume. Otherwise its last index is the last slice. |
| `Sampling.ZeroStepIsUnitStep` | app/ml_inference.py:52 | A step of 0 gives the same plan as a step of 1. |
| `Sampling.PlanStartsWithFirstSlice` | app/ml_inference.py:53-55 | With a non-negative step, the first slice is always sampled. |
| `Inference.LabelText` | app/ml_inference.py:130 | The answer text exists exactly when the reply contains the marker "label:". Otherwise the split's second field raises. |
| `Inference.ParseLabel` | app/ml_inference.py:128-136 | Only a reply that contains the marker can get a decisive label. |
| `Inference.ReplyLabelText` | app/ml_inference.py:130 | For a reply `... label: <answer>` whose answer ends at a line break, at a second `label:` or at the end of the reply, the extracted text is the answer, stripped and lower-cased. |
| `Inference.ParseWellFormedReply` | app/ml_inference.py:128-136 | A well-formed reply is judged on its answer alone, ignoring letter case and surrounding whitespace. |
| `Inference.MissingMarkerIsUnknown` | app/ml_inference.py:128-136 | A reply without `label:` makes the split index raise, so the label stays unknown. |
| `Inference.PromptFormatLineIsNormal` | app/ml_inference.py:89 | The prompt's own format line, "label: normal OR label: anomaly", parses as normal: the second `label:` cuts the answer. |
| `Inference.AnomalyOutranksNormal` | app/ml_inference.py:131-134 | An answer that mentions "anomaly" is an anomaly even when it also mentions "normal". |
| `Inference.CollectVotes` | app/ml_inference.py:117-143 | The label record holds at most one vote per sampled slice. |
| `Inference.CountLabel` | app/ml_inference.py:138-139 | A label's count is at most the number of votes. |
| `Inference.CountLabelZero` | app/ml_inference.py:138-139 | A label's count is zero exactly when no vote carries that label. |
| `Inference.CollectVotesRecordsAnsweredSlices` | app/ml_inference.py:117-143 | The label record holds exactly the sampled slices whose classifier call returned. Each is recorded with the label parsed from its own reply, in ascending slice order. Slices whose call raised are absent. |
| `Inference.VotesPartition` | app/ml_inference.py:138-146 | Anomaly, normal and unknown votes add up to the votes recorded, so unknown labels are simply not counted. |
| `Inference.Probability` | app/ml_inference.py:146-147 | The probability lies in [0, 1]. Multiplied by the decisive votes, it gives the anomaly votes. It is 0 exactly without anomaly votes, and 0 when there are no decisive votes. It is 1 exactly when every decisive vote is an anomaly. |
| `Inference.Aggregate` | app/ml_inference.py:145-161 | The study is positive exactly when the probability reaches the threshold. The mask has one entry per slice. A slice is marked exactly when the study is positive and the slice lies within one slice of an anomaly vote. A negative study marks nothing. |
| `Inference.DilateAnomalies` | app/ml_inference.py:155-161 | The dilation loop marks exactly the slices within one slice of an anomaly vote, clipped to the volume. |
| `Inference.ClassifySlices` | app/ml_inference.py:114-143 | The classification loop builds the label record, and its running counts equal the anomaly and normal counts of that record. |
| `Inference.RunInference` | app/ml_inference.py:101-161 | The inference run returns the verdict that aggregation gives for the votes collected over the sampling plan of the volume. |
| `Inference.WorkedExample` | app/ml_inference.py:146-161 | Anomaly votes on slices 2 and 3 and a normal vote on slice 10 of a 20-slice study give probability 2/3, a positive study at the default threshold 0.1, and the mask {1, 2, 3, 4}. |
| `Inference.SilentClassifier` | app/ml_inference.py:142-149 | When every classifier call raises, the probability is 0. The study is positive only for a threshold of at most 0, and even then no slice is marked. |
| `Validation.Validate` | app/data_validation.py:8-58 | Five checks in report order. The source format passes when present and not "N/A". The modality passes for CT or NIFTI. The body part passes when it mentions a chest keyword. The orientation passes for Axial. The slice count passes above 10. |
| `Validation.ValidIffScreenable` | app/api.py:45 | A series is valid exactly when its source is known, it is a CT or NIfTI study of the chest, it is axial, and it has more than ten slices. |
| `Validation.NotAvailableIsNoChest` | app/data_validation.py:31-33 | A missing body part (the default "N/A") fails the body-part check. |
| `Validation.BodyPartIgnoresCase` | app/data_validation.py:31-33 | A lower-cased body part gets the same body-part verdict. |
| `Validation.SliceCountMonotonic` | app/data_validation.py:50-51 | Adding slices never makes a passing slice count fail. |
| `Validation.ChestSpellings` | app/data_validation.py:31-33 | "chest", "Thorax/Abdomen", "LUNGS" and the Russian "грудная клетка" all pass the body-part check. |
| `Validation.AxialChestSeriesIsValid` | app/data_validation.py:12-58 | An axial chest CT series of twenty slices passes every check. |
| `Orientation.CrossIsNormal` | app/file_io.py:43 | The cross product of the two cosines is perpendicular to both of them. |
| `Orientation.ArgMaxAbs` | app/file_io.py:44 | `argmax(abs(v))` is an index of a largest magnitude, and no earlier component is as large. |
| `Orientation.Normal` | app/file_io.py:43 | NumPy's cross product of the two halves of the tag is defined exactly for tags of 5 or 6 values. |
| `Orientation.DicomOrientation` | app/file_io.py:39-47 | The plane is Unknown exactly when the tag is missing or has a length the cross product rejects. |
| `Orientation.PlaneFollowsDominantAxis` | app/file_io.py:43-45 | Sagittal, Coronal or Axial exactly as the x, y or z component of the normal dominates, with ties going to the earlier axis. |
| `Orientation.PlaneIgnoresCosineOrder` | app/file_io.py:43-45 | Swapping the row and column cosines does not change the plane. |
| `Orientation.PlaneIgnoresRowDirection` | app/file_io.py:43-45 | Reversing the row cosine does not change the plane. |
| `Orientation.StandardPlanes` | app/file_io.py:39-47 | The standard transverse, sagittal and coronal tags give Axial, Sagittal and Coronal. A 5-value tag is still read. A 4-value tag is Unknown. |
| `Sorting.FilterMembers` | app/file_io.py:189 | A list comprehension with a condition keeps exactly the elements that satisfy it. |
| `Sorting.SortBy` | app/file_io.py:92 | Sorting keeps the length and the elements, as a multiset. |
| `Sorting.SortByIsSorted` | app/file_io.py:92 | The sorted list is ordered by key. |
| `Sorting.SortByIsStable` | app/file_io.py:92 | Elements with equal keys keep their input order. |
| `Sorting.LexLeIsTotalPreorder` | app/file_io.py:152 | Python's string order, used to sort image names, is total and transitive. |
| `Archive.Stack` | app/file_io.py:94 | `np.stack` succeeds exactly when every slice has the shape of the first. The volume's depth is then the number of slices. |
| `Archive.LastComponent` | app/file_io.py:163 | `split('/')[-1]` is a slash-free suffix of the name, preceded by a slash unless it is the whole name. |
| `Archive.LastComponentAfterSlash` | app/file_io.py:163 | For any prefix, the component of `prefix/tail` is exactly `tail` when `tail` holds no slash, so only the text after the last slash names the series. |
| `Archive.DicomMeta` | app/file_io.py:96-105 | DICOM metadata carries the given format and frame count, and the plane of the dataset's orientation tag. Modality, body part and study UID are the dataset's own, or "N/A" when absent. Pixel spacing and slice thickness are the dataset's values, or not available. |
| `Archive.ParseMultiFrame` | app/file_io.py:55-72 | A single dataset declaring several frames gives one series under its series UID, or "MultiFrame_DICOM" without one. The series holds the whole pixel array, and its metadata is read from the dataset with the declared frame count. Undecodable pixels end in the generic error. |
| `Archive.Readable` | app/file_io.py:75-85 | Every kept dataset carries pixel data, and each member yields at most one dataset. |
| `Archive.ReadableInArchiveOrder` | app/file_io.py:75-85 | Kept datasets stay in archive order: reading two runs of members one after the other gives the datasets of the first run, then those of the second. |
| `Archive.ReadableKeepsDecodableMembers` | app/file_io.py:75-85 | The series loop keeps exactly the members that can be read and carry pixel data. The others are skipped. |
| `Archive.SeriesOrder` | app/file_io.py:75-91 | The dictionary keys are distinct. There is one per series key of a kept dataset. |
| `Archive.SeriesOrderFirstAppearance` | app/file_io.py:75-91 | The keys come in order of first appearance: of any two keys, the earlier one first appears in an earlier dataset. |
| `Archive.SortedGroupOrder` | app/file_io.py:91-93 | Each series is ordered by instance number and is a rearrangement of exactly the datasets carrying its key. Equal instance numbers keep the order of the kept datasets, which is archive order by `Archive.ReadableInArchiveOrder`. |
| `Archive.DecodeAll` | app/file_io.py:94 | Decoding succeeds exactly when every dataset's pixels decode. Otherwise the first undecodable dataset raises. |
| `Archive.DecodeAndStackIff` | app/file_io.py:94 | Reading every dataset's pixel array and stacking them both succeed exactly when all pixel arrays exist and share one shape. |
| `Archive.AssembleSeries` | app/file_io.py:90-106 | A series is assembled exactly when every dataset carrying its key has a pixel array and all of them share one shape, as reading `pixel_array` and `np.stack` require. An assembled series has its key as uid and format "DICOM Series". Its frame count is the number of its datasets, and its frames are their pixel arrays in instance order. Its metadata is read from the first dataset in instance order. |
| `Archive.AssembleAllSeries` | app/file_io.py:90-108 | The dictionary exists exactly when every series can be assembled, and it holds each series in key order. |
| `Archive.DicomSeriesGrouping` | app/file_io.py:74-108 | The series path yields one series per key, in first-appearance order, under distinct keys. Each series is assembled from exactly the datasets carrying its key. |
| `Archive.ParseSingleFrames` | app/file_io.py:74-108 | The loop over single-frame members reports "no DICOM series" exactly when no member is kept. Any other failure ends in the generic handler. A success holds one series per series key. |
| `Archive.SingleFramesSucceed` | app/file_io.py:74-106 | The loop over single-frame members succeeds exactly when some member is kept and, within every series, each kept dataset has a pixel array and all share one shape. Any undecodable dataset or shape clash in any series fails the whole upload. |
| `Archive.ParseDicomSeries` | app/file_io.py:49-108 | The DICOM reader reports "no DICOM files" exactly for an empty member list. It fails only with that, "no DICOM series" or the generic error, and a success holds at least one series. |
| `Archive.DicomReaderPath` | app/file_io.py:51-58 | An empty list gives "no DICOM files". A single member whose header cannot be read ends in the generic error. A single member declaring more than one frame takes the multi-frame path. Every other single member, and any two or more members, go through the series loop. |
| `Archive.DicomReaderResult` | app/file_io.py:49-108 | A successful DICOM reader yields at least one series, under distinct keys. Each series is either the multi-frame volume or assembled from its datasets. |
| `Archive.NiftiReaderResult` | app/file_io.py:110-146 | A successful NIfTI reader yields one axial NIfTI series named after its member, with "N/A" body part. Its frame count is the depth of its volume. |
| `Archive.ParseNifti` | app/file_io.py:110-148 | The NIfTI reader refuses more than one NIfTI member, and only then reports that error. Every other failure is its own read error. A success is one series named "NIfTI_" plus the member's name. |
| `Archive.NeedsTranspose` | app/file_io.py:124 | Indexing the second axis letter raises exactly for a one-letter L/R code. The axes are reversed exactly when an L/R letter is followed by an A/P letter. |
| `Archive.NiftiAxes` | app/file_io.py:124-132 | An L/R-then-A/P axis code reverses the axes, swaps the in-plane spacings and makes the last stored axis the depth. Any other code keeps the array. |
| `Archive.DecodeImages` | app/file_io.py:154-157 | Decoding succeeds exactly when every image decodes, one frame per image in order. Otherwise the first failure raises. |
| `Archive.ImageSeriesKey` | app/file_io.py:163 | The key is "ImageSeries_" plus the last path component of the archive name. Without an archive name, the attribute access raises. |
| `Archive.ParseImageSeries` | app/file_io.py:150-174 | The image reader reports "no images" exactly for an empty list, and every other failure ends in the generic handler. A success needs the archive's name and holds one series. |
| `Archive.ImageReaderResult` | app/file_io.py:150-174 | A successful image reader yields one series. Its frames are the images in name order, one per member, and only the frame count of its metadata is known. |
| `Archive.ParseArchive` | app/file_io.py:185-214 | More than 500 MiB is refused before opening. Bytes that are not a ZIP archive are reported as such. |
| `Archive.EmptyIffOnlyJunk` | app/file_io.py:189-192 | An archive is reported empty exactly when it holds nothing but directories and `__MACOSX/` members. |
| `Archive.NiftiTakesPriority` | app/file_io.py:195-197 | A NIfTI member anywhere among the content selects the NIfTI reader: the result is exactly that reader's result on the NIfTI members. So it is one axial NIfTI series or a NIfTI error. |
| `Archive.TwoNiftiMembersRejected` | app/file_io.py:112-113 | Two NIfTI members are rejected. |
| `Archive.ImagesBeforeDicom` | app/file_io.py:199-201 | Without NIfTI members, any PNG/JPEG member selects the image reader before any DICOM header is read. |
| `Archive.DicomNeedsHeader` | app/file_io.py:203-211 | Otherwise, the header of the first content member decides. Not DICOM means unsupported, another exception means the generic error, and a header means the DICOM reader for all content members. |
| `Archive.UnreachableErrors` | app/file_io.py:51-52 | The "no DICOM files" and "no images" errors can never be the outcome. |
| `Archive.NiftiReaderErrors` | app/file_io.py:110-148 | The NIfTI reader fails only by refusing a second NIfTI member or with its own read error. Its handler catches every exception raised inside it. |
| `Archive.ImageReaderErrors` | app/file_io.py:150-174 | The image reader reports "no images" exactly for an empty member list. Any other failure of it ends in the generic handler. |
| `Archive.DicomReaderErrors` | app/file_io.py:49-52 | The DICOM reader reports "no DICOM files" exactly for an empty member list, and never reports "no images". |
| `Archive.ImageMetaNeverValid` | app/file_io.py:164-173 | Image-series metadata, with modality "IMAGE", orientation "Unknown" and no body part, fails validation whatever its frame count. |
| `Archive.Dispatch` | app/file_io.py:176-216 | A successful parse comes from exactly one reader, chosen by the member names. |
| `Archive.FramesMatchVolumeDepth` | app/file_io.py:19 | Every series except a multi-frame one reports the depth of its volume as its frame count. |
| `Archive.SeriesKeysDistinct` | app/file_io.py:11-27 | A successful parse yields at least one series, under distinct keys. |
| `Archive.OnlyDicomPassesScreening` | app/file_io.py:135-173 | No NIfTI or image series ever passes validation. |
| `Archive.ImageArchiveFailsAsWritten` | app/file_io.py:163 | As written, every upload that reaches the image reader fails with the generic error. |
| `Archive.NoImageSeriesAsWritten` | app/file_io.py:188 | As written, a successful parse never holds an image series. |
| `Archive.ImageArchiveYieldsOneSeries` | app/file_io.py:150-174 | Given the archive's name, images of one shape yield one series named after the archive, with one frame per image. |
| `Archive.SinglePngUpload` | app/file_io.py:163 | A one-image upload fails with the generic error as written. With the archive name, it gives the series "ImageSeries_study.zip". |

## Left out

- Reading the upload, opening members and running the decoders (ZIP, pydicom, nibabel, PIL) are I/O and foreign code. Each member is a record of what each decoder yields, or raises.
- Pixel values are out of scope. This covers the rescale slope and intercept, the `float32` conversion, the windowing of `_prepare_slice` and the grayscale conversion, which are floating-point work on opaque arrays.
- Text formatting is out of scope. Spacings are kept as numbers rather than `str(...)` or `:.4f` text, and error messages are one constructor each rather than their Russian text.
- The classifier, the prompt and the GPU are out of scope. They are a parameter from slice index to reply, and timing, memory statistics and logging are left out.
- The debug `raw_probs` list and the keys of the result dictionary other than the verdict are left out.
- Dictionaries are modelled as sequences in insertion order, which is the order Python iterates them in.
- `Common.Lower`: it maps ASCII letters only, and `Common.Upper` maps ASCII and basic Cyrillic letters only. Other Unicode case mappings are not modelled.
- `Archive.ParseDicomSeries`: a non-numeric `InstanceNumber` or `NumberOfFrames` raises in the source. Here those attributes are integers or absent.
- `Archive.ParseArchive`: duplicate member names and member-level read failures (a bad CRC inside a valid archive) are not modelled. Every listed member is readable.
- `Archive.ParseNifti`: the axis codes are modelled as one joined string. nibabel's `None` codes for degenerate affines are not modelled.
- `Orientation.DicomOrientation`: NaN components are not modelled. Reals are exact, and a tag whose values are not numbers is not modelled.
- `Archive.ParseMultiFrame`: the frame count is the header's `NumberOfFrames`, as the code does. The volume-depth equality promised for all series holds only for the other readers.
- `Inference.Probability`: the ratio and the threshold are exact reals. The threshold is read as its decimal literal, so 0.1 is exactly one tenth. Python's float division and float comparison round, which is not modelled. The verdicts agree for realistic vote counts.
- `Inference.RunInference`: the volume enters only through its depth. A slice index outside the volume cannot arise, because every sampled index lies in `[0, n)`.

## Findings

| source | as written | input that shows it | evidently intended | confidence | as-written member | corrected member |
|---|---|---|---|---|---|---|
| app/file_io.py:163 | The archive is opened with `zipfile.ZipFile(io.BytesIO(...))`, so `zf.filename` is `None`. `zf.filename.split('/')` then raises `AttributeError`, and the generic handler reports "unexpected error". | A ZIP holding only `scan.png`, a decodable 512×512 image. | The image series is keyed "ImageSeries_" plus the archive's own file name and returned as one series. | not executed | `Archive.SinglePngUpload`, `Archive.ImageArchiveFailsAsWritten`, `Archive.NoImageSeriesAsWritten` | `Archive.ImageArchiveYieldsOneSeries`, `Archive.SinglePngUpload` |
