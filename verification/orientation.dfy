/** The slice plane of a DICOM image, read from its `ImageOrientationPatient`
    tag: the direction cosines of the first row and the first column. Their
    cross product is the slice normal, and the patient axis the normal is
    most aligned with names the plane. */
module Orientation {
  import opened Common

  datatype Plane = Sagittal | Coronal | Axial | Unknown

  /** The text stored in the series metadata. */
  function PlaneName(p: Plane): string {
    match p
    case Sagittal => "Sagittal"
    case Coronal => "Coronal"
    case Axial => "Axial"
    case Unknown => "Unknown"
  }

  function Abs(x: real): real {
    if x < 0.0 then -x else x
  }

  function Cross(a: seq<real>, b: seq<real>): (c: seq<real>)
    requires |a| == 3 && |b| == 3
    ensures |c| == 3
  {
    [a[1] * b[2] - a[2] * b[1], a[2] * b[0] - a[0] * b[2], a[0] * b[1] - a[1] * b[0]]
  }

  function Dot(a: seq<real>, b: seq<real>): real
    requires |a| == 3 && |b| == 3
  {
    a[0] * b[0] + a[1] * b[1] + a[2] * b[2]
  }

  /** The normal is perpendicular to both cosines. */
  lemma CrossIsNormal(a: seq<real>, b: seq<real>)
    requires |a| == 3 && |b| == 3
    ensures Dot(Cross(a, b), a) == 0.0 && Dot(Cross(a, b), b) == 0.0
  {
    var c := Cross(a, b);
    assert c[0] * a[0] == a[1] * b[2] * a[0] - a[2] * b[1] * a[0];
    assert c[1] * a[1] == a[2] * b[0] * a[1] - a[0] * b[2] * a[1];
    assert c[2] * a[2] == a[0] * b[1] * a[2] - a[1] * b[0] * a[2];
    assert c[0] * b[0] == a[1] * b[2] * b[0] - a[2] * b[1] * b[0];
    assert c[1] * b[1] == a[2] * b[0] * b[1] - a[0] * b[2] * b[1];
    assert c[2] * b[2] == a[0] * b[1] * b[2] - a[1] * b[0] * b[2];
  }

  /** `np.argmax(np.abs(v))`: the first index of a component of largest
      magnitude. */
  function ArgMaxAbs(v: seq<real>): (i: nat)
    requires |v| > 0
    ensures i < |v|
    ensures forall j :: 0 <= j < |v| ==> Abs(v[j]) <= Abs(v[i])
    ensures forall j :: 0 <= j < i ==> Abs(v[j]) < Abs(v[i])
  {
    if |v| == 1 then 0
    else
      var i := ArgMaxAbs(v[..|v| - 1]);
      assert forall j :: 0 <= j < |v| - 1 ==> v[..|v| - 1][j] == v[j];
      if Abs(v[|v| - 1]) > Abs(v[i]) then |v| - 1 else i
  }

  /** `np.cross(orient[:3], orient[3:])`. NumPy accepts vectors of two or
      three components and reads a missing third component as zero, so a
      tag of five values yields a normal as well; any other length raises. */
  function Normal(iop: seq<real>): (n: Option<seq<real>>)
    ensures n.Some? <==> |iop| == 5 || |iop| == 6
    ensures n.Some? ==> |n.value| == 3
  {
    if |iop| == 6 then Some(Cross(iop[..3], iop[3..]))
    else if |iop| == 5 then Some(Cross(iop[..3], iop[3..] + [0.0]))
    else None
  }

  /** `_get_dicom_orientation`: the plane for the orientation tag, or
      `Unknown` when the tag is missing or has a length NumPy rejects. */
  function DicomOrientation(iop: Option<seq<real>>): (p: Plane)
    ensures p == Unknown <==> iop.None? || Normal(iop.value).None?
  {
    match iop
    case None => Unknown
    case Some(v) =>
      match Normal(v)
      case None => Unknown
      case Some(n) => [Sagittal, Coronal, Axial][ArgMaxAbs(n)]
  }

  /** The first maximal component is unique, so it depends only on the
      magnitudes. */
  lemma ArgMaxAbsSameMagnitudes(v: seq<real>, w: seq<real>)
    requires |v| == |w| > 0
    requires forall k :: 0 <= k < |v| ==> Abs(v[k]) == Abs(w[k])
    ensures ArgMaxAbs(v) == ArgMaxAbs(w)
  {
    var i, j := ArgMaxAbs(v), ArgMaxAbs(w);
    assert Abs(w[i]) == Abs(v[i]) >= Abs(v[j]) == Abs(w[j]) >= Abs(w[i]);
  }

  /** The plane is the axis the normal is most aligned with: axial exactly
      when the normal's z component strictly dominates, sagittal when its x
      component is at least as large as the others. */
  lemma PlaneFollowsDominantAxis(iop: seq<real>)
    requires |iop| == 5 || |iop| == 6
    ensures var n := Normal(iop).value;
            && (DicomOrientation(Some(iop)) == Sagittal <==> Abs(n[0]) >= Abs(n[1]) && Abs(n[0]) >= Abs(n[2]))
            && (DicomOrientation(Some(iop)) == Coronal <==> Abs(n[1]) > Abs(n[0]) && Abs(n[1]) >= Abs(n[2]))
            && (DicomOrientation(Some(iop)) == Axial <==> Abs(n[2]) > Abs(n[0]) && Abs(n[2]) > Abs(n[1]))
  {
  }

  /** Swapping the row and column cosines flips the normal, which does not
      change the plane. */
  lemma PlaneIgnoresCosineOrder(a: seq<real>, b: seq<real>)
    requires |a| == 3 && |b| == 3
    ensures DicomOrientation(Some(b + a)) == DicomOrientation(Some(a + b))
  {
    assert (a + b)[..3] == a && (a + b)[3..] == b;
    assert (b + a)[..3] == b && (b + a)[3..] == a;
    ArgMaxAbsSameMagnitudes(Cross(b, a), Cross(a, b));
  }

  /** Reversing the direction of the row cosine does not change the plane. */
  lemma PlaneIgnoresRowDirection(a: seq<real>, b: seq<real>)
    requires |a| == 3 && (|b| == 2 || |b| == 3)
    ensures DicomOrientation(Some([-a[0], -a[1], -a[2]] + b)) == DicomOrientation(Some(a + b))
  {
    var a' := [-a[0], -a[1], -a[2]];
    var c := if |b| == 3 then b else b + [0.0];
    assert (a + b)[..3] == a && (a + b)[3..] == b;
    assert (a' + b)[..3] == a' && (a' + b)[3..] == b;
    assert Normal(a + b) == Some(Cross(a, c));
    assert Normal(a' + b) == Some(Cross(a', c));
    NegatedRowFlipsNormal(a, c);
    ArgMaxAbsSameMagnitudes(Cross(a', c), Cross(a, c));
  }

  lemma NegatedRowFlipsNormal(a: seq<real>, c: seq<real>)
    requires |a| == 3 && |c| == 3
    ensures forall k :: 0 <= k < 3 ==> Abs(Cross([-a[0], -a[1], -a[2]], c)[k]) == Abs(Cross(a, c)[k])
  {
    var n, m := Cross([-a[0], -a[1], -a[2]], c), Cross(a, c);
    assert n[0] == -m[0] && n[1] == -m[1] && n[2] == -m[2];
  }

  /** Standard patient orientations: a transverse slice is axial, a slice
      whose rows run front to back is sagittal, one whose columns run foot
      to head is coronal. */
  lemma StandardPlanes()
    ensures DicomOrientation(Some([1.0, 0.0, 0.0, 0.0, 1.0, 0.0])) == Axial
    ensures DicomOrientation(Some([0.0, 1.0, 0.0, 0.0, 0.0, -1.0])) == Sagittal
    ensures DicomOrientation(Some([1.0, 0.0, 0.0, 0.0, 0.0, -1.0])) == Coronal
    ensures DicomOrientation(Some([1.0, 0.0, 0.0, 0.0, 1.0])) == Axial
    ensures DicomOrientation(Some([1.0, 0.0, 0.0, 0.0])) == Unknown
  {
    TransverseTag();
    SagittalTag();
    CoronalTag();
    FiveValueTag();
  }

  lemma TransverseTag()
    ensures DicomOrientation(Some([1.0, 0.0, 0.0, 0.0, 1.0, 0.0])) == Axial
  {
    var t := [1.0, 0.0, 0.0, 0.0, 1.0, 0.0];
    assert t[..3] == [1.0, 0.0, 0.0] && t[3..] == [0.0, 1.0, 0.0];
  }

  lemma SagittalTag()
    ensures DicomOrientation(Some([0.0, 1.0, 0.0, 0.0, 0.0, -1.0])) == Sagittal
  {
    var t := [0.0, 1.0, 0.0, 0.0, 0.0, -1.0];
    assert t[..3] == [0.0, 1.0, 0.0] && t[3..] == [0.0, 0.0, -1.0];
  }

  lemma CoronalTag()
    ensures DicomOrientation(Some([1.0, 0.0, 0.0, 0.0, 0.0, -1.0])) == Coronal
  {
    var t := [1.0, 0.0, 0.0, 0.0, 0.0, -1.0];
    assert t[..3] == [1.0, 0.0, 0.0] && t[3..] == [0.0, 0.0, -1.0];
  }

  /** NumPy pads a two-component column cosine with a zero. */
  lemma FiveValueTag()
    ensures DicomOrientation(Some([1.0, 0.0, 0.0, 0.0, 1.0])) == Axial
  {
    var t := [1.0, 0.0, 0.0, 0.0, 1.0];
    assert t[..3] == [1.0, 0.0, 0.0] && t[3..] + [0.0] == [0.0, 1.0, 0.0];
  }
}
