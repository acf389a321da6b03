/** Student enrollment (student_management.py): the checks in front of the
    insert, update and delete statements, the face-capture loop, the sample
    file names, the averaged encoding that is stored, and the file-name test
    used to delete a student's samples. SQL execution, the camera, the
    encoder and the file system are inputs or left to the caller. */
module Enrollment {
  import opened Records
  import opened Text

  /** `while sample_count < 5` */
  const SampleTarget: nat := 5

  /** The key code `cv2.waitKey` returns for ESC. */
  const EscKey: int := 27

  /** The four entry fields, as typed (or, once checked, as stripped). */
  datatype StudentForm = StudentForm(studentId: string, name: string, department: string, email: string)

  /** The selected tree row: `values[0]` (the table's `id`) and `values[1]`
      (the student id). */
  datatype Selection = Selection(rowId: string, studentId: string)

  datatype Reason = NoSelection | MissingRequired | NotConfirmed | CameraUnavailable

  /** The statement a handler sends to the store. */
  datatype Write =
    | InsertRow(record: StudentForm)
    | UpdateRow(rowId: string, record: StudentForm)
    | DeleteRow(rowId: string)

  /** A handler either stops with a message and no write, or issues a write. */
  datatype Request = Rejected(reason: Reason) | Issue(write: Write)

  /** Every field stripped with `str.strip()`. */
  function StripForm(f: StudentForm): (r: StudentForm)
    ensures r.studentId == [] <==> IsBlank(f.studentId)
    ensures r.name == [] <==> IsBlank(f.name)
    ensures r == StudentForm(Strip(f.studentId), Strip(f.name), Strip(f.department), Strip(f.email))
  {
    StudentForm(Strip(f.studentId), Strip(f.name), Strip(f.department), Strip(f.email))
  }

  /** `add_student`: refused, with nothing written, exactly when the student
      id or the name is blank; department and email may be blank. Otherwise
      the stripped fields are inserted. */
  function AddStudent(f: StudentForm): (r: Request)
    ensures r.Rejected? <==> IsBlank(f.studentId) || IsBlank(f.name)
    ensures r.Rejected? ==> r.reason == MissingRequired
    ensures r.Issue? ==>
      && r.write == InsertRow(StripForm(f))
      && r.write.record.studentId != [] && r.write.record.name != []
  {
    var s := StripForm(f);
    if s.studentId == [] || s.name == [] then Rejected(MissingRequired)
    else Issue(InsertRow(s))
  }

  /** `update_student`: needs a selected row, then the same check as
      `add_student`; the update targets the selected row's `id`. */
  function UpdateStudent(sel: Option<Selection>, f: StudentForm): (r: Request)
    ensures sel.None? ==> r == Rejected(NoSelection)
    ensures sel.Some? ==> (r.Rejected? <==> IsBlank(f.studentId) || IsBlank(f.name))
    ensures sel.Some? && r.Rejected? ==> r.reason == MissingRequired
    ensures r.Issue? ==> sel.Some? && r.write == UpdateRow(sel.value.rowId, StripForm(f))
  {
    match sel
    case None => Rejected(NoSelection)
    case Some(row) =>
      var s := StripForm(f);
      if s.studentId == [] || s.name == [] then Rejected(MissingRequired)
      else Issue(UpdateRow(row.rowId, s))
  }

  /** Department and email are optional. */
  lemma OptionalFieldsMayBeBlank(id: string, name: string)
    requires !IsBlank(id) && !IsBlank(name)
    ensures AddStudent(StudentForm(id, name, "", "")).Issue?
    ensures UpdateStudent(Some(Selection("1", id)), StudentForm(id, name, "", "")).Issue?
  {
  }

  // ---------------------------------------------------------------------
  // Sample file names and the delete filter

  /** `f"{student_id}_{sample_count}.jpg"` */
  function SampleFileName(id: string, n: nat): string {
    id + "_" + NatToString(n) + ".jpg"
  }

  /** The test of `delete_face_images`: `filename.startswith(f"{student_id}_")`. */
  predicate DeleteSelects(id: string, fileName: string) {
    StartsWith(fileName, id + "_")
  }

  /** One student's sample names differ from each other. */
  lemma SampleFileNamesDistinct(id: string, m: nat, n: nat)
    requires m != n
    ensures SampleFileName(id, m) != SampleFileName(id, n)
  {
    NatToStringInjective(m, n);
    NumberOfSampleFileName(id, m);
    NumberOfSampleFileName(id, n);
  }

  /** The number can be read back between the `_` and the `.jpg`. */
  lemma NumberOfSampleFileName(id: string, n: nat)
    ensures var f := SampleFileName(id, n);
      |f| >= |id| + 5 && f[|id| + 1..|f| - 4] == NatToString(n)
  {
  }

  /** The characters after the id in a sample name contain no `_`. */
  lemma NoUnderscoreAfterId(id: string, n: nat, i: int)
    requires |id| < i < |SampleFileName(id, n)|
    ensures SampleFileName(id, n)[i] != '_'
  {
  }

  /** The delete filter for `id` picks up a sample of `other` exactly when
      `other` is `id` itself or starts with `id + "_"`: every sample the
      capture loop writes for a student is deleted with them, and so are the
      samples of any student whose id extends theirs with `_`. */
  lemma DeleteSelectsSample(id: string, other: string, n: nat)
    ensures DeleteSelects(id, SampleFileName(other, n)) <==> other == id || StartsWith(other, id + "_")
  {
    var f := SampleFileName(other, n);
    var p := id + "_";
    assert f[..|other|] == other;
    if StartsWith(other, p) {
      assert f[..|p|] == other[..|p|];
    }
    if other == id {
      assert f[..|p|] == p;
    }
    if DeleteSelects(id, f) {
      if |id| < |other| {
        assert other[..|p|] == f[..|p|];
      } else if |id| == |other| {
        assert other == f[..|id|] == p[..|id|] == id;
      } else {
        assert f[|id|] == p[|id|] == '_';
        NoUnderscoreAfterId(other, n, |id|);
      }
    }
  }

  /** Deleting the student with id "1" also deletes the first sample of the
      student with id "1_5". */
  lemma DeleteSelectsOtherStudentsSample()
    ensures DeleteSelects("1", SampleFileName("1_5", 1))
  {
  }

  /** The files left after `delete_face_images(id)`, in directory order. */
  function RemoveSamples(files: seq<string>, id: string): (r: seq<string>)
    ensures |r| <= |files|
    ensures forall f :: f in r <==> f in files && !DeleteSelects(id, f)
  {
    if files == [] then []
    else
      var last := files[|files| - 1];
      assert files == files[..|files| - 1] + [last];
      RemoveSamples(files[..|files| - 1], id) + (if DeleteSelects(id, last) then [] else [last])
  }

  datatype DeleteResult = DeleteResult(request: Request, files: seq<string>)

  /** `delete_student`: needs a selected row and a confirmation; the sample
      files go only once the delete statement has gone through, and they are
      chosen by the student id of the selected row. */
  function DeleteStudentAndFiles(sel: Option<Selection>, confirmed: bool, storeOk: bool,
                                 files: seq<string>): (r: DeleteResult)
    ensures sel.None? ==> r == DeleteResult(Rejected(NoSelection), files)
    ensures sel.Some? && !confirmed ==> r == DeleteResult(Rejected(NotConfirmed), files)
    ensures sel.Some? && confirmed ==> r.request == Issue(DeleteRow(sel.value.rowId))
    ensures sel.Some? && confirmed && !storeOk ==> r.files == files
    ensures sel.Some? && confirmed && storeOk ==>
      forall f :: f in r.files <==> f in files && !DeleteSelects(sel.value.studentId, f)
  {
    match sel
    case None => DeleteResult(Rejected(NoSelection), files)
    case Some(row) =>
      if !confirmed then DeleteResult(Rejected(NotConfirmed), files)
      else if !storeOk then DeleteResult(Issue(DeleteRow(row.rowId)), files)
      else DeleteResult(Issue(DeleteRow(row.rowId)), RemoveSamples(files, row.studentId))
  }

  // ---------------------------------------------------------------------
  // Capture loop and averaging

  /** One pass of the capture loop: the read failed, or a frame came with the
      encoding of the first face found (if any) and the key `waitKey` saw. */
  datatype CaptureFrame = ReadFailed | Captured(face: Option<Embedding>, key: int)

  /** The frame is a good read in which a face was found. */
  predicate HasFace(frame: CaptureFrame) {
    frame.Captured? && frame.face.Some?
  }

  /** The encodings the frames yield, in order. */
  function FacesIn(frames: seq<CaptureFrame>): (r: seq<Embedding>)
    ensures |r| <= |frames|
  {
    if frames == [] then []
    else
      var last := frames[|frames| - 1];
      FacesIn(frames[..|frames| - 1]) + (if HasFace(last) then [last.face.value] else [])
  }

  /** The face of `frames[k]`, when it has one, is `e`. */
  predicate FaceAt(frames: seq<CaptureFrame>, k: int, e: Embedding) {
    0 <= k < |frames| && HasFace(frames[k]) && frames[k].face.value == e
  }

  /** `e` is the face of some frame. */
  predicate FaceOfSomeFrame(frames: seq<CaptureFrame>, e: Embedding) {
    exists k :: 0 <= k < |frames| && FaceAt(frames, k, e)
  }

  /** Each sample is the face of some frame, and the face of every frame
      that has one is among the samples. */
  lemma {:induction false} FacesInAreFrameFaces(frames: seq<CaptureFrame>)
    ensures forall i :: 0 <= i < |FacesIn(frames)| ==> FaceOfSomeFrame(frames, FacesIn(frames)[i])
    ensures forall k :: 0 <= k < |frames| && HasFace(frames[k]) ==> frames[k].face.value in FacesIn(frames)
  {
    if frames != [] {
      var n := |frames| - 1;
      var init := frames[..n];
      FacesInAreFrameFaces(init);
      var r := FacesIn(frames);
      var a := FacesIn(init);
      assert r == a + (if HasFace(frames[n]) then [frames[n].face.value] else []);
      forall i | 0 <= i < |r| ensures FaceOfSomeFrame(frames, r[i]) {
        if i < |a| {
          assert FaceOfSomeFrame(init, a[i]);
          var k :| 0 <= k < |init| && FaceAt(init, k, a[i]);
          assert init[k] == frames[k];
          assert FaceAt(frames, k, r[i]);
        } else {
          assert FaceAt(frames, n, r[i]);
        }
      }
      forall k | 0 <= k < |frames| && HasFace(frames[k]) ensures frames[k].face.value in r {
        if k < n {
          assert init[k] == frames[k];
        }
      }
    } else {
      assert FacesIn(frames) == [];
    }
  }

  /** The frame ends the loop: failed read, ESC, or the fifth sample. */
  predicate StopsLoop(frames: seq<CaptureFrame>, k: int)
    requires 0 <= k < |frames|
  {
    frames[k].ReadFailed? || frames[k].key == EscKey || |FacesIn(frames[..k + 1])| >= SampleTarget
  }

  /** Reading `n` frames is where the loop ends: no earlier frame stopped it,
      and unless the frames ran out, the `n`-th did. */
  predicate LoopStopsAt(frames: seq<CaptureFrame>, n: int) {
    && 0 <= n <= |frames|
    && (forall k :: 0 <= k < n - 1 ==> !StopsLoop(frames, k))
    && (n < |frames| ==> n > 0 && StopsLoop(frames, n - 1))
  }

  /** The loop has one stopping point: the number of frames read, and so the
      samples taken, are determined by the frames. */
  lemma LoopStopsAtUnique(frames: seq<CaptureFrame>, n1: int, n2: int)
    requires LoopStopsAt(frames, n1) && LoopStopsAt(frames, n2)
    ensures n1 == n2
  {
  }

  /** `n` frames that all show a face yield `n` samples. */
  lemma {:induction false} FacesInAllFaces(frames: seq<CaptureFrame>, n: nat)
    requires n <= |frames| && forall k :: 0 <= k < n ==> HasFace(frames[k])
    ensures |FacesIn(frames[..n])| == n
  {
    if n > 0 {
      FacesInAllFaces(frames, n - 1);
      assert frames[..n][..n - 1] == frames[..n - 1];
    }
  }

  /** Five frames in a row with a face and no ESC fill the session: the loop
      stops after the fifth frame with five samples. */
  lemma FiveFacesStopAtFive(frames: seq<CaptureFrame>)
    requires |frames| >= SampleTarget
    requires forall k :: 0 <= k < SampleTarget ==> HasFace(frames[k]) && frames[k].key != EscKey
    ensures LoopStopsAt(frames, SampleTarget) && |FacesIn(frames[..SampleTarget])| == SampleTarget
  {
    forall k | 0 <= k < SampleTarget - 1 ensures !StopsLoop(frames, k) {
      FacesInAllFaces(frames, k + 1);
    }
    FacesInAllFaces(frames, SampleTarget);
  }

  /** The capture loop: reads frames until a read fails (or the camera has
      nothing more), ESC is pressed, or five samples are taken. A sample is
      counted only for a frame in which a face was found. */
  method CaptureLoop(frames: seq<CaptureFrame>) returns (samples: seq<Embedding>, consumed: nat)
    ensures consumed <= |frames|
    ensures |samples| <= SampleTarget
    ensures samples == FacesIn(frames[..consumed])
    ensures forall k :: 0 <= k < consumed - 1 ==> !StopsLoop(frames, k)
    ensures consumed < |frames| ==> consumed > 0 && StopsLoop(frames, consumed - 1)
    ensures consumed == |frames| && consumed > 0 && !StopsLoop(frames, consumed - 1) ==>
              |samples| < SampleTarget
  {
    samples := [];
    consumed := 0;
    while |samples| < SampleTarget
      invariant consumed <= |frames|
      invariant |samples| <= SampleTarget
      invariant samples == FacesIn(frames[..consumed])
      invariant forall k :: 0 <= k < consumed ==> !StopsLoop(frames, k)
      decreases |frames| - consumed
    {
      if consumed == |frames| {
        break;
      }
      var frame := frames[consumed];
      assert frames[..consumed + 1][..consumed] == frames[..consumed];
      consumed := consumed + 1;
      if frame.ReadFailed? {
        break;
      }
      if frame.face.Some? {
        samples := samples + [frame.face.value];
      }
      if frame.key == EscKey || |samples| >= SampleTarget {
        break;
      }
    }
  }

  /** The sample names of one session: `<id>_1.jpg` … `<id>_k.jpg`. Each
      is one that the delete filter for the same student selects. */
  function SampleNames(id: string, k: nat): (r: seq<string>)
    ensures |r| == k
    ensures forall i :: 0 <= i < k ==> r[i] == SampleFileName(id, i + 1)
    ensures forall i :: 0 <= i < k ==> DeleteSelects(id, r[i])
  {
    var r := seq(k, i requires 0 <= i < k => SampleFileName(id, i + 1));
    forall i | 0 <= i < k ensures DeleteSelects(id, r[i]) {
      DeleteSelectsSample(id, id, i + 1);
    }
    r
  }

  /** All sample names of one session are pairwise distinct, so no sample
      overwrites another of the same session. */
  lemma SampleNamesDistinct(id: string, k: nat)
    ensures forall i, j :: 0 <= i < j < k ==> SampleNames(id, k)[i] != SampleNames(id, k)[j]
  {
    forall i, j | 0 <= i < j < k ensures SampleNames(id, k)[i] != SampleNames(id, k)[j] {
      SampleFileNamesDistinct(id, i + 1, j + 1);
    }
  }

  /** All vectors have the dimension of the first. */
  predicate Uniform(vs: seq<Embedding>) {
    |vs| > 0 && forall i :: 0 <= i < |vs| ==> |vs[i]| == |vs[0]|
  }

  /** The sum of coordinate `j` over all vectors. */
  function ColumnSum(vs: seq<Embedding>, j: nat): real
    requires forall i :: 0 <= i < |vs| ==> j < |vs[i]|
  {
    if vs == [] then 0.0 else ColumnSum(vs[..|vs| - 1], j) + vs[|vs| - 1][j]
  }

  /** `np.mean(face_encodings, axis=0)`: coordinate by coordinate, the sum
      divided by the number of samples. Each coordinate of the mean lies
      between the smallest and the largest value of that coordinate over the
      samples. */
  function Mean(vs: seq<Embedding>): (m: Embedding)
    requires Uniform(vs)
    ensures |m| == |vs[0]|
    ensures forall j :: 0 <= j < |m| ==> m[j] * (|vs| as real) == ColumnSum(vs, j)
    ensures forall j :: 0 <= j < |m| ==>
      && (exists i :: 0 <= i < |vs| && vs[i][j] <= m[j])
      && (exists i :: 0 <= i < |vs| && m[j] <= vs[i][j])
  {
    var m := seq(|vs[0]|, j requires 0 <= j < |vs[0]| => ColumnSum(vs, j) / (|vs| as real));
    forall j | 0 <= j < |m|
      ensures (exists i :: 0 <= i < |vs| && vs[i][j] <= m[j]) && (exists i :: 0 <= i < |vs| && m[j] <= vs[i][j])
    {
      if forall i :: 0 <= i < |vs| ==> vs[i][j] > m[j] {
        ColumnSumAbove(vs, j, m[j]);
      }
      if forall i :: 0 <= i < |vs| ==> vs[i][j] < m[j] {
        ColumnSumBelow(vs, j, m[j]);
      }
    }
    m
  }

  /** A column whose every value exceeds `x` sums to more than `|vs|` times `x`. */
  lemma {:induction false} ColumnSumAbove(vs: seq<Embedding>, j: nat, x: real)
    requires |vs| > 0 && forall i :: 0 <= i < |vs| ==> j < |vs[i]| && vs[i][j] > x
    ensures ColumnSum(vs, j) > (|vs| as real) * x
  {
    if |vs| > 1 {
      ColumnSumAbove(vs[..|vs| - 1], j, x);
    }
  }

  /** A column whose every value is below `x` sums to less than `|vs|` times `x`. */
  lemma {:induction false} ColumnSumBelow(vs: seq<Embedding>, j: nat, x: real)
    requires |vs| > 0 && forall i :: 0 <= i < |vs| ==> j < |vs[i]| && vs[i][j] < x
    ensures ColumnSum(vs, j) < (|vs| as real) * x
  {
    if |vs| > 1 {
      ColumnSumBelow(vs[..|vs| - 1], j, x);
    }
  }

  lemma {:induction false} ColumnSumOfCopies(vs: seq<Embedding>, v: Embedding, j: nat)
    requires j < |v|
    requires forall i :: 0 <= i < |vs| ==> vs[i] == v
    ensures ColumnSum(vs, j) == (|vs| as real) * v[j]
  {
    if vs != [] {
      ColumnSumOfCopies(vs[..|vs| - 1], v, j);
    }
  }

  /** Averaging k copies of one encoding gives that encoding back. */
  lemma MeanOfCopies(vs: seq<Embedding>, v: Embedding)
    requires |vs| > 0
    requires forall i :: 0 <= i < |vs| ==> vs[i] == v
    ensures Uniform(vs) && Mean(vs) == v
  {
    var m := Mean(vs);
    forall j | 0 <= j < |v| ensures m[j] == v[j] {
      ColumnSumOfCopies(vs, v, j);
    }
  }

  /** Every encoding the frames yield has dimension `dim`. */
  predicate FacesOfDim(frames: seq<CaptureFrame>, dim: nat) {
    forall k :: 0 <= k < |frames| && frames[k].Captured? && frames[k].face.Some? ==>
      |frames[k].face.value| == dim
  }

  lemma {:induction false} FacesInOfDim(frames: seq<CaptureFrame>, dim: nat)
    requires FacesOfDim(frames, dim)
    ensures forall i :: 0 <= i < |FacesIn(frames)| ==> |FacesIn(frames)[i]| == dim
  {
    if frames != [] {
      FacesInOfDim(frames[..|frames| - 1], dim);
    }
  }

  /** What a capture session ends with: the student id the encoding update
      is keyed on, how many frames the loop read, the files written, the
      averaged encoding sent to the store (if any) and whether the store
      took it. */
  datatype CaptureResult =
    | CaptureRefused(reason: Reason)
    | CaptureDone(studentId: string, framesRead: nat, files: seq<string>, average: Option<Embedding>, stored: bool)

  /** `capture_face`: needs a selected row and a camera; runs the loop up
      to its stopping point, writing one file per face found; and stores the
      element-wise mean of those faces whenever there is at least one, even
      with fewer than five. */
  method CaptureFace(sel: Option<Selection>, cameraOpens: bool, frames: seq<CaptureFrame>,
                     dim: nat, storeOk: bool) returns (r: CaptureResult)
    requires FacesOfDim(frames, dim)
    ensures sel.None? ==> r == CaptureRefused(NoSelection)
    ensures sel.Some? && !cameraOpens ==> r == CaptureRefused(CameraUnavailable)
    ensures sel.Some? && cameraOpens ==> r.CaptureDone?
    ensures r.CaptureDone? ==>
      && sel.Some? && r.studentId == sel.value.studentId
      && LoopStopsAt(frames, r.framesRead)
      && |r.files| == |FacesIn(frames[..r.framesRead])| <= SampleTarget
      && r.files == SampleNames(sel.value.studentId, |r.files|)
      && (r.average.Some? <==> |r.files| > 0)
      && (r.stored <==> r.average.Some? && storeOk)
    ensures r.CaptureDone? && r.average.Some? ==>
      Uniform(FacesIn(frames[..r.framesRead])) && r.average.value == Mean(FacesIn(frames[..r.framesRead]))
  {
    if sel.None? {
      return CaptureRefused(NoSelection);
    }
    if !cameraOpens {
      return CaptureRefused(CameraUnavailable);
    }
    var samples, consumed := CaptureLoop(frames);
    var files := SampleNames(sel.value.studentId, |samples|);
    if samples == [] {
      return CaptureDone(sel.value.studentId, consumed, files, None, false);
    }
    assert FacesOfDim(frames[..consumed], dim) by {
      forall k | 0 <= k < consumed && frames[..consumed][k].Captured? && frames[..consumed][k].face.Some?
        ensures |frames[..consumed][k].face.value| == dim
      {
        assert frames[..consumed][k] == frames[k];
      }
    }
    FacesInOfDim(frames[..consumed], dim);
    var average := Mean(samples);
    r := CaptureDone(sel.value.studentId, consumed, files, Some(average), storeOk);
  }
}
