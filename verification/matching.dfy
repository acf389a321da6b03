/** The in-memory gallery of enrolled faces and the rule that resolves one
    probe embedding to an enrolled student (face_attendance.py). */
module Matching {
  import opened Records

  /** The `tolerance=0.6` passed to `compare_faces`. */
  const Tolerance: real := 0.6

  /** The three parallel lists `known_face_encodings`, `known_student_ids`
      and `known_student_names`. */
  datatype Gallery = Gallery(encodings: seq<Embedding>, ids: seq<string>, names: seq<string>) {

    /** The three lists have one element per enrolled row. */
    predicate Aligned() {
      |encodings| == |ids| && |ids| == |names|
    }

    function Size(): nat {
      |encodings|
    }
  }

  const EmptyGallery: Gallery := Gallery([], [], [])

  /** A resolved student: id and display name. */
  datatype Identity = Identity(studentId: string, name: string)

  /** Index `i` of `g` holds the encoding, id and name of `row`. */
  predicate EntryIs(g: Gallery, i: int, row: StudentRow)
    requires g.Aligned()
  {
    && 0 <= i < g.Size()
    && row.encoding == Some(g.encodings[i])
    && g.ids[i] == row.studentId
    && g.names[i] == row.name
  }

  /** `g` extended at the end of all three lists by one row. */
  function AppendRow(g: Gallery, row: StudentRow): (r: Gallery)
    requires g.Aligned() && row.encoding.Some?
    ensures r.Aligned() && r.Size() == g.Size() + 1
    ensures EntryIs(r, g.Size(), row)
  {
    Gallery(g.encodings + [row.encoding.value], g.ids + [row.studentId], g.names + [row.name])
  }

  /** The rows that carry a stored encoding, in the order the store returns them. */
  function Enrolled(rows: seq<StudentRow>): (r: seq<StudentRow>)
    ensures |r| <= |rows|
    ensures forall row :: row in r <==> row in rows && row.encoding.Some?
  {
    if rows == [] then []
    else
      var last := rows[|rows| - 1];
      assert rows == rows[..|rows| - 1] + [last];
      Enrolled(rows[..|rows| - 1]) + (if last.encoding.Some? then [last] else [])
  }

  /** `big` starts with all of `g`, unchanged. */
  predicate Extends(big: Gallery, g: Gallery) {
    && |g.encodings| <= |big.encodings| && big.encodings[..|g.encodings|] == g.encodings
    && |g.ids| <= |big.ids| && big.ids[..|g.ids|] == g.ids
    && |g.names| <= |big.names| && big.names[..|g.names|] == g.names
  }

  /** Appending a row keeps every earlier entry where it was. */
  lemma AppendRowKeepsEntries(g: Gallery, row: StudentRow)
    requires g.Aligned() && row.encoding.Some?
    ensures Extends(AppendRow(g, row), g)
    ensures forall i, other :: EntryIs(g, i, other) ==> EntryIs(AppendRow(g, row), i, other)
  {
  }

  /** Extension is transitive. */
  lemma ExtendsTransitive(a: Gallery, b: Gallery, c: Gallery)
    requires Extends(a, b) && Extends(b, c)
    ensures Extends(a, c)
  {
  }

  /** The loop of `load_known_faces` over rows that decode: every row with an
      encoding is appended to all three lists at the same index, in order,
      and nothing else is appended. */
  function LoadRows(g: Gallery, rows: seq<StudentRow>): (r: Gallery)
    requires g.Aligned()
    ensures r.Aligned() && Extends(r, g)
    ensures r.Size() == g.Size() + |Enrolled(rows)|
    ensures forall k :: 0 <= k < |Enrolled(rows)| ==> EntryIs(r, g.Size() + k, Enrolled(rows)[k])
  {
    if rows == [] then g
    else
      var prev := LoadRows(g, rows[..|rows| - 1]);
      var last := rows[|rows| - 1];
      if last.encoding.Some? then
        AppendRowKeepsEntries(prev, last);
        ExtendsTransitive(AppendRow(prev, last), prev, g);
        AppendRow(prev, last)
      else
        prev
  }

  /** `load_known_faces` with a row whose encoding is NULL skipped, as a
      student without a captured face is meant to be left out of the
      gallery. A store error leaves the gallery as it was. */
  function LoadKnownFaces(g: Gallery, read: StoreRead<seq<StudentRow>>): (r: Gallery)
    requires g.Aligned()
    ensures r.Aligned() && Extends(r, g)
    ensures read.StoreError? ==> r == g
    ensures read.Fetched? ==>
      && r.Size() == g.Size() + |Enrolled(read.value)|
      && forall k :: 0 <= k < |Enrolled(read.value)| ==>
           EntryIs(r, g.Size() + k, Enrolled(read.value)[k])
  {
    match read
    case StoreError => g
    case Fetched(rows) => LoadRows(g, rows)
  }

  /** What `load_known_faces` does as written. */
  datatype LoadOutcome = Loaded(gallery: Gallery) | Crashed

  predicate HasNullEncoding(rows: seq<StudentRow>) {
    exists row :: row in rows && row.encoding.None?
  }

  function LoadRowsAsWritten(g: Gallery, rows: seq<StudentRow>): (r: LoadOutcome)
    requires g.Aligned()
    ensures r.Crashed? <==> HasNullEncoding(rows)
  {
    if rows == [] then Loaded(g)
    else
      var last := rows[|rows| - 1];
      assert rows == rows[..|rows| - 1] + [last];
      match LoadRowsAsWritten(g, rows[..|rows| - 1])
      case Crashed => Crashed
      case Loaded(prev) => if last.encoding.None? then Crashed else Loaded(AppendRow(prev, last))
  }

  /** `load_known_faces` as written: `np.frombuffer(None, ...)` on a NULL
      encoding raises `TypeError`, which the `except mysql.connector.Error`
      does not catch, so the application constructor fails. */
  function LoadKnownFacesAsWritten(g: Gallery, read: StoreRead<seq<StudentRow>>): (r: LoadOutcome)
    requires g.Aligned()
    ensures r.Crashed? <==> read.Fetched? && HasNullEncoding(read.value)
    ensures read.StoreError? ==> r == Loaded(g)
  {
    match read
    case StoreError => Loaded(g)
    case Fetched(rows) => LoadRowsAsWritten(g, rows)
  }

  /** A student added without a captured face makes the loader as written
      fail, while the corrected loader leaves that student out. */
  lemma NullEncodingCrashesLoader()
    ensures var rows := [StudentRow(1, "S1", "Alice", "CS", "", None)];
      && LoadKnownFacesAsWritten(EmptyGallery, Fetched(rows)) == Crashed
      && LoadKnownFaces(EmptyGallery, Fetched(rows)) == EmptyGallery
  {
  }

  /** When every row has an encoding, the correction changes nothing. */
  lemma {:induction false} LoadersAgreeWithoutNulls(g: Gallery, rows: seq<StudentRow>)
    requires g.Aligned()
    requires !HasNullEncoding(rows)
    ensures LoadRowsAsWritten(g, rows) == Loaded(LoadRows(g, rows))
  {
    if rows != [] {
      var init := rows[..|rows| - 1];
      assert rows[|rows| - 1] in rows;
      assert forall row :: row in init ==> row in rows;
      LoadersAgreeWithoutNulls(g, init);
    }
  }

  /** `i` is where `np.argmin` stops: a minimum, and strictly below every
      earlier entry, so the first minimum wins a tie. */
  predicate IsFirstMinimum(d: seq<real>, i: int) {
    && 0 <= i < |d|
    && (forall j :: 0 <= j < |d| ==> d[i] <= d[j])
    && (forall j :: 0 <= j < i ==> d[i] < d[j])
  }

  /** `np.argmin` on a non-empty array (it raises on an empty one). */
  function ArgMin(d: seq<real>): (i: nat)
    requires |d| > 0
    ensures IsFirstMinimum(d, i)
  {
    if |d| == 1 then 0
    else
      var k := ArgMin(d[..|d| - 1]);
      assert forall j :: 0 <= j < |d| - 1 ==> d[..|d| - 1][j] == d[j];
      if d[|d| - 1] < d[k] then |d| - 1 else k
  }

  /** At most one index is the first minimum. */
  lemma FirstMinimumUnique(d: seq<real>, i: int, j: int)
    requires IsFirstMinimum(d, i) && IsFirstMinimum(d, j)
    ensures i == j
  {
    assert d[i] <= d[j] && d[j] <= d[i];
  }

  /** `face_distance(known_face_encodings, probe)`: one distance per gallery
      entry, computed by the encoder library's `dist`. */
  function Distances(g: Gallery, probe: Embedding, dist: (Embedding, Embedding) -> real): (d: seq<real>)
    ensures |d| == |g.encodings|
    ensures forall i :: 0 <= i < |d| ==> d[i] == dist(g.encodings[i], probe)
  {
    seq(|g.encodings|, i requires 0 <= i < |g.encodings| => dist(g.encodings[i], probe))
  }

  /** The index chosen by `argmin`, kept only if `matches[best_match_index]`,
      i.e. that same entry is within tolerance. There is a match exactly
      when SOME entry is within tolerance, since the nearest one then is too. */
  function MatchIndex(d: seq<real>): (r: Option<nat>)
    requires |d| > 0
    ensures r.Some? ==> IsFirstMinimum(d, r.value) && d[r.value] <= Tolerance
    ensures r.None? <==> forall j :: 0 <= j < |d| ==> d[j] > Tolerance
  {
    var i := ArgMin(d);
    if d[i] <= Tolerance then Some(i) else None
  }

  /** The student a probe resolves to, if any. */
  function Resolve(g: Gallery, probe: Embedding, dist: (Embedding, Embedding) -> real): (r: Option<Identity>)
    requires g.Aligned() && g.Size() > 0
    ensures r.Some? <==> exists i :: 0 <= i < g.Size() && dist(g.encodings[i], probe) <= Tolerance
    ensures r.Some? ==> exists i :: IsFirstMinimum(Distances(g, probe, dist), i)
                                && dist(g.encodings[i], probe) <= Tolerance
                                && r.value == Identity(g.ids[i], g.names[i])
  {
    var d := Distances(g, probe, dist);
    match MatchIndex(d)
    case None => None
    case Some(i) => Some(Identity(g.ids[i], g.names[i]))
  }

  /** The match rule: the probe resolves to the entry at the first index of
      minimal distance when that entry is within tolerance, and to nothing
      when it is not, even though a nearest entry exists. */
  lemma MatchRule(g: Gallery, probe: Embedding, dist: (Embedding, Embedding) -> real, i: int)
    requires g.Aligned() && g.Size() > 0
    requires IsFirstMinimum(Distances(g, probe, dist), i)
    ensures dist(g.encodings[i], probe) <= Tolerance ==>
              Resolve(g, probe, dist) == Some(Identity(g.ids[i], g.names[i]))
    ensures dist(g.encodings[i], probe) > Tolerance ==> Resolve(g, probe, dist) == None
  {
  }
}
