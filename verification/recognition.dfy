/** The recognition session of face_attendance.py: start and stop, one
    `process_frame` call per scheduled callback, the match-and-mark decision
    per probe, and the `today_attendance` ledger that keeps a student from
    being marked twice. Tkinter scheduling becomes an explicit count of
    pending callbacks; the camera, the encoder and the clock become inputs. */
module Recognition {
  import opened Records
  import opened Matching

  /** `face_recognition.face_distance` for one known encoding and one probe. */
  type Distance = (Embedding, Embedding) -> real

  /** One face found in a frame: its encoding, and whether the store would
      accept the attendance insert issued while handling it. */
  datatype Probe = Probe(encoding: Embedding, insertOk: bool)

  /** The outcome of `video_capture.read()` plus everything the frame yields:
      the clock reading at marking time and the probes in detector order. */
  datatype FrameRead = ReadFailed | Frame(now: Timestamp, probes: seq<Probe>)

  /** An attendance insert issued by `mark_attendance`; `stored` is false
      when the store raised and the error was only shown in the status bar. */
  datatype Mark = Mark(who: Identity, at: Timestamp, stored: bool)

  /** The state of `FaceAttendanceSystem` that the decisions depend on. */
  datatype Session = Session(
    gallery: Gallery,               // the three known_* lists
    ledger: set<string>,            // today_attendance
    running: bool,                  // is_running
    hasCapture: bool,               // video_capture is not None
    pending: nat,                   // process_frame calls scheduled and not yet run
    table: seq<AttendanceRow>)      // the attendance table
  {
    /** The gallery lists are aligned, and a running session has faces to match. */
    predicate Valid() {
      gallery.Aligned() && (running ==> gallery.Size() > 0)
    }
  }

  /** The ids with a stored attendance row on `day`. */
  function IdsOnDay(table: seq<AttendanceRow>, day: Date): set<string> {
    set k | 0 <= k < |table| && table[k].date == day :: table[k].studentId
  }

  /** No student has two attendance rows on `day`. */
  predicate OnePerDay(table: seq<AttendanceRow>, day: Date) {
    forall i, j :: 0 <= i < j < |table| && table[i].date == day && table[j].date == day ==>
      table[i].studentId != table[j].studentId
  }

  /** The ids of a sequence of marks. */
  function MarkedIds(ms: seq<Mark>): (r: set<string>)
    ensures forall k :: 0 <= k < |ms| ==> ms[k].who.studentId in r
    ensures forall id :: id in r ==> exists k :: 0 <= k < |ms| && ms[k].who.studentId == id
  {
    set k | 0 <= k < |ms| :: ms[k].who.studentId
  }

  /** No two marks are for the same student. */
  predicate DistinctIds(ms: seq<Mark>) {
    forall i, j :: 0 <= i < j < |ms| ==> ms[i].who.studentId != ms[j].who.studentId
  }

  lemma MarkedIdsConcat(a: seq<Mark>, b: seq<Mark>)
    ensures MarkedIds(a + b) == MarkedIds(a) + MarkedIds(b)
  {
    var ms := a + b;
    forall id | id in MarkedIds(a) ensures id in MarkedIds(ms) {
      var k :| 0 <= k < |a| && a[k].who.studentId == id;
      assert ms[k] == a[k];
    }
    forall id | id in MarkedIds(ms) ensures id in MarkedIds(a) + MarkedIds(b) {
      var k :| 0 <= k < |ms| && ms[k].who.studentId == id;
      if k >= |a| {
        assert b[k - |a|].who.studentId == id;
      }
    }
    forall id | id in MarkedIds(b) ensures id in MarkedIds(ms) {
      var k :| 0 <= k < |b| && b[k].who.studentId == id;
      assert ms[|a| + k] == b[k];
    }
  }

  /** Two batches of marks, the second issued against the ledger the first
      left behind, together keep the ledger's account exact. */
  lemma CombineBatches(l0: set<string>, l1: set<string>, l2: set<string>, a: seq<Mark>, b: seq<Mark>)
    requires l1 == l0 + MarkedIds(a) && DistinctIds(a)
    requires forall k :: 0 <= k < |a| ==> a[k].who.studentId !in l0
    requires l2 == l1 + MarkedIds(b) && DistinctIds(b)
    requires forall k :: 0 <= k < |b| ==> b[k].who.studentId !in l1
    ensures l2 == l0 + MarkedIds(a + b) && DistinctIds(a + b)
    ensures forall k :: 0 <= k < |a + b| ==> (a + b)[k].who.studentId !in l0
  {
    MarkedIdsConcat(a, b);
    var ms := a + b;
    forall i, j | 0 <= i < j < |ms| ensures ms[i].who.studentId != ms[j].who.studentId {
      if j < |a| {
      } else if i >= |a| {
        assert ms[i] == b[i - |a|] && ms[j] == b[j - |a|];
      } else {
        assert ms[j] == b[j - |a|];
        assert ms[i].who.studentId in l1;
      }
    }
    forall k | 0 <= k < |ms| ensures ms[k].who.studentId !in l0 {
      if k >= |a| {
        assert ms[k] == b[k - |a|];
      }
    }
  }

  /** The constructor, with the corrected loader (as written, a student
      without an encoding makes construction fail): gallery loaded once,
      empty ledger, nothing running. */
  function NewSession(students: StoreRead<seq<StudentRow>>, table: seq<AttendanceRow>): (s: Session)
    ensures s.Valid() && !s.running && !s.hasCapture && s.pending == 0
    ensures s.ledger == {}
    ensures students.Fetched? ==> s.gallery.Size() == |Enrolled(students.value)|
    ensures students.StoreError? ==> s.gallery == EmptyGallery
    ensures s.gallery == LoadKnownFaces(EmptyGallery, students)
    ensures s.table == table
  {
    Session(LoadKnownFaces(EmptyGallery, students), {}, false, false, 0, table)
  }

  /** `mark_attendance`: the insert either lands or its error is swallowed. */
  function MarkAttendance(table: seq<AttendanceRow>, id: string, now: Timestamp, ok: bool): (r: seq<AttendanceRow>)
    ensures ok ==> r == table + [AttendanceRow(id, now.date, now.time)]
    ensures !ok ==> r == table
  {
    if ok then table + [AttendanceRow(id, now.date, now.time)] else table
  }

  /** What one frame has changed so far. */
  datatype FrameState = FrameState(ledger: set<string>, table: seq<AttendanceRow>, marks: seq<Mark>)

  /** The body of the `for` loop of `process_frame` for one probe: match, and
      mark when the resolved id is not yet in the ledger, adding it to the
      ledger whether or not the insert succeeded. */
  function HandleProbe(g: Gallery, dist: Distance, now: Timestamp, st: FrameState, p: Probe): (r: FrameState)
    requires g.Aligned() && g.Size() > 0
    ensures st.ledger <= r.ledger
    ensures Resolve(g, p.encoding, dist).None? ==> r == st
    ensures Resolve(g, p.encoding, dist).Some? ==>
      && Resolve(g, p.encoding, dist).value.studentId in r.ledger
      && r.ledger == st.ledger + {Resolve(g, p.encoding, dist).value.studentId}
    ensures r.marks != st.marks <==>
      Resolve(g, p.encoding, dist).Some? && Resolve(g, p.encoding, dist).value.studentId !in st.ledger
    ensures r.marks != st.marks ==>
      && r.marks == st.marks + [Mark(Resolve(g, p.encoding, dist).value, now, p.insertOk)]
      && r.table == MarkAttendance(st.table, Resolve(g, p.encoding, dist).value.studentId, now, p.insertOk)
    ensures r.marks == st.marks ==> r.table == st.table
  {
    match Resolve(g, p.encoding, dist)
    case None => st
    case Some(who) =>
      if who.studentId in st.ledger then st
      else FrameState(
        st.ledger + {who.studentId},
        MarkAttendance(st.table, who.studentId, now, p.insertOk),
        st.marks + [Mark(who, now, p.insertOk)])
  }

  /** A probe whose nearest entry is beyond tolerance changes nothing. */
  lemma BeyondToleranceChangesNothing(g: Gallery, dist: Distance, now: Timestamp, st: FrameState, p: Probe, i: int)
    requires g.Aligned() && g.Size() > 0
    requires IsFirstMinimum(Distances(g, p.encoding, dist), i)
    requires dist(g.encodings[i], p.encoding) > Tolerance
    ensures HandleProbe(g, dist, now, st, p) == st
  {
  }

  /** A failed insert still puts the id into the ledger, so the student is
      not retried for the rest of the session and has no attendance row. */
  lemma FailedInsertStillLedgered(g: Gallery, dist: Distance, now: Timestamp, st: FrameState, p: Probe)
    requires g.Aligned() && g.Size() > 0
    requires Resolve(g, p.encoding, dist).Some?
    requires Resolve(g, p.encoding, dist).value.studentId !in st.ledger
    requires !p.insertOk
    ensures var r := HandleProbe(g, dist, now, st, p);
      && Resolve(g, p.encoding, dist).value.studentId in r.ledger
      && r.table == st.table
      && |r.marks| == |st.marks| + 1 && !r.marks[|st.marks|].stored
  {
  }

  /** What a frame that has handled `probes` from `ledger` guarantees of
      the ledger. */
  predicate LedgerAccount(g: Gallery, dist: Distance, ledger: set<string>, probes: seq<Probe>, st: FrameState)
    requires g.Aligned() && g.Size() > 0
  {
    && ledger <= st.ledger
    && st.ledger == ledger + MarkedIds(st.marks)
    && DistinctIds(st.marks)
    && (forall k :: 0 <= k < |st.marks| ==> st.marks[k].who.studentId !in ledger)
    && (forall k :: 0 <= k < |probes| && Resolve(g, probes[k].encoding, dist).Some? ==>
          Resolve(g, probes[k].encoding, dist).value.studentId in st.ledger)
  }

  /** What each probe resolves to, in probe order. */
  function Resolutions(g: Gallery, dist: Distance, probes: seq<Probe>): (r: seq<Option<Identity>>)
    requires g.Aligned() && g.Size() > 0
    ensures |r| == |probes|
    ensures forall j :: 0 <= j < |probes| ==> r[j] == Resolve(g, probes[j].encoding, dist)
  {
    if probes == [] then []
    else Resolutions(g, dist, probes[..|probes| - 1]) + [Resolve(g, probes[|probes| - 1].encoding, dist)]
  }

  /** Every mark is for a student some probe resolved to. */
  predicate MarksFromProbes(g: Gallery, dist: Distance, probes: seq<Probe>, marks: seq<Mark>)
    requires g.Aligned() && g.Size() > 0
  {
    forall k :: 0 <= k < |marks| ==> Some(marks[k].who) in Resolutions(g, dist, probes)
  }

  /** The attendance row a stored mark adds. */
  function RowOf(m: Mark): AttendanceRow {
    AttendanceRow(m.who.studentId, m.at.date, m.at.time)
  }

  /** The rows the stored marks add, in the order the marks were issued. */
  function StoredRows(ms: seq<Mark>): seq<AttendanceRow> {
    if ms == [] then []
    else StoredRows(ms[..|ms| - 1]) + (if ms[|ms| - 1].stored then [RowOf(ms[|ms| - 1])] else [])
  }

  /** What a frame read at `now` that started from `table` guarantees of the
      table: it gained one row per stored mark, in order, every mark is
      dated `now`, and every new row is dated `now`. */
  predicate TableAccount(table: seq<AttendanceRow>, now: Timestamp, st: FrameState) {
    && st.table == table + StoredRows(st.marks)
    && (forall k :: 0 <= k < |st.marks| ==> st.marks[k].at == now)
    && (forall k :: |table| <= k < |st.table| ==> st.table[k].date == now.date)
  }

  /** Handling one more probe keeps the ledger's account. */
  lemma HandleProbeKeepsLedgerAccount(g: Gallery, dist: Distance, now: Timestamp, ledger: set<string>,
                                      probes: seq<Probe>, p: Probe, st: FrameState)
    requires g.Aligned() && g.Size() > 0
    requires LedgerAccount(g, dist, ledger, probes, st)
    ensures LedgerAccount(g, dist, ledger, probes + [p], HandleProbe(g, dist, now, st, p))
  {
    var r := HandleProbe(g, dist, now, st, p);
    var all := probes + [p];
    assert forall k :: 0 <= k < |probes| ==> all[k] == probes[k];
    assert all[|probes|] == p;
    if r.marks != st.marks {
      MarkedIdsConcat(st.marks, [r.marks[|st.marks|]]);
      assert MarkedIds([r.marks[|st.marks|]]) == {r.marks[|st.marks|].who.studentId};
      assert r.marks == st.marks + [r.marks[|st.marks|]];
    }
  }

  /** Handling one more probe keeps every mark traceable to a probe. */
  lemma HandleProbeKeepsMarksFromProbes(g: Gallery, dist: Distance, now: Timestamp,
                                        probes: seq<Probe>, p: Probe, st: FrameState)
    requires g.Aligned() && g.Size() > 0
    requires MarksFromProbes(g, dist, probes, st.marks)
    ensures MarksFromProbes(g, dist, probes + [p], HandleProbe(g, dist, now, st, p).marks)
  {
    var r := HandleProbe(g, dist, now, st, p);
    MarksFromMoreProbes(g, dist, probes, p, st.marks);
    if r.marks != st.marks {
      MarkFromLastProbe(g, dist, probes, p, st.marks, r.marks[|st.marks|]);
      assert r.marks == st.marks + [r.marks[|st.marks|]];
    }
  }

  /** Marks traceable to some probes stay traceable when a probe is added. */
  lemma MarksFromMoreProbes(g: Gallery, dist: Distance, probes: seq<Probe>, p: Probe, marks: seq<Mark>)
    requires g.Aligned() && g.Size() > 0
    requires MarksFromProbes(g, dist, probes, marks)
    ensures MarksFromProbes(g, dist, probes + [p], marks)
  {
    assert (probes + [p])[..|probes|] == probes;
  }

  /** A mark for the student the added probe resolves to is traceable. */
  lemma MarkFromLastProbe(g: Gallery, dist: Distance, probes: seq<Probe>, p: Probe, marks: seq<Mark>, m: Mark)
    requires g.Aligned() && g.Size() > 0
    requires MarksFromProbes(g, dist, probes + [p], marks)
    requires Resolve(g, p.encoding, dist) == Some(m.who)
    ensures MarksFromProbes(g, dist, probes + [p], marks + [m])
  {
    var ms := marks + [m];
    assert (probes + [p])[|probes|] == p;
    forall k | 0 <= k < |ms| ensures Some(ms[k].who) in Resolutions(g, dist, probes + [p]) {
      if k < |marks| {
        assert ms[k] == marks[k];
      }
    }
  }

  /** Appending a mark adds its row exactly when it was stored. */
  lemma StoredRowsSnoc(ms: seq<Mark>, m: Mark)
    ensures StoredRows(ms + [m]) == StoredRows(ms) + (if m.stored then [RowOf(m)] else [])
  {
    assert (ms + [m])[..|ms|] == ms;
  }

  /** One more mark, dated `now`, with its row appended when it was stored,
      keeps the table's account. */
  lemma TableAccountSnoc(table: seq<AttendanceRow>, now: Timestamp, st: FrameState, m: Mark,
                         ledger: set<string>)
    requires TableAccount(table, now, st) && m.at == now
    ensures TableAccount(table, now, FrameState(ledger, st.table + (if m.stored then [RowOf(m)] else []), st.marks + [m]))
  {
    var ms := st.marks + [m];
    var t := st.table + (if m.stored then [RowOf(m)] else []);
    StoredRowsSnoc(st.marks, m);
    forall k | 0 <= k < |ms| ensures ms[k].at == now {
      if k < |st.marks| {
        assert ms[k] == st.marks[k];
      }
    }
    forall k | |table| <= k < |t| ensures t[k].date == now.date {
      if k < |st.table| {
        assert t[k] == st.table[k];
      }
    }
  }

  /** `o` is a resolution to the student `id`. */
  predicate ResolvesTo(o: Option<Identity>, id: string) {
    o.Some? && o.value.studentId == id
  }

  /** The index of the first resolution to `id`, or -1 when there is none. */
  function FirstResolving(rs: seq<Option<Identity>>, id: string): (j: int)
    ensures -1 <= j < |rs|
    ensures j >= 0 ==> ResolvesTo(rs[j], id) && forall i :: 0 <= i < j ==> !ResolvesTo(rs[i], id)
    ensures j == -1 ==> forall i :: 0 <= i < |rs| ==> !ResolvesTo(rs[i], id)
  {
    if rs == [] then -1
    else
      var init := rs[..|rs| - 1];
      assert forall i :: 0 <= i < |init| ==> init[i] == rs[i];
      var j := FirstResolving(init, id);
      if j >= 0 then j
      else if ResolvesTo(rs[|rs| - 1], id) then |rs| - 1
      else -1
  }

  /** Each mark comes from the first probe that resolved to its student: it
      carries that probe's identity and its insert outcome, and the marks
      are in the order of those probes. */
  predicate Sourced(rs: seq<Option<Identity>>, probes: seq<Probe>, marks: seq<Mark>)
    requires |rs| == |probes|
  {
    && (forall k :: 0 <= k < |marks| ==>
          var j := FirstResolving(rs, marks[k].who.studentId);
          0 <= j < |probes| && rs[j] == Some(marks[k].who) && marks[k].stored == probes[j].insertOk)
    && (forall k1, k2 :: 0 <= k1 < k2 < |marks| ==>
          FirstResolving(rs, marks[k1].who.studentId) < FirstResolving(rs, marks[k2].who.studentId))
  }

  lemma FirstResolvingSnoc(rs: seq<Option<Identity>>, o: Option<Identity>, id: string)
    ensures FirstResolving(rs + [o], id) ==
      if FirstResolving(rs, id) >= 0 then FirstResolving(rs, id)
      else if ResolvesTo(o, id) then |rs| else -1
  {
    assert (rs + [o])[..|rs|] == rs;
  }

  /** A probe that issues no mark keeps every mark's source. */
  lemma SourcedMoreProbes(rs: seq<Option<Identity>>, probes: seq<Probe>, o: Option<Identity>, p: Probe,
                          marks: seq<Mark>)
    requires |rs| == |probes| && Sourced(rs, probes, marks)
    ensures Sourced(rs + [o], probes + [p], marks)
  {
    forall id ensures FirstResolving(rs, id) >= 0 ==> FirstResolving(rs + [o], id) == FirstResolving(rs, id) {
      FirstResolvingSnoc(rs, o, id);
    }
    forall k | 0 <= k < |marks|
      ensures var j := FirstResolving(rs + [o], marks[k].who.studentId);
        0 <= j < |probes + [p]| && (rs + [o])[j] == Some(marks[k].who) && marks[k].stored == (probes + [p])[j].insertOk
    {
      var j := FirstResolving(rs, marks[k].who.studentId);
      assert (rs + [o])[j] == rs[j] && (probes + [p])[j] == probes[j];
    }
  }

  /** A mark from a probe whose student no earlier probe resolved to is
      sourced by that probe, and comes after every earlier mark. */
  lemma SourcedNewMark(rs: seq<Option<Identity>>, probes: seq<Probe>, p: Probe, marks: seq<Mark>, m: Mark)
    requires |rs| == |probes| && Sourced(rs, probes, marks)
    requires FirstResolving(rs, m.who.studentId) == -1 && m.stored == p.insertOk
    ensures Sourced(rs + [Some(m.who)], probes + [p], marks + [m])
  {
    var rs1 := rs + [Some(m.who)];
    var ms := marks + [m];
    SourcedMoreProbes(rs, probes, Some(m.who), p, marks);
    FirstResolvingSnoc(rs, Some(m.who), m.who.studentId);
    forall k | 0 <= k < |ms|
      ensures var j := FirstResolving(rs1, ms[k].who.studentId);
        0 <= j < |probes + [p]| && rs1[j] == Some(ms[k].who) && ms[k].stored == (probes + [p])[j].insertOk
    {
      if k < |marks| {
        assert ms[k] == marks[k];
      }
    }
    forall k1, k2 | 0 <= k1 < k2 < |ms|
      ensures FirstResolving(rs1, ms[k1].who.studentId) < FirstResolving(rs1, ms[k2].who.studentId)
    {
      assert ms[k1] == marks[k1];
      if k2 < |marks| {
        assert ms[k2] == marks[k2];
      }
    }
  }

  /** Handling one more probe keeps every mark's source. */
  lemma HandleProbeKeepsSourced(g: Gallery, dist: Distance, now: Timestamp, ledger: set<string>,
                                probes: seq<Probe>, p: Probe, st: FrameState)
    requires g.Aligned() && g.Size() > 0
    requires LedgerAccount(g, dist, ledger, probes, st)
    requires Sourced(Resolutions(g, dist, probes), probes, st.marks)
    ensures Sourced(Resolutions(g, dist, probes + [p]), probes + [p], HandleProbe(g, dist, now, st, p).marks)
  {
    var rs := Resolutions(g, dist, probes);
    assert (probes + [p])[..|probes|] == probes;
    assert Resolutions(g, dist, probes + [p]) == rs + [Resolve(g, p.encoding, dist)];
    match Resolve(g, p.encoding, dist)
    case None =>
      SourcedMoreProbes(rs, probes, None, p, st.marks);
    case Some(who) =>
      if who.studentId in st.ledger {
        SourcedMoreProbes(rs, probes, Some(who), p, st.marks);
      } else {
        forall i | 0 <= i < |rs| ensures !ResolvesTo(rs[i], who.studentId) {
          assert rs[i] == Resolve(g, probes[i].encoding, dist);
        }
        SourcedNewMark(rs, probes, p, st.marks, Mark(who, now, p.insertOk));
      }
  }

  /** Handling one more probe keeps the table's account. */
  lemma HandleProbeKeepsTableAccount(g: Gallery, dist: Distance, now: Timestamp,
                                     table: seq<AttendanceRow>, p: Probe, st: FrameState)
    requires g.Aligned() && g.Size() > 0
    requires TableAccount(table, now, st)
    ensures TableAccount(table, now, HandleProbe(g, dist, now, st, p))
  {
    var r := HandleProbe(g, dist, now, st, p);
    match Resolve(g, p.encoding, dist)
    case None =>
    case Some(who) =>
      if who.studentId !in st.ledger {
        var m := Mark(who, now, p.insertOk);
        TableAccountSnoc(table, now, st, m, r.ledger);
      }
  }

  /** All probes of one frame, in order, starting from the session's ledger
      and table. The ledger only grows, by exactly the ids marked; no id is
      marked twice or marked when it was already in the ledger; every
      recognised student ends up in the ledger; every mark is for a student
      some probe resolved to; each mark comes from the first probe resolving
      to its student, carries that probe's insert outcome, and the marks are
      in probe order; the table gains one row per stored mark, in order,
      dated `now`. */
  function HandleProbes(g: Gallery, dist: Distance, now: Timestamp, ledger: set<string>,
                        table: seq<AttendanceRow>, probes: seq<Probe>): (r: FrameState)
    requires g.Aligned() && g.Size() > 0
    ensures ledger <= r.ledger
    ensures r.ledger == ledger + MarkedIds(r.marks)
    ensures DistinctIds(r.marks)
    ensures forall k :: 0 <= k < |r.marks| ==> r.marks[k].who.studentId !in ledger
    ensures forall k :: 0 <= k < |probes| && Resolve(g, probes[k].encoding, dist).Some? ==>
              Resolve(g, probes[k].encoding, dist).value.studentId in r.ledger
    ensures forall k :: 0 <= k < |r.marks| ==> Some(r.marks[k].who) in Resolutions(g, dist, probes)
    ensures r.table == table + StoredRows(r.marks)
    ensures forall k :: 0 <= k < |r.marks| ==> r.marks[k].at == now
    ensures forall k :: |table| <= k < |r.table| ==> r.table[k].date == now.date
    ensures Sourced(Resolutions(g, dist, probes), probes, r.marks)
  {
    HandleProbesAccount(g, dist, now, ledger, table, probes);
    HandleProbesSourced(g, dist, now, ledger, table, probes);
    HandleProbesRaw(g, dist, now, ledger, table, probes)
  }

  /** The loop itself, from the last probe back. */
  function HandleProbesRaw(g: Gallery, dist: Distance, now: Timestamp, ledger: set<string>,
                           table: seq<AttendanceRow>, probes: seq<Probe>): FrameState
    requires g.Aligned() && g.Size() > 0
  {
    if probes == [] then FrameState(ledger, table, [])
    else
      HandleProbe(g, dist, now, HandleProbesRaw(g, dist, now, ledger, table, probes[..|probes| - 1]),
                  probes[|probes| - 1])
  }

  lemma {:induction false} HandleProbesAccount(g: Gallery, dist: Distance, now: Timestamp, ledger: set<string>,
                                              table: seq<AttendanceRow>, probes: seq<Probe>)
    requires g.Aligned() && g.Size() > 0
    ensures LedgerAccount(g, dist, ledger, probes, HandleProbesRaw(g, dist, now, ledger, table, probes))
    ensures MarksFromProbes(g, dist, probes, HandleProbesRaw(g, dist, now, ledger, table, probes).marks)
    ensures TableAccount(table, now, HandleProbesRaw(g, dist, now, ledger, table, probes))
  {
    if probes != [] {
      var init := probes[..|probes| - 1];
      var prev := HandleProbesRaw(g, dist, now, ledger, table, init);
      HandleProbesAccount(g, dist, now, ledger, table, init);
      HandleProbeKeepsLedgerAccount(g, dist, now, ledger, init, probes[|probes| - 1], prev);
      HandleProbeKeepsMarksFromProbes(g, dist, now, init, probes[|probes| - 1], prev);
      HandleProbeKeepsTableAccount(g, dist, now, table, probes[|probes| - 1], prev);
      assert init + [probes[|probes| - 1]] == probes;
    }
  }

  lemma {:induction false} HandleProbesSourced(g: Gallery, dist: Distance, now: Timestamp, ledger: set<string>,
                                              table: seq<AttendanceRow>, probes: seq<Probe>)
    requires g.Aligned() && g.Size() > 0
    ensures Sourced(Resolutions(g, dist, probes), probes, HandleProbesRaw(g, dist, now, ledger, table, probes).marks)
  {
    if probes != [] {
      var init := probes[..|probes| - 1];
      var last := probes[|probes| - 1];
      var prev := HandleProbesRaw(g, dist, now, ledger, table, init);
      assert init + [last] == probes;
      assert HandleProbesRaw(g, dist, now, ledger, table, probes) == HandleProbe(g, dist, now, prev, last);
      HandleProbesSourced(g, dist, now, ledger, table, init);
      HandleProbesAccount(g, dist, now, ledger, table, init);
      HandleProbeKeepsSourced(g, dist, now, ledger, init, last, prev);
    }
  }

  /** Several probes of one frame that all resolve to one student, or to
      nothing, give at most one mark: the ledger is updated before the next
      probe is handled. */
  lemma DuplicateProbesMarkOnce(g: Gallery, dist: Distance, now: Timestamp,
                                ledger: set<string>, table: seq<AttendanceRow>,
                                probes: seq<Probe>, id: string)
    requires g.Aligned() && g.Size() > 0
    requires forall k :: 0 <= k < |probes| ==>
      Resolve(g, probes[k].encoding, dist).None? || Resolve(g, probes[k].encoding, dist).value.studentId == id
    ensures |HandleProbes(g, dist, now, ledger, table, probes).marks| <= 1
  {
    var r := HandleProbes(g, dist, now, ledger, table, probes);
    forall k | 0 <= k < |r.marks| ensures r.marks[k].who.studentId == id {
      var rs := Resolutions(g, dist, probes);
      var j :| 0 <= j < |rs| && rs[j] == Some(r.marks[k].who);
    }
    if |r.marks| >= 2 {
      FirstTwoMarksDiffer(r.marks);
      assert false;
    }
  }

  lemma FirstTwoMarksDiffer(ms: seq<Mark>)
    requires DistinctIds(ms) && |ms| >= 2
    ensures ms[0].who.studentId != ms[1].who.studentId
  {
  }

  /** A frame keeps the attendance table free of a second row for a student
      on `day`, as long as the ledger covers the students stored for `day`. */
  lemma HandleProbeKeepsOnePerDay(g: Gallery, dist: Distance, now: Timestamp, st: FrameState, p: Probe, day: Date)
    requires g.Aligned() && g.Size() > 0
    requires OnePerDay(st.table, day) && IdsOnDay(st.table, day) <= st.ledger
    ensures var r := HandleProbe(g, dist, now, st, p);
      OnePerDay(r.table, day) && IdsOnDay(r.table, day) <= r.ledger
  {
  }

  lemma {:induction false} HandleProbesKeepsOnePerDay(g: Gallery, dist: Distance, now: Timestamp,
                                                     ledger: set<string>, table: seq<AttendanceRow>,
                                                     probes: seq<Probe>, day: Date)
    requires g.Aligned() && g.Size() > 0
    requires OnePerDay(table, day) && IdsOnDay(table, day) <= ledger
    ensures var r := HandleProbes(g, dist, now, ledger, table, probes);
      OnePerDay(r.table, day) && IdsOnDay(r.table, day) <= r.ledger
  {
    if probes != [] {
      HandleProbesKeepsOnePerDay(g, dist, now, ledger, table, probes[..|probes| - 1], day);
      var prev := HandleProbes(g, dist, now, ledger, table, probes[..|probes| - 1]);
      HandleProbeKeepsOnePerDay(g, dist, now, prev, probes[|probes| - 1], day);
    }
  }

  /** The result of one event: the new session and the marks it issued. */
  datatype StepResult = StepResult(session: Session, marks: seq<Mark>)

  /** One call of `process_frame`, which consumes the callback that ran it.
      It does nothing unless running with a capture; a failed read returns
      without scheduling another call, which ends the loop; a good frame
      handles its probes, with their marks and rows, and schedules the next
      call. */
  function ProcessFrame(s: Session, read: FrameRead, dist: Distance): (r: StepResult)
    requires s.Valid() && s.pending > 0
    ensures r.session.Valid() && r.session.gallery == s.gallery
    ensures r.session.running == s.running && r.session.hasCapture == s.hasCapture
    ensures r.session.pending == s.pending <==> s.running && s.hasCapture && read.Frame?
    ensures r.session.pending != s.pending ==> r.session.pending == s.pending - 1
    ensures !(s.running && s.hasCapture && read.Frame?) ==>
      r.marks == [] && r.session.ledger == s.ledger && r.session.table == s.table
    ensures s.ledger <= r.session.ledger
    ensures r.session.ledger == s.ledger + MarkedIds(r.marks)
    ensures DistinctIds(r.marks)
    ensures forall k :: 0 <= k < |r.marks| ==> r.marks[k].who.studentId !in s.ledger
    ensures s.running && s.hasCapture && read.Frame? ==>
      && r.marks == HandleProbes(s.gallery, dist, read.now, s.ledger, s.table, read.probes).marks
      && r.session.table == s.table + StoredRows(r.marks)
      && (forall k :: 0 <= k < |r.marks| ==> r.marks[k].at == read.now)
      && (forall k :: 0 <= k < |read.probes| && Resolve(s.gallery, read.probes[k].encoding, dist).Some? ==>
            Resolve(s.gallery, read.probes[k].encoding, dist).value.studentId in r.session.ledger)
  {
    if !s.running || !s.hasCapture then
      StepResult(s.(pending := s.pending - 1), [])
    else
      match read
      case ReadFailed => StepResult(s.(pending := s.pending - 1), [])
      case Frame(now, probes) =>
        var f := HandleProbes(s.gallery, dist, now, s.ledger, s.table, probes);
        StepResult(s.(ledger := f.ledger, table := f.table), f.marks)
  }

  /** The ledger is kept as long as the session runs, whatever date the
      frames carry: a frame, on any day, whose faces all resolve to students
      already in the ledger, or to nobody, marks no one and adds no row. */
  lemma LedgerOutlivesDate(s: Session, dist: Distance, now: Timestamp, probes: seq<Probe>)
    requires s.Valid() && s.pending > 0 && s.running && s.hasCapture
    requires forall k :: 0 <= k < |probes| && Resolve(s.gallery, probes[k].encoding, dist).Some? ==>
      Resolve(s.gallery, probes[k].encoding, dist).value.studentId in s.ledger
    ensures ProcessFrame(s, Frame(now, probes), dist).marks == []
    ensures ProcessFrame(s, Frame(now, probes), dist).session.table == s.table
  {
  }

  datatype StartStatus = NoFaceData | CameraUnavailable | LedgerUnavailable | Started

  datatype StartResult = StartResult(session: Session, status: StartStatus)

  /** `start_attendance`. An empty gallery refuses before the camera is
      touched; a camera that does not open, or a store error while reading
      today's ids, returns without running (the capture object is kept, as
      in the source); otherwise the ledger is re-seeded with exactly the
      students stored for `today` and the first frame call is scheduled. */
  function StartAttendance(s: Session, today: Date, cameraOpens: bool, storeUp: bool): (r: StartResult)
    requires s.Valid()
    ensures r.session.Valid() && r.session.gallery == s.gallery && r.session.table == s.table
    ensures r.status == NoFaceData <==> s.gallery.Size() == 0
    ensures r.status == NoFaceData ==> r.session == s
    ensures r.status == CameraUnavailable <==> s.gallery.Size() > 0 && !cameraOpens
    ensures r.status == LedgerUnavailable <==> s.gallery.Size() > 0 && cameraOpens && !storeUp
    ensures s.gallery.Size() > 0 ==> r.session.hasCapture
    ensures r.status != Started ==>
      r.session.ledger == s.ledger && r.session.running == s.running && r.session.pending == s.pending
    ensures r.status == Started <==> s.gallery.Size() > 0 && cameraOpens && storeUp
    ensures r.status == Started ==>
      && r.session.running && r.session.hasCapture
      && r.session.pending == s.pending + 1
      && forall id :: id in r.session.ledger <==>
           exists k :: 0 <= k < |s.table| && s.table[k].date == today && s.table[k].studentId == id
  {
    if s.gallery.Size() == 0 then StartResult(s, NoFaceData)
    else if !cameraOpens then StartResult(s.(hasCapture := true), CameraUnavailable)
    else if !storeUp then StartResult(s.(hasCapture := true), LedgerUnavailable)
    else
      StartResult(
        s.(hasCapture := true, ledger := IdsOnDay(s.table, today), running := true, pending := s.pending + 1),
        Started)
  }

  /** `stop_attendance`: not running, capture released; the ledger and any
      callback already scheduled are left as they are. */
  function StopAttendance(s: Session): (r: Session)
    requires s.Valid()
    ensures r.Valid() && !r.running && !r.hasCapture
    ensures r.ledger == s.ledger && r.table == s.table && r.gallery == s.gallery && r.pending == s.pending
  {
    s.(running := false, hasCapture := false)
  }

  /** What can happen to a session: a button press, or a scheduled callback. */
  datatype Event =
    | StartPressed(today: Date, cameraOpens: bool, storeUp: bool)
    | StopPressed
    | FrameDue(read: FrameRead)

  /** One event. A callback fires only while one is scheduled. */
  function Step(s: Session, e: Event, dist: Distance): (r: StepResult)
    requires s.Valid()
    ensures r.session.Valid() && r.session.gallery == s.gallery
    ensures !e.StartPressed? ==>
      && s.ledger <= r.session.ledger
      && r.session.ledger == s.ledger + MarkedIds(r.marks)
      && DistinctIds(r.marks)
      && forall k :: 0 <= k < |r.marks| ==> r.marks[k].who.studentId !in s.ledger
    ensures e.StartPressed? ==> r.marks == []
  {
    match e
    case StartPressed(today, cameraOpens, storeUp) =>
      StepResult(StartAttendance(s, today, cameraOpens, storeUp).session, [])
    case StopPressed => StepResult(StopAttendance(s), [])
    case FrameDue(read) => if s.pending == 0 then StepResult(s, []) else ProcessFrame(s, read, dist)
  }

  /** A sequence of events, collecting every mark issued. */
  function Run(s: Session, es: seq<Event>, dist: Distance): (r: StepResult)
    requires s.Valid()
    ensures r.session.Valid() && r.session.gallery == s.gallery
    decreases |es|
  {
    if es == [] then StepResult(s, [])
    else
      var a := Step(s, es[0], dist);
      var b := Run(a.session, es[1..], dist);
      StepResult(b.session, a.marks + b.marks)
  }

  predicate NoStart(es: seq<Event>) {
    forall k :: 0 <= k < |es| ==> !es[k].StartPressed?
  }

  /** Between two starts the ledger only grows, by exactly the ids marked,
      and every student is marked at most once and only if not already in
      the ledger when the session started. */
  lemma {:induction false} LedgerGrowsWithinSession(s: Session, es: seq<Event>, dist: Distance)
    requires s.Valid() && NoStart(es)
    ensures var r := Run(s, es, dist);
      && s.ledger <= r.session.ledger
      && r.session.ledger == s.ledger + MarkedIds(r.marks)
      && DistinctIds(r.marks)
      && forall k :: 0 <= k < |r.marks| ==> r.marks[k].who.studentId !in s.ledger
    decreases |es|
  {
    if es != [] {
      var a := Step(s, es[0], dist);
      assert NoStart(es[1..]) by {
        forall k | 0 <= k < |es[1..]| ensures !es[1..][k].StartPressed? {
          assert es[1..][k] == es[k + 1];
        }
      }
      LedgerGrowsWithinSession(a.session, es[1..], dist);
      var b := Run(a.session, es[1..], dist);
      CombineBatches(s.ledger, a.session.ledger, b.session.ledger, a.marks, b.marks);
    }
  }

  /** The table has one row per student on `day`, and while running the
      ledger covers every student stored for `day`. */
  predicate ConsistentFor(s: Session, day: Date) {
    OnePerDay(s.table, day) && (s.running ==> IdsOnDay(s.table, day) <= s.ledger)
  }

  /** Every event keeps `ConsistentFor(day)` when any start is a start on `day`. */
  lemma StepKeepsConsistent(s: Session, e: Event, dist: Distance, day: Date)
    requires s.Valid() && ConsistentFor(s, day)
    requires e.StartPressed? ==> e.today == day
    ensures ConsistentFor(Step(s, e, dist).session, day)
  {
    match e
    case StartPressed(today, cameraOpens, storeUp) =>
      var r := StartAttendance(s, today, cameraOpens, storeUp);
      if r.status == Started {
        assert r.session.ledger == IdsOnDay(s.table, day);
      }
    case StopPressed =>
    case FrameDue(read) =>
      if s.pending > 0 && s.running && s.hasCapture && read.Frame? {
        HandleProbesKeepsOnePerDay(s.gallery, dist, read.now, s.ledger, s.table, read.probes, day);
      }
  }

  /** Over any sequence of events in which every start is a start on `day`,
      including stops, restarts, failed inserts and duplicate probes, no
      student gets a second attendance row for `day`. */
  lemma {:induction false} AtMostOneRowPerDay(s: Session, es: seq<Event>, dist: Distance, day: Date)
    requires s.Valid() && ConsistentFor(s, day)
    requires forall k :: 0 <= k < |es| && es[k].StartPressed? ==> es[k].today == day
    ensures OnePerDay(Run(s, es, dist).session.table, day)
    ensures ConsistentFor(Run(s, es, dist).session, day)
    decreases |es|
  {
    if es != [] {
      StepKeepsConsistent(s, es[0], dist, day);
      var a := Step(s, es[0], dist);
      forall k | 0 <= k < |es[1..]| && es[1..][k].StartPressed? ensures es[1..][k].today == day {
        assert es[1..][k] == es[k + 1];
      }
      AtMostOneRowPerDay(a.session, es[1..], dist, day);
    }
  }

  // ---------------------------------------------------------------------
  // Runs over several days

  /** No attendance row is dated after `t`. */
  predicate DatedBy(table: seq<AttendanceRow>, t: Date) {
    forall k :: 0 <= k < |table| ==> table[k].date <= t
  }

  /** The clock after an event: the date a start or a good frame reads,
      otherwise unchanged. */
  function Clock(t: Date, e: Event): Date {
    match e
    case StartPressed(today, _, _) => today
    case FrameDue(Frame(now, _)) => now.date
    case _ => t
  }

  /** The dates the events read never go back in time. */
  predicate Chronological(t: Date, es: seq<Event>)
    decreases |es|
  {
    es == [] || (t <= Clock(t, es[0]) && Chronological(Clock(t, es[0]), es[1..]))
  }

  /** The invariant for `day` at clock `t`: one row per student on `day`, no
      row dated after `t`, and while running, when `day` is today or later,
      the ledger covers every student stored for `day`. */
  predicate ConsistentSince(s: Session, t: Date, day: Date) {
    && OnePerDay(s.table, day)
    && DatedBy(s.table, t)
    && (s.running && t <= day ==> IdsOnDay(s.table, day) <= s.ledger)
  }

  /** Rows appended with a date other than `day` change nothing for `day`. */
  lemma AppendedOtherDay(t0: seq<AttendanceRow>, t1: seq<AttendanceRow>, day: Date, d: Date)
    requires |t0| <= |t1| && t1[..|t0|] == t0 && d != day
    requires forall k :: |t0| <= k < |t1| ==> t1[k].date == d
    ensures IdsOnDay(t1, day) == IdsOnDay(t0, day)
    ensures OnePerDay(t0, day) ==> OnePerDay(t1, day)
  {
    assert forall k :: 0 <= k < |t0| ==> t1[k] == t0[k];
  }

  /** A table dated by `t` has no row for a later day. */
  lemma NoRowsAfter(table: seq<AttendanceRow>, t: Date, day: Date)
    requires DatedBy(table, t) && t < day
    ensures IdsOnDay(table, day) == {}
  {
  }

  /** Every event keeps the invariant for every day, as the clock moves on. */
  lemma StepKeepsConsistentSince(s: Session, e: Event, dist: Distance, t: Date, day: Date)
    requires s.Valid() && ConsistentSince(s, t, day) && t <= Clock(t, e)
    ensures ConsistentSince(Step(s, e, dist).session, Clock(t, e), day)
  {
    match e
    case StartPressed(today, cameraOpens, storeUp) =>
      var r := StartAttendance(s, today, cameraOpens, storeUp);
      if r.status == Started && today < day {
        NoRowsAfter(s.table, t, day);
      }
    case StopPressed =>
    case FrameDue(read) =>
      if s.pending > 0 && s.running && s.hasCapture && read.Frame? {
        var now := read.now;
        var f := HandleProbes(s.gallery, dist, now, s.ledger, s.table, read.probes);
        assert f.table[..|s.table|] == s.table;
        if day == now.date {
          HandleProbesKeepsOnePerDay(s.gallery, dist, now, s.ledger, s.table, read.probes, day);
        } else {
          AppendedOtherDay(s.table, f.table, day, now.date);
          if now.date < day {
            NoRowsAfter(s.table, t, day);
          }
        }
      }
  }

  /** Over any run whose clock never goes back, across restarts on later
      days, no student gets a second attendance row for any day. */
  lemma {:induction false} ChronologicalRunKeepsOnePerDay(s: Session, t: Date, es: seq<Event>,
                                                         dist: Distance, day: Date)
    requires s.Valid() && ConsistentSince(s, t, day) && Chronological(t, es)
    ensures OnePerDay(Run(s, es, dist).session.table, day)
    decreases |es|
  {
    if es != [] {
      StepKeepsConsistentSince(s, es[0], dist, t, day);
      ChronologicalRunKeepsOnePerDay(Step(s, es[0], dist).session, Clock(t, es[0]), es[1..], dist, day);
    }
  }

  /** From a freshly constructed session over a table with no duplicate
      rows and no row dated after `t`, a run whose clock starts at `t` and
      never goes back leaves at most one row per student on every day. */
  lemma NoDuplicateRowsAcrossDays(students: StoreRead<seq<StudentRow>>, table: seq<AttendanceRow>,
                                  t: Date, es: seq<Event>, dist: Distance)
    requires DatedBy(table, t) && forall day :: OnePerDay(table, day)
    requires Chronological(t, es)
    ensures forall day :: OnePerDay(Run(NewSession(students, table), es, dist).session.table, day)
  {
    forall day ensures OnePerDay(Run(NewSession(students, table), es, dist).session.table, day) {
      ChronologicalRunKeepsOnePerDay(NewSession(students, table), t, es, dist, day);
    }
  }

  /** A freshly constructed session is consistent for any day on which the
      table has no duplicate rows yet. */
  lemma NewSessionConsistent(students: StoreRead<seq<StudentRow>>, table: seq<AttendanceRow>, day: Date)
    requires OnePerDay(table, day)
    ensures ConsistentFor(NewSession(students, table), day)
  {
  }
}
