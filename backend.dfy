/** The request handlers of the backend, over the three stores they read and
    write back: `students.json`, `embeddings.json` and `attendance.json`. */
module Backend {
  import opened Wrappers
  import opened Text
  import opened Seqs
  import opened Dicts
  import opened Records
  import opened Rolls
  import opened Recognition
  import opened Listing
  import opened Ledger

  /** Where enrolment saves image `n` (counting from 1) of a student, relative
      to the application directory. */
  function ImagePath(roll: string, n: nat): string {
    "data/faces/" + roll + "_" + Decimal(n) + ".jpg"
  }

  function ImagePaths(roll: string, count: nat): (paths: seq<string>)
    ensures |paths| == count
  {
    seq(count, i requires 0 <= i < count => ImagePath(roll, i + 1))
  }

  /** The first image in which no face was found, if any. */
  function FirstMissing(faces: seq<Option<Embedding>>): (r: Option<nat>)
    ensures r.Some? ==> r.value < |faces| && faces[r.value].None?
    ensures r.Some? ==> forall j :: 0 <= j < r.value ==> faces[j].Some?
    ensures r.None? ==> forall j :: 0 <= j < |faces| ==> faces[j].Some?
    decreases |faces|
  {
    if faces == [] then None
    else if faces[0].None? then Some(0)
    else
      match FirstMissing(faces[1..])
      case None => None
      case Some(k) => Some(k + 1)
  }

  /** The embeddings of images that all showed a face, in image order. */
  function Extracted(faces: seq<Option<Embedding>>): (embs: seq<Embedding>)
    requires forall j :: 0 <= j < |faces| ==> faces[j].Some?
    ensures |embs| == |faces|
  {
    seq(|faces|, i requires 0 <= i < |faces| => faces[i].value)
  }

  function RollOf(s: Student): string {
    s.roll
  }

  /** The admin key used when none is configured. */
  const DefaultAdminKey := "changeme"

  /** The admin-key check of `/delete_student`: it applies only when a key
      other than the placeholder "changeme" is configured. */
  predicate AdminKeyRejects(adminKey: string, header: Option<string>) {
    adminKey != "" && adminKey != "changeme" && header != Some(adminKey)
  }

  /** With `ADMIN_KEY` unset (or set to the placeholder or to nothing), deleting
      a student needs no admin key header. */
  lemma UnsetAdminKeyChecksNothing(adminKey: string, header: Option<string>)
    requires adminKey == DefaultAdminKey || adminKey == ""
    ensures !AdminKeyRejects(adminKey, header)
  {
  }

  /** `best_match` and `best_distance` read together; no best distance is `float("inf")`. */
  function Tracked(bestMatch: Option<(string, string)>, bestDistance: Option<real>): Option<Match> {
    if bestMatch.Some? && bestDistance.Some? then
      Some(Match(bestMatch.value.0, bestMatch.value.1, bestDistance.value))
    else
      None
  }

  /** What the handlers keep true of the stores they write: every student is
      filed under its own roll with five embeddings, and `embeddings.json`
      holds, for some of the students, exactly their name and embeddings. */
  ghost predicate ConsistentStores(students: Dict<Student>, embeddings: Dict<EmbeddingEntry>) {
    && students.Valid() && embeddings.Valid()
    && (forall k :: k in students.entries ==>
          students.entries[k].roll == k && |students.entries[k].embeddings| == ImagesPerStudent)
    && (forall k :: k in embeddings.entries ==>
          k in students.entries && embeddings.entries[k] == Projection(students.entries[k]))
  }

  /** Filing a new student with five embeddings under its own roll, in both
      stores, keeps them consistent. */
  lemma PutKeepsConsistent(students: Dict<Student>, embeddings: Dict<EmbeddingEntry>, s: Student)
    requires ConsistentStores(students, embeddings)
    requires s.roll !in students.entries && |s.embeddings| == ImagesPerStudent
    ensures ConsistentStores(students.Put(s.roll, s), embeddings.Put(s.roll, Projection(s)))
  {
  }

  /** Removing a roll from both stores keeps them consistent. */
  lemma RemoveKeepsConsistent(students: Dict<Student>, embeddings: Dict<EmbeddingEntry>, roll: string)
    requires ConsistentStores(students, embeddings)
    ensures ConsistentStores(students.Remove(roll), embeddings.Remove(roll))
  {
  }

  /** The per-image loop of enrolment: one embedding per image, in order, and
      the path each image is saved under; it stops at the first image in which
      no face was found, numbering images from 1. */
  method CollectEmbeddings(roll: string, faces: seq<Option<Embedding>>)
    returns (r: Result<(seq<Embedding>, seq<string>), Error>)
    ensures FirstMissing(faces).Some? ==> r == Failure(NoFaceInImage(FirstMissing(faces).value + 1))
    ensures FirstMissing(faces).None? ==> r == Success((Extracted(faces), ImagePaths(roll, |faces|)))
  {
    var embs: seq<Embedding> := [];
    var paths: seq<string> := [];
    for idx := 0 to |faces|
      invariant forall j :: 0 <= j < idx ==> faces[j].Some?
      invariant embs == Extracted(faces[..idx])
      invariant paths == ImagePaths(roll, idx)
    {
      if faces[idx].None? {
        return Failure(NoFaceInImage(idx + 1));
      }
      embs := embs + [faces[idx].value];
      paths := paths + [ImagePath(roll, idx + 1)];
    }
    assert faces[..|faces|] == faces;
    r := Success((embs, paths));
  }

  /** One step of the inner scan, at embedding `j` of candidate `c`, keeps
      `best_match` and `best_distance` equal to the best match of what has
      been visited, whether or not it replaces them. */
  lemma TrackedStep(q: Embedding, c: Candidate, j: nat, before: seq<Probe>, dist: (Embedding, Embedding) -> real,
                    bestMatch: Option<(string, string)>, bestDistance: Option<real>)
    requires j < |c.embeddings|
    requires bestMatch.Some? <==> bestDistance.Some?
    requires Tracked(bestMatch, bestDistance) == BestOf(q, before + ProbesOf(c)[..j], dist)
    ensures var d := dist(q, c.embeddings[j]);
      Below(d, bestDistance) ==>
        Tracked(Some((c.roll, c.name)), Some(d)) == BestOf(q, before + ProbesOf(c)[..j + 1], dist)
    ensures !Below(dist(q, c.embeddings[j]), bestDistance) ==>
      Tracked(bestMatch, bestDistance) == BestOf(q, before + ProbesOf(c)[..j + 1], dist)
  {
    var p := Probe(c.roll, c.name, c.embeddings[j]);
    var visited := before + ProbesOf(c)[..j];
    assert ProbesOf(c)[..j + 1] == ProbesOf(c)[..j] + [p];
    assert before + ProbesOf(c)[..j + 1] == visited + [p];
    BestOfStep(q, visited, p, dist);
  }

  /** The inner loop of the `/recognize` scan: visits the stored embeddings
      of one candidate in order, keeping the strictly closest one seen so far. */
  method ScanCandidate(q: Embedding, c: Candidate, dist: (Embedding, Embedding) -> real,
                       match0: Option<(string, string)>, distance0: Option<real>, ghost before: seq<Probe>)
    returns (bestMatch: Option<(string, string)>, bestDistance: Option<real>)
    requires match0.Some? <==> distance0.Some?
    requires Tracked(match0, distance0) == BestOf(q, before, dist)
    ensures bestMatch.Some? <==> bestDistance.Some?
    ensures Tracked(bestMatch, bestDistance) == BestOf(q, before + ProbesOf(c), dist)
  {
    bestMatch, bestDistance := match0, distance0;
    assert before + ProbesOf(c)[..0] == before;
    for j := 0 to |c.embeddings|
      invariant bestMatch.Some? <==> bestDistance.Some?
      invariant Tracked(bestMatch, bestDistance) == BestOf(q, before + ProbesOf(c)[..j], dist)
    {
      var d := dist(q, c.embeddings[j]);
      TrackedStep(q, c, j, before, dist, bestMatch, bestDistance);
      if Below(d, bestDistance) {
        bestDistance := Some(d);
        bestMatch := Some((c.roll, c.name));
      }
    }
    assert ProbesOf(c)[..|c.embeddings|] == ProbesOf(c);
  }

  /** The scan of `/recognize`: visits every stored embedding of every
      candidate in order and keeps the strictly closest one seen so far. */
  method ScanBestMatch(q: Embedding, cands: seq<Candidate>, dist: (Embedding, Embedding) -> real)
    returns (bestMatch: Option<(string, string)>, bestDistance: Option<real>)
    ensures bestMatch.Some? <==> bestDistance.Some?
    ensures Tracked(bestMatch, bestDistance) == BestOf(q, Flatten(cands), dist)
  {
    bestMatch, bestDistance := None, None;
    for i := 0 to |cands|
      invariant bestMatch.Some? <==> bestDistance.Some?
      invariant Tracked(bestMatch, bestDistance) == BestOf(q, Flatten(cands[..i]), dist)
    {
      assert cands[..i + 1][..i] == cands[..i];
      bestMatch, bestDistance := ScanCandidate(q, cands[i], dist, bestMatch, bestDistance, Flatten(cands[..i]));
    }
    assert cands[..|cands|] == cands;
  }

  /** What `/enroll` answers on success. */
  datatype Enrolled = Enrolled(roll: string, name: string)

  /** The data directory of the running backend, with its configuration. */
  class DataDir {
    const adminKey: string
    const threshold: real
    var students: Dict<Student>
    var embeddings: Dict<EmbeddingEntry>
    var attendance: seq<AttendanceRecord>

    ghost predicate Valid()
      reads this
    {
      students.Valid() && embeddings.Valid()
    }

    ghost predicate Consistent()
      reads this
    {
      ConsistentStores(students, embeddings)
    }

    /** Starts on empty stores. `adminKeySetting` and `thresholdSetting` are
        the `ADMIN_KEY` and `THRESHOLD` settings, `None` when unset. */
    constructor (adminKeySetting: Option<string>, thresholdSetting: Option<real>)
      ensures Consistent()
      ensures adminKey == (if adminKeySetting.Some? then adminKeySetting.value else DefaultAdminKey)
      ensures threshold == (if thresholdSetting.Some? then thresholdSetting.value else DefaultThreshold)
      ensures students.IsEmpty() && embeddings.IsEmpty() && attendance == []
    {
      adminKey := if adminKeySetting.Some? then adminKeySetting.value else DefaultAdminKey;
      threshold := if thresholdSetting.Some? then thresholdSetting.value else DefaultThreshold;
      students := Empty();
      embeddings := Empty();
      attendance := [];
    }

    /** `get_next_roll` */
    method NextRoll() returns (roll: string)
      requires Valid()
      ensures roll == NextRollOf(students)
    {
      if students.IsEmpty() {
        return "001";
      }
      var existing: seq<nat> := [];
      ghost var values := students.Values();
      for i := 0 to |students.keys|
        invariant existing == NumericRolls(values[..i])
      {
        var s := students.entries[students.keys[i]];
        assert values[..i + 1] == values[..i] + [s];
        if IsDigitString(s.roll) {
          existing := existing + [Value(s.roll)];
        }
      }
      assert values[..|students.keys|] == values;
      if existing == [] {
        return "001";
      }
      roll := Format03(MaxOf(existing) + 1);
    }

    /** `/enroll`: checks the image count and the name, allocates the next
        roll, extracts one embedding per image (stopping at the first image
        without a face) and then files the student in both stores. */
    method Enroll(name: string, faces: seq<Option<Embedding>>, createdAt: string) returns (r: Result<Enrolled, Error>)
      requires Valid()
      modifies this
      ensures Valid()
      ensures attendance == old(attendance)
      ensures |faces| != ImagesPerStudent ==> r == Failure(WrongImageCount)
      ensures |faces| == ImagesPerStudent && Strip(name) == [] ==> r == Failure(NameRequired)
      ensures |faces| == ImagesPerStudent && Strip(name) != [] && FirstMissing(faces).Some? ==>
                r == Failure(NoFaceInImage(FirstMissing(faces).value + 1))
      ensures r.Success? <==> |faces| == ImagesPerStudent && Strip(name) != [] && FirstMissing(faces).None?
      ensures r.Failure? ==> students == old(students) && embeddings == old(embeddings)
      ensures r.Success? ==>
                var roll := NextRollOf(old(students));
                var embs := Extracted(faces);
                && r.value == Enrolled(roll, Strip(name))
                && students == old(students).Put(roll, Student(roll, Strip(name), embs, ImagePaths(roll, |faces|), createdAt))
                && embeddings == old(embeddings).Put(roll, EmbeddingEntry(roll, Strip(name), embs))
      ensures old(Consistent()) ==> Consistent()
      ensures old(Consistent()) && r.Success? ==>
                && r.value.roll !in old(students.entries)
                && students.keys == old(students.keys) + [r.value.roll]
                && embeddings.entries == old(embeddings.entries)[r.value.roll := Projection(students.entries[r.value.roll])]
    {
      if |faces| != ImagesPerStudent {
        return Failure(WrongImageCount);
      }
      var stripped := Strip(name);
      if stripped == [] {
        return Failure(NameRequired);
      }
      var roll := NextRoll();
      var collected := CollectEmbeddings(roll, faces);
      if collected.Failure? {
        return Failure(collected.error);
      }
      var (embs, paths) := collected.value;
      File(Student(roll, stripped, embs, paths, createdAt));
      r := Success(Enrolled(roll, stripped));
    }

    /** The end of `/enroll`: files a new student under its roll in
        `students.json`, and its name and embeddings in `embeddings.json`. */
    method File(student: Student)
      requires Valid()
      requires student.roll == NextRollOf(students) && |student.embeddings| == ImagesPerStudent
      modifies this
      ensures Valid()
      ensures attendance == old(attendance)
      ensures students == old(students).Put(student.roll, student)
      ensures embeddings == old(embeddings).Put(student.roll, Projection(student))
      ensures old(Consistent()) ==> Consistent()
      ensures old(Consistent()) ==>
                && student.roll !in old(students.entries)
                && students.keys == old(students.keys) + [student.roll]
                && embeddings.entries == old(embeddings.entries)[student.roll := Projection(student)]
    {
      if Consistent() {
        NextRollIsFresh(students);
        PutKeepsConsistent(students, embeddings, student);
      }
      students := students.Put(student.roll, student);
      embeddings := embeddings.Put(student.roll, Projection(student));
    }

    /** `/recognize`: scans every stored embedding of every candidate for the
        one closest to the query and accepts it below the threshold. */
    method RecognizeFace(query: Option<Embedding>, dist: (Embedding, Embedding) -> real) returns (r: Outcome)
      requires Valid()
      ensures r == RecognitionOf(query, embeddings, students, threshold, dist)
    {
      if query.None? {
        return NoFace;
      }
      var q := query.value;
      var found := CandidatesOf(embeddings, students);
      if found.None? {
        return Unknown(NoStudentsEnrolled);
      }
      var bestMatch, bestDistance := ScanBestMatch(q, found.value, dist);
      if bestDistance.Some? && bestDistance.value < threshold && bestMatch.Some? {
        return Recognized(bestMatch.value.0, bestMatch.value.1, bestDistance.value);
      }
      return Unknown(NotRecognized);
    }

    /** `/attendance/mark`: appends an automatic "present" record for an
        enrolled roll. The clock is read twice, once for the id and once for
        the timestamp. */
    method MarkAttendance(roll: string, idTime: string, time: string, suffix: string)
      returns (r: Result<AttendanceRecord, Error>)
      modifies this
      ensures students == old(students) && embeddings == old(embeddings)
      ensures roll !in students.entries ==> r == Failure(StudentNotFound) && attendance == old(attendance)
      ensures roll in students.entries ==>
                && r == Success(AttendanceRecord(AttendanceId(idTime, suffix), roll, students.entries[roll].name,
                                                 Present, time, Auto))
                && attendance == old(attendance) + [r.value]
    {
      if roll !in students.entries {
        return Failure(StudentNotFound);
      }
      var student := students.entries[roll];
      var record := AttendanceRecord(AttendanceId(idTime, suffix), roll, student.name, Present, time, Auto);
      attendance := attendance + [record];
      r := Success(record);
    }

    /** `/attendance/manual`: checks the status first and the roll second,
        then appends a manual record stamped with the given timestamp, or the
        clock when none (or an empty one) is given. */
    method ManualAttendance(roll: string, status: string, timestamp: Option<string>, now: string, suffix: string)
      returns (r: Result<AttendanceRecord, Error>)
      modifies this
      ensures students == old(students) && embeddings == old(embeddings)
      ensures ParseStatus(status).None? ==> r == Failure(InvalidStatus)
      ensures ParseStatus(status).Some? && roll !in students.entries ==> r == Failure(StudentNotFound)
      ensures r.Failure? ==> attendance == old(attendance)
      ensures ParseStatus(status).Some? && roll in students.entries ==>
                var t := ManualTime(timestamp, now);
                && r == Success(AttendanceRecord(AttendanceId(t, suffix), roll, students.entries[roll].name,
                                                 ParseStatus(status).value, t, Manual))
                && attendance == old(attendance) + [r.value]
    {
      var st := ParseStatus(status);
      if st.None? {
        return Failure(InvalidStatus);
      }
      if roll !in students.entries {
        return Failure(StudentNotFound);
      }
      var student := students.entries[roll];
      var t := ManualTime(timestamp, now);
      var record := AttendanceRecord(AttendanceId(t, suffix), roll, student.name, st.value, t, Manual);
      attendance := attendance + [record];
      r := Success(record);
    }

    /** `/attendance` (GET): every record, newest first; records with equal
        timestamps stay in the order they were appended. */
    function GetAttendance(): (r: seq<AttendanceRecord>)
      reads this
      ensures multiset(r) == multiset(attendance)
      ensures forall i, j :: 0 <= i < j < |r| ==> StrLe(r[j].timestamp, r[i].timestamp)
      ensures forall t :: WithKey(r, TimestampOf, t) == WithKey(attendance, TimestampOf, t)
    {
      NewestFirstIsStableForAll(attendance);
      NewestFirst(attendance)
    }

    /** `DELETE /attendance/{record_id}`: removes every record with the id,
        or fails and writes nothing when there is none. */
    method DeleteAttendanceRecord(id: string) returns (r: Result<string, Error>)
      modifies this
      ensures students == old(students) && embeddings == old(embeddings)
      ensures (forall i :: 0 <= i < |old(attendance)| ==> old(attendance)[i].id != id) ==>
                r == Failure(RecordNotFound) && attendance == old(attendance)
      ensures (exists i :: 0 <= i < |old(attendance)| && old(attendance)[i].id == id) ==>
                r == Success(id) && attendance == WithoutId(old(attendance), id)
    {
      var kept := WithoutId(attendance, id);
      WithoutIdRemovesExactly(attendance, id, AttendanceRecord("", "", "", Present, "", Auto));
      if |kept| == |attendance| {
        return Failure(RecordNotFound);
      }
      attendance := kept;
      r := Success(id);
    }

    /** `DELETE /attendance/all` */
    method DeleteAllAttendance()
      modifies this
      ensures students == old(students) && embeddings == old(embeddings)
      ensures attendance == []
    {
      attendance := [];
    }

    /** `/students`: every student, ordered by roll. */
    function GetStudents(): (r: seq<Student>)
      reads this
      requires Valid()
      ensures multiset(r) == multiset(students.Values())
      ensures forall i, j :: 0 <= i < j < |r| ==> StrLe(r[i].roll, r[j].roll)
      ensures forall k :: WithKey(r, RollOf, k) == WithKey(students.Values(), RollOf, k)
    {
      SortIsStableForAll(students.Values(), RollOf, false);
      Sort(students.Values(), RollOf, false)
    }

    /** `/delete_student`: checks the roll, the confirmation, the admin key
        and that the student exists, then removes the roll from both stores. */
    method DeleteStudent(roll: Option<string>, confirm: bool, adminHeader: Option<string>)
      returns (r: Result<string, Error>)
      requires Valid()
      modifies this
      ensures Valid()
      ensures attendance == old(attendance)
      ensures roll.None? || roll.value == "" ==> r == Failure(RollRequired)
      ensures roll.Some? && roll.value != "" && !confirm ==> r == Failure(ConfirmationRequired)
      ensures roll.Some? && roll.value != "" && confirm && AdminKeyRejects(adminKey, adminHeader) ==>
                r == Failure(InvalidAdminKey)
      ensures (roll.Some? && roll.value != "" && confirm && !AdminKeyRejects(adminKey, adminHeader) &&
               roll.value !in old(students.entries)) ==> r == Failure(StudentNotFound)
      ensures r.Success? <==> roll.Some? && roll.value != "" && confirm && !AdminKeyRejects(adminKey, adminHeader) &&
                              roll.value in old(students.entries)
      ensures r.Failure? ==> students == old(students) && embeddings == old(embeddings)
      ensures r.Success? ==>
                && r.value == roll.value
                && students == old(students).Remove(roll.value)
                && embeddings == old(embeddings).Remove(roll.value)
                && students.entries == old(students.entries) - {roll.value}
                && embeddings.entries == old(embeddings.entries) - {roll.value}
      ensures old(Consistent()) ==> Consistent()
    {
      if roll.None? || roll.value == "" {
        return Failure(RollRequired);
      }
      if !confirm {
        return Failure(ConfirmationRequired);
      }
      if AdminKeyRejects(adminKey, adminHeader) {
        return Failure(InvalidAdminKey);
      }
      var key := roll.value;
      if key !in students.entries {
        return Failure(StudentNotFound);
      }
      if old(Consistent()) {
        RemoveKeepsConsistent(students, embeddings, key);
      }
      students := students.Remove(key);
      if key in embeddings.entries {
        embeddings := embeddings.Remove(key);
      } else {
        RemoveAbsent(embeddings, key);
      }
      r := Success(key);
    }
  }

  lemma SortIsStableForAll<T(!new)>(s: seq<T>, key: T -> string, descending: bool)
    ensures forall k :: WithKey(Sort(s, key, descending), key, k) == WithKey(s, key, k)
  {
    forall k {
      SortIsStable(s, key, descending, k);
    }
  }

  lemma NewestFirstIsStableForAll(ledger: seq<AttendanceRecord>)
    ensures forall t :: WithKey(NewestFirst(ledger), TimestampOf, t) == WithKey(ledger, TimestampOf, t)
  {
    forall t {
      NewestFirstIsStable(ledger, t);
    }
  }
}
