/** The records the backend keeps in its three JSON files, and the errors its
    handlers raise. */
module Records {
  import opened Wrappers

  /** A face embedding, the vector `generate_embedding` produces; the model
      treats it as an opaque value. */
  type Embedding = seq<real>

  /** The number of face images an enrolment takes. */
  const ImagesPerStudent: nat := 5

  /** An entry of `students.json`. */
  datatype Student = Student(
    roll: string,
    name: string,
    embeddings: seq<Embedding>,
    imagePaths: seq<string>,
    createdAt: string)

  /** An entry of `embeddings.json`: the part of a student that recognition needs. */
  datatype EmbeddingEntry = EmbeddingEntry(roll: string, name: string, embeddings: seq<Embedding>)

  function Projection(s: Student): EmbeddingEntry {
    EmbeddingEntry(s.roll, s.name, s.embeddings)
  }

  datatype Status = Present | Absent | Excused

  /** The status as it is written in a request and in `attendance.json`. */
  function StatusName(s: Status): string {
    match s
    case Present => "present"
    case Absent => "absent"
    case Excused => "excused"
  }

  /** The status a request names, if it is one of the three allowed ones. */
  function ParseStatus(name: string): (r: Option<Status>)
    ensures r.Some? <==> name in ["present", "absent", "excused"]
    ensures r.Some? ==> StatusName(r.value) == name
  {
    if name == "present" then Some(Present)
    else if name == "absent" then Some(Absent)
    else if name == "excused" then Some(Excused)
    else None
  }

  /** Every status reads back from its name. */
  lemma StatusRoundTrip(s: Status)
    ensures ParseStatus(StatusName(s)) == Some(s)
  {
  }

  /** Where an attendance record came from: `"auto"` or `"manual"`. */
  datatype Source = Auto | Manual

  /** An entry of `attendance.json`. */
  datatype AttendanceRecord = AttendanceRecord(
    id: string,
    roll: string,
    name: string,
    status: Status,
    timestamp: string,
    source: Source)

  /** The HTTP errors the handlers raise, by their cause. */
  datatype Error =
    | WrongImageCount        // 400 "Exactly 5 images required"
    | NameRequired           // 400 "Name is required"
    | NoFaceInImage(image: nat)  // 400, numbering the images from 1
    | StudentNotFound        // 404
    | InvalidStatus          // 400
    | RollRequired           // 400
    | ConfirmationRequired   // 400
    | InvalidAdminKey        // 403
    | RecordNotFound         // 404
}
