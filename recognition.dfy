/** The matching part of `recognize_face`: which stored embeddings are
    compared, the scan for the closest one, and the threshold decision. */
module Recognition {
  import opened Wrappers
  import opened Records
  import opened Dicts

  /** `THRESHOLD` when the environment does not set it. */
  const DefaultThreshold: real := 0.60

  /** A student as the scan sees it: the dict key, the name and the stored embeddings. */
  datatype Candidate = Candidate(roll: string, name: string, embeddings: seq<Embedding>)

  /** One stored embedding, tagged with the student it belongs to. */
  datatype Probe = Probe(roll: string, name: string, embedding: Embedding)

  /** `best_match` together with `best_distance`. */
  datatype Match = Match(roll: string, name: string, distance: real)

  datatype Reason = NoStudentsEnrolled | NotRecognized

  /** The three answers of `/recognize`. */
  datatype Outcome =
    | NoFace
    | Unknown(reason: Reason)
    | Recognized(roll: string, name: string, distance: real)

  /** The dict the scan runs over: `embeddings.json`, or, when that is empty,
      `students.json` reshaped; nothing when both are empty. */
  function CandidatesOf(embeddings: Dict<EmbeddingEntry>, students: Dict<Student>): (r: Option<seq<Candidate>>)
    requires embeddings.Valid() && students.Valid()
    ensures r.None? <==> embeddings.IsEmpty() && students.IsEmpty()
    ensures r.Some? && !embeddings.IsEmpty() ==>
      && |r.value| == |embeddings.keys|
      && forall i :: 0 <= i < |r.value| ==>
           var e := embeddings.entries[embeddings.keys[i]];
           r.value[i] == Candidate(embeddings.keys[i], e.name, e.embeddings)
    ensures r.Some? && embeddings.IsEmpty() ==>
      && |r.value| == |students.keys|
      && forall i :: 0 <= i < |r.value| ==>
           var s := students.entries[students.keys[i]];
           r.value[i] == Candidate(students.keys[i], s.name, s.embeddings)
  {
    if !embeddings.IsEmpty() then
      Some(seq(|embeddings.keys|, i requires 0 <= i < |embeddings.keys| =>
        var e := embeddings.entries[embeddings.keys[i]];
        Candidate(embeddings.keys[i], e.name, e.embeddings)))
    else if students.IsEmpty() then None
    else
      Some(seq(|students.keys|, i requires 0 <= i < |students.keys| =>
        var s := students.entries[students.keys[i]];
        Candidate(students.keys[i], s.name, s.embeddings)))
  }

  function ProbesOf(c: Candidate): seq<Probe> {
    seq(|c.embeddings|, j requires 0 <= j < |c.embeddings| => Probe(c.roll, c.name, c.embeddings[j]))
  }

  /** Every stored embedding of every candidate, in the order the two nested
      loops visit them. */
  function Flatten(cands: seq<Candidate>): seq<Probe>
    decreases |cands|
  {
    if cands == [] then [] else Flatten(cands[..|cands| - 1]) + ProbesOf(cands[|cands| - 1])
  }

  function Distances(query: Embedding, probes: seq<Probe>, dist: (Embedding, Embedding) -> real): (ds: seq<real>)
    ensures |ds| == |probes|
  {
    seq(|probes|, k requires 0 <= k < |probes| => dist(query, probes[k].embedding))
  }

  /** The position the scan settles on: a smallest distance, and the first of
      them, because the best is replaced only by a strictly smaller one. */
  function FirstMinimum(ds: seq<real>): (r: Option<nat>)
    ensures r.None? <==> ds == []
    ensures r.Some? ==> r.value < |ds|
    ensures r.Some? ==> forall j :: 0 <= j < |ds| ==> ds[r.value] <= ds[j]
    ensures r.Some? ==> forall j :: 0 <= j < r.value ==> ds[r.value] < ds[j]
    decreases |ds|
  {
    if ds == [] then None
    else
      var init := ds[..|ds| - 1];
      assert forall j :: 0 <= j < |init| ==> init[j] == ds[j];
      match FirstMinimum(init)
      case None => Some(|ds| - 1)
      case Some(k) => if ds[|ds| - 1] < ds[k] then Some(|ds| - 1) else Some(k)
  }

  /** The best match among some probes, as the loop leaves it. */
  function BestOf(query: Embedding, probes: seq<Probe>, dist: (Embedding, Embedding) -> real): Option<Match> {
    var ds := Distances(query, probes, dist);
    match FirstMinimum(ds)
    case None => None
    case Some(k) => Some(Match(probes[k].roll, probes[k].name, ds[k]))
  }

  /** `distance < best_distance`, with no best distance standing for `float("inf")`. */
  predicate Below(d: real, best: Option<real>) {
    best.None? || d < best.value
  }

  /** One step of the scan: a probe replaces the best so far only when it is
      strictly closer. */
  lemma BestOfStep(query: Embedding, probes: seq<Probe>, p: Probe, dist: (Embedding, Embedding) -> real)
    ensures var b := BestOf(query, probes, dist);
      var d := dist(query, p.embedding);
      BestOf(query, probes + [p], dist) ==
        if Below(d, if b.Some? then Some(b.value.distance) else None) then Some(Match(p.roll, p.name, d)) else b
  {
    var ds := Distances(query, probes, dist);
    var ds' := Distances(query, probes + [p], dist);
    assert ds'[..|ds|] == ds;
    assert forall k :: 0 <= k < |probes| ==> (probes + [p])[k] == probes[k];
  }

  /** The threshold decision: `best_distance < THRESHOLD and best_match`. */
  function Decide(best: Option<Match>, threshold: real): Outcome {
    if best.Some? && best.value.distance < threshold then
      Recognized(best.value.roll, best.value.name, best.value.distance)
    else
      Unknown(NotRecognized)
  }

  /** What `/recognize` answers for a query embedding (none when no face was
      found in the image), given the two stores and the threshold. */
  function RecognitionOf(query: Option<Embedding>, embeddings: Dict<EmbeddingEntry>, students: Dict<Student>,
                         threshold: real, dist: (Embedding, Embedding) -> real): Outcome
    requires embeddings.Valid() && students.Valid()
  {
    if query.None? then NoFace
    else
      match CandidatesOf(embeddings, students)
      case None => Unknown(NoStudentsEnrolled)
      case Some(cands) => Decide(BestOf(query.value, Flatten(cands), dist), threshold)
  }

  // ---------------------------------------------------------------------
  // Which (candidate, embedding) pairs the scan visits

  lemma {:induction false} FlattenHas(cands: seq<Candidate>, i: nat, j: nat)
    requires i < |cands| && j < |cands[i].embeddings|
    ensures exists k :: (0 <= k < |Flatten(cands)| &&
                         Flatten(cands)[k] == Probe(cands[i].roll, cands[i].name, cands[i].embeddings[j]))
    decreases |cands|
  {
    var init := cands[..|cands| - 1];
    var flat := Flatten(cands);
    if i < |cands| - 1 {
      assert init[i] == cands[i];
      FlattenHas(init, i, j);
      var k :| 0 <= k < |Flatten(init)| && Flatten(init)[k] == Probe(cands[i].roll, cands[i].name, cands[i].embeddings[j]);
      assert flat[k] == Flatten(init)[k];
    } else {
      var k := |Flatten(init)| + j;
      assert flat[k] == ProbesOf(cands[i])[j];
    }
  }

  lemma {:induction false} FlattenFrom(cands: seq<Candidate>, k: nat)
    requires k < |Flatten(cands)|
    ensures exists i, j :: (0 <= i < |cands| && 0 <= j < |cands[i].embeddings| &&
                            Flatten(cands)[k] == Probe(cands[i].roll, cands[i].name, cands[i].embeddings[j]))
    decreases |cands|
  {
    var init := cands[..|cands| - 1];
    var flat := Flatten(cands);
    if k < |Flatten(init)| {
      FlattenFrom(init, k);
      var i, j :| 0 <= i < |init| && 0 <= j < |init[i].embeddings| &&
        Flatten(init)[k] == Probe(init[i].roll, init[i].name, init[i].embeddings[j]);
      assert init[i] == cands[i];
      assert flat[k] == Flatten(init)[k];
    } else {
      var i, j := |cands| - 1, k - |Flatten(init)|;
      assert flat[k] == ProbesOf(cands[i])[j];
    }
  }

  // ---------------------------------------------------------------------
  // Properties of the decision

  /** Some stored embedding of some candidate lies closer than the threshold. */
  ghost predicate AnyWithin(query: Embedding, cands: seq<Candidate>, threshold: real, dist: (Embedding, Embedding) -> real) {
    exists i, j :: 0 <= i < |cands| && 0 <= j < |cands[i].embeddings| && dist(query, cands[i].embeddings[j]) < threshold
  }

  /** The three outcomes: no face exactly when the image gave no embedding;
      "no students enrolled" exactly when both stores are empty; recognized
      exactly when some stored embedding lies closer than the threshold. */
  lemma RecognitionOutcomes(query: Option<Embedding>, embeddings: Dict<EmbeddingEntry>, students: Dict<Student>,
                            threshold: real, dist: (Embedding, Embedding) -> real)
    requires embeddings.Valid() && students.Valid()
    ensures var r := RecognitionOf(query, embeddings, students, threshold, dist);
      && (r == NoFace <==> query.None?)
      && (r == Unknown(NoStudentsEnrolled) <==> query.Some? && embeddings.IsEmpty() && students.IsEmpty())
      && (r.Recognized? <==> query.Some? && !(embeddings.IsEmpty() && students.IsEmpty()) &&
                             AnyWithin(query.value, CandidatesOf(embeddings, students).value, threshold, dist))
  {
    var c := CandidatesOf(embeddings, students);
    if query.Some? && c.Some? {
      DecisionWithin(query.value, c.value, threshold, dist);
    }
  }

  /** Over a fixed list of candidates, the scan and the threshold decision
      recognize a face exactly when some stored embedding lies closer than the
      threshold. */
  lemma DecisionWithin(q: Embedding, cands: seq<Candidate>, threshold: real, dist: (Embedding, Embedding) -> real)
    ensures Decide(BestOf(q, Flatten(cands), dist), threshold).Recognized? <==> AnyWithin(q, cands, threshold, dist)
  {
    var flat := Flatten(cands);
    var ds := Distances(q, flat, dist);
    if Decide(BestOf(q, flat, dist), threshold).Recognized? {
      FlattenFrom(cands, FirstMinimum(ds).value);
    }
    if AnyWithin(q, cands, threshold, dist) {
      var i, j :| 0 <= i < |cands| && 0 <= j < |cands[i].embeddings| && dist(q, cands[i].embeddings[j]) < threshold;
      FlattenHas(cands, i, j);
      var k :| 0 <= k < |flat| && flat[k] == Probe(cands[i].roll, cands[i].name, cands[i].embeddings[j]);
      assert ds[FirstMinimum(ds).value] <= ds[k] < threshold;
    }
  }

  /** A recognized face is the stored embedding closest to the query: its
      distance is below the threshold and at most the distance to every
      stored embedding of every candidate, and it is one candidate's own. */
  lemma RecognizedIsNearest(query: Option<Embedding>, embeddings: Dict<EmbeddingEntry>, students: Dict<Student>,
                            threshold: real, dist: (Embedding, Embedding) -> real)
    requires embeddings.Valid() && students.Valid()
    requires RecognitionOf(query, embeddings, students, threshold, dist).Recognized?
    ensures var r := RecognitionOf(query, embeddings, students, threshold, dist);
      var cands := CandidatesOf(embeddings, students).value;
      && r.distance < threshold
      && (forall i, j :: 0 <= i < |cands| && 0 <= j < |cands[i].embeddings| ==>
            r.distance <= dist(query.value, cands[i].embeddings[j]))
      && (exists i, j :: 0 <= i < |cands| && 0 <= j < |cands[i].embeddings| &&
            cands[i].roll == r.roll && cands[i].name == r.name && dist(query.value, cands[i].embeddings[j]) == r.distance)
  {
    var r := RecognitionOf(query, embeddings, students, threshold, dist);
    var q, cands := query.value, CandidatesOf(embeddings, students).value;
    var flat := Flatten(cands);
    var ds := Distances(q, flat, dist);
    var k := FirstMinimum(ds).value;
    forall i, j | 0 <= i < |cands| && 0 <= j < |cands[i].embeddings|
      ensures r.distance <= dist(q, cands[i].embeddings[j])
    {
      FlattenHas(cands, i, j);
      var k' :| 0 <= k' < |flat| && flat[k'] == Probe(cands[i].roll, cands[i].name, cands[i].embeddings[j]);
      assert ds[k] <= ds[k'];
    }
    FlattenFrom(cands, k);
  }

  /** The probe at position `k` is the student's, at distance `d`, and every
      probe visited before it is strictly farther. */
  ghost predicate VisitedFirstAt(query: Embedding, flat: seq<Probe>, dist: (Embedding, Embedding) -> real,
                                 k: int, roll: string, name: string, d: real) {
    && 0 <= k < |flat|
    && flat[k].roll == roll && flat[k].name == name && dist(query, flat[k].embedding) == d
    && forall k' :: 0 <= k' < k ==> d < dist(query, flat[k'].embedding)
  }

  /** Ties go to the embedding visited first: every embedding the scan visits
      before the chosen one is strictly farther from the query. */
  lemma TieGoesToFirstVisited(query: Option<Embedding>, embeddings: Dict<EmbeddingEntry>, students: Dict<Student>,
                              threshold: real, dist: (Embedding, Embedding) -> real)
    requires embeddings.Valid() && students.Valid()
    requires RecognitionOf(query, embeddings, students, threshold, dist).Recognized?
    ensures var r := RecognitionOf(query, embeddings, students, threshold, dist);
      var flat := Flatten(CandidatesOf(embeddings, students).value);
      exists k :: VisitedFirstAt(query.value, flat, dist, k, r.roll, r.name, r.distance)
  {
    var r := RecognitionOf(query, embeddings, students, threshold, dist);
    var flat := Flatten(CandidatesOf(embeddings, students).value);
    var ds := Distances(query.value, flat, dist);
    var k := FirstMinimum(ds).value;
    assert r.roll == flat[k].roll && r.name == flat[k].name && r.distance == ds[k];
    forall k' | 0 <= k' < k ensures r.distance < dist(query.value, flat[k'].embedding) {
      assert ds[k] < ds[k'];
    }
    assert VisitedFirstAt(query.value, flat, dist, k, r.roll, r.name, r.distance);
    assert exists k0 :: VisitedFirstAt(query.value, flat, dist, k0, r.roll, r.name, r.distance);
    assert flat == Flatten(CandidatesOf(embeddings, students).value);
  }

  /** The recognized roll is a key of the store the scan ran over, so when
      every key of `embeddings.json` is also a key of `students.json` it is
      an enrolled student. */
  lemma RecognizedRollIsEnrolled(query: Option<Embedding>, embeddings: Dict<EmbeddingEntry>, students: Dict<Student>,
                                 threshold: real, dist: (Embedding, Embedding) -> real)
    requires embeddings.Valid() && students.Valid()
    requires forall k :: k in embeddings.entries ==> k in students.entries
    requires RecognitionOf(query, embeddings, students, threshold, dist).Recognized?
    ensures RecognitionOf(query, embeddings, students, threshold, dist).roll in students.entries
  {
    var cands := CandidatesOf(embeddings, students).value;
    var flat := Flatten(cands);
    var k := FirstMinimum(Distances(query.value, flat, dist)).value;
    FlattenFrom(cands, k);
    var i, j :| 0 <= i < |cands| && 0 <= j < |cands[i].embeddings| &&
      flat[k] == Probe(cands[i].roll, cands[i].name, cands[i].embeddings[j]);
    if !embeddings.IsEmpty() {
      assert cands[i].roll == embeddings.keys[i];
    } else {
      assert cands[i].roll == students.keys[i];
    }
  }

  /** A query equal to a stored embedding is recognized at distance zero, for
      a distance that is never negative and is zero from a vector to itself
      (as the cosine distance is) and a positive threshold. */
  lemma StoredEmbeddingIsRecognized(q: Embedding, embeddings: Dict<EmbeddingEntry>, students: Dict<Student>,
                                    threshold: real, dist: (Embedding, Embedding) -> real, i: nat, j: nat)
    requires embeddings.Valid() && students.Valid()
    requires forall a, b :: 0.0 <= dist(a, b)
    requires dist(q, q) == 0.0 && 0.0 < threshold
    requires CandidatesOf(embeddings, students).Some?
    requires i < |CandidatesOf(embeddings, students).value|
    requires j < |CandidatesOf(embeddings, students).value[i].embeddings|
    requires CandidatesOf(embeddings, students).value[i].embeddings[j] == q
    ensures RecognitionOf(Some(q), embeddings, students, threshold, dist).Recognized?
    ensures RecognitionOf(Some(q), embeddings, students, threshold, dist).distance == 0.0
  {
    var cands := CandidatesOf(embeddings, students).value;
    RecognitionOutcomes(Some(q), embeddings, students, threshold, dist);
    assert AnyWithin(q, cands, threshold, dist) by {
      assert dist(q, cands[i].embeddings[j]) < threshold;
    }
    RecognizedIsNearest(Some(q), embeddings, students, threshold, dist);
  }
}
