/**
 * The per-face decision of `POST` in web-app/src/app/api/identify/route.ts:
 * a detected face is a known employee when some known embedding is similar
 * enough; otherwise it is an unassigned face that is already in the pool,
 * or a recent capture of the same frame (by perceptual hash), or a new
 * unassigned face that is created, saved and added to the local pool.
 *
 * Face detection, the frame's perceptual hash, the clock and the outcome of
 * writing the image file are inputs: `faces`, `hash`, `now` and `saves`.
 */
module Identify {
  import opened Wrappers
  import opened Similarity
  import opened Database
  import PHash
  import Text

  const SimilarityThreshold: real := 0.5
  const UnknownSimilarityThreshold: real := 0.6
  /** `TIME_WINDOW_SECONDS * 1000`: how far back the pHash comparison looks, in milliseconds. */
  const TimeWindow: int := 30 * 1000

  datatype DetectedFace = DetectedFace(bbox: seq<real>, embedding: Embedding)

  /** The `identity` reported for a face: a known employee, or an unassigned face's id. */
  datatype Identity =
    | Known(name: Option<string>, employeeId: Id, score: real)
    | Unknown(id: Id, score: real)

  datatype FaceResult = FaceResult(bbox: seq<real>, identity: Identity)

  /** What the route changes as it goes: the tables, the saved images and the local pool. */
  datatype Frame = Frame(tables: Tables, files: set<string>, pool: seq<UnassignedFace>)

  datatype Step = Step(frame: Frame, identity: Identity)

  datatype Run = Run(frame: Frame, results: seq<FaceResult>)

  function KnownVectors(known: seq<FaceEmbedding>): (v: seq<Embedding>)
    ensures |v| == |known| && forall k :: 0 <= k < |known| ==> v[k] == known[k].embedding
  {
    seq(|known|, k requires 0 <= k < |known| => known[k].embedding)
  }

  function PoolVectors(pool: seq<UnassignedFace>): (v: seq<Embedding>)
    ensures |v| == |pool| && forall k :: 0 <= k < |pool| ==> v[k] == pool[k].embedding
  {
    seq(|pool|, k requires 0 <= k < |pool| => pool[k].embedding)
  }

  /** The `findMany` of faces created within the window that have a pHash, in table order. */
  function RecentFaces(s: seq<UnassignedFace>, now: Time): (r: seq<UnassignedFace>)
    ensures forall x :: x in r <==> x in s && x.createdAt >= now - TimeWindow && x.pHash.Some?
  {
    if s == [] then []
    else
      var rest := RecentFaces(s[1..], now);
      if s[0].createdAt >= now - TimeWindow && s[0].pHash.Some? then [s[0]] + rest else rest
  }

  /** `recentFace.pHash && areImagesSimilar(currentPHash, recentFace.pHash)`. */
  predicate PHashMatches(hash: PHash.Hash, r: UnassignedFace) {
    r.pHash.Some? && r.pHash.value != "" && PHash.AreImagesSimilar(hash, r.pHash.value, PHash.DefaultThreshold)
  }

  /** The index at which the duplicate loop breaks, if it does. */
  function FirstSimilar(hash: PHash.Hash, recent: seq<UnassignedFace>): (r: Option<nat>)
    ensures r.Some? ==> r.value < |recent| && PHashMatches(hash, recent[r.value])
                        && forall m :: 0 <= m < r.value ==> !PHashMatches(hash, recent[m])
    ensures r.None? ==> forall m :: 0 <= m < |recent| ==> !PHashMatches(hash, recent[m])
  {
    if recent == [] then None
    else if PHashMatches(hash, recent[0]) then Some(0)
    else
      match FirstSimilar(hash, recent[1..])
      case None => None
      case Some(k) => Some(k + 1)
  }

  /** Whether the known-gallery scan identifies the face. */
  predicate KnownHit(t: Tables, face: DetectedFace) {
    var b := Scan(face.embedding, KnownVectors(t.faceEmbeddings), |t.faceEmbeddings|);
    b.index.Some? && b.score > SimilarityThreshold
  }

  predicate PoolHit(pool: seq<UnassignedFace>, face: DetectedFace) {
    var b := Scan(face.embedding, PoolVectors(pool), |pool|);
    b.index.Some? && b.score > UnknownSimilarityThreshold
  }

  /** The record `unassignedFace.create` makes for a new face. */
  function NewRecord(t: Tables, face: DetectedFace, hash: PHash.Hash, now: Time): UnassignedFace {
    UnassignedFace(t.nextId, face.embedding, None, Some(hash), now)
  }

  /** One iteration of `for (const face of faces)`. */
  function Classify(f: Frame, face: DetectedFace, hash: PHash.Hash, now: Time, saves: Id -> bool): Step {
    var t := f.tables;
    var known := Scan(face.embedding, KnownVectors(t.faceEmbeddings), |t.faceEmbeddings|);
    if KnownHit(t, face) then
      var e := t.faceEmbeddings[known.index.value];
      var name := match FindEmployee(t.employees, e.employeeId)
                  case Some(emp) => Some(emp.name)
                  case None => None;
      Step(f.(tables := InsertAttendanceLog(t, e.employeeId, known.score, now)),
           Known(name, e.employeeId, known.score))
    else if PoolHit(f.pool, face) then
      var unknown := Scan(face.embedding, PoolVectors(f.pool), |f.pool|);
      Step(f, Unknown(f.pool[unknown.index.value].id, unknown.score))
    else
      var recent := RecentFaces(t.unassignedFaces, now);
      match FirstSimilar(hash, recent)
      case Some(k) => Step(f, Unknown(recent[k].id, known.score))
      case None =>
        var created := NewRecord(t, face, hash, now);
        var id := created.id;
        var t1 := InsertUnassigned(t, face.embedding, Some(hash), now);
        var t2 := if saves(id) then UpdateImageUrl(t1, id, Text.FaceImageUrl(id)) else t1;
        var files := if saves(id) then f.files + {Text.FaceFileName(id)} else f.files;
        Step(Frame(t2, files, f.pool + [created]), Unknown(id, known.score))
  }

  /** The faces of one request, in detection order. */
  function IdentifyAll(f: Frame, faces: seq<DetectedFace>, hash: PHash.Hash, now: Time, saves: Id -> bool): Run
  {
    if faces == [] then Run(f, [])
    else
      var prev := IdentifyAll(f, faces[..|faces| - 1], hash, now, saves);
      var face := faces[|faces| - 1];
      var step := Classify(prev.frame, face, hash, now, saves);
      Run(step.frame, prev.results + [FaceResult(face.bbox, step.identity)])
  }

  /** The known-gallery `maxSim` of a face: -1 when nothing was similar. */
  function MaxSim(t: Tables, face: DetectedFace): real {
    Scan(face.embedding, KnownVectors(t.faceEmbeddings), |t.faceEmbeddings|).score
  }

  /** The state the route starts from: the local pool is the unassigned table. */
  function Start(t: Tables, files: set<string>): Frame {
    Frame(t, files, t.unassignedFaces)
  }

  // ------------------------------------------------------------- per face

  /**
   * A face is known exactly when some known embedding is more than 0.5
   * similar; it is then reported with the best score, under the employee of
   * the first embedding that attains it, and exactly that attendance entry is
   * logged. Otherwise no attendance is logged.
   */
  lemma ClassifyKnown(f: Frame, face: DetectedFace, hash: PHash.Hash, now: Time, saves: Id -> bool)
    ensures var known := f.tables.faceEmbeddings;
            Classify(f, face, hash, now, saves).identity.Known? <==>
              exists m :: 0 <= m < |known| && Exceeds(DotProduct(face.embedding, known[m].embedding), SimilarityThreshold)
    ensures var s := Classify(f, face, hash, now, saves);
            var known := f.tables.faceEmbeddings;
            s.identity.Known? ==>
              && s.identity.score > SimilarityThreshold
              && s.frame == f.(tables := InsertAttendanceLog(f.tables, s.identity.employeeId, s.identity.score, now))
              && exists k :: 0 <= k < |known| && known[k].employeeId == s.identity.employeeId
                             && FirstMaximiser(face.embedding, KnownVectors(known), k, s.identity.score)
    ensures Classify(f, face, hash, now, saves).identity.Unknown? ==>
              Classify(f, face, hash, now, saves).frame.tables.attendanceLogs == f.tables.attendanceLogs
  {
    var known := f.tables.faceEmbeddings;
    var v := KnownVectors(known);
    ScanThreshold(face.embedding, v, SimilarityThreshold);
    ScanChoosesFirstMaximiser(face.embedding, v);
    if KnownHit(f.tables, face) {
      var k := Scan(face.embedding, v, |v|).index.value;
      assert known[k].employeeId == Classify(f, face, hash, now, saves).identity.employeeId;
    }
  }

  /** The employee of a known face exists, so its name is reported. */
  lemma ClassifyKnownName(f: Frame, face: DetectedFace, hash: PHash.Hash, now: Time, saves: Id -> bool)
    requires WellFormed(f.tables)
    ensures var s := Classify(f, face, hash, now, saves);
            s.identity.Known? ==>
              exists e :: e in f.tables.employees && e.id == s.identity.employeeId && s.identity.name == Some(e.name)
  {
    var s := Classify(f, face, hash, now, saves);
    if s.identity.Known? {
      var k := Scan(face.embedding, KnownVectors(f.tables.faceEmbeddings), |f.tables.faceEmbeddings|).index.value;
      assert f.tables.faceEmbeddings[k].employeeId in EmployeeIds(f.tables.employees);
    }
  }

  /**
   * A face that is not known but is more than 0.6 similar to a face in the
   * local pool is reported as that face (the first of maximal similarity),
   * with that similarity, and nothing changes.
   */
  lemma ClassifyPooled(f: Frame, face: DetectedFace, hash: PHash.Hash, now: Time, saves: Id -> bool)
    ensures var s := Classify(f, face, hash, now, saves);
            var known := f.tables.faceEmbeddings;
            var pool := f.pool;
            (forall m :: 0 <= m < |known| ==> !Exceeds(DotProduct(face.embedding, known[m].embedding), SimilarityThreshold))
            && (exists m :: 0 <= m < |pool| && Exceeds(DotProduct(face.embedding, pool[m].embedding), UnknownSimilarityThreshold))
            ==>
              && s.frame == f
              && s.identity.Unknown?
              && s.identity.score > UnknownSimilarityThreshold
              && exists k :: 0 <= k < |pool| && pool[k].id == s.identity.id
                             && FirstMaximiser(face.embedding, PoolVectors(pool), k, s.identity.score)
  {
    ScanThreshold(face.embedding, KnownVectors(f.tables.faceEmbeddings), SimilarityThreshold);
    ScanThreshold(face.embedding, PoolVectors(f.pool), UnknownSimilarityThreshold);
    ScanChoosesFirstMaximiser(face.embedding, PoolVectors(f.pool));
  }

  /** Neither gallery has a similar enough face: the route goes on to the pHash check. */
  predicate Unmatched(f: Frame, face: DetectedFace) {
    && (forall m :: 0 <= m < |f.tables.faceEmbeddings| ==>
          !Exceeds(DotProduct(face.embedding, f.tables.faceEmbeddings[m].embedding), SimilarityThreshold))
    && (forall m :: 0 <= m < |f.pool| ==>
          !Exceeds(DotProduct(face.embedding, f.pool[m].embedding), UnknownSimilarityThreshold))
  }

  /**
   * An unmatched face whose frame hash is similar to a recent face's is
   * reported as the first such face, with the known-gallery `maxSim` (at
   * most 0.5) as its score, and nothing is created.
   */
  lemma ClassifyReused(f: Frame, face: DetectedFace, hash: PHash.Hash, now: Time, saves: Id -> bool)
    requires Unmatched(f, face)
    ensures var s := Classify(f, face, hash, now, saves);
            var recent := RecentFaces(f.tables.unassignedFaces, now);
            FirstSimilar(hash, recent).Some? ==>
              && s.frame == f
              && s.identity == Unknown(recent[FirstSimilar(hash, recent).value].id, MaxSim(f.tables, face))
              && MaxSim(f.tables, face) <= SimilarityThreshold
  {
    ScanThreshold(face.embedding, KnownVectors(f.tables.faceEmbeddings), SimilarityThreshold);
    ScanThreshold(face.embedding, PoolVectors(f.pool), UnknownSimilarityThreshold);
  }

  /**
   * Otherwise exactly one unassigned face is created with the next id, the
   * face's embedding and the frame hash; it gets the URL of its saved image
   * when saving succeeded, and the image file then exists under the URL's
   * last segment. The pool gets the record as created, without a URL. The
   * score is the known-gallery `maxSim`.
   */
  lemma ClassifyCreated(f: Frame, face: DetectedFace, hash: PHash.Hash, now: Time, saves: Id -> bool)
    requires WellFormed(f.tables) && Unmatched(f, face)
    ensures var s := Classify(f, face, hash, now, saves);
            var t := f.tables;
            var id := t.nextId;
            var url := if saves(id) then Some(Text.FaceImageUrl(id)) else None;
            FirstSimilar(hash, RecentFaces(t.unassignedFaces, now)).None? ==>
              && s.identity == Unknown(id, MaxSim(t, face))
              && MaxSim(t, face) <= SimilarityThreshold
              && s.frame.tables == t.(unassignedFaces := t.unassignedFaces + [UnassignedFace(id, face.embedding, url, Some(hash), now)],
                                      nextId := id + 1)
              && s.frame.pool == f.pool + [UnassignedFace(id, face.embedding, None, Some(hash), now)]
              && s.frame.files == (if saves(id) then f.files + {Text.FaceFileName(id)} else f.files)
              && (saves(id) ==> Text.LastSegment(url.value) in s.frame.files)
  {
    var t := f.tables;
    var id := t.nextId;
    ScanThreshold(face.embedding, KnownVectors(t.faceEmbeddings), SimilarityThreshold);
    ScanThreshold(face.embedding, PoolVectors(f.pool), UnknownSimilarityThreshold);
    Text.FaceImageUrlRoundTrip(id, id);
    var t1 := InsertUnassigned(t, face.embedding, Some(hash), now);
    var url := if saves(id) then Some(Text.FaceImageUrl(id)) else None;
    if saves(id) {
      assert SetImageUrl(t1.unassignedFaces, id, Text.FaceImageUrl(id))
          == t.unassignedFaces + [UnassignedFace(id, face.embedding, url, Some(hash), now)];
    }
  }

  // ------------------------------------------------------------ a request

  /** The attendance entries the known results of a request log, in order. */
  function KnownLogs(results: seq<FaceResult>, now: Time): seq<AttendanceLog> {
    if results == [] then []
    else
      var r := results[|results| - 1];
      KnownLogs(results[..|results| - 1], now)
      + (if r.identity.Known? then [AttendanceLog(r.identity.employeeId, r.identity.score, now)] else [])
  }

  /** One result per detected face, in detection order, with its bounding box. */
  lemma {:induction false} IdentifyAllResults(f: Frame, faces: seq<DetectedFace>, hash: PHash.Hash, now: Time, saves: Id -> bool)
    ensures var r := IdentifyAll(f, faces, hash, now, saves);
            && |r.results| == |faces|
            && (forall k :: 0 <= k < |faces| ==> r.results[k].bbox == faces[k].bbox)
  {
    if faces != [] {
      var init := faces[..|faces| - 1];
      IdentifyAllResults(f, init, hash, now, saves);
      var prev := IdentifyAll(f, init, hash, now, saves);
      var r := IdentifyAll(f, faces, hash, now, saves);
      forall k | 0 <= k < |faces| ensures r.results[k].bbox == faces[k].bbox {
        if k < |init| {
          assert r.results[k] == prev.results[k];
        }
      }
    }
  }

  /** A face logs one attendance entry when it is known, and none otherwise. */
  lemma ClassifyLogs(f: Frame, face: DetectedFace, hash: PHash.Hash, now: Time, saves: Id -> bool)
    ensures var s := Classify(f, face, hash, now, saves);
            s.frame.tables.attendanceLogs == f.tables.attendanceLogs
              + (if s.identity.Known? then [AttendanceLog(s.identity.employeeId, s.identity.score, now)] else [])
  {
    var s := Classify(f, face, hash, now, saves);
    if !KnownHit(f.tables, face) && !PoolHit(f.pool, face)
       && FirstSimilar(hash, RecentFaces(f.tables.unassignedFaces, now)).None? {
      assert s.frame.tables.attendanceLogs == f.tables.attendanceLogs;
    }
  }

  /** Exactly one attendance entry per known result is appended, in order, after the existing ones. */
  lemma {:induction false} IdentifyAllLogs(f: Frame, faces: seq<DetectedFace>, hash: PHash.Hash, now: Time, saves: Id -> bool)
    ensures var r := IdentifyAll(f, faces, hash, now, saves);
            r.frame.tables.attendanceLogs == f.tables.attendanceLogs + KnownLogs(r.results, now)
  {
    if faces != [] {
      var init := faces[..|faces| - 1];
      IdentifyAllLogs(f, init, hash, now, saves);
      var prev := IdentifyAll(f, init, hash, now, saves);
      var r := IdentifyAll(f, faces, hash, now, saves);
      ClassifyLogs(prev.frame, faces[|faces| - 1], hash, now, saves);
      assert r.results[..|r.results| - 1] == prev.results;
    }
  }

  /** The route keeps the tables well formed. */
  lemma {:induction false} IdentifyAllWellFormed(f: Frame, faces: seq<DetectedFace>, hash: PHash.Hash, now: Time, saves: Id -> bool)
    requires WellFormed(f.tables)
    ensures WellFormed(IdentifyAll(f, faces, hash, now, saves).frame.tables)
  {
    if faces != [] {
      IdentifyAllWellFormed(f, faces[..|faces| - 1], hash, now, saves);
      var prev := IdentifyAll(f, faces[..|faces| - 1], hash, now, saves).frame;
      ClassifyWellFormed(prev, faces[|faces| - 1], hash, now, saves);
    }
  }

  lemma ClassifyWellFormed(f: Frame, face: DetectedFace, hash: PHash.Hash, now: Time, saves: Id -> bool)
    requires WellFormed(f.tables)
    ensures WellFormed(Classify(f, face, hash, now, saves).frame.tables)
  {
    var t := f.tables;
    var id := t.nextId;
    var t1 := InsertUnassigned(t, face.embedding, Some(hash), now);
    WritesPreserveWellFormed(t, face.embedding, Some(hash), now, 0, "", {}, "", "", 0, 0.0);
    WritesPreserveWellFormed(t1, face.embedding, Some(hash), now, id, Text.FaceImageUrl(id), {}, "", "", 0, 0.0);
    if KnownHit(t, face) {
      var e := t.faceEmbeddings[Scan(face.embedding, KnownVectors(t.faceEmbeddings), |t.faceEmbeddings|).index.value];
      WritesPreserveWellFormed(t, face.embedding, Some(hash), now, 0, "", {}, "", "", e.employeeId, MaxSim(t, face));
    }
  }

  /** A face created within the window holds the frame's hash. */
  predicate HasRecentTwin(t: Tables, hash: PHash.Hash, now: Time) {
    exists k :: 0 <= k < |t.unassignedFaces| && t.unassignedFaces[k].pHash == Some(hash)
                && t.unassignedFaces[k].createdAt >= now - TimeWindow
  }

  /**
   * With a non-empty frame hash, a face never creates a record once a
   * recent one holds that hash, and a face that creates one leaves such a
   * record behind.
   */
  lemma ClassifyTwin(f: Frame, face: DetectedFace, hash: PHash.Hash, now: Time, saves: Id -> bool)
    requires hash != ""
    ensures var t' := Classify(f, face, hash, now, saves).frame.tables;
            && (t'.nextId == f.tables.nextId || t'.nextId == f.tables.nextId + 1)
            && (HasRecentTwin(f.tables, hash, now) ==> t'.nextId == f.tables.nextId)
            && (HasRecentTwin(f.tables, hash, now) || t'.nextId != f.tables.nextId ==> HasRecentTwin(t', hash, now))
  {
    var t := f.tables;
    var s := Classify(f, face, hash, now, saves);
    PHash.SimilarityProperties(hash, hash, PHash.DefaultThreshold, PHash.DefaultThreshold);
    if HasRecentTwin(t, hash, now) {
      var k :| 0 <= k < |t.unassignedFaces| && t.unassignedFaces[k].pHash == Some(hash)
               && t.unassignedFaces[k].createdAt >= now - TimeWindow;
      var recent := RecentFaces(t.unassignedFaces, now);
      assert t.unassignedFaces[k] in recent;
      assert FirstSimilar(hash, recent).Some?;
      if KnownHit(t, face) {
        assert s.frame.tables.unassignedFaces == t.unassignedFaces;
      }
    } else if s.frame.tables.nextId != t.nextId {
      var n := |t.unassignedFaces|;
      assert s.frame.tables.unassignedFaces[n].pHash == Some(hash);
      assert s.frame.tables.unassignedFaces[n].createdAt == now;
    }
  }

  /**
   * Every face of a frame carries the same hash, so a request creates at
   * most one unassigned face, and none when a recent face already holds
   * that hash.
   */
  lemma {:induction false} IdentifyAllCreatesAtMostOne(f: Frame, faces: seq<DetectedFace>, hash: PHash.Hash, now: Time, saves: Id -> bool)
    requires hash != ""
    ensures var t' := IdentifyAll(f, faces, hash, now, saves).frame.tables;
            && f.tables.nextId <= t'.nextId <= f.tables.nextId + 1
            && (HasRecentTwin(f.tables, hash, now) ==> t'.nextId == f.tables.nextId)
            && (HasRecentTwin(f.tables, hash, now) || t'.nextId != f.tables.nextId ==> HasRecentTwin(t', hash, now))
  {
    if faces != [] {
      IdentifyAllCreatesAtMostOne(f, faces[..|faces| - 1], hash, now, saves);
      var prev := IdentifyAll(f, faces[..|faces| - 1], hash, now, saves).frame;
      ClassifyTwin(prev, faces[|faces| - 1], hash, now, saves);
    }
  }

  // ------------------------------------------------------------- the route

  /** The loop over `recentFaces` that stops at the first pHash match. */
  method FindRecentDuplicate(hash: PHash.Hash, recentFaces: seq<UnassignedFace>) returns (found: Option<nat>)
    ensures found == FirstSimilar(hash, recentFaces)
  {
    found := None;
    var k := 0;
    while k < |recentFaces|
      invariant k <= |recentFaces|
      invariant forall m :: 0 <= m < k ==> !PHashMatches(hash, recentFaces[m])
    {
      if PHashMatches(hash, recentFaces[k]) {
        found := Some(k);
        break;
      }
      k := k + 1;
    }
  }

  /** One iteration of the route's loop over the detected faces. */
  method IdentifyFace(db: Store, disk: Disk, pool: seq<UnassignedFace>, face: DetectedFace,
                      hash: PHash.Hash, now: Time, saves: Id -> bool)
    returns (identity: Identity, newPool: seq<UnassignedFace>)
    modifies db, disk
    ensures Classify(Frame(old(db.Snapshot()), old(disk.files), pool), face, hash, now, saves)
            == Step(Frame(db.Snapshot(), disk.files, newPool), identity)
  {
    var known := db.faceEmbeddings;
    var bestMatch, maxSim := ScanBest(face.embedding, KnownVectors(known));
    if bestMatch.Some? && maxSim > SimilarityThreshold {
      var e := known[bestMatch.value];
      var name := match FindEmployee(db.employees, e.employeeId)
                  case Some(emp) => Some(emp.name)
                  case None => None;
      identity := Known(name, e.employeeId, maxSim);
      db.CreateAttendanceLog(e.employeeId, maxSim, now);
      newPool := pool;
      return;
    }
    var matchedUnassigned, maxUnknownSim := ScanBest(face.embedding, PoolVectors(pool));
    if matchedUnassigned.Some? && maxUnknownSim > UnknownSimilarityThreshold {
      identity := Unknown(pool[matchedUnassigned.value].id, maxUnknownSim);
      newPool := pool;
      return;
    }
    var recentFaces := RecentFaces(db.unassignedFaces, now);
    var duplicate := FindRecentDuplicate(hash, recentFaces);
    if duplicate.Some? {
      identity := Unknown(recentFaces[duplicate.value].id, maxSim);
      newPool := pool;
      return;
    }
    var unassigned := db.CreateUnassignedFace(face.embedding, Some(hash), now);
    if saves(unassigned.id) {
      disk.Write(Text.FaceFileName(unassigned.id));
      db.UpdateUnassignedImageUrl(unassigned.id, Text.FaceImageUrl(unassigned.id));
    }
    newPool := pool + [unassigned];
    identity := Unknown(unassigned.id, maxSim);
  }

  /** `POST`: classifies the detected faces in order and collects their results. */
  method Identify(db: Store, disk: Disk, faces: seq<DetectedFace>, hash: PHash.Hash, now: Time, saves: Id -> bool)
    returns (results: seq<FaceResult>)
    modifies db, disk
    ensures var r := IdentifyAll(Start(old(db.Snapshot()), old(disk.files)), faces, hash, now, saves);
            && results == r.results
            && db.Snapshot() == r.frame.tables
            && disk.files == r.frame.files
  {
    ghost var start := Start(db.Snapshot(), disk.files);
    var unassignedFaces := db.unassignedFaces;
    results := [];
    for i := 0 to |faces|
      invariant IdentifyAll(start, faces[..i], hash, now, saves)
                == Run(Frame(db.Snapshot(), disk.files, unassignedFaces), results)
    {
      assert faces[..i + 1][..i] == faces[..i];
      var identity;
      identity, unassignedFaces := IdentifyFace(db, disk, unassignedFaces, faces[i], hash, now, saves);
      results := results + [FaceResult(faces[i].bbox, identity)];
    }
    assert faces[..|faces|] == faces;
  }
}
