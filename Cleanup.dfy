/**
 * `cleanupUnknownFaces` of web-app/scripts/cleanup-unknown-faces.ts: first
 * every unassigned face without an image URL, or whose image file is
 * missing, is deleted; then the remaining faces, in order of creation, are
 * scanned for later near-duplicates of earlier faces (similarity above 0.7
 * within 5 minutes), which are deleted together with their image files.
 *
 * The image directory `public/faces` is the `Disk`; a file exists when its
 * name is in `files`.
 */
module Cleanup {
  import opened Wrappers
  import opened Similarity
  import opened Database
  import Sorting
  import Text

  const SimilarityThreshold: real := 0.7
  const TimeWindowMinutes: int := 5
  /** `timeDiffMinutes > TIME_WINDOW_MINUTES` with the difference in milliseconds divided by `1000 * 60`. */
  const TimeWindow: int := TimeWindowMinutes * (1000 * 60)

  /** A JavaScript string that is neither null nor empty. */
  predicate Truthy(s: Option<string>) {
    s.Some? && s.value != ""
  }

  function Abs(x: int): nat {
    if x < 0 then -x else x
  }

  // ------------------------------------------------- phase 1: missing images

  /**
   * Phase 1 keeps a face when it has an image URL and the URL's last segment
   * is empty (nothing to check) or names an existing file.
   */
  predicate Keeps(r: UnassignedFace, files: set<string>) {
    Truthy(r.imageUrl) && (Text.LastSegment(r.imageUrl.value) == "" || Text.LastSegment(r.imageUrl.value) in files)
  }

  /** The faces phase 1 keeps, in order. */
  function KeptFaces(s: seq<UnassignedFace>, files: set<string>): (r: seq<UnassignedFace>)
    ensures forall x :: x in r <==> x in s && Keeps(x, files)
    ensures |r| <= |s|
  {
    if s == [] then []
    else
      var init := KeptFaces(s[..|s| - 1], files);
      assert forall x :: x in s <==> x in s[..|s| - 1] || x == s[|s| - 1] by {
        assert s == s[..|s| - 1] + [s[|s| - 1]];
      }
      if Keeps(s[|s| - 1], files) then init + [s[|s| - 1]] else init
  }

  /**
   * A face whose image was saved for it and is still on disk survives phase
   * 1; a face without a URL, or whose named file is gone, does not.
   */
  lemma KeepsSavedImages(r: UnassignedFace, files: set<string>)
    ensures r.imageUrl == Some(Text.FaceImageUrl(r.id)) ==>
              (Keeps(r, files) <==> Text.FaceFileName(r.id) in files)
    ensures !Truthy(r.imageUrl) ==> !Keeps(r, files)
  {
    Text.FaceImageUrlRoundTrip(r.id, r.id);
  }

  lemma KeptFacesSnoc(all: seq<UnassignedFace>, i: nat, files: set<string>)
    requires i < |all|
    ensures KeptFaces(all[..i + 1], files)
            == KeptFaces(all[..i], files) + (if Keeps(all[i], files) then [all[i]] else [])
  {
    assert all[..i + 1][..i] == all[..i];
  }

  /** Keeping the next face moves it from the faces to visit to the faces kept. */
  lemma PurgeKeep(all: seq<UnassignedFace>, i: nat, files: set<string>)
    requires i < |all| && Keeps(all[i], files)
    ensures KeptFaces(all[..i], files) + all[i..] == KeptFaces(all[..i + 1], files) + all[i + 1..]
  {
    KeptFacesSnoc(all, i, files);
    MoveHead(KeptFaces(all[..i], files), all[i..]);
    assert all[i..][1..] == all[i + 1..];
  }

  lemma MoveHead(kept: seq<UnassignedFace>, rest: seq<UnassignedFace>)
    requires rest != []
    ensures kept + rest == (kept + [rest[0]]) + rest[1..]
  {
    assert rest == [rest[0]] + rest[1..];
  }

  /** The faces kept before position `i` do not carry the id of the face at `i`. */
  lemma KeptBeforeOthers(all: seq<UnassignedFace>, i: nat, files: set<string>)
    requires UniqueIds(all) && i < |all|
    ensures forall k :: 0 <= k < |KeptFaces(all[..i], files)| ==> KeptFaces(all[..i], files)[k].id !in {all[i].id}
  {
    var kept := KeptFaces(all[..i], files);
    forall k | 0 <= k < |kept| ensures kept[k].id !in {all[i].id} {
      assert kept[k] in all[..i];
    }
  }

  /** The faces after position `i` do not carry the id of the face at `i`. */
  lemma LaterOthers(all: seq<UnassignedFace>, i: nat)
    requires UniqueIds(all) && i < |all|
    ensures RemoveIds(all[i..], {all[i].id}) == all[i + 1..]
  {
    var tail := all[i + 1..];
    forall k | 0 <= k < |tail| ensures tail[k].id !in {all[i].id} {
      assert tail[k] == all[i + 1 + k];
    }
    RemoveIdsAbsent(tail, {all[i].id});
    assert all[i..][1..] == tail;
  }

  /** Deleting the id of the next face leaves the faces already kept and those still to visit. */
  lemma PurgeStep(all: seq<UnassignedFace>, i: nat, files: set<string>)
    requires UniqueIds(all) && i < |all|
    ensures RemoveIds(KeptFaces(all[..i], files) + all[i..], {all[i].id})
            == KeptFaces(all[..i], files) + all[i + 1..]
  {
    var kept := KeptFaces(all[..i], files);
    RemoveIdsConcat(kept, all[i..], {all[i].id});
    KeptBeforeOthers(all, i, files);
    RemoveIdsAbsent(kept, {all[i].id});
    LaterOthers(all, i);
  }

  /** Deleting a face phase 1 does not keep leaves the faces kept so far and those still to visit. */
  lemma PurgeDelete(all: seq<UnassignedFace>, i: nat, files: set<string>)
    requires UniqueIds(all) && i < |all| && !Keeps(all[i], files)
    ensures RemoveIds(KeptFaces(all[..i], files) + all[i..], {all[i].id})
            == KeptFaces(all[..i + 1], files) + all[i + 1..]
  {
    PurgeStep(all, i, files);
    KeptFacesSnoc(all, i, files);
    assert KeptFaces(all[..i], files) + [] == KeptFaces(all[..i], files);
  }

  /** Phase 1 keeps the ids unique: the faces it keeps are faces of the table, in order. */
  lemma {:induction false} KeptFacesUnique(s: seq<UnassignedFace>, files: set<string>)
    requires UniqueIds(s)
    ensures UniqueIds(KeptFaces(s, files))
  {
    if s != [] {
      var init, last := s[..|s| - 1], s[|s| - 1];
      KeptFacesUnique(init, files);
      var k := KeptFaces(init, files);
      if Keeps(last, files) {
        forall m | 0 <= m < |k| ensures k[m].id != last.id {
          assert k[m] in init;
          var p :| 0 <= p < |init| && init[p] == k[m];
          assert s[p] == init[p];
        }
        var r := k + [last];
        forall a, b | 0 <= a < b < |r| ensures r[a].id != r[b].id {
          if b < |k| {
            assert r[a] == k[a] && r[b] == k[b];
          } else {
            assert r[a] == k[a];
          }
        }
      }
    }
  }

  /** The tables after phase 1 are well formed. */
  lemma PurgeWellFormed(t: Tables, files: set<string>)
    requires WellFormed(t)
    ensures WellFormed(t.(unassignedFaces := KeptFaces(t.unassignedFaces, files)))
  {
    KeptFacesUnique(t.unassignedFaces, files);
    var r := KeptFaces(t.unassignedFaces, files);
    forall k | 0 <= k < |r| ensures r[k].id < t.nextId {
      assert r[k] in t.unassignedFaces;
    }
  }

  /** The first loop of `cleanupUnknownFaces`, over the faces read at its start. */
  method PurgeMissingImages(db: Store, disk: Disk) returns (deletedMissing: nat)
    requires db.Valid()
    modifies db
    ensures db.Snapshot() == old(db.Snapshot()).(unassignedFaces := KeptFaces(old(db.unassignedFaces), disk.files))
    ensures deletedMissing == |old(db.unassignedFaces)| - |KeptFaces(old(db.unassignedFaces), disk.files)|
  {
    var allFaces := db.unassignedFaces;
    ghost var before := db.Snapshot();
    ghost var files := disk.files;
    assert UniqueIds(allFaces);
    deletedMissing := 0;
    for i := 0 to |allFaces|
      invariant db.Snapshot() == before.(unassignedFaces := db.unassignedFaces)
      invariant db.unassignedFaces == KeptFaces(allFaces[..i], files) + allFaces[i..]
      invariant deletedMissing == i - |KeptFaces(allFaces[..i], files)|
    {
      var face := allFaces[i];
      KeptFacesSnoc(allFaces, i, files);
      if Truthy(face.imageUrl) {
        var filename := Text.LastSegment(face.imageUrl.value);
        if filename != "" {
          if filename !in disk.files {
            PurgeDelete(allFaces, i, files);
            db.DeleteUnassignedFaces({face.id});
            deletedMissing := deletedMissing + 1;
          } else {
            PurgeKeep(allFaces, i, files);
          }
        } else {
          PurgeKeep(allFaces, i, files);
        }
      } else {
        PurgeDelete(allFaces, i, files);
        db.DeleteUnassignedFaces({face.id});
        deletedMissing := deletedMissing + 1;
      }
    }
    assert allFaces[..|allFaces|] == allFaces;
  }

  // ------------------------------------------------- phase 2: duplicates

  /** `createdAt` as the sort key of `orderBy: { createdAt: 'asc' }`. */
  function CreatedAtKey(r: UnassignedFace): real {
    r.createdAt as real
  }

  /** `Math.abs(face2Time - face1Time) / (1000 * 60)`. */
  function TimeDiffMinutes(a: UnassignedFace, b: UnassignedFace): real {
    Abs(b.createdAt - a.createdAt) as real / (1000 * 60) as real
  }

  /** Two faces are in one window unless `timeDiffMinutes > TIME_WINDOW_MINUTES`. */
  predicate Within(a: UnassignedFace, b: UnassignedFace) {
    !(TimeDiffMinutes(a, b) > TimeWindowMinutes as real)
  }

  /** The window in minutes is the window of 300000 milliseconds, ends included. */
  lemma WithinMilliseconds(a: UnassignedFace, b: UnassignedFace)
    ensures Within(a, b) <==> Abs(b.createdAt - a.createdAt) <= TimeWindow
  {
  }

  /** Face `j` is a near-duplicate of the earlier face `i`. */
  predicate IsDuplicate(s: seq<UnassignedFace>, i: nat, j: nat) {
    && i < j < |s|
    && Within(s[i], s[j])
    && Exceeds(DotProduct(s[i].embedding, s[j].embedding), SimilarityThreshold)
  }

  /**
   * Face `j` is marked for deletion: some earlier face that was not marked
   * itself has it as a near-duplicate.
   */
  predicate Marked(s: seq<UnassignedFace>, j: nat)
    decreases j
  {
    exists i: nat :: i < j && !Marked(s, i) && IsDuplicate(s, i, j)
  }

  /** Face `k` is marked by one of the faces before position `i`. */
  predicate MarkedBefore(s: seq<UnassignedFace>, i: nat, k: nat) {
    exists i': nat :: i' < i && !Marked(s, i') && IsDuplicate(s, i', k)
  }

  /** The ids of the marked faces. */
  function MarkedIds(s: seq<UnassignedFace>): set<Id> {
    set k | 0 <= k < |s| && Marked(s, k) :: s[k].id
  }

  lemma MarkedBeforeNext(s: seq<UnassignedFace>, i: nat, k: nat)
    ensures MarkedBefore(s, i + 1, k) <==> MarkedBefore(s, i, k) || (!Marked(s, i) && IsDuplicate(s, i, k))
  {
  }

  lemma MarkedBeforeAll(s: seq<UnassignedFace>, i: nat, k: nat)
    requires k <= i
    ensures MarkedBefore(s, i, k) <==> Marked(s, k)
  {
  }

  /**
   * In creation order, once a later face is past the window of face `i`,
   * every face after it is too, so none of them is a duplicate of face `i`.
   */
  lemma BeyondWindow(s: seq<UnassignedFace>, i: nat, j: nat)
    requires Sorting.SortedBy(s, CreatedAtKey)
    requires i < j < |s| && !Within(s[i], s[j])
    ensures forall k :: j <= k < |s| ==> !IsDuplicate(s, i, k)
  {
    WithinMilliseconds(s[i], s[j]);
    forall k | j <= k < |s| ensures !Within(s[i], s[k]) {
      assert CreatedAtKey(s[i]) <= CreatedAtKey(s[j]);
      if j < k {
        assert CreatedAtKey(s[j]) <= CreatedAtKey(s[k]);
      }
      WithinMilliseconds(s[i], s[k]);
    }
  }

  /**
   * No two faces that both survive are near-duplicates, and every marked
   * face duplicates an earlier face that survives; the earliest face always
   * survives.
   */
  lemma MarkedCharacterisation(s: seq<UnassignedFace>)
    ensures forall i, j :: 0 <= i < j < |s| && !Marked(s, i) && !Marked(s, j) ==> !IsDuplicate(s, i, j)
    ensures forall j :: 0 <= j < |s| && Marked(s, j) ==> exists i: nat :: i < j && !Marked(s, i) && IsDuplicate(s, i, j)
    ensures |s| > 0 ==> !Marked(s, 0)
  {
  }

  /** The marking loops of phase 2, over the faces in creation order. */
  method MarkDuplicates(s: seq<UnassignedFace>) returns (toDelete: set<Id>)
    requires UniqueIds(s) && Sorting.SortedBy(s, CreatedAtKey)
    ensures forall k :: 0 <= k < |s| ==> (s[k].id in toDelete <==> Marked(s, k))
    ensures toDelete == MarkedIds(s)
  {
    toDelete := {};
    for i := 0 to |s|
      invariant forall k :: 0 <= k < |s| ==> (s[k].id in toDelete <==> MarkedBefore(s, i, k))
      invariant toDelete <= IdsOf(s)
    {
      if s[i].id in toDelete {
        forall k | 0 <= k < |s| ensures MarkedBefore(s, i + 1, k) <==> MarkedBefore(s, i, k) {
          MarkedBeforeAll(s, i, i);
          MarkedBeforeNext(s, i, k);
        }
        continue;
      }
      MarkedBeforeAll(s, i, i);
      var face1 := s[i];
      var j := i + 1;
      while j < |s|
        invariant i + 1 <= j <= |s|
        invariant forall k :: 0 <= k < |s| ==> (s[k].id in toDelete <==> MarkedBefore(s, i, k) || (k < j && IsDuplicate(s, i, k)))
        invariant toDelete <= IdsOf(s)
      {
        if s[j].id in toDelete {
          j := j + 1;
          continue;
        }
        var face2 := s[j];
        if TimeDiffMinutes(face1, face2) > TimeWindowMinutes as real {
          BeyondWindow(s, i, j);
          break;
        }
        var similarity := DotProduct(face1.embedding, face2.embedding);
        if Exceeds(similarity, SimilarityThreshold) {
          toDelete := toDelete + {face2.id};
        }
        j := j + 1;
      }
      forall k | 0 <= k < |s| ensures s[k].id in toDelete <==> MarkedBefore(s, i + 1, k) {
        MarkedBeforeNext(s, i, k);
      }
    }
    forall k | 0 <= k < |s| ensures MarkedBefore(s, |s|, k) <==> Marked(s, k) {
      MarkedBeforeAll(s, |s|, k);
    }
    MarkedIdsExactly(s, toDelete);
  }

  /** A set of ids of `s` that holds the id of a face exactly when it is marked is `MarkedIds(s)`. */
  lemma MarkedIdsExactly(s: seq<UnassignedFace>, ids: set<Id>)
    requires ids <= IdsOf(s)
    requires forall k :: 0 <= k < |s| ==> (s[k].id in ids <==> Marked(s, k))
    ensures ids == MarkedIds(s)
  {
    forall id | id in ids ensures id in MarkedIds(s) {
      var k :| 0 <= k < |s| && s[k].id == id;
    }
  }

  // ------------------------------------------- deleting the marked faces

  /**
   * The image file the deletion loop removes for id `id`: the last segment of
   * the URL of the first face of `remaining` with that id, when the face
   * exists and the URL and the segment are not empty.
   */
  function ImageFile(remaining: seq<UnassignedFace>, id: Id): Option<string> {
    match FindById(remaining, id)
    case None => None
    case Some(face) =>
      if Truthy(face.imageUrl) && Text.LastSegment(face.imageUrl.value) != ""
      then Some(Text.LastSegment(face.imageUrl.value))
      else None
  }

  /** The image files of the faces with ids in `ids`. */
  function ImageFiles(remaining: seq<UnassignedFace>, ids: set<Id>): set<string> {
    set id | id in ids && ImageFile(remaining, id).Some? :: ImageFile(remaining, id).value
  }

  /** The image file of one face, as a set: empty when it has none. */
  function ImageFileSet(remaining: seq<UnassignedFace>, id: Id): set<string> {
    if ImageFile(remaining, id).Some? then {ImageFile(remaining, id).value} else {}
  }

  lemma ImageFilesAdd(remaining: seq<UnassignedFace>, ids: set<Id>, id: Id)
    ensures ImageFiles(remaining, ids + {id}) == ImageFiles(remaining, ids) + ImageFileSet(remaining, id)
  {
  }

  /** Deleting one more marked id deletes its record, its image file and one more face. */
  lemma DeleteMarkedStep(t: Tables, remaining: seq<UnassignedFace>, files: set<string>, done: set<Id>, id: Id)
    requires id !in done
    ensures DeleteUnassigned(DeleteUnassigned(t, done), {id}) == DeleteUnassigned(t, done + {id})
    ensures (files - ImageFiles(remaining, done)) - ImageFileSet(remaining, id)
            == files - ImageFiles(remaining, done + {id})
    ensures |done + {id}| == |done| + 1
  {
    ImageFilesAdd(remaining, done, id);
    RemoveIdsTwice(t.unassignedFaces, done, {id});
  }

  /** Removes the image file of the face with id `faceId`, when there is one on disk. */
  method RemoveImage(disk: Disk, remaining: seq<UnassignedFace>, faceId: Id)
    modifies disk
    ensures disk.files == old(disk.files) - ImageFileSet(remaining, faceId)
  {
    var face := FindById(remaining, faceId);
    if face.Some? && Truthy(face.value.imageUrl) {
      var filename := Text.LastSegment(face.value.imageUrl.value);
      if filename != "" {
        if filename in disk.files {
          disk.Unlink(filename);
        }
      }
    }
  }

  /** One turn of the loop: the image file of face `faceId`, when it exists, then its record. */
  method DeleteMarkedFace(db: Store, disk: Disk, remaining: seq<UnassignedFace>, faceId: Id)
    modifies db, disk
    ensures db.Snapshot() == DeleteUnassigned(old(db.Snapshot()), {faceId})
    ensures disk.files == old(disk.files) - ImageFileSet(remaining, faceId)
  {
    RemoveImage(disk, remaining, faceId);
    db.DeleteUnassignedFaces({faceId});
  }

  /** The loop `for (const faceId of toDelete)`, in any order of the set. */
  method DeleteMarked(db: Store, disk: Disk, remaining: seq<UnassignedFace>, toDelete: set<Id>)
    returns (deletedDuplicates: nat)
    modifies db, disk
    ensures db.Snapshot() == old(db.Snapshot()).(unassignedFaces := RemoveIds(old(db.unassignedFaces), toDelete))
    ensures disk.files == old(disk.files) - ImageFiles(remaining, toDelete)
    ensures deletedDuplicates == |toDelete|
  {
    ghost var before := db.Snapshot();
    ghost var files := disk.files;
    ghost var done: set<Id> := {};
    var rest := toDelete;
    deletedDuplicates := 0;
    RemoveIdsAbsent(before.unassignedFaces, {});
    while rest != {}
      invariant done == toDelete - rest && rest <= toDelete
      invariant db.Snapshot() == DeleteUnassigned(before, done)
      invariant disk.files == files - ImageFiles(remaining, done)
      invariant deletedDuplicates == |done|
      decreases |rest|
    {
      var faceId :| faceId in rest;
      DeleteMarkedStep(before, remaining, files, done, faceId);
      DeleteMarkedFace(db, disk, remaining, faceId);
      deletedDuplicates := deletedDuplicates + 1;
      rest := rest - {faceId};
      done := done + {faceId};
    }
  }

  // ----------------------------------------------------------- the script

  /** The faces phase 2 reads: the survivors of phase 1 in creation order. */
  function Remaining(t: Tables, files: set<string>): seq<UnassignedFace> {
    Sorting.SortBy(KeptFaces(t.unassignedFaces, files), CreatedAtKey)
  }

  /**
   * `Total remaining` of the summary as written:
   * `remainingFaces.length - toDelete.size - deletedMissing`.
   */
  function ReportedRemaining(remaining: nat, marked: nat, deletedMissing: nat): int {
    remaining - marked - deletedMissing
  }

  /** The total the summary means: the faces left once the marked ones are deleted. */
  function TotalRemaining(remaining: nat, marked: nat): int {
    remaining - marked
  }

  /** Every marked id is the id of a face of the table phase 2 read. */
  lemma MarkedIdsWithin(remaining: seq<UnassignedFace>, kept: seq<UnassignedFace>)
    requires multiset(remaining) == multiset(kept)
    ensures MarkedIds(remaining) <= IdsOf(kept)
  {
    forall id | id in MarkedIds(remaining) ensures id in IdsOf(kept) {
      var k :| 0 <= k < |remaining| && Marked(remaining, k) && remaining[k].id == id;
      assert remaining[k] in multiset(kept);
      var p :| 0 <= p < |kept| && kept[p] == remaining[k];
    }
  }

  /** The corrected total is the number of faces the script leaves in the table. */
  lemma TotalRemainingCounts(t: Tables, files: set<string>)
    requires WellFormed(t)
    ensures var kept := KeptFaces(t.unassignedFaces, files);
            var marked := MarkedIds(Remaining(t, files));
            TotalRemaining(|Remaining(t, files)|, |marked|) == |RemoveIds(kept, marked)|
  {
    var kept := KeptFaces(t.unassignedFaces, files);
    var marked := MarkedIds(Remaining(t, files));
    KeptFacesUnique(t.unassignedFaces, files);
    MarkedIdsWithin(Remaining(t, files), kept);
    RemoveIdsCount(kept, marked);
    assert marked * IdsOf(kept) == marked;
  }

  /** A face saved without an image URL. */
  const NoUrlFace := UnassignedFace(0, [], None, None, 0)
  /** A face whose image was saved as `/api/faces/1.jpg`. */
  const SavedFace := UnassignedFace(1, [], Some(Text.FaceImageUrl(1)), None, 0)

  lemma KeptExample()
    ensures KeptFaces([NoUrlFace, SavedFace], {Text.FaceFileName(1)}) == [SavedFace]
  {
    var files := {Text.FaceFileName(1)};
    KeepsSavedImages(SavedFace, files);
    KeepsSavedImages(NoUrlFace, files);
    assert [NoUrlFace][..0] == [];
    assert KeptFaces([NoUrlFace], files) == [];
    assert [NoUrlFace, SavedFace][..1] == [NoUrlFace];
  }

  /**
   * The summary as written subtracts the faces phase 1 deleted a second time:
   * with one face without an image URL and one whose saved image is on disk, it
   * reports 0 faces remaining while one face remains.
   */
  lemma SummaryCountsMissingTwice()
    ensures var t := Tables([], [], [NoUrlFace, SavedFace], [], 2);
            var kept := KeptFaces(t.unassignedFaces, {Text.FaceFileName(1)});
            var marked := MarkedIds(Remaining(t, {Text.FaceFileName(1)}));
            && ReportedRemaining(|Remaining(t, {Text.FaceFileName(1)})|, |marked|, |t.unassignedFaces| - |kept|) == 0
            && |RemoveIds(kept, marked)| == 1
  {
    KeptExample();
    var remaining := Sorting.SortBy([SavedFace], CreatedAtKey);
    assert |remaining| == 1;
    assert MarkedIds(remaining) == {};
    assert RemoveIds([SavedFace], {}) == [SavedFace];
  }

  /**
   * `cleanupUnknownFaces`: phase 1, then phase 2 on the faces left, reporting
   * the deletions of each phase and the faces that remain.
   */
  method CleanupUnknownFaces(db: Store, disk: Disk)
    returns (deletedMissing: nat, deletedDuplicates: nat, totalRemaining: int)
    requires db.Valid()
    modifies db, disk
    ensures var kept := KeptFaces(old(db.unassignedFaces), old(disk.files));
            var marked := MarkedIds(Remaining(old(db.Snapshot()), old(disk.files)));
            && db.Snapshot() == old(db.Snapshot()).(unassignedFaces := RemoveIds(kept, marked))
            && disk.files == old(disk.files) - ImageFiles(Remaining(old(db.Snapshot()), old(disk.files)), marked)
            && deletedMissing == |old(db.unassignedFaces)| - |kept|
            && deletedDuplicates == |marked|
    ensures totalRemaining == |db.unassignedFaces|
    ensures db.Valid()
  {
    ghost var t := db.Snapshot();
    ghost var files := disk.files;
    deletedMissing := PurgeMissingImages(db, disk);
    PurgeWellFormed(t, files);
    ghost var purged := db.Snapshot();
    var remainingFaces := Sorting.SortBy(db.unassignedFaces, CreatedAtKey);
    UniqueIdsPermutation(db.unassignedFaces, remainingFaces);
    var toDelete := MarkDuplicates(remainingFaces);
    deletedDuplicates := DeleteMarked(db, disk, remainingFaces, toDelete);
    totalRemaining := TotalRemaining(|remainingFaces|, |toDelete|);
    TotalRemainingCounts(t, files);
    WritesPreserveWellFormed(purged, [], None, 0, 0, "", toDelete, "", "", 0, 0.0);
  }
}
