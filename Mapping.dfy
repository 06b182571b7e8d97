/**
 * The face-mapping route web-app/src/app/api/mapping/route.ts: `GET` lists
 * the 50 newest unassigned faces, `POST` moves unassigned faces to an
 * employee (creating the employee first when a new name is given), and
 * `DELETE` removes unassigned faces.
 *
 * The request body is decoded into options: a missing, null or non-array
 * `faceIds` is `None`, and a missing or empty `employeeId` or
 * `newEmployeeName` is `None` or `Some("")`. A write the database refuses
 * (a taken email, a face embedding for an employee that does not exist)
 * makes the route answer 500 and leaves the writes made before it.
 */
module Mapping {
  import opened Wrappers
  import opened Database
  import Sorting
  import Text

  datatype Response =
    | Success
    | BadRequest(error: string)
    | ServerError

  const NoFacesSelected := "No faces selected"
  const NoTargetEmployee := "No target employee specified"
  const PageSize: nat := 50

  // ------------------------------------------------------------ the email

  /**
   * JavaScript's `\s`: the ASCII whitespace characters, the no-break space,
   * the Unicode space separators, the line and paragraph separators and the
   * byte order mark.
   */
  predicate IsJsWhitespace(c: char) {
    || c == '\t' || c == '\n' || c == '\U{0B}' || c == '\U{0C}' || c == '\r' || c == ' '
    || c == '\U{A0}' || c == '\U{1680}' || ('\U{2000}' <= c <= '\U{200A}')
    || c == '\U{2028}' || c == '\U{2029}' || c == '\U{202F}' || c == '\U{205F}'
    || c == '\U{3000}' || c == '\U{FEFF}'
  }

  predicate IsUpperAscii(c: char) {
    'A' <= c <= 'Z'
  }

  /** `toLowerCase` on ASCII letters; every other character is kept. */
  function ToLower(c: char): (l: char)
    ensures !IsUpperAscii(l)
    ensures IsUpperAscii(c) ==> l as int == c as int + 32
    ensures !IsUpperAscii(c) ==> l == c
  {
    if IsUpperAscii(c) then (c as int + 32) as char else c
  }

  /** `name.toLowerCase().replace(/\s/g, '.')`. */
  function Slug(name: string): (slug: string)
    ensures |slug| == |name|
  {
    if name == [] then []
    else Slug(name[..|name| - 1]) + [if IsJsWhitespace(name[|name| - 1]) then '.' else ToLower(name[|name| - 1])]
  }

  /**
   * The slug keeps the length of the name, holds no whitespace and no
   * upper-case letter, puts a '.' exactly where the name has whitespace, and
   * leaves the other characters as their lower case.
   */
  lemma {:induction false} SlugProperties(name: string)
    ensures forall k :: 0 <= k < |name| ==> (Slug(name)[k] == '.' <==> IsJsWhitespace(name[k]) || name[k] == '.')
    ensures forall k :: 0 <= k < |name| ==> !IsJsWhitespace(Slug(name)[k]) && !IsUpperAscii(Slug(name)[k])
    ensures forall k :: 0 <= k < |name| && !IsJsWhitespace(name[k]) ==> Slug(name)[k] == ToLower(name[k])
  {
    if name != [] {
      var init := name[..|name| - 1];
      SlugProperties(init);
      forall k | 0 <= k < |init| ensures name[k] == init[k] && Slug(name)[k] == Slug(init)[k] {
      }
    }
  }

  /** `${slug}.${Date.now()}@example.com`. */
  function EmailFor(name: string, now: nat): string {
    Slug(name) + "." + Text.Decimal(now) + "@example.com"
  }

  /**
   * The email ends in `@example.com` and starts with the slug of the name;
   * one name at two different times gets two different emails.
   */
  lemma EmailForProperties(name: string, now: nat, later: nat)
    ensures var email := EmailFor(name, now);
            && email[..|name|] == Slug(name)
            && email[|email| - 12..] == "@example.com"
    ensures EmailFor(name, now) == EmailFor(name, later) ==> now == later
  {
    var a, b := EmailFor(name, now), EmailFor(name, later);
    if a == b {
      var d, e := Text.Decimal(now), Text.Decimal(later);
      assert |d| == |e|;
      assert d == a[|name| + 1..|a| - 12];
      assert e == b[|name| + 1..|b| - 12];
      Text.DecimalInjective(now, later);
    }
  }

  // --------------------------------------------------------------- moving

  /** The list of requested ids as a set. */
  function SetOf(ids: seq<Id>): set<Id> {
    set k | 0 <= k < |ids| :: ids[k]
  }

  /**
   * One iteration of the `POST` loop: a face that is still unassigned gets a
   * face embedding for the target with its embedding and image URL, and
   * leaves the unassigned faces; an id that is not found is skipped.
   */
  function MoveFace(t: Tables, target: Id, faceId: Id): Tables {
    match FindById(t.unassignedFaces, faceId)
    case None => t
    case Some(face) => DeleteUnassigned(InsertFaceEmbedding(t, target, face.embedding, face.imageUrl), {faceId})
  }

  /** The `POST` loop over `faceIds`, in order. */
  function MoveFaces(t: Tables, target: Id, ids: seq<Id>): Tables {
    if ids == [] then t else MoveFace(MoveFaces(t, target, ids[..|ids| - 1]), target, ids[|ids| - 1])
  }

  /**
   * The faces a list of ids selects, in order: each listed id that names a
   * face picks that face the first time it is listed.
   */
  function Selected(s: seq<UnassignedFace>, ids: seq<Id>): seq<UnassignedFace> {
    if ids == [] then []
    else
      var init := ids[..|ids| - 1];
      Selected(s, init) + match FindById(RemoveIds(s, SetOf(init)), ids[|ids| - 1]) {
        case None => []
        case Some(face) => [face]
      }
  }

  /** The face embeddings for `target` made from `faces`. */
  function Assigned(target: Id, faces: seq<UnassignedFace>): seq<FaceEmbedding> {
    if faces == [] then []
    else Assigned(target, faces[..|faces| - 1]) + [FaceEmbedding(target, faces[|faces| - 1].embedding, faces[|faces| - 1].imageUrl)]
  }

  lemma SetOfSnoc(ids: seq<Id>)
    requires ids != []
    ensures SetOf(ids) == SetOf(ids[..|ids| - 1]) + {ids[|ids| - 1]}
  {
    var init := ids[..|ids| - 1];
    forall x | x in SetOf(ids) ensures x in SetOf(init) + {ids[|ids| - 1]} {
      var k :| 0 <= k < |ids| && ids[k] == x;
      if k < |init| {
        assert init[k] == x;
      }
    }
  }

  /** The face embedding made from each face belongs to the target and keeps the face's embedding and image URL. */
  lemma {:induction false} AssignedFaces(target: Id, faces: seq<UnassignedFace>)
    ensures |Assigned(target, faces)| == |faces|
    ensures forall k :: 0 <= k < |faces| ==>
              Assigned(target, faces)[k] == FaceEmbedding(target, faces[k].embedding, faces[k].imageUrl)
  {
    if faces != [] {
      AssignedFaces(target, faces[..|faces| - 1]);
    }
  }

  lemma AssignedSnoc(target: Id, faces: seq<UnassignedFace>, face: UnassignedFace)
    ensures Assigned(target, faces + [face]) == Assigned(target, faces) + [FaceEmbedding(target, face.embedding, face.imageUrl)]
  {
    assert (faces + [face])[..|faces|] == faces;
  }

  /** A move changes only the face embeddings and the unassigned faces. */
  lemma {:induction false} MoveFacesOthers(t: Tables, target: Id, ids: seq<Id>)
    ensures var t' := MoveFaces(t, target, ids);
            t'.employees == t.employees && t'.attendanceLogs == t.attendanceLogs && t'.nextId == t.nextId
  {
    if ids != [] {
      MoveFacesOthers(t, target, ids[..|ids| - 1]);
    }
  }

  /** A move removes exactly the listed ids from the unassigned faces. */
  lemma {:induction false} MoveFacesUnassigned(t: Tables, target: Id, ids: seq<Id>)
    ensures MoveFaces(t, target, ids).unassignedFaces == RemoveIds(t.unassignedFaces, SetOf(ids))
  {
    if ids == [] {
      RemoveIdsAbsent(t.unassignedFaces, {});
      assert SetOf(ids) == {};
    } else {
      var init, last := ids[..|ids| - 1], ids[|ids| - 1];
      MoveFacesUnassigned(t, target, init);
      SetOfSnoc(ids);
      RemoveIdsTwice(t.unassignedFaces, SetOf(init), {last});
      var rest := RemoveIds(t.unassignedFaces, SetOf(init));
      if FindById(rest, last).None? {
        forall k | 0 <= k < |rest| ensures rest[k].id !in {last} {
          assert rest[k].id in IdsOf(rest);
        }
        RemoveIdsAbsent(rest, {last});
      }
    }
  }

  /** A move appends one face embedding for the target per selected face, in order. */
  lemma {:induction false} MoveFacesEmbeddings(t: Tables, target: Id, ids: seq<Id>)
    ensures MoveFaces(t, target, ids).faceEmbeddings
            == t.faceEmbeddings + Assigned(target, Selected(t.unassignedFaces, ids))
  {
    if ids == [] {
      assert t.faceEmbeddings + [] == t.faceEmbeddings;
    } else {
      var init, last := ids[..|ids| - 1], ids[|ids| - 1];
      var u := MoveFaces(t, target, init);
      MoveFacesEmbeddings(t, target, init);
      MoveFacesUnassigned(t, target, init);
      var prev := Selected(t.unassignedFaces, init);
      var found := FindById(u.unassignedFaces, last);
      assert MoveFaces(t, target, ids) == MoveFace(u, target, last);
      if found.None? {
        assert Selected(t.unassignedFaces, ids) == prev + [];
        assert MoveFace(u, target, last) == u;
        assert prev + [] == prev;
      } else {
        assert Selected(t.unassignedFaces, ids) == prev + [found.value];
        assert MoveFace(u, target, last).faceEmbeddings
               == u.faceEmbeddings + [FaceEmbedding(target, found.value.embedding, found.value.imageUrl)];
        AssignedSnoc(target, prev, found.value);
      }
    }
  }

  /**
   * Moving the listed faces removes exactly the listed ids from the
   * unassigned faces, appends one face embedding for the target per
   * selected face, in order, and changes nothing else.
   */
  lemma MoveFacesEffect(t: Tables, target: Id, ids: seq<Id>)
    ensures MoveFaces(t, target, ids)
            == t.(faceEmbeddings := t.faceEmbeddings + Assigned(target, Selected(t.unassignedFaces, ids)),
                  unassignedFaces := RemoveIds(t.unassignedFaces, SetOf(ids)))
  {
    MoveFacesOthers(t, target, ids);
    MoveFacesUnassigned(t, target, ids);
    MoveFacesEmbeddings(t, target, ids);
  }

  /**
   * Each listed id that names an unassigned face is moved exactly once, even
   * when it is listed twice: the selected faces are the faces with a listed
   * id, and there are as many as listed ids that name a face.
   */
  lemma {:induction false} SelectedFaces(s: seq<UnassignedFace>, ids: seq<Id>)
    requires UniqueIds(s)
    ensures forall f :: f in Selected(s, ids) <==> f in s && f.id in SetOf(ids)
    ensures |Selected(s, ids)| == |SetOf(ids) * IdsOf(s)|
  {
    SelectedMembers(s, ids);
    SelectedCount(s, ids);
  }

  lemma {:induction false} SelectedMembers(s: seq<UnassignedFace>, ids: seq<Id>)
    requires UniqueIds(s)
    ensures forall f :: f in Selected(s, ids) <==> f in s && f.id in SetOf(ids)
  {
    if ids == [] {
      assert SetOf(ids) == {};
    } else {
      var init, last := ids[..|ids| - 1], ids[|ids| - 1];
      SelectedMembers(s, init);
      SetOfSnoc(ids);
      RemoveIdsUnique(s, SetOf(init));
      var rest := RemoveIds(s, SetOf(init));
      var found := FindById(rest, last);
      forall f | f in s && f.id in SetOf(ids) ensures f in Selected(s, ids) {
        if f.id !in SetOf(init) {
          assert f.id == last && f in rest;
          var k :| 0 <= k < |rest| && rest[k] == f;
          assert rest[k].id in IdsOf(rest);
          UniqueMember(rest, f, found.value);
        }
      }
    }
  }

  lemma {:induction false} SelectedCount(s: seq<UnassignedFace>, ids: seq<Id>)
    requires UniqueIds(s)
    ensures |Selected(s, ids)| == |SetOf(ids) * IdsOf(s)|
  {
    if ids == [] {
      assert SetOf(ids) == {};
    } else {
      var init, last := ids[..|ids| - 1], ids[|ids| - 1];
      SelectedCount(s, init);
      SetOfSnoc(ids);
      RemoveIdsUnique(s, SetOf(init));
      IntersectionGrows(SetOf(init), last, IdsOf(s));
    }
  }

  /** Adding one element to a set adds one to its intersection with `ys` when it is new there. */
  lemma IntersectionGrows(xs: set<Id>, x: Id, ys: set<Id>)
    ensures |(xs + {x}) * ys| == |xs * ys| + (if x in ys - xs then 1 else 0)
  {
    if x in ys - xs {
      assert (xs + {x}) * ys == xs * ys + {x};
    } else {
      assert (xs + {x}) * ys == xs * ys;
    }
  }

  /** Two members of a list with unique ids that share an id are the same record. */
  lemma UniqueMember(s: seq<UnassignedFace>, f: UnassignedFace, g: UnassignedFace)
    requires UniqueIds(s) && f in s && g in s && f.id == g.id
    ensures f == g
  {
    var i :| 0 <= i < |s| && s[i] == f;
    var j :| 0 <= j < |s| && s[j] == g;
    assert !(i < j) && !(j < i);
  }

  // ------------------------------------------------------------------ POST

  /** `if (!faceIds || !Array.isArray(faceIds) || faceIds.length === 0)`. */
  predicate NoFaces(faceIds: Option<seq<Id>>) {
    faceIds.None? || faceIds.value == []
  }

  /** Some listed id names an unassigned face. */
  predicate AnyFound(t: Tables, ids: seq<Id>) {
    exists k :: 0 <= k < |ids| && ids[k] in IdsOf(t.unassignedFaces)
  }

  /**
   * The tables after a `POST` and its response. A new name creates an
   * employee (refused when the email is taken) that becomes the target; a
   * target that is not an employee makes the first face embedding write
   * fail, before anything has moved.
   */
  function Post(t: Tables, faceIds: Option<seq<Id>>, employeeId: Option<Id>, newEmployeeName: Option<string>, now: nat)
    : (Tables, Response)
  {
    if NoFaces(faceIds) then (t, BadRequest(NoFacesSelected))
    else if newEmployeeName.Some? && newEmployeeName.value != ""
            && EmailTaken(t.employees, EmailFor(newEmployeeName.value, now)) then (t, ServerError)
    else
      var created := newEmployeeName.Some? && newEmployeeName.value != "";
      var t1 := if created then InsertEmployee(t, newEmployeeName.value, EmailFor(newEmployeeName.value, now)) else t;
      var target := if created then Some(t.nextId) else employeeId;
      if target.None? then (t1, BadRequest(NoTargetEmployee))
      else MoveOutcome(t1, target.value, faceIds.value)
  }

  /**
   * The loop of `POST` for a target: the listed faces move, unless the
   * target is not an employee and some listed face exists, in which case the
   * write of the first such face fails before anything has moved.
   */
  function MoveOutcome(t: Tables, target: Id, ids: seq<Id>): (Tables, Response) {
    if target !in EmployeeIds(t.employees) && AnyFound(t, ids) then (t, ServerError)
    else (MoveFaces(t, target, ids), Success)
  }

  lemma NotFoundKeeps(t: Tables, target: Id, ids: seq<Id>)
    requires !AnyFound(t, ids)
    ensures MoveFaces(t, target, ids) == t
  {
    MoveFacesEffect(t, target, ids);
    SelectedNoneFound(t.unassignedFaces, ids);
    RemoveIdsAbsent(t.unassignedFaces, SetOf(ids));
    assert t.faceEmbeddings + [] == t.faceEmbeddings;
  }

  lemma {:induction false} SelectedNoneFound(s: seq<UnassignedFace>, ids: seq<Id>)
    requires forall k :: 0 <= k < |ids| ==> ids[k] !in IdsOf(s)
    ensures Selected(s, ids) == []
    ensures forall k :: 0 <= k < |s| ==> s[k].id !in SetOf(ids)
  {
    if ids != [] {
      var init := ids[..|ids| - 1];
      SelectedNoneFound(s, init);
      SetOfSnoc(ids);
      RemoveIdsAbsent(s, SetOf(init));
    }
  }

  /** A move keeps the employees, the attendance logs and the id counter. */
  lemma MoveFacesKeeps(t: Tables, target: Id, ids: seq<Id>)
    ensures var t' := MoveFaces(t, target, ids);
            t'.employees == t.employees && t'.attendanceLogs == t.attendanceLogs && t'.nextId == t.nextId
            && IdsOf(t'.unassignedFaces) <= IdsOf(t.unassignedFaces)
  {
    MoveFacesEffect(t, target, ids);
    var r := RemoveIds(t.unassignedFaces, SetOf(ids));
    forall x | x in IdsOf(r) ensures x in IdsOf(t.unassignedFaces) {
      var k :| 0 <= k < |r| && r[k].id == x;
      assert r[k] in t.unassignedFaces;
    }
  }

  /** `POST`: validates the request, makes the target and moves the listed faces. */
  method PostMapping(db: Store, faceIds: Option<seq<Id>>, employeeId: Option<Id>, newEmployeeName: Option<string>, now: nat)
    returns (response: Response)
    modifies db
    ensures (db.Snapshot(), response) == Post(old(db.Snapshot()), faceIds, employeeId, newEmployeeName, now)
  {
    if faceIds.None? || |faceIds.value| == 0 {
      return BadRequest(NoFacesSelected);
    }
    var ids := faceIds.value;
    var targetEmployeeId := employeeId;
    if newEmployeeName.Some? && newEmployeeName.value != "" {
      var email := EmailFor(newEmployeeName.value, now);
      if EmailTaken(db.employees, email) {
        return ServerError;
      }
      var id := db.CreateEmployee(newEmployeeName.value, email);
      targetEmployeeId := Some(id);
    }
    if targetEmployeeId.None? {
      return BadRequest(NoTargetEmployee);
    }
    response := MoveListed(db, targetEmployeeId.value, ids);
  }

  /** The loop `for (const faceId of faceIds)` of `POST`. */
  method MoveListed(db: Store, target: Id, ids: seq<Id>) returns (response: Response)
    modifies db
    ensures (db.Snapshot(), response) == MoveOutcome(old(db.Snapshot()), target, ids)
  {
    ghost var t1 := db.Snapshot();
    for i := 0 to |ids|
      invariant db.Snapshot() == MoveFaces(t1, target, ids[..i])
      invariant target !in EmployeeIds(t1.employees) ==> !AnyFound(t1, ids[..i])
    {
      assert ids[..i + 1][..i] == ids[..i];
      MoveFacesKeeps(t1, target, ids[..i]);
      var unassigned := FindById(db.unassignedFaces, ids[i]);
      if unassigned.None? {
        if target !in EmployeeIds(t1.employees) {
          NotFoundKeeps(t1, target, ids[..i]);
          assert !AnyFound(t1, ids[..i + 1]);
        }
        continue;
      }
      if target !in EmployeeIds(db.employees) {
        NotFoundKeeps(t1, target, ids[..i]);
        assert ids[i] in IdsOf(t1.unassignedFaces);
        return ServerError;
      }
      db.CreateFaceEmbedding(target, unassigned.value.embedding, unassigned.value.imageUrl);
      db.DeleteUnassignedFaces({ids[i]});
    }
    assert ids[..|ids|] == ids;
    return Success;
  }

  /**
   * `POST` answers 400 and changes nothing without faces, or without a
   * target; a new name wins over `employeeId` and its employee is the one
   * appended; on success exactly the listed faces move to the target; and
   * the tables stay well formed.
   */
  lemma PostProperties(t: Tables, faceIds: Option<seq<Id>>, employeeId: Option<Id>, newEmployeeName: Option<string>, now: nat)
    requires WellFormed(t)
    ensures NoFaces(faceIds) ==> Post(t, faceIds, employeeId, newEmployeeName, now) == (t, BadRequest(NoFacesSelected))
    ensures !NoFaces(faceIds) && employeeId.None? && (newEmployeeName.None? || newEmployeeName.value == "") ==>
              Post(t, faceIds, employeeId, newEmployeeName, now) == (t, BadRequest(NoTargetEmployee))
    ensures var (t', r) := Post(t, faceIds, employeeId, newEmployeeName, now);
            r == Success && newEmployeeName.Some? && newEmployeeName.value != "" ==>
              && t'.employees == t.employees + [Employee(t.nextId, newEmployeeName.value, EmailFor(newEmployeeName.value, now))]
              && t'.faceEmbeddings == t.faceEmbeddings + Assigned(t.nextId, Selected(t.unassignedFaces, faceIds.value))
    ensures var (t', r) := Post(t, faceIds, employeeId, newEmployeeName, now);
            r == Success && (newEmployeeName.None? || newEmployeeName.value == "") ==>
              && t'.employees == t.employees
              && t'.faceEmbeddings == t.faceEmbeddings + Assigned(employeeId.value, Selected(t.unassignedFaces, faceIds.value))
    ensures var (t', r) := Post(t, faceIds, employeeId, newEmployeeName, now);
            r == Success ==> t'.unassignedFaces == RemoveIds(t.unassignedFaces, SetOf(faceIds.value))
                             && t'.attendanceLogs == t.attendanceLogs
    ensures WellFormed(Post(t, faceIds, employeeId, newEmployeeName, now).0)
  {
    if !NoFaces(faceIds) {
      var ids := faceIds.value;
      var created := newEmployeeName.Some? && newEmployeeName.value != "";
      if created && !EmailTaken(t.employees, EmailFor(newEmployeeName.value, now)) {
        var t1 := InsertEmployee(t, newEmployeeName.value, EmailFor(newEmployeeName.value, now));
        WritesPreserveWellFormed(t, [], None, 0, 0, "", {}, newEmployeeName.value, EmailFor(newEmployeeName.value, now), 0, 0.0);
        MoveFacesEffect(t1, t.nextId, ids);
        assert t.nextId in EmployeeIds(t1.employees) by {
          assert t1.employees[|t.employees|].id == t.nextId;
        }
        MoveFacesWellFormed(t1, t.nextId, ids);
      } else if !created && employeeId.Some? {
        MoveFacesEffect(t, employeeId.value, ids);
        if employeeId.value in EmployeeIds(t.employees) {
          MoveFacesWellFormed(t, employeeId.value, ids);
        } else if !AnyFound(t, ids) {
          NotFoundKeeps(t, employeeId.value, ids);
        }
      }
    }
  }

  /** Face embeddings for an existing employee keep the tables well formed. */
  lemma EmbeddingsForEmployee(t: Tables, target: Id, added: seq<FaceEmbedding>)
    requires WellFormed(t) && target in EmployeeIds(t.employees)
    requires forall k :: 0 <= k < |added| ==> added[k].employeeId == target
    ensures WellFormed(t.(faceEmbeddings := t.faceEmbeddings + added))
  {
    var fe := t.faceEmbeddings + added;
    forall k | 0 <= k < |fe| ensures fe[k].employeeId in EmployeeIds(t.employees) {
      if k >= |t.faceEmbeddings| {
        assert fe[k] == added[k - |t.faceEmbeddings|];
      }
    }
  }

  /** Moving faces to an existing employee keeps the tables well formed. */
  lemma MoveFacesWellFormed(t: Tables, target: Id, ids: seq<Id>)
    requires WellFormed(t) && target in EmployeeIds(t.employees)
    ensures WellFormed(MoveFaces(t, target, ids))
  {
    MoveFacesEffect(t, target, ids);
    var selected := Selected(t.unassignedFaces, ids);
    AssignedFaces(target, selected);
    WritesPreserveWellFormed(t, [], None, 0, 0, "", SetOf(ids), "", "", 0, 0.0);
    EmbeddingsForEmployee(DeleteUnassigned(t, SetOf(ids)), target, Assigned(target, selected));
  }

  // ---------------------------------------------------------------- DELETE

  /** The tables after a `DELETE` and its response. */
  function Delete(t: Tables, faceIds: Option<seq<Id>>): (Tables, Response) {
    if NoFaces(faceIds) then (t, BadRequest(NoFacesSelected))
    else (DeleteUnassigned(t, SetOf(faceIds.value)), Success)
  }

  /** `DELETE`: `deleteMany` of the listed ids. */
  method DeleteMapping(db: Store, faceIds: Option<seq<Id>>) returns (response: Response)
    modifies db
    ensures (db.Snapshot(), response) == Delete(old(db.Snapshot()), faceIds)
  {
    if faceIds.None? || |faceIds.value| == 0 {
      return BadRequest(NoFacesSelected);
    }
    db.DeleteUnassignedFaces(SetOf(faceIds.value));
    return Success;
  }

  /**
   * `DELETE` removes exactly the listed faces that exist, in place of none
   * when no face is listed, and leaves every other table and face alone.
   */
  lemma DeleteProperties(t: Tables, faceIds: Option<seq<Id>>)
    requires WellFormed(t)
    ensures var (t', r) := Delete(t, faceIds);
            && (r == Success <==> !NoFaces(faceIds))
            && (r != Success ==> t' == t)
            && t'.employees == t.employees && t'.faceEmbeddings == t.faceEmbeddings
            && t'.attendanceLogs == t.attendanceLogs && t'.nextId == t.nextId
            && WellFormed(t')
    ensures !NoFaces(faceIds) ==>
              var t' := Delete(t, faceIds).0;
              && IdsOf(t'.unassignedFaces) == IdsOf(t.unassignedFaces) - SetOf(faceIds.value)
              && |t'.unassignedFaces| == |t.unassignedFaces| - |SetOf(faceIds.value) * IdsOf(t.unassignedFaces)|
  {
    if !NoFaces(faceIds) {
      WritesPreserveWellFormed(t, [], None, 0, 0, "", SetOf(faceIds.value), "", "", 0, 0.0);
      RemoveIdsUnique(t.unassignedFaces, SetOf(faceIds.value));
      RemoveIdsCount(t.unassignedFaces, SetOf(faceIds.value));
    }
  }

  // ------------------------------------------------------------------- GET

  /** The sort key of `orderBy: { createdAt: 'desc' }`. */
  function NewestFirst(r: UnassignedFace): real {
    -(r.createdAt as real)
  }

  /** The first `n` elements of `s`, or all of them when there are fewer. */
  function Take<T>(s: seq<T>, n: nat): (r: seq<T>)
    ensures |r| == if |s| < n then |s| else n
  {
    if |s| <= n then s else s[..n]
  }

  /** `findMany({ orderBy: { createdAt: 'desc' }, take: 50 })`. */
  function Newest(t: Tables): seq<UnassignedFace> {
    Take(Sorting.SortBy(t.unassignedFaces, NewestFirst), PageSize)
  }

  /** `GET`: reads the page of newest unassigned faces. */
  method GetMapping(db: Store) returns (page: seq<UnassignedFace>)
    ensures page == Newest(db.Snapshot())
  {
    page := Take(Sorting.SortBy(db.unassignedFaces, NewestFirst), PageSize);
  }

  /** The page holds at most 50 faces, all of them unassigned, newest first. */
  lemma NewestOrder(t: Tables)
    ensures var page := Newest(t);
            && |page| == (if |t.unassignedFaces| < PageSize then |t.unassignedFaces| else PageSize)
            && multiset(page) <= multiset(t.unassignedFaces)
            && (forall i, j :: 0 <= i < j < |page| ==> page[i].createdAt >= page[j].createdAt)
  {
    var sorted := Sorting.SortBy(t.unassignedFaces, NewestFirst);
    var page := Newest(t);
    if |sorted| > PageSize {
      assert sorted == page + sorted[PageSize..];
    }
    forall i, j | 0 <= i < j < |page| ensures page[i].createdAt >= page[j].createdAt {
      assert NewestFirst(sorted[i]) <= NewestFirst(sorted[j]);
    }
  }

  lemma SortedTop(sorted: seq<UnassignedFace>, n: nat)
    requires Sorting.SortedBy(sorted, NewestFirst) && n <= |sorted|
    ensures forall f, k :: f in sorted[n..] && 0 <= k < n ==> f.createdAt <= sorted[k].createdAt
  {
    forall f, k | f in sorted[n..] && 0 <= k < n ensures f.createdAt <= sorted[k].createdAt {
      var m :| n <= m < |sorted| && sorted[m] == f;
      assert NewestFirst(sorted[k]) <= NewestFirst(sorted[m]);
    }
  }

  /** No face left off the page is newer than a face on it. */
  lemma NewestTop(t: Tables)
    ensures var page := Newest(t);
            forall f, k :: f in multiset(t.unassignedFaces) - multiset(page) && 0 <= k < |page| ==>
              f.createdAt <= page[k].createdAt
  {
    var sorted := Sorting.SortBy(t.unassignedFaces, NewestFirst);
    var page := Newest(t);
    if |sorted| > PageSize {
      var rest := sorted[PageSize..];
      assert sorted == page + rest;
      assert multiset(t.unassignedFaces) - multiset(page) == multiset(rest);
      SortedTop(sorted, PageSize);
    } else {
      assert multiset(t.unassignedFaces) - multiset(page) == multiset{};
    }
  }
}
