/**
 * The database tables the routes and the cleanup script read and write
 * (through Prisma in the source), and the directory of saved face images.
 *
 * Record ids are database-generated strings in the source; here they are
 * natural numbers handed out from a counter, so a freshly created record's
 * id is `nextId`. Times are milliseconds since the epoch.
 */
module Database {
  import opened Wrappers
  import opened Similarity
  import Sorting

  type Id = nat
  type Time = int

  datatype Employee = Employee(id: Id, name: string, email: string)

  /** A face of a known employee (`include: { employee: true }` joins the employee). */
  datatype FaceEmbedding = FaceEmbedding(employeeId: Id, embedding: Embedding, imageUrl: Option<string>)

  /** A face seen but not yet assigned to an employee. */
  datatype UnassignedFace = UnassignedFace(
    id: Id, embedding: Embedding, imageUrl: Option<string>, pHash: Option<string>, createdAt: Time)

  datatype AttendanceLog = AttendanceLog(employeeId: Id, confidenceScore: real, timestamp: Time)

  datatype Tables = Tables(
    employees: seq<Employee>,
    faceEmbeddings: seq<FaceEmbedding>,
    unassignedFaces: seq<UnassignedFace>,
    attendanceLogs: seq<AttendanceLog>,
    nextId: Id)

  // ------------------------------------------------------------ integrity

  predicate UniqueIds(s: seq<UnassignedFace>) {
    forall i, j :: 0 <= i < j < |s| ==> s[i].id != s[j].id
  }

  predicate UniqueEmployees(s: seq<Employee>) {
    forall i, j :: 0 <= i < j < |s| ==> s[i].id != s[j].id && s[i].email != s[j].email
  }

  /**
   * Primary keys are unique, employee emails are unique (a database
   * constraint), every face embedding belongs to an existing employee (a
   * foreign key), and every id was handed out before `nextId`.
   */
  predicate WellFormed(t: Tables) {
    && UniqueIds(t.unassignedFaces)
    && UniqueEmployees(t.employees)
    && (forall k :: 0 <= k < |t.faceEmbeddings| ==> t.faceEmbeddings[k].employeeId in EmployeeIds(t.employees))
    && (forall k :: 0 <= k < |t.unassignedFaces| ==> t.unassignedFaces[k].id < t.nextId)
    && (forall k :: 0 <= k < |t.employees| ==> t.employees[k].id < t.nextId)
  }

  function IdsOf(s: seq<UnassignedFace>): set<Id> {
    set k | 0 <= k < |s| :: s[k].id
  }

  /** `findUnique({ where: { id } })` on the unassigned faces. */
  function FindById(s: seq<UnassignedFace>, id: Id): (r: Option<UnassignedFace>)
    ensures r.Some? ==> r.value in s && r.value.id == id
    ensures r.None? <==> id !in IdsOf(s)
  {
    if s == [] then None
    else if s[0].id == id then Some(s[0])
    else
      var r := FindById(s[1..], id);
      assert IdsOf(s) == {s[0].id} + IdsOf(s[1..]) by {
        forall x | x in IdsOf(s) ensures x in {s[0].id} + IdsOf(s[1..]) {
          var k :| 0 <= k < |s| && s[k].id == x;
          if k > 0 {
            assert s[1..][k - 1].id == x;
          }
        }
      }
      r
  }

  function EmployeeIds(s: seq<Employee>): set<Id> {
    set k | 0 <= k < |s| :: s[k].id
  }

  /** The employee a face embedding belongs to (the joined `employee`). */
  function FindEmployee(s: seq<Employee>, id: Id): (r: Option<Employee>)
    ensures r.Some? ==> r.value in s && r.value.id == id
    ensures r.None? <==> id !in EmployeeIds(s)
  {
    if s == [] then None
    else if s[0].id == id then Some(s[0])
    else
      var r := FindEmployee(s[1..], id);
      assert id in EmployeeIds(s) ==> id in EmployeeIds(s[1..]) by {
        if id in EmployeeIds(s) {
          var k :| 0 <= k < |s| && s[k].id == id;
          assert s[1..][k - 1].id == id;
        }
      }
      r
  }

  predicate EmailTaken(s: seq<Employee>, email: string) {
    exists k :: 0 <= k < |s| && s[k].email == email
  }

  // ------------------------------------------------------------- deletion

  /** The records whose id is not in `ids`, in their order. */
  function RemoveIds(s: seq<UnassignedFace>, ids: set<Id>): (r: seq<UnassignedFace>)
    ensures forall x :: x in r <==> x in s && x.id !in ids
    ensures |r| <= |s|
  {
    if s == [] then []
    else if s[0].id in ids then RemoveIds(s[1..], ids)
    else [s[0]] + RemoveIds(s[1..], ids)
  }

  lemma {:induction false} RemoveIdsConcat(a: seq<UnassignedFace>, b: seq<UnassignedFace>, ids: set<Id>)
    ensures RemoveIds(a + b, ids) == RemoveIds(a, ids) + RemoveIds(b, ids)
  {
    if a != [] {
      assert (a + b)[1..] == a[1..] + b;
      RemoveIdsConcat(a[1..], b, ids);
    } else {
      assert a + b == b;
    }
  }

  /** Removing ids none of the records has changes nothing. */
  lemma {:induction false} RemoveIdsAbsent(s: seq<UnassignedFace>, ids: set<Id>)
    requires forall k :: 0 <= k < |s| ==> s[k].id !in ids
    ensures RemoveIds(s, ids) == s
  {
    if s != [] {
      RemoveIdsAbsent(s[1..], ids);
    }
  }

  /** Deleting one set of ids and then another deletes their union. */
  lemma {:induction false} RemoveIdsTwice(s: seq<UnassignedFace>, a: set<Id>, b: set<Id>)
    ensures RemoveIds(RemoveIds(s, a), b) == RemoveIds(s, a + b)
  {
    if s != [] {
      RemoveIdsTwice(s[1..], a, b);
    }
  }

  /** Deletion keeps the remaining records in order, so their ids stay unique. */
  lemma {:induction false} RemoveIdsUnique(s: seq<UnassignedFace>, ids: set<Id>)
    requires UniqueIds(s)
    ensures UniqueIds(RemoveIds(s, ids))
    ensures IdsOf(RemoveIds(s, ids)) == IdsOf(s) - ids
  {
    if s != [] {
      RemoveIdsUnique(s[1..], ids);
      IdsOfCons(s);
      var rest := RemoveIds(s[1..], ids);
      if s[0].id !in ids {
        IdsOfCons([s[0]] + rest);
        assert ([s[0]] + rest)[1..] == rest;
        forall k | 0 <= k < |rest| ensures rest[k].id != s[0].id {
          assert rest[k] in s[1..];
        }
      }
    }
  }

  lemma IdsOfCons(s: seq<UnassignedFace>)
    requires s != []
    ensures IdsOf(s) == {s[0].id} + IdsOf(s[1..])
    ensures UniqueIds(s) ==> UniqueIds(s[1..]) && s[0].id !in IdsOf(s[1..])
  {
    forall x | x in IdsOf(s) ensures x in {s[0].id} + IdsOf(s[1..]) {
      var k :| 0 <= k < |s| && s[k].id == x;
      if k > 0 {
        assert s[1..][k - 1].id == x;
      }
    }
    if UniqueIds(s) {
      forall k | 0 <= k < |s[1..]| ensures s[1..][k].id != s[0].id {
        assert s[1..][k] == s[k + 1];
      }
    }
  }

  /**
   * With unique ids, deleting a set of ids removes one record per id that is
   * present, so each is deleted exactly once.
   */
  lemma {:induction false} RemoveIdsCount(s: seq<UnassignedFace>, ids: set<Id>)
    requires UniqueIds(s)
    ensures |RemoveIds(s, ids)| == |s| - |ids * IdsOf(s)|
  {
    if s != [] {
      IdsOfCons(s);
      RemoveIdsCount(s[1..], ids);
      var x := s[0].id;
      if x in ids {
        assert ids * IdsOf(s) == {x} + ids * IdsOf(s[1..]);
      } else {
        assert ids * IdsOf(s) == ids * IdsOf(s[1..]);
      }
    }
  }

  /** A reordering of records with unique ids has unique ids. */
  lemma UniqueIdsPermutation(s: seq<UnassignedFace>, t: seq<UnassignedFace>)
    requires UniqueIds(s) && multiset(s) == multiset(t)
    ensures UniqueIds(t)
  {
    forall i, j | 0 <= i < j < |t| ensures t[i].id != t[j].id {
      if t[i].id == t[j].id {
        if t[i] == t[j] {
          Sorting.TwoPositions(t, i, j);
          Sorting.TwiceAtTwoPositions(s, t[i]);
          assert false;
        } else {
          assert t[i] in multiset(s) && t[j] in multiset(s);
          var a :| 0 <= a < |s| && s[a] == t[i];
          assert false;
        }
      }
    }
  }

  // ----------------------------------------------------- table operations

  /** `unassignedFace.create`: a record with the next id and no image URL. */
  function InsertUnassigned(t: Tables, embedding: Embedding, pHash: Option<string>, now: Time): Tables {
    t.(unassignedFaces := t.unassignedFaces + [UnassignedFace(t.nextId, embedding, None, pHash, now)],
       nextId := t.nextId + 1)
  }

  /** `unassignedFace.update({ where: { id }, data: { imageUrl } })`. */
  function SetImageUrl(s: seq<UnassignedFace>, id: Id, url: string): (r: seq<UnassignedFace>)
    ensures |r| == |s|
    ensures forall k :: 0 <= k < |s| ==>
              r[k] == if s[k].id == id then s[k].(imageUrl := Some(url)) else s[k]
  {
    seq(|s|, k requires 0 <= k < |s| => if s[k].id == id then s[k].(imageUrl := Some(url)) else s[k])
  }

  function UpdateImageUrl(t: Tables, id: Id, url: string): Tables {
    t.(unassignedFaces := SetImageUrl(t.unassignedFaces, id, url))
  }

  /** `unassignedFace.delete` of one id and `deleteMany` of several. */
  function DeleteUnassigned(t: Tables, ids: set<Id>): Tables {
    t.(unassignedFaces := RemoveIds(t.unassignedFaces, ids))
  }

  function InsertEmployee(t: Tables, name: string, email: string): Tables {
    t.(employees := t.employees + [Employee(t.nextId, name, email)], nextId := t.nextId + 1)
  }

  function InsertFaceEmbedding(t: Tables, employeeId: Id, embedding: Embedding, imageUrl: Option<string>): Tables {
    t.(faceEmbeddings := t.faceEmbeddings + [FaceEmbedding(employeeId, embedding, imageUrl)])
  }

  function InsertAttendanceLog(t: Tables, employeeId: Id, score: real, now: Time): Tables {
    t.(attendanceLogs := t.attendanceLogs + [AttendanceLog(employeeId, score, now)])
  }

  /** Each write the system makes keeps the tables well formed. */
  lemma WritesPreserveWellFormed(t: Tables, embedding: Embedding, pHash: Option<string>, now: Time,
                                 id: Id, url: string, ids: set<Id>, name: string, email: string,
                                 employeeId: Id, score: real)
    requires WellFormed(t)
    ensures WellFormed(InsertUnassigned(t, embedding, pHash, now))
    ensures WellFormed(UpdateImageUrl(t, id, url))
    ensures WellFormed(DeleteUnassigned(t, ids))
    ensures !EmailTaken(t.employees, email) ==> WellFormed(InsertEmployee(t, name, email))
    ensures employeeId in EmployeeIds(t.employees) ==>
              WellFormed(InsertFaceEmbedding(t, employeeId, embedding, pHash))
    ensures WellFormed(InsertAttendanceLog(t, employeeId, score, now))
  {
    RemoveIdsUnique(t.unassignedFaces, ids);
    var r := RemoveIds(t.unassignedFaces, ids);
    forall k | 0 <= k < |r| ensures r[k].id < t.nextId {
      assert r[k] in t.unassignedFaces;
    }
    var t' := InsertEmployee(t, name, email);
    forall k | 0 <= k < |t'.faceEmbeddings| ensures t'.faceEmbeddings[k].employeeId in EmployeeIds(t'.employees) {
      var j :| 0 <= j < |t.employees| && t.employees[j].id == t.faceEmbeddings[k].employeeId;
      assert t'.employees[j] == t.employees[j];
    }
  }

  // ----------------------------------------------------------- the store

  /** The database: each table is a field that the operations replace. */
  class Store {
    var employees: seq<Employee>
    var faceEmbeddings: seq<FaceEmbedding>
    var unassignedFaces: seq<UnassignedFace>
    var attendanceLogs: seq<AttendanceLog>
    var nextId: Id

    function Snapshot(): Tables
      reads this
    {
      Tables(employees, faceEmbeddings, unassignedFaces, attendanceLogs, nextId)
    }

    ghost predicate Valid()
      reads this
    {
      WellFormed(Snapshot())
    }

    constructor (t: Tables)
      ensures Snapshot() == t
    {
      employees, faceEmbeddings, unassignedFaces, attendanceLogs, nextId :=
        t.employees, t.faceEmbeddings, t.unassignedFaces, t.attendanceLogs, t.nextId;
    }

    method CreateUnassignedFace(embedding: Embedding, pHash: Option<string>, now: Time)
      returns (created: UnassignedFace)
      modifies this
      ensures created == UnassignedFace(old(nextId), embedding, None, pHash, now)
      ensures Snapshot() == InsertUnassigned(old(Snapshot()), embedding, pHash, now)
    {
      created := UnassignedFace(nextId, embedding, None, pHash, now);
      unassignedFaces := unassignedFaces + [created];
      nextId := nextId + 1;
    }

    method UpdateUnassignedImageUrl(id: Id, url: string)
      modifies this
      ensures Snapshot() == UpdateImageUrl(old(Snapshot()), id, url)
    {
      unassignedFaces := SetImageUrl(unassignedFaces, id, url);
    }

    method DeleteUnassignedFaces(ids: set<Id>)
      modifies this
      ensures Snapshot() == DeleteUnassigned(old(Snapshot()), ids)
    {
      unassignedFaces := RemoveIds(unassignedFaces, ids);
    }

    method CreateEmployee(name: string, email: string) returns (id: Id)
      modifies this
      ensures id == old(nextId)
      ensures Snapshot() == InsertEmployee(old(Snapshot()), name, email)
    {
      id := nextId;
      employees := employees + [Employee(id, name, email)];
      nextId := nextId + 1;
    }

    method CreateFaceEmbedding(employeeId: Id, embedding: Embedding, imageUrl: Option<string>)
      modifies this
      ensures Snapshot() == InsertFaceEmbedding(old(Snapshot()), employeeId, embedding, imageUrl)
    {
      faceEmbeddings := faceEmbeddings + [FaceEmbedding(employeeId, embedding, imageUrl)];
    }

    method CreateAttendanceLog(employeeId: Id, score: real, now: Time)
      modifies this
      ensures Snapshot() == InsertAttendanceLog(old(Snapshot()), employeeId, score, now)
    {
      attendanceLogs := attendanceLogs + [AttendanceLog(employeeId, score, now)];
    }
  }

  /** The files under `public/faces`, by name. */
  class Disk {
    var files: set<string>

    constructor (files: set<string>)
      ensures this.files == files
    {
      this.files := files;
    }

    /** `fs.writeFileSync`. */
    method Write(name: string)
      modifies this
      ensures files == old(files) + {name}
    {
      files := files + {name};
    }

    /** `fs.unlinkSync`, which the callers only reach for a file that exists. */
    method Unlink(name: string)
      requires name in files
      modifies this
      ensures files == old(files) - {name}
    {
      files := files - {name};
    }
  }
}
