/**
 * The relational store the route handlers share: one sequence of rows per table, plus the
 * two serial sequences that hand out `students.student_id` and `professors.id`.
 */
module Database {
  import opened Records

  ghost predicate StudentIdsAscending(students: seq<Student>) {
    forall i, j :: 0 <= i < j < |students| ==> students[i].studentId < students[j].studentId
  }

  ghost predicate ProfessorIdsAscending(professors: seq<Professor>) {
    forall i, j :: 0 <= i < j < |professors| ==> professors[i].id < professors[j].id
  }

  /** An ascending table holds each key at most once: the key is a primary key. */
  lemma StudentKeysUnique(students: seq<Student>)
    requires StudentIdsAscending(students)
    ensures forall i, j :: 0 <= i < |students| && 0 <= j < |students| && students[i].studentId == students[j].studentId ==> i == j
  {
    forall i, j | 0 <= i < |students| && 0 <= j < |students| && students[i].studentId == students[j].studentId
      ensures i == j
    {
      if i < j || j < i {
        assert false;
      }
    }
  }

  lemma ProfessorKeysUnique(professors: seq<Professor>)
    requires ProfessorIdsAscending(professors)
    ensures forall i, j :: 0 <= i < |professors| && 0 <= j < |professors| && professors[i].id == professors[j].id ==> i == j
  {
    forall i, j | 0 <= i < |professors| && 0 <= j < |professors| && professors[i].id == professors[j].id
      ensures i == j
    {
      if i < j || j < i {
        assert false;
      }
    }
  }

  /** Taking one row out of a table keeps it ascending, and every remaining row was there before. */
  lemma DropKeepsStudentIdsAscending(students: seq<Student>, k: nat)
    requires k < |students| && StudentIdsAscending(students)
    ensures StudentIdsAscending(students[..k] + students[k + 1..])
    ensures forall s :: s in students[..k] + students[k + 1..] ==> s in students
  {
    var t := students[..k] + students[k + 1..];
    forall i, j | 0 <= i < j < |t| ensures t[i].studentId < t[j].studentId {
      var i' := if i < k then i else i + 1;
      var j' := if j < k then j else j + 1;
      assert t[i] == students[i'] && t[j] == students[j'];
    }
    forall s | s in t ensures s in students {
      var i :| 0 <= i < |t| && t[i] == s;
      assert t[i] == students[if i < k then i else i + 1];
    }
  }

  lemma DropKeepsProfessorIdsAscending(professors: seq<Professor>, k: nat)
    requires k < |professors| && ProfessorIdsAscending(professors)
    ensures ProfessorIdsAscending(professors[..k] + professors[k + 1..])
    ensures forall p :: p in professors[..k] + professors[k + 1..] ==> p in professors
  {
    var t := professors[..k] + professors[k + 1..];
    forall i, j | 0 <= i < j < |t| ensures t[i].id < t[j].id {
      var i' := if i < k then i else i + 1;
      var j' := if j < k then j else j + 1;
      assert t[i] == professors[i'] && t[j] == professors[j'];
    }
    forall p | p in t ensures p in professors {
      var i :| 0 <= i < |t| && t[i] == p;
      assert t[i] == professors[if i < k then i else i + 1];
    }
  }

  class Store {
    var students: seq<Student>
    var professors: seq<Professor>
    var enrollments: seq<Enrollment>
    var attendance: seq<Attendance>
    /** The next value of the `student_id` serial. */
    var nextStudentId: nat
    /** The next value of the `id` serial of `professors`. */
    var nextProfessorId: nat

    /**
     * Keys are handed out by the serials in increasing order and rows are kept in insertion
     * order, so each table is ascending by key and every key is below its serial's next value.
     */
    ghost predicate Valid()
      reads this
    {
      StudentIdsAscending(students) &&
      ProfessorIdsAscending(professors) &&
      (forall i :: 0 <= i < |students| ==> students[i].studentId < nextStudentId) &&
      (forall j :: 0 <= j < |professors| ==> professors[j].id < nextProfessorId)
    }

    /** An empty database; both serials start at 1. */
    constructor ()
      ensures Valid()
      ensures students == [] && professors == [] && enrollments == [] && attendance == []
      ensures nextStudentId == 1 && nextProfessorId == 1
    {
      students, professors, enrollments, attendance := [], [], [], [];
      nextStudentId, nextProfessorId := 1, 1;
    }
  }
}
