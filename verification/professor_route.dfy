/**
 * The professor router: the listing ordered by id, the read by id, the full-replace update and
 * the delete that returns the deleted row.
 */
module ProfessorRoute {
  import opened Records
  import opened Tables
  import opened Database

  /** The ids never decrease along the sequence: the order `ORDER BY id ASC` produces. */
  predicate IdsSorted(professors: seq<Professor>) {
    forall i, j :: 0 <= i < j < |professors| ==> professors[i].id <= professors[j].id
  }

  /** A row whose id is at most every id of a sorted sequence can be put in front of it. */
  lemma SortedCons(first: Professor, rest: seq<Professor>)
    requires IdsSorted(rest)
    requires forall i :: 0 <= i < |rest| ==> first.id <= rest[i].id
    ensures IdsSorted([first] + rest)
  {
    var r := [first] + rest;
    forall i, j | 0 <= i < j < |r| ensures r[i].id <= r[j].id {
      assert r[j] == rest[j - 1];
      if i > 0 {
        assert r[i] == rest[i - 1];
      }
    }
  }

  lemma SortedTail(sorted: seq<Professor>)
    requires sorted != [] && IdsSorted(sorted)
    ensures IdsSorted(sorted[1..])
  {
    var tail := sorted[1..];
    forall i, j | 0 <= i < j < |tail| ensures tail[i].id <= tail[j].id {
      assert tail[i] == sorted[i + 1] && tail[j] == sorted[j + 1];
    }
  }

  /** A lower bound on the ids of a sequence holds for every sequence drawn from its rows. */
  lemma LowerBoundCarries(b: int, s: seq<Professor>, t: seq<Professor>)
    requires forall i :: 0 <= i < |s| ==> b <= s[i].id
    requires multiset(t) <= multiset(s)
    ensures forall i :: 0 <= i < |t| ==> b <= t[i].id
  {
    forall i | 0 <= i < |t| ensures b <= t[i].id {
      assert t[i] in multiset(t);
      var j :| 0 <= j < |s| && s[j] == t[i];
    }
  }

  /** Places `p` in an id-sorted sequence after every row with a smaller id. */
  function InsertById(p: Professor, sorted: seq<Professor>): seq<Professor> {
    if sorted == [] || p.id <= sorted[0].id then [p] + sorted
    else [sorted[0]] + InsertById(p, sorted[1..])
  }

  /** Inserting adds exactly the one row and loses none. */
  lemma {:induction false} InsertByIdPermutes(p: Professor, sorted: seq<Professor>)
    ensures multiset(InsertById(p, sorted)) == multiset(sorted) + multiset{p}
  {
    if sorted != [] && p.id > sorted[0].id {
      InsertByIdPermutes(p, sorted[1..]);
      assert sorted == [sorted[0]] + sorted[1..];
    }
  }

  /** Inserting into an id-sorted sequence keeps it sorted. */
  lemma {:induction false} InsertByIdSorted(p: Professor, sorted: seq<Professor>)
    requires IdsSorted(sorted)
    ensures IdsSorted(InsertById(p, sorted))
  {
    if sorted == [] || p.id <= sorted[0].id {
      SortedCons(p, sorted);
    } else {
      var tail := sorted[1..];
      SortedTail(sorted);
      InsertByIdSorted(p, tail);
      InsertByIdPermutes(p, tail);
      var rest := InsertById(p, tail);
      assert multiset(rest) <= multiset(tail + [p]);
      LowerBoundCarries(sorted[0].id, tail + [p], rest);
      SortedCons(sorted[0], rest);
    }
  }

  /** `ORDER BY id ASC`: the rows of the table, rearranged so that the ids never decrease. */
  function SortById(professors: seq<Professor>): (r: seq<Professor>)
    ensures IdsSorted(r)
    ensures multiset(r) == multiset(professors)
  {
    if professors == [] then []
    else
      var rest := SortById(professors[1..]);
      InsertByIdSorted(professors[0], rest);
      InsertByIdPermutes(professors[0], rest);
      assert professors == [professors[0]] + professors[1..];
      InsertById(professors[0], rest)
  }

  /** A table whose ids already ascend strictly, as every valid database's does, is listed as it is stored. */
  lemma {:induction false} SortKeepsAscendingTable(professors: seq<Professor>)
    requires ProfessorIdsAscending(professors)
    ensures SortById(professors) == professors
  {
    if professors != [] {
      SortKeepsAscendingTable(professors[1..]);
      assert professors == [professors[0]] + professors[1..];
    }
  }

  /** The body of `GET /get-all-professors`. */
  datatype ProfessorList = ProfessorList(total: nat, data: seq<Professor>)

  /** `GET /get-all-professors`: every professor, ordered by ascending id, with their count. */
  method ListProfessors(db: Store) returns (r: Reply<ProfessorList>)
    ensures r.Success? && r.status == 200
    ensures r.body.total == |r.body.data| == |db.professors|
    ensures IdsSorted(r.body.data)
    ensures multiset(r.body.data) == multiset(db.professors)
    ensures db.Valid() ==> r.body.data == db.professors
  {
    var rows := SortById(db.professors);
    assert |rows| == |multiset(rows)| == |multiset(db.professors)| == |db.professors|;
    if db.Valid() {
      SortKeepsAscendingTable(db.professors);
    }
    return Success(200, ProfessorList(|rows|, rows));
  }

  /** `GET /get-professor/:id`. */
  method GetProfessor(db: Store, id: int) returns (r: Reply<Professor>)
    ensures (forall k :: 0 <= k < |db.professors| ==> db.professors[k].id != id) <==> r == Failure(404, ProfessorNotFound)
    ensures r.Success? ==> r.status == 200 && r.body in db.professors && r.body.id == id
    ensures r.Failure? ==> r == Failure(404, ProfessorNotFound)
  {
    var found := FirstWhere(db.professors, (p: Professor) => p.id == id);
    if found.None? {
      return Failure(404, ProfessorNotFound);
    }
    return Success(200, db.professors[found.value]);
  }

  /** The `SET` of the professor update: every column but the id takes the supplied value. */
  function ReplaceColumns(fullname: Field, tel: Field, username: Field, password: Field): Professor -> Professor {
    (p: Professor) => Professor(p.id, fullname, tel, username, password)
  }

  /**
   * `PUT /update-professor/:id`: every column but the id is replaced by the supplied value,
   * an absent one by NULL. Neither the phone format nor the username's uniqueness is checked.
   */
  method UpdateProfessor(db: Store, id: int, fullname: Field, tel: Field, username: Field, password: Field)
    returns (r: Reply<Professor>)
    requires db.Valid()
    modifies db
    ensures db.Valid()
    ensures db.students == old(db.students) && db.enrollments == old(db.enrollments)
    ensures db.attendance == old(db.attendance)
    ensures db.nextStudentId == old(db.nextStudentId) && db.nextProfessorId == old(db.nextProfessorId)
    ensures (forall k :: 0 <= k < |old(db.professors)| ==> old(db.professors)[k].id != id) ==>
      r == Failure(404, ProfessorNotFound) && unchanged(db)
    ensures forall k :: 0 <= k < |old(db.professors)| && old(db.professors)[k].id == id ==>
      && db.professors == old(db.professors)[k := Professor(id, fullname, tel, username, password)]
      && r == Success(200, Professor(id, fullname, tel, username, password))
  {
    var found := FirstWhere(db.professors, (p: Professor) => p.id == id);
    db.professors := UpdateWhere(db.professors, (p: Professor) => p.id == id,
                                 ReplaceColumns(fullname, tel, username, password));
    if found.None? {
      assert db.professors == old(db.professors);
      return Failure(404, ProfessorNotFound);
    }
    r := Success(200, db.professors[found.value]);
  }

  /** In a table ascending by id, deleting by the id row `k` holds takes out exactly row `k`. */
  lemma DeleteOneProfessor(professors: seq<Professor>, isKey: Professor -> bool, id: int, k: nat)
    requires ProfessorIdsAscending(professors)
    requires forall q :: isKey(q) <==> q.id == id
    requires k < |professors| && professors[k].id == id
    ensures Remove(professors, isKey) == professors[..k] + professors[k + 1..]
    ensures ProfessorIdsAscending(Remove(professors, isKey))
    ensures forall q :: q in Remove(professors, isKey) ==> q in professors
    ensures forall j :: 0 <= j < |professors| && professors[j].id == id ==> j == k
  {
    forall j | 0 <= j < |professors| && j != k ensures !isKey(professors[j]) {
      assert j < k || k < j;
    }
    RemoveSingle(professors, isKey, k);
    DropKeepsProfessorIdsAscending(professors, k);
  }

  /** `DELETE /delete-professor/:id`: removes the row with that id and sends it back. */
  method DeleteProfessor(db: Store, id: int) returns (r: Reply<Professor>)
    requires db.Valid()
    modifies db
    ensures db.Valid()
    ensures db.students == old(db.students) && db.enrollments == old(db.enrollments)
    ensures db.attendance == old(db.attendance)
    ensures db.nextStudentId == old(db.nextStudentId) && db.nextProfessorId == old(db.nextProfessorId)
    ensures (forall k :: 0 <= k < |old(db.professors)| ==> old(db.professors)[k].id != id) ==>
      r == Failure(404, ProfessorNotFound) && unchanged(db)
    ensures forall k :: 0 <= k < |old(db.professors)| && old(db.professors)[k].id == id ==>
      && r == Success(200, old(db.professors)[k])
      && db.professors == old(db.professors)[..k] + old(db.professors)[k + 1..]
  {
    var isKey := (p: Professor) => p.id == id;
    var found := FirstWhere(db.professors, isKey);
    if found.None? {
      return Failure(404, ProfessorNotFound);
    }
    var k := found.value;
    var deleted := db.professors[k];
    DeleteOneProfessor(db.professors, isKey, id, k);
    db.professors := Remove(db.professors, isKey);
    return Success(200, deleted);
  }

  /**
   * The update can break the username invariant the registrations keep, and writes a phone the
   * registrations would refuse: professor 2 is renamed to professor 1's username with phone `x`.
   */
  lemma UpdateCanDuplicateUsername()
    ensures var before := [Professor(1, None, None, Some("somchai"), None), Professor(2, None, None, Some("somsri"), None)];
      var after := UpdateWhere(before, (p: Professor) => p.id == 2, ReplaceColumns(None, Some("x"), Some("somchai"), None));
      UsernamesUnique([], before) && !UsernamesUnique([], after) &&
      after[1].tel == Some("x") && !IsTel("x")
  {
    var before := [Professor(1, None, None, Some("somchai"), None), Professor(2, None, None, Some("somsri"), None)];
    var after := UpdateWhere(before, (p: Professor) => p.id == 2, ReplaceColumns(None, Some("x"), Some("somchai"), None));
    assert after[0].username.Some? && after[0].username == after[1].username;
  }
}
