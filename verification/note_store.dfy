/**
 * The `notes` table and the SQL statements the note handlers run on it,
 * stated as operations on a sequence of rows. Every statement is scoped by
 * the owner, `user_id=?`, which the handlers always take from the session.
 */
module NoteStore {
  import opened Wrappers
  import opened Text
  import opened Seqs

  /** A row of `notes(id, title, content, user_id, created_at)`. */
  datatype Note = Note(id: nat, title: string, content: string, owner: nat, createdAt: int)

  /** No two rows share an id (the primary key). */
  predicate DistinctIds(notes: seq<Note>) {
    forall i, j :: 0 <= i < j < |notes| ==> notes[i].id != notes[j].id
  }

  /** Ordered by `created_at DESC`. */
  predicate NewestFirst(notes: seq<Note>) {
    forall i, j :: 0 <= i < j < |notes| ==> notes[i].createdAt >= notes[j].createdAt
  }

  /** The condition `user_id=?`. */
  function OwnedBy(owner: nat): Note -> bool {
    (n: Note) => n.owner == owner
  }

  /** The condition `user_id=? AND title LIKE '%query%'`. */
  function OwnedWithTitle(owner: nat, query: string): Note -> bool {
    (n: Note) => n.owner == owner && Contains(n.title, query)
  }

  /** The condition `title LIKE '%query%'` alone. */
  function TitleHas(query: string): Note -> bool {
    (n: Note) => Contains(n.title, query)
  }

  /** The negation of `id=? AND user_id=?`: the rows a scoped delete keeps. */
  function NotTarget(id: nat, owner: nat): Note -> bool {
    (n: Note) => !(n.id == id && n.owner == owner)
  }

  // ---------------------------------------------------------------------
  // ORDER BY created_at DESC
  // ---------------------------------------------------------------------

  /** Places `n` in a newest-first sequence, ahead of the rows no newer than it. */
  function InsertByDate(n: Note, s: seq<Note>): (r: seq<Note>)
    ensures multiset(r) == multiset(s) + multiset{n}
  {
    if s == [] || n.createdAt >= s[0].createdAt then [n] + s
    else
      assert s == [s[0]] + s[1..];
      [s[0]] + InsertByDate(n, s[1..])
  }

  /** Inserting by date keeps a newest-first sequence newest first. */
  lemma {:induction false} InsertKeepsNewestFirst(n: Note, s: seq<Note>)
    requires NewestFirst(s)
    ensures NewestFirst(InsertByDate(n, s))
  {
    if s != [] && n.createdAt < s[0].createdAt {
      var rest := InsertByDate(n, s[1..]);
      InsertKeepsNewestFirst(n, s[1..]);
      forall x | x in rest ensures x.createdAt <= s[0].createdAt {
        assert x in multiset(rest);
        if x != n {
          assert x in multiset(s[1..]);
          HeadIsNewest(s, x);
        }
      }
      NewestFirstCons(s[0], rest);
    }
  }

  /** A row no older than every row of a newest-first sequence may head it. */
  lemma NewestFirstCons(x: Note, t: seq<Note>)
    requires NewestFirst(t)
    requires forall y | y in t :: y.createdAt <= x.createdAt
    ensures NewestFirst([x] + t)
  {
    forall i, j | 0 <= i < j < |[x] + t|
      ensures ([x] + t)[i].createdAt >= ([x] + t)[j].createdAt
    {
      if i == 0 {
        assert ([x] + t)[j] == t[j - 1];
        assert t[j - 1] in t;
      }
    }
  }

  /** `ORDER BY created_at DESC`: the same rows, newest first. */
  function SortNewestFirst(s: seq<Note>): (r: seq<Note>)
    ensures NewestFirst(r)
    ensures multiset(r) == multiset(s)
  {
    if s == [] then []
    else
      assert s == [s[0]] + s[1..];
      InsertKeepsNewestFirst(s[0], SortNewestFirst(s[1..]));
      InsertByDate(s[0], SortNewestFirst(s[1..]))
  }

  /** Every row of a newest-first sequence is no newer than its head. */
  lemma HeadIsNewest(s: seq<Note>, x: Note)
    requires NewestFirst(s) && x in s
    ensures x.createdAt <= s[0].createdAt
  {
    var j :| 0 <= j < |s| && s[j] == x;
  }

  /** Selecting rows from a newest-first sequence keeps it newest first. */
  lemma {:induction false} FilterKeepsNewestFirst(p: Note -> bool, s: seq<Note>)
    requires NewestFirst(s)
    ensures NewestFirst(Filter(p, s))
  {
    if s != [] {
      var t := s[1..];
      FilterKeepsNewestFirst(p, t);
      var rest := Filter(p, t);
      forall x | x in rest ensures x.createdAt <= s[0].createdAt {
        FilterMembers(p, t);
        HeadIsNewest(s, x);
      }
      FilterCons(p, s[0], t);
      assert s == [s[0]] + t;
      if p(s[0]) {
        NewestFirstCons(s[0], rest);
      } else {
        assert Filter(p, s) == rest;
      }
    }
  }

  /** A row older than the head is placed after the head. */
  lemma InsertAfterHead(n: Note, x: Note, t: seq<Note>)
    requires n.createdAt < x.createdAt
    ensures InsertByDate(n, [x] + t) == [x] + InsertByDate(n, t)
  {
    assert ([x] + t)[1..] == t;
  }

  /** Selecting after inserting a row is inserting the row, when selected, after selecting. */
  lemma {:induction false} FilterInsert(p: Note -> bool, n: Note, s: seq<Note>)
    requires NewestFirst(s)
    ensures Filter(p, InsertByDate(n, s)) == if p(n) then InsertByDate(n, Filter(p, s)) else Filter(p, s)
  {
    if s == [] || n.createdAt >= s[0].createdAt {
      FilterInsertAtHead(p, n, s);
    } else {
      FilterInsert(p, n, s[1..]);
      assert s == [s[0]] + s[1..];
      FilterInsertBehind(p, n, s[0], s[1..]);
    }
  }

  /** `FilterInsert` when `n` is newer than every row. */
  lemma FilterInsertAtHead(p: Note -> bool, n: Note, s: seq<Note>)
    requires NewestFirst(s)
    requires s == [] || n.createdAt >= s[0].createdAt
    ensures Filter(p, InsertByDate(n, s)) == if p(n) then InsertByDate(n, Filter(p, s)) else Filter(p, s)
  {
    FilterCons(p, n, s);
    var f := Filter(p, s);
    if f != [] {
      FilterMembers(p, s);
      assert f[0] in f;
      HeadIsNewest(s, f[0]);
    }
    if !p(n) {
      assert [] + f == f;
    }
  }

  /** `FilterInsert` when the head `x` is newer than `n`, given it for the tail `t`. */
  lemma FilterInsertBehind(p: Note -> bool, n: Note, x: Note, t: seq<Note>)
    requires n.createdAt < x.createdAt
    requires Filter(p, InsertByDate(n, t)) == if p(n) then InsertByDate(n, Filter(p, t)) else Filter(p, t)
    ensures Filter(p, InsertByDate(n, [x] + t))
      == if p(n) then InsertByDate(n, Filter(p, [x] + t)) else Filter(p, [x] + t)
  {
    InsertAfterHead(n, x, t);
    FilterCons(p, x, InsertByDate(n, t));
    FilterCons(p, x, t);
    if p(x) && p(n) {
      InsertAfterHead(n, x, Filter(p, t));
    } else if !p(x) {
      assert [] + Filter(p, t) == Filter(p, t);
      assert [] + Filter(p, InsertByDate(n, t)) == Filter(p, InsertByDate(n, t));
    }
  }

  /** Two sequences with the same multiset have the same members. */
  lemma SameMembers(a: seq<Note>, b: seq<Note>)
    requires multiset(a) == multiset(b)
    ensures forall n :: n in a <==> n in b
  {
    forall n ensures n in a <==> n in b {
      assert n in a <==> n in multiset(a);
      assert n in b <==> n in multiset(b);
    }
  }

  /** Selecting and ordering commute: a `WHERE` on the ordered rows is the
      ordered `WHERE`. */
  lemma {:induction false} FilterSort(p: Note -> bool, s: seq<Note>)
    ensures Filter(p, SortNewestFirst(s)) == SortNewestFirst(Filter(p, s))
  {
    if s != [] {
      var t := s[1..];
      assert s == [s[0]] + t;
      var ft := Filter(p, t);
      assert SortNewestFirst(s) == InsertByDate(s[0], SortNewestFirst(t));
      FilterSort(p, t);
      FilterInsert(p, s[0], SortNewestFirst(t));
      FilterCons(p, s[0], t);
      if p(s[0]) {
        assert Filter(p, s) == [s[0]] + ft;
        assert ([s[0]] + ft)[1..] == ft;
        assert SortNewestFirst([s[0]] + ft) == InsertByDate(s[0], SortNewestFirst(ft));
      } else {
        assert Filter(p, s) == [] + ft == ft;
      }
    }
  }

  // ---------------------------------------------------------------------
  // The statements
  // ---------------------------------------------------------------------

  /** `SELECT ... FROM notes WHERE user_id=? ORDER BY created_at DESC`:
      exactly the owner's rows, each as often as in the table, newest first. */
  function SelectNotesOf(notes: seq<Note>, owner: nat): (r: seq<Note>)
    ensures NewestFirst(r)
    ensures multiset(r) == multiset(Filter(OwnedBy(owner), notes))
    ensures forall n :: n in r <==> n in notes && n.owner == owner
  {
    var f := Filter(OwnedBy(owner), notes);
    FilterMembers(OwnedBy(owner), notes);
    SameMembers(SortNewestFirst(f), f);
    SortNewestFirst(f)
  }

  /** `SELECT * FROM notes WHERE id=? AND user_id=?`, first row: present
      exactly when the note exists and belongs to `owner`. */
  function SelectNote(notes: seq<Note>, id: nat, owner: nat): (r: Option<Note>)
    ensures r.Some? ==> r.value in notes && r.value.id == id && r.value.owner == owner
    ensures r.None? <==> forall n :: n in notes ==> !(n.id == id && n.owner == owner)
  {
    if notes == [] then None
    else if notes[0].id == id && notes[0].owner == owner then Some(notes[0])
    else SelectNote(notes[1..], id, owner)
  }

  /** `UPDATE notes SET title=?, content=? WHERE id=? AND user_id=?`: the
      matching rows get the new title and content and keep id, owner and
      creation time; every other row stays as it was. */
  function UpdateNoteRows(notes: seq<Note>, id: nat, owner: nat, title: string, content: string): (r: seq<Note>)
    ensures |r| == |notes|
    ensures forall i :: 0 <= i < |r| ==>
      r[i].id == notes[i].id && r[i].owner == notes[i].owner && r[i].createdAt == notes[i].createdAt
    ensures forall i :: 0 <= i < |r| && notes[i].id == id && notes[i].owner == owner ==>
      r[i].title == title && r[i].content == content
    ensures forall i :: 0 <= i < |r| && !(notes[i].id == id && notes[i].owner == owner) ==> r[i] == notes[i]
  {
    if notes == [] then []
    else
      var n := notes[0];
      [if n.id == id && n.owner == owner then n.(title := title, content := content) else n]
      + UpdateNoteRows(notes[1..], id, owner, title, content)
  }

  /** `DELETE FROM notes WHERE id=? AND user_id=?`: the table without the
      owner's note of that id, in the same order. */
  function DeleteNoteRows(notes: seq<Note>, id: nat, owner: nat): (r: seq<Note>)
    ensures forall n :: n in r <==> n in notes && !(n.id == id && n.owner == owner)
  {
    FilterMembers(NotTarget(id, owner), notes);
    Filter(NotTarget(id, owner), notes)
  }

  /** `SELECT ... WHERE user_id=? AND title LIKE '%query%' ORDER BY created_at
      DESC` when the stripped query is non-blank, and no rows otherwise. */
  function SearchNotesOf(notes: seq<Note>, owner: nat, query: string): (r: seq<Note>)
    ensures query == [] ==> r == []
    ensures query != [] ==> multiset(r) == multiset(Filter(OwnedWithTitle(owner, query), notes))
    ensures NewestFirst(r)
    ensures forall n :: n in r <==> query != [] && n in notes && n.owner == owner && Contains(n.title, query)
  {
    if query == [] then []
    else
      var f := Filter(OwnedWithTitle(owner, query), notes);
      FilterMembers(OwnedWithTitle(owner, query), notes);
      SameMembers(SortNewestFirst(f), f);
      SortNewestFirst(f)
  }

  // ---------------------------------------------------------------------
  // Properties of the statements
  // ---------------------------------------------------------------------

  /** A search returns the owner's listing filtered by title, in the same
      newest-first order. */
  lemma SearchIsFilteredListing(notes: seq<Note>, owner: nat, query: string)
    requires query != []
    ensures SearchNotesOf(notes, owner, query) == Filter(TitleHas(query), SelectNotesOf(notes, owner))
  {
    FilterSort(TitleHas(query), Filter(OwnedBy(owner), notes));
    FilterFilter(TitleHas(query), OwnedBy(owner), OwnedWithTitle(owner, query), notes);
  }

  /** Deleting twice is deleting once. */
  lemma DeleteIdempotent(notes: seq<Note>, id: nat, owner: nat)
    ensures DeleteNoteRows(DeleteNoteRows(notes, id, owner), id, owner) == DeleteNoteRows(notes, id, owner)
  {
    FilterIdempotent(NotTarget(id, owner), notes);
  }

  /** Deleting a missing note, or another user's note, changes nothing. */
  lemma DeleteAbsentIsNoop(notes: seq<Note>, id: nat, owner: nat)
    requires SelectNote(notes, id, owner).None?
    ensures DeleteNoteRows(notes, id, owner) == notes
  {
    FilterAll(NotTarget(id, owner), notes);
  }

  /** With distinct ids, deleting the owner's note at position `k` removes
      that row and no other, keeping the order of the rest. */
  lemma DeleteRemovesOnlyTarget(notes: seq<Note>, k: nat)
    requires DistinctIds(notes) && k < |notes|
    ensures DeleteNoteRows(notes, notes[k].id, notes[k].owner) == notes[..k] + notes[k + 1..]
  {
    FilterAllBut(NotTarget(notes[k].id, notes[k].owner), notes, k);
  }

  /** Updating a missing note, or another user's note, changes nothing. */
  lemma UpdateAbsentIsNoop(notes: seq<Note>, id: nat, owner: nat, title: string, content: string)
    requires SelectNote(notes, id, owner).None?
    ensures UpdateNoteRows(notes, id, owner, title, content) == notes
  {
    var r := UpdateNoteRows(notes, id, owner, title, content);
    forall i | 0 <= i < |notes| ensures r[i] == notes[i] {
      assert notes[i] in notes;
    }
  }

  /** A scoped delete keeps the ids distinct. */
  lemma {:induction false} DeleteKeepsDistinctIds(p: Note -> bool, notes: seq<Note>)
    requires DistinctIds(notes)
    ensures DistinctIds(Filter(p, notes))
  {
    if notes != [] {
      var t := notes[1..];
      assert notes == [notes[0]] + t;
      DeleteKeepsDistinctIds(p, t);
      FilterCons(p, notes[0], t);
      if p(notes[0]) {
        var rest := Filter(p, t);
        FilterMembers(p, t);
        forall y | y in rest ensures y.id != notes[0].id {
          var k :| 0 <= k < |t| && t[k] == y;
          assert notes[k + 1] == y;
        }
        DistinctIdsCons(notes[0], rest);
      } else {
        assert Filter(p, notes) == [] + Filter(p, t);
      }
    }
  }

  /** A row whose id no row of `t` has may head `t` with the ids kept distinct. */
  lemma DistinctIdsCons(x: Note, t: seq<Note>)
    requires DistinctIds(t) && forall y | y in t :: y.id != x.id
    ensures DistinctIds([x] + t)
  {
    var all := [x] + t;
    forall i, j | 0 <= i < j < |all| ensures all[i].id != all[j].id {
      assert all[j] == t[j - 1];
      if i > 0 {
        assert all[i] == t[i - 1];
      } else {
        assert t[j - 1] in t;
      }
    }
  }
}
