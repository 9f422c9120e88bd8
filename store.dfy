/**
 * The record store and the four request workflows that change or read it:
 * list (`index`), `register`, `view`, `update` and `delete`. The table is an
 * in-memory map from primary key to row; a database transaction is a write
 * to that map followed by a commit whose success is an input, and a rollback
 * puts back the table as it was before the write.
 */
module RecordStore {
  import opened Wrappers
  import opened PyText
  import opened Validation

  predicate IsLargest(m: int, ids: set<int>) {
    m in ids && forall k :: k in ids ==> k <= m
  }

  /** A set with no members is the empty set. */
  lemma EmptyOrHasMember(ids: set<int>)
    ensures ids == {} || exists x :: x in ids
  {
    if forall x :: x !in ids {
      assert ids == {};
    }
  }

  /** Every non-empty finite set of integers has a largest element. */
  lemma {:induction false} LargestExists(ids: set<int>)
    requires ids != {}
    ensures exists m :: IsLargest(m, ids)
  {
    EmptyOrHasMember(ids);
    var x :| x in ids;
    if ids == {x} {
      assert IsLargest(x, ids);
    } else {
      var rest := ids - {x};
      LargestExists(rest);
      var m :| IsLargest(m, rest);
      var top := if x <= m then m else x;
      forall k | k in ids
        ensures k <= top
      {
        if k != x {
          assert k in rest;
        }
      }
      assert IsLargest(top, ids);
    }
  }

  /** The largest key in use. */
  function LargestId(ids: set<int>): (m: int)
    requires ids != {}
    ensures IsLargest(m, ids)
  {
    LargestExists(ids);
    var m :| IsLargest(m, ids);
    m
  }

  /** The id the storage engine gives a new row (an SQLite `INTEGER PRIMARY
      KEY` without AUTOINCREMENT): 1 in an empty table, otherwise one more
      than the largest id in use. So it is never in use, and an id freed by
      deleting the newest row is given out again. */
  function NextRowId(t: Table): (id: int)
    ensures id !in t && forall k :: k in t ==> k < id
    ensures t == map[] ==> id == 1
    ensures t != map[] ==> id - 1 in t
  {
    if t == map[] then 1 else LargestId(t.Keys) + 1
  }

  class Store {
    /** The `Student` table. */
    var table: Table
    /** The email-format check of the validators library; its grammar is not
        part of this model. */
    const emailOk: string -> bool

    ghost predicate Valid()
      reads this
    {
      TableOk(table, emailOk)
    }

    /** `db.create_all()` on a fresh database: an empty table. */
    constructor (emailOk: string -> bool)
      ensures Valid()
      ensures table == map[] && this.emailOk == emailOk
    {
      table := map[];
      this.emailOk := emailOk;
    }

    /** `index`: every row of the table. */
    method All() returns (rows: Table)
      requires Valid()
      ensures rows == table
      ensures TableOk(rows, emailOk)
    {
      rows := table;
    }

    /** `view` (and the GET half of `update`): the row with this id, or
        NotFound. */
    method View(id: int) returns (r: Result<Student, Error>)
      ensures r.Success? <==> id in table
      ensures r.Success? ==> r.value == table[id]
      ensures r.Failure? ==> r.error == NotFound
    {
      if id in table {
        r := Success(table[id]);
      } else {
        r := Failure(NotFound);
      }
    }

    /** The POST half of `register`: validate with no row excluded, then add
        the row under a new id and commit. Returns the new row's id. */
    method Register(f: Form, commitOk: bool) returns (r: Result<int, Error>)
      requires Valid()
      modifies this
      ensures Valid()
      ensures var v := Validate(emailOk, old(table), f, None);
        && (v.Failure? ==> r == Failure(v.error))
        && (v.Success? && !commitOk ==> r == Failure(CommitFailed))
        && (v.Success? && commitOk ==> r == Success(NextRowId(old(table))) && table == old(table)[r.value := v.value])
      ensures r.Failure? ==> table == old(table)
      ensures r.Success? ==>
        && r.value !in old(table)
        && |table| == |old(table)| + 1
        && (forall k :: k in old(table) ==> k in table && table[k] == old(table)[k])
    {
      var v := Validate(emailOk, table, f, None);
      if v.Failure? {
        return Failure(v.error);
      }
      var before := table;
      var id := NextRowId(table);
      assert id >= 1 by {
        if table != map[] {
          assert id - 1 in table;
        }
      }
      InsertKeepsTable(emailOk, table, f, id);
      table := table[id := v.value];  // db.session.add
      if !commitOk {
        table := before;              // db.session.rollback
        return Failure(CommitFailed);
      }
      r := Success(id);
    }

    /** The POST half of `update`: NotFound for an unknown id; otherwise
        validate with this row excluded from the uniqueness checks, then
        overwrite all four fields of the row and commit. */
    method Update(id: int, f: Form, commitOk: bool) returns (r: Outcome<Error>)
      requires Valid()
      modifies this
      ensures Valid()
      ensures id !in old(table) ==> r == Fail(NotFound)
      ensures id in old(table) ==> var v := Validate(emailOk, old(table), f, Some(id));
        && (v.Failure? ==> r == Fail(v.error))
        && (v.Success? && !commitOk ==> r == Fail(CommitFailed))
        && (v.Success? && commitOk ==> r == Pass && table == old(table)[id := v.value])
      ensures r.Fail? ==> table == old(table)
      ensures r.Pass? ==>
        && table.Keys == old(table).Keys
        && (forall k :: k in old(table) && k != id ==> table[k] == old(table)[k])
    {
      if id !in table {
        return Fail(NotFound);      // get_or_404
      }
      var v := Validate(emailOk, table, f, Some(id));
      if v.Failure? {
        return Fail(v.error);
      }
      var before := table;
      OverwriteKeepsTable(emailOk, table, f, id);
      table := table[id := v.value];  // student.name = ...; ... student.age = int(age)
      if !commitOk {
        table := before;              // db.session.rollback
        return Fail(CommitFailed);
      }
      r := Pass;
    }

    /** `delete`: NotFound for an unknown id; otherwise remove that row and
        commit. */
    method Delete(id: int, commitOk: bool) returns (r: Outcome<Error>)
      requires Valid()
      modifies this
      ensures Valid()
      ensures id !in old(table) ==> r == Fail(NotFound)
      ensures id in old(table) && !commitOk ==> r == Fail(CommitFailed)
      ensures id in old(table) && commitOk ==> r == Pass
      ensures r.Fail? ==> table == old(table)
      ensures r.Pass? ==> table == old(table) - {id} && id !in table
    {
      if id !in table {
        return Fail(NotFound);      // get_or_404
      }
      var before := table;
      table := table - {id};          // db.session.delete
      if !commitOk {
        table := before;              // db.session.rollback
        return Fail(CommitFailed);
      }
      r := Pass;
    }
  }

  /** Overwriting the only row of a one-row table leaves a one-row table. */
  lemma OverwriteOnlyRow(t: Table, id: int, s: Student)
    requires t.Keys == {id}
    ensures t[id := s] == map[id := s]
  {
    assert t[id := s].Keys == {id};
  }

  /** The first half of an end-to-end run, for any
      well-formed student: register the student into an empty store, view
      them, update their age to one more, view again. Every commit succeeds.
      (Ann, "R1", "ann@x.com", 20 is one instance.) */
  method RegisterUpdateView(emailOk: string -> bool, s: Student)
    returns (store: Store, id: int, first: Result<Student, Error>, second: Result<Student, Error>)
    requires RowOk(s, emailOk)
    requires |NatToDecimal(s.age + 1)| <= MaxStrDigits
    ensures fresh(store) && store.Valid()
    ensures first == Success(s)
    ensures second == Success(s.(age := s.age + 1))
    ensures id == 1 && store.table == map[1 := s.(age := s.age + 1)]
  {
    store := new Store(emailOk);
    CurrentFormChecks(emailOk, map[], s, None);
    var reg := store.Register(CurrentForm(s), true);
    id := 1;
    assert reg == Success(id) && store.table == map[id := s];
    first := store.View(id);

    var s' := s.(age := s.age + 1);
    OnlyRowUpdateAccepted(emailOk, id, s, s');
    ghost var registered := store.table;
    var upd := store.Update(id, CurrentForm(s'), true);
    OverwriteOnlyRow(registered, id, s');
    second := store.View(id);
  }

  /** The second half of the end-to-end run: deleting a stored row succeeds,
      after which viewing it and deleting it again both report NotFound and
      the second delete changes nothing. */
  method DeleteTwice(store: Store, id: int)
    returns (first: Outcome<Error>, view: Result<Student, Error>, second: Outcome<Error>)
    requires store.Valid() && id in store.table
    modifies store
    ensures store.Valid()
    ensures first == Pass && view == Failure(NotFound) && second == Fail(NotFound)
    ensures store.table == old(store.table) - {id}
  {
    first := store.Delete(id, true);
    view := store.View(id);
    second := store.Delete(id, true);
  }
}
