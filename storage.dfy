/** The employee table behind the repository interface: rows keyed by id
    and an identity generator handing out increasing ids. */
module Storage {
  import opened Wrappers

  /** An employee record; `id` and `email` may be null. */
  datatype Employee = Employee(id: Option<int>, firstName: string, lastName: string, email: Option<string>)

  /** The table's contents and the next id the generator hands out. */
  datatype Table = Table(rows: map<int, Employee>, nextId: int)

  /** The record with its id set. */
  function WithId(e: Employee, id: int): Employee {
    e.(id := Some(id))
  }

  /** Every row sits under its own id, and the generator is past every stored id. */
  ghost predicate WellFormed(t: Table) {
    forall k :: k in t.rows ==> k < t.nextId && t.rows[k].id == Some(k)
  }

  /** save: a record without an id is inserted under a fresh id; a record
      with an id is stored under that id, replacing what was there. The
      saved record (with its id) is returned. */
  function SaveRow(t: Table, e: Employee): (r: (Table, Employee))
    ensures r.1.id.Some?
    ensures e.id.Some? ==> r.1 == e
    ensures e.id.None? ==> r.1 == WithId(e, t.nextId)
    ensures r.0.rows == t.rows[r.1.id.value := r.1]
    ensures r.0.nextId > r.1.id.value && r.0.nextId >= t.nextId
  {
    match e.id
    case None =>
      var saved := WithId(e, t.nextId);
      (Table(t.rows[t.nextId := saved], t.nextId + 1), saved)
    case Some(k) =>
      (Table(t.rows[k := e], if k < t.nextId then t.nextId else k + 1), e)
  }

  /** save keeps the table well formed, and a record without an id gets
      an id that is not yet stored, so the table grows by one. */
  lemma SaveRowWellFormed(t: Table, e: Employee)
    requires WellFormed(t)
    ensures WellFormed(SaveRow(t, e).0)
    ensures e.id.None? ==> SaveRow(t, e).1.id.value !in t.rows && |SaveRow(t, e).0.rows| == |t.rows| + 1
  {
  }

  /** saveAll: the records saved one after the other, in list order. */
  function SaveRows(t: Table, es: seq<Employee>): (r: (Table, seq<Employee>))
    decreases |es|
  {
    if es == [] then (t, [])
    else
      var before := SaveRows(t, es[..|es| - 1]);
      var after := SaveRow(before.0, es[|es| - 1]);
      (after.0, before.1 + [after.1])
  }

  /** Some stored record carries this email. */
  predicate EmailTaken(rows: map<int, Employee>, email: string) {
    exists k | k in rows :: rows[k].email == Some(email)
  }

  /** Two distinct stored records carry this email. */
  predicate EmailShared(rows: map<int, Employee>, email: string) {
    exists k1, k2 | k1 in rows && k2 in rows :: k1 != k2 && rows[k1].email == Some(email) && rows[k2].email == Some(email)
  }

  /** The outcome of a single-result query: no match, one match, or more
      than one, which the query reports as an error. */
  datatype Lookup = NoMatch | OneMatch(value: Employee) | ManyMatches

  /** `r` lists every stored record exactly once. */
  ghost predicate ListsAll(r: seq<Employee>, rows: map<int, Employee>) {
    && |r| == |rows|
    && (forall i :: 0 <= i < |r| ==> r[i].id.Some? && r[i].id.value in rows && rows[r[i].id.value] == r[i])
    && (forall k :: k in rows ==> rows[k] in r)
    && (forall i, j :: 0 <= i < j < |r| ==> r[i] != r[j])
  }

  /** `query` occurs in `s` starting at index `i`. */
  predicate OccursAt(s: string, query: string, i: int) {
    0 <= i <= |s| - |query| && s[i..i + |query|] == query
  }

  /** `query` occurs in `s` as a contiguous run (case-sensitive; the empty query occurs everywhere). */
  predicate ContainsText(s: string, query: string) {
    exists i | 0 <= i <= |s| - |query| :: OccursAt(s, query, i)
  }

  predicate AllWithoutId(es: seq<Employee>) {
    forall i :: 0 <= i < |es| ==> es[i].id.None?
  }

  /** Saving id-less records numbers them in list order from the
      generator's next id, and advances the generator past them. */
  lemma {:induction false} SaveRowsNumbering(t: Table, es: seq<Employee>)
    requires AllWithoutId(es)
    ensures SaveRows(t, es).0.nextId == t.nextId + |es|
    ensures |SaveRows(t, es).1| == |es|
    ensures forall i :: 0 <= i < |es| ==> SaveRows(t, es).1[i] == WithId(es[i], t.nextId + i)
    decreases |es|
  {
    if es != [] {
      var init := es[..|es| - 1];
      assert AllWithoutId(init);
      SaveRowsNumbering(t, init);
    }
  }

  /** Saving keeps the table well formed. */
  lemma {:induction false} SaveRowsWellFormed(t: Table, es: seq<Employee>)
    requires WellFormed(t)
    ensures WellFormed(SaveRows(t, es).0)
    decreases |es|
  {
    if es != [] {
      SaveRowsWellFormed(t, es[..|es| - 1]);
    }
  }

  /** Saving id-less records adds exactly the ids they were numbered with. */
  lemma {:induction false} SaveRowsKeys(t: Table, es: seq<Employee>)
    requires WellFormed(t) && AllWithoutId(es)
    ensures forall k :: k in SaveRows(t, es).0.rows <==> k in t.rows || t.nextId <= k < t.nextId + |es|
    decreases |es|
  {
    if es != [] {
      var init := es[..|es| - 1];
      assert AllWithoutId(init);
      SaveRowsKeys(t, init);
      SaveRowsNumbering(t, init);
    }
  }

  /** Saving id-less records leaves every stored row alone. */
  lemma {:induction false} SaveRowsKeepsStored(t: Table, es: seq<Employee>)
    requires WellFormed(t) && AllWithoutId(es)
    ensures forall k :: k in t.rows ==> k in SaveRows(t, es).0.rows && SaveRows(t, es).0.rows[k] == t.rows[k]
    decreases |es|
  {
    if es != [] {
      var init := es[..|es| - 1];
      assert AllWithoutId(init);
      SaveRowsKeepsStored(t, init);
      SaveRowsNumbering(t, init);
    }
  }

  /** Saving id-less records puts each one under the id it was numbered with. */
  lemma {:induction false} SaveRowsAppends(t: Table, es: seq<Employee>)
    requires AllWithoutId(es)
    ensures forall k :: t.nextId <= k < t.nextId + |es| ==>
      k in SaveRows(t, es).0.rows && SaveRows(t, es).0.rows[k] == WithId(es[k - t.nextId], k)
    decreases |es|
  {
    if es != [] {
      var init := es[..|es| - 1];
      assert AllWithoutId(init);
      SaveRowsAppends(t, init);
      SaveRowsNumbering(t, init);
      var t1 := SaveRows(t, init).0;
      var rows' := t1.rows[t1.nextId := WithId(es[|es| - 1], t1.nextId)];
      assert SaveRows(t, es).0.rows == rows';
      forall k | t.nextId <= k < t.nextId + |es| ensures k in rows' && rows'[k] == WithId(es[k - t.nextId], k) {
        if k < t1.nextId {
          assert init[k - t.nextId] == es[k - t.nextId];
        }
      }
    }
  }

  /** Saving id-less records grows the table by exactly their number. */
  lemma {:induction false} SaveRowsCount(t: Table, es: seq<Employee>)
    requires WellFormed(t) && AllWithoutId(es)
    ensures |SaveRows(t, es).0.rows| == |t.rows| + |es|
    decreases |es|
  {
    if es != [] {
      var init := es[..|es| - 1];
      assert AllWithoutId(init);
      SaveRowsCount(t, init);
      SaveRowsWellFormed(t, init);
    }
  }

  lemma HasMember(s: set<int>)
    requires s != {}
    ensures exists x :: x in s
  {
    if !exists x :: x in s {
      assert false;
    }
  }

  /** Records read off a duplicate-free list of every stored id list every stored record exactly once. */
  lemma IdsListAll(rows: map<int, Employee>, ids: seq<int>, r: seq<Employee>)
    requires |r| == |ids| == |rows|
    requires forall i :: 0 <= i < |ids| ==> ids[i] in rows && r[i] == rows[ids[i]] && r[i].id == Some(ids[i])
    requires forall k :: k in rows ==> k in ids
    requires forall i, j :: 0 <= i < j < |ids| ==> ids[i] != ids[j]
    ensures ListsAll(r, rows)
  {
    forall k | k in rows ensures rows[k] in r {
      var i :| 0 <= i < |ids| && ids[i] == k;
      assert r[i] == rows[k];
    }
  }

  /** The repository: the table held as fields that save, saveAll and
      deleteById update in place. */
  class EmployeeRepository {
    var rows: map<int, Employee>
    var nextId: int

    function Snapshot(): Table
      reads this
    {
      Table(rows, nextId)
    }

    ghost predicate Valid()
      reads this
    {
      WellFormed(Snapshot())
    }

    constructor ()
      ensures Valid() && rows == map[] && nextId == 1
    {
      rows := map[];
      nextId := 1;
    }

    method Save(e: Employee) returns (saved: Employee)
      requires Valid()
      modifies this
      ensures Valid()
      ensures (Snapshot(), saved) == SaveRow(old(Snapshot()), e)
    {
      var r := SaveRow(Snapshot(), e);
      rows, nextId, saved := r.0.rows, r.0.nextId, r.1;
    }

    method SaveAll(es: seq<Employee>) returns (saved: seq<Employee>)
      requires Valid()
      modifies this
      ensures Valid()
      ensures (Snapshot(), saved) == SaveRows(old(Snapshot()), es)
    {
      saved := [];
      var i := 0;
      while i < |es|
        invariant 0 <= i <= |es|
        invariant Valid()
        invariant (Snapshot(), saved) == SaveRows(old(Snapshot()), es[..i])
      {
        assert es[..i + 1][..i] == es[..i];
        var s := Save(es[i]);
        saved := saved + [s];
        i := i + 1;
      }
      assert es[..i] == es;
    }

    method DeleteById(id: int)
      requires Valid()
      modifies this
      ensures Valid()
      ensures rows == old(rows) - {id} && nextId == old(nextId)
    {
      rows := rows - {id};
    }

    predicate ExistsById(id: int)
      reads this
    {
      id in rows
    }

    predicate ExistsByEmail(email: string)
      reads this
    {
      EmailTaken(rows, email)
    }

    function FindById(id: int): Option<Employee>
      reads this
    {
      if id in rows then Some(rows[id]) else None
    }

    function Count(): nat
      reads this
    {
      |rows|
    }

    /** findByEmail: a single-result query. It finds the one stored record
        with that email, finds nothing, or reports that several match. */
    method FindByEmail(email: string) returns (r: Lookup)
      ensures r.NoMatch? <==> !ExistsByEmail(email)
      ensures r.ManyMatches? <==> EmailShared(rows, email)
      ensures r.OneMatch? ==> r.value.email == Some(email) && exists k :: k in rows && rows[k] == r.value
    {
      if ExistsByEmail(email) {
        var k :| k in rows && rows[k].email == Some(email);
        if exists k2 | k2 in rows :: k2 != k && rows[k2].email == Some(email) {
          r := ManyMatches;
        } else {
          r := OneMatch(rows[k]);
        }
      } else {
        r := NoMatch;
      }
    }

    /** findAll: every stored record exactly once, in no particular order. */
    method FindAll() returns (r: seq<Employee>)
      requires Valid()
      ensures ListsAll(r, rows)
    {
      r := [];
      ghost var ids: seq<int> := [];
      var left := rows.Keys;
      while left != {}
        invariant left <= rows.Keys
        invariant |r| == |ids| && |r| + |left| == |rows|
        invariant forall i :: 0 <= i < |ids| ==> ids[i] in rows && ids[i] !in left && r[i] == rows[ids[i]] && r[i].id == Some(ids[i])
        invariant forall k :: k in rows && k !in left ==> k in ids
        invariant forall i, j :: 0 <= i < j < |ids| ==> ids[i] != ids[j]
        decreases left
      {
        HasMember(left);
        var id :| id in left;
        r, ids := r + [rows[id]], ids + [id];
        left := left - {id};
      }
      IdsListAll(rows, ids, r);
    }

    /** findByFirstNameContaining: the stored records whose first name contains the query. */
    method FindByFirstNameContaining(query: string) returns (r: seq<Employee>)
      requires Valid()
      ensures forall i :: 0 <= i < |r| ==> r[i] in rows.Values && ContainsText(r[i].firstName, query)
      ensures forall k :: k in rows && ContainsText(rows[k].firstName, query) ==> rows[k] in r
    {
      var all := FindAll();
      r := [];
      var i := 0;
      while i < |all|
        invariant 0 <= i <= |all|
        invariant forall j :: 0 <= j < |r| ==> r[j] in all[..i] && ContainsText(r[j].firstName, query)
        invariant forall j :: 0 <= j < i && ContainsText(all[j].firstName, query) ==> all[j] in r
      {
        if ContainsText(all[i].firstName, query) {
          r := r + [all[i]];
        }
        i := i + 1;
      }
      forall j | 0 <= j < |r| ensures r[j] in rows.Values {
        var m :| 0 <= m < |all| && all[m] == r[j];
        assert rows[all[m].id.value] == r[j];
      }
    }
  }
}
