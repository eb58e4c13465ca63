/** The generic repository (Shared/Repositories/BaseRepository.cs): Create, GetAll, GetOne,
    Update, Delete and Exists over one table, every store failure folded into `None` or
    `false`. A table is a sequence of rows in store order plus the next identity value. The
    store rejects a row whose key is already taken or that collides with another row on a
    unique index; `fault` stands for the persistence engine throwing during the call. */
module Repositories {
  import opened Wrappers

  /** What the store knows about one table: the primary key and how to set it, whether the
      store generates the key when the row carries the default value 0, and which pairs of
      rows collide on a unique index. */
  datatype Schema<!T> = Schema(key: T -> int, withKey: (T, int) -> T, generated: bool, clash: (T, T) -> bool)

  datatype Table<T> = Table(rows: seq<T>, nextKey: int)

  /** The state after an operation together with what the operation returned. */
  datatype Step<S, R> = Step(state: S, result: R)

  /** Setting a key and reading it back agree. */
  ghost predicate Lawful<T(!new)>(s: Schema<T>)
  {
    forall e: T, k: int :: s.key(s.withKey(e, k)) == k
  }

  /** What the store guarantees of every table: keys below the identity counter, never the
      default key where the store generates keys, no two rows with one key, and no two rows
      colliding on a unique index. */
  ghost predicate Consistent<T(!new)>(s: Schema<T>, t: Table<T>)
  {
    && Lawful(s)
    && t.nextKey >= 1
    && (forall i :: 0 <= i < |t.rows| ==> s.key(t.rows[i]) < t.nextKey)
    && (s.generated ==> forall i :: 0 <= i < |t.rows| ==> s.key(t.rows[i]) != 0)
    && (forall i, j :: 0 <= i < |t.rows| && 0 <= j < |t.rows| && i != j ==>
          s.key(t.rows[i]) != s.key(t.rows[j]) && !s.clash(t.rows[i], t.rows[j]))
  }

  /** The index of the first row satisfying `p` (FirstOrDefault); FirstIndexSpec adds that
      no earlier row matches and that None means no row does. */
  function FirstIndex<T>(rows: seq<T>, p: T -> bool): (r: Option<nat>)
    ensures r.Some? ==> r.value < |rows| && p(rows[r.value])
    decreases |rows|
  {
    if |rows| == 0 then None
    else if p(rows[0]) then Some(0)
    else match FirstIndex(rows[1..], p)
      case None => None
      case Some(i) => Some(i + 1)
  }

  /** FirstIndex finds a matching row with no match before it, and finds none exactly when no
      row matches. */
  lemma {:induction false} FirstIndexSpec<T>(rows: seq<T>, p: T -> bool)
    ensures var r := FirstIndex(rows, p);
      && (r.Some? ==> forall j :: 0 <= j < r.value ==> !p(rows[j]))
      && (r.None? <==> forall j :: 0 <= j < |rows| ==> !p(rows[j]))
    decreases |rows|
  {
    if |rows| > 0 && !p(rows[0]) {
      FirstIndexSpec(rows[1..], p);
      assert forall j :: 0 < j < |rows| ==> rows[j] == rows[1..][j - 1];
    }
  }

  /** The row as the store inserts it: a default key is replaced by the next identity value
      when the store generates keys. */
  function Stamp<T>(s: Schema<T>, t: Table<T>, e: T): T
  {
    if s.generated && s.key(e) == 0 then s.withKey(e, t.nextKey) else e
  }

  /** No stored row has `e`'s key or collides with `e` on a unique index. */
  predicate Admits<T>(s: Schema<T>, rows: seq<T>, e: T)
  {
    forall i :: 0 <= i < |rows| ==> s.key(rows[i]) != s.key(e) && !s.clash(rows[i], e) && !s.clash(e, rows[i])
  }

  /** No row other than the one at `i` collides with `e` on a unique index. */
  predicate AdmitsAt<T>(s: Schema<T>, rows: seq<T>, i: nat, e: T)
  {
    forall j :: 0 <= j < |rows| && j != i ==> !s.clash(rows[j], e) && !s.clash(e, rows[j])
  }

  function Max(a: int, b: int): int { if a < b then b else a }

  // ---- the three writes, as functions of the table ----

  /** The key an entity object carries after Create: the stored key, or its default 0 when
      the Create was rejected. */
  function KeyAfter<T>(s: Schema<T>, created: Option<T>): int
  {
    if created.Some? then s.key(created.value) else 0
  }

  /** Create (BaseRepository.cs:17-32): Add then SaveChanges; the stored row, or None. */
  function CreateStep<T>(s: Schema<T>, t: Table<T>, e: T, fault: bool): Step<Table<T>, Option<T>>
  {
    var stored := Stamp(s, t, e);
    if fault || !Admits(s, t.rows, stored) then Step(t, None)
    else Step(Table(t.rows + [stored], Max(t.nextKey, s.key(stored) + 1)), Some(stored))
  }

  /** Update (BaseRepository.cs:63-79): SetValues copies every scalar of `e` onto the first
      matching row. Copying a different key value onto a tracked row, or a value that collides
      with another row on a unique index, throws. */
  function UpdateStep<T>(s: Schema<T>, t: Table<T>, p: T -> bool, e: T, fault: bool): Step<Table<T>, Option<T>>
  {
    if fault then Step(t, None)
    else match FirstIndex(t.rows, p)
      case None => Step(t, None)
      case Some(i) =>
        if s.key(e) != s.key(t.rows[i]) || !AdmitsAt(s, t.rows, i, e) then Step(t, None)
        else Step(t.(rows := t.rows[i := e]), Some(e))
  }

  /** Delete (BaseRepository.cs:80-95): removes the first matching row. */
  function DeleteStep<T>(t: Table<T>, p: T -> bool, fault: bool): Step<Table<T>, bool>
  {
    if fault then Step(t, false)
    else match FirstIndex(t.rows, p)
      case None => Step(t, false)
      case Some(i) => Step(t.(rows := t.rows[..i] + t.rows[i + 1..]), true)
  }

  // ---- the three reads ----

  /** GetAll (BaseRepository.cs:34-47). The contract is the pass-through itself: the rows as
      stored, or None when the store throws. */
  function GetAll<T>(t: Table<T>, fault: bool): (r: Option<seq<T>>)
    ensures r.Some? <==> !fault
    ensures r.Some? ==> r.value == t.rows
  {
    if fault then None else Some(t.rows)
  }

  /** GetOne (BaseRepository.cs:48-61): the first row satisfying `p` (FirstOrDefaultAsync). */
  function GetOne<T>(t: Table<T>, p: T -> bool, fault: bool): Option<T>
  {
    if fault then None
    else match FirstIndex(t.rows, p)
      case None => None
      case Some(i) => Some(t.rows[i])
  }

  /** GetOne returns None exactly when the store throws or no row satisfies `p`; otherwise
      the first row that does. */
  lemma GetOneFindsFirst<T>(t: Table<T>, p: T -> bool, fault: bool)
    ensures var r := GetOne(t, p, fault);
      && (r.None? <==> fault || forall j :: 0 <= j < |t.rows| ==> !p(t.rows[j]))
      && (r.Some? ==> exists i :: 0 <= i < |t.rows| && t.rows[i] == r.value && p(r.value) &&
                                  forall j :: 0 <= j < i ==> !p(t.rows[j]))
  {
    FirstIndexSpec(t.rows, p);
  }

  /** Exists (BaseRepository.cs:97-106): AnyAsync. */
  function Exists<T>(t: Table<T>, p: T -> bool, fault: bool): bool
  {
    !fault && FirstIndex(t.rows, p).Some?
  }

  /** Exists holds exactly when the store answers and some row satisfies `p`. */
  lemma ExistsIff<T>(t: Table<T>, p: T -> bool, fault: bool)
    ensures Exists(t, p, fault) <==> !fault && exists j :: 0 <= j < |t.rows| && p(t.rows[j])
  {
    FirstIndexSpec(t.rows, p);
  }

  /** The row whose key equals a (nullable) foreign key, as `Include` attaches it. */
  function Lookup<T>(s: Schema<T>, t: Table<T>, fk: Option<int>): Option<T>
  {
    if fk.None? then None
    else match FirstIndex(t.rows, (x: T) => s.key(x) == fk.value)
      case None => None
      case Some(i) => Some(t.rows[i])
  }

  /** Lookup attaches a stored row carrying the foreign key, and attaches nothing exactly when
      the key is null or no stored row carries it. */
  lemma LookupFinds<T>(s: Schema<T>, t: Table<T>, fk: Option<int>)
    ensures var r := Lookup(s, t, fk);
      && (r.Some? ==> fk.Some? && s.key(r.value) == fk.value && r.value in t.rows)
      && (r.None? <==> fk.None? || forall j :: 0 <= j < |t.rows| ==> s.key(t.rows[j]) != fk.value)
  {
    if fk.Some? {
      FirstIndexSpec(t.rows, (x: T) => s.key(x) == fk.value);
    }
  }

  // ---- what the writes promise ----

  /** Create stores the given row (with a generated key when it carried the default one)
      at the end of the table and returns it; a rejected or failed Create writes nothing.
      It is rejected exactly when the store throws or the row's key or unique field is taken;
      a generated key is always fresh. */
  lemma CreateAppends<T(!new)>(s: Schema<T>, t: Table<T>, e: T, fault: bool)
    requires Consistent(s, t)
    ensures var r := CreateStep(s, t, e, fault);
      && (r.result.Some? ==> r.state.rows == t.rows + [r.result.value])
      && (r.result.Some? && !(s.generated && s.key(e) == 0) ==> r.result.value == e)
      && (r.result.Some? && s.generated && s.key(e) == 0 ==>
            r.result.value == s.withKey(e, t.nextKey) &&
            s.key(r.result.value) != 0 && forall j :: 0 <= j < |t.rows| ==> s.key(t.rows[j]) != s.key(r.result.value))
      && (r.result.None? ==> r.state == t)
      && (r.result.None? <==>
            (fault ||
             exists j :: 0 <= j < |t.rows| &&
               (s.key(t.rows[j]) == s.key(Stamp(s, t, e)) || s.clash(t.rows[j], Stamp(s, t, e)) || s.clash(Stamp(s, t, e), t.rows[j]))))
    ensures s.generated && s.key(e) == 0 ==>
      (CreateStep(s, t, e, fault).result.None? <==>
         fault || exists j :: 0 <= j < |t.rows| && (s.clash(t.rows[j], Stamp(s, t, e)) || s.clash(Stamp(s, t, e), t.rows[j])))
  {
  }

  lemma CreateKeepsConsistent<T(!new)>(s: Schema<T>, t: Table<T>, e: T, fault: bool)
    requires Consistent(s, t)
    ensures Consistent(s, CreateStep(s, t, e, fault).state)
  {
    var r := CreateStep(s, t, e, fault);
    if r.result.Some? {
      var x := r.result.value;
      var rows' := r.state.rows;
      assert Admits(s, t.rows, x);
      assert s.generated && s.key(e) == 0 ==> s.key(x) == t.nextKey;
      forall i, j | 0 <= i < |rows'| && 0 <= j < |rows'| && i != j
        ensures s.key(rows'[i]) != s.key(rows'[j]) && !s.clash(rows'[i], rows'[j])
      {
        if i == |t.rows| {
          assert rows'[j] == t.rows[j];
        } else if j == |t.rows| {
          assert rows'[i] == t.rows[i];
        } else {
          assert rows'[i] == t.rows[i] && rows'[j] == t.rows[j];
        }
      }
    }
  }

  /** Update overwrites the first matching row with the given values and returns them,
      leaving every other row as it was; when no row matches it writes nothing. */
  lemma UpdateOverwritesFirst<T>(s: Schema<T>, t: Table<T>, p: T -> bool, e: T, fault: bool)
    ensures var r := UpdateStep(s, t, p, e, fault);
      && (r.result.None? ==> r.state == t)
      && ((forall j :: 0 <= j < |t.rows| ==> !p(t.rows[j])) ==> r.result.None?)
      && (r.result.Some? ==>
            (r.result.value == e && !fault &&
             exists i :: 0 <= i < |t.rows| && p(t.rows[i]) && (forall j :: 0 <= j < i ==> !p(t.rows[j])) &&
               s.key(t.rows[i]) == s.key(e) && r.state == t.(rows := t.rows[i := e])))
      && (!fault && FirstIndex(t.rows, p).Some? ==>
            var i := FirstIndex(t.rows, p).value;
            r.result.Some? <==> s.key(e) == s.key(t.rows[i]) && AdmitsAt(s, t.rows, i, e))
  {
    FirstIndexSpec(t.rows, p);
  }

  lemma UpdateKeepsConsistent<T(!new)>(s: Schema<T>, t: Table<T>, p: T -> bool, e: T, fault: bool)
    requires Consistent(s, t)
    ensures Consistent(s, UpdateStep(s, t, p, e, fault).state)
  {
    var r := UpdateStep(s, t, p, e, fault);
    if r.result.Some? {
      var i := FirstIndex(t.rows, p).value;
      var rows' := r.state.rows;
      forall a, b | 0 <= a < |rows'| && 0 <= b < |rows'| && a != b
        ensures s.key(rows'[a]) != s.key(rows'[b]) && !s.clash(rows'[a], rows'[b])
      {
        if a == i {
          assert rows'[b] == t.rows[b];
        } else if b == i {
          assert rows'[a] == t.rows[a];
        } else {
          assert rows'[a] == t.rows[a] && rows'[b] == t.rows[b];
        }
      }
    }
  }

  /** Delete removes exactly the first matching row and reports true; when nothing matches
      (or the store throws) it reports false and the table is unchanged. */
  lemma DeleteRemovesFirst<T>(t: Table<T>, p: T -> bool, fault: bool)
    ensures var r := DeleteStep(t, p, fault);
      && (r.result <==> !fault && exists j :: 0 <= j < |t.rows| && p(t.rows[j]))
      && (!r.result ==> r.state == t)
      && (r.result ==>
            (exists i :: 0 <= i < |t.rows| && p(t.rows[i]) && (forall j :: 0 <= j < i ==> !p(t.rows[j])) &&
               r.state == t.(rows := t.rows[..i] + t.rows[i + 1..])))
  {
    FirstIndexSpec(t.rows, p);
  }

  /** The rows left after removing index `i`, position by position. */
  lemma RemovedAt<T>(rows: seq<T>, i: nat, j: nat)
    requires i < |rows| && j < |rows| - 1
    ensures (rows[..i] + rows[i + 1..])[j] == if j < i then rows[j] else rows[j + 1]
  {
  }

  lemma DeleteKeepsConsistent<T(!new)>(s: Schema<T>, t: Table<T>, p: T -> bool, fault: bool)
    requires Consistent(s, t)
    ensures Consistent(s, DeleteStep(t, p, fault).state)
  {
    var r := DeleteStep(t, p, fault);
    if r.result {
      var i := FirstIndex(t.rows, p).value;
      var rows' := r.state.rows;
      assert |rows'| == |t.rows| - 1;
      forall a | 0 <= a < |rows'|
        ensures rows'[a] == t.rows[if a < i then a else a + 1]
      {
        RemovedAt(t.rows, i, a);
      }
    }
  }

  // ---- reads after writes ----

  /** After a Create, GetOne with a predicate the created row satisfies finds a row that
      satisfies it, and finds exactly the created row when no earlier row satisfied it. */
  lemma CreateThenGetOne<T>(s: Schema<T>, t: Table<T>, e: T, p: T -> bool)
    requires CreateStep(s, t, e, false).result.Some?
    requires p(CreateStep(s, t, e, false).result.value)
    ensures var x := CreateStep(s, t, e, false).result.value;
            var got := GetOne(CreateStep(s, t, e, false).state, p, false);
      && got.Some? && p(got.value)
      && ((forall j :: 0 <= j < |t.rows| ==> !p(t.rows[j])) ==> got == Some(x))
      && Exists(CreateStep(s, t, e, false).state, p, false)
  {
    var r := CreateStep(s, t, e, false);
    var x := r.result.value;
    assert r.state.rows[|t.rows|] == x;
    FirstIndexSpec(r.state.rows, p);
    FirstIndexSpec(t.rows, p);
    GetOneFindsFirst(r.state, p, false);
    ExistsIff(r.state, p, false);
  }

  /** When at most one row satisfies `p` (a key or unique-field equality on a consistent
      table), no row satisfies it after a Delete by `p` succeeds. */
  lemma DeleteThenNotExists<T>(t: Table<T>, p: T -> bool)
    requires forall i, j :: 0 <= i < |t.rows| && 0 <= j < |t.rows| && p(t.rows[i]) && p(t.rows[j]) ==> i == j
    ensures !Exists(DeleteStep(t, p, false).state, p, false)
  {
    var r := DeleteStep(t, p, false);
    if r.result {
      var i := FirstIndex(t.rows, p).value;
      forall a | 0 <= a < |r.state.rows| ensures !p(r.state.rows[a]) {
        RemovedAt(t.rows, i, a);
      }
    }
  }

  /** On a consistent table a Delete whose filter is "the key equals k" leaves exactly the
      rows with other keys. */
  lemma DeleteByKey<T(!new)>(s: Schema<T>, t: Table<T>, p: T -> bool, k: int)
    requires Consistent(s, t)
    requires forall x :: p(x) <==> s.key(x) == k
    ensures forall x :: x in DeleteStep(t, p, false).state.rows <==> x in t.rows && s.key(x) != k
    ensures DeleteStep(t, p, false).state.nextKey == t.nextKey
  {
    DeleteRemovesFirst(t, p, false);
    var r := DeleteStep(t, p, false);
    if r.result {
      var i := FirstIndex(t.rows, p).value;
      var rows' := r.state.rows;
      assert rows' == t.rows[..i] + t.rows[i + 1..];
      forall x ensures x in rows' <==> x in t.rows && s.key(x) != k {
        if x in rows' {
          var a :| 0 <= a < |rows'| && rows'[a] == x;
          RemovedAt(t.rows, i, a);
        }
        if x in t.rows && s.key(x) != k {
          var b :| 0 <= b < |t.rows| && t.rows[b] == x;
          assert b != i;
          if b < i {
            RemovedAt(t.rows, i, b);
          } else {
            RemovedAt(t.rows, i, b - 1);
          }
        }
      }
    }
  }

  /** A Delete whose filter is "the key equals the nullable reference fk" leaves exactly the
      rows fk does not name; a null fk names no row, and the Delete writes nothing. */
  lemma DeleteByRef<T(!new)>(s: Schema<T>, t: Table<T>, p: T -> bool, fk: Option<int>)
    requires Consistent(s, t)
    requires forall x :: p(x) <==> fk == Some(s.key(x))
    ensures forall x :: x in DeleteStep(t, p, false).state.rows <==> x in t.rows && fk != Some(s.key(x))
    ensures DeleteStep(t, p, false).state.nextKey == t.nextKey
  {
    if fk.Some? {
      DeleteByKey(s, t, p, fk.value);
    } else {
      DeleteRemovesFirst(t, p, false);
    }
  }

  /** On a consistent table an Update whose filter is "the key equals that of row i", with
      values keeping that key and colliding with no other row, overwrites row i. */
  lemma UpdateByKey<T(!new)>(s: Schema<T>, t: Table<T>, p: T -> bool, e: T, i: nat)
    requires Consistent(s, t) && i < |t.rows|
    requires forall x :: p(x) <==> s.key(x) == s.key(t.rows[i])
    requires s.key(e) == s.key(t.rows[i]) && AdmitsAt(s, t.rows, i, e)
    ensures UpdateStep(s, t, p, e, false) == Step(t.(rows := t.rows[i := e]), Some(e))
  {
    FirstIndexSpec(t.rows, p);
    var j := FirstIndex(t.rows, p).value;
    assert s.key(t.rows[j]) == s.key(t.rows[i]);
  }

  /** On a consistent table the row `Lookup` finds is the only row with that key. */
  lemma LookupUnique<T(!new)>(s: Schema<T>, t: Table<T>, i: nat)
    requires Consistent(s, t) && i < |t.rows|
    ensures Lookup(s, t, Some(s.key(t.rows[i]))) == Some(t.rows[i])
  {
    var k := s.key(t.rows[i]);
    FirstIndexSpec(t.rows, (x: T) => s.key(x) == k);
    var j := FirstIndex(t.rows, (x: T) => s.key(x) == k).value;
    assert s.key(t.rows[j]) == k;
  }

  /** The repository object: one table that Create, Update and Delete change in place. */
  class BaseRepository<T(!new)> {
    const schema: Schema<T>
    var rows: seq<T>
    var nextKey: int

    function State(): Table<T>
      reads this
    {
      Table(rows, nextKey)
    }

    ghost predicate Valid()
      reads this
    {
      Consistent(schema, State())
    }

    /** A repository over the table the context already holds. */
    constructor (schema: Schema<T>, t: Table<T>)
      requires Consistent(schema, t)
      ensures Valid() && this.schema == schema && State() == t
    {
      this.schema := schema;
      rows := t.rows;
      nextKey := t.nextKey;
    }

    method Create(entity: T, fault: bool) returns (r: Option<T>)
      modifies this
      ensures Step(State(), r) == CreateStep(schema, old(State()), entity, fault)
      ensures old(Valid()) ==> Valid()
    {
      if Valid() {
        CreateKeepsConsistent(schema, State(), entity, fault);
      }
      if fault {
        return None;
      }
      var stored := Stamp(schema, State(), entity);
      if !Admits(schema, rows, stored) {
        return None;
      }
      rows := rows + [stored];
      nextKey := Max(nextKey, schema.key(stored) + 1);
      r := Some(stored);
    }

    method Update(filter: T -> bool, entity: T, fault: bool) returns (r: Option<T>)
      modifies this
      ensures Step(State(), r) == UpdateStep(schema, old(State()), filter, entity, fault)
      ensures old(Valid()) ==> Valid()
    {
      if Valid() {
        UpdateKeepsConsistent(schema, State(), filter, entity, fault);
      }
      if fault {
        return None;
      }
      var found := FirstIndex(rows, filter);
      if found.None? {
        return None;
      }
      var i := found.value;
      if schema.key(entity) != schema.key(rows[i]) || !AdmitsAt(schema, rows, i, entity) {
        return None;
      }
      rows := rows[i := entity];
      r := Some(entity);
    }

    method Delete(filter: T -> bool, fault: bool) returns (r: bool)
      modifies this
      ensures Step(State(), r) == DeleteStep(old(State()), filter, fault)
      ensures old(Valid()) ==> Valid()
    {
      if Valid() {
        DeleteKeepsConsistent(schema, State(), filter, fault);
      }
      if fault {
        return false;
      }
      var found := FirstIndex(rows, filter);
      if found.None? {
        return false;
      }
      var i := found.value;
      rows := rows[..i] + rows[i + 1..];
      r := true;
    }
  }
}
