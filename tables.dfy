/** What a `JpaRepository<T, Long>` with an identity column keeps: rows in
    storage order and the next value of the id generator. The functions are
    generic in the entity; `idOf` reads an entity's (nullable) id. */
module Tables {
  import opened Model

  datatype Table<T> = Table(rows: seq<T>, nextId: int)

  /** A fresh table: no rows, the generator starts at 1. */
  function Empty<T>(): Table<T> { Table([], 1) }

  /** The id of a stored row (0 only for an id-less value, which no
      well-formed table holds). */
  function Key<T>(idOf: T -> Option<int>, x: T): int
  {
    match idOf(x)
    case Some(k) => k
    case None => 0
  }

  /** The generator is positive, every row has a positive id below it, and ids strictly
      increase in storage order (so no id occurs twice). */
  predicate WellFormed<T>(t: Table<T>, idOf: T -> Option<int>)
  {
    && 0 < t.nextId
    && (forall i :: 0 <= i < |t.rows| ==> idOf(t.rows[i]).Some? && 0 < Key(idOf, t.rows[i]) < t.nextId)
    && (forall i, j :: 0 <= i < j < |t.rows| ==> Key(idOf, t.rows[i]) < Key(idOf, t.rows[j]))
  }

  /** The position of the first row with id `k`. */
  function IndexOf<T>(rows: seq<T>, idOf: T -> Option<int>, k: int): (r: Option<nat>)
    ensures r.Some? ==> r.value < |rows| && idOf(rows[r.value]) == Some(k)
    ensures r.Some? ==> forall i :: 0 <= i < r.value ==> idOf(rows[i]) != Some(k)
    ensures r.None? <==> forall i :: 0 <= i < |rows| ==> idOf(rows[i]) != Some(k)
  {
    if rows == [] then None
    else if idOf(rows[0]) == Some(k) then Some(0)
    else
      match IndexOf(rows[1..], idOf, k)
      case None => None
      case Some(i) => Some(i + 1)
  }

  /** In a well-formed table a row is determined by its id. */
  lemma KeyDeterminesRow<T>(t: Table<T>, idOf: T -> Option<int>, i: int, j: int)
    requires WellFormed(t, idOf)
    requires 0 <= i < |t.rows| && 0 <= j < |t.rows|
    requires idOf(t.rows[i]) == idOf(t.rows[j])
    ensures i == j
  {
  }

  /** `findById`. */
  function FindById<T>(t: Table<T>, idOf: T -> Option<int>, k: int): (r: Option<T>)
    ensures r.Some? ==> r.value in t.rows && idOf(r.value) == Some(k)
    ensures r.None? <==> forall i :: 0 <= i < |t.rows| ==> idOf(t.rows[i]) != Some(k)
  {
    match IndexOf(t.rows, idOf, k)
    case Some(i) => Some(t.rows[i])
    case None => None
  }

  /** In a well-formed table `FindById` returns the row at any position holding the id. */
  lemma FindAt<T>(t: Table<T>, idOf: T -> Option<int>, i: int)
    requires WellFormed(t, idOf) && 0 <= i < |t.rows|
    ensures FindById(t, idOf, Key(idOf, t.rows[i])) == Some(t.rows[i])
  {
    var k := Key(idOf, t.rows[i]);
    var j := IndexOf(t.rows, idOf, k).value;
    KeyDeterminesRow(t, idOf, i, j);
  }

  /** The id `save` gives an entity that asks for `requested`: that id when
      a row holds it (overwrite), a fresh one from the generator otherwise. */
  function AssignedId<T>(t: Table<T>, idOf: T -> Option<int>, requested: Option<int>): (k: int)
    ensures requested.Some? && FindById(t, idOf, requested.value).Some? ==> k == requested.value
    ensures requested.None? || FindById(t, idOf, requested.value).None? ==> k == t.nextId
  {
    if requested.Some? && IndexOf(t.rows, idOf, requested.value).Some? then requested.value else t.nextId
  }

  /** Stores `x`, whose id is set: replaces the row holding that id in place,
      or appends `x` and moves the generator past its id. */
  function Put<T>(t: Table<T>, idOf: T -> Option<int>, x: T): (r: Table<T>)
    requires idOf(x).Some?
    ensures |r.rows| == |t.rows| || r.rows == t.rows + [x]
  {
    var k := Key(idOf, x);
    match IndexOf(t.rows, idOf, k)
    case Some(i) => Table(t.rows[i := x], t.nextId)
    case None => Table(t.rows + [x], k + 1)
  }

  /** Storing a row under its own id or under the generator's next id keeps
      the table well formed, and the row is then found by its id while
      every other id finds what it found before. */
  lemma PutFound<T>(t: Table<T>, idOf: T -> Option<int>, x: T, k: int)
    requires WellFormed(t, idOf) && idOf(x).Some?
    requires FindById(t, idOf, Key(idOf, x)).Some? || Key(idOf, x) >= t.nextId
    requires 0 < Key(idOf, x)
    ensures WellFormed(Put(t, idOf, x), idOf)
    ensures FindById(Put(t, idOf, x), idOf, k) ==
              if k == Key(idOf, x) then Some(x) else FindById(t, idOf, k)
  {
    var kx := Key(idOf, x);
    var r := Put(t, idOf, x);
    match IndexOf(t.rows, idOf, kx)
    case Some(i) =>
      assert r.rows == t.rows[i := x];
      forall a | 0 <= a < |r.rows| ensures Key(idOf, r.rows[a]) == Key(idOf, t.rows[a]) {
      }
      assert WellFormed(r, idOf);
      var pos := IndexOf(r.rows, idOf, k);
      if k == kx {
        FindAt(r, idOf, i);
      } else if pos.Some? {
        assert pos.value != i;
        assert t.rows[pos.value] == r.rows[pos.value];
        FindAt(t, idOf, pos.value);
      } else {
        forall a | 0 <= a < |t.rows| ensures idOf(t.rows[a]) != Some(k) {
          if a != i { assert t.rows[a] == r.rows[a]; }
        }
      }
    case None =>
      assert r.rows == t.rows + [x];
      assert WellFormed(r, idOf);
      var pos := IndexOf(r.rows, idOf, k);
      if k == kx {
        FindAt(r, idOf, |t.rows|);
      } else if pos.Some? {
        assert pos.value < |t.rows|;
        assert t.rows[pos.value] == r.rows[pos.value];
        FindAt(t, idOf, pos.value);
      } else {
        forall a | 0 <= a < |t.rows| ensures idOf(t.rows[a]) != Some(k) {
          assert t.rows[a] == r.rows[a];
        }
      }
  }

  /** Removes the row holding id `k`, if any; the generator is not reset. */
  function DeleteById<T>(t: Table<T>, idOf: T -> Option<int>, k: int): (r: Table<T>)
    ensures r.nextId == t.nextId
    ensures |r.rows| <= |t.rows|
  {
    match IndexOf(t.rows, idOf, k)
    case Some(i) => Table(t.rows[..i] + t.rows[i + 1..], t.nextId)
    case None => t
  }

  /** Removing the row at position `i` keeps the table well formed; the
      rows before it keep their positions and the rows after it move down one. */
  lemma RemoveAt<T>(t: Table<T>, idOf: T -> Option<int>, i: nat)
    requires WellFormed(t, idOf) && i < |t.rows|
    ensures var r := Table(t.rows[..i] + t.rows[i + 1..], t.nextId);
            && WellFormed(r, idOf)
            && |r.rows| == |t.rows| - 1
            && (forall a :: 0 <= a < i ==> r.rows[a] == t.rows[a])
            && (forall a :: i <= a < |r.rows| ==> r.rows[a] == t.rows[a + 1])
  {
    var r := Table(t.rows[..i] + t.rows[i + 1..], t.nextId);
    assert forall a :: 0 <= a < i ==> r.rows[a] == t.rows[a];
    assert forall a :: i <= a < |r.rows| ==> r.rows[a] == t.rows[a + 1];
    forall a, b | 0 <= a < b < |r.rows| ensures Key(idOf, r.rows[a]) < Key(idOf, r.rows[b]) {
      var a' := if a < i then a else a + 1;
      var b' := if b < i then b else b + 1;
      assert r.rows[a] == t.rows[a'] && r.rows[b] == t.rows[b'];
    }
  }

  /** Removing the row at position `i`: the table stays well formed, the
      removed row's id finds nothing, and every other id finds what it found
      before. */
  lemma RemoveFound<T>(t: Table<T>, idOf: T -> Option<int>, i: nat, j: int)
    requires WellFormed(t, idOf) && i < |t.rows|
    ensures var r := Table(t.rows[..i] + t.rows[i + 1..], t.nextId);
            && WellFormed(r, idOf)
            && FindById(r, idOf, j) == if Some(j) == idOf(t.rows[i]) then None else FindById(t, idOf, j)
  {
    RemoveAt(t, idOf, i);
    var r := Table(t.rows[..i] + t.rows[i + 1..], t.nextId);
    if Some(j) == idOf(t.rows[i]) || IndexOf(t.rows, idOf, j).None? {
      forall a | 0 <= a < |r.rows| ensures idOf(r.rows[a]) != Some(j) {
        var a' := if a < i then a else a + 1;
        assert r.rows[a] == t.rows[a'];
      }
    } else {
      var p := IndexOf(t.rows, idOf, j).value;
      var a := if p < i then p else p - 1;
      assert r.rows[a] == t.rows[p];
      FindAt(r, idOf, a);
    }
  }

  /** After deleting id `k` the table is still well formed, `k` finds nothing,
      and every other id finds what it found before. */
  lemma DeleteFound<T>(t: Table<T>, idOf: T -> Option<int>, k: int, j: int)
    requires WellFormed(t, idOf)
    ensures WellFormed(DeleteById(t, idOf, k), idOf)
    ensures FindById(DeleteById(t, idOf, k), idOf, j) ==
              if j == k then None else FindById(t, idOf, j)
  {
    match IndexOf(t.rows, idOf, k)
    case None =>
    case Some(i) => RemoveFound(t, idOf, i, j);
  }

  /** `save`: the entity gets the id `AssignedId` picks (`stamp` writes an
      id into an entity) and is stored under it. An entity without an id, or
      with an id no row holds, is appended under the generator's next id; an
      entity whose id is stored overwrites that row in place. */
  function Save<T>(t: Table<T>, idOf: T -> Option<int>, stamp: (T, int) -> T, e: T): (r: (Table<T>, T))
    requires idOf(stamp(e, AssignedId(t, idOf, idOf(e)))) == Some(AssignedId(t, idOf, idOf(e)))
    ensures idOf(r.1).Some?
    ensures idOf(e).None? || FindById(t, idOf, idOf(e).value).None? ==> Key(idOf, r.1) == t.nextId
    ensures WellFormed(t, idOf) && (idOf(e).None? || FindById(t, idOf, idOf(e).value).None?) ==>
              r.0 == Table(t.rows + [r.1], t.nextId + 1)
    ensures idOf(e).Some? && FindById(t, idOf, idOf(e).value).Some? ==>
              idOf(r.1) == idOf(e) && |r.0.rows| == |t.rows| && r.0.nextId == t.nextId
  {
    var x := stamp(e, AssignedId(t, idOf, idOf(e)));
    (Put(t, idOf, x), x)
  }

  /** A saved entity keeps the table well formed, is found by its id, and
      every other id finds what it found before. */
  lemma SaveFound<T>(t: Table<T>, idOf: T -> Option<int>, stamp: (T, int) -> T, e: T, k: int)
    requires WellFormed(t, idOf)
    requires idOf(stamp(e, AssignedId(t, idOf, idOf(e)))) == Some(AssignedId(t, idOf, idOf(e)))
    ensures var (t', saved) := Save(t, idOf, stamp, e);
            && WellFormed(t', idOf) && 0 < Key(idOf, saved)
            && FindById(t', idOf, k) == if Some(k) == idOf(saved) then Some(saved) else FindById(t, idOf, k)
  {
    var x := stamp(e, AssignedId(t, idOf, idOf(e)));
    if idOf(e).Some? && FindById(t, idOf, idOf(e).value).Some? {
      var i := IndexOf(t.rows, idOf, idOf(e).value).value;
      assert 0 < Key(idOf, t.rows[i]);
    }
    PutFound(t, idOf, x, k);
  }

  /** Where `save` put the entity: at position `p`, which is either the
      position of the row it overwrote (same id) or one past the old rows;
      every other position holds the row it held before. */
  lemma SaveAt<T>(t: Table<T>, idOf: T -> Option<int>, stamp: (T, int) -> T, e: T) returns (p: nat)
    requires idOf(stamp(e, AssignedId(t, idOf, idOf(e)))) == Some(AssignedId(t, idOf, idOf(e)))
    ensures var (t', saved) := Save(t, idOf, stamp, e);
            && p < |t'.rows| && t'.rows[p] == saved && p <= |t.rows| && |t.rows| <= |t'.rows|
            && (p < |t.rows| ==> idOf(t.rows[p]) == idOf(saved) && |t'.rows| == |t.rows|)
            && (forall a :: 0 <= a < |t'.rows| && a != p ==> a < |t.rows| && t'.rows[a] == t.rows[a])
  {
    var x := stamp(e, AssignedId(t, idOf, idOf(e)));
    match IndexOf(t.rows, idOf, Key(idOf, x))
    case Some(i) => p := i;
    case None => p := |t.rows|;
  }

  /** `delete(entity)`: removes the row holding the entity's id; an entity
      without an id, or with an id no row holds, changes nothing. */
  function Delete<T>(t: Table<T>, idOf: T -> Option<int>, e: T): (r: Table<T>)
    ensures idOf(e).None? ==> r == t
    ensures r.nextId == t.nextId
  {
    match idOf(e)
    case None => t
    case Some(k) => DeleteById(t, idOf, k)
  }

  /** The rows satisfying `p`, in storage order. */
  function Filter<T(!new)>(rows: seq<T>, p: T -> bool): (r: seq<T>)
    ensures forall i :: 0 <= i < |r| ==> r[i] in rows && p(r[i])
    ensures forall i :: 0 <= i < |rows| && p(rows[i]) ==> rows[i] in r
    ensures |r| <= |rows|
  {
    if rows == [] then []
    else (if p(rows[0]) then [rows[0]] else []) + Filter(rows[1..], p)
  }

  /** Filtering keeps every row satisfying `p` as often as it occurs, and
      no other row. */
  lemma {:induction false} FilterCount<T(!new)>(rows: seq<T>, p: T -> bool)
    ensures forall x :: multiset(Filter(rows, p))[x] == if p(x) then multiset(rows)[x] else 0
  {
    if rows != [] {
      assert rows == [rows[0]] + rows[1..];
      FilterCount(rows[1..], p);
    }
  }

  /** Filtering keeps storage order: a row added at the end is kept at the
      end exactly when it satisfies `p`. Together with `Filter([], p) == []`
      this determines the result completely. */
  lemma {:induction false} FilterAppend<T(!new)>(rows: seq<T>, x: T, p: T -> bool)
    ensures Filter(rows + [x], p) == Filter(rows, p) + (if p(x) then [x] else [])
  {
    if rows != [] {
      assert (rows + [x])[1..] == rows[1..] + [x];
      FilterAppend(rows[1..], x, p);
    }
  }

  /** The first row satisfying `p`. */
  function First<T>(rows: seq<T>, p: T -> bool): (r: Option<T>)
    ensures r.None? <==> forall i :: 0 <= i < |rows| ==> !p(rows[i])
    ensures r.Some? ==> r.value in rows && p(r.value)
  {
    if rows == [] then None
    else if p(rows[0]) then Some(rows[0])
    else First(rows[1..], p)
  }
}
