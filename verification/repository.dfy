/** The file-backed repositories keep each entity kind as one JSON array. This module
    models the array operations they perform, keyed by the entity's uuid: `find`,
    `push`, a merge into the first match (a silent no-op when there is none) and
    `filter`. */
module Repository {
  import opened Wrappers
  import Seqs

  /** Position of the first row whose key is `id` (`findIndex`). */
  function IndexOf<T>(rows: seq<T>, key: T -> string, id: string): (r: Option<nat>)
    ensures r.None? <==> forall i :: 0 <= i < |rows| ==> key(rows[i]) != id
    ensures r.Some? ==> r.value < |rows| && key(rows[r.value]) == id
    ensures r.Some? ==> forall j :: 0 <= j < r.value ==> key(rows[j]) != id
  {
    if |rows| == 0 then None
    else if key(rows[0]) == id then Some(0)
    else
      match IndexOf(rows[1..], key, id)
      case None => None
      case Some(i) => Some(i + 1)
  }

  /** `findById`: the first row whose key is `id`, if any. */
  function FindById<T>(rows: seq<T>, key: T -> string, id: string): (r: Option<T>)
    ensures r.None? <==> forall i :: 0 <= i < |rows| ==> key(rows[i]) != id
    ensures r.Some? ==> r.value in rows && key(r.value) == id
    ensures r.Some? ==> IndexOf(rows, key, id).Some? && r.value == rows[IndexOf(rows, key, id).value]
  {
    match IndexOf(rows, key, id)
    case None => None
    case Some(i) => Some(rows[i])
  }

  /** `save`: appends the row, leaving every stored row in place. */
  function Save<T>(rows: seq<T>, row: T): (r: seq<T>)
    ensures |r| == |rows| + 1
    ensures r[..|rows|] == rows && r[|rows|] == row
  {
    rows + [row]
  }

  /** A saved row is found under its key unless an earlier row has that key, and a
      row already stored still wins every lookup of its key. */
  lemma {:induction false} SaveKeepsLookups<T>(rows: seq<T>, key: T -> string, row: T, id: string)
    ensures FindById(rows, key, id).Some? ==> FindById(Save(rows, row), key, id) == FindById(rows, key, id)
    ensures FindById(rows, key, id).None? && key(row) == id ==> FindById(Save(rows, row), key, id) == Some(row)
  {
    if |rows| > 0 {
      assert Save(rows, row)[1..] == Save(rows[1..], row);
      SaveKeepsLookups(rows[1..], key, row, id);
    }
  }

  /** `update`: merges into the first row with key `id`; nothing happens when no row has it. */
  function Update<T>(rows: seq<T>, key: T -> string, id: string, merge: T -> T): (r: seq<T>)
    ensures |r| == |rows|
    ensures forall i :: 0 <= i < |rows| && IndexOf(rows, key, id) != Some(i) ==> r[i] == rows[i]
    ensures IndexOf(rows, key, id).Some? ==> var i := IndexOf(rows, key, id).value; r[i] == merge(rows[i])
  {
    match IndexOf(rows, key, id)
    case None => rows
    case Some(i) => rows[i := merge(rows[i])]
  }

  /** A merge that keeps the key keeps every lookup position. */
  lemma UpdateKeepsIndex<T>(rows: seq<T>, key: T -> string, id: string, merge: T -> T)
    requires forall x :: key(merge(x)) == key(x)
    ensures forall other :: IndexOf(Update(rows, key, id, merge), key, other) == IndexOf(rows, key, other)
  {
    var r := Update(rows, key, id, merge);
    assert forall j :: 0 <= j < |rows| ==> key(r[j]) == key(rows[j]);
    forall other
      ensures IndexOf(r, key, other) == IndexOf(rows, key, other)
    {
      SameKeysSameIndex(r, rows, key, other);
    }
  }

  lemma {:induction false} SameKeysSameIndex<T>(a: seq<T>, b: seq<T>, key: T -> string, id: string)
    requires |a| == |b| && forall j :: 0 <= j < |a| ==> key(a[j]) == key(b[j])
    ensures IndexOf(a, key, id) == IndexOf(b, key, id)
  {
    if |a| > 0 {
      SameKeysSameIndex(a[1..], b[1..], key, id);
    }
  }

  /** `delete`: drops every row with key `id`. */
  function Delete<T>(rows: seq<T>, key: T -> string, id: string): (r: seq<T>)
    ensures |r| <= |rows|
    ensures IndexOf(rows, key, id).Some? ==> |r| < |rows|
    ensures FindById(r, key, id).None?
    ensures forall i :: 0 <= i < |rows| && key(rows[i]) != id ==> rows[i] in r
    ensures forall i :: 0 <= i < |r| ==> r[i] in rows && key(r[i]) != id
    ensures (forall i :: 0 <= i < |rows| ==> key(rows[i]) != id) ==> r == rows
  {
    var keep := (row: T) => key(row) != id;
    Seqs.FilterKeepsAll(rows, keep);
    Seqs.Filter(rows, keep)
  }

  /** `delete` works row by row: every row with another key stays, once and in store
      order, and every row with key `id` goes. */
  lemma DeleteSplits<T>(a: seq<T>, x: T, b: seq<T>, key: T -> string, id: string)
    ensures Delete(a + [x] + b, key, id) == Delete(a, key, id) + (if key(x) != id then [x] else []) + Delete(b, key, id)
  {
    Seqs.FilterAround(a, x, b, (row: T) => key(row) != id);
  }
}
