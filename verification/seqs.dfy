/** Sequence operations of JavaScript's runtime that the modelled code relies on:
    `Array.prototype.filter`, `Array.prototype.slice`, and the insertion-ordered
    de-duplication of `Array.from(new Set(...))`. */
module Seqs {

  /** No element occurs twice. */
  predicate NoDup<T(==)>(s: seq<T>) {
    forall i, j :: 0 <= i < j < |s| ==> s[i] != s[j]
  }

  /** `s.filter(p)`: the elements of `s` that satisfy `p`, in their original order. */
  function Filter<T>(s: seq<T>, p: T -> bool): (r: seq<T>)
    ensures |r| <= |s|
    ensures |r| < |s| || forall i :: 0 <= i < |s| ==> p(s[i])
    ensures forall i :: 0 <= i < |r| ==> r[i] in s && p(r[i])
    ensures forall i :: 0 <= i < |s| && p(s[i]) ==> s[i] in r
  {
    if |s| == 0 then []
    else (if p(s[0]) then [s[0]] else []) + Filter(s[1..], p)
  }

  /** Filtering distributes over concatenation: kept elements keep their relative order. */
  lemma {:induction false} FilterConcat<T>(a: seq<T>, b: seq<T>, p: T -> bool)
    ensures Filter(a + b, p) == Filter(a, p) + Filter(b, p)
  {
    if |a| == 0 {
      assert a + b == b;
    } else {
      assert (a + b)[1..] == a[1..] + b;
      FilterConcat(a[1..], b, p);
    }
  }

  /** A filter every element passes changes nothing. */
  lemma {:induction false} FilterKeepsAll<T>(s: seq<T>, p: T -> bool)
    ensures (forall i :: 0 <= i < |s| ==> p(s[i])) ==> Filter(s, p) == s
  {
    if |s| > 0 {
      FilterKeepsAll(s[1..], p);
    }
  }

  /** Around any element, the filter is the filtered prefix, that element when it
      passes, and the filtered suffix. */
  lemma FilterAround<T>(a: seq<T>, x: T, b: seq<T>, p: T -> bool)
    ensures Filter(a + [x] + b, p) == Filter(a, p) + (if p(x) then [x] else []) + Filter(b, p)
  {
    calc {
      Filter(a + [x] + b, p);
    == { FilterConcat(a + [x], b, p); }
      Filter(a + [x], p) + Filter(b, p);
    == { FilterConcat(a, [x], p); }
      Filter(a, p) + Filter([x], p) + Filter(b, p);
    == { FilterSingleton(x, p); }
      Filter(a, p) + (if p(x) then [x] else []) + Filter(b, p);
    }
  }

  lemma FilterSingleton<T>(x: T, p: T -> bool)
    ensures Filter([x], p) == if p(x) then [x] else []
  {
    assert [x][1..] == [];
  }

  /** The first occurrence of every element of `s`, in order of first appearance:
      position k of `s` is kept exactly when `s[k]` does not occur in `s[..k]`. */
  function Firsts<T(==)>(s: seq<T>): (r: seq<T>)
    ensures forall i :: 0 <= i < |r| ==> r[i] in s
    ensures forall i :: 0 <= i < |s| ==> s[i] in r
    ensures NoDup(r)
  {
    if |s| == 0 then []
    else
      var init, last := s[..|s| - 1], s[|s| - 1];
      assert s == init + [last];
      Firsts(init) + (if last in init then [] else [last])
  }

  /** Adds each element of `xs` to the insertion-ordered set `acc` (`Set.prototype.add`
      in a `forEach`): an element already present keeps its position. */
  function InsertAll<T(==)>(acc: seq<T>, xs: seq<T>): seq<T>
    decreases |xs|
  {
    if |xs| == 0 then acc
    else InsertAll(if xs[0] in acc then acc else acc + [xs[0]], xs[1..])
  }

  /** An element is kept by `Firsts` exactly when it occurs at all. */
  lemma FirstsMembership<T>(s: seq<T>, x: T)
    ensures x in Firsts(s) <==> x in s
  {
    if x in s {
      var k :| 0 <= k < |s| && s[k] == x;
      assert s[k] in Firsts(s);
    }
  }

  /** Appending one element extends the de-duplication by it, unless it was already seen. */
  lemma FirstsSnoc<T>(p: seq<T>, x: T)
    ensures Firsts(p + [x]) == Firsts(p) + (if x in p then [] else [x])
  {
    var p' := p + [x];
    assert p'[..|p'| - 1] == p;
  }

  /** One step of `InsertAll` from a de-duplicated prefix: the inserted element's position
      is the one `Firsts` gives it. */
  lemma InsertAllFirstsStep<T>(p: seq<T>, xs: seq<T>)
    requires |xs| > 0
    ensures InsertAll(Firsts(p), xs) == InsertAll(Firsts(p + [xs[0]]), xs[1..])
  {
    var x, f := xs[0], Firsts(p);
    FirstsMembership(p, x);
    FirstsSnoc(p, x);
    InsertAllStep(f, xs);
    var acc := if x in f then f else f + [x];
    assert acc == Firsts(p + [x]);
  }

  /** Moving the head of `xs` onto the end of `p` leaves the concatenation unchanged. */
  lemma AppendHead<T>(p: seq<T>, xs: seq<T>)
    requires |xs| > 0
    ensures (p + [xs[0]]) + xs[1..] == p + xs
  {
  }

  /** One step of `InsertAll`. */
  lemma InsertAllStep<T>(acc: seq<T>, xs: seq<T>)
    requires |xs| > 0
    ensures InsertAll(acc, xs) == InsertAll(if xs[0] in acc then acc else acc + [xs[0]], xs[1..])
  {
  }

  /** Inserting `xs` into the de-duplication of `p` de-duplicates `p + xs`. */
  lemma {:induction false} InsertAllFirsts<T>(p: seq<T>, xs: seq<T>)
    ensures InsertAll(Firsts(p), xs) == Firsts(p + xs)
    decreases |xs|
  {
    if |xs| == 0 {
      assert p + xs == p;
    } else {
      InsertAllFirstsStep(p, xs);
      InsertAllFirsts(p + [xs[0]], xs[1..]);
      AppendHead(p, xs);
    }
  }

  /** How `slice` resolves an index against a length: negative indices count from the end,
      and the result is clamped to `[0, len]`. */
  function SliceIndex(i: int, len: nat): (k: nat)
    ensures k <= len
    ensures 0 <= i <= len ==> k == i
  {
    if i < 0 then (if len + i < 0 then 0 else len + i)
    else if i > len then len
    else i
  }

  /** `s.slice(start, end)`. */
  function JsSlice<T>(s: seq<T>, start: int, end: int): (r: seq<T>)
    ensures |r| <= |s|
    ensures 0 <= start <= end ==> |r| == (if start >= |s| then 0 else if end > |s| then |s| - start else end - start)
    ensures 0 <= start <= end ==> forall i :: 0 <= i < |r| ==> r[i] == s[start + i]
    ensures 0 <= end <= start ==> r == []
  {
    var a, b := SliceIndex(start, |s|), SliceIndex(end, |s|);
    if a < b then s[a..b] else []
  }
}
