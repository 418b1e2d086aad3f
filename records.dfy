/**
 * The collections of the library document are arrays of objects that carry a
 * string `id`; the store locates, removes and filters them with lodash's
 * `find({ id })`, `remove({ id })`, `filter` and `slice`. This module gives
 * those collection operations once, for any record shape.
 */
module Records {

  datatype Option<+T> = None | Some(value: T)

  datatype Result<+T, +E> = Success(value: T) | Failure(error: E)

  /** A document record: its `id` and the rest of its fields. */
  datatype Record<+F> = Record(id: string, fields: F)

  /** lodash `find({ id })`: the index of the FIRST record with this id, if any. */
  function FindIndex<F>(s: seq<Record<F>>, id: string): (r: Option<nat>)
    ensures r.Some? ==> r.value < |s| && s[r.value].id == id
    ensures r.Some? ==> forall j :: 0 <= j < r.value ==> s[j].id != id
    ensures r.None? <==> forall j :: 0 <= j < |s| ==> s[j].id != id
  {
    if s == [] then None
    else if s[0].id == id then Some(0)
    else match FindIndex(s[1..], id)
      case None => None
      case Some(i) => Some(i + 1)
  }

  /** Replacing the fields of a record (its id kept) does not move the first match of any id. */
  lemma FindIndexAfterUpdate<F>(s: seq<Record<F>>, i: nat, f: F, id: string)
    requires i < |s|
    ensures FindIndex(s[i := Record(s[i].id, f)], id) == FindIndex(s, id)
  {
    var t := s[i := Record(s[i].id, f)];
    assert forall j :: 0 <= j < |s| ==> t[j].id == s[j].id;
    match FindIndex(s, id)
    case None =>
    case Some(k) =>
      var k' := FindIndex(t, id);
      assert k'.Some?;
      assert t[k].id == id;
  }

  /** A record appended under an id no earlier record carries is the one found by that id. */
  lemma FindIndexAppend<F>(s: seq<Record<F>>, x: Record<F>)
    requires forall j :: 0 <= j < |s| ==> s[j].id != x.id
    ensures FindIndex(s + [x], x.id) == Some(|s|)
  {
    var t := s + [x];
    assert t[|s|].id == x.id;
    assert forall j :: 0 <= j < |s| ==> t[j].id != x.id;
  }

  /** lodash `remove({ id })`: every record with this id goes, the others stay in order. */
  function RemoveId<F(!new)>(s: seq<Record<F>>, id: string): (r: seq<Record<F>>)
    ensures |r| <= |s|
    ensures forall x :: x in r <==> x in s && x.id != id
  {
    if s == [] then []
    else if s[0].id == id then RemoveId(s[1..], id)
    else [s[0]] + RemoveId(s[1..], id)
  }

  /** Removal works record by record, so it keeps the relative order of what stays. */
  lemma {:induction false} RemoveIdAppend<F(!new)>(a: seq<Record<F>>, b: seq<Record<F>>, id: string)
    ensures RemoveId(a + b, id) == RemoveId(a, id) + RemoveId(b, id)
  {
    if a == [] {
      assert a + b == b;
    } else {
      assert (a + b)[0] == a[0] && (a + b)[1..] == a[1..] + b;
      RemoveIdAppend(a[1..], b, id);
    }
  }

  /** Removing an id that no record carries changes nothing. */
  lemma {:induction false} RemoveIdMissing<F(!new)>(s: seq<Record<F>>, id: string)
    requires forall j :: 0 <= j < |s| ==> s[j].id != id
    ensures RemoveId(s, id) == s
  {
    if s != [] {
      RemoveIdMissing(s[1..], id);
    }
  }

  /** lodash `filter(p)`: the elements satisfying `p`, in their original order. */
  function Filter<T(!new)>(s: seq<T>, p: T -> bool): (r: seq<T>)
    ensures |r| <= |s|
    ensures forall x :: x in r <==> x in s && p(x)
  {
    if s == [] then []
    else if p(s[0]) then [s[0]] + Filter(s[1..], p)
    else Filter(s[1..], p)
  }

  /** Filtering distributes over concatenation, so it keeps the original order. */
  lemma {:induction false} FilterAppend<T(!new)>(a: seq<T>, b: seq<T>, p: T -> bool)
    ensures Filter(a + b, p) == Filter(a, p) + Filter(b, p)
  {
    if a == [] {
      assert a + b == b;
    } else {
      assert (a + b)[0] == a[0] && (a + b)[1..] == a[1..] + b;
      FilterAppend(a[1..], b, p);
    }
  }

  /** A filter that everything passes is the identity. */
  lemma {:induction false} FilterAll<T(!new)>(s: seq<T>, p: T -> bool)
    requires forall j :: 0 <= j < |s| ==> p(s[j])
    ensures Filter(s, p) == s
  {
    if s != [] {
      FilterAll(s[1..], p);
    }
  }

  function Min(a: int, b: int): int { if a <= b then a else b }

  /** `Math.ceil(n / d)` for a positive divisor: the least k with k * d >= n. */
  function CeilDiv(n: nat, d: nat): (k: nat)
    requires d >= 1
    ensures k * d >= n
    ensures k == 0 || (k - 1) * d < n
  {
    if n == 0 then 0 else 1 + CeilDiv(n - Min(n, d), d)
  }

  /** Page k (from 1) of size `limit` starts where the first k - 1 pages end. */
  lemma PageOffsets(k: nat, limit: nat)
    requires k >= 1
    ensures 0 <= (k - 1) * limit <= k * limit && (k - 1) * limit + limit == k * limit
  {
  }

  /** A prefix followed by the run after it is the longer prefix. */
  lemma PrefixThenRun<T>(m: seq<T>, lo: nat, hi: nat)
    requires lo <= hi <= |m|
    ensures m[..lo] + m[lo..hi] == m[..hi]
  {
  }

  /** lodash `slice(start, end)` for non-negative bounds: the bounds are clamped to the sequence. */
  function Slice<T>(s: seq<T>, start: nat, end: nat): (r: seq<T>)
    ensures |r| <= |s| && (start <= end ==> |r| <= end - start)
    ensures start <= end ==> r == s[Min(start, |s|)..Min(end, |s|)]
    ensures end <= start ==> r == []
  {
    var hi := Min(end, |s|);
    if start >= hi then [] else s[start..hi]
  }

  /** Everything a slice holds comes from the sequence. */
  lemma SliceWithin<T>(s: seq<T>, start: nat, end: nat)
    ensures forall x :: x in Slice(s, start, end) ==> x in s
  {
  }

  /** Replacing one element changes the filtered count by what the old and the new element contribute. */
  lemma FilterCountUpdate<T(!new)>(s: seq<T>, i: nat, x: T, p: T -> bool)
    requires i < |s|
    ensures |Filter(s[i := x], p)| == |Filter(s, p)| - (if p(s[i]) then 1 else 0) + (if p(x) then 1 else 0)
  {
    assert s == s[..i] + [s[i]] + s[i + 1..];
    assert s[i := x] == s[..i] + [x] + s[i + 1..];
    FilterAppend(s[..i] + [s[i]], s[i + 1..], p);
    FilterAppend(s[..i], [s[i]], p);
    FilterAppend(s[..i] + [x], s[i + 1..], p);
    FilterAppend(s[..i], [x], p);
  }
}
