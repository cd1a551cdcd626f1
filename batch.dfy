/** The list bookkeeping of attnToSummary.py: how `threading` cuts the
    record indices into one list per job, which extracted files
    `_assign_dummy2single_form` reads, and which merged records `threading`
    keeps. */
module Batch {
  import opened PyStr

  /** One address cell of the summary table: a path string, or the float
      NaN that pandas puts in an empty cell. */
  datatype Address = Path(path: string) | Missing

  /** The outcome of the index segmentation: the sublists, or the
      `ZeroDivisionError` that `len(idx_list) / jobs` raises when `jobs` is 0. */
  datatype Segmentation<T> = Parts(parts: seq<seq<T>>) | ZeroDivisionError

  /** `int(n / jobs)` for `jobs != 0`: the quotient truncated toward zero. */
  function TruncDiv(n: nat, jobs: int): int
    requires jobs != 0
  {
    if jobs > 0 then n / jobs else -(n / -jobs)
  }

  /** Where part `k` starts when every part holds `q` elements. */
  function Offset(k: int, q: nat): int {
    k * q
  }

  /** The first `count` parts are the consecutive slices of `q` elements of
      `xs`: part `k` is `xs[k * q..k * q + q]`. */
  ghost predicate Sliced<T>(xs: seq<T>, parts: seq<seq<T>>, q: nat, count: nat)
    requires count <= |parts|
  {
    forall k {:trigger parts[k]} :: 0 <= k < count ==>
      && 0 <= Offset(k, q) && Offset(k, q) + q <= |xs|
      && parts[k] == xs[Offset(k, q)..Offset(k, q) + q]
  }

  /** The index segmentation of `threading`. For `jobs >= 1` it gives
      exactly `jobs` sublists that, laid end to end, are `idxList`; all but
      the last are the consecutive slices of `len / jobs` (rounded down)
      indices and the last holds the rest. For `jobs < 0` `range(jobs)` is
      empty and so is the result. */
  method SegmentIndices<T>(idxList: seq<T>, jobs: int) returns (r: Segmentation<T>)
    ensures jobs == 0 <==> r.ZeroDivisionError?
    ensures jobs < 0 ==> r == Parts([])
    ensures jobs > 0 ==> r.Parts? && |r.parts| == jobs && Concat(r.parts) == idxList
    ensures jobs > 0 ==> r.Parts? && |r.parts| == jobs && Sliced(idxList, r.parts, |idxList| / jobs, jobs - 1)
    ensures jobs > 0 ==> (&& r.Parts? && |r.parts| == jobs
                          && 0 <= (jobs - 1) * (|idxList| / jobs) <= |idxList|
                          && r.parts[jobs - 1] == idxList[(jobs - 1) * (|idxList| / jobs)..]
                          && |r.parts[jobs - 1]| == |idxList| - (jobs - 1) * (|idxList| / jobs))
  {
    if jobs == 0 {
      return ZeroDivisionError;
    }
    var numPerJob := TruncDiv(|idxList|, jobs);
    if jobs < 0 {
      // `range(jobs)` is empty: the loop body never runs.
      return Parts([]);
    }
    var idxListCut: seq<seq<T>> := [];
    var i := 0;
    while i < jobs
      invariant 0 <= i <= jobs && |idxListCut| == i
      invariant numPerJob == |idxList| / jobs
      invariant Sliced(idxList, idxListCut, numPerJob, if i < jobs then i else jobs - 1)
      invariant i < jobs ==> 0 <= i * numPerJob <= |idxList| && Concat(idxListCut) == idxList[..i * numPerJob]
      invariant i == jobs ==> Concat(idxListCut) == idxList
      invariant i == jobs ==> (&& 0 <= (jobs - 1) * numPerJob <= |idxList|
                               && idxListCut[jobs - 1] == idxList[(jobs - 1) * numPerJob..])
    {
      ghost var before := idxListCut;
      QuotientBound(|idxList|, jobs, i);
      if i != jobs - 1 {
        var part := idxList[i * numPerJob..(i + 1) * numPerJob];
        assert part == idxList[Offset(i, numPerJob)..Offset(i, numPerJob) + numPerJob];
        idxListCut := idxListCut + [part];
        SlicedAppend(idxList, before, numPerJob, i);
        ConcatAppend(before, part);
        SliceSplit(idxList, 0, i * numPerJob, (i + 1) * numPerJob);
      } else {
        var part := idxList[i * numPerJob..];
        idxListCut := idxListCut + [part];
        SlicedKeep(idxList, before, part, numPerJob, i);
        ConcatAppend(before, part);
        SliceJoin(idxList, 0, i * numPerJob);
      }
      i := i + 1;
    }
    r := Parts(idxListCut);
  }

  /** Slicing is a property of each part, so a list that agrees with
      `parts` on the first `count` parts is sliced as far too. */
  lemma SlicedAgree<T>(xs: seq<T>, parts: seq<seq<T>>, parts': seq<seq<T>>, q: nat, count: nat)
    requires count <= |parts| && count <= |parts'| && Sliced(xs, parts, q, count)
    requires parts'[..count] == parts[..count]
    ensures Sliced(xs, parts', q, count)
  {
    forall k | 0 <= k < count
      ensures 0 <= Offset(k, q) && Offset(k, q) + q <= |xs| && parts'[k] == xs[Offset(k, q)..Offset(k, q) + q]
    {
      assert parts'[k] == parts'[..count][k] == parts[..count][k] == parts[k];
    }
  }

  /** Part `count` is also the next slice. */
  lemma SlicedExtend<T>(xs: seq<T>, parts: seq<seq<T>>, q: nat, count: nat)
    requires count < |parts| && Sliced(xs, parts, q, count)
    requires 0 <= Offset(count, q) && Offset(count, q) + q <= |xs|
    requires parts[count] == xs[Offset(count, q)..Offset(count, q) + q]
    ensures Sliced(xs, parts, q, count + 1)
  {
    forall k | 0 <= k < count + 1
      ensures 0 <= Offset(k, q) && Offset(k, q) + q <= |xs| && parts[k] == xs[Offset(k, q)..Offset(k, q) + q]
    {
      if k < count {
        var part := parts[k];
      }
    }
  }

  /** One more slice, the `i`-th, after `i` slices. */
  lemma SlicedAppend<T>(xs: seq<T>, parts: seq<seq<T>>, q: nat, i: nat)
    requires |parts| == i && Sliced(xs, parts, q, i)
    requires 0 <= Offset(i, q) && Offset(i, q) + q <= |xs|
    ensures Sliced(xs, parts + [xs[Offset(i, q)..Offset(i, q) + q]], q, i + 1)
  {
    var part := xs[Offset(i, q)..Offset(i, q) + q];
    SlicedKeep(xs, parts, part, q, i);
    assert (parts + [part])[i] == part;
    SlicedExtend(xs, parts + [part], q, i);
  }

  /** Appending any last part keeps the slices before it. */
  lemma SlicedKeep<T>(xs: seq<T>, parts: seq<seq<T>>, last: seq<T>, q: nat, i: nat)
    requires |parts| == i && Sliced(xs, parts, q, i)
    ensures Sliced(xs, parts + [last], q, i)
  {
    assert (parts + [last])[..i] == parts[..i];
    SlicedAgree(xs, parts, parts + [last], q, i);
  }

  /** `(i + 1) * (n / jobs)` does not run past `n` while `i < jobs`. */
  lemma QuotientBound(n: nat, jobs: int, i: int)
    requires 0 <= i < jobs
    ensures 0 <= i * (n / jobs) <= (i + 1) * (n / jobs) <= n
    ensures (i + 1) * (n / jobs) == i * (n / jobs) + n / jobs
  {
    var q := n / jobs;
    assert q * jobs <= n;
    assert (i + 1) * q <= jobs * q by {
      MulMono(i + 1, jobs, q);
    }
    assert (i + 1) * q == i * q + q;
  }

  lemma MulMono(a: int, b: int, q: nat)
    requires a <= b
    ensures a * q <= b * q
  {
  }

  /** Each slice holds `q` elements, and together with a last part starting
      at `(count) * q` the lengths add up to `|xs|`. */
  lemma {:induction false} SlicedSizes<T>(xs: seq<T>, parts: seq<seq<T>>, q: nat, count: nat)
    requires count <= |parts| && Sliced(xs, parts, q, count)
    ensures forall k :: 0 <= k < count ==> |parts[k]| == q
  {
    forall k | 0 <= k < count
      ensures |parts[k]| == q
    {
      var part := parts[k];
      assert part == xs[Offset(k, q)..Offset(k, q) + q];
    }
  }

  /** When there are fewer indices than jobs, every sublist but the last is
      empty, so the last job gets all the indices. */
  lemma FewIndices<T>(xs: seq<T>, parts: seq<seq<T>>, jobs: int)
    requires 0 < jobs == |parts| && |xs| < jobs
    requires Sliced(xs, parts, |xs| / jobs, jobs - 1)
    ensures forall k :: 0 <= k < jobs - 1 ==> parts[k] == []
  {
    assert |xs| / jobs == 0;
    forall k | 0 <= k < jobs - 1
      ensures parts[k] == []
    {
      assert parts[k] == xs[Offset(k, 0)..Offset(k, 0) + 0];
    }
  }

  /** An address that `_assign_dummy2single_form` reads: a string (not the
      NaN float) of at least 10 characters. */
  predicate IsExtracted(a: Address) {
    a.Path? && |a.path| >= 10
  }

  /** The comprehension over one record's address columns in
      `_assign_dummy2single_form`: `store_path + p` for every extracted
      address `p`, in column order. */
  function ExtractedPaths(storePath: string, row: seq<Address>): (r: seq<string>)
    ensures |r| <= |row|
    ensures forall p :: p in r ==>
      exists k :: 0 <= k < |row| && IsExtracted(row[k]) && p == storePath + row[k].path
    ensures forall k :: 0 <= k < |row| && IsExtracted(row[k]) ==> storePath + row[k].path in r
  {
    if |row| == 0 then []
    else
      var rest := ExtractedPaths(storePath, row[1..]);
      assert forall k :: 1 <= k < |row| ==> row[k] == row[1..][k - 1];
      (if IsExtracted(row[0]) then [storePath + row[0].path] else []) + rest
  }

  /** Column order is kept: the paths of two runs of columns are the paths
      of the first run followed by those of the second. */
  lemma {:induction false} ExtractedPathsAppend(storePath: string, xs: seq<Address>, ys: seq<Address>)
    ensures ExtractedPaths(storePath, xs + ys) == ExtractedPaths(storePath, xs) + ExtractedPaths(storePath, ys)
  {
    if |xs| == 0 {
      assert xs + ys == ys;
    } else {
      assert (xs + ys)[1..] == xs[1..] + ys;
      ExtractedPathsAppend(storePath, xs[1..], ys);
    }
  }

  /** An item address that counts towards keeping a merged record: neither
      the single space `' '` nor the NaN float. */
  predicate IsPresent(a: Address) {
    a.Path? && a.path != " "
  }

  predicate HasItem(row: seq<Address>) {
    exists k :: 0 <= k < |row| && IsPresent(row[k])
  }

  /** The number of present item addresses of a record. */
  function CountPresent(row: seq<Address>): nat {
    if |row| == 0 then 0 else (if IsPresent(row[0]) then 1 else 0) + CountPresent(row[1..])
  }

  /** A record has a present item exactly when its count is not zero. */
  lemma {:induction false} CountPresentPositive(row: seq<Address>)
    ensures CountPresent(row) > 0 <==> HasItem(row)
  {
    if |row| > 0 {
      CountPresentPositive(row[1..]);
      if HasItem(row[1..]) {
        var k :| 0 <= k < |row[1..]| && IsPresent(row[1..][k]);
        assert IsPresent(row[k + 1]);
      }
      if HasItem(row) && !IsPresent(row[0]) {
        var k :| 0 <= k < |row| && IsPresent(row[k]);
        assert IsPresent(row[1..][k - 1]);
      }
    }
  }

  /** The records that have a present item, in their original order. */
  function KeptRecords(records: seq<seq<Address>>): seq<seq<Address>> {
    if |records| == 0 then []
    else (if HasItem(records[0]) then [records[0]] else []) + KeptRecords(records[1..])
  }

  /** The records at the given positions, in the order of the positions
      (`output.loc[save, :]`). */
  function Select(records: seq<seq<Address>>, save: seq<nat>): seq<seq<Address>>
    requires forall j :: 0 <= j < |save| ==> save[j] < |records|
  {
    seq(|save|, j requires 0 <= j < |save| => records[save[j]])
  }

  /** The loop of `threading` that drops empty records: `save` lists, in
      increasing order, exactly the positions of the records with a present
      item address, and selecting them gives the kept records. */
  method KeepNonEmpty(records: seq<seq<Address>>) returns (save: seq<nat>)
    ensures forall j :: 0 <= j < |save| ==> save[j] < |records|
    ensures forall a, b :: 0 <= a < b < |save| ==> save[a] < save[b]
    ensures forall i :: 0 <= i < |records| ==> (i in save <==> HasItem(records[i]))
    ensures Select(records, save) == KeptRecords(records)
  {
    save := [];
    var idx := 0;
    while idx < |records|
      invariant 0 <= idx <= |records|
      invariant forall j :: 0 <= j < |save| ==> save[j] < idx
      invariant forall a, b :: 0 <= a < b < |save| ==> save[a] < save[b]
      invariant forall i :: 0 <= i < idx ==> (i in save <==> HasItem(records[i]))
      invariant Select(records, save) == KeptRecords(records[..idx])
    {
      var row := records[idx];
      var value := 0;
      var item := 0;
      while item < |row|
        invariant 0 <= item <= |row|
        invariant value == CountPresent(row[..item])
      {
        var itemAdrs := row[item];
        CountPresentSnoc(row[..item], itemAdrs);
        assert row[..item + 1] == row[..item] + [itemAdrs];
        if itemAdrs.Path? && itemAdrs.path != " " {
          value := value + 1;
        }
        item := item + 1;
      }
      assert row[..|row|] == row;
      CountPresentPositive(row);
      KeptRecordsSnoc(records[..idx], row);
      assert records[..idx + 1] == records[..idx] + [row];
      if value != 0 {
        SelectAppend(records, save, idx);
        save := save + [idx];
      }
      idx := idx + 1;
    }
    assert records[..|records|] == records;
  }

  lemma SelectAppend(records: seq<seq<Address>>, save: seq<nat>, idx: nat)
    requires forall j :: 0 <= j < |save| ==> save[j] < |records|
    requires idx < |records|
    ensures Select(records, save + [idx]) == Select(records, save) + [records[idx]]
  {
  }

  lemma {:induction false} CountPresentSnoc(row: seq<Address>, a: Address)
    ensures CountPresent(row + [a]) == CountPresent(row) + (if IsPresent(a) then 1 else 0)
  {
    if |row| == 0 {
      assert row + [a] == [a];
    } else {
      assert (row + [a])[1..] == row[1..] + [a];
      CountPresentSnoc(row[1..], a);
    }
  }

  lemma {:induction false} KeptRecordsSnoc(records: seq<seq<Address>>, row: seq<Address>)
    ensures KeptRecords(records + [row]) == KeptRecords(records) + (if HasItem(row) then [row] else [])
  {
    if |records| == 0 {
      assert records + [row] == [row];
    } else {
      assert (records + [row])[1..] == records[1..] + [row];
      KeptRecordsSnoc(records[1..], row);
    }
  }
}
