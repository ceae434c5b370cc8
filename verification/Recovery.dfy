/**
  Crash recovery, steps 1 and 2: masking the rows on disk that the status pages do not vouch for.
  A file's latest bitmap is loaded, changed in memory and written back as its next subversion.
 */
module Recovery {
  import opened Tombstones

  /** A segment as the directory scan reports it: its sid range, row ids and slices. */
  datatype SegmentFile = SegmentFile(start: nat, end: nat, rows: seq<int>, offsets: seq<OffsetRange>) {
    ghost predicate Ok() {
      && start <= end && OffsetsOk(offsets, |rows|)
      && forall k :: 0 <= k < |offsets| && offsets[k].sid > 0 ==> start <= offsets[k].sid <= end
    }

    ghost predicate At(k: int, p: int)
      requires Ok()
    {
      0 <= k < |offsets| && offsets[k].lo <= p < offsets[k].hi
    }
  }

  /** The latest bitmap file of a segment. */
  datatype Bitmap = Bitmap(bits: seq<bool>, deleteCount: nat)

  ghost predicate BitmapOk(f: SegmentFile, b: Bitmap) {
    f.Ok() && |b.bits| == |f.rows| && b.deleteCount == CountSet(b.bits)
  }

  /** The directory: the scanned files, ascending and disjoint, each with its bitmap. */
  ghost predicate DiskOk(files: seq<SegmentFile>, disk: seq<Bitmap>) {
    && |files| == |disk|
    && (forall i {:trigger BitmapOk(files[i], disk[i])} :: 0 <= i < |files| ==> BitmapOk(files[i], disk[i]))
    && (forall i, j :: 0 <= i < j < |files| ==> EndsBefore(files[i], files[j]))
  }

  ghost predicate EndsBefore(f: SegmentFile, g: SegmentFile) {
    f.end < g.start
  }

  /* ---- What recovery should mask ---- */

  ghost predicate Beyond(f: SegmentFile, max: nat, p: nat)
    requires f.Ok()
  {
    exists k :: f.At(k, p) && f.offsets[k].sid > max
  }

  /** The row's memtable is listed in the status pages, but the row is not. */
  ghost predicate Missing(f: SegmentFile, sids: seq<nat>, status: map<nat, seq<int>>, p: nat)
    requires f.Ok() && p < |f.rows|
  {
    exists k :: f.At(k, p) && f.offsets[k].sid in sids && f.rows[p] !in Recorded(status, f.offsets[k].sid)
  }

  /** The row ids the status pages record for a memtable. */
  function Recorded(status: map<nat, seq<int>>, sid: nat): seq<int> {
    if sid in status then status[sid] else []
  }

  /* ---- One file ---- */

  /** Masks the rows `[lo, hi)` that are not masked yet. */
  method MaskRange(bitmap: array<bool>, lo: nat, hi: nat, rows: seq<int>, keep: seq<int>) returns (added: nat)
    requires lo <= hi <= bitmap.Length == |rows|
    modifies bitmap
    ensures forall p :: 0 <= p < bitmap.Length ==> bitmap[p] == (old(bitmap[p]) || (lo <= p < hi && rows[p] !in keep))
    ensures CountSet(bitmap[..]) == CountSet(old(bitmap[..])) + added
  {
    added := 0;
    for v := lo to hi
      invariant forall p :: 0 <= p < bitmap.Length ==> bitmap[p] == (old(bitmap[p]) || (lo <= p < v && rows[p] !in keep))
      invariant CountSet(bitmap[..]) == CountSet(old(bitmap[..])) + added
    {
      if rows[v] !in keep && !bitmap[v] {
        SetSlot(bitmap, v);
        added := added + 1;
      }
    }
  }

  /** Some slice among the first `n` holds row `p` and belongs to a memtable beyond the maximum. */
  ghost predicate BeyondUpTo(f: SegmentFile, max: nat, p: nat, n: nat)
    requires f.Ok()
  {
    exists k :: k < n && f.At(k, p) && f.offsets[k].sid > max
  }

  lemma BeyondStep(f: SegmentFile, max: nat, p: nat, n: nat)
    requires f.Ok() && n < |f.offsets|
    ensures BeyondUpTo(f, max, p, n + 1) <==> BeyondUpTo(f, max, p, n) || (f.At(n, p) && f.offsets[n].sid > max)
  {
    if BeyondUpTo(f, max, p, n) {
      var k :| k < n && f.At(k, p) && f.offsets[k].sid > max;
      assert k < n + 1;
    }
  }

  /** Step 1 for one file. */
  method MaskBeyond(f: SegmentFile, bitmap: array<bool>, max: nat) returns (added: nat)
    requires f.Ok() && bitmap.Length == |f.rows|
    modifies bitmap
    ensures forall p :: 0 <= p < |f.rows| ==> bitmap[p] == (old(bitmap[p]) || Beyond(f, max, p))
    ensures CountSet(bitmap[..]) == CountSet(old(bitmap[..])) + added
  {
    added := 0;
    for k := 0 to |f.offsets|
      invariant forall p :: 0 <= p < |f.rows| ==> bitmap[p] == (old(bitmap[p]) || BeyondUpTo(f, max, p, k))
      invariant CountSet(bitmap[..]) == CountSet(old(bitmap[..])) + added
    {
      forall p: nat ensures BeyondUpTo(f, max, p, k + 1) <==> BeyondUpTo(f, max, p, k) || (f.At(k, p) && f.offsets[k].sid > max) {
        BeyondStep(f, max, p, k);
      }
      if f.offsets[k].sid <= max || f.offsets[k].lo == f.offsets[k].hi {
        continue;
      }
      var n := MaskRange(bitmap, f.offsets[k].lo, f.offsets[k].hi, f.rows, []);
      added := added + n;
    }
  }

  ghost predicate MissingUpTo(f: SegmentFile, sids: seq<nat>, status: map<nat, seq<int>>, p: nat, n: nat)
    requires f.Ok() && p < |f.rows|
  {
    exists k :: k < n && f.At(k, p) && f.offsets[k].sid in sids && f.rows[p] !in Recorded(status, f.offsets[k].sid)
  }

  lemma MissingStep(f: SegmentFile, sids: seq<nat>, status: map<nat, seq<int>>, p: nat, n: nat)
    requires f.Ok() && p < |f.rows| && n < |f.offsets|
    ensures MissingUpTo(f, sids, status, p, n + 1) <==>
            (MissingUpTo(f, sids, status, p, n)
             || (f.At(n, p) && f.offsets[n].sid in sids && f.rows[p] !in Recorded(status, f.offsets[n].sid)))
  {
    if MissingUpTo(f, sids, status, p, n) {
      var k :| k < n && f.At(k, p) && f.offsets[k].sid in sids && f.rows[p] !in Recorded(status, f.offsets[k].sid);
      assert k < n + 1;
    }
  }

  /** Linear search among the sids from `from` on. */
  method Listed(sids: seq<nat>, from: nat, sid: nat) returns (found: bool)
    requires from <= |sids|
    ensures found <==> sid in sids[from..]
  {
    for i := from to |sids|
      invariant sid !in sids[from..i]
    {
      if sids[i] == sid {
        return true;
      }
    }
    assert sids[from..|sids|] == sids[from..];
    return false;
  }

  /** Step 2 for one file, given that the sids before `from` are beyond its range. */
  method MaskMissing(f: SegmentFile, bitmap: array<bool>, sids: seq<nat>, from: nat, status: map<nat, seq<int>>) returns (added: nat)
    requires f.Ok() && bitmap.Length == |f.rows|
    requires from <= |sids| && forall i :: 0 <= i < from ==> sids[i] > f.end
    modifies bitmap
    ensures forall p :: 0 <= p < |f.rows| ==> bitmap[p] == (old(bitmap[p]) || Missing(f, sids, status, p))
    ensures CountSet(bitmap[..]) == CountSet(old(bitmap[..])) + added
  {
    added := 0;
    for k := 0 to |f.offsets|
      invariant forall p :: 0 <= p < |f.rows| ==> bitmap[p] == (old(bitmap[p]) || MissingUpTo(f, sids, status, p, k))
      invariant CountSet(bitmap[..]) == CountSet(old(bitmap[..])) + added
    {
      forall p: nat | p < |f.rows|
        ensures MissingUpTo(f, sids, status, p, k + 1) <==>
                (MissingUpTo(f, sids, status, p, k)
                 || (f.At(k, p) && f.offsets[k].sid in sids && f.rows[p] !in Recorded(status, f.offsets[k].sid)))
      {
        MissingStep(f, sids, status, p, k);
      }
      var sid := f.offsets[k].sid;
      var found := Listed(sids, from, sid);
      InRest(sids, from, sid, f.end);
      if !found || f.offsets[k].lo == f.offsets[k].hi {
        continue;
      }
      var n := MaskRange(bitmap, f.offsets[k].lo, f.offsets[k].hi, f.rows, Recorded(status, sid));
      added := added + n;
    }
  }

  lemma InRest(sids: seq<nat>, from: nat, sid: nat, end: nat)
    requires from <= |sids| && (forall i :: 0 <= i < from ==> sids[i] > end) && sid <= end
    ensures sid in sids[from..] <==> sid in sids
  {
    assert sids == sids[..from] + sids[from..];
  }

  /* ---- All files ---- */

  /** Files from `from` on have been treated, and the rest are as they were. */
  ghost predicate Treated1(files: seq<SegmentFile>, disk: seq<Bitmap>, disk': seq<Bitmap>, max: nat, i: nat)
    requires DiskOk(files, disk) && DiskOk(files, disk') && i < |files|
  {
    && BitmapOk(files[i], disk[i]) && BitmapOk(files[i], disk'[i])
    && forall p :: 0 <= p < |files[i].rows| ==> disk'[i].bits[p] == (disk[i].bits[p] || Beyond(files[i], max, p))
  }

  ghost predicate Treated2(files: seq<SegmentFile>, disk: seq<Bitmap>, disk': seq<Bitmap>, sids: seq<nat>,
                           status: map<nat, seq<int>>, i: nat)
    requires DiskOk(files, disk) && DiskOk(files, disk') && i < |files|
  {
    && BitmapOk(files[i], disk[i]) && BitmapOk(files[i], disk'[i])
    && forall p :: 0 <= p < |files[i].rows| ==> disk'[i].bits[p] == (disk[i].bits[p] || Missing(files[i], sids, status, p))
  }

  /** Loads, masks and writes back one file in step 1. */
  method Rewrite1(f: SegmentFile, b: Bitmap, max: nat) returns (b': Bitmap)
    requires BitmapOk(f, b)
    ensures BitmapOk(f, b')
    ensures forall p :: 0 <= p < |f.rows| ==> b'.bits[p] == (b.bits[p] || Beyond(f, max, p))
  {
    var bitmap := new bool[|b.bits|](i requires 0 <= i < |b.bits| => b.bits[i]);
    assert bitmap[..] == b.bits;
    var added := MaskBeyond(f, bitmap, max);
    b' := Bitmap(bitmap[..], b.deleteCount + added);
  }

  /** The same in step 2; nothing is written if no bit changed. */
  method Rewrite2(f: SegmentFile, b: Bitmap, sids: seq<nat>, from: nat, status: map<nat, seq<int>>) returns (b': Bitmap)
    requires BitmapOk(f, b) && from <= |sids| && forall i :: 0 <= i < from ==> sids[i] > f.end
    ensures BitmapOk(f, b')
    ensures forall p :: 0 <= p < |f.rows| ==> b'.bits[p] == (b.bits[p] || Missing(f, sids, status, p))
  {
    var bitmap := new bool[|b.bits|](i requires 0 <= i < |b.bits| => b.bits[i]);
    assert bitmap[..] == b.bits;
    var added := MaskMissing(f, bitmap, sids, from, status);
    if added > 0 {
      b' := Bitmap(bitmap[..], b.deleteCount + added);
    } else {
      b' := b;
      NoneAdded(b.bits, bitmap[..]);
    }
  }

  lemma NoneAdded(a: seq<bool>, b: seq<bool>)
    requires |a| == |b| && (forall p :: 0 <= p < |a| ==> (a[p] ==> b[p])) && CountSet(a) == CountSet(b)
    ensures a == b
  {
    MoreSet(a, b);
  }

  /** A file that ends at or before the maximum has no row beyond it. */
  lemma NoneBeyond(f: SegmentFile, max: nat)
    requires f.Ok() && f.end <= max
    ensures forall p: nat :: !Beyond(f, max, p)
  {
  }

  /** A file at or before one that ends within the maximum needs no treatment in step 1. */
  lemma PassedOver(files: seq<SegmentFile>, disk: seq<Bitmap>, disk': seq<Bitmap>, max: nat, i: nat, j: nat)
    requires DiskOk(files, disk) && DiskOk(files, disk') && j < i <= |files| && files[i - 1].end <= max
    requires disk'[j] == disk[j]
    ensures Treated1(files, disk, disk', max, j)
  {
    assert BitmapOk(files[j], disk[j]) && BitmapOk(files[i - 1], disk[i - 1]);
    assert j < i - 1 ==> EndsBefore(files[j], files[i - 1]);
    NoneBeyond(files[j], max);
  }

  /** Step 1: walks the files from the last and stops at the first that ends within the maximum. */
  method Step1(files: seq<SegmentFile>, disk: seq<Bitmap>, max: nat) returns (disk': seq<Bitmap>)
    requires DiskOk(files, disk)
    ensures DiskOk(files, disk')
    ensures forall i :: 0 <= i < |files| ==> Treated1(files, disk, disk', max, i)
  {
    disk' := disk;
    var i: nat := |files|;
    while i > 0 && files[i - 1].end > max
      invariant i <= |files| && DiskOk(files, disk')
      invariant forall j :: 0 <= j < i ==> disk'[j] == disk[j]
      invariant forall j :: i <= j < |files| ==> Treated1(files, disk, disk', max, j)
    {
      i := i - 1;
      var b := Rewrite1(files[i], disk[i], max);
      ghost var before := disk';
      disk' := disk'[i := b];
      forall j | i < j < |files| ensures Treated1(files, disk, disk', max, j) {
        assert Treated1(files, disk, before, max, j);
      }
    }
    forall j: nat | j < i ensures Treated1(files, disk, disk', max, j) {
      PassedOver(files, disk, disk', max, i, j);
    }
  }

  /** A file whose range holds no listed sid has no missing row. */
  lemma NoneMissing(f: SegmentFile, sids: seq<nat>, status: map<nat, seq<int>>)
    requires f.Ok() && forall i :: 0 <= i < |sids| ==> sids[i] < f.start || f.end < sids[i]
    ensures forall p: nat :: p < |f.rows| ==> !Missing(f, sids, status, p)
  {
  }

  ghost predicate Descending(sids: seq<nat>) {
    forall i, j :: 0 <= i < j < |sids| ==> NotBelow(sids, i, j)
  }

  ghost predicate NotBelow(sids: seq<nat>, i: nat, j: nat)
    requires i < |sids| && j < |sids|
  {
    sids[i] >= sids[j]
  }

  /** A file that starts above the sids from `s` on, and ends below those before, holds none of them. */
  lemma HoldsNone(f: SegmentFile, sids: seq<nat>, status: map<nat, seq<int>>, s: nat)
    requires f.Ok() && Descending(sids) && s <= |sids|
    requires forall i :: 0 <= i < s ==> sids[i] > f.end
    requires s < |sids| ==> sids[s] < f.start
    ensures forall p: nat :: p < |f.rows| ==> !Missing(f, sids, status, p)
  {
    forall i | s < i < |sids| ensures sids[i] < f.start {
      assert NotBelow(sids, s, i);
    }
    NoneMissing(f, sids, status);
  }

  /** If even the smallest sid is beyond the last file, all sids are beyond all files. */
  lemma AllBeyond(files: seq<SegmentFile>, disk: seq<Bitmap>, sids: seq<nat>, j: nat)
    requires DiskOk(files, disk) && Descending(sids) && j < |files|
    requires |sids| == 0 || files[|files| - 1].end < sids[|sids| - 1]
    ensures forall i :: 0 <= i < |sids| ==> sids[i] > files[j].end
  {
    assert BitmapOk(files[j], disk[j]) && BitmapOk(files[|files| - 1], disk[|files| - 1]);
    assert j < |files| - 1 ==> EndsBefore(files[j], files[|files| - 1]);
    forall i | 0 <= i < |sids| ensures sids[i] > files[j].end {
      assert i < |sids| - 1 ==> NotBelow(sids, i, |sids| - 1);
    }
  }

  /** Files from `f` on are done, those before are as they were. */
  ghost predicate TreatedFrom(files: seq<SegmentFile>, disk: seq<Bitmap>, disk': seq<Bitmap>, sids: seq<nat>,
                              status: map<nat, seq<int>>, f: nat)
    requires DiskOk(files, disk) && DiskOk(files, disk')
  {
    && (forall j :: 0 <= j < f && j < |files| ==> disk'[j] == disk[j])
    && (forall j: nat :: f <= j < |files| ==> Treated2(files, disk, disk', sids, status, j))
  }

  lemma TreatOne(files: seq<SegmentFile>, disk: seq<Bitmap>, before: seq<Bitmap>, sids: seq<nat>,
                 status: map<nat, seq<int>>, f: nat, b: Bitmap)
    requires DiskOk(files, disk) && DiskOk(files, before) && 0 < f <= |files| && TreatedFrom(files, disk, before, sids, status, f)
    requires BitmapOk(files[f - 1], b) && BitmapOk(files[f - 1], disk[f - 1])
    requires forall p :: 0 <= p < |files[f - 1].rows| ==>
      b.bits[p] == (disk[f - 1].bits[p] || Missing(files[f - 1], sids, status, p))
    ensures DiskOk(files, before[f - 1 := b]) && TreatedFrom(files, disk, before[f - 1 := b], sids, status, f - 1)
  {
    var now := before[f - 1 := b];
    forall j: nat | f <= j < |files| ensures Treated2(files, disk, now, sids, status, j) {
      assert Treated2(files, disk, before, sids, status, j);
    }
  }

  /** What is left when the sids, or their overlap with the files, run out. */
  lemma Untreated(files: seq<SegmentFile>, disk: seq<Bitmap>, sids: seq<nat>, status: map<nat, seq<int>>, f: nat, s: nat, j: nat)
    requires DiskOk(files, disk) && Descending(sids) && j < f <= |files| && s <= |sids|
    requires |sids| == 0 || files[|files| - 1].end < sids[|sids| - 1]
          || (s == |sids| && forall i :: 0 <= i < s ==> sids[i] > files[f - 1].end)
    ensures BitmapOk(files[j], disk[j]) && forall p: nat :: p < |files[j].rows| ==> !Missing(files[j], sids, status, p)
  {
    assert BitmapOk(files[j], disk[j]) && BitmapOk(files[f - 1], disk[f - 1]);
    assert j < f - 1 ==> EndsBefore(files[j], files[f - 1]);
    if |sids| == 0 || files[|files| - 1].end < sids[|sids| - 1] {
      AllBeyond(files, disk, sids, j);
    }
    HoldsNone(files[j], sids, status, |sids|);
  }

  /** Step 2: files and listed sids are walked down together; no file with a listed sid is missed. */
  method Step2(files: seq<SegmentFile>, disk: seq<Bitmap>, sids: seq<nat>, status: map<nat, seq<int>>) returns (disk': seq<Bitmap>)
    requires DiskOk(files, disk) && Descending(sids)
    ensures DiskOk(files, disk')
    ensures forall i :: 0 <= i < |files| ==> Treated2(files, disk, disk', sids, status, i)
  {
    disk' := disk;
    var f: nat, s: nat := |files|, 0;
    if |sids| > 0 && |files| > 0 && files[|files| - 1].end >= sids[|sids| - 1] {
      while f > 0 && s < |sids|
        invariant f <= |files| && s <= |sids| && DiskOk(files, disk')
        invariant f > 0 ==> forall i :: 0 <= i < s ==> sids[i] > files[f - 1].end
        invariant TreatedFrom(files, disk, disk', sids, status, f)
        decreases f + (|sids| - s)
      {
        if sids[s] > files[f - 1].end {
          s := s + 1;
          continue;
        }
        var b := disk[f - 1];
        assert BitmapOk(files[f - 1], b);
        if files[f - 1].start <= sids[s] && files[f - 1].end >= sids[s] {
          b := Rewrite2(files[f - 1], disk[f - 1], sids, s, status);
        } else {
          HoldsNone(files[f - 1], sids, status, s);
        }
        TreatOne(files, disk, disk', sids, status, f, b);
        disk' := disk'[f - 1 := b];
        f := f - 1;
        assert f > 0 ==> EndsBefore(files[f - 1], files[f]);
      }
    }
    forall j: nat | j < f ensures Treated2(files, disk, disk', sids, status, j) {
      Untreated(files, disk, sids, status, f, s, j);
    }
  }

  /** The largest sid whose rows may be kept: the growing memtable counts only if it is listed. */
  function RecoveredMaximum(sids: seq<nat>, growing: nat): nat
    requires |sids| > 0 && Descending(sids) && sids[0] <= growing
  {
    if sids[0] == growing then growing else growing - 1
  }

  /** A stored row is masked if it was, if its sid is beyond the maximum, or if it is listed without being recorded. */
  ghost predicate Recovered(f: SegmentFile, was: Bitmap, now: Bitmap, max: nat, sids: seq<nat>, status: map<nat, seq<int>>) {
    && BitmapOk(f, was) && BitmapOk(f, now)
    && forall p :: 0 <= p < |f.rows| ==> (now.bits[p] <==> was.bits[p] || Beyond(f, max, p) || Missing(f, sids, status, p))
  }

  /**
    Which row this is, told by the slice that holds it: masked before, of a memtable younger than the
    growing one, of the growing one when that is not listed, or of a listed one that does not record it.
   */
  ghost predicate IsUnvouched(f: SegmentFile, was: Bitmap, sids: seq<nat>, growing: nat, status: map<nat, seq<int>>, k: nat, p: nat)
    requires BitmapOk(f, was) && f.At(k, p)
  {
    var sid := f.offsets[k].sid;
    || was.bits[p]
    || sid > growing
    || (sid == growing && growing !in sids)
    || (sid in sids && (sid in status ==> f.rows[p] !in status[sid]))
  }

  ghost predicate MasksUnvouched(f: SegmentFile, was: Bitmap, now: Bitmap, sids: seq<nat>, growing: nat, status: map<nat, seq<int>>) {
    && BitmapOk(f, was) && BitmapOk(f, now)
    && forall k: nat, p: nat :: f.At(k, p) ==> (now.bits[p] <==> IsUnvouched(f, was, sids, growing, status, k, p))
  }

  lemma OneSlice(f: SegmentFile, k: nat, j: nat, p: nat)
    requires f.Ok() && f.At(k, p) && f.At(j, p)
    ensures k == j
  {
    assert f.offsets[k].sid > 0 && f.offsets[j].sid > 0;
  }

  lemma RecoveredMasksUnvouched(f: SegmentFile, was: Bitmap, now: Bitmap, sids: seq<nat>, growing: nat, status: map<nat, seq<int>>)
    requires |sids| > 0 && Descending(sids) && sids[0] <= growing
    requires Recovered(f, was, now, RecoveredMaximum(sids, growing), sids, status)
    ensures MasksUnvouched(f, was, now, sids, growing, status)
  {
    ListedIffFirst(sids, growing);
    var max := RecoveredMaximum(sids, growing);
    forall k: nat, p: nat | f.At(k, p) ensures now.bits[p] <==> IsUnvouched(f, was, sids, growing, status, k, p) {
      forall j: nat | f.At(j, p) ensures j == k {
        OneSlice(f, k, j, p);
      }
      assert Beyond(f, max, p) <==> f.offsets[k].sid > max;
      assert Missing(f, sids, status, p) <==> f.offsets[k].sid in sids && f.rows[p] !in Recorded(status, f.offsets[k].sid);
    }
  }

  lemma ListedIffFirst(sids: seq<nat>, growing: nat)
    requires |sids| > 0 && Descending(sids) && sids[0] <= growing
    ensures growing in sids <==> sids[0] == growing
  {
    if growing in sids {
      var i :| 0 <= i < |sids| && sids[i] == growing;
      assert i > 0 ==> NotBelow(sids, 0, i);
    }
  }

  /**
    Steps 1 and 2: a stored row ends up masked exactly when it was masked, its sid is beyond the
    recovered maximum, or its sid is listed in the status pages and the row is not recorded there.
   */
  method Recover(files: seq<SegmentFile>, disk: seq<Bitmap>, sids: seq<nat>, growing: nat, status: map<nat, seq<int>>)
    returns (disk': seq<Bitmap>)
    requires DiskOk(files, disk) && |sids| > 0 && Descending(sids) && sids[0] <= growing
    ensures DiskOk(files, disk')
    ensures forall i :: 0 <= i < |files| ==>
      Recovered(files[i], disk[i], disk'[i], RecoveredMaximum(sids, growing), sids, status)
    ensures forall i :: 0 <= i < |files| ==> MasksUnvouched(files[i], disk[i], disk'[i], sids, growing, status)
  {
    var disk1 := Step1(files, disk, RecoveredMaximum(sids, growing));
    disk' := Step2(files, disk1, sids, status);
    forall i | 0 <= i < |files|
      ensures Recovered(files[i], disk[i], disk'[i], RecoveredMaximum(sids, growing), sids, status)
      ensures MasksUnvouched(files[i], disk[i], disk'[i], sids, growing, status)
    {
      assert Treated1(files, disk, disk1, RecoveredMaximum(sids, growing), i);
      assert Treated2(files, disk1, disk', sids, status, i);
      RecoveredMasksUnvouched(files[i], disk[i], disk'[i], sids, growing, status);
    }
  }
}
