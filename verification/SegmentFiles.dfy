/**
  Segment files on disk: which versions a directory scan picks, and why that is the pool's live list
  after any run of flushes, rebuilds and merges, wherever a crash cuts a write short.
 */
module SegmentFiles {
  import opened FiniteSets

  const MAX_SEGMENTS_COUNT := 1024
  /** The scan's "nothing accepted yet"; no sid takes this value. */
  const NO_SID: nat := 0xFFFF_FFFF

  /** A segment's sid range and the version of its files. */
  datatype FileInfo = FileInfo(start: nat, end: nat, version: nat) {
    function Range(): (nat, nat) {
      (start, end)
    }
  }

  ghost predicate Within(a: FileInfo, b: FileInfo) {
    b.start <= a.start && a.end <= b.end
  }

  ghost predicate Disjoint(a: FileInfo, b: FileInfo) {
    a.end < b.start || b.end < a.start
  }

  ghost predicate WellRanged(f: FileInfo) {
    f.start <= f.end < NO_SID
  }

  /** Any two ranges are nested or disjoint. */
  ghost predicate Laminar(files: set<FileInfo>) {
    && (forall f :: f in files ==> WellRanged(f))
    && (forall f, g :: f in files && g in files ==> Disjoint(f, g) || Within(f, g) || Within(g, f))
  }

  /* ---- What a scan should return ---- */

  ghost predicate Before(a: FileInfo, b: FileInfo) {
    a.end < b.start
  }

  ghost predicate Ascending(out: seq<FileInfo>) {
    && (forall i :: 0 <= i < |out| ==> WellRanged(out[i]))
    && (forall i, j :: 0 <= i < j < |out| ==> Before(out[i], out[j]))
  }

  /** `f` is on disk and no file of its range has a higher version. */
  ghost predicate IsLatest(files: set<FileInfo>, f: FileInfo) {
    f in files && forall g :: g in files && g.Range() == f.Range() ==> g.version <= f.version
  }

  ghost predicate AllLatest(files: set<FileInfo>, table: seq<FileInfo>) {
    forall i {:trigger IsLatest(files, table[i])} :: 0 <= i < |table| ==> IsLatest(files, table[i])
  }

  ghost predicate WithinSome(f: FileInfo, out: seq<FileInfo>) {
    exists i :: 0 <= i < |out| && Within(f, out[i])
  }

  /** The maximal ranges on disk, ascending, each with its highest version. */
  ghost predicate IsScanOf(files: set<FileInfo>, out: seq<FileInfo>) {
    && Ascending(out)
    && AllLatest(files, out)
    && (forall f {:trigger WithinSome(f, out)} :: f in files ==> WithinSome(f, out))
  }

  lemma EndsAscend(out: seq<FileInfo>)
    requires Ascending(out)
    ensures forall i, j :: 0 <= i < j < |out| ==> out[i].start <= out[i].end < out[j].start <= out[j].end
  {
    forall i, j | 0 <= i < j < |out| ensures out[i].start <= out[i].end < out[j].start <= out[j].end {
      assert Before(out[i], out[j]);
    }
  }

  lemma ScannedInBoth(files: set<FileInfo>, a: seq<FileInfo>, b: seq<FileInfo>, i: nat)
    requires IsScanOf(files, a) && IsScanOf(files, b) && i < |a|
    ensures a[i] in b
  {
    assert IsLatest(files, a[i]) && WithinSome(a[i], b);
    var k :| 0 <= k < |b| && Within(a[i], b[k]);
    assert IsLatest(files, b[k]) && WithinSome(b[k], a);
    var l :| 0 <= l < |a| && Within(b[k], a[l]);
    EndsAscend(a);
  }

  lemma {:induction false} AscendingIsUnique(a: seq<FileInfo>, b: seq<FileInfo>)
    requires Ascending(a) && Ascending(b)
    requires forall f :: f in a <==> f in b
    ensures a == b
  {
    assert a != [] ==> a[0] in a;
    assert b != [] ==> b[0] in b;
    if a != [] && b != [] {
      var k :| 0 <= k < |b| && b[k] == a[0];
      var l :| 0 <= l < |a| && a[l] == b[0];
      EndsAscend(a);
      EndsAscend(b);
      assert a[0] == b[0];
      TailElements(a, b);
      AscendingIsUnique(a[1..], b[1..]);
    }
  }

  lemma TailElements(a: seq<FileInfo>, b: seq<FileInfo>)
    requires |a| > 0 && |b| > 0 && a[0] == b[0] && Ascending(a) && Ascending(b)
    requires forall f :: f in a <==> f in b
    ensures Ascending(a[1..]) && Ascending(b[1..])
    ensures forall f :: f in a[1..] <==> f in b[1..]
  {
    forall f ensures f in a[1..] <==> f in a && f != a[0] {
      assert f in a <==> f == a[0] || f in a[1..];
      if f in a[1..] {
        var k :| 0 <= k < |a| - 1 && a[1..][k] == f;
        assert Before(a[0], a[k + 1]);
      }
    }
    forall f ensures f in b[1..] <==> f in b && f != b[0] {
      assert f in b <==> f == b[0] || f in b[1..];
      if f in b[1..] {
        var k :| 0 <= k < |b| - 1 && b[1..][k] == f;
        assert Before(b[0], b[k + 1]);
      }
    }
  }

  /** A set of files has at most one scan. */
  lemma ScanIsUnique(files: set<FileInfo>, a: seq<FileInfo>, b: seq<FileInfo>)
    requires IsScanOf(files, a) && IsScanOf(files, b)
    ensures a == b
  {
    forall f ensures f in a <==> f in b {
      if f in a {
        var i :| 0 <= i < |a| && a[i] == f;
        ScannedInBoth(files, a, b, i);
      }
      if f in b {
        var i :| 0 <= i < |b| && b[i] == f;
        ScannedInBoth(files, b, a, i);
      }
    }
    AscendingIsUnique(a, b);
  }

  /* ---- Building the table of ranges ---- */

  ghost predicate Listed(table: seq<FileInfo>, range: (nat, nat)) {
    exists i :: 0 <= i < |table| && table[i].Range() == range
  }

  ghost predicate AllListed(files: set<FileInfo>, table: seq<FileInfo>) {
    forall f {:trigger Listed(table, f.Range())} :: f in files ==> Listed(table, f.Range())
  }

  /** After reading `seen`, the table has one entry per range it knows, with the highest version seen. */
  ghost predicate TableOf(seen: set<FileInfo>, table: seq<FileInfo>) {
    && |table| <= MAX_SEGMENTS_COUNT
    && (forall i, j :: 0 <= i < j < |table| ==> table[i].Range() != table[j].Range())
    && AllLatest(seen, table)
    && (|table| < MAX_SEGMENTS_COUNT ==> AllListed(seen, table))
  }

  ghost function Ranges(files: set<FileInfo>): set<(nat, nat)> {
    set f | f in files :: f.Range()
  }

  method FindEntry(table: seq<FileInfo>, start: nat, end: nat) returns (idx: nat)
    ensures idx <= |table| && (idx < |table| ==> table[idx].start == start && table[idx].end == end)
    ensures forall i :: 0 <= i < idx ==> table[i].Range() != (start, end)
  {
    idx := 0;
    while idx < |table| && !(table[idx].start == start && table[idx].end == end)
      invariant idx <= |table| && forall i :: 0 <= i < idx ==> table[i].Range() != (start, end)
    {
      idx := idx + 1;
    }
  }

  ghost function Elements(dir: seq<FileInfo>): set<FileInfo> {
    set f | f in dir
  }

  method BuildTable(dir: seq<FileInfo>) returns (table: seq<FileInfo>)
    ensures TableOf(Elements(dir), table)
  {
    table := [];
    for i := 0 to |dir|
      invariant TableOf(Elements(dir[..i]), table)
    {
      var f := dir[i];
      assert Elements(dir[..i + 1]) == Elements(dir[..i]) + {f};
      var idx := FindEntry(table, f.start, f.end);
      TableStep(Elements(dir[..i]), table, f, idx);
      if idx == |table| {
        if |table| < MAX_SEGMENTS_COUNT {
          table := table + [f];
        }
      } else if f.version > table[idx].version {
        table := table[idx := table[idx].(version := f.version)];
      }
    }
    assert dir[..|dir|] == dir;
  }

  lemma TableStep(seen: set<FileInfo>, table: seq<FileInfo>, f: FileInfo, idx: nat)
    requires TableOf(seen, table) && idx <= |table| && (idx < |table| ==> table[idx].Range() == f.Range())
    requires forall i :: 0 <= i < idx ==> table[i].Range() != f.Range()
    ensures TableOf(seen + {f},
                    if idx == |table| then (if |table| < MAX_SEGMENTS_COUNT then table + [f] else table)
                    else if f.version > table[idx].version then table[idx := table[idx].(version := f.version)] else table)
  {
    var now := if idx == |table| then (if |table| < MAX_SEGMENTS_COUNT then table + [f] else table)
               else if f.version > table[idx].version then table[idx := table[idx].(version := f.version)] else table;
    forall g | g in seen && idx == |table| < MAX_SEGMENTS_COUNT ensures g.Range() != f.Range() {
      assert Listed(table, g.Range());
    }
    forall i | 0 <= i < |now| ensures IsLatest(seen + {f}, now[i]) {
      assert i < |table| ==> IsLatest(seen, table[i]);
    }
    if |now| < MAX_SEGMENTS_COUNT {
      forall g | g in seen + {f} ensures Listed(now, g.Range()) {
        if g in seen {
          assert Listed(table, g.Range());
          var i :| 0 <= i < |table| && table[i].Range() == g.Range();
          assert now[i].Range() == g.Range();
        } else {
          assert now[if idx == |table| then |table| else idx].Range() == g.Range();
        }
      }
    }
  }

  /** If no more ranges are on disk than the table holds, none is missing from it. */
  lemma TableIsComplete(seen: set<FileInfo>, table: seq<FileInfo>)
    requires TableOf(seen, table) && |Ranges(seen)| <= MAX_SEGMENTS_COUNT
    ensures AllListed(seen, table)
  {
    if |table| == MAX_SEGMENTS_COUNT {
      var listed := set i | 0 <= i < |table| :: table[i].Range();
      CountDistinct(table, |table|);
      forall i | 0 <= i < |table| ensures table[i].Range() in Ranges(seen) {
        assert IsLatest(seen, table[i]);
      }
      assert listed <= Ranges(seen);
      SubsetOfSameSize(listed, Ranges(seen));
      forall f | f in seen ensures Listed(table, f.Range()) {
        assert f.Range() in listed;
      }
    }
  }

  lemma {:induction false} CountDistinct(table: seq<FileInfo>, n: nat)
    requires n <= |table|
    requires forall i, j :: 0 <= i < j < |table| ==> table[i].Range() != table[j].Range()
    ensures |set i | 0 <= i < n :: table[i].Range()| == n
  {
    if n > 0 {
      CountDistinct(table, n - 1);
      var before := set i | 0 <= i < n - 1 :: table[i].Range();
      assert (set i | 0 <= i < n :: table[i].Range()) == before + {table[n - 1].Range()};
      assert table[n - 1].Range() !in before;
    }
  }

  /* ---- Sorting ---- */

  /** By start, and for the same start the wider range first. */
  predicate Precedes(a: FileInfo, b: FileInfo) {
    a.start < b.start || (a.start == b.start && a.end > b.end)
  }

  ghost predicate Sorted(table: seq<FileInfo>) {
    forall i, j :: 0 <= i < j < |table| ==> Precedes(table[i], table[j])
  }

  /** Inserts before the first entry that does not precede. */
  method InsertSorted(table: seq<FileInfo>, f: FileInfo) returns (r: seq<FileInfo>)
    requires Sorted(table) && forall i :: 0 <= i < |table| ==> table[i].Range() != f.Range()
    ensures Sorted(r) && |r| == |table| + 1
    ensures forall g :: g in r <==> g in table || g == f
  {
    var p := 0;
    while p < |table| && Precedes(table[p], f)
      invariant p <= |table| && forall i :: 0 <= i < p ==> Precedes(table[i], f)
    {
      p := p + 1;
    }
    r := table[..p] + [f] + table[p..];
    assert table == table[..p] + table[p..];
  }

  method SortTable(table: seq<FileInfo>) returns (r: seq<FileInfo>)
    requires forall i, j :: 0 <= i < j < |table| ==> table[i].Range() != table[j].Range()
    ensures Sorted(r) && |r| == |table| && forall g :: g in r <==> g in table
  {
    r := [];
    for i := 0 to |table|
      invariant Sorted(r) && |r| == i && forall g :: g in r <==> g in table[..i]
    {
      forall k | 0 <= k < |r| ensures r[k].Range() != table[i].Range() {
        assert r[k] in table[..i];
        var j :| 0 <= j < i && table[j] == r[k];
      }
      r := InsertSorted(r, table[i]);
    }
  }

  /* ---- The greedy pass ---- */

  /** What has been accepted of the first `i` sorted entries. */
  ghost predicate GreedyTo(table: seq<FileInfo>, i: nat, out: seq<FileInfo>, largestEnd: nat)
    requires i <= |table|
  {
    && Ascending(out)
    && (forall k :: 0 <= k < |out| ==> out[k] in table[..i])
    && largestEnd == (if out == [] then NO_SID else out[|out| - 1].end)
    && (forall j {:trigger WithinSome(table[j], out)} :: 0 <= j < i ==> WithinSome(table[j], out))
  }

  ghost predicate LaminarTable(table: seq<FileInfo>) {
    && (forall i :: 0 <= i < |table| ==> WellRanged(table[i]))
    && (forall i, j :: 0 <= i < j < |table| ==> Compatible(table[i], table[j]))
  }

  ghost predicate Compatible(a: FileInfo, b: FileInfo) {
    Disjoint(a, b) || Within(a, b) || Within(b, a)
  }

  lemma SkipIsCovered(table: seq<FileInfo>, i: nat, out: seq<FileInfo>, largestEnd: nat)
    requires LaminarTable(table) && Sorted(table) && i < |table| && GreedyTo(table, i, out, largestEnd)
    requires largestEnd != NO_SID && table[i].start <= largestEnd
    ensures GreedyTo(table, i + 1, out, largestEnd)
  {
    var last := out[|out| - 1];
    assert last in table[..i];
    var k :| 0 <= k < i && table[k] == last;
    assert Precedes(table[k], table[i]) && Compatible(table[k], table[i]);
    assert Within(table[i], last);
    assert WithinSome(table[i], out);
  }

  lemma AcceptExtends(table: seq<FileInfo>, i: nat, out: seq<FileInfo>, largestEnd: nat)
    requires LaminarTable(table) && i < |table| && GreedyTo(table, i, out, largestEnd)
    requires largestEnd == NO_SID || largestEnd < table[i].start
    ensures GreedyTo(table, i + 1, out + [table[i]], table[i].end)
  {
    var now := out + [table[i]];
    forall k, l | 0 <= k < l < |now| ensures Before(now[k], now[l]) {
      if l < |out| {
        assert Before(out[k], out[l]);
      } else {
        assert k < |out| - 1 ==> Before(out[k], out[|out| - 1]);
      }
    }
    forall j | 0 <= j < i + 1 ensures WithinSome(table[j], now) {
      if j < i {
        assert WithinSome(table[j], out);
        var k :| 0 <= k < |out| && Within(table[j], out[k]);
        assert now[k] == out[k];
      } else {
        assert Within(table[j], now[|out|]);
      }
    }
  }

  /** Emits each sorted entry that starts after everything emitted so far. */
  method Greedy(table: seq<FileInfo>, maxFiles: nat) returns (out: seq<FileInfo>)
    requires Sorted(table) && LaminarTable(table) && |table| <= maxFiles
    ensures exists largestEnd :: GreedyTo(table, |table|, out, largestEnd)
  {
    var largestEnd := NO_SID;
    out := [];
    var i := 0;
    while i < |table| && |out| < maxFiles
      invariant i <= |table| && |out| <= i && GreedyTo(table, i, out, largestEnd)
    {
      if largestEnd != NO_SID && table[i].start <= largestEnd {
        SkipIsCovered(table, i, out, largestEnd);
      } else {
        AcceptExtends(table, i, out, largestEnd);
        out := out + [table[i]];
        largestEnd := table[i].end;
      }
      i := i + 1;
    }
  }

  ghost predicate IsListing(dir: seq<FileInfo>, files: set<FileInfo>) {
    forall f :: f in dir <==> f in files
  }

  /** The files fit the scan: ranges of one merge history, and no more of them than the table holds. */
  ghost predicate Scannable(files: set<FileInfo>) {
    Laminar(files) && |Ranges(files)| <= MAX_SEGMENTS_COUNT
  }

  lemma SortedTable(files: set<FileInfo>, table: seq<FileInfo>, sorted: seq<FileInfo>)
    requires Scannable(files) && TableOf(files, table) && Sorted(sorted) && forall g :: g in sorted <==> g in table
    ensures LaminarTable(sorted)
    ensures AllLatest(files, sorted) && AllListed(files, sorted)
  {
    TableIsComplete(files, table);
    forall i | 0 <= i < |sorted| ensures IsLatest(files, sorted[i]) {
      assert sorted[i] in table;
      var k :| 0 <= k < |table| && table[k] == sorted[i];
    }
    forall f | f in files ensures Listed(sorted, f.Range()) {
      assert Listed(table, f.Range());
      var k :| 0 <= k < |table| && table[k].Range() == f.Range();
      assert table[k] in sorted;
      var i :| 0 <= i < |sorted| && sorted[i] == table[k];
    }
  }

  lemma GreedyIsScan(files: set<FileInfo>, sorted: seq<FileInfo>, out: seq<FileInfo>, largestEnd: nat)
    requires AllLatest(files, sorted) && AllListed(files, sorted)
    requires GreedyTo(sorted, |sorted|, out, largestEnd)
    ensures IsScanOf(files, out)
  {
    forall k | 0 <= k < |out| ensures IsLatest(files, out[k]) {
      assert out[k] in sorted[..|sorted|];
      var i :| 0 <= i < |sorted| && sorted[i] == out[k];
      assert IsLatest(files, sorted[i]);
    }
    forall f | f in files ensures WithinSome(f, out) {
      assert Listed(sorted, f.Range());
      var j :| 0 <= j < |sorted| && sorted[j].Range() == f.Range();
      assert WithinSome(sorted[j], out);
      var k :| 0 <= k < |out| && Within(sorted[j], out[k]);
      assert Within(f, out[k]);
    }
  }

  /** The directory scan: whatever order the directory lists its files in, the result is their scan. */
  method ScanFiles(dir: seq<FileInfo>, ghost files: set<FileInfo>) returns (out: seq<FileInfo>)
    requires Scannable(files) && IsListing(dir, files)
    ensures IsScanOf(files, out)
  {
    assert Elements(dir) == files;
    var table := BuildTable(dir);
    var sorted := SortTable(table);
    SortedTable(files, table, sorted);
    out := Greedy(sorted, MAX_SEGMENTS_COUNT);
    ghost var largestEnd :| GreedyTo(sorted, |sorted|, out, largestEnd);
    GreedyIsScan(files, sorted, out, largestEnd);
  }

  /* ---- Writing a segment ---- */

  datatype Kind = IndexFile | BitmapFile | MappingFile | OffsetFile | MetadataFile

  /**
    What a directory entry is called: a segment's file under its own name, the temporary name a flush
    gives to metadata, or the temporary name a pull from the primary gives to any file.
   */
  datatype FileName = FileName(info: FileInfo, kind: Kind) | FlushTmp(info: FileInfo) | PullTmp(info: FileInfo, kind: Kind)

  /** The directory: file contents by name. */
  type Disk = map<FileName, int>

  /** The names the scan takes for metadata; it looks at how a name begins, not at how it ends. */
  ghost predicate LooksLikeMetadata(name: FileName) {
    !name.FlushTmp? && name.kind == MetadataFile
  }

  /** The segments a scan can see. */
  ghost function MetaFiles(disk: Disk): set<FileInfo> {
    set n | n in disk.Keys && LooksLikeMetadata(n) :: n.info
  }

  datatype Op = Create(name: FileName, content: int) | Rename(name: FileName, to: FileName)

  ghost function DoOp(disk: Disk, op: Op): Disk {
    match op
    case Create(name, content) => disk[name := content]
    case Rename(name, to) => if name in disk then (disk - {name})[to := disk[name]] else disk
  }

  /** The directory after the first `n` operations. */
  ghost function After(disk: Disk, ops: seq<Op>, n: nat): Disk
    requires n <= |ops|
  {
    if n == 0 then disk else DoOp(After(disk, ops, n - 1), ops[n - 1])
  }

  /** Some of index, bitmap, mapping and offsets, and the metadata last, by way of a temporary file. */
  ghost function FlushOps(f: FileInfo, kinds: seq<Kind>, content: Kind -> int): seq<Op> {
    seq(|kinds|, i requires 0 <= i < |kinds| => Create(FileName(f, kinds[i]), content(kinds[i]))) +
    [Create(FlushTmp(f), content(MetadataFile)), Rename(FlushTmp(f), FileName(f, MetadataFile))]
  }

  /** A standby pulls each file under a temporary name and then renames it, metadata last. */
  ghost function PullOps(f: FileInfo, kinds: seq<Kind>, content: Kind -> int): seq<Op> {
    seq(2 * |kinds|, i requires 0 <= i < 2 * |kinds| =>
      var kind := kinds[i / 2];
      if i % 2 == 0 then Create(PullTmp(f, kind), content(kind)) else Rename(PullTmp(f, kind), FileName(f, kind)))
  }

  /** Creating a file shows its segment if the name looks like metadata. */
  lemma CreateShows(disk: Disk, name: FileName, content: int)
    ensures MetaFiles(disk[name := content]) == MetaFiles(disk) + if LooksLikeMetadata(name) then {name.info} else {}
  {
    var now := disk[name := content];
    assert now.Keys == disk.Keys + {name};
    if LooksLikeMetadata(name) {
      assert name in now.Keys;
    }
  }

  /** Renaming shows the segment under the new name; it must not hide it by giving up the old one. */
  lemma RenameShows(disk: Disk, name: FileName, to: FileName)
    requires name in disk && name.info == to.info && (LooksLikeMetadata(name) ==> LooksLikeMetadata(to))
    ensures MetaFiles(DoOp(disk, Rename(name, to))) == MetaFiles(disk) + if LooksLikeMetadata(to) then {to.info} else {}
  {
    var now := DoOp(disk, Rename(name, to));
    assert now.Keys == disk.Keys - {name} + {to};
    if LooksLikeMetadata(to) {
      assert to in now.Keys;
    }
    forall x | x in MetaFiles(disk) ensures x in MetaFiles(now) {
      var n :| n in disk.Keys && LooksLikeMetadata(n) && n.info == x;
      assert n == name || n in now.Keys;
    }
  }

  /** A flush does not show until it is complete. */
  lemma {:induction false} FlushShows(disk: Disk, f: FileInfo, kinds: seq<Kind>, content: Kind -> int, n: nat)
    requires MetadataFile !in kinds && n <= |FlushOps(f, kinds, content)|
    ensures MetaFiles(After(disk, FlushOps(f, kinds, content), n)) ==
            if n < |FlushOps(f, kinds, content)| then MetaFiles(disk) else MetaFiles(disk) + {f}
    decreases n
  {
    if n > 0 {
      var ops := FlushOps(f, kinds, content);
      var before := After(disk, ops, n - 1);
      FlushShows(disk, f, kinds, content, n - 1);
      if n < |ops| {
        assert n <= |kinds| ==> kinds[n - 1] in kinds;
        CreateShows(before, ops[n - 1].name, ops[n - 1].content);
      } else {
        assert before == DoOp(After(disk, ops, n - 2), ops[n - 2]);
        RenameShows(before, FlushTmp(f), FileName(f, MetadataFile));
      }
    }
  }

  lemma MetadataComesLast(kinds: seq<Kind>, i: nat)
    requires i < |kinds| && MetadataFile !in kinds[..|kinds| - 1] && kinds[|kinds| - 1] == MetadataFile
    ensures kinds[i] == MetadataFile <==> i == |kinds| - 1
  {
    assert i < |kinds| - 1 ==> kinds[..|kinds| - 1][i] == kinds[i];
  }

  /** Creating and then renaming one file of a pull. */
  lemma PullRename(disk: Disk, f: FileInfo, kind: Kind, content: int)
    ensures var tmp := PullTmp(f, kind); var created := DoOp(disk, Create(tmp, content));
      MetaFiles(DoOp(created, Rename(tmp, FileName(f, kind)))) == MetaFiles(created) + if kind == MetadataFile then {f} else {}
  {
    RenameShows(disk[PullTmp(f, kind) := content], PullTmp(f, kind), FileName(f, kind));
  }

  /** What one operation of a pull shows. */
  lemma PullStepShows(disk: Disk, f: FileInfo, kinds: seq<Kind>, content: Kind -> int, n: nat)
    requires n < |PullOps(f, kinds, content)|
    ensures var ops := PullOps(f, kinds, content);
      MetaFiles(After(disk, ops, n + 1)) == MetaFiles(After(disk, ops, n)) + if kinds[n / 2] == MetadataFile then {f} else {}
  {
    var ops, kind := PullOps(f, kinds, content), kinds[n / 2];
    if n % 2 == 0 {
      CreateShows(After(disk, ops, n), PullTmp(f, kind), content(kind));
    } else {
      assert After(disk, ops, n) == DoOp(After(disk, ops, n - 1), ops[n - 1]);
      PullRename(After(disk, ops, n - 1), f, kind, content(kind));
    }
  }

  /** A pull shows as soon as it has created the temporary file of the metadata. */
  lemma {:induction false} PullShows(disk: Disk, f: FileInfo, kinds: seq<Kind>, content: Kind -> int, n: nat)
    requires |kinds| > 0 && MetadataFile !in kinds[..|kinds| - 1] && kinds[|kinds| - 1] == MetadataFile
    requires n <= |PullOps(f, kinds, content)|
    ensures MetaFiles(After(disk, PullOps(f, kinds, content), n)) ==
            if n <= 2 * |kinds| - 2 then MetaFiles(disk) else MetaFiles(disk) + {f}
    decreases n
  {
    if n > 0 {
      PullShows(disk, f, kinds, content, n - 1);
      PullStepShows(disk, f, kinds, content, n - 1);
      MetadataComesLast(kinds, (n - 1) / 2);
    }
  }

  /* ---- What a write leaves on disk ---- */

  /** Segment `f` has these files and its metadata, with this content. */
  ghost predicate FilesThere(disk: Disk, f: FileInfo, kinds: seq<Kind>, content: Kind -> int) {
    FileThere(disk, f, MetadataFile, content) && forall kind :: kind in kinds ==> FileThere(disk, f, kind, content)
  }

  ghost predicate FileThere(disk: Disk, f: FileInfo, kind: Kind, content: Kind -> int) {
    FileName(f, kind) in disk && disk[FileName(f, kind)] == content(kind)
  }

  ghost predicate SameAt(disk: Disk, disk': Disk, name: FileName) {
    (name in disk <==> name in disk') && (name in disk ==> disk'[name] == disk[name])
  }

  /** However far a flush has come, it has written the first files whole, and nothing but its own names. */
  lemma {:induction false} FlushSoFar(disk: Disk, f: FileInfo, kinds: seq<Kind>, content: Kind -> int, n: nat)
    requires MetadataFile !in kinds && n <= |kinds| + 1
    ensures var now := After(disk, FlushOps(f, kinds, content), n);
      && (forall i :: 0 <= i < n && i < |kinds| ==> FileThere(now, f, kinds[i], content))
      && (forall name: FileName :: name != FlushTmp(f) && !(name.FileName? && name.info == f && name.kind in kinds) ==> SameAt(disk, now, name))
      && (n == |kinds| + 1 ==> FlushTmp(f) in now && now[FlushTmp(f)] == content(MetadataFile))
  {
    if n > 0 {
      FlushSoFar(disk, f, kinds, content, n - 1);
    }
  }

  /** A complete flush has put its files and the metadata on disk, has left no temporary file, and has touched no other name. */
  lemma FlushWrites(disk: Disk, f: FileInfo, kinds: seq<Kind>, content: Kind -> int)
    requires MetadataFile !in kinds
    ensures var now := After(disk, FlushOps(f, kinds, content), |FlushOps(f, kinds, content)|);
      && FilesThere(now, f, kinds, content) && FlushTmp(f) !in now
      && forall name: FileName :: name != FlushTmp(f) && !(name.FileName? && name.info == f && (name.kind in kinds || name.kind == MetadataFile)) ==>
           SameAt(disk, now, name)
  {
    var ops := FlushOps(f, kinds, content);
    FlushSoFar(disk, f, kinds, content, |kinds| + 1);
    var before, now := After(disk, ops, |kinds| + 1), After(disk, ops, |ops|);
    assert now == DoOp(before, Rename(FlushTmp(f), FileName(f, MetadataFile)));
    forall kind | kind in kinds || kind == MetadataFile ensures FileThere(now, f, kind, content) {
      if kind in kinds {
        var i :| 0 <= i < |kinds| && kinds[i] == kind;
        assert FileThere(before, f, kinds[i], content);
      }
    }
    forall name | name != FlushTmp(f) && !(name.FileName? && name.info == f && (name.kind in kinds || name.kind == MetadataFile))
      ensures SameAt(disk, now, name)
    {
      assert SameAt(disk, before, name);
    }
  }

  /** No flush, complete or not, touches another segment's files. */
  lemma {:induction false} FlushSparesOthers(disk: Disk, f: FileInfo, kinds: seq<Kind>, content: Kind -> int, n: nat, name: FileName)
    requires n <= |FlushOps(f, kinds, content)| && name.info != f
    ensures SameAt(disk, After(disk, FlushOps(f, kinds, content), n), name)
  {
    if n > 0 {
      FlushSparesOthers(disk, f, kinds, content, n - 1, name);
    }
  }

  /** However far a pull has come, the files it has renamed are there whole, and it has touched nothing but its own names. */
  lemma {:induction false} PullWrites(disk: Disk, f: FileInfo, kinds: seq<Kind>, content: Kind -> int, n: nat)
    requires n <= |PullOps(f, kinds, content)|
    ensures var now := After(disk, PullOps(f, kinds, content), n);
      && (forall i :: 0 <= i < |kinds| && 2 * i + 2 <= n ==> FileThere(now, f, kinds[i], content))
      && (forall name: FileName :: name.info != f ==> SameAt(disk, now, name))
      && (n % 2 == 1 ==> PullTmp(f, kinds[n / 2]) in now && now[PullTmp(f, kinds[n / 2])] == content(kinds[n / 2]))
  {
    if n > 0 {
      PullWrites(disk, f, kinds, content, n - 1);
    }
  }

  /** A segment that a pull has made visible lacks at most its metadata. */
  lemma PulledHasData(disk: Disk, f: FileInfo, kinds: seq<Kind>, content: Kind -> int, n: nat)
    requires |kinds| > 0 && MetadataFile !in kinds[..|kinds| - 1] && kinds[|kinds| - 1] == MetadataFile
    requires n <= |PullOps(f, kinds, content)| && f !in MetaFiles(disk)
    requires f in MetaFiles(After(disk, PullOps(f, kinds, content), n))
    ensures var now := After(disk, PullOps(f, kinds, content), n);
      && (forall kind :: kind in kinds && kind != MetadataFile ==> FileThere(now, f, kind, content))
      && (n == |PullOps(f, kinds, content)| ==> FilesThere(now, f, kinds, content))
  {
    PullShows(disk, f, kinds, content, n);
    PullWrites(disk, f, kinds, content, n);
    var now := After(disk, PullOps(f, kinds, content), n);
    forall kind | kind in kinds && kind != MetadataFile ensures FileThere(now, f, kind, content) {
      var i :| 0 <= i < |kinds| && kinds[i] == kind;
      assert 2 * i + 2 <= n;
    }
  }

  /** The highest version of a range on disk, or 0. */
  ghost predicate IsLatestVersion(files: set<FileInfo>, start: nat, end: nat, version: nat) {
    && (forall f :: f in files && f.Range() == (start, end) ==> f.version <= version)
    && (version == 0 || FileInfo(start, end, version) in files)
  }

  method FindLatestVersion(dir: seq<FileInfo>, start: nat, end: nat) returns (version: nat)
    ensures IsLatestVersion(Elements(dir), start, end, version)
  {
    version := 0;
    for i := 0 to |dir|
      invariant IsLatestVersion(Elements(dir[..i]), start, end, version)
    {
      assert Elements(dir[..i + 1]) == Elements(dir[..i]) + {dir[i]};
      if dir[i].start == start && dir[i].end == end && dir[i].version > version {
        version := dir[i].version;
      }
    }
    assert dir[..|dir|] == dir;
  }

  /* ---- Runs ---- */

  /** The directory, and the segments linked in the pool, in order. */
  datatype State = State(disk: Disk, live: seq<FileInfo>)

  /** A memtable is flushed to its place `p`, a segment is rebuilt, or two neighbours are merged. */
  datatype Action = Flush(sid: nat, p: nat) | Rebuild(i: nat) | Merge(i: nat)

  ghost predicate Enabled(s: State, a: Action) {
    match a
    case Flush(sid, p) =>
      && sid < NO_SID && p <= |s.live|
      && (p > 0 ==> s.live[p - 1].end < sid) && (p < |s.live| ==> sid < s.live[p].start)
    case Rebuild(i) => i < |s.live|
    case Merge(i) => i + 1 < |s.live|
  }

  ghost predicate Writes(s: State, a: Action, f: FileInfo)
    requires Enabled(s, a)
  {
    && f.Range() == (match a
                     case Flush(sid, p) => (sid, sid)
                     case Rebuild(i) => s.live[i].Range()
                     case Merge(i) => (s.live[i].start, s.live[i + 1].end))
    && f.version > 0 && IsLatestVersion(MetaFiles(s.disk), f.start, f.end, f.version - 1)
  }

  /** The list after the action: the stretch it replaces becomes the new segment. */
  ghost function Installed(s: State, a: Action, f: FileInfo): seq<FileInfo>
    requires Enabled(s, a)
  {
    match a
    case Flush(sid, p) => s.live[..p] + [f] + s.live[p..]
    case Rebuild(i) => s.live[..i] + [f] + s.live[i + 1..]
    case Merge(i) => s.live[..i] + [f] + s.live[i + 2..]
  }

  /** What is written before the metadata: bitmap and mapping always, index and offsets if the segment comes with them. */
  ghost predicate IsFlushKinds(kinds: seq<Kind>) {
    exists index, offsets :: kinds == FlushKinds(index, offsets)
  }

  function FlushKinds(index: bool, offsets: bool): seq<Kind> {
    (if index then [IndexFile] else []) + [BitmapFile, MappingFile] + if offsets then [OffsetFile] else []
  }

  lemma KindsWritten(index: bool, offsets: bool, kind: Kind)
    ensures kind in FlushKinds(index, offsets) <==>
            kind == BitmapFile || kind == MappingFile || (index && kind == IndexFile) || (offsets && kind == OffsetFile)
  {
    var kinds := FlushKinds(index, offsets);
    assert kinds[if index then 1 else 0] == BitmapFile && kinds[if index then 2 else 1] == MappingFile;
    if offsets {
      assert kinds[|kinds| - 1] == OffsetFile;
    }
    if index {
      assert kinds[0] == IndexFile;
    }
  }

  /** One action; with `n` short of all operations it crashes before the metadata is in place and is not installed. */
  ghost predicate Step(s: State, s': State) {
    exists a, f, kinds, content, n :: StepWith(s, s', a, f, kinds, content, n)
  }

  ghost predicate StepWith(s: State, s': State, a: Action, f: FileInfo, kinds: seq<Kind>, content: Kind -> int, n: nat) {
    && Enabled(s, a) && Writes(s, a, f) && IsFlushKinds(kinds) && n <= |FlushOps(f, kinds, content)|
    && s'.disk == After(s.disk, FlushOps(f, kinds, content), n)
    && s'.live == if n == |FlushOps(f, kinds, content)| then Installed(s, a, f) else s.live
  }

  ghost predicate Init(s: State) {
    s.disk == map[] && s.live == []
  }

  ghost predicate StepAt(run: seq<State>, i: nat)
    requires i + 1 < |run|
  {
    Step(run[i], run[i + 1])
  }

  ghost predicate IsRun(run: seq<State>) {
    |run| > 0 && Init(run[0]) && forall i :: 0 <= i < |run| - 1 ==> StepAt(run, i)
  }

  ghost predicate Inv(s: State) {
    Laminar(MetaFiles(s.disk)) && IsScanOf(MetaFiles(s.disk), s.live)
  }

  /* ---- What every step keeps ---- */

  /** `f` takes the place of `live[p..q)`, all of which lie within it. */
  ghost predicate Replaces(live: seq<FileInfo>, p: nat, q: nat, f: FileInfo) {
    && p <= q <= |live| && WellRanged(f)
    && (forall i :: p <= i < q ==> Within(live[i], f))
    && (p > 0 ==> Before(live[p - 1], f)) && (q < |live| ==> Before(f, live[q]))
  }

  lemma ActionReplaces(s: State, a: Action, f: FileInfo) returns (p: nat, q: nat)
    requires Ascending(s.live) && Enabled(s, a) && Writes(s, a, f)
    ensures Replaces(s.live, p, q, f) && Installed(s, a, f) == s.live[..p] + [f] + s.live[q..]
  {
    EndsAscend(s.live);
    match a
    case Flush(sid, place) => p, q := place, place;
    case Rebuild(i) => p, q := i, i + 1;
    case Merge(i) => p, q := i, i + 2;
  }

  lemma OutsideStretch(live: seq<FileInfo>, p: nat, q: nat, f: FileInfo, i: nat)
    requires Ascending(live) && Replaces(live, p, q, f) && i < |live|
    ensures if i < p then Before(live[i], f) else if i < q then Within(live[i], f) else Before(f, live[i])
  {
    EndsAscend(live);
  }

  lemma InstalledAscends(live: seq<FileInfo>, p: nat, q: nat, f: FileInfo)
    requires Ascending(live) && Replaces(live, p, q, f)
    ensures Ascending(live[..p] + [f] + live[q..])
  {
    var now := live[..p] + [f] + live[q..];
    assert forall i :: 0 <= i < p ==> now[i] == live[i];
    assert forall i :: p < i < |now| ==> now[i] == live[i - p - 1 + q];
    forall i, j | 0 <= i < j < |now| ensures Before(now[i], now[j]) {
      if i < p < j {
        assert Before(live[i], live[j - p - 1 + q]);
      } else if j < p {
        assert Before(live[i], live[j]);
      } else if p < i {
        assert Before(live[i - p - 1 + q], live[j - p - 1 + q]);
      } else if j == p {
        OutsideStretch(live, p, q, f, i);
      } else {
        OutsideStretch(live, p, q, f, j - p - 1 + q);
      }
    }
  }

  lemma InstallKeepsScan(files: set<FileInfo>, live: seq<FileInfo>, p: nat, q: nat, f: FileInfo)
    requires IsScanOf(files, live) && Replaces(live, p, q, f)
    requires f.version > 0 && IsLatestVersion(files, f.start, f.end, f.version - 1)
    ensures IsScanOf(files + {f}, live[..p] + [f] + live[q..])
  {
    var now := live[..p] + [f] + live[q..];
    InstalledAscends(live, p, q, f);
    forall i | 0 <= i < |now| ensures IsLatest(files + {f}, now[i]) {
      if i != p {
        var from := if i < p then i else i - p - 1 + q;
        assert now[i] == live[from];
        assert IsLatest(files, live[from]);
        OutsideStretch(live, p, q, f, from);
      }
    }
    forall g | g in files + {f} ensures WithinSome(g, now) {
      if g == f {
        assert Within(g, now[p]);
      } else {
        assert WithinSome(g, live);
        var k :| 0 <= k < |live| && Within(g, live[k]);
        OutsideStretch(live, p, q, f, k);
        assert Within(g, now[if k < p then k else if k < q then p else k - q + p + 1]);
      }
    }
  }

  lemma InstallKeepsLaminar(files: set<FileInfo>, live: seq<FileInfo>, p: nat, q: nat, f: FileInfo)
    requires Laminar(files) && IsScanOf(files, live) && Replaces(live, p, q, f)
    ensures Laminar(files + {f})
  {
    forall g | g in files ensures Disjoint(g, f) || Within(g, f) {
      assert WithinSome(g, live);
      var k :| 0 <= k < |live| && Within(g, live[k]);
      OutsideStretch(live, p, q, f, k);
    }
  }

  lemma StepKeepsInv(s: State, s': State)
    requires Inv(s) && Step(s, s')
    ensures Inv(s')
  {
    var a, f, kinds, content, n :| StepWith(s, s', a, f, kinds, content, n);
    FlushShows(s.disk, f, kinds, content, n);
    if n == |FlushOps(f, kinds, content)| {
      var p, q := ActionReplaces(s, a, f);
      InstallKeepsScan(MetaFiles(s.disk), s.live, p, q, f);
      InstallKeepsLaminar(MetaFiles(s.disk), s.live, p, q, f);
    }
  }

  lemma {:induction false} RunKeepsInv(run: seq<State>, k: nat)
    requires IsRun(run) && k < |run|
    ensures Inv(run[k])
  {
    if k == 0 {
      assert MetaFiles(run[0].disk) == {};
    } else {
      RunKeepsInv(run, k - 1);
      assert StepAt(run, k - 1);
      StepKeepsInv(run[k - 1], run[k]);
    }
  }

  /* ---- Main results ---- */

  /** At every point of every run, the ranges on disk form a laminar family. */
  lemma RangesStayLaminar(run: seq<State>, k: nat)
    requires IsRun(run) && k < |run|
    ensures Laminar(MetaFiles(run[k].disk))
  {
    RunKeepsInv(run, k);
  }

  /** At every point of every run, scanning the directory, in whatever order it lists its files, returns the live list. */
  method ScanReturnsLive(ghost run: seq<State>, ghost k: nat, dir: seq<FileInfo>) returns (out: seq<FileInfo>)
    requires IsRun(run) && k < |run| && IsListing(dir, MetaFiles(run[k].disk))
    requires |Ranges(MetaFiles(run[k].disk))| <= MAX_SEGMENTS_COUNT
    ensures out == run[k].live
  {
    RunKeepsInv(run, k);
    out := ScanFiles(dir, MetaFiles(run[k].disk));
    ScanIsUnique(MetaFiles(run[k].disk), out, run[k].live);
  }

  /** The step at `i` of the run wrote segment `f` to the end. */
  ghost predicate WroteAt(run: seq<State>, i: nat, f: FileInfo, kinds: seq<Kind>, content: Kind -> int) {
    i + 1 < |run| && exists a :: CompletesAt(run, i, a, f, kinds, content)
  }

  ghost predicate CompletesAt(run: seq<State>, i: nat, a: Action, f: FileInfo, kinds: seq<Kind>, content: Kind -> int)
    requires i + 1 < |run|
  {
    StepWith(run[i], run[i + 1], a, f, kinds, content, |FlushOps(f, kinds, content)|)
  }

  /** Some earlier step wrote `f`, and everything it wrote is still on disk. */
  ghost predicate Backed(run: seq<State>, k: nat, f: FileInfo) {
    k < |run| && exists i, kinds, content :: BackedBy(run, k, f, i, kinds, content)
  }

  ghost predicate BackedBy(run: seq<State>, k: nat, f: FileInfo, i: nat, kinds: seq<Kind>, content: Kind -> int)
    requires k < |run|
  {
    i < k && WroteAt(run, i, f, kinds, content) && FilesThere(run[k].disk, f, kinds, content)
  }

  lemma BackedStays(run: seq<State>, k: nat, g: FileInfo, a: Action, f: FileInfo, kinds: seq<Kind>, content: Kind -> int, n: nat)
    requires k + 1 < |run| && StepWith(run[k], run[k + 1], a, f, kinds, content, n) && Backed(run, k, g) && g != f
    ensures Backed(run, k + 1, g)
  {
    var i, ks, c :| BackedBy(run, k, g, i, ks, c);
    FlushSparesOthers(run[k].disk, f, kinds, content, n, FileName(g, MetadataFile));
    forall kind | kind in ks ensures FileThere(run[k + 1].disk, g, kind, c) {
      assert FileThere(run[k].disk, g, kind, c);
      FlushSparesOthers(run[k].disk, f, kinds, content, n, FileName(g, kind));
    }
    assert FilesThere(run[k + 1].disk, g, ks, c);
    assert BackedBy(run, k + 1, g, i, ks, c);
  }

  lemma WrittenIsBacked(run: seq<State>, k: nat, a: Action, f: FileInfo, kinds: seq<Kind>, content: Kind -> int)
    requires k + 1 < |run| && CompletesAt(run, k, a, f, kinds, content)
    ensures Backed(run, k + 1, f)
  {
    FlushWrites(run[k].disk, f, kinds, content);
    assert BackedBy(run, k + 1, f, k, kinds, content);
  }

  lemma NewIsNotListed(s: State, a: Action, f: FileInfo)
    requires Enabled(s, a) && Writes(s, a, f)
    ensures f !in MetaFiles(s.disk)
  {
  }

  lemma StepKeepsBacked(run: seq<State>, k: nat, g: FileInfo)
    requires k + 1 < |run| && Step(run[k], run[k + 1]) && g in MetaFiles(run[k + 1].disk)
    requires g in MetaFiles(run[k].disk) ==> Backed(run, k, g)
    ensures Backed(run, k + 1, g)
  {
    var a, f, kinds, content, n :| StepWith(run[k], run[k + 1], a, f, kinds, content, n);
    FlushShows(run[k].disk, f, kinds, content, n);
    NewIsNotListed(run[k], a, f);
    if g in MetaFiles(run[k].disk) {
      BackedStays(run, k, g, a, f, kinds, content, n);
    } else {
      WrittenIsBacked(run, k, a, f, kinds, content);
    }
  }

  /** At every point of every run, crashes included, a segment that a scan can see has on disk all that the action that wrote it wrote. */
  lemma {:induction false} ListedHasFiles(run: seq<State>, k: nat, g: FileInfo)
    requires IsRun(run) && k < |run| && g in MetaFiles(run[k].disk)
    ensures Backed(run, k, g)
    decreases k
  {
    if k > 0 {
      assert StepAt(run, k - 1);
      if g in MetaFiles(run[k - 1].disk) {
        ListedHasFiles(run, k - 1, g);
      }
      StepKeepsBacked(run, k - 1, g);
    }
  }

  /** So the segments of the pool have their bitmap and mapping, whole, and their metadata. */
  lemma LiveHasFiles(run: seq<State>, k: nat, j: nat)
    requires IsRun(run) && k < |run| && j < |run[k].live|
    ensures forall kind :: kind == BitmapFile || kind == MappingFile || kind == MetadataFile ==>
      FileName(run[k].live[j], kind) in run[k].disk
  {
    RunKeepsInv(run, k);
    assert IsLatest(MetaFiles(run[k].disk), run[k].live[j]);
    ListedHasFiles(run, k, run[k].live[j]);
    var i, kinds, content :| BackedBy(run, k, run[k].live[j], i, kinds, content);
    assert FileThere(run[k].disk, run[k].live[j], MetadataFile, content);
    assert BitmapFile in kinds && MappingFile in kinds by {
      var index, offsets :| kinds == FlushKinds(index, offsets);
      KindsWritten(index, offsets, BitmapFile);
      KindsWritten(index, offsets, MappingFile);
    }
    assert FileThere(run[k].disk, run[k].live[j], BitmapFile, content) && FileThere(run[k].disk, run[k].live[j], MappingFile, content);
  }

  /** A crash before the metadata is in place leaves every possible scan as it was. */
  lemma CrashLeavesScan(s: State, f: FileInfo, kinds: seq<Kind>, content: Kind -> int, n: nat, out: seq<FileInfo>)
    requires MetadataFile !in kinds && n < |FlushOps(f, kinds, content)|
    ensures IsScanOf(MetaFiles(After(s.disk, FlushOps(f, kinds, content), n)), out) <==> IsScanOf(MetaFiles(s.disk), out)
  {
    FlushShows(s.disk, f, kinds, content, n);
  }

  /** The order in which a standby pulls the files of a segment. */
  const PullOrder: seq<Kind> := [IndexFile, MappingFile, OffsetFile, BitmapFile, MetadataFile]

  /**
    A pull that is cut short after `n` of its ten operations leaves what a scan sees as it was exactly
    if it had not begun with the metadata, or the segment was visible before.
   */
  lemma CrashedPullIsHiddenIff(disk: Disk, f: FileInfo, content: Kind -> int, n: nat)
    requires n < |PullOps(f, PullOrder, content)|
    ensures MetaFiles(After(disk, PullOps(f, PullOrder, content), n)) == MetaFiles(disk) <==> n <= 8 || f in MetaFiles(disk)
  {
    PullShows(disk, f, PullOrder, content, n);
    if n > 8 && f !in MetaFiles(disk) {
      assert f in MetaFiles(After(disk, PullOps(f, PullOrder, content), n));
    }
  }

  /** A standby that crashes before its last rename comes up with a scan that lists a segment without metadata. */
  lemma CrashedPullCanShow(f: FileInfo, content: Kind -> int)
    requires WellRanged(f)
    ensures var disk := After(map[], PullOps(f, PullOrder, content), 9);
      IsScanOf(MetaFiles(disk), [f]) && FileName(f, MetadataFile) !in disk
  {
    var ops := PullOps(f, PullOrder, content);
    var disk := After(map[], ops, 9);
    PullShows(map[], f, PullOrder, content, 9);
    assert MetaFiles(disk) == {f};
    assert Within(f, [f][0]);
    NotYetRenamed(f, content, 9);
  }

  lemma {:induction false} NotYetRenamed(f: FileInfo, content: Kind -> int, n: nat)
    requires n <= 9
    ensures FileName(f, MetadataFile) !in After(map[], PullOps(f, PullOrder, content), n)
    decreases n
  {
    if n > 0 {
      NotYetRenamed(f, content, n - 1);
    }
  }

  ghost predicate HidesSid(g: FileInfo, sid: nat) {
    g.start <= sid <= g.end && g.start < g.end
  }

  lemma HiddenFlush(files: set<FileInfo>, live: seq<FileInfo>, f: FileInfo, i: nat)
    requires IsScanOf(files, live) && f.start == f.end && i < |live| && HidesSid(live[i], f.start)
    ensures IsScanOf(files + {f}, live)
  {
    assert Within(f, live[i]);
    forall g | g in files + {f} ensures WithinSome(g, live) {
      assert g in files ==> WithinSome(g, live);
    }
    forall k | 0 <= k < |live| ensures IsLatest(files + {f}, live[k]) {
      assert IsLatest(files, live[k]);
      assert k < i ==> Before(live[k], live[i]);
      assert i < k ==> Before(live[i], live[k]);
    }
  }

  /**
    A memtable that is flushed only after its neighbours have been merged across it does not show:
    its new file leaves the scan as it was exactly when a live range wider than it holds its sid.
   */
  lemma FlushIsHiddenIff(files: set<FileInfo>, live: seq<FileInfo>, sid: nat, version: nat)
    requires Laminar(files) && IsScanOf(files, live) && sid < NO_SID
    requires version > 0 && IsLatestVersion(files, sid, sid, version - 1)
    ensures IsScanOf(files + {FileInfo(sid, sid, version)}, live) <==> exists i :: 0 <= i < |live| && HidesSid(live[i], sid)
  {
    var f := FileInfo(sid, sid, version);
    if IsScanOf(files + {f}, live) {
      assert WithinSome(f, live);
      var i :| 0 <= i < |live| && Within(f, live[i]);
      assert IsLatest(files + {f}, live[i]) && IsLatest(files, live[i]);
      assert HidesSid(live[i], sid);
    }
    if i :| 0 <= i < |live| && HidesSid(live[i], sid) {
      HiddenFlush(files, live, f, i);
    }
  }

  /** Registering a flushed segment at place `p` leaves the live list the scan exactly if it lies in a gap there. */
  lemma FlushFitsIff(s: State, sid: nat, p: nat, f: FileInfo)
    requires Laminar(MetaFiles(s.disk)) && IsScanOf(MetaFiles(s.disk), s.live) && sid < NO_SID && p <= |s.live|
    requires f == FileInfo(sid, sid, f.version) && f.version > 0 && IsLatestVersion(MetaFiles(s.disk), sid, sid, f.version - 1)
    ensures IsScanOf(MetaFiles(s.disk) + {f}, s.live[..p] + [f] + s.live[p..]) <==> Enabled(s, Flush(sid, p))
  {
    var now := s.live[..p] + [f] + s.live[p..];
    if IsScanOf(MetaFiles(s.disk) + {f}, now) {
      assert p > 0 ==> now[p - 1] == s.live[p - 1] && Before(now[p - 1], now[p]);
      assert p < |s.live| ==> now[p + 1] == s.live[p] && Before(now[p], now[p + 1]);
    }
    if Enabled(s, Flush(sid, p)) {
      InstallKeepsScan(MetaFiles(s.disk), s.live, p, p, f);
    }
  }

  /* ---- A flush that comes late ---- */

  /** A run goes on with writing the next version of a range. */
  lemma Extend(run: seq<State>, a: Action, f: FileInfo, kinds: seq<Kind>, content: Kind -> int) returns (s': State)
    requires IsRun(run) && Enabled(run[|run| - 1], a) && IsFlushKinds(kinds)
    requires f.version > 0 && IsLatestVersion(MetaFiles(run[|run| - 1].disk), f.start, f.end, f.version - 1)
    requires f.Range() == (match a
                           case Flush(sid, p) => (sid, sid)
                           case Rebuild(i) => run[|run| - 1].live[i].Range()
                           case Merge(i) => (run[|run| - 1].live[i].start, run[|run| - 1].live[i + 1].end))
    ensures IsRun(run + [s']) && s'.live == Installed(run[|run| - 1], a, f)
    ensures MetaFiles(s'.disk) == MetaFiles(run[|run| - 1].disk) + {f}
  {
    var s, ops := run[|run| - 1], FlushOps(f, kinds, content);
    FlushShows(s.disk, f, kinds, content, |ops|);
    s' := State(After(s.disk, ops, |ops|), Installed(s, a, f));
    assert Writes(s, a, f);
    assert StepWith(s, s', a, f, kinds, content, |ops|);
    RunWith(run, s');
  }

  lemma RunWith(run: seq<State>, s': State)
    requires IsRun(run) && Step(run[|run| - 1], s')
    ensures IsRun(run + [s'])
  {
    forall i | 0 <= i < |run| ensures StepAt(run + [s'], i) {
      assert i < |run| - 1 ==> StepAt(run, i);
    }
  }

  /** A segment can be rebuilt at any point of any run, as the next version of its range, in its place. */
  lemma RebuildGoesOn(run: seq<State>, i: nat, kinds: seq<Kind>, content: Kind -> int) returns (s': State)
    requires IsRun(run) && IsFlushKinds(kinds) && i < |run[|run| - 1].live|
    ensures IsRun(run + [s'])
    ensures var live := run[|run| - 1].live; s'.live == live[i := live[i].(version := live[i].version + 1)]
  {
    var s := run[|run| - 1];
    RunKeepsInv(run, |run| - 1);
    assert IsLatest(MetaFiles(s.disk), s.live[i]);
    var f := s.live[i].(version := s.live[i].version + 1);
    s' := Extend(run, Rebuild(i), f, kinds, content);
    assert s.live[..i] + [f] + s.live[i + 1..] == s.live[i := f];
  }

  /** Any two neighbors whose joint range has never been written can be merged, into its first version, in their place. */
  lemma MergeGoesOn(run: seq<State>, i: nat, kinds: seq<Kind>, content: Kind -> int) returns (s': State)
    requires IsRun(run) && IsFlushKinds(kinds) && i + 1 < |run[|run| - 1].live|
    requires var live := run[|run| - 1].live;
      forall g :: g in MetaFiles(run[|run| - 1].disk) ==> g.Range() != (live[i].start, live[i + 1].end)
    ensures IsRun(run + [s'])
    ensures var live := run[|run| - 1].live;
      s'.live == live[..i] + [FileInfo(live[i].start, live[i + 1].end, 1)] + live[i + 2..]
  {
    var s := run[|run| - 1];
    s' := Extend(run, Merge(i), FileInfo(s.live[i].start, s.live[i + 1].end, 1), kinds, content);
  }

  lemma FlushThree(kinds: seq<Kind>, content: Kind -> int) returns (run: seq<State>)
    requires IsFlushKinds(kinds)
    ensures IsRun(run) && |run| == 2 && run[1].live == [FileInfo(3, 3, 1)] && MetaFiles(run[1].disk) == {FileInfo(3, 3, 1)}
  {
    run := [State(map[], [])];
    assert MetaFiles(run[0].disk) == {};
    var s' := Extend(run, Flush(3, 0), FileInfo(3, 3, 1), kinds, content);
    run := run + [s'];
  }

  lemma FlushFive(kinds: seq<Kind>, content: Kind -> int) returns (run: seq<State>)
    requires IsFlushKinds(kinds)
    ensures IsRun(run) && |run| == 3 && run[2].live == [FileInfo(3, 3, 1), FileInfo(5, 5, 1)]
    ensures MetaFiles(run[2].disk) == {FileInfo(3, 3, 1), FileInfo(5, 5, 1)}
  {
    run := FlushThree(kinds, content);
    var s' := Extend(run, Flush(5, 1), FileInfo(5, 5, 1), kinds, content);
    run := run + [s'];
  }

  /** Sids 3 and 5 are flushed and merged while sid 4 is still in memory. */
  lemma MergedAcross(kinds: seq<Kind>, content: Kind -> int) returns (run: seq<State>)
    requires IsFlushKinds(kinds)
    ensures IsRun(run) && |run| == 4 && run[3].live == [FileInfo(3, 5, 1)]
    ensures MetaFiles(run[3].disk) == {FileInfo(3, 3, 1), FileInfo(5, 5, 1), FileInfo(3, 5, 1)}
  {
    run := FlushFive(kinds, content);
    var s' := Extend(run, Merge(0), FileInfo(3, 5, 1), kinds, content);
    run := run + [s'];
  }

  /**
    After such a run there is one live segment, [3, 5]. When sid 4 is flushed then, a scan does not
    return it, and wherever it is registered the live list is no longer what a scan returns.
   */
  lemma LateFlushIsLost(kinds: seq<Kind>, content: Kind -> int, p: nat) returns (run: seq<State>)
    requires IsFlushKinds(kinds) && p <= 1
    ensures IsRun(run) && |run| == 4 && run[3].live == [FileInfo(3, 5, 1)]
    ensures var f := FileInfo(4, 4, 1); var ops := FlushOps(f, kinds, content);
      var files := MetaFiles(After(run[3].disk, ops, |ops|));
      f in files && IsScanOf(files, run[3].live) && !IsScanOf(files, run[3].live[..p] + [f] + run[3].live[p..])
  {
    run := MergedAcross(kinds, content);
    RunKeepsInv(run, 3);
    var s, f := run[3], FileInfo(4, 4, 1);
    var ops := FlushOps(f, kinds, content);
    FlushShows(s.disk, f, kinds, content, |ops|);
    assert HidesSid(s.live[0], 4);
    FlushIsHiddenIff(MetaFiles(s.disk), s.live, 4, 1);
    FlushFitsIff(s, 4, p, f);
  }
}
