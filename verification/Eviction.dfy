/**
 The two greedy, oldest-first eviction loops: the agent trims its screenshot queue to a
 byte limit, and the backend frees disk space by deleting old video recordings.
 */
module Eviction {
  import opened Common
  import opened StableOrder

  // --- What greedy means ---------------------------------------------------------------

  // Of `n` items in order, the first `k` are removed: at least one if there is any, no
  // more than are needed, and all of them if even that is not enough.
  ghost predicate ShortestPrefix(n: nat, enough: nat -> bool, k: nat) {
    && k <= n && (n > 0 ==> k > 0)
    && (forall j :: 0 < j < k ==> !enough(j))
    && (k == n || enough(k))
  }

  lemma ShortestPrefixIsUnique(n: nat, enough: nat -> bool, k: nat, m: nat)
    requires ShortestPrefix(n, enough, k) && ShortestPrefix(n, enough, m)
    ensures k == m
  {
    assert k < m ==> !enough(k);
    assert m < k ==> !enough(m);
  }

  // --- The agent's screenshot queue --------------------------------------------------------

  type Directory = map<string, nat>

  const MAX_BYTES: nat := 1024 * 1024 * 1024

  predicate IsMetadata(name: string) {
    |name| >= 5 && name[|name| - 5..] == ".json"
  }

  // The name of a metadata file without its extension.
  function IdOf(name: string): string {
    name[..Max(0, |name| - 5)]
  }

  function PathsOf(id: string): seq<string> {
    [id + ".json", id + ".jpg", id + ".thumb.jpg"]
  }

  lemma PathsAreDistinct(id: string)
    ensures Distinct(PathsOf(id))
  {
    assert |id + ".json"| != |id + ".jpg"|;
    assert (id + ".thumb.jpg")[|id|..] == ".thumb.jpg" && (id + ".json")[|id|..] == ".json";
  }

  // Deleting a screenshot removes its own metadata file and no other.
  lemma EvictsOneEntry(name: string, other: string)
    requires IsMetadata(name) && IsMetadata(other)
    ensures other in Members(PathsOf(IdOf(name))) <==> other == name
  {
    var id := IdOf(name);
    assert name == id + ".json";
    assert (id + ".jpg")[|id + ".jpg"| - 1] == 'g' && (id + ".thumb.jpg")[|id + ".thumb.jpg"| - 1] == 'g';
    assert other[|other| - 5..][4] == 'n';
    assert name in PathsOf(id) by {
      assert PathsOf(id)[0] == name;
    }
  }

  function FilesOfAll(names: seq<string>): set<string> {
    if names == [] then {} else FilesOfAll(names[..|names| - 1]) + Members(PathsOf(IdOf(names[|names| - 1])))
  }

  ghost function Bytes(files: Directory): nat {
    if files == map[] then 0 else
      var name :| name in files;
      files[name] + Bytes(files - {name})
  }

  lemma {:induction false} BytesWithout(files: Directory, name: string)
    requires name in files
    ensures Bytes(files) == files[name] + Bytes(files - {name})
    decreases files
  {
    var other :| other in files && Bytes(files) == files[other] + Bytes(files - {other});
    if other != name {
      BytesWithout(files - {other}, name);
      BytesWithout(files - {name}, other);
      assert files - {other} - {name} == files - {name} - {other};
    }
  }

  // Removing files frees exactly their bytes.
  lemma {:induction false} BytesSplit(files: Directory, names: set<string>)
    ensures Bytes(files) == Bytes(map name | name in files && name in names :: files[name]) + Bytes(files - names)
    decreases files
  {
    var inside := map name | name in files && name in names :: files[name];
    if files == map[] {
      assert inside == map[] && files - names == map[];
    } else {
      var name :| name in files;
      BytesSplit(files - {name}, names);
      BytesWithout(files, name);
      if name in names {
        BytesWithout(inside, name);
        assert inside - {name} == map other | other in files - {name} && other in names :: (files - {name})[other];
        assert files - {name} - names == files - names;
      } else {
        BytesWithout(files - names, name);
        assert inside == map other | other in files - {name} && other in names :: (files - {name})[other];
        assert files - {name} - names == files - names - {name};
      }
    }
  }

  // The directory listing, in whatever order the file system gives it.
  ghost predicate IsListing(files: Directory, listing: seq<string>) {
    Distinct(listing) && forall name :: name in listing <==> name in files
  }

  // The metadata files by name; `rank` is the place of a name in the culture's order.
  function Queue(listing: seq<string>, rank: string -> int): seq<string> {
    SortBy(Only(listing, IsMetadata), rank)
  }

  lemma MetadataExactly(name: string)
    ensures IsMetadata(name) <==> exists id :: name == id + ".json"
    ensures IsMetadata(name) ==> name == IdOf(name) + ".json"
  {
    if IsMetadata(name) {
      assert name == name[..|name| - 5] + ".json";
    }
    if id :| name == id + ".json" {
      assert name[|name| - 5..] == ".json";
    }
  }

  lemma QueueIsMetadata(files: Directory, listing: seq<string>, rank: string -> int)
    requires IsListing(files, listing)
    ensures forall name :: name in Queue(listing, rank) <==> name in files && exists id :: name == id + ".json"
    ensures SortedBy(Queue(listing, rank), rank)
  {
    var metadata := Only(listing, IsMetadata);
    forall name
      ensures IsMetadata(name) <==> exists id :: name == id + ".json"
    {
      MetadataExactly(name);
    }
    OnlyIsFilter(listing, IsMetadata);
    SortByIsSorted(metadata, rank);
    SameElements(Queue(listing, rank), metadata);
  }

  // What is left after the first `k` screenshots of the queue are deleted.
  function Left(files: Directory, queue: seq<string>, k: nat): Directory
    requires k <= |queue|
  {
    files - FilesOfAll(queue[..k])
  }

  lemma LeftStep(files: Directory, queue: seq<string>, k: nat)
    requires k < |queue|
    ensures Left(files, queue, 0) == files
    ensures Left(files, queue, k + 1) == Left(files, queue, k) - Members(PathsOf(IdOf(queue[k])))
  {
    assert queue[..k + 1][..k] == queue[..k];
  }

  lemma LeftStep0(files: Directory, queue: seq<string>)
    ensures Left(files, queue, 0) == files
  {
  }

  // Deleting screenshots takes the three files of each, and leaves all others.
  lemma {:induction false} LeftExactly(files: Directory, ids: seq<string>, queue: seq<string>, k: nat, name: string)
    requires k <= |ids| == |queue| && forall i :: 0 <= i < |ids| ==> queue[i] == ids[i] + ".json"
    ensures name in Left(files, queue, k) <==>
              name in files && forall i :: 0 <= i < k ==> name !in ThreeFiles(ids[i])
  {
    LeftStep0(files, queue);
    if k > 0 {
      LeftExactly(files, ids, queue, k - 1, name);
      LeftStep(files, queue, k - 1);
      assert IdOf(queue[k - 1]) == ids[k - 1];
      PathsExactly(ids[k - 1]);
    }
  }

  function ThreeFiles(id: string): set<string> {
    {id + ".json", id + ".jpg", id + ".thumb.jpg"}
  }

  lemma PathsExactly(id: string)
    ensures Members(PathsOf(id)) == ThreeFiles(id)
  {
    assert PathsOf(id)[0] in PathsOf(id) && PathsOf(id)[1] in PathsOf(id) && PathsOf(id)[2] in PathsOf(id);
  }

  const ONE_GIGABYTE: nat := 1_073_741_824

  ghost predicate Fits(files: Directory, queue: seq<string>, k: nat) {
    k <= |queue| && Bytes(Left(files, queue, k)) <= ONE_GIGABYTE
  }

  // `after` is `before` without its shortest oldest-first prefix of screenshots that meets
  // the limit, and unchanged if it was met already.
  ghost predicate Trimmed(before: Directory, after: Directory, queue: seq<string>) {
    if Bytes(before) <= ONE_GIGABYTE then after == before else
      exists k: nat :: k <= |queue| && ShortestPrefix(|queue|, (j: nat) => Fits(before, queue, j), k)
        && after == Left(before, queue, k)
  }

  lemma TrimmedAt(before: Directory, after: Directory, queue: seq<string>, k: nat)
    requires k <= |queue| && after == Left(before, queue, k) && (|queue| > 0 ==> k > 0)
    requires forall j: nat :: 0 < j < k ==> !Fits(before, queue, j)
    requires Bytes(before) > ONE_GIGABYTE && (k == |queue| || Bytes(after) <= ONE_GIGABYTE)
    ensures Trimmed(before, after, queue)
  {
    assert ShortestPrefix(|queue|, (j: nat) => Fits(before, queue, j), k);
  }

  class ScreenshotQueue {
    var files: Directory

    // The running total never drifts: it is the number of bytes really left.
    method Trim(listing: seq<string>, rank: string -> int) returns (total: nat)
      requires IsListing(files, listing)
      modifies this
      ensures total == Bytes(files)
      ensures Trimmed(old(files), files, Queue(listing, rank))
    {
      total := TotalBytes(listing);
      if total > MAX_BYTES {
        total := TrimQueue(Queue(listing, rank), total);
      }
    }

    method TrimQueue(queue: seq<string>, bytes: nat) returns (total: nat)
      requires bytes == Bytes(files) > ONE_GIGABYTE
      modifies this
      ensures total == Bytes(files) && Trimmed(old(files), files, queue)
    {
      total := bytes;
      if queue == [] {
        TrimmedAt(old(files), files, queue, 0);
      }
      for i := 0 to |queue|
        invariant files == Left(old(files), queue, i)
        invariant total == Bytes(files)
        invariant forall j: nat :: 0 < j <= i ==> !Fits(old(files), queue, j)
        invariant i == |queue| ==> Trimmed(old(files), files, queue)
      {
        LeftStep(old(files), queue, i);
        var reclaimed := Evict(IdOf(queue[i]));
        total := total - reclaimed;
        if total <= MAX_BYTES {
          TrimmedAt(old(files), files, queue, i + 1);
          return;
        } else if i + 1 == |queue| {
          TrimmedAt(old(files), files, queue, i + 1);
        }
      }
    }

    method Evict(id: string) returns (reclaimed: nat)
      modifies this
      ensures files == old(files) - Members(PathsOf(id)) == old(files) - ThreeFiles(id)
      ensures Bytes(old(files)) == reclaimed + Bytes(files)
    {
      PathsExactly(id);
      reclaimed := Reclaimable(PathsOf(id), id);
      DeleteFiles(id);
    }

    method TotalBytes(listing: seq<string>) returns (total: nat)
      requires IsListing(files, listing)
      ensures total == Bytes(files)
    {
      ghost var rest := files;
      total := 0;
      for i := 0 to |listing|
        invariant forall name :: name in rest <==> name in files && name !in listing[..i]
        invariant forall name :: name in rest ==> rest[name] == files[name]
        invariant Bytes(files) == total + Bytes(rest)
      {
        assert listing[..i + 1] == listing[..i] + [listing[i]] && listing[i] !in listing[..i] && listing[i] in files;
        BytesWithout(rest, listing[i]);
        total := total + files[listing[i]];
        rest := rest - {listing[i]};
      }
      assert rest == map[];
    }

    // The size of those of the three files that exist.
    method Reclaimable(paths: seq<string>, id: string) returns (reclaimed: nat)
      requires paths == PathsOf(id)
      ensures Bytes(files) == reclaimed + Bytes(files - Members(paths))
    {
      PathsAreDistinct(id);
      ghost var rest := files;
      reclaimed := 0;
      for i := 0 to |paths|
        invariant rest == files - Members(paths[..i])
        invariant Bytes(files) == reclaimed + Bytes(rest)
      {
        assert Members(paths[..i + 1]) == Members(paths[..i]) + {paths[i]} && paths[i] !in paths[..i];
        if paths[i] in files {
          BytesWithout(rest, paths[i]);
          reclaimed := reclaimed + files[paths[i]];
        } else {
          assert rest - {paths[i]} == rest;
        }
        rest := rest - {paths[i]};
      }
      assert paths[..|paths|] == paths;
    }

    method DeleteFiles(id: string)
      modifies this
      ensures files == old(files) - ThreeFiles(id)
    {
      PathsExactly(id);
      var paths := PathsOf(id);
      for i := 0 to |paths|
        invariant files == old(files) - Members(paths[..i])
      {
        assert Members(paths[..i + 1]) == Members(paths[..i]) + {paths[i]};
        files := files - {paths[i]};
      }
      assert paths[..|paths|] == paths;
    }
  }

  lemma {:induction false} LongerPrefixCoversMore(names: seq<string>, j: nat)
    requires j <= |names|
    ensures FilesOfAll(names[..j]) <= FilesOfAll(names)
  {
    if j < |names| {
      LongerPrefixCoversMore(names[..|names| - 1], j);
      assert names[..|names| - 1][..j] == names[..j];
    } else {
      assert names[..j] == names;
    }
  }

  // Trimming meets the limit exactly when the files that belong to no queued screenshot
  // fit by themselves: such orphans are never evicted.
  lemma LimitIsMetExactly(before: Directory, after: Directory, queue: seq<string>)
    requires Trimmed(before, after, queue)
    ensures Bytes(after) <= 1_073_741_824 <==> Bytes(before - FilesOfAll(queue)) <= 1_073_741_824
  {
    BytesSplit(after, FilesOfAll(queue));
    assert queue[..|queue|] == queue;
    if Bytes(before) > ONE_GIGABYTE {
      var k: nat :| k <= |queue| && ShortestPrefix(|queue|, (j: nat) => Fits(before, queue, j), k)
        && after == Left(before, queue, k);
      LongerPrefixCoversMore(queue, k);
    }
    assert after - FilesOfAll(queue) == before - FilesOfAll(queue);
  }

  // --- The backend's video store under storage pressure ------------------------------------------

  const PIN_MARGIN: int := 300

  datatype Usage = Usage(total: nat, used: nat, free: nat)

  // A recording below a session's directory; `inside` tells that its resolved path stays
  // below the recording root.
  datatype Recording = Recording(path: nat, employee: nat, modified: int, size: nat, inside: bool)

  datatype PinnedRange = PinnedRange(employee: nat, start: int, end: int)

  // What the object storage and the file system answer to a deletion.
  datatype Deletion = Deleted | ObjectKept | FileKept

  function Threshold(watermark: int): int {
    Max(50, Min(95, watermark))
  }

  predicate UnderPressure(usage: Usage, threshold: int) {
    usage.total > 0 && usage.used * 100 > threshold * usage.total
  }

  function NeedFree(usage: Usage, threshold: int): int
    requires threshold <= 100
  {
    Max(0, usage.total * (100 - threshold) / 100 - usage.free)
  }

  predicate Pinned(recording: Recording, pins: set<PinnedRange>) {
    exists pin :: pin in pins && pin.employee == recording.employee
      && pin.start <= recording.modified + PIN_MARGIN && pin.end >= recording.modified - PIN_MARGIN
  }

  // No pinned range of the employee comes within five minutes of the recording.
  predicate FarFromPins(recording: Recording, pins: set<PinnedRange>) {
    forall pin :: pin in pins && pin.employee == recording.employee ==>
      recording.modified + 300 < pin.start || pin.end < recording.modified - 300
  }

  lemma PinnedExactly(recording: Recording, pins: set<PinnedRange>)
    ensures Pinned(recording, pins) <==> !FarFromPins(recording, pins)
  {
  }

  function Evictable(pins: set<PinnedRange>, answer: Recording -> Deletion): Recording -> bool {
    recording => !Pinned(recording, pins) && recording.inside && answer(recording).Deleted?
  }

  function Freed(recordings: seq<Recording>): nat {
    if recordings == [] then 0 else Freed(recordings[..|recordings| - 1]) + recordings[|recordings| - 1].size
  }

  function Paths(recordings: seq<Recording>): set<nat> {
    set recording | recording in recordings :: recording.path
  }

  // The evictable recordings, oldest first.
  function Oldest(candidates: seq<Recording>, keep: Recording -> bool): seq<Recording> {
    Only(SortBy(candidates, (recording: Recording) => recording.modified), keep)
  }

  // Each evictable recording as often as it is listed, and none before an older one.
  lemma OldestExactly(candidates: seq<Recording>, keep: Recording -> bool)
    ensures var oldest := Oldest(candidates, keep);
            && (forall i, j :: 0 <= i < j < |oldest| ==> oldest[i].modified <= oldest[j].modified)
            && forall r :: multiset(oldest)[r] == if keep(r) then multiset(candidates)[r] else 0
  {
    var age := (recording: Recording) => recording.modified;
    SortByIsSorted(candidates, age);
    OnlyKeepsSorted(SortBy(candidates, age), keep, age);
    forall r
      ensures multiset(Oldest(candidates, keep))[r] == if keep(r) then multiset(candidates)[r] else 0
    {
      OnlyCounts(SortBy(candidates, age), keep, r);
    }
  }

  ghost predicate Relieved(oldest: seq<Recording>, need: int, k: nat) {
    k <= |oldest| && Freed(oldest[..k]) >= need
  }

  // `removed` files are gone: the shortest oldest-first prefix of the evictable
  // recordings that frees enough.
  ghost predicate Swept(before: set<nat>, after: set<nat>, oldest: seq<Recording>, need: int, removed: nat, freed: nat)
  {
    && ShortestPrefix(|oldest|, (j: nat) => Relieved(oldest, need, j), removed)
    && removed <= |oldest| && after == before - Paths(oldest[..removed]) && freed == Freed(oldest[..removed])
  }

  // The same before enough is freed, over the recordings seen so far.
  ghost predicate Sweeping(before: set<nat>, after: set<nat>, done: seq<Recording>, need: int, removed: nat, freed: nat)
  {
    && removed == |done| && after == before - Paths(done) && freed == Freed(done)
    && forall j: nat :: 0 < j <= |done| ==> !Relieved(done, need, j)
  }

  lemma KeptStep(before: set<nat>, after: set<nat>, done: seq<Recording>, recording: Recording, need: int,
                 removed: nat, freed: nat)
    requires Sweeping(before, after, done, need, removed, freed)
    ensures after - {recording.path} == before - Paths(done + [recording])
    ensures Freed(done + [recording]) == freed + recording.size
    ensures forall j: nat :: 0 < j <= |done| ==> !Relieved(done + [recording], need, j)
  {
    var next := done + [recording];
    assert next[..|done|] == done;
    forall j: nat | 0 < j <= |done|
      ensures !Relieved(next, need, j)
    {
      assert next[..j] == done[..j];
      assert !Relieved(done, need, j);
    }
  }

  lemma SweepStep(before: set<nat>, after: set<nat>, sorted: seq<Recording>, i: nat, keep: Recording -> bool, need: int,
                  removed: nat, freed: nat)
    requires i < |sorted| && Sweeping(before, after, Only(sorted[..i], keep), need, removed, freed)
    ensures !keep(sorted[i]) ==> Sweeping(before, after, Only(sorted[..i + 1], keep), need, removed, freed)
    ensures keep(sorted[i]) ==>
              Progress(before, after - {sorted[i].path}, sorted, i, keep, need, removed + 1, freed + sorted[i].size)
  {
    var done, next := Only(sorted[..i], keep), Only(sorted[..i + 1], keep);
    assert sorted[..i + 1] == sorted[..i] + [sorted[i]];
    OnlyAppend(sorted[..i], sorted[i], keep);
    if !keep(sorted[i]) {
      assert next == done;
    } else {
      KeptStep(before, after, done, sorted[i], need, removed, freed);
      assert next[..|next|] == next;
      if freed + sorted[i].size >= need {
        Finish(before, after - {sorted[i].path}, sorted, i + 1, keep, need, removed + 1, freed + sorted[i].size);
      }
    }
  }

  ghost predicate Progress(before: set<nat>, after: set<nat>, sorted: seq<Recording>, i: nat, keep: Recording -> bool,
                           need: int,
                           removed: nat, freed: nat)
    requires i < |sorted|
  {
    if freed >= need then Swept(before, after, Only(sorted, keep), need, removed, freed)
    else Sweeping(before, after, Only(sorted[..i + 1], keep), need, removed, freed)
  }

  lemma Finish(before: set<nat>, after: set<nat>, sorted: seq<Recording>, i: nat, keep: Recording -> bool, need: int,
               removed: nat, freed: nat)
    requires i <= |sorted| && removed == |Only(sorted[..i], keep)| > 0
    requires after == before - Paths(Only(sorted[..i], keep)) && freed == Freed(Only(sorted[..i], keep)) >= need
    requires forall j: nat :: 0 < j < removed ==> !Relieved(Only(sorted[..i], keep), need, j)
    ensures Swept(before, after, Only(sorted, keep), need, removed, freed)
  {
    var oldest := Only(sorted, keep);
    OnlyPrefix(sorted, i, keep);
    forall j: nat | 0 < j < removed
      ensures !Relieved(oldest, need, j)
    {
      assert oldest[..removed][..j] == oldest[..j];
      assert !Relieved(Only(sorted[..i], keep), need, j);
    }
  }

  lemma SweepEnds(before: set<nat>, after: set<nat>, done: seq<Recording>, need: int, removed: nat, freed: nat)
    requires Sweeping(before, after, done, need, removed, freed)
    ensures Swept(before, after, done, need, removed, freed)
  {
    assert done[..|done|] == done;
  }

  // Whatever disappears belongs to a recording that is not pinned and lies below the root.
  ghost predicate OnlyUnpinned(before: set<nat>, after: set<nat>, candidates: seq<Recording>, pins: set<PinnedRange>) {
    forall path :: path in before && path !in after ==>
      exists recording :: recording in candidates && recording.path == path && FarFromPins(recording, pins)
        && recording.inside
  }

  class VideoStore {
    var files: set<nat>
    var objects: set<nat>

    method PurgeUnderPressure(usage: Usage, watermark: int, candidates: seq<Recording>, pins: set<PinnedRange>,
                              answer: Recording -> Deletion) returns (removed: nat, freed: nat)
      modifies this
      ensures usage.total == 0 || usage.used * 100 <= Threshold(watermark) * usage.total ==>
                files == old(files) && objects == old(objects) && removed == freed == 0
      ensures usage.total != 0 && usage.used * 100 > Threshold(watermark) * usage.total ==>
                Swept(old(files), files, Oldest(candidates, Evictable(pins, answer)),
                      NeedFree(usage, Threshold(watermark)), removed, freed)
      ensures OnlyUnpinned(old(files), files, candidates, pins) && OnlyUnpinned(old(objects), objects, candidates, pins)
      ensures forall path :: path in old(files) && path !in files ==> path !in objects
    {
      removed, freed := 0, 0;
      var threshold := Threshold(watermark);
      if UnderPressure(usage, threshold) {
        var sorted := SortBy(candidates, (recording: Recording) => recording.modified);
        SortByIsSorted(candidates, (recording: Recording) => recording.modified);
        SameElements(sorted, candidates);
        removed, freed := Sweep(sorted, NeedFree(usage, threshold), pins, answer);
      }
    }

    method Sweep(sorted: seq<Recording>, need: int, pins: set<PinnedRange>, answer: Recording -> Deletion)
      returns (removed: nat, freed: nat)
      modifies this
      ensures Swept(old(files), files, Only(sorted, Evictable(pins, answer)), need, removed, freed)
      ensures OnlyUnpinned(old(files), files, sorted, pins) && OnlyUnpinned(old(objects), objects, sorted, pins)
      ensures old(files) - files <= old(files) - objects
    {
      removed, freed := 0, 0;
      ghost var keep := Evictable(pins, answer);
      for i := 0 to |sorted|
        invariant Sweeping(old(files), files, Only(sorted[..i], keep), need, removed, freed)
        invariant OnlyUnpinned(old(files), files, sorted, pins)
        invariant OnlyUnpinned(old(objects), objects, sorted, pins)
        invariant old(files) - files <= old(files) - objects
      {
        SweepStep(old(files), files, sorted, i, keep, need, removed, freed);
        var gone := DeleteUnlessPinned(sorted[i], pins, answer);
        if gone {
          removed, freed := removed + 1, freed + sorted[i].size;
          if freed >= need {
            return;
          }
        }
      }
      assert sorted[..|sorted|] == sorted;
      SweepEnds(old(files), files, Only(sorted, keep), need, removed, freed);
    }

    // The object goes first; a file whose object is kept stays.
    method DeleteUnlessPinned(recording: Recording, pins: set<PinnedRange>, answer: Recording -> Deletion)
      returns (gone: bool)
      modifies this
      ensures gone <==> Evictable(pins, answer)(recording)
      ensures gone <==> FarFromPins(recording, pins) && recording.inside && answer(recording).Deleted?
      ensures files == if gone then old(files) - {recording.path} else old(files)
      ensures objects ==
              if !FarFromPins(recording, pins) || !recording.inside || answer(recording).ObjectKept? then old(objects)
              else old(objects) - {recording.path}
    {
      PinnedExactly(recording, pins);
      if Pinned(recording, pins) || !recording.inside || answer(recording).ObjectKept? {
        return false;
      }
      objects := objects - {recording.path};
      if answer(recording).FileKept? {
        return false;
      }
      files := files - {recording.path};
      return true;
    }
  }

  lemma {:induction false} FreedGrows(recordings: seq<Recording>, k: nat)
    requires k <= |recordings|
    ensures Freed(recordings[..k]) <= Freed(recordings)
  {
    if k == |recordings| {
      assert recordings[..k] == recordings;
    } else {
      var n := |recordings| - 1;
      FreedGrows(recordings[..n], k);
      assert recordings[..n][..k] == recordings[..k];
    }
  }

  // A run reaches its target exactly when all evictable recordings together would.
  lemma TargetIsMetExactly(before: set<nat>, after: set<nat>, oldest: seq<Recording>, need: int, removed: nat,
                           freed: nat)
    requires Swept(before, after, oldest, need, removed, freed)
    ensures freed >= need <==> Freed(oldest) >= need
  {
    FreedGrows(oldest, removed);
    assert oldest[..|oldest|] == oldest;
    assert removed == |oldest| || Relieved(oldest, need, removed);
  }

  // The disk is over the watermark and yet nothing needs to be freed exactly when no space
  // is reserved and the free space is the target, rounded down from a fraction.
  lemma NoNeedExactly(usage: Usage, watermark: int)
    requires usage.used + usage.free <= usage.total
    ensures var t := Threshold(watermark);
            UnderPressure(usage, t) && NeedFree(usage, t) == 0 <==>
              && usage.used + usage.free == usage.total
              && usage.free == usage.total * (100 - t) / 100
              && usage.total * (100 - t) % 100 != 0
  {
    var t := Threshold(watermark);
    var share := usage.total * (100 - t);
    assert share == usage.total * 100 - t * usage.total;
    assert share == share / 100 * 100 + share % 100;
  }

  // The need is the least number of bytes that brings the free space to the target, rounded
  // down to whole bytes.
  lemma NeedFreeIsLeast(usage: Usage, threshold: int, freed: nat)
    requires threshold <= 100
    ensures freed >= NeedFree(usage, threshold) <==> (usage.free + freed + 1) * 100 > usage.total * (100 - threshold)
  {
    var share := usage.total * (100 - threshold);
    assert share == share / 100 * 100 + share % 100;
  }

  // A watermark between 50 and 95 percent is taken as it is.
  lemma ThresholdExactly(watermark: int)
    ensures Threshold(watermark) == if watermark < 50 then 50 else if watermark > 95 then 95 else watermark
  {
  }

  // For example: one tenth free of ten units, against a target of one and a half.
  lemma PressureWithoutNeed()
    ensures UnderPressure(Usage(10, 9, 1), Threshold(85)) && NeedFree(Usage(10, 9, 1), Threshold(85)) == 0
  {
  }

  // The loop compares only after a deletion: in that case exactly one recording goes.
  lemma NoNeedStillEvictsOne(before: set<nat>, after: set<nat>, oldest: seq<Recording>, removed: nat, freed: nat)
    requires Swept(before, after, oldest, 0, removed, freed) && oldest != []
    ensures removed == 1 && freed == oldest[0].size
  {
    var enough := (j: nat) => Relieved(oldest, 0, j);
    assert ShortestPrefix(|oldest|, enough, removed);
    assert enough(1);
    assert oldest[..1] == [oldest[0]] && [oldest[0]][..0] == [];
    assert Freed([oldest[0]]) == oldest[0].size;
  }

  // Without reserved space a run that meets its target leaves the disk at the watermark,
  // to within the byte lost in rounding.
  lemma TargetReachesWatermark(usage: Usage, threshold: int, freed: nat)
    requires usage.used + usage.free == usage.total && 0 <= threshold <= 100
    requires NeedFree(usage, threshold) <= freed <= usage.used
    ensures (usage.used - freed) * 100 < threshold * usage.total + 100
  {
    var target := usage.total * (100 - threshold) / 100;
    assert usage.total * (100 - threshold) == usage.total * 100 - threshold * usage.total;
    assert target * 100 > usage.total * (100 - threshold) - 100;
  }
}
