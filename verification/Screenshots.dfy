/**
 Screenshot deduplication and retention. A screenshot that looks like its predecessor
 is stored as a row that points at a root; only roots own objects in the storage.
 */
module Screenshots {
  import opened Common
  import opened StableOrder

  const PURGE_PAGE: nat := 2000
  const DUPLICATE_DISTANCE: nat := 3

  datatype Shot = Shot(
    employee: nat, device: nat, monitor: nat, takenAt: int, storageKey: Option<nat>, thumbKey: Option<nat>,
    phash: Option<nat>, duplicateOf: Option<nat>)

  type Table = map<nat, Shot>

  // --- Perceptual hashes ---------------------------------------------------------------

  // Number of differing bits.
  function PhashDistance(left: nat, right: nat): nat {
    if left == 0 && right == 0 then 0
    else (if left % 2 != right % 2 then 1 else 0) + PhashDistance(left / 2, right / 2)
  }

  lemma {:induction false} DistanceIsMetricLike(left: nat, right: nat)
    ensures PhashDistance(left, right) == PhashDistance(right, left)
    ensures PhashDistance(left, right) == 0 <==> left == right
  {
    if left != 0 || right != 0 {
      DistanceIsMetricLike(left / 2, right / 2);
    }
  }

  lemma {:induction false} DistanceTriangle(a: nat, b: nat, c: nat)
    ensures PhashDistance(a, c) <= PhashDistance(a, b) + PhashDistance(b, c)
    decreases a + b + c
  {
    if a != 0 || b != 0 || c != 0 {
      DistanceTriangle(a / 2, b / 2, c / 2);
      assert a == 0 && b == 0 ==> PhashDistance(a, b) == PhashDistance(a / 2, b / 2);
      assert b == 0 && c == 0 ==> PhashDistance(b, c) == PhashDistance(b / 2, c / 2);
      assert a == 0 && c == 0 ==> PhashDistance(a, c) == PhashDistance(a / 2, c / 2);
    }
  }

  function Bit(n: nat, k: nat): nat {
    if k == 0 then n % 2 else Bit(n / 2, k - 1)
  }

  function DifferingBits(left: nat, right: nat, width: nat): set<nat> {
    set k: nat | k < width && Bit(left, k) != Bit(right, k)
  }

  predicate Fits(n: nat, width: nat) {
    if width == 0 then n == 0 else Fits(n / 2, width - 1)
  }

  function Shifted(bits: set<nat>): set<nat> {
    set k: nat | k in bits :: k + 1
  }

  lemma {:induction false} ShiftKeepsSize(bits: set<nat>)
    ensures |Shifted(bits)| == |bits|
  {
    if bits == {} {
      assert Shifted(bits) == {};
    } else {
      var k: nat :| k in bits;
      var rest := bits - {k};
      assert Shifted(bits) == Shifted(rest) + {k + 1} by {
        assert bits == rest + {k};
        assert k + 1 in Shifted(bits);
      }
      assert k + 1 !in Shifted(rest);
      ShiftKeepsSize(rest);
    }
  }

  lemma BitsOfHalves(left: nat, right: nat, width: nat)
    requires width > 0
    ensures DifferingBits(left, right, width)
         == (if left % 2 != right % 2 then {0} else {}) + Shifted(DifferingBits(left / 2, right / 2, width - 1))
  {
    var halves := DifferingBits(left / 2, right / 2, width - 1);
    forall k: nat
      ensures k in DifferingBits(left, right, width) <==> k in Shifted(halves) || (k == 0 && left % 2 != right % 2)
    {
      if k > 0 {
        assert k in Shifted(halves) <==> k - 1 in halves;
      }
    }
  }

  // The distance of two hashes is the number of places where their bits differ.
  lemma {:induction false} DistanceCountsBits(left: nat, right: nat, width: nat)
    requires Fits(left, width) && Fits(right, width)
    ensures PhashDistance(left, right) == |DifferingBits(left, right, width)|
  {
    if width == 0 {
      assert DifferingBits(left, right, 0) == {};
    } else {
      DistanceCountsBits(left / 2, right / 2, width - 1);
      ShiftKeepsSize(DifferingBits(left / 2, right / 2, width - 1));
      BitsOfHalves(left, right, width);
      assert left == 0 && right == 0 ==> PhashDistance(left, right) == PhashDistance(left / 2, right / 2);
    }
  }

  lemma NextBit(left: nat, right: nat, bit: nat, d: nat)
    requires PhashDistance(left, right) == d && bit <= 1
    ensures PhashDistance(2 * left + 1, 2 * right + bit) == d + 1 - bit
  {
    assert (2 * left + 1) / 2 == left && (2 * right + bit) / 2 == right;
    assert (2 * left + 1) % 2 == 1 && (2 * right + bit) % 2 == bit;
  }

  // Looking like the predecessor does not add up to looking like the root: each of these
  // three is within three bits of the one before.
  lemma DuplicatesDrift() returns (first: nat, second: nat, third: nat)
    ensures PhashDistance(second, first) <= 3 && PhashDistance(third, second) <= 3 && PhashDistance(third, first) > 3
  {
    var one, three, seven, fifteen: nat := 1, 3, 7, 15;
    first, second, third := 0, seven, fifteen;
    NextBit(first, first, 0, 0);
    NextBit(one, first, 0, 1);
    NextBit(three, first, 0, 2);
    NextBit(seven, first, 0, 3);
    NextBit(one, first, 1, 1);
    NextBit(three, one, 1, 1);
    NextBit(seven, three, 1, 1);
  }

  // --- Choosing a root -------------------------------------------------------------------

  // ORDER BY taken_at DESC LIMIT 1: the row has a hash, is of this monitor, and none of
  // those was taken later.
  ghost predicate IsLatestHashed(table: Table, device: nat, monitor: nat, id: nat) {
    && id in table && table[id].device == device && table[id].monitor == monitor && table[id].phash.Some?
    && forall other | other in table && table[other].device == device && table[other].monitor == monitor
        && table[other].phash.Some? ::
      table[other].takenAt <= table[id].takenAt
  }

  ghost function HashedRows(table: Table, device: nat, monitor: nat): set<nat> {
    set id | id in table && table[id].device == device && table[id].monitor == monitor && table[id].phash.Some?
  }

  lemma {:induction false} LatestOf(table: Table, ids: set<nat>) returns (latest: nat)
    requires ids != {} && forall id :: id in ids ==> id in table
    ensures latest in ids && forall id :: id in ids ==> table[id].takenAt <= table[latest].takenAt
    decreases |ids|
  {
    latest :| latest in ids;
    var others := ids - {latest};
    assert forall id :: id in ids <==> id == latest || id in others;
    if others != {} {
      var other := LatestOf(table, others);
      latest := if table[other].takenAt > table[latest].takenAt then other else latest;
    }
  }

  // The query finds a row whenever there is one to find, and only its time is certain.
  lemma LatestHashedExactly(table: Table, device: nat, monitor: nat)
    ensures (exists id :: IsLatestHashed(table, device, monitor, id)) <==>
              exists id :: id in table && table[id].device == device && table[id].monitor == monitor
                && table[id].phash.Some?
    ensures forall a, b :: IsLatestHashed(table, device, monitor, a) && IsLatestHashed(table, device, monitor, b) ==>
              table[a].takenAt == table[b].takenAt
  {
    var rows := HashedRows(table, device, monitor);
    if id :| id in table && table[id].device == device && table[id].monitor == monitor && table[id].phash.Some? {
      assert id in rows;
      var latest := LatestOf(table, rows);
      assert IsLatestHashed(table, device, monitor, latest);
    }
  }

  function RootOf(table: Table, id: nat): nat
    requires id in table
  {
    if table[id].duplicateOf.Some? then table[id].duplicateOf.value else id
  }

  // --- The invariant ------------------------------------------------------------------------

  predicate IsRoot(table: Table, id: nat) {
    id in table && table[id].duplicateOf.None? && table[id].storageKey.Some? && table[id].thumbKey.Some?
  }

  predicate SameMonitor(a: Shot, b: Shot) {
    a.device == b.device && a.monitor == b.monitor
  }

  // Duplicates name an existing root, taken of the same monitor of the same device;
  // everything else is a root.
  ghost predicate RootsExist(table: Table) {
    forall id :: id in table ==>
      if table[id].duplicateOf.Some? then
        IsRoot(table, table[id].duplicateOf.value) && SameMonitor(table[id], table[table[id].duplicateOf.value])
        && table[id].storageKey.None? && table[id].thumbKey.None?
      else IsRoot(table, id)
  }

  function KeysOf(shot: Shot): set<nat> {
    (if shot.storageKey.Some? then {shot.storageKey.value} else {})
      + (if shot.thumbKey.Some? then {shot.thumbKey.value} else {})
  }

  // Every key a row names is in the storage, and no two rows share one.
  ghost predicate KeysStored(table: Table, objects: set<nat>) {
    && (forall id :: id in table ==> KeysOf(table[id]) <= objects)
    && (forall a, b :: a in table && b in table && a != b ==> KeysOf(table[a]) !! KeysOf(table[b]))
  }

  ghost predicate Valid(table: Table, nextId: nat, objects: set<nat>) {
    && RootsExist(table) && KeysStored(table, objects)
    && (forall id :: id in table ==> id < nextId)
  }

  // --- Reading ---------------------------------------------------------------------------------

  // COALESCE over the row and the row it duplicates.
  function ResolvedKey(table: Table, id: nat, thumbnail: bool): Option<nat>
    requires id in table
  {
    var shot := table[id];
    var source :=
      if shot.duplicateOf.Some? && shot.duplicateOf.value in table then Some(table[shot.duplicateOf.value]) else None;
    if !thumbnail then
      if shot.storageKey.Some? then shot.storageKey
      else if source.Some? then source.value.storageKey else None
    else
      if shot.thumbKey.Some? then shot.thumbKey
      else if source.Some? && source.value.thumbKey.Some? then source.value.thumbKey
      else if source.Some? then source.value.storageKey else None
  }

  // In a valid table every screenshot can be read: a request resolves to the image or the
  // thumbnail, as asked, of the row itself or of the root it duplicates, and that is stored.
  lemma KeyAlwaysResolves(table: Table, nextId: nat, objects: set<nat>, id: nat, thumbnail: bool)
    requires Valid(table, nextId, objects) && id in table
    ensures ResolvedKey(table, id, thumbnail).Some? && ResolvedKey(table, id, thumbnail).value in objects
    ensures var root := if table[id].duplicateOf.Some? then table[id].duplicateOf.value else id;
            && root in table && SameMonitor(table[id], table[root])
            && ResolvedKey(table, id, thumbnail) == if thumbnail then table[root].thumbKey else table[root].storageKey
  {
    var root := RootOf(table, id);
    assert IsRoot(table, root);
    assert KeysOf(table[root]) <= objects;
  }

  // --- Retention ----------------------------------------------------------------------------------

  predicate Expired(table: Table, cutoffs: nat -> int, id: nat) {
    id in table && table[id].takenAt < cutoffs(table[id].employee)
  }

  // A page of the purge query: the rows that come first with duplicates before roots and
  // each kind by age, listed in any order.
  ghost predicate IsPurgePage(table: Table, page: seq<nat>) {
    && Distinct(page) && (forall id :: id in page ==> id in table)
    && |page| == Min(PURGE_PAGE, |table|)
    && (forall id, other :: id in page && other in table && other !in page ==> !PurgedAfter(table, id, other))
  }

  // `id` comes strictly after `other` in the query's order.
  predicate PurgedAfter(table: Table, id: nat, other: nat)
    requires id in table && other in table
  {
    var root, otherRoot := table[id].duplicateOf.None?, table[other].duplicateOf.None?;
    if root != otherRoot then root else table[id].takenAt > table[other].takenAt
  }

  ghost predicate Referenced(table: Table, root: nat) {
    exists id :: id in table && table[id].duplicateOf == Some(root)
  }

  // What one purge removes: expired duplicates of the page, and expired roots of the page
  // that no remaining duplicate refers to.
  ghost predicate Removable(table: Table, page: seq<nat>, cutoffs: nat -> int, id: nat) {
    && id in page && Expired(table, cutoffs, id)
    && (table[id].duplicateOf.None? ==>
          forall d :: d in table && table[d].duplicateOf == Some(id) ==> d in page && Expired(table, cutoffs, d))
  }

  ghost function AfterPurge(table: Table, page: seq<nat>, cutoffs: nat -> int): Table {
    map id | id in table && !Removable(table, page, cutoffs, id) :: table[id]
  }

  class ScreenshotStore {
    var table: Table
    var nextId: nat
    var objects: set<nat>

    constructor ()
      ensures table == map[] && objects == {}
      ensures Valid(table, nextId, objects)
    {
      table, nextId, objects := map[], 1, {};
    }

    // `previous` is the row the query returned; `imageKey` and `thumbKey` are newly drawn
    // object names, equal when no thumbnail was sent.
    method Upload(employee: nat, device: nat, monitor: nat, takenAt: int, phash: Option<nat>, previous: Option<nat>,
                  imageKey: nat, thumbKey: nat) returns (id: nat, duplicateOf: Option<nat>)
      requires Valid(table, nextId, objects)
      requires if previous.Some? then IsLatestHashed(table, device, monitor, previous.value)
               else forall other :: other in table && table[other].phash.Some? ==>
                        table[other].device != device || table[other].monitor != monitor
      requires imageKey !in objects && thumbKey !in objects
      modifies this
      ensures Valid(table, nextId, objects)
      ensures id !in old(table) && id in table && table == old(table)[id := table[id]]
      ensures table[id].employee == employee && table[id].device == device && table[id].monitor == monitor
              && table[id].takenAt == takenAt && table[id].phash == phash && table[id].duplicateOf == duplicateOf
      ensures duplicateOf.Some? ==> phash.Some? && objects == old(objects)
      ensures phash.Some? && previous.Some? ==>
                && (duplicateOf.Some? <==>
                      PhashDistance(phash.value, old(table)[previous.value].phash.value) <= 3)
                && (duplicateOf.Some? ==>
                      duplicateOf == if old(table)[previous.value].duplicateOf.Some?
                      then old(table)[previous.value].duplicateOf else previous)
      ensures previous.None? ==> duplicateOf.None?
      ensures duplicateOf.None? ==> table[id].storageKey == Some(imageKey) && table[id].thumbKey == Some(thumbKey)
                                    && objects == old(objects) + {imageKey, thumbKey}
    {
      duplicateOf := None;
      if phash.Some? && previous.Some? {
        var candidate := table[previous.value];
        if PhashDistance(phash.value, candidate.phash.value) <= DUPLICATE_DISTANCE {
          duplicateOf := Some(if candidate.duplicateOf.Some? then candidate.duplicateOf.value else previous.value);
        }
      }
      var storage, thumb: Option<nat> := None, None;
      if duplicateOf.None? {
        storage, thumb := Some(imageKey), Some(thumbKey);
        objects := objects + {imageKey, thumbKey};
      }
      id := nextId;
      nextId := nextId + 1;
      var shot := Shot(employee, device, monitor, takenAt, storage, thumb, phash, duplicateOf);
      InsertKeepsValid(table, nextId - 1, old(objects), objects, id, shot);
      table := table[id := shot];
    }

    // One run over a page of the query; `removed` counts the deleted rows.
    method Purge(page: seq<nat>, cutoffs: nat -> int) returns (removed: nat)
      requires Valid(table, nextId, objects) && IsPurgePage(table, page)
      modifies this`table, this`objects
      ensures Valid(table, nextId, objects)
      ensures table == AfterPurge(old(table), page, cutoffs)
      ensures removed == |old(table)| - |table|
    {
      ghost var before := table;
      var duplicates, roots := ExpiredRows(page, cutoffs);
      DropDuplicates(before, before - duplicates, nextId, objects, page, cutoffs, duplicates);
      table := table - duplicates;
      ghost var middle := table;
      var removedRoots := PurgeRoots(roots);
      removed := |duplicates| + removedRoots;
      PurgedExactly(before, middle, table, page, cutoffs, duplicates, roots);
    }

    // The expired rows of the page, split into duplicates and roots.
    method ExpiredRows(page: seq<nat>, cutoffs: nat -> int) returns (duplicates: set<nat>, roots: seq<nat>)
      requires IsPurgePage(table, page)
      ensures forall id :: id in duplicates <==>
                id in page && Expired(table, cutoffs, id) && table[id].duplicateOf.Some?
      ensures forall id :: id in roots <==> id in page && Expired(table, cutoffs, id) && table[id].duplicateOf.None?
      ensures Distinct(roots)
    {
      duplicates, roots := {}, [];
      for i := 0 to |page|
        invariant forall id :: id in duplicates <==>
                    id in page[..i] && Expired(table, cutoffs, id) && table[id].duplicateOf.Some?
        invariant forall id :: id in roots <==>
                    id in page[..i] && Expired(table, cutoffs, id) && table[id].duplicateOf.None?
        invariant Distinct(roots)
      {
        assert page[..i + 1] == page[..i] + [page[i]] && page[i] !in page[..i];
        if Expired(table, cutoffs, page[i]) {
          if table[page[i]].duplicateOf.Some? {
            duplicates := duplicates + {page[i]};
          } else {
            roots := roots + [page[i]];
          }
        }
      }
      assert page[..|page|] == page;
    }

    method PurgeRoots(roots: seq<nat>) returns (removed: nat)
      requires Valid(table, nextId, objects) && Distinct(roots)
      requires forall id :: id in roots ==> IsRoot(table, id)
      modifies this`table, this`objects
      ensures Valid(table, nextId, objects) && RootsPurged(old(table), table, roots)
      ensures removed == |old(table)| - |table|
    {
      removed := 0;
      for i := 0 to |roots|
        invariant RootsPurged(old(table), table, roots[..i])
        invariant Valid(table, nextId, objects)
        invariant removed == |old(table)| - |table|
      {
        ghost var was := table;
        RootsRemain(old(table), table, roots, i);
        var gone := PurgeRoot(roots[i]);
        RootStep(old(table), was, table, roots, i);
        removed := removed + (if gone then 1 else 0);
      }
      assert roots[..|roots|] == roots;
    }

    method PurgeRoot(root: nat) returns (gone: bool)
      requires Valid(table, nextId, objects) && IsRoot(table, root)
      modifies this`table, this`objects
      ensures Valid(table, nextId, objects)
      ensures gone <==> !Referenced(old(table), root)
      ensures table == if Referenced(old(table), root) then old(table) else old(table) - {root}
      ensures objects == if Referenced(old(table), root) then old(objects) else old(objects) - KeysOf(old(table)[root])
      ensures |table| == |old(table)| - if gone then 1 else 0
    {
      var referenced := exists other :: other in table && table[other].duplicateOf == Some(root);
      gone := !referenced;
      if !referenced {
        RemoveRootKeepsValid(table, nextId, objects, root);
        objects := objects - KeysOf(table[root]);
        table := table - {root};
      }
    }
  }

  lemma InsertKeepsValid(table: Table, nextId: nat, objects: set<nat>, objects': set<nat>, id: nat, shot: Shot)
    requires Valid(table, nextId, objects) && id == nextId && objects <= objects'
    requires if shot.duplicateOf.Some? then IsRoot(table, shot.duplicateOf.value) && shot.storageKey.None?
             && SameMonitor(shot, table[shot.duplicateOf.value]) && shot.thumbKey.None?
             else shot.storageKey.Some? && shot.thumbKey.Some? && KeysOf(shot) !! objects && KeysOf(shot) <= objects'
    ensures Valid(table[id := shot], nextId + 1, objects')
  {
    var table' := table[id := shot];
    assert id !in table;
    forall a, b | a in table' && b in table' && a != b
      ensures KeysOf(table'[a]) !! KeysOf(table'[b])
    {
      if a == id {
        assert KeysOf(table[b]) <= objects;
      } else if b == id {
        assert KeysOf(table[a]) <= objects;
      }
    }
  }

  // --- Dropping expired duplicates -----------------------------------------------------------------

  lemma DropDuplicates(before: Table, table: Table, nextId: nat, objects: set<nat>, page: seq<nat>, cutoffs: nat -> int,
                       duplicates: set<nat>)
    requires Valid(before, nextId, objects) && table == before - duplicates
    requires forall id :: id in duplicates <==>
               id in page && Expired(before, cutoffs, id) && before[id].duplicateOf.Some?
    ensures Valid(table, nextId, objects) && |table| == |before| - |duplicates|
    ensures forall id :: id in before && before[id].duplicateOf.None? ==> IsRoot(table, id)
  {
    DroppedCount(before, duplicates);
    RootsSurvive(before, duplicates);
    KeysSurvive(before, duplicates, objects);
  }

  lemma DroppedCount<V>(m: map<nat, V>, dropped: set<nat>)
    requires dropped <= m.Keys
    ensures |m - dropped| == |m| - |dropped|
  {
    assert (m - dropped).Keys == m.Keys - dropped;
  }

  lemma RootsSurvive(before: Table, dropped: set<nat>)
    requires RootsExist(before) && forall id :: id in dropped ==> !IsRoot(before, id)
    ensures RootsExist(before - dropped)
    ensures forall id :: id in before && before[id].duplicateOf.None? ==> IsRoot(before - dropped, id)
  {
  }

  lemma KeysSurvive(before: Table, dropped: set<nat>, objects: set<nat>)
    requires KeysStored(before, objects)
    ensures KeysStored(before - dropped, objects)
  {
  }

  // --- Removing expired roots without duplicates -----------------------------------------------------

  ghost predicate RootsPurged(middle: Table, table: Table, done: seq<nat>) {
    && (forall id :: id in table ==> id in middle && table[id] == middle[id])
    && (forall id :: id in middle ==> (id !in table <==> id in done && !Referenced(middle, id)))
  }

  lemma RootsRemain(middle: Table, table: Table, roots: seq<nat>, i: nat)
    requires i < |roots| && Distinct(roots) && IsRoot(middle, roots[i])
    requires RootsPurged(middle, table, roots[..i])
    ensures IsRoot(table, roots[i])
  {
    assert roots[i] !in roots[..i];
  }

  lemma RootStep(middle: Table, was: Table, table: Table, roots: seq<nat>, i: nat)
    requires i < |roots| && RootsPurged(middle, was, roots[..i])
    requires forall id :: id in roots ==> IsRoot(middle, id)
    requires table == if Referenced(was, roots[i]) then was else was - {roots[i]}
    ensures RootsPurged(middle, table, roots[..i + 1])
  {
    assert roots[..i + 1] == roots[..i] + [roots[i]];
    if Referenced(middle, roots[i]) {
      var d :| d in middle && middle[d].duplicateOf == Some(roots[i]);
      assert forall id :: id in roots[..i] ==> id in roots;
      assert d in was;
    }
  }

  lemma RemoveRootKeepsValid(table: Table, nextId: nat, objects: set<nat>, root: nat)
    requires Valid(table, nextId, objects) && root in table && !Referenced(table, root)
    ensures Valid(table - {root}, nextId, objects - KeysOf(table[root]))
  {
    var table' := table - {root};
    forall id | id in table'
      ensures KeysOf(table'[id]) <= objects - KeysOf(table[root])
    {
      assert KeysOf(table[id]) !! KeysOf(table[root]);
    }
    forall id | id in table' && table'[id].duplicateOf.Some?
      ensures IsRoot(table', table'[id].duplicateOf.value)
    {
      assert table[id].duplicateOf.value != root;
    }
  }

  lemma PurgedExactly(before: Table, middle: Table, table: Table, page: seq<nat>, cutoffs: nat -> int,
                      duplicates: set<nat>, roots: seq<nat>)
    requires middle == before - duplicates && RootsPurged(middle, table, roots)
    requires forall id :: id in duplicates <==>
               id in page && Expired(before, cutoffs, id) && before[id].duplicateOf.Some?
    requires forall id :: id in roots <==> id in page && Expired(before, cutoffs, id) && before[id].duplicateOf.None?
    ensures table == AfterPurge(before, page, cutoffs)
  {
    forall id | id in before
      ensures id in table <==> !Removable(before, page, cutoffs, id)
    {
      if before[id].duplicateOf.None? {
        if Referenced(middle, id) {
          var d :| d in middle && middle[d].duplicateOf == Some(id);
          assert d in before && !(d in page && Expired(before, cutoffs, d));
        } else {
          forall d | d in before && before[d].duplicateOf == Some(id)
            ensures d in page && Expired(before, cutoffs, d)
          {
            assert d !in middle;
          }
        }
      }
    }
  }

  // --- Roots can starve ---------------------------------------------------------------------------

  function Duplicates(table: Table): set<nat> {
    set id | id in table && table[id].duplicateOf.Some?
  }

  lemma {:induction false} DistinctCount(page: seq<nat>, members: set<nat>)
    requires Distinct(page) && forall id :: id in members ==> id in page
    ensures |members| <= |page|
  {
    if page == [] {
      assert members == {};
    } else {
      var n := |page| - 1;
      DistinctCount(page[..n], members - {page[n]});
      assert |members| <= |members - {page[n]}| + 1 by {
        if page[n] !in members {
          assert members - {page[n]} == members;
        }
      }
    }
  }

  // The page is cut before expiry is looked at: while there are as many duplicates as a
  // page holds, expired or not, no root is ever purged.
  lemma DuplicatesStarveRoots(table: Table, page: seq<nat>, cutoffs: nat -> int, root: nat)
    requires IsPurgePage(table, page) && |Duplicates(table)| >= 2000
    requires root in table && table[root].duplicateOf.None?
    ensures !Removable(table, page, cutoffs, root)
  {
    if root in page {
      DuplicatesComeFirst(table, page, root);
    }
  }

  // --- Exactly which roots are reached ----------------------------------------------------------------

  // What the query may list before a root: all duplicates, and other roots that are not later.
  ghost function Ahead(table: Table, root: nat): set<nat>
    requires root in table
  {
    set id | id in table && id != root && !PurgedAfter(table, id, root)
  }

  lemma {:induction false} EarliestOf(table: Table, pool: set<nat>) returns (first: nat)
    requires pool <= table.Keys && pool != {}
    ensures first in pool && forall other :: other in pool ==> !PurgedAfter(table, first, other)
  {
    var x :| x in pool;
    if pool == {x} {
      first := x;
    } else {
      var y := EarliestOf(table, pool - {x});
      first := if PurgedAfter(table, x, y) then y else x;
      forall other | other in pool
        ensures !PurgedAfter(table, first, other)
      {
        assert other == x || other in pool - {x};
      }
    }
  }

  // The first n rows of a set in the query's order.
  ghost predicate IsOrderedPrefix(table: Table, pool: set<nat>, page: seq<nat>)
    requires pool <= table.Keys
  {
    && Distinct(page) && (forall id :: id in page ==> id in pool)
    && (forall id, other :: id in page && other in pool && other !in page ==> !PurgedAfter(table, id, other))
  }

  lemma {:induction false} OrderedPrefix(table: Table, pool: set<nat>, n: nat) returns (page: seq<nat>)
    requires pool <= table.Keys && n <= |pool|
    ensures |page| == n && IsOrderedPrefix(table, pool, page)
  {
    if n == 0 {
      page := [];
    } else {
      var first := EarliestOf(table, pool);
      var rest := OrderedPrefix(table, pool - {first}, n - 1);
      page := [first] + rest;
      PrefixFrom(table, pool, first, rest);
    }
  }

  lemma PrefixFrom(table: Table, pool: set<nat>, first: nat, rest: seq<nat>)
    requires pool <= table.Keys && first in pool && forall other :: other in pool ==> !PurgedAfter(table, first, other)
    requires IsOrderedPrefix(table, pool - {first}, rest)
    ensures IsOrderedPrefix(table, pool, [first] + rest)
  {
    var page := [first] + rest;
    assert forall id :: id in page ==> id in pool;
    forall i, j | 0 <= i < j < |page|
      ensures page[i] != page[j]
    {
      assert page[j] == rest[j - 1] && rest[j - 1] in rest;
      if i > 0 {
        assert page[i] == rest[i - 1];
      }
    }
  }

  // Some page leaves the root out if a page can be filled with rows ahead of it.
  lemma PageWithout(table: Table, root: nat) returns (page: seq<nat>)
    requires root in table && |Ahead(table, root)| >= PURGE_PAGE
    ensures IsPurgePage(table, page) && root !in page
  {
    var ahead := Ahead(table, root);
    page := OrderedPrefix(table, ahead, PURGE_PAGE);
    assert ahead <= table.Keys - {root};
    SubsetIsSmaller(ahead, table.Keys);
    forall id, other | id in page && other in table && other !in page
      ensures !PurgedAfter(table, id, other)
    {
      assert id in ahead;
    }
  }

  lemma SubsetIsSmaller(a: set<nat>, b: set<nat>)
    requires a <= b
    ensures |a| <= |b|
  {
    assert b == a + (b - a);
  }

  // On a page that leaves the root out, every row is ahead of it.
  lemma AheadFillsPage(table: Table, page: seq<nat>, root: nat)
    requires IsPurgePage(table, page) && root in table && root !in page
    ensures |Ahead(table, root)| >= PURGE_PAGE
  {
    var members := Members(page);
    DistinctSize(page);
    assert members <= Ahead(table, root);
    SubsetIsSmaller(members, Ahead(table, root));
    SubsetIsSmaller(Ahead(table, root) + {root}, table.Keys);
  }

  lemma {:induction false} DistinctSize(page: seq<nat>)
    requires Distinct(page)
    ensures |Members(page)| == |page|
  {
    if page != [] {
      var n := |page| - 1;
      DistinctSize(page[..n]);
      assert Members(page) == Members(page[..n]) + {page[n]};
    }
  }

  ghost predicate ExpiredWithDuplicates(table: Table, cutoffs: nat -> int, root: nat) {
    && Expired(table, cutoffs, root)
    && forall d :: d in table && table[d].duplicateOf == Some(root) ==> Expired(table, cutoffs, d)
  }

  // Every run of the purge removes a root exactly if the root and all its duplicates have
  // expired and the rows ahead of it do not fill a page.
  lemma RootIsPurgedExactly(table: Table, cutoffs: nat -> int, root: nat)
    requires root in table && table[root].duplicateOf.None?
    ensures (forall page :: IsPurgePage(table, page) ==> Removable(table, page, cutoffs, root)) <==>
              ExpiredWithDuplicates(table, cutoffs, root) && |Ahead(table, root)| < 2000
  {
    if |Ahead(table, root)| >= PURGE_PAGE {
      var page := PageWithout(table, root);
      assert !Removable(table, page, cutoffs, root);
    } else {
      forall page | IsPurgePage(table, page)
        ensures Removable(table, page, cutoffs, root) <==> ExpiredWithDuplicates(table, cutoffs, root)
      {
        if root !in page {
          AheadFillsPage(table, page, root);
        }
        forall d | d in table && table[d].duplicateOf == Some(root)
          ensures d in page
        {
          assert PurgedAfter(table, root, d);
        }
      }
      SomePage(table);
    }
  }

  lemma SomePage(table: Table)
    ensures exists page :: IsPurgePage(table, page)
  {
    var page := OrderedPrefix(table, table.Keys, Min(PURGE_PAGE, |table|));
    assert IsPurgePage(table, page);
  }

  // A page holds a root exactly if the duplicates, expired or not, do not fill it.
  lemma RootsAreReachedExactly(table: Table, page: seq<nat>)
    requires IsPurgePage(table, page) && exists id :: id in table && table[id].duplicateOf.None?
    ensures (exists id :: id in page && table[id].duplicateOf.None?) <==> |Duplicates(table)| < 2000
  {
    if id :| id in page && table[id].duplicateOf.None? {
      DuplicatesComeFirst(table, page, id);
    }
    if forall id :: id in page ==> table[id].duplicateOf.Some? {
      var root :| root in table && table[root].duplicateOf.None?;
      DistinctSize(page);
      assert Members(page) <= Duplicates(table);
      SubsetIsSmaller(Members(page), Duplicates(table));
      SubsetIsSmaller(Duplicates(table) + {root}, table.Keys);
    }
  }

  lemma DuplicatesComeFirst(table: Table, page: seq<nat>, root: nat)
    requires IsPurgePage(table, page) && root in page && table[root].duplicateOf.None?
    ensures |Duplicates(table)| < PURGE_PAGE
  {
    forall d | d in Duplicates(table)
      ensures d in page
    {
      assert PurgedAfter(table, root, d);
    }
    DistinctCount(page, Duplicates(table) + {root});
  }

  // --- A table that starves -----------------------------------------------------------------------------

  function Kept(key: nat, takenAt: int): Shot {
    Shot(1, 1, 1, takenAt, Some(key), Some(key), Some(0), None)
  }

  // An old root, a fresh one, and n fresh duplicates of the fresh one.
  function StarvingRow(id: nat): Shot {
    if id == 0 then Kept(0, 0)
    else if id == 1 then Kept(1, 100)
    else Shot(1, 1, 1, 100, None, None, Some(0), Some(1))
  }

  function Starving(n: nat): Table {
    map id: nat | id < n + 2 :: StarvingRow(id)
  }

  function Range(low: nat, high: nat): (r: set<nat>)
    requires low <= high
    ensures forall id :: id in r <==> low <= id < high
  {
    if low == high then {} else Range(low, high - 1) + {high - 1}
  }

  lemma {:induction false} RangeSize(low: nat, high: nat)
    requires low <= high
    ensures |Range(low, high)| == high - low
  {
    if low < high {
      RangeSize(low, high - 1);
      assert high - 1 !in Range(low, high - 1);
    }
  }

  lemma StarvingIsValid(n: nat)
    ensures Valid(Starving(n), n + 2, {0, 1})
  {
    var table := Starving(n);
    assert table[1] == StarvingRow(1) && IsRoot(table, 1);
    forall id | id in table
      ensures KeysOf(table[id]) == if id < 2 then {id} else {}
    {
      assert table[id] == StarvingRow(id);
    }
  }

  lemma StarvingDuplicates(n: nat)
    ensures |Duplicates(Starving(n))| == n
  {
    assert forall id :: id in Starving(n) ==> Starving(n)[id] == StarvingRow(id);
    assert Duplicates(Starving(n)) == Range(2, n + 2);
    RangeSize(2, n + 2);
  }

  // With 2000 of them the old root starves: it has expired and nothing refers to it, but no
  // run ever removes it.
  lemma OldRootStarves(n: nat, page: seq<nat>)
    requires n >= 2000 && IsPurgePage(Starving(n), page)
    ensures Valid(Starving(n), n + 2, {0, 1})
    ensures ExpiredWithDuplicates(Starving(n), employee => 50, 0) && !Removable(Starving(n), page, employee => 50, 0)
  {
    StarvingIsValid(n);
    StarvingDuplicates(n);
    assert Starving(n)[0] == StarvingRow(0);
    assert forall id :: id in Starving(n) ==> Starving(n)[id] == StarvingRow(id);
    DuplicatesStarveRoots(Starving(n), page, employee => 50, 0);
  }
}
