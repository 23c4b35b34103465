/** The screenshot purge run again and again, with cutoffs that stand still and no uploads. */
module RepeatedPurge {
  import opened Common
  import opened Screenshots

  // One page per run, each cut from what the runs before left.
  ghost predicate ArePurgePages(table: Table, pages: seq<seq<nat>>, cutoffs: nat -> int)
    decreases |pages|
  {
    pages == [] ||
    (IsPurgePage(table, pages[0]) && ArePurgePages(AfterPurge(table, pages[0], cutoffs), pages[1..], cutoffs))
  }

  ghost function AfterRuns(table: Table, pages: seq<seq<nat>>, cutoffs: nat -> int): Table
    decreases |pages|
  {
    if pages == [] then table else AfterRuns(AfterPurge(table, pages[0], cutoffs), pages[1..], cutoffs)
  }

  lemma {:induction false} RunsOnlyRemove(table: Table, pages: seq<seq<nat>>, cutoffs: nat -> int, id: nat)
    requires id !in table
    ensures id !in AfterRuns(table, pages, cutoffs)
    decreases |pages|
  {
    if pages != [] {
      RunsOnlyRemove(AfterPurge(table, pages[0], cutoffs), pages[1..], cutoffs, id);
    }
  }

  // What was taken at or after the cutoff of its employee is kept by any runs.
  lemma {:induction false} FreshRowsStay(table: Table, pages: seq<seq<nat>>, cutoffs: nat -> int, id: nat)
    requires id in table && table[id].takenAt >= cutoffs(table[id].employee)
    ensures id in AfterRuns(table, pages, cutoffs) && AfterRuns(table, pages, cutoffs)[id] == table[id]
    decreases |pages|
  {
    if pages != [] {
      FreshRowsStay(AfterPurge(table, pages[0], cutoffs), pages[1..], cutoffs, id);
    }
  }

  // A duplicate on the page that was taken before it goes at once, and a root does if
  // nothing that duplicates it was taken later.
  lemma OldRowsGo(table: Table, page: seq<nat>, cutoffs: nat -> int, id: nat)
    requires IsPurgePage(table, page) && id in page && table[id].takenAt < cutoffs(table[id].employee)
    requires forall d :: d in table && table[d].duplicateOf == Some(id) ==>
               table[d].takenAt < cutoffs(table[d].employee)
    ensures id !in AfterPurge(table, page, cutoffs)
  {
    PassingOnPageGo(table, page, cutoffs, id);
  }

  // --- Rows that never go ---------------------------------------------------------------------

  // A row that has not expired, or a root with a duplicate that has not.
  ghost predicate Permanent(table: Table, cutoffs: nat -> int, id: nat)
    requires id in table
  {
    !Expired(table, cutoffs, id) || (table[id].duplicateOf.None? && HasFreshDuplicate(table, cutoffs, id))
  }

  ghost predicate HasFreshDuplicate(table: Table, cutoffs: nat -> int, root: nat) {
    exists d :: d in table && table[d].duplicateOf == Some(root) && !Expired(table, cutoffs, d)
  }

  lemma PermanentStays(table: Table, page: seq<nat>, cutoffs: nat -> int, id: nat)
    requires id in table && Permanent(table, cutoffs, id)
    ensures var after := AfterPurge(table, page, cutoffs); id in after && Permanent(after, cutoffs, id)
  {
    var after := AfterPurge(table, page, cutoffs);
    if Expired(table, cutoffs, id) {
      var d :| d in table && table[d].duplicateOf == Some(id) && !Expired(table, cutoffs, d);
      assert d in after && !Expired(after, cutoffs, d);
    }
  }

  lemma PermanentWasBefore(table: Table, page: seq<nat>, cutoffs: nat -> int, id: nat)
    requires var after := AfterPurge(table, page, cutoffs); id in after && Permanent(after, cutoffs, id)
    ensures id in table && Permanent(table, cutoffs, id)
  {
    var after := AfterPurge(table, page, cutoffs);
    if Expired(after, cutoffs, id) {
      var d :| d in after && after[d].duplicateOf == Some(id) && !Expired(after, cutoffs, d);
      assert d in table && !Expired(table, cutoffs, d);
    }
  }

  // A root goes with time only if it is not permanent.
  lemma PermanentExactly(table: Table, cutoffs: nat -> int, root: nat)
    requires root in table && table[root].duplicateOf.None?
    ensures Permanent(table, cutoffs, root) <==> !ExpiredWithDuplicates(table, cutoffs, root)
  {
  }

  // What may be listed before the root and never goes.
  ghost function PermanentAhead(table: Table, cutoffs: nat -> int, root: nat): set<nat>
    requires root in table
  {
    set id | id in Ahead(table, root) && Permanent(table, cutoffs, id)
  }

  lemma PermanentAheadStays(table: Table, page: seq<nat>, cutoffs: nat -> int, root: nat)
    requires root in table && root in AfterPurge(table, page, cutoffs)
    ensures PermanentAhead(AfterPurge(table, page, cutoffs), cutoffs, root) == PermanentAhead(table, cutoffs, root)
  {
    var after := AfterPurge(table, page, cutoffs);
    forall id
      ensures id in PermanentAhead(after, cutoffs, root) <==> id in PermanentAhead(table, cutoffs, root)
    {
      if id in PermanentAhead(table, cutoffs, root) {
        PermanentStays(table, page, cutoffs, id);
      }
      if id in PermanentAhead(after, cutoffs, root) {
        PermanentWasBefore(table, page, cutoffs, id);
      }
    }
  }

  // --- Every run makes room ---------------------------------------------------------------------

  // A root on the page has all its duplicates there.
  lemma DuplicatesAreOnPage(table: Table, page: seq<nat>, root: nat, d: nat)
    requires IsPurgePage(table, page) && root in page && table[root].duplicateOf.None?
    requires d in table && table[d].duplicateOf == Some(root)
    ensures d in page
  {
    assert PurgedAfter(table, root, d);
  }

  lemma PassingOnPageGo(table: Table, page: seq<nat>, cutoffs: nat -> int, id: nat)
    requires IsPurgePage(table, page) && id in page && !Permanent(table, cutoffs, id)
    ensures id !in AfterPurge(table, page, cutoffs)
  {
    if table[id].duplicateOf.None? {
      forall d | d in table && table[d].duplicateOf == Some(id)
        ensures d in page && Expired(table, cutoffs, d)
      {
        DuplicatesAreOnPage(table, page, id, d);
      }
    }
    assert Removable(table, page, cutoffs, id);
  }

  lemma SomeOther(some: set<nat>, few: set<nat>) returns (x: nat)
    requires |few| < |some|
    ensures x in some && x !in few
  {
    if forall x :: x in some ==> x in few {
      SubsetIsSmaller(some, few);
    }
    x :| x in some && x !in few;
  }

  // A run that leaves the root removes something else.
  lemma RunMakesRoom(table: Table, page: seq<nat>, cutoffs: nat -> int, root: nat)
    requires root in table && !Permanent(table, cutoffs, root) && table[root].duplicateOf.None?
    requires |PermanentAhead(table, cutoffs, root)| < PURGE_PAGE && IsPurgePage(table, page)
    requires root in AfterPurge(table, page, cutoffs)
    ensures |AfterPurge(table, page, cutoffs)| < |table|
  {
    if root in page {
      PassingOnPageGo(table, page, cutoffs, root);
    }
    PageIsAhead(table, page, root);
    var x := SomeOther(Members(page), PermanentAhead(table, cutoffs, root));
    PassingOnPageGo(table, page, cutoffs, x);
    SmallerAfter(table, page, cutoffs, x);
  }

  lemma PageIsAhead(table: Table, page: seq<nat>, root: nat)
    requires IsPurgePage(table, page) && root in table && root !in page
    ensures Members(page) <= Ahead(table, root) && |Members(page)| == PURGE_PAGE
  {
    AheadFillsPage(table, page, root);
    SubsetIsSmaller(Ahead(table, root), table.Keys);
    DistinctSize(page);
  }

  lemma SmallerAfter(table: Table, page: seq<nat>, cutoffs: nat -> int, gone: nat)
    requires gone in table && gone !in AfterPurge(table, page, cutoffs)
    ensures |AfterPurge(table, page, cutoffs)| < |table|
  {
    var after := AfterPurge(table, page, cutoffs);
    assert after.Keys <= table.Keys - {gone};
    SubsetIsSmaller(after.Keys, table.Keys - {gone});
  }

  lemma {:induction false} RunsRemoveRoot(table: Table, pages: seq<seq<nat>>, cutoffs: nat -> int, root: nat)
    requires root in table ==> table[root].duplicateOf.None? && !Permanent(table, cutoffs, root)
    requires root in table ==> |PermanentAhead(table, cutoffs, root)| < PURGE_PAGE
    requires ArePurgePages(table, pages, cutoffs) && |pages| >= |table|
    ensures root !in AfterRuns(table, pages, cutoffs)
    decreases |pages|
  {
    if root !in table {
      RunsOnlyRemove(table, pages, cutoffs, root);
    } else {
      assert |table| > 0 by {
        SubsetIsSmaller({root}, table.Keys);
      }
      var after := AfterPurge(table, pages[0], cutoffs);
      if root in after {
        RunMakesRoom(table, pages[0], cutoffs, root);
        PermanentAheadStays(table, pages[0], cutoffs, root);
        if Permanent(after, cutoffs, root) {
          PermanentWasBefore(table, pages[0], cutoffs, root);
        }
        RunsRemoveRoot(after, pages[1..], cutoffs, root);
      } else {
        RunsOnlyRemove(after, pages[1..], cutoffs, root);
      }
    }
  }

  // --- Runs that keep a root ----------------------------------------------------------------------

  lemma PageThatKeeps(table: Table, cutoffs: nat -> int, root: nat) returns (page: seq<nat>)
    requires root in table
    requires Permanent(table, cutoffs, root) || |PermanentAhead(table, cutoffs, root)| >= PURGE_PAGE
    ensures IsPurgePage(table, page) && root in AfterPurge(table, page, cutoffs)
  {
    if Permanent(table, cutoffs, root) {
      SomePage(table);
      page :| IsPurgePage(table, page);
      PermanentStays(table, page, cutoffs, root);
    } else {
      SubsetIsSmaller(PermanentAhead(table, cutoffs, root), Ahead(table, root));
      page := PageWithout(table, root);
    }
  }

  lemma {:induction false} RunsThatKeep(table: Table, cutoffs: nat -> int, root: nat, n: nat)
    returns (pages: seq<seq<nat>>)
    requires root in table
    requires Permanent(table, cutoffs, root) || |PermanentAhead(table, cutoffs, root)| >= PURGE_PAGE
    ensures |pages| == n && ArePurgePages(table, pages, cutoffs) && root in AfterRuns(table, pages, cutoffs)
    decreases n
  {
    if n == 0 {
      pages := [];
    } else {
      var page := PageThatKeeps(table, cutoffs, root);
      var after := AfterPurge(table, page, cutoffs);
      PermanentAheadStays(table, page, cutoffs, root);
      if Permanent(table, cutoffs, root) {
        PermanentStays(table, page, cutoffs, root);
      }
      var rest := RunsThatKeep(after, cutoffs, root, n - 1);
      pages := [page] + rest;
      assert pages[1..] == rest;
    }
  }

  ghost predicate AlwaysGone(table: Table, cutoffs: nat -> int, root: nat, n: nat) {
    forall pages :: |pages| == n && ArePurgePages(table, pages, cutoffs) ==> root !in AfterRuns(table, pages, cutoffs)
  }

  // As many runs as there are rows are sure to remove a root exactly if it and its
  // duplicates have expired and the rows ahead of it that never go do not fill a page; and
  // if those many are not, no number of runs is.
  lemma EventuallyPurgedExactly(table: Table, cutoffs: nat -> int, root: nat, n: nat)
    requires root in table && table[root].duplicateOf.None? && n >= |table|
    ensures AlwaysGone(table, cutoffs, root, n) <==>
              ExpiredWithDuplicates(table, cutoffs, root) && |PermanentAhead(table, cutoffs, root)| < 2000
  {
    PermanentExactly(table, cutoffs, root);
    if !Permanent(table, cutoffs, root) && |PermanentAhead(table, cutoffs, root)| < PURGE_PAGE {
      forall pages | |pages| == n && ArePurgePages(table, pages, cutoffs)
        ensures root !in AfterRuns(table, pages, cutoffs)
      {
        RunsRemoveRoot(table, pages, cutoffs, root);
      }
    } else {
      var pages := RunsThatKeep(table, cutoffs, root, n);
    }
  }
}
