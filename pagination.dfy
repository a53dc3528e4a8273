/** The client's pagination of the in-memory note list: a fixed page size of
    two, `Math.ceil` page count, `slice` for the current page, and the clamp
    of the current page after a delete. */
module Pagination {
  import opened Notes

  const MemosPerPage: nat := 2

  /** `Math.ceil(x / d)` for an integer x of either sign (the clamp computes it
      for x = -1 when the list was empty). */
  function CeilDiv(x: int, d: nat): (r: int)
    requires d > 0
    ensures d * r >= x
    ensures d * r < x + d
  {
    -((-x) / d)
  }

  /** `totalPages` for a list of n notes. */
  function TotalPages(n: nat): (t: nat)
    ensures MemosPerPage * t >= n
    ensures MemosPerPage * t < n + MemosPerPage
  {
    CeilDiv(n, MemosPerPage)
  }

  function Min(a: int, b: int): int { if a <= b then a else b }

  /** `currentMemos`: `memos.slice(page * 2, (page + 1) * 2)`, where `slice`
      clamps both ends to the length. */
  function CurrentMemos(memos: seq<Note>, page: nat): (shown: seq<Note>)
    ensures |shown| <= MemosPerPage
    ensures forall i :: 0 <= i < |shown| ==> page * MemosPerPage + i < |memos| && shown[i] == memos[page * MemosPerPage + i]
    ensures shown == [] <==> page >= TotalPages(|memos|)
    ensures page + 1 < TotalPages(|memos|) ==> |shown| == MemosPerPage
  {
    var n := |memos|;
    memos[Min(page * MemosPerPage, n)..Min((page + 1) * MemosPerPage, n)]
  }

  /** Pages 0 .. k-1 laid end to end. */
  function AllPages(memos: seq<Note>, k: nat): seq<Note>
  {
    if k == 0 then [] else AllPages(memos, k - 1) + CurrentMemos(memos, k - 1)
  }

  /** The first k pages are the first 2k notes (fewer if the list is shorter). */
  lemma {:induction false} AllPagesPrefix(memos: seq<Note>, k: nat)
    ensures AllPages(memos, k) == memos[..Min(k * MemosPerPage, |memos|)]
  {
    if k > 0 {
      AllPagesPrefix(memos, k - 1);
      var n := |memos|;
      var a, b := Min((k - 1) * MemosPerPage, n), Min(k * MemosPerPage, n);
      assert memos[..a] + memos[a..b] == memos[..b];
    }
  }

  /** The pages partition the list: together, in page order, they are the
      whole list, each note on exactly one page. */
  lemma PagesPartitionList(memos: seq<Note>)
    ensures AllPages(memos, TotalPages(|memos|)) == memos
  {
    AllPagesPrefix(memos, TotalPages(|memos|));
  }

  /** Note i is shown on page i / 2, at position i % 2. */
  lemma NoteOnItsPage(memos: seq<Note>, i: nat)
    requires i < |memos|
    ensures i / MemosPerPage < TotalPages(|memos|)
    ensures CurrentMemos(memos, i / MemosPerPage)[i % MemosPerPage] == memos[i]
  {
  }

  /** The page shown after deleting a note while `currentPage` was shown and
      the list held `lengthBefore` notes: the page count is computed from
      `lengthBefore - 1`, whatever the server actually removed. */
  function ClampAfterDelete(currentPage: nat, lengthBefore: nat): (page: nat)
    ensures page <= currentPage
    ensures var k := CeilDiv(lengthBefore - 1, MemosPerPage);
      && (k > 0 ==> page < k)
      && (currentPage >= k && k > 0 ==> page == k - 1)
      && (currentPage < k || k == 0 ==> page == currentPage)
  {
    var newTotalPages := CeilDiv(lengthBefore - 1, MemosPerPage);
    if currentPage >= newTotalPages && newTotalPages > 0 then newTotalPages - 1 else currentPage
  }

  /** When the delete removed exactly one note and notes remain, the clamped
      page is a page that shows notes. */
  lemma ClampShowsNotes(after: seq<Note>, currentPage: nat, lengthBefore: nat)
    requires |after| == lengthBefore - 1 && after != []
    ensures CurrentMemos(after, ClampAfterDelete(currentPage, lengthBefore)) != []
  {
  }

  /** When the list had at most one note, the page is never moved (so after
      deleting the last note it stays where it was, showing nothing). */
  lemma ClampKeepsPageWhenEmptied(currentPage: nat, lengthBefore: nat)
    requires lengthBefore <= 1
    ensures ClampAfterDelete(currentPage, lengthBefore) == currentPage
  {
  }

  /** Deleting the only note of the last page moves back exactly one page. */
  lemma ClampLeavesEmptiedLastPage(lengthBefore: nat)
    requires lengthBefore >= 3 && lengthBefore % 2 == 1
    ensures ClampAfterDelete(TotalPages(lengthBefore) - 1, lengthBefore) == TotalPages(lengthBefore) - 2
  {
  }

  /** Three notes, the second page shown, the third note deleted: the page
      moves from 1 to 0. */
  lemma ClampScenarioThreeNotes(n1: Note, n2: Note, n3: Note)
    requires n1.id == 1 && n2.id == 2 && n3.id == 3
    ensures CurrentMemos([n1, n2, n3], 1) == [n3]
    ensures ClampAfterDelete(1, 3) == 0
    ensures CurrentMemos([n1, n2], ClampAfterDelete(1, 3)) == [n1, n2]
  {
  }

  /** Because the clamp assumes exactly one note was removed, a delete that
      removed two notes (two notes sharing the id) from a list of even length,
      seen from its last page, leaves the view on a page that is now empty. */
  lemma ClampAfterDoubleRemoval(after: seq<Note>, lengthBefore: nat)
    requires lengthBefore >= 2 && lengthBefore % 2 == 0 && |after| == lengthBefore - 2
    ensures ClampAfterDelete(TotalPages(lengthBefore) - 1, lengthBefore) == TotalPages(lengthBefore) - 1
    ensures CurrentMemos(after, ClampAfterDelete(TotalPages(lengthBefore) - 1, lengthBefore)) == []
  {
  }
}
