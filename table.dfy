/** The paged row store: a table of TABLE_MAX_PAGES page slots, each empty or
    holding a PAGE_SIZE-byte page allocated the first time a row index maps
    into it, and a row count. Row n lives in page n / ROWS_PER_PAGE at byte
    offset (n % ROWS_PER_PAGE) * ROW_SIZE. */
module PagedStore {
  import opened CStrings
  import opened RowCodec

  datatype Option<T> = None | Some(value: T)

  const PAGE_SIZE: nat := 4096
  const TABLE_MAX_PAGES: nat := 100
  const ROWS_PER_PAGE: nat := 13
  const TABLE_MAX_ROWS: nat := 1300

  /** A page holds as many whole rows as fit in it, and the table as many
      rows as its pages hold. */
  lemma Capacity()
    ensures ROWS_PER_PAGE == PAGE_SIZE / ROW_SIZE
    ensures TABLE_MAX_ROWS == ROWS_PER_PAGE * TABLE_MAX_PAGES
  {
  }

  datatype ExecuteResult = ExecuteSuccess | ExecuteTableFull

  // ---------------------------------------------------------------------
  // Slot arithmetic
  // ---------------------------------------------------------------------

  /** The page that holds row n: the one whose first row index is the
      greatest multiple of ROWS_PER_PAGE not above n. */
  function PageOf(n: nat): (p: nat)
    ensures p * ROWS_PER_PAGE <= n < p * ROWS_PER_PAGE + ROWS_PER_PAGE
  {
    n / ROWS_PER_PAGE
  }

  /** The byte offset of row n inside its page: a whole number of rows from
      the page's start, with room for the row before the page ends. */
  function OffsetOf(n: nat): (o: nat)
    ensures o % ROW_SIZE == 0 && o + ROW_SIZE <= PAGE_SIZE
  {
    (n % ROWS_PER_PAGE) * ROW_SIZE
  }

  /** Every row index the table admits addresses a slot that lies wholly
      inside one of its pages. */
  lemma SlotInsidePage(n: nat)
    requires n < TABLE_MAX_ROWS
    ensures PageOf(n) < TABLE_MAX_PAGES
    ensures OffsetOf(n) + ROW_SIZE <= PAGE_SIZE
  {
  }

  /** Distinct row indices address slots that do not overlap: different
      pages, or disjoint byte ranges of the same page. */
  lemma SlotsDisjoint(m: nat, n: nat)
    requires m < TABLE_MAX_ROWS && n < TABLE_MAX_ROWS && m != n
    ensures PageOf(m) != PageOf(n)
         || OffsetOf(m) + ROW_SIZE <= OffsetOf(n)
         || OffsetOf(n) + ROW_SIZE <= OffsetOf(m)
  {
  }

  /** The number of pages that n rows occupy: the least k with
      k * ROWS_PER_PAGE >= n. */
  function PagesInUse(n: nat): (k: nat)
    ensures k * ROWS_PER_PAGE >= n
    ensures k == 0 || (k - 1) * ROWS_PER_PAGE < n
  {
    (n + ROWS_PER_PAGE - 1) / ROWS_PER_PAGE
  }

  // ---------------------------------------------------------------------
  // memcpy and serialize_row into a page
  // ---------------------------------------------------------------------

  /** memcpy(dst + at, src, |src|). */
  method Memcpy(dst: array<byte>, at: nat, src: seq<byte>)
    requires at + |src| <= dst.Length
    modifies dst
    ensures forall k :: 0 <= k < dst.Length ==>
              dst[k] == if at <= k < at + |src| then src[k - at] else old(dst[k])
  {
    for j := 0 to |src|
      invariant forall k :: 0 <= k < dst.Length ==>
                  dst[k] == if at <= k < at + j then src[k - at] else old(dst[k])
    {
      dst[at + j] := src[j];
    }
  }

  /** serialize_row(row, dst + at): the three fields, each copied to its
      offset; nothing outside the row's ROW_SIZE bytes changes. */
  method SerializeRowInto(row: Row, dst: array<byte>, at: nat)
    requires WellFormed(row) && at + ROW_SIZE <= dst.Length
    modifies dst
    ensures dst[at..at + ROW_SIZE] == Serialize(row)
    ensures forall k :: 0 <= k < dst.Length && !(at <= k < at + ROW_SIZE) ==> dst[k] == old(dst[k])
  {
    Memcpy(dst, at + ID_OFFSET, EncodeId(row.id));
    Memcpy(dst, at + USERNAME_OFFSET, row.username);
    Memcpy(dst, at + EMAIL_OFFSET, row.email);
    assert forall k :: 0 <= k < ROW_SIZE ==> dst[at + k] == Serialize(row)[k];
  }

  /** A write confined to [lo, hi) leaves every range outside it as it was. */
  lemma UntouchedRange(before: seq<byte>, after: seq<byte>, lo: nat, hi: nat, from: nat, to: nat)
    requires |before| == |after| && from <= to <= |before|
    requires forall k :: 0 <= k < |after| && !(lo <= k < hi) ==> after[k] == before[k]
    requires to <= lo || hi <= from
    ensures after[from..to] == before[from..to]
  {
  }

  // ---------------------------------------------------------------------
  // The table
  // ---------------------------------------------------------------------

  class Table {
    var numRows: nat
    const pages: array<Option<array<byte>>>

    /** The rows stored so far, in index order. */
    ghost var Contents: seq<Row>
    /** The table, its page-slot array and every allocated page. */
    ghost var Repr: set<object>

    /** The ROW_SIZE bytes that row slot i holds. */
    ghost function Stored(i: nat): seq<byte>
      requires pages.Length == TABLE_MAX_PAGES && i < TABLE_MAX_ROWS
      requires pages[PageOf(i)].Some? && pages[PageOf(i)].value.Length == PAGE_SIZE
      reads this, pages, pages[PageOf(i)].value
    {
      pages[PageOf(i)].value[OffsetOf(i)..OffsetOf(i) + ROW_SIZE]
    }

    /** Slot i lies in an allocated page and holds the compact form of
        Contents[i]. */
    ghost predicate Holds(i: nat)
      requires pages.Length == TABLE_MAX_PAGES && i < |Contents| && i < TABLE_MAX_ROWS
      reads this, pages, if pages[PageOf(i)].Some? then {pages[PageOf(i)].value} else {}
    {
      && pages[PageOf(i)].Some? && pages[PageOf(i)].value.Length == PAGE_SIZE
      && WellFormed(Contents[i]) && Stored(i) == Serialize(Contents[i])
    }

    /** Every allocated page is its own PAGE_SIZE buffer inside Repr. */
    ghost predicate Framed()
      reads this, Repr
    {
      && this in Repr && pages in Repr
      && pages.Length == TABLE_MAX_PAGES
      && (forall p :: 0 <= p < TABLE_MAX_PAGES && pages[p].Some? ==>
            pages[p].value in Repr && pages[p].value.Length == PAGE_SIZE)
      && (forall p, q :: 0 <= p < q < TABLE_MAX_PAGES && pages[p].Some? && pages[q].Some? ==>
            pages[p].value != pages[q].value)
    }

    /** The frame and the stored data agree: slot i holds Contents[i] for
        every i below numRows. */
    ghost predicate Sound()
      reads this, Repr
    {
      && Framed()
      && numRows <= TABLE_MAX_ROWS
      && |Contents| == numRows
      && (forall i :: 0 <= i < numRows ==> Holds(i))
    }

    /** The table invariant: Sound, and the allocated pages are exactly the
        pages that hold a row, a prefix of the page-slot array. */
    ghost predicate Valid()
      reads this, Repr
    {
      && Sound()
      && (forall p :: 0 <= p < TABLE_MAX_PAGES ==> (pages[p].Some? <==> p * ROWS_PER_PAGE < numRows))
    }

    /** new_table: no rows, every page slot empty. */
    constructor ()
      ensures Valid() && fresh(Repr)
      ensures numRows == 0 && Contents == []
      ensures forall p :: 0 <= p < TABLE_MAX_PAGES ==> pages[p].None?
    {
      numRows := 0;
      pages := new Option<array<byte>>[TABLE_MAX_PAGES];
      Contents := [];
      new;
      Repr := {this, pages};
      for i := 0 to TABLE_MAX_PAGES
        modifies pages
        invariant forall p :: 0 <= p < i ==> pages[p].None?
      {
        pages[i] := None;
      }
    }

    /** row_slot: the page and byte offset of row rowNum, allocating the page
        when its slot is empty. Nothing else changes: no other page slot, no
        stored byte, not the row count. */
    method RowSlot(rowNum: nat) returns (page: array<byte>, offset: nat)
      requires Sound() && rowNum < TABLE_MAX_ROWS
      modifies this, pages
      ensures Sound() && fresh(Repr - old(Repr))
      ensures numRows == old(numRows) && Contents == old(Contents)
      ensures pages[PageOf(rowNum)] == Some(page) && page.Length == PAGE_SIZE
      ensures offset == OffsetOf(rowNum) && offset + ROW_SIZE <= PAGE_SIZE
      ensures old(pages[PageOf(rowNum)]).Some? ==> pages[..] == old(pages[..]) && Repr == old(Repr)
      ensures old(pages[PageOf(rowNum)]).None? ==> fresh(page)
      ensures forall p :: 0 <= p < TABLE_MAX_PAGES && p != PageOf(rowNum) ==> pages[p] == old(pages[p])
    {
      var pageNum := rowNum / ROWS_PER_PAGE;
      if pages[pageNum].None? {
        page := new byte[PAGE_SIZE];
        pages[pageNum] := Some(page);
        Repr := Repr + {page};
        forall i | 0 <= i < numRows
          ensures Holds(i)
        {
          assert old(Holds(i));
        }
      } else {
        page := pages[pageNum].value;
      }
      offset := (rowNum % ROWS_PER_PAGE) * ROW_SIZE;
    }

    /** execute_insert: a full table refuses the row and stays as it was;
        otherwise the row is stored at index numRows and the count grows by
        one, every row stored before keeping its bytes. */
    method ExecuteInsert(row: Row) returns (result: ExecuteResult)
      requires Valid() && WellFormed(row)
      modifies Repr
      ensures Valid() && fresh(Repr - old(Repr))
      ensures result == ExecuteTableFull <==> old(numRows) >= TABLE_MAX_ROWS
      ensures result == ExecuteTableFull ==> numRows == old(numRows) && Contents == old(Contents)
      ensures result == ExecuteSuccess ==> numRows == old(numRows) + 1 && Contents == old(Contents) + [row]
    {
      if numRows >= TABLE_MAX_ROWS {
        return ExecuteTableFull;
      }
      var n := numRows;
      var page, offset := RowSlot(n);
      label Allocated:
      ghost var before := page[..];
      SerializeRowInto(row, page, offset);
      numRows := n + 1;
      Contents := Contents + [row];
      forall i | 0 <= i < numRows
        ensures Holds(i)
      {
        if i == n {
          assert Stored(n) == page[offset..offset + ROW_SIZE];
        } else {
          assert old@Allocated(Holds(i));
          if PageOf(i) == PageOf(n) {
            SlotsDisjoint(i, n);
            UntouchedRange(before, page[..], offset, offset + ROW_SIZE, OffsetOf(i), OffsetOf(i) + ROW_SIZE);
          }
        }
      }
      forall p | 0 <= p < TABLE_MAX_PAGES
        ensures pages[p].Some? <==> p * ROWS_PER_PAGE < numRows
      {
        if p != PageOf(n) {
          assert pages[p] == old(pages[p]);
        }
      }
      result := ExecuteSuccess;
    }

    /** execute_select: the stored rows, decoded in index order. The row
        count, the page slots and every stored byte stay as they were, so a
        second select returns the same rows. */
    method ExecuteSelect() returns (result: ExecuteResult, rows: seq<Row>)
      requires Valid()
      modifies this, pages
      ensures Valid() && Repr == old(Repr)
      ensures numRows == old(numRows) && Contents == old(Contents) && pages[..] == old(pages[..])
      ensures result == ExecuteSuccess
      ensures rows == Contents
    {
      rows := [];
      var i := 0;
      while i < numRows
        invariant Valid() && Repr == old(Repr)
        invariant numRows == old(numRows) && Contents == old(Contents) && pages[..] == old(pages[..])
        invariant 0 <= i <= numRows
        invariant rows == Contents[..i]
      {
        var page, offset := RowSlot(i);
        var row := Deserialize(page[offset..offset + ROW_SIZE]);
        assert Holds(i);
        RoundTrip(Contents[i]);
        rows := rows + [row];
        i := i + 1;
      }
      result := ExecuteSuccess;
    }

    /** The teardown loop of free_table, bounded by the page-slot array: the
        pages it releases are the allocated slots from the front up to the
        first empty one, and because the allocated slots form a prefix these
        are all of the table's pages. */
    method FreeTable() returns (released: seq<array<byte>>)
      requires Valid()
      ensures |released| == PagesInUse(numRows)
      ensures forall p :: 0 <= p < |released| ==> pages[p] == Some(released[p])
      ensures forall p :: 0 <= p < TABLE_MAX_PAGES && pages[p].Some? ==> pages[p].value in released
    {
      released := [];
      var i := 0;
      while i < TABLE_MAX_PAGES && pages[i].Some?
        invariant 0 <= i <= TABLE_MAX_PAGES
        invariant forall p :: 0 <= p < i ==> p * ROWS_PER_PAGE < numRows
        invariant |released| == i
        invariant forall p :: 0 <= p < i ==> pages[p] == Some(released[p])
      {
        released := released + [pages[i].value];
        i := i + 1;
      }
    }
  }

  /** Asking twice for the same slot gives the same storage, held in the
      row's page slot. */
  method RowSlotTwice(t: Table, n: nat) returns (page1: array<byte>, offset1: nat, page2: array<byte>, offset2: nat)
    requires t.Sound() && n < TABLE_MAX_ROWS
    modifies t, t.pages
    ensures page1 == page2 && offset1 == offset2
    ensures t.pages[PageOf(n)] == Some(page1)
  {
    page1, offset1 := t.RowSlot(n);
    ghost var between := t.pages[..];
    page2, offset2 := t.RowSlot(n);
    assert t.pages[..] == between;
  }

  // ---------------------------------------------------------------------
  // The teardown loop of free_table as written
  // ---------------------------------------------------------------------

  /** Which page slots are in use in a table with numRows rows: those whose
      first row index is below numRows. */
  function AllocatedSlots(numRows: nat): (a: seq<bool>)
    ensures |a| == TABLE_MAX_PAGES
    ensures forall p :: 0 <= p < TABLE_MAX_PAGES ==> (a[p] <==> p * ROWS_PER_PAGE < numRows)
  {
    seq(TABLE_MAX_PAGES, p => p * ROWS_PER_PAGE < numRows)
  }

  /** Which of a table's page slots hold a page. */
  ghost function SlotsInUse(t: Table): (a: seq<bool>)
    requires t.pages.Length == TABLE_MAX_PAGES
    reads t, t.pages
    ensures |a| == TABLE_MAX_PAGES
    ensures forall p :: 0 <= p < TABLE_MAX_PAGES ==> (a[p] <==> t.pages[p].Some?)
  {
    seq(TABLE_MAX_PAGES, p requires 0 <= p < TABLE_MAX_PAGES reads t.pages => t.pages[p].Some?)
  }

  /** In a valid table the slots in use are exactly AllocatedSlots of its
      row count. */
  lemma AllocatedSlotsOfTable(t: Table)
    requires t.Valid()
    ensures SlotsInUse(t) == AllocatedSlots(t.numRows)
  {
    assert forall p :: 0 <= p < TABLE_MAX_PAGES ==> SlotsInUse(t)[p] == AllocatedSlots(t.numRows)[p];
  }

  /** The slot indices free_table's loop reads, from slot i on: consecutive
      indices, all in use but the last, which is either the first empty slot
      or |inUse|, one past the end of the array (the loop condition is only
      that the slot is non-empty). */
  function FreeProbesAsWritten(inUse: seq<bool>, i: nat): (probes: seq<nat>)
    requires i <= |inUse|
    ensures probes != [] && i + |probes| <= |inUse| + 1
    ensures forall k :: 0 <= k < |probes| ==> probes[k] == i + k
    ensures forall k :: 0 <= k < |probes| - 1 ==> inUse[probes[k]]
    ensures probes[|probes| - 1] == |inUse| || !inUse[probes[|probes| - 1]]
    decreases |inUse| - i
  {
    if i == |inUse| || !inUse[i] then [i] else [i] + FreeProbesAsWritten(inUse, i + 1)
  }

  /** The loop reads no slot after an empty one. */
  lemma {:induction false} ProbesStopAtEmptySlot(inUse: seq<bool>, i: nat, k: nat)
    requires i <= k < |inUse| && !inUse[k]
    ensures |FreeProbesAsWritten(inUse, i)| <= k - i + 1
    decreases |inUse| - i
  {
    if i < k && inUse[i] {
      ProbesStopAtEmptySlot(inUse, i + 1, k);
    }
  }

  /** A valid table with more than (TABLE_MAX_PAGES - 1) * ROWS_PER_PAGE rows
      has every page in use, and free_table as written then reads
      pages[TABLE_MAX_PAGES], outside the array. */
  lemma FreeTableReadsPastEnd(t: Table)
    requires t.Valid() && (TABLE_MAX_PAGES - 1) * ROWS_PER_PAGE < t.numRows
    ensures forall p :: 0 <= p < TABLE_MAX_PAGES ==> t.pages[p].Some?
    ensures TABLE_MAX_PAGES in FreeProbesAsWritten(SlotsInUse(t), 0)
  {
    AllocatedSlotsOfTable(t);
    var probes := FreeProbesAsWritten(SlotsInUse(t), 0);
    assert probes[|probes| - 1] == TABLE_MAX_PAGES;
  }

  /** With fewer rows the last slot of a valid table is empty and every read
      of the loop as written is in bounds. */
  lemma FreeTableInBounds(t: Table)
    requires t.Valid() && t.numRows <= (TABLE_MAX_PAGES - 1) * ROWS_PER_PAGE
    ensures t.pages[TABLE_MAX_PAGES - 1].None?
    ensures forall q <- FreeProbesAsWritten(SlotsInUse(t), 0) :: q < TABLE_MAX_PAGES
  {
    AllocatedSlotsOfTable(t);
    ProbesStopAtEmptySlot(SlotsInUse(t), 0, TABLE_MAX_PAGES - 1);
  }
}
