/** The microcontroller's flash: rows of four pages of 32 halfwords. Erasing a row sets it to
    ones. Data goes to the page buffer first; writing the page can only clear bits. */
module NorFlash {
  import opened Wrappers

  const ERASED: bv16 := 0xFFFF
  const PAGE: nat := 32
  const ROW: nat := 128

  // Rows and pages by halfword address.

  predicate AtRow(address: nat) { address % 128 == 0 }
  predicate AtPage(address: nat) { address % 32 == 0 }
  function RowOf(address: nat): nat { address / 128 * 128 }
  function PageOf(address: nat): nat { address / 32 * 32 }
  function SlotOf(address: nat): nat { address % 32 }

  /** What the cells hold, and how often each was programmed since its row was last erased. */
  datatype Image = Image(cells: seq<bv16>, programmed: seq<nat>)

  function Overwritten<T>(s: seq<T>, at: nat, data: seq<T>): (r: seq<T>)
    requires at + |data| <= |s|
    ensures |r| == |s|
  {
    s[..at] + data + s[at + |data|..]
  }

  predicate Has(c: Image, at: nat, length: nat) {
    at + length <= |c.cells| == |c.programmed|
  }

  /** A plain copy: these cells hold the data, programmed once; the others are as they were. */
  function Copied(c: Image, at: nat, data: seq<bv16>): (r: Image)
    requires Has(c, at, |data|)
    ensures |r.cells| == |c.cells| == |r.programmed|
  {
    Image(Overwritten(c.cells, at, data), Overwritten(c.programmed, at, Copies(1, |data|)))
  }

  // ---------------------------------------------------------------- the two commands

  function RowErased(c: Image, row: nat): (r: Image)
    requires Has(c, row, ROW)
    ensures |r.cells| == |c.cells| == |r.programmed|
  {
    Image(Overwritten(c.cells, row, Copies(ERASED, ROW)), Overwritten(c.programmed, row, Copies(0, ROW)))
  }

  /** Writing a value to a cell clears bits. */
  function Anded(cell: bv16, value: bv16): bv16 {
    cell & value
  }

  function PageWritten(c: Image, page: nat, buffer: seq<bv16>): (r: Image)
    requires Has(c, page, PAGE) && |buffer| == PAGE
    ensures |r.cells| == |c.cells| == |r.programmed|
  {
    Image(seq(|c.cells|, i requires 0 <= i < |c.cells| =>
                if page <= i < page + PAGE then Anded(c.cells[i], buffer[i - page]) else c.cells[i]),
          seq(|c.cells|, i requires 0 <= i < |c.cells| =>
                c.programmed[i] + if page <= i < page + PAGE then 1 else 0))
  }

  predicate IsErased(c: Image, at: nat, length: nat)
    requires Has(c, at, length)
  {
    forall i :: at <= i < at + length ==> c.cells[i] == ERASED && c.programmed[i] == 0
  }

  lemma OnesKeep(v: bv16)
    ensures Anded(ERASED, v) == v
  {
  }

  /** Over erased cells, writing a page is a copy. */
  lemma WritesOverErased(c: Image, page: nat, data: seq<bv16>)
    requires Has(c, page, PAGE) && |data| == PAGE && IsErased(c, page, PAGE)
    ensures PageWritten(c, page, data) == Copied(c, page, data)
  {
    forall i | 0 <= i < PAGE ensures Anded(ERASED, data[i]) == data[i] {
      OnesKeep(data[i]);
    }
    assert PageWritten(c, page, data).cells == Copied(c, page, data).cells;
    assert PageWritten(c, page, data).programmed == Copied(c, page, data).programmed;
  }

  lemma OverwrittenTwice<T>(s: seq<T>, at: nat, a: seq<T>, b: seq<T>)
    requires at + |a| + |b| <= |s|
    ensures Overwritten(Overwritten(s, at, a), at + |a|, b) == Overwritten(s, at, a + b)
  {
  }

  /** Two adjacent copies are one. */
  lemma CopiedTwice(c: Image, at: nat, a: seq<bv16>, b: seq<bv16>)
    requires Has(c, at, |a| + |b|)
    ensures Copied(Copied(c, at, a), at + |a|, b) == Copied(c, at, a + b)
  {
    OverwrittenTwice(c.cells, at, a, b);
    OverwrittenTwice(c.programmed, at, Copies(1, |a|), Copies(1, |b|));
    assert Copies(1, |a|) + Copies(1, |b|) == Copies(1, |a + b|);
  }

  /** Copying piece by piece. */
  lemma CopiedFurther(c: Image, at: nat, data: seq<bv16>, n: nat, k: nat)
    requires n + k <= |data| && Has(c, at, |data|)
    ensures Copied(Copied(c, at, data[..n]), at + n, data[n..n + k]) == Copied(c, at, data[..n + k])
  {
    CopiedTwice(c, at, data[..n], data[n..n + k]);
    assert data[..n] + data[n..n + k] == data[..n + k];
  }

  lemma CopiedNothing(c: Image, at: nat)
    requires Has(c, at, 0)
    ensures Copied(c, at, []) == c
  {
    assert Overwritten(c.cells, at, []) == c.cells;
    assert Overwritten(c.programmed, at, Copies(1, 0)) == c.programmed;
  }

  /** While a row is filled from its start, its rest stays erased. */
  lemma RestIsErased(c: Image, row: nat, data: seq<bv16>)
    requires Has(c, row, ROW) && |data| <= ROW
    ensures IsErased(Copied(RowErased(c, row), row, data), row + |data|, ROW - |data|)
  {
  }

  lemma OverwrittenOver<T>(s: seq<T>, at: nat, a: seq<T>, b: seq<T>)
    requires at + |a| <= |s| && |a| == |b|
    ensures Overwritten(Overwritten(s, at, a), at, b) == Overwritten(s, at, b)
  {
  }

  /** An erased row that is filled is a row copied. */
  lemma FilledRow(c: Image, row: nat, data: seq<bv16>)
    requires Has(c, row, ROW) && |data| == ROW
    ensures Copied(RowErased(c, row), row, data) == Copied(c, row, data)
  {
    OverwrittenOver(c.cells, row, Copies(ERASED, ROW), data);
    OverwrittenOver(c.programmed, row, Copies(0, ROW), Copies(1, ROW));
  }

  // ---------------------------------------------------------------- the controller

  /** Storing a value in the page buffer. */
  function Stored(buffer: seq<bv16>, slot: nat, value: bv16): (r: seq<bv16>)
    requires slot < |buffer|
    ensures |r| == |buffer|
  {
    buffer[slot := Anded(buffer[slot], value)]
  }

  /** The page buffer after the first i stores to a page. */
  predicate Filling(buffer: seq<bv16>, i: nat, data: seq<bv16>) {
    && |buffer| == |data| == PAGE && i <= PAGE
    && (forall k :: 0 <= k < i ==> buffer[k] == data[k])
    && forall k :: i <= k < PAGE ==> buffer[k] == ERASED
  }

  lemma FillingNext(buffer: seq<bv16>, i: nat, data: seq<bv16>)
    requires i < PAGE && Filling(buffer, i, data)
    ensures Filling(Stored(buffer, i, data[i]), i + 1, data)
    ensures i + 1 == PAGE ==> Stored(buffer, i, data[i]) == data
  {
    OnesKeep(data[i]);
  }

  lemma PageMultiple(q: nat)
    ensures AtPage(32 * q)
  {
  }

  lemma RowMultiple(q: nat)
    ensures AtRow(128 * q) && RowOf(128 * q) == 128 * q
  {
  }

  /** Rows and pages lie inside the flash. */
  lemma Inside(length: nat, address: nat)
    requires AtRow(length) && address < length
    ensures RowOf(address) + ROW <= length && PageOf(address) + PAGE <= length
    ensures SlotOf(address) == address - PageOf(address)
  {
    var rows, row, page := length / 128, address / 128, address / 32;
    assert length == 128 * rows && row < rows;
    assert length == 32 * (4 * rows) && page < 4 * rows;
  }

  lemma InsidePage(length: nat, page: nat, i: nat)
    requires AtRow(length) && AtPage(page) && page < length && i < PAGE
    ensures SlotOf(page + i) == i && PageOf(page + i) == page && page + PAGE <= length
  {
  }

  lemma RowStart(row: nat, length: nat)
    requires AtRow(row) && AtRow(length) && row < length
    ensures RowOf(row) == row && row + ROW <= length
    ensures AtPage(row) && AtPage(row + PAGE) && AtPage(row + 2 * PAGE) && AtPage(row + 3 * PAGE)
  {
    var q, rows := row / 128, length / 128;
    assert row == 128 * q && length == 128 * rows && q < rows;
    hide AtPage;
    PageMultiple(4 * q);
    PageMultiple(4 * q + 1);
    PageMultiple(4 * q + 2);
    PageMultiple(4 * q + 3);
  }

  lemma PageIsErased(c: Image, row: nat, data: seq<bv16>)
    requires Has(c, row, ROW) && |data| + PAGE <= ROW
    ensures IsErased(Copied(RowErased(c, row), row, data), row + |data|, PAGE)
  {
    RestIsErased(c, row, data);
  }

  class Flash {
    const cells: array<bv16>
    const buffer: array<bv16>
    ghost var programmed: seq<nat>

    ghost predicate Valid()
      reads this
    {
      AtRow(cells.Length) && buffer.Length == PAGE && cells != buffer && |programmed| == cells.Length
    }

    /** The page buffer holds no data. */
    ghost predicate Idle()
      reads this, buffer
    {
      Valid() && forall k :: 0 <= k < PAGE ==> buffer[k] == ERASED
    }

    ghost function State(): (c: Image)
      reads this, cells
      ensures |c.cells| == cells.Length && c.programmed == programmed
    {
      Image(cells[..], programmed)
    }

    constructor (rows: nat)
      ensures Idle() && fresh(cells) && fresh(buffer) && cells.Length == rows * ROW
    {
      cells := new bv16[rows * ROW](_ => ERASED);
      buffer := new bv16[PAGE](_ => ERASED);
      programmed := Copies(0, rows * ROW);
    }

    /** The erase-row command on an address, which counts halfwords. */
    method EraseRow(address: nat)
      requires Valid() && address < cells.Length
      modifies cells, this`programmed
      ensures Valid() && RowOf(address) + ROW <= cells.Length
      ensures State() == RowErased(old(State()), RowOf(address))
    {
      Inside(cells.Length, address);
      var row := RowOf(address);
      ghost var was := State();
      for k := 0 to ROW
        modifies cells
        invariant forall i :: 0 <= i < cells.Length ==>
                    cells[i] == if row <= i < row + k then ERASED else was.cells[i]
      {
        cells[row + k] := ERASED;
      }
      programmed := Overwritten(programmed, row, Copies(0, ROW));
    }

    /** The page-buffer-clear command. */
    method ClearPageBuffer()
      requires Valid()
      modifies buffer
      ensures Idle()
    {
      for k := 0 to PAGE
        invariant forall i :: 0 <= i < k ==> buffer[i] == ERASED
      {
        buffer[k] := ERASED;
      }
    }

    /** A store to a flash address lands in the page buffer. */
    method Load(address: nat, value: bv16)
      requires Valid() && address < cells.Length
      modifies buffer
      ensures buffer[..] == Stored(old(buffer[..]), SlotOf(address), value)
    {
      buffer[SlotOf(address)] := Anded(buffer[SlotOf(address)], value);
    }

    /** The cells of a page take in the page buffer. */
    method AndPage(page: nat)
      requires Valid() && page + PAGE <= cells.Length
      modifies cells
      ensures forall i :: 0 <= i < cells.Length ==>
                cells[i] == if page <= i < page + PAGE then Anded(old(cells[i]), buffer[i - page]) else old(cells[i])
    {
      hide Anded, AtRow;
      for k := 0 to PAGE
        invariant forall i :: 0 <= i < cells.Length ==>
                    cells[i] == if page <= i < page + k then Anded(old(cells[i]), buffer[i - page]) else old(cells[i])
      {
        cells[page + k] := Anded(cells[page + k], buffer[k]);
      }
    }

    /** The write-page command, after which the page buffer is clear. */
    method WritePage(address: nat)
      requires Valid() && address < cells.Length
      modifies cells, buffer, this`programmed
      ensures Idle() && PageOf(address) + PAGE <= cells.Length
      ensures State() == PageWritten(old(State()), PageOf(address), old(buffer[..]))
    {
      hide Anded, AtRow, PageOf;
      Inside(cells.Length, address);
      var page := PageOf(address);
      ghost var text := buffer[..];
      ghost var was := State();
      AndPage(page);
      programmed := PageWritten(was, page, text).programmed;
      assert State() == PageWritten(was, page, text);
      ClearPageBuffer();
    }

    /** A store with automatic page writes: the last halfword of a page writes the page. */
    method Store(address: nat, value: bv16)
      requires Valid() && address < cells.Length
      modifies cells, buffer, this`programmed
      ensures Valid() && PageOf(address) + PAGE <= cells.Length
      ensures var loaded := Stored(old(buffer[..]), SlotOf(address), value);
              if SlotOf(address) == PAGE - 1
              then Idle() && State() == PageWritten(old(State()), PageOf(address), loaded)
              else buffer[..] == loaded && State() == old(State())
    {
      hide PageWritten, Stored;
      Inside(cells.Length, address);
      Load(address, value);
      if SlotOf(address) == PAGE - 1 {
        WritePage(address);
      }
    }

    method StoreNext(page: nat, i: nat, value: bv16, ghost data: seq<bv16>)
      requires Valid() && i < PAGE && Filling(buffer[..], i, data) && value == data[i]
      requires AtPage(page) && page < cells.Length
      modifies cells, buffer, this`programmed
      ensures Valid() && page + PAGE <= cells.Length
      ensures i + 1 < PAGE ==> Filling(buffer[..], i + 1, data) && State() == old(State())
      ensures i + 1 == PAGE ==> Idle() && State() == PageWritten(old(State()), page, data)
    {
      hide Stored, PageWritten, Filling;
      InsidePage(cells.Length, page, i);
      FillingNext(buffer[..], i, data);
      Store(page + i, value);
    }

    /** The inner loop of both loaders: one page, halfword by halfword. */
    method FlashPage(page: nat, source: seq<bv16>, at: nat)
      requires Idle() && AtPage(page) && page < cells.Length && at + PAGE <= |source|
      modifies cells, buffer, this`programmed
      ensures Idle() && page + PAGE <= cells.Length
      ensures State() == PageWritten(old(State()), page, source[at..at + PAGE])
    {
      hide PageWritten;
      ghost var data := source[at..at + PAGE];
      ghost var was := State();
      for i := 0 to PAGE
        modifies cells, buffer, this`programmed
        invariant Valid()
        invariant i < PAGE ==> Filling(buffer[..], i, data) && State() == was
        invariant i == PAGE ==> page + PAGE <= cells.Length && Idle() && State() == PageWritten(was, page, data)
      {
        StoreNext(page, i, source[at + i], data);
      }
    }

    /** Erases a row and writes its four pages. */
    method FlashRow(row: nat, source: seq<bv16>, at: nat)
      requires Idle() && AtRow(row) && row < cells.Length && at + ROW <= |source|
      modifies cells, buffer, this`programmed
      ensures Idle() && row + ROW <= cells.Length
      ensures State() == Copied(old(State()), row, source[at..at + ROW])
    {
      hide Copied, RowErased, PageWritten, IsErased, AtPage, AtRow, RowOf;
      ghost var was := State();
      RowStart(row, cells.Length);
      EraseRow(row);
      ghost var erased := State();
      CopiedNothing(erased, row);
      assert source[at..at] == [];
      for j := 0 to 4
        modifies cells, buffer, this`programmed
        invariant Idle()
        invariant State() == Copied(erased, row, source[at..at + j * PAGE])
      {
        PageIsErased(was, row, source[at..at + j * PAGE]);
        WritesOverErased(State(), row + j * PAGE, source[at + j * PAGE..at + (j + 1) * PAGE]);
        FlashPage(row + j * PAGE, source, at + j * PAGE);
        CopiedTwice(erased, row, source[at..at + j * PAGE], source[at + j * PAGE..at + (j + 1) * PAGE]);
        assert source[at..at + j * PAGE] + source[at + j * PAGE..at + (j + 1) * PAGE]
            == source[at..at + (j + 1) * PAGE];
      }
      FilledRow(was, row, source[at..at + ROW]);
    }
  }
}
