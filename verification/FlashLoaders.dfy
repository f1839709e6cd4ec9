/** The programs that write firmware to flash: the v2 bootloader with the main MCU's sending
    side, the main MCU's own bootloader, and the v1 NVM driver. */
module FlashLoaders {
  import opened Wrappers
  import opened NorFlash

  const ROW_BYTES: nat := 256
  const PAGE_BYTES: nat := 64

  type Bytes = seq<bv8>

  // ---------------------------------------------------------------- bytes and halfwords

  lemma HalfOfRows(q: nat)
    ensures 256 * q / 2 == 128 * q && 256 * q % 2 == 0 && AtRow(128 * q)
  {
    RowMultiple(q);
  }

  /** Whole rows behind the start of a row, in halfwords. */
  lemma RowAddress(start: nat, n: nat)
    requires start % 256 == 0 && n % 256 == 0
    ensures AtRow((start + n) / 2) && AtRow(start / 2) && AtRow(n / 2)
    ensures (start + n) / 2 == start / 2 + n / 2 && n / 2 * 2 == n && start / 2 * 2 == start
  {
    var a, b := start / 256, n / 256;
    assert start == 256 * a && n == 256 * b && start + n == 256 * (a + b);
    hide AtRow;
    HalfOfRows(a);
    HalfOfRows(b);
    HalfOfRows(a + b);
  }

  function Low(w: bv16): bv8 { (w & 0xFF) as bv8 }
  function High(w: bv16): bv8 { (w >> 8) as bv8 }

  lemma WordBytes(lo: bv8, hi: bv8)
    ensures Low(Word(lo, hi)) == lo && High(Word(lo, hi)) == hi
  {
  }

  /** Bytes as the halfwords stored for them, little end first. */
  function Words(b: Bytes): (w: seq<bv16>)
    ensures |w| == |b| / 2
  {
    seq(|b| / 2, i requires 0 <= i < |b| / 2 => Word(b[2 * i], b[2 * i + 1]))
  }

  /** What reading the flash byte by byte gives. */
  function BytesOf(w: seq<bv16>): (b: Bytes)
    ensures |b| == 2 * |w|
  {
    seq(2 * |w|, i requires 0 <= i < 2 * |w| => if i % 2 == 0 then Low(w[i / 2]) else High(w[i / 2]))
  }

  lemma BytesOfWords(b: Bytes)
    requires |b| % 2 == 0
    ensures BytesOf(Words(b)) == b
  {
    hide Word, Low, High;
    forall i | 0 <= i < |b| ensures BytesOf(Words(b))[i] == b[i] {
      WordBytes(b[i / 2 * 2], b[i / 2 * 2 + 1]);
    }
  }

  lemma BytesAppend(a: seq<bv16>, b: seq<bv16>)
    ensures BytesOf(a + b) == BytesOf(a) + BytesOf(b)
  {
    hide Low, High;
  }

  lemma BytesSplit(w: seq<bv16>, n: nat)
    requires n <= |w|
    ensures BytesOf(w[..n]) == BytesOf(w)[..2 * n] && BytesOf(w[n..]) == BytesOf(w)[2 * n..]
  {
    BytesAppend(w[..n], w[n..]);
    assert w[..n] + w[n..] == w;
  }

  /** Read back, a copy of words is a copy of their bytes, and every other byte is as it was. */
  lemma ReadsBack(c: Image, at: nat, b: Bytes)
    requires |b| % 2 == 0 && Has(c, at, |b| / 2)
    ensures BytesOf(Copied(c, at, Words(b)).cells) == Overwritten(BytesOf(c.cells), 2 * at, b)
  {
    hide Words, BytesOf;
    BytesOfWords(b);
    BytesAppend(c.cells[..at] + Words(b), c.cells[at + |b| / 2..]);
    BytesAppend(c.cells[..at], Words(b));
    BytesSplit(c.cells, at);
    BytesSplit(c.cells, at + |b| / 2);
  }

  lemma WordsSlice(b: Bytes, from: nat, to: nat)
    requires from <= to <= |b| && from % 2 == 0 && to % 2 == 0
    ensures Words(b[from..to]) == Words(b)[from / 2..to / 2]
  {
    hide Word;
  }

  lemma WordsAppend(a: Bytes, b: Bytes)
    requires |a| % 2 == 0
    ensures Words(a + b) == Words(a) + Words(b)
  {
    hide Word;
  }
}

module FirmwareV2 {
  import opened Wrappers
  import opened NorFlash
  import opened FlashLoaders

  const APP_START: nat := 0x800
  const PAYLOAD: nat := 512

  predicate AtPayload(n: nat) { n % 512 == 0 }

  lemma RowsWithin(at: nat, offset: nat, size: nat)
    requires AtRow(at) && size % 256 == 0 && offset % 256 == 0 && offset < size
    ensures AtRow(at + offset / 2) && offset + ROW_BYTES <= size && (offset + ROW_BYTES) / 2 == offset / 2 + ROW
    ensures offset / 2 + ROW <= size / 2 && (offset + ROW_BYTES) % 256 == 0
  {
    var q, o, n := at / 128, offset / 256, size / 256;
    assert at == 128 * q && offset == 256 * o && size == 256 * n && o < n;
    assert offset / 2 == 128 * o && size / 2 == 128 * n;
    RowMultiple(q + o);
  }

  lemma CopiedRow(was: Image, at: nat, source: seq<bv16>, length: nat, n: nat)
    requires n + ROW <= length <= |source| && Has(was, at, length)
    ensures var data := source[..length];
            Copied(Copied(was, at, data[..n]), at + n, source[n..n + ROW]) == Copied(was, at, data[..n + ROW])
  {
    CopiedFurther(was, at, source[..length], n, ROW);
    assert source[..length][n..n + ROW] == source[n..n + ROW];
  }

  /** Row by row from a flash address in halfwords. */
  method WriteRows(flash: Flash, at: nat, source: seq<bv16>, size: nat)
    requires flash.Idle() && AtRow(at) && size % 256 == 0 && size <= 2 * |source|
    requires at + size / 2 <= flash.cells.Length
    modifies flash, flash.cells, flash.buffer
    ensures flash.Idle() && flash.State() == Copied(old(flash.State()), at, source[..size / 2])
  {
    hide Copied;
    ghost var was := flash.State();
    CopiedNothing(was, at);
    ghost var data := source[..size / 2];
    assert data[..0] == [];
    var offset := 0;
    while offset < size
      modifies flash, flash.cells, flash.buffer
      invariant 0 <= offset <= size && offset % 256 == 0 && flash.Idle()
      invariant flash.State() == Copied(was, at, data[..offset / 2])
    {
      RowsWithin(at, offset, size);
      flash.FlashRow(at + offset / 2, source, offset / 2);
      CopiedRow(was, at, source, size / 2, offset / 2);
      offset := offset + ROW_BYTES;
    }
    assert data[..size / 2] == data;
  }

  /** The write command of the v2 bootloader's main loop. A size that is no multiple of the row
      size is ignored, and not answered. The payload is what the memory holds from its start on. */
  method ProcessWrite(flash: Flash, size: nat, address: nat, payload: Bytes) returns (answered: bool)
    requires flash.Idle() && |payload| >= PAYLOAD
    requires size % 256 == 0 ==> size <= |payload| && size < 0x1_0000
    requires size % 256 == 0 ==> address % 256 == 0 && APP_START + address + size <= 2 * flash.cells.Length
    modifies flash, flash.cells, flash.buffer
    ensures flash.Idle() && answered == (size % 256 == 0)
    ensures flash.State() == if size % 256 == 0
                             then Copied(old(flash.State()), (APP_START + address) / 2, Words(payload[..size]))
                             else old(flash.State())
  {
    answered := size % 256 == 0;
    if answered {
      RowAddress(APP_START, address);
      RowAddress(0, size);
      WordsSlice(payload, 0, size);
      hide Copied, Words, AtRow;
      WriteRows(flash, (APP_START + address) / 2, Words(payload), size);
    }
  }

  /** The bootloader's 16-bit offset after k rows. */
  function OffsetAt(k: nat): nat {
    k * 256 % 0x1_0000
  }

  /** The row loop ends if and only if the size, a 32-bit number of whole rows, is below 65536:
      from there on the offset wraps before it reaches the size. It then ends after as many
      turns as there are rows. */
  lemma RowLoopEnds(size: nat)
    requires size % 256 == 0
    ensures (exists k: nat :: OffsetAt(k) >= size) <==> size < 0x1_0000
    ensures size < 0x1_0000 ==>
              OffsetAt(size / 256) == size && forall k :: 0 <= k < size / 256 ==> OffsetAt(k) == 256 * k < size
  {
    if size < 0x1_0000 {
      var rows := size / 256;
      assert size == 256 * rows;
      assert OffsetAt(rows) >= size;
    }
  }

  /** A file filled up to whole payloads. */
  function Padded(file: Bytes): (p: Bytes)
    ensures |p| % 512 == 0 && file <= p && |p| < |file| + PAYLOAD
  {
    file + Copies<bv8>(0, (PAYLOAD - |file| % 512) % 512)
  }

  lemma PaddedLength(n: nat, sent: nat)
    requires sent < n && AtPayload(sent)
    ensures var padded := n + (512 - n % 512) % 512;
            sent + PAYLOAD <= padded && (n - sent <= PAYLOAD ==> sent + PAYLOAD == padded)
  {
    var q, c := sent / 512, n / 512;
    assert sent == 512 * q && n == 512 * c + n % 512 && q <= c;
  }

  /** The next payload of a file is the next part of the padded file. */
  lemma NextPayload(file: Bytes, sent: nat, count: nat)
    requires sent < |file| && AtPayload(sent)
    requires count == if |file| - sent > PAYLOAD then PAYLOAD else |file| - sent
    ensures sent + PAYLOAD <= |Padded(file)| && (sent + count == |file| ==> sent + PAYLOAD == |Padded(file)|)
    ensures Padded(file)[sent..sent + PAYLOAD] == file[sent..sent + count] + Copies<bv8>(0, PAYLOAD - count)
  {
    PaddedLength(|file|, sent);
    var image := Padded(file);
    assert forall i :: 0 <= i < |file| ==> image[i] == file[i];
    assert forall i :: |file| <= i < |image| ==> image[i] == 0;
  }

  lemma NextPayloadAligned(sent: nat)
    requires AtPayload(sent)
    ensures AtPayload(sent + PAYLOAD) && sent % 256 == 0
  {
  }

  lemma SentFurther(was: Image, image: Bytes, sent: nat)
    requires AtPayload(sent) && sent + PAYLOAD <= |image| && Has(was, APP_START / 2, |image| / 2)
    ensures Copied(Copied(was, APP_START / 2, Words(image[..sent])), (APP_START + sent) / 2,
            Words(image[sent..sent + PAYLOAD]))
         == Copied(was, APP_START / 2, Words(image[..sent + PAYLOAD]))
  {
    hide Words, Copied;
    WordsAppend(image[..sent], image[sent..sent + PAYLOAD]);
    assert image[..sent] + image[sent..sent + PAYLOAD] == image[..sent + PAYLOAD];
    CopiedTwice(was, APP_START / 2, Words(image[..sent]), Words(image[sent..sent + PAYLOAD]));
  }

  /** The flash after the first write commands of an update. */
  ghost predicate Sent(flash: Flash, was: Image, file: Bytes, sent: nat)
    reads flash, flash.cells, flash.buffer
  {
    && flash.Idle() && |was.programmed| == |was.cells| == flash.cells.Length
    && sent <= |Padded(file)| && APP_START + |Padded(file)| <= 2 * flash.cells.Length
    && flash.State() == Copied(was, APP_START / 2, Words(Padded(file)[..sent]))
  }

  lemma SentNothing(flash: Flash, file: Bytes)
    requires flash.Idle() && APP_START + |Padded(file)| <= 2 * flash.cells.Length
    ensures Sent(flash, flash.State(), file, 0) && AtPayload(0) && (|file| == 0 ==> |Padded(file)| == 0)
  {
    CopiedNothing(flash.State(), APP_START / 2);
    assert Words(Padded(file)[..0]) == [];
  }

  lemma SentAll(flash: Flash, was: Image, file: Bytes)
    requires Sent(flash, was, file, |Padded(file)|)
    ensures flash.Idle() && Has(was, APP_START / 2, |Padded(file)| / 2)
    ensures flash.State() == Copied(was, APP_START / 2, Words(Padded(file)))
    ensures BytesOf(flash.cells[..]) == Overwritten(BytesOf(was.cells), APP_START, Padded(file))
  {
    hide Padded, Copied, Words, BytesOf, Overwritten;
    assert Padded(file)[..|Padded(file)|] == Padded(file);
    ReadsBack(was, APP_START / 2, Padded(file));
  }

  /** Sends one write command. */
  method SendPayload(flash: Flash, file: Bytes, sent: nat, ghost was: Image) returns (count: nat)
    requires sent < |file| && AtPayload(sent) && Sent(flash, was, file, sent)
    modifies flash, flash.cells, flash.buffer
    ensures Sent(flash, was, file, if sent + count < |file| then sent + count else |Padded(file)|)
    ensures 0 < count && sent + count <= |file| && (sent + count < |file| ==> AtPayload(sent + count))
  {
    hide Padded, Copied, Words, AtPayload;
    count := if |file| - sent > PAYLOAD then PAYLOAD else |file| - sent;
    NextPayload(file, sent, count);
    var payload := file[sent..sent + count] + Copies<bv8>(0, PAYLOAD - count);
    SentFurther(was, Padded(file), sent);
    assert payload[..PAYLOAD] == payload;
    NextPayloadAligned(sent);
    var answered := ProcessWrite(flash, PAYLOAD, sent, payload);
  }

  /** The main MCU's update of the auxiliary MCU, each write command processed before the next:
      the flash from the application's start holds the file, zero-padded to whole payloads. */
  method FlashFirmwareUpdate(flash: Flash, file: Bytes)
    requires flash.Idle() && APP_START + |Padded(file)| <= 2 * flash.cells.Length
    modifies flash, flash.cells, flash.buffer
    ensures flash.Idle() && flash.State() == Copied(old(flash.State()), APP_START / 2, Words(Padded(file)))
    ensures BytesOf(flash.cells[..]) == Overwritten(BytesOf(old(flash.cells[..])), APP_START, Padded(file))
  {
    hide Padded, Copied, Words, AtPayload, BytesOf, Overwritten, Sent;
    ghost var was := flash.State();
    SentNothing(flash, file);
    var remaining: nat, sent: nat := |file|, 0;
    while remaining > 0
      invariant remaining == |file| - sent && (remaining > 0 ==> AtPayload(sent))
      invariant Sent(flash, was, file, if remaining > 0 then sent else |Padded(file)|)
    {
      var count := SendPayload(flash, file, sent, was);
      remaining := remaining - count;
      sent := sent + count;
    }
    SentAll(flash, was, file);
  }
}

module FirmwareMain {
  import opened Wrappers
  import opened NorFlash
  import opened FlashLoaders

  const APP_START: nat := 0x2000

  function RoundedUp(size: nat): nat {
    (size + 255) / 256 * 256
  }

  /** The flash after the first bytes, whole rows, of the image. */
  ghost predicate Done(flash: Flash, was: Image, image: Bytes, n: nat)
    reads flash, flash.cells, flash.buffer
  {
    && flash.Idle() && |was.programmed| == |was.cells| == flash.cells.Length
    && n % 256 == 0 && n <= |image| && APP_START + |image| <= 2 * flash.cells.Length
    && flash.State() == Copied(was, APP_START / 2, Words(image[..n]))
  }

  lemma DoneNothing(flash: Flash, image: Bytes)
    requires flash.Idle() && APP_START + |image| <= 2 * flash.cells.Length
    ensures Done(flash, flash.State(), image, 0)
  {
    CopiedNothing(flash.State(), APP_START / 2);
    assert Words(image[..0]) == [];
  }

  /** Erases one row and writes it. */
  method FlashNextRow(flash: Flash, address: nat, buffer: Bytes, ghost was: Image, ghost image: Bytes, ghost n: nat)
    requires Done(flash, was, image, n) && address == APP_START + n && n + ROW_BYTES <= |image|
    requires buffer == image[n..n + ROW_BYTES]
    modifies flash, flash.cells, flash.buffer
    ensures Done(flash, was, image, n + ROW_BYTES)
  {
    hide Copied, Words, AtRow;
    RowAddress(APP_START, n);
    flash.FlashRow(address / 2, Words(buffer), 0);
    assert Words(buffer)[0..ROW] == Words(buffer);
    WordsAppend(image[..n], buffer);
    assert image[..n] + buffer == image[..n + ROW_BYTES];
    CopiedTwice(was, APP_START / 2, Words(image[..n]), Words(buffer));
  }

  lemma RowsLeft(n: nat, size: nat)
    requires n % 256 == 0
    ensures n < size ==> n + ROW_BYTES <= RoundedUp(size)
    ensures n >= size && n <= RoundedUp(size) ==> n == RoundedUp(size)
  {
    var q := n / 256;
    assert n == 256 * q;
  }

  lemma SliceOfSlice(s: Bytes, from: nat, to: nat, n: nat, k: nat)
    requires from <= to <= |s| && n + k <= to - from
    ensures s[from..to][n..n + k] == s[from + n..from + n + k]
  {
    var whole, part := s[from..to], s[from..to][n..n + k];
    forall i | 0 <= i < k ensures part[i] == s[from + n + i] {
      assert part[i] == whole[n + i];
    }
  }

  /** The main MCU's own update: whole rows are copied, so up to 255 bytes that follow the file
      in the external flash come with it. */
  method FlashFirmware(flash: Flash, external: Bytes, fileAddress: nat, fileSize: nat)
    requires flash.Idle() && APP_START + RoundedUp(fileSize) <= 2 * flash.cells.Length
    requires fileAddress + RoundedUp(fileSize) <= |external|
    modifies flash, flash.cells, flash.buffer
    ensures flash.Idle()
    ensures flash.State() == Copied(old(flash.State()), APP_START / 2,
            Words(external[fileAddress..fileAddress + RoundedUp(fileSize)]))
  {
    hide Copied, Words, RoundedUp;
    ghost var was := flash.State();
    ghost var image := external[fileAddress..fileAddress + RoundedUp(fileSize)];
    DoneNothing(flash, image);
    var current, file := APP_START, fileAddress;
    ghost var n: nat := 0;
    while current < APP_START + fileSize
      invariant current == APP_START + n && file == fileAddress + n && Done(flash, was, image, n)
    {
      RowsLeft(n, fileSize);
      var buffer := external[file..file + ROW_BYTES];
      SliceOfSlice(external, fileAddress, fileAddress + RoundedUp(fileSize), n, ROW_BYTES);
      FlashNextRow(flash, current, buffer, was, image, n);
      file := file + ROW_BYTES;
      current := current + ROW_BYTES;
      n := n + ROW_BYTES;
    }
    RowsLeft(n, fileSize);
    assert image[..|image|] == image;
  }
}

module NvmV1 {
  import opened Wrappers
  import opened NorFlash
  import opened FlashLoaders

  datatype Error = NoError | BadAddress | BadLength

  function Check(dst: nat, length: nat): Error {
    if length % 256 != 0 then BadLength else if dst % 256 != 0 then BadAddress else NoError
  }

  /** The driver refuses exactly what is not whole rows; a bad length goes before a bad address. */
  lemma CheckIff(dst: nat, length: nat)
    ensures Check(dst, length) == NoError <==> (exists a, b :: dst == 256 * a && length == 256 * b)
    ensures Check(dst, length) == BadAddress <==> (exists b :: length == 256 * b) && dst % 256 != 0
  {
    if length % 256 == 0 {
      assert length == 256 * (length / 256);
      if dst % 256 == 0 {
        assert dst == 256 * (dst / 256) && length == 256 * (length / 256);
      }
    }
  }

  lemma StartFilling(buffer: seq<bv16>, data: seq<bv16>)
    requires |buffer| == |data| == PAGE && forall k :: 0 <= k < PAGE ==> buffer[k] == ERASED
    ensures Filling(buffer, 0, data)
  {
  }

  lemma FilledUp(buffer: seq<bv16>, data: seq<bv16>)
    requires Filling(buffer, PAGE, data)
    ensures buffer == data
  {
  }

  /** One page by explicit commands: clear the page buffer, store 16 words, write the page. */
  method WritePageWords(flash: Flash, page: nat, source: seq<bv16>, at: nat)
    requires flash.Valid() && AtPage(page) && page < flash.cells.Length && at + PAGE <= |source|
    modifies flash, flash.cells, flash.buffer
    ensures flash.Idle() && page + PAGE <= flash.cells.Length
    ensures flash.State() == PageWritten(old(flash.State()), page, source[at..at + PAGE])
  {
    hide PageWritten, Stored, Filling;
    ghost var data := source[at..at + PAGE];
    flash.ClearPageBuffer();
    StartFilling(flash.buffer[..], data);
    for j := 0 to PAGE / 2
      modifies flash.buffer
      invariant Filling(flash.buffer[..], 2 * j, data)
    {
      InsidePage(flash.cells.Length, page, 2 * j);
      InsidePage(flash.cells.Length, page, 2 * j + 1);
      FillingNext(flash.buffer[..], 2 * j, data);
      flash.Load(page + 2 * j, source[at + 2 * j]);
      FillingNext(flash.buffer[..], 2 * j + 1, data);
      flash.Load(page + 2 * j + 1, source[at + 2 * j + 1]);
    }
    InsidePage(flash.cells.Length, page, PAGE - 1);
    FilledUp(flash.buffer[..], data);
    flash.WritePage(page + PAGE - 1);
  }

  /** What nvm_write_buffer() leaves in flash. */
  function Written(c: Image, dst: nat, source: Bytes, length: nat): (r: Image)
    requires Check(dst, length) == NoError ==> length <= |source| && Has(c, dst / 2, length / 2)
    ensures |r.cells| == |c.cells| && |r.programmed| == |c.programmed|
  {
    if Check(dst, length) == NoError then Copied(c, dst / 2, Words(source[..length])) else c
  }

  /** After n halfwords: r of them fill whole rows, and the row begun is erased behind its pages. */
  ghost predicate Filled(c: Image, was: Image, at: nat, data: seq<bv16>, r: nat, n: nat) {
    && r <= n < r + ROW && n <= |data| && Has(was, at, |data|) && (n > r ==> Has(was, at + r, ROW))
    && var rows := Copied(was, at, data[..r]);
       c == if n == r then rows else Copied(RowErased(rows, at + r), at + r, data[r..n])
  }

  /** The loop of nvm_write_buffer() after n halfwords. */
  ghost predicate Progress(flash: Flash, was: Image, dst: nat, source: seq<bv16>, r: nat, n: nat)
    reads flash, flash.cells, flash.buffer
  {
    && flash.Valid() && AtRow(dst) && AtRow(|source|) && AtRow(r) && AtPage(dst + n)
    && dst + |source| <= flash.cells.Length && Filled(flash.State(), was, dst, source, r, n)
  }

  lemma FilledBounds(c: Image, was: Image, at: nat, data: seq<bv16>, r: nat, n: nat)
    requires Filled(c, was, at, data, r, n)
    ensures r <= n < r + ROW
  {
  }

  /** The page within the row. */
  lemma PagesIn(a: nat, b: nat, c: nat, e: nat, n: nat) returns (k: nat)
    requires 128 * a + n == 32 * e && 128 * b <= n < 128 * b + 128 && n < 128 * c
    ensures n == 128 * b + 32 * k && k < 4 && b + 1 <= c
  {
    k := e - 4 * a - 4 * b;
  }

  lemma BetweenRows(q: nat, k: nat)
    requires 0 < k < 4
    ensures !AtRow(128 * q + 32 * k)
  {
    assert (128 * q + 32 * k) / 128 == q;
  }

  /** A row is begun exactly when the pages so far fill whole rows. */
  lemma PageWithin(dst: nat, r: nat, n: nat, length: nat)
    requires AtRow(dst) && AtRow(r) && AtRow(length) && AtPage(dst + n)
    requires r <= n < r + ROW && n < length
    ensures r + ROW <= length && n + PAGE <= r + ROW
    ensures AtRow(dst + n) <==> n == r
    ensures n == r ==> RowOf(dst + n) == dst + n
    ensures var r' := if n + PAGE == r + ROW then r + ROW else r;
            AtRow(r') && r' <= n + PAGE < r' + ROW && AtPage(dst + n + PAGE)
  {
    var a, b, c, e := dst / 128, r / 128, length / 128, (dst + n) / 32;
    assert dst == 128 * a && r == 128 * b && length == 128 * c && dst + n == 32 * e;
    hide AtRow, AtPage, RowOf;
    var k := PagesIn(a, b, c, e, n);
    RowMultiple(a + b);
    RowMultiple(b);
    RowMultiple(b + 1);
    PageMultiple(e + 1);
    if k > 0 {
      assert dst + n == 128 * (a + b) + 32 * k;
      BetweenRows(a + b, k);
    }
  }

  lemma PageStep(before: Image, begun: Image, after: Image, was: Image, at: nat, data: seq<bv16>, r: nat, n: nat)
    requires n + PAGE <= r + ROW <= |data| && Filled(before, was, at, data, r, n)
    requires Has(before, at + r, ROW)
    requires begun == if n == r then RowErased(before, at + n) else before
    requires after == PageWritten(begun, at + n, data[n..n + PAGE])
    ensures Filled(after, was, at, data, if n + PAGE == r + ROW then r + ROW else r, n + PAGE)
  {
    hide Copied, RowErased, PageWritten, IsErased;
    var rows := Copied(was, at, data[..r]);
    var erased := RowErased(rows, at + r);
    if n == r {
      CopiedNothing(erased, at + r);
      assert data[r..n] == [];
    }
    assert |data[r..n]| + PAGE <= ROW;
    PageIsErased(rows, at + r, data[r..n]);
    WritesOverErased(begun, at + n, data[n..n + PAGE]);
    CopiedTwice(erased, at + r, data[r..n], data[n..n + PAGE]);
    assert data[r..n] + data[n..n + PAGE] == data[r..n + PAGE];
    if n + PAGE == r + ROW {
      FilledRow(rows, at + r, data[r..n + PAGE]);
      CopiedFurther(was, at, data, r, ROW);
    }
  }

  /** One page, its row erased first where one begins. */
  method WriteNextPage(flash: Flash, ghost was: Image, ghost dst: nat, source: seq<bv16>, ghost r: nat, n: nat, at: nat)
    returns (ghost next: nat)
    requires at == dst + n && n < |source| && Progress(flash, was, dst, source, r, n)
    modifies flash, flash.cells, flash.buffer
    ensures n + PAGE <= |source| && Progress(flash, was, dst, source, next, n + PAGE)
  {
    FilledBounds(flash.State(), was, dst, source, r, n);
    PageWithin(dst, r, n, |source|);
    hide Filled, AtRow, AtPage, RowOf;
    ghost var before := flash.State();
    if AtRow(at) {
      flash.EraseRow(at);
    }
    ghost var begun := flash.State();
    WritePageWords(flash, at, source, n);
    PageStep(before, begun, flash.State(), was, dst, source, r, n);
    next := if n + PAGE == r + ROW then r + ROW else r;
  }

  lemma AtRowAtPage(dst: nat)
    requires AtRow(dst)
    ensures AtPage(dst) && AtRow(0)
  {
    var q := dst / 128;
    assert dst == 32 * (4 * q);
    PageMultiple(4 * q);
  }

  lemma FilledStart(was: Image, at: nat, data: seq<bv16>)
    requires Has(was, at, |data|)
    ensures Filled(was, was, at, data, 0, 0)
  {
    CopiedNothing(was, at);
    assert data[..0] == [];
  }

  lemma ProgressStart(flash: Flash, dst: nat, source: seq<bv16>)
    requires flash.Valid() && AtRow(dst) && AtRow(|source|) && dst + |source| <= flash.cells.Length
    ensures Progress(flash, flash.State(), dst, source, 0, 0)
  {
    FilledStart(flash.State(), dst, source);
    AtRowAtPage(dst);
    hide Filled, AtRow, AtPage;
  }

  lemma FilledEnd(c: Image, was: Image, at: nat, data: seq<bv16>, r: nat)
    requires AtRow(|data|) && AtRow(r) && Filled(c, was, at, data, r, |data|)
    ensures c == Copied(was, at, data)
  {
    assert r == |data|;
    assert data[..|data|] == data;
  }

  lemma ProgressEnd(flash: Flash, was: Image, dst: nat, source: seq<bv16>, r: nat)
    requires Progress(flash, was, dst, source, r, |source|)
    ensures flash.Valid() && Has(was, dst, |source|) && flash.State() == Copied(was, dst, source)
  {
    FilledEnd(flash.State(), was, dst, source, r);
  }

  /** The driver's offset is a 16-bit number. */
  function Offset(n: nat): nat {
    n % 0x1_0000
  }

  lemma NextOffset(n: nat, count: nat)
    requires n + PAGE <= count && 2 * count < 0x1_0000
    ensures Offset(2 * n + PAGE_BYTES) == 2 * (n + PAGE)
  {
  }

  /** The offset after k pages. */
  function OffsetAt(k: nat): nat {
    Offset(64 * k)
  }

  /** The page loop ends if and only if the length, a 32-bit number of whole rows, is below 65536,
      as the size of every write command is. */
  lemma PageLoopEnds(length: nat)
    requires length % 256 == 0
    ensures (exists k: nat :: OffsetAt(k) >= length) <==> length < 0x1_0000
    ensures length < 0x1_0000 ==>
              OffsetAt(length / 64) == length && forall k :: 0 <= k < length / 64 ==> OffsetAt(k) == 64 * k < length
  {
    if length < 0x1_0000 {
      var pages := length / 64;
      assert length == 256 * (length / 256);
      assert length == 64 * pages;
      assert OffsetAt(pages) >= length;
    }
  }

  method WritePages(flash: Flash, dst: nat, source: seq<bv16>, length: nat)
    requires flash.Valid() && AtRow(dst) && AtRow(|source|) && length == 2 * |source| < 0x1_0000
    requires dst + |source| <= flash.cells.Length
    modifies flash, flash.cells, flash.buffer
    ensures flash.Valid() && flash.State() == Copied(old(flash.State()), dst, source)
  {
    ghost var was := flash.State();
    ProgressStart(flash, dst, source);
    hide *;
    var i: nat, at: nat, n: nat := 0, dst, 0;
    ghost var r: nat := 0;
    while i < length
      invariant i == 2 * n && n <= |source| && at == dst + n
      invariant Progress(flash, was, dst, source, r, n)
    {
      r := WriteNextPage(flash, was, dst, source, r, n, at);
      NextOffset(n, |source|);
      i, at, n := Offset(i + PAGE_BYTES), at + PAGE, n + PAGE;
    }
    ProgressEnd(flash, was, dst, source, r);
  }

  /** nvm_write_buffer() of the first bytes of a buffer, which only a write performed reads. */
  method WriteBuffer(flash: Flash, dst: nat, src: Bytes, length: nat) returns (error: Error)
    requires flash.Valid()
    requires Check(dst, length) == NoError ==>
               length <= |src| && dst + length <= 2 * flash.cells.Length && length < 0x1_0000
    modifies flash, flash.cells, flash.buffer
    ensures flash.Valid() && error == Check(dst, length)
    ensures flash.State() == Written(old(flash.State()), dst, src, length)
  {
    error := NoError;
    if length % 256 != 0 {
      error := BadLength;
    } else if dst % 256 != 0 {
      error := BadAddress;
    } else {
      RowAddress(dst, length);
      hide Words, AtRow;
      WritePages(flash, dst / 2, Words(src[..length]), length);
    }
  }
}
