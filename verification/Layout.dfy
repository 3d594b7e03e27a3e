/** Where headers, bitmaps, records, keys and rids lie in a page. */
module Layout {
  import opened Wrappers
  import opened Config
  import opened Bitmap

  const RM_MAX_RECORD_SIZE := 512
  const IX_MAX_COL_LEN := 512

  const OFFSET_PAGE_HDR := 4
  const RM_PAGE_HDR_SIZE := 8
  const RM_FILE_HDR_SIZE := 20
  const IX_PAGE_HDR_SIZE := 24
  const RID_SIZE := 8

  /** The bytes from `start` up to `end`. */
  datatype Region = Region(start: int, end: int)

  predicate InPage(r: Region) { 0 <= r.start <= r.end <= PAGE_SIZE }
  predicate Apart(a: Region, b: Region) { a.end <= b.start || b.end <= a.start }

  // ---------- record pages ----------

  datatype RmFileHdr =
    RmFileHdr(recordSize: int, numPages: int, numRecordsPerPage: int, firstFreePageNo: int, bitmapSize: int)

  function RmHeader(): Region { Region(OFFSET_PAGE_HDR, OFFSET_PAGE_HDR + RM_PAGE_HDR_SIZE) }

  function RmBitmap(h: RmFileHdr): Region { Region(RmHeader().end, RmHeader().end + h.bitmapSize) }

  function RmSlot(h: RmFileHdr, s: int): Region {
    Region(RmBitmap(h).end + s * h.recordSize, RmBitmap(h).end + s * h.recordSize + h.recordSize)
  }

  /** The header of a new table file, or none if the record size is not allowed. In a page laid out by it, page
      header, bitmap and slots do not meet and stay in the page, and the bitmap has a bit for every slot and no byte
      more. The number of records is the greatest for which a file header, a byte, the records, and a bit for each but
      one of them, would fit. */
  method CreateFile(recordSize: int) returns (h: Option<RmFileHdr>)
    ensures h.Some? <==> 1 <= recordSize <= RM_MAX_RECORD_SIZE
    ensures h.Some? ==>
              RecordLayout(h.value) && h.value.recordSize == recordSize && h.value.numPages == 1
                && h.value.firstFreePageNo == -1
    ensures h.Some? ==> var n := h.value.numRecordsPerPage + 1;
                        RM_FILE_HDR_SIZE + (n + BITMAP_WIDTH - 1) / BITMAP_WIDTH + n * recordSize >= PAGE_SIZE
    ensures h.Some? ==> var n := h.value.numRecordsPerPage;
                        && RM_FILE_HDR_SIZE + 1 + n * recordSize + (n + 6) / 8 <= PAGE_SIZE
                        && PAGE_SIZE < RM_FILE_HDR_SIZE + 1 + (n + 1) * recordSize + (n + 7) / 8
                        && 8 * (h.value.bitmapSize - 1) < n <= 8 * h.value.bitmapSize
  {
    if recordSize < 1 || recordSize > RM_MAX_RECORD_SIZE { return None; }
    var n := (BITMAP_WIDTH * (PAGE_SIZE - 1 - RM_FILE_HDR_SIZE) + 1) / (1 + recordSize * BITMAP_WIDTH);
    var hdr := RmFileHdr(recordSize, 1, n, -1, (n + BITMAP_WIDTH - 1) / BITMAP_WIDTH);
    RecordRoom(recordSize, n);
    SlotsInPage(hdr);
    return Some(hdr);
  }

  ghost predicate RecordLayout(h: RmFileHdr) {
    && 1 <= h.numRecordsPerPage <= BITMAP_WIDTH * h.bitmapSize
    && InPage(RmHeader()) && InPage(RmBitmap(h)) && Apart(RmHeader(), RmBitmap(h))
    && (forall s :: 0 <= s < h.numRecordsPerPage ==>
        InPage(RmSlot(h, s)) && Apart(RmSlot(h, s), RmBitmap(h)) && Apart(RmSlot(h, s), RmHeader()))
    && (forall s, t :: 0 <= s < t < h.numRecordsPerPage ==> Apart(RmSlot(h, s), RmSlot(h, t)))
  }

  lemma RecordRoom(rs: int, n: int)
    requires 1 <= rs <= RM_MAX_RECORD_SIZE && n == 32601 / (1 + rs * 8)
    ensures 1 <= n && 12 + (n + 7) / 8 + n * rs <= PAGE_SIZE <= 20 + (n + 8) / 8 + (n + 1) * rs
    ensures 21 + n * rs + (n + 6) / 8 <= PAGE_SIZE < 21 + (n + 1) * rs + (n + 7) / 8
  {
    assert n * (1 + rs * 8) <= 32601 < (n + 1) * (1 + rs * 8);
    assert n * (1 + rs * 8) == n + 8 * (n * rs) && (n + 1) * (1 + rs * 8) == (n + 1) + 8 * ((n + 1) * rs);
    assert n >= 1 by { if n <= 0 { LessTimes(n + 1, 1, 1 + rs * 8); } }
  }

  lemma LessTimes(a: int, b: int, c: int)
    requires a <= b && 0 <= c
    ensures a * c <= b * c
  {
  }

  ghost predicate RecordsFit(h: RmFileHdr) {
    && 1 <= h.recordSize && 1 <= h.numRecordsPerPage <= 8 * h.bitmapSize
    && 12 + h.bitmapSize + h.numRecordsPerPage * h.recordSize <= PAGE_SIZE
  }

  /** The slots follow one another. */
  lemma SlotStep(h: RmFileHdr, s: int, t: int)
    requires 1 <= h.recordSize && s < t
    ensures RmSlot(h, s).start <= RmSlot(h, s).end <= RmSlot(h, t).start
  {
    LessTimes(s + 1, t, h.recordSize);
    assert (s + 1) * h.recordSize == s * h.recordSize + h.recordSize;
  }

  lemma SlotInPage(h: RmFileHdr, s: int)
    requires RecordsFit(h) && 0 <= s < h.numRecordsPerPage
    ensures RmBitmap(h).end <= RmSlot(h, s).start <= RmSlot(h, s).end <= PAGE_SIZE
  {
    LessTimes(s + 1, h.numRecordsPerPage, h.recordSize);
    LessTimes(0, s, h.recordSize);
    assert (s + 1) * h.recordSize == s * h.recordSize + h.recordSize;
  }

  lemma SlotsInPage(h: RmFileHdr)
    requires RecordsFit(h)
    ensures RecordLayout(h)
  {
    assert RmBitmap(h).end <= PAGE_SIZE by { SlotInPage(h, 0); }
    hide RmSlot;
    forall s | 0 <= s < h.numRecordsPerPage
      ensures InPage(RmSlot(h, s)) && Apart(RmSlot(h, s), RmBitmap(h)) && Apart(RmSlot(h, s), RmHeader())
    {
      SlotInPage(h, s);
    }
    forall s, t | 0 <= s < t < h.numRecordsPerPage ensures Apart(RmSlot(h, s), RmSlot(h, t)) {
      SlotStep(h, s, t);
    }
  }

  /** The header of 8 bytes is at byte 4, the bitmap right behind it, the slots right behind that, one behind the
      other. */
  lemma RecordPlaces(h: RmFileHdr, s: int)
    ensures RmHeader() == Region(4, 12) && RmBitmap(h).start == 12 && RmBitmap(h).end == 12 + h.bitmapSize
    ensures RmSlot(h, 0).start == RmBitmap(h).end && RmSlot(h, s + 1).start == RmSlot(h, s).end
    ensures RmSlot(h, s).end - RmSlot(h, s).start == h.recordSize
  {
    assert (s + 1) * h.recordSize == s * h.recordSize + h.recordSize;
  }

  // ---------- index pages ----------

  datatype IxFileHdr = IxFileHdr(colTotLen: int, btreeOrder: int, keysSize: int)

  function IxHeader(): Region { Region(0, IX_PAGE_HDR_SIZE) }

  function IxKey(h: IxFileHdr, i: int): Region {
    Region(IX_PAGE_HDR_SIZE + i * h.colTotLen, IX_PAGE_HDR_SIZE + i * h.colTotLen + h.colTotLen)
  }

  function IxRid(h: IxFileHdr, i: int): Region {
    Region(IX_PAGE_HDR_SIZE + h.keysSize + i * RID_SIZE, IX_PAGE_HDR_SIZE + h.keysSize + i * RID_SIZE + RID_SIZE)
  }

  /** The keys follow the header of 24 bytes, one behind the other; the rids follow the room for all keys. */
  lemma IndexPlaces(h: IxFileHdr, i: int)
    ensures IxHeader() == Region(0, 24) && IxKey(h, 0).start == 24 && IxKey(h, i + 1).start == IxKey(h, i).end
    ensures IxKey(h, i).end - IxKey(h, i).start == h.colTotLen && IxRid(h, i).end - IxRid(h, i).start == 8
    ensures IxRid(h, 0).start == 24 + h.keysSize && IxRid(h, i + 1).start == IxRid(h, i).end
  {
    assert (i + 1) * h.colTotLen == i * h.colTotLen + h.colTotLen;
  }

  function Sum(lens: seq<nat>): nat {
    if lens == [] then 0 else Sum(lens[..|lens|-1]) + lens[|lens|-1]
  }

  /** The header of a new index, or none if the key is too long. A node may hold as many keys as its maximal size
      before it is split, that is one more than the order; all of these lie in the page and do not meet, and no more
      would. */
  method CreateIndex(colLens: seq<nat>) returns (h: Option<IxFileHdr>)
    ensures h.Some? <==> Sum(colLens) <= IX_MAX_COL_LEN
    ensures h.Some? ==> h.value.colTotLen == Sum(colLens) && 2 < h.value.btreeOrder && IndexLayout(h.value)
    ensures h.Some? ==> IX_PAGE_HDR_SIZE + (h.value.btreeOrder + 2) * (Sum(colLens) + RID_SIZE) > PAGE_SIZE
    ensures h.Some? ==> h.value.keysSize == (h.value.btreeOrder + 1) * Sum(colLens)
  {
    var colTotLen, i := 0, 0;
    while i < |colLens|
      invariant 0 <= i <= |colLens| && colTotLen == Sum(colLens[..i])
    {
      assert colLens[..i+1][..i] == colLens[..i];
      colTotLen := colTotLen + colLens[i];
      i := i + 1;
    }
    assert colLens[..i] == colLens;
    if colTotLen > IX_MAX_COL_LEN { return None; }
    var order := (PAGE_SIZE - IX_PAGE_HDR_SIZE) / (colTotLen + RID_SIZE) - 1;
    var hdr := IxFileHdr(colTotLen, order, (order + 1) * colTotLen);
    KeyRoom(colTotLen, order);
    KeysInPage(hdr);
    return Some(hdr);
  }

  ghost predicate IndexLayout(h: IxFileHdr) {
    && (forall i :: 0 <= i <= h.btreeOrder ==>
        InPage(IxKey(h, i)) && InPage(IxRid(h, i)) && Apart(IxKey(h, i), IxHeader()) && Apart(IxRid(h, i), IxHeader()))
    && (forall i, j :: 0 <= i <= h.btreeOrder && 0 <= j <= h.btreeOrder ==> Apart(IxKey(h, i), IxRid(h, j)))
    && (forall i, j :: 0 <= i < j <= h.btreeOrder ==>
        Apart(IxKey(h, i), IxKey(h, j)) && Apart(IxRid(h, i), IxRid(h, j)))
  }

  lemma KeyRoom(len: int, order: int)
    requires 0 <= len <= IX_MAX_COL_LEN && order == 4072 / (len + 8) - 1
    ensures 2 < order && 24 + (order + 1) * len + (order + 1) * 8 <= PAGE_SIZE < 24 + (order + 2) * (len + 8)
  {
    var q := 4072 / (len + 8);
    assert q * (len + 8) <= 4072 < (q + 1) * (len + 8);
    assert q * (len + 8) == q * len + q * 8;
    if q <= 3 { LessTimes(q + 1, 4, len + 8); }
  }

  ghost predicate KeysFit(h: IxFileHdr) {
    && 0 <= h.colTotLen && 0 <= h.btreeOrder && h.keysSize == (h.btreeOrder + 1) * h.colTotLen
    && 24 + h.keysSize + (h.btreeOrder + 1) * 8 <= PAGE_SIZE
  }

  lemma KeyStep(h: IxFileHdr, i: int, j: int)
    requires 0 <= h.colTotLen && i < j
    ensures IxKey(h, i).start <= IxKey(h, i).end <= IxKey(h, j).start
  {
    LessTimes(i + 1, j, h.colTotLen);
    assert (i + 1) * h.colTotLen == i * h.colTotLen + h.colTotLen;
  }

  lemma KeyInPage(h: IxFileHdr, i: int)
    requires KeysFit(h) && 0 <= i <= h.btreeOrder
    ensures IX_PAGE_HDR_SIZE <= IxKey(h, i).start <= IxKey(h, i).end <= IxRid(h, 0).start <= PAGE_SIZE
  {
    LessTimes(i + 1, h.btreeOrder + 1, h.colTotLen);
    LessTimes(0, i, h.colTotLen);
    assert (i + 1) * h.colTotLen == i * h.colTotLen + h.colTotLen;
  }

  lemma RidInPage(h: IxFileHdr, i: int)
    requires KeysFit(h) && 0 <= i <= h.btreeOrder
    ensures IX_PAGE_HDR_SIZE <= IxRid(h, 0).start <= IxRid(h, i).start <= IxRid(h, i).end <= PAGE_SIZE
  {
    LessTimes(0, h.btreeOrder + 1, h.colTotLen);
  }

  lemma KeysInPage(h: IxFileHdr)
    requires KeysFit(h)
    ensures IndexLayout(h)
  {
    hide IxKey, IxRid, KeysFit;
    forall i | 0 <= i <= h.btreeOrder
      ensures InPage(IxKey(h, i)) && InPage(IxRid(h, i)) && Apart(IxKey(h, i), IxHeader())
              && Apart(IxRid(h, i), IxHeader())
    {
      KeyInPage(h, i);
      RidInPage(h, i);
    }
    forall i, j | 0 <= i <= h.btreeOrder && 0 <= j <= h.btreeOrder ensures Apart(IxKey(h, i), IxRid(h, j)) {
      KeyInPage(h, i);
      RidInPage(h, j);
    }
    forall i, j | 0 <= i < j <= h.btreeOrder
      ensures Apart(IxKey(h, i), IxKey(h, j)) && Apart(IxRid(h, i), IxRid(h, j))
    {
      assert 0 <= h.colTotLen by { KeyLength(h); }
      KeyStep(h, i, j);
      RidStep(h, i, j);
    }
  }

  lemma KeyLength(h: IxFileHdr)
    requires KeysFit(h)
    ensures 0 <= h.colTotLen
  {
  }

  lemma RidStep(h: IxFileHdr, i: int, j: int)
    requires i < j
    ensures IxRid(h, i).end <= IxRid(h, j).start
  {
  }
}
