/** What the settings store keeps in flash (settings/store.h): page headers,
    records, and how a page is read back at start-up. */
module StoreFormat {
  import opened MachineWords
  import opened Crc16

  const PAGE_WORDS: nat := 1024
  const ERASED: u16 := 0xFFFF
  const MAGIC: u16 := 0x5354
  const FORMAT: u16 := 1
  const HEADER_WORDS: nat := 4
  const RECORD_MARK: u16 := 0xA500
  const RECORD_MAX_BYTES: nat := 128
  const TYPES: nat := 5

  /** The data words of one erase page. */
  type Page = p: seq<u16> | |p| == 1024 witness seq(1024, i => 0xFFFF)

  /** The two pages of the store. */
  type Image = s: seq<Page> | |s| == 2 witness [ERASED_PAGE, ERASED_PAGE]

  const ERASED_PAGE: Page := seq(1024, i => 0xFFFF)

  function CrcWord(crc: u16, word: u16): u16 {
    CrcByte(CrcByte(crc, word % 256), word / 256)
  }

  function CrcWords(crc: u16, words: seq<u16>): u16
    decreases |words|
  {
    if |words| == 0 then crc else CrcWord(CrcWords(crc, words[..|words| - 1]), words[|words| - 1])
  }

  ghost predicate Blank(p: Page, from: nat) {
    forall i {:trigger p[i]} :: from <= i < PAGE_WORDS ==> p[i] == ERASED
  }

  // ---- Page headers -------------------------------------------------------

  function Header(generation: u16): (h: seq<u16>)
    ensures |h| == HEADER_WORDS
  {
    var h := [MAGIC, FORMAT, generation];
    h + [CrcWords(CRC_INIT, h)]
  }

  predicate HeaderValid(p: Page) {
    p[0] == MAGIC && p[1] == FORMAT && p[3] == CrcWords(CRC_INIT, p[..3])
  }

  /** The page in use, its generation ahead by an int16_t difference. */
  function Chosen(image: Image): (c: int)
    ensures -1 <= c < 2
  {
    var valid0, valid1 := HeaderValid(image[0]), HeaderValid(image[1]);
    if !valid0 && !valid1 then -1
    else if valid0 && (!valid1 || (image[0][2] - image[1][2]) % U16 < 0x8000) then 0
    else 1
  }

  /** Half a header is never a header, whatever the generation was to be. */
  lemma HalfHeaderInvalid(p: Page)
    requires p[0] == MAGIC && p[1] == FORMAT && p[2] == ERASED && p[3] == ERASED
    ensures !HeaderValid(p)
  {
    hide CrcByte;
    TornHeaderBytes();
    assert p[..1] == [MAGIC] && p[..2][..1] == p[..1] && p[..3][..2] == p[..2];
    assert p[..1][..0] == [];
    assert CrcWords(CRC_INIT, p[..1]) == CrcWord(CRC_INIT, MAGIC) == 0xB5E2;
    assert CrcWords(CRC_INIT, p[..2]) == CrcWord(0xB5E2, FORMAT) == 0x0FA5;
    assert CrcWords(CRC_INIT, p[..3]) == CrcWord(0x0FA5, ERASED) == 0xE87E;
  }

  // ---- Records ------------------------------------------------------------

  /** The size of a record in words, always even. */
  function RecordWords(length: nat): (n: nat)
    ensures n % 2 == 0 && n >= 4
    ensures length <= RECORD_MAX_BYTES ==> n <= 68
  {
    (3 + (length + 1) / 2 + 1) / 2 * 2
  }

  datatype Parsed = Unreadable | Torn(words: nat) | Intact(words: nat, rtype: u8)

  /** check_record(): what stands at a word of the page. */
  function ParseRecord(p: Page, w: nat): (r: Parsed)
    requires w + 2 <= PAGE_WORDS
    ensures !r.Unreadable? ==> r.words == RecordWords(p[w + 1]) && w + r.words <= PAGE_WORDS
    ensures r.Intact? ==> 0 < r.rtype < 0xFF
  {
    if p[w] / 256 != RECORD_MARK / 256 || p[w] % 256 == 0 || p[w] % 256 == 0xFF ||
       p[w + 1] > RECORD_MAX_BYTES || w + RecordWords(p[w + 1]) > PAGE_WORDS then Unreadable
    else
      var n := RecordWords(p[w + 1]);
      if p[w + n - 1] == CrcWords(CRC_INIT, p[w..w + n - 1]) then Intact(n, p[w] % 256)
      else Torn(n)
  }

  datatype Scanned = Scanned(index: map<nat, nat>, used: nat, unreadable: bool)

  /** scan(): from word w on, where each type's last good record is, where the
      free space starts, and whether something that is no record ends it. */
  function ScanFrom(p: Page, w: nat, index: map<nat, nat>): (s: Scanned)
    requires w <= PAGE_WORDS
    ensures w <= s.used <= PAGE_WORDS && s.used % 2 == w % 2
    decreases PAGE_WORDS - w
  {
    if AtEnd(p, w) then Scanned(index, w, false)
    else
      var r := ParseRecord(p, w);
      if r.Unreadable? then Scanned(index, w, true)
      else ScanFrom(p, w + r.words, Noted(index, r, w))
  }

  predicate AtEnd(p: Page, w: nat) {
    w + 2 > PAGE_WORDS || (p[w] == ERASED && p[w + 1] == ERASED)
  }

  function Noted(index: map<nat, nat>, r: Parsed, w: nat): map<nat, nat> {
    if r.Intact? && r.rtype < TYPES then index[r.rtype as nat := w] else index
  }

  function Scan(p: Page): Scanned {
    ScanFrom(p, HEADER_WORDS, map[])
  }

  function ByteOf(words: seq<u16>, i: nat): u8
    requires i / 2 < |words|
  {
    var word: u16 := words[i / 2];
    if i % 2 == 0 then word % 256 else word / 256
  }

  /** The data of the record at w, as store_read() returns it. */
  function DataAt(p: Page, w: nat): seq<u8> {
    if w + 2 <= PAGE_WORDS && w + RecordWords(p[w + 1]) <= PAGE_WORDS then
      RecordData(p[w..w + RecordWords(p[w + 1])])
    else []
  }

  function RecordData(r: seq<u16>): seq<u8>
    requires |r| >= 4 && |r| == RecordWords(r[1])
  {
    seq(r[1], i requires 0 <= i < r[1] => ByteOf(r[2..], i))
  }

  function Resolve(p: Page, index: map<nat, nat>): map<nat, seq<u8>> {
    map t | t in index :: DataAt(p, index[t])
  }

  function Contents(p: Page): map<nat, seq<u8>> {
    Resolve(p, Scan(p).index)
  }

  /** What store_init() then store_read() give after a restart, type by type. */
  function Stored(image: Image): map<nat, seq<u8>> {
    var c := Chosen(image);
    if c < 0 then map[] else Contents(image[c])
  }

  // ---- Building a record --------------------------------------------------

  function Pack(data: seq<u8>): (w: seq<u16>)
    ensures |w| == (|data| + 1) / 2
  {
    seq((|data| + 1) / 2, i requires 0 <= i < (|data| + 1) / 2 =>
      var low: u16, high: u16 := data[2 * i], if 2 * i + 1 < |data| then data[2 * i + 1] else 0;
      low + high * 256)
  }

  function RecordBody(rtype: nat, data: seq<u8>): (b: seq<u16>)
    requires 0 < rtype < TYPES && |data| <= RECORD_MAX_BYTES
    ensures |b| == RecordWords(|data|) - 1
  {
    var b := [RECORD_MARK + rtype, |data|] + Pack(data);
    if |b| % 2 == 0 then b + [0] else b
  }

  /** build_record(). */
  function Record(rtype: nat, data: seq<u8>): (r: seq<u16>)
    requires 0 < rtype < TYPES && |data| <= RECORD_MAX_BYTES
    ensures |r| == RecordWords(|data|)
  {
    var b := RecordBody(rtype, data);
    b + [CrcWords(CRC_INIT, b)]
  }

  /** The words of an intact record of this type, wherever they stand. */
  predicate IsRecord(r: seq<u16>, rtype: nat) {
    && |r| >= 4 && 0 < rtype < 0xFF
    && r[0] == RECORD_MARK + rtype && r[1] <= RECORD_MAX_BYTES && |r| == RecordWords(r[1])
    && r[|r| - 1] == CrcWords(CRC_INIT, r[..|r| - 1])
  }

  lemma PackedByte(data: seq<u8>, i: nat)
    requires i < |data|
    ensures ByteOf(Pack(data), i) == data[i]
  {
    assert i == 2 * (i / 2) + i % 2;
  }

  /** Reading undoes building: type, length and every byte. */
  lemma RecordRoundTrip(rtype: nat, data: seq<u8>)
    requires 0 < rtype < TYPES && |data| <= RECORD_MAX_BYTES
    ensures IsRecord(Record(rtype, data), rtype)
    ensures RecordData(Record(rtype, data)) == data
  {
    hide CrcWords, Pack, ByteOf;
    var r := Record(rtype, data);
    assert r[..|r| - 1] == RecordBody(rtype, data);
    assert r[0] == RECORD_MARK + rtype && r[1] == |data|;
    forall i | 0 <= i < |data|
      ensures ByteOf(r[2..], i) == data[i]
    {
      PackedByte(data, i);
      SameByte(r[2..], Pack(data), i);
    }
  }

  lemma SameByte(v: seq<u16>, w: seq<u16>, i: nat)
    requires i / 2 < |v| && i / 2 < |w| && v[i / 2] == w[i / 2]
    ensures ByteOf(v, i) == ByteOf(w, i)
  {
  }

  lemma RecordParses(p: Page, w: nat, r: seq<u16>, rtype: nat)
    requires IsRecord(r, rtype) && w + |r| <= PAGE_WORDS && p[w..w + |r|] == r
    ensures ParseRecord(p, w) == Intact(|r|, rtype) && p[w + 1] == r[1]
    ensures DataAt(p, w) == RecordData(r)
  {
    hide CrcWords, RecordData;
    assert p[w] == p[w..w + |r|][0] == r[0];
    assert p[w + 1] == p[w..w + |r|][1] == r[1];
    assert p[w + |r| - 1] == p[w..w + |r|][|r| - 1] == r[|r| - 1];
    assert p[w..w + |r| - 1] == p[w..w + |r|][..|r| - 1] == r[..|r| - 1];
    hide RecordWords;
  }

  lemma ParsedIsRecord(p: Page, w: nat)
    requires w + 2 <= PAGE_WORDS && ParseRecord(p, w).Intact?
    ensures var r := p[w..w + ParseRecord(p, w).words];
      IsRecord(r, ParseRecord(p, w).rtype) && RecordData(r) == DataAt(p, w)
  {
    hide CrcWords;
    var n := ParseRecord(p, w).words;
    assert p[w..w + n][..n - 1] == p[w..w + n - 1];
  }

  // ---- In bytes -------------------------------------------------------------

  function InBytes(word: u16): seq<u8> {
    [word % 256, word / 256]
  }

  /** The bytes of a run of words, low byte first. */
  function WordBytes(words: seq<u16>): (bytes: seq<u8>)
    ensures |bytes| == 2 * |words|
    decreases |words|
  {
    if |words| == 0 then [] else WordBytes(words[..|words| - 1]) + InBytes(words[|words| - 1])
  }

  /** The CRC of words is the CRC of all their bytes. */
  lemma {:induction false} CrcOfBytes(crc: u16, words: seq<u16>)
    ensures CrcWords(crc, words) == CrcBytes(crc, WordBytes(words))
    decreases |words|
  {
    hide CrcByte;
    if |words| > 0 {
      var n := |words| - 1;
      var head, low, high := WordBytes(words[..n]), words[n] % 256, words[n] / 256;
      CrcOfBytes(crc, words[..n]);
      assert (head + [low, high])[..2 * n + 1] == head + [low];
      assert (head + [low])[..2 * n] == head;
    }
  }

  lemma {:induction false} WordByteAt(words: seq<u16>, i: nat)
    requires i < 2 * |words|
    ensures WordBytes(words)[i] == ByteOf(words, i)
    decreases |words|
  {
    var n := |words| - 1;
    if i < 2 * n {
      WordByteAt(words[..n], i);
      SameByte(words[..n], words, i);
    }
  }

  /** A record, byte by byte. */
  function RecordBytes(rtype: nat, data: seq<u8>): (b: seq<u8>)
    requires 0 < rtype < TYPES && |data| <= RECORD_MAX_BYTES
  {
    [rtype, 0xA5, |data|, 0] + data
  }

  /** In flash a record is its type and mark, its length in two bytes, its data, zeros,
      fewer than four and as many as make it double words, and the CRC of all of it. */
  lemma RecordInBytes(rtype: nat, data: seq<u8>)
    requires 0 < rtype < TYPES && |data| <= RECORD_MAX_BYTES
    ensures var bytes := WordBytes(Record(rtype, data));
      var end := |bytes| - 2;
      var body := bytes[..end];
      && |bytes| % 4 == 0 && RecordBytes(rtype, data) <= body && end < |data| + 8
      && (forall i :: 4 + |data| <= i < end ==> bytes[i] == 0)
      && bytes[end..] == InBytes(CrcBytes(0xFFFF, body))
  {
    hide CrcWords, CrcBytes, ByteOf;
    var b, r := RecordBody(rtype, data), Record(rtype, data);
    assert r[..|r| - 1] == b;
    CrcOfBytes(CRC_INIT, b);
    forall i | 0 <= i < 2 * |b|
      ensures WordBytes(b)[i] == if i < 4 + |data| then RecordBytes(rtype, data)[i] else 0
    {
      WordByteAt(b, i);
      BodyByte(rtype, data, i);
    }
    assert RecordBytes(rtype, data) <= WordBytes(b);
    hide RecordBody;
  }

  lemma BodyByte(rtype: nat, data: seq<u8>, i: nat)
    requires 0 < rtype < TYPES && |data| <= RECORD_MAX_BYTES && i < 2 * |RecordBody(rtype, data)|
    ensures ByteOf(RecordBody(rtype, data), i) == if i < 4 + |data| then RecordBytes(rtype, data)[i] else 0
  {
    var b := RecordBody(rtype, data);
    if 4 <= i < 4 + |data| {
      assert b[i / 2] == Pack(data)[i / 2 - 2];
      PackedByte(data, i - 4);
    }
  }

  /** A header is its magic, format and generation, and the CRC of those bytes. */
  lemma HeaderInBytes(generation: u16)
    ensures var bytes := WordBytes(Header(generation));
      && bytes[..6] == [0x54, 0x53, 1, 0] + InBytes(generation)
      && |bytes| == 8 && bytes[6..] == InBytes(CrcBytes(0xFFFF, bytes[..6]))
  {
    hide CrcWords, CrcBytes;
    var h := [MAGIC, FORMAT, generation];
    CrcOfBytes(CRC_INIT, h);
    assert h[..2] == [MAGIC, FORMAT] && h[..2][..1] == [MAGIC] && h[..2][..1][..0] == [];
    assert WordBytes([]) == [] && WordBytes([MAGIC]) == [0x54, 0x53];
    assert WordBytes(h[..2]) == [0x54, 0x53, 1, 0];
    assert WordBytes(h) == [0x54, 0x53, 1, 0, generation % 256, generation / 256];
    assert Header(generation)[..3] == h;
    assert WordBytes(Header(generation))[..6] == WordBytes(h);
  }

  // ---- Scanning -----------------------------------------------------------

  ghost predicate Agree(p: Page, q: Page, from: nat, to: nat) {
    forall i {:trigger p[i]} {:trigger q[i]} :: from <= i < to <= PAGE_WORDS ==> p[i] == q[i]
  }

  lemma ParseAgree(p: Page, q: Page, w: nat, to: nat)
    requires w + 2 <= PAGE_WORDS && to <= PAGE_WORDS && Agree(p, q, w, to)
    requires ParseRecord(p, w).Unreadable? || w + ParseRecord(p, w).words <= to
    requires w + 2 <= to
    ensures ParseRecord(q, w) == ParseRecord(p, w) 
  {
    hide CrcWords;
    var n := RecordWords(p[w + 1]);
    if w + n <= to {
      assert p[w..w + n - 1] == q[w..w + n - 1];
    }
  }

  /** A scan depends on nothing before the word it starts at, and what it has
      passed stays passed: appending cannot change it. */
  lemma {:induction false} ScanAgree(p: Page, q: Page, w: nat, index: map<nat, nat>)
    requires w <= PAGE_WORDS && !ScanFrom(p, w, index).unreadable
    requires Agree(p, q, w, ScanFrom(p, w, index).used)
    ensures var s := ScanFrom(p, w, index);
      ScanFrom(q, w, index) == ScanFrom(q, s.used, s.index)
    decreases PAGE_WORDS - w
  {
    hide ParseRecord, Noted, RecordWords;
    var s := ScanFrom(p, w, index);
    if s.used > w {
      var parsed := ParseRecord(p, w);
      ParseAgree(p, q, w, s.used);
      ScanAgree(p, q, w + parsed.words, Noted(index, parsed, w));
    }
  }

  /** Every entry a scan finds is an intact record of its type, below the free space. */
  lemma {:induction false} ScanEntries(p: Page, w: nat, index: map<nat, nat>, t: nat)
    requires HEADER_WORDS <= w <= PAGE_WORDS && t in ScanFrom(p, w, index).index
    ensures var s := ScanFrom(p, w, index);
      || (t in index && s.index[t] == index[t])
      || (Entry(p, t, s.index[t]) && w <= s.index[t] && s.index[t] + RecordWords(p[s.index[t] + 1]) <= s.used)
    decreases PAGE_WORDS - w
  {
    hide CrcWords, RecordWords;
    if !AtEnd(p, w) && !ParseRecord(p, w).Unreadable? {
      var r := ParseRecord(p, w);
      ScanEntries(p, w + r.words, Noted(index, r, w), t);
    }
  }

  /** An index entry that can be trusted: an intact record of that type stands there. */
  predicate Entry(p: Page, t: nat, w: nat) {
    HEADER_WORDS <= w && w + 2 <= PAGE_WORDS && 0 < t < TYPES &&
    ParseRecord(p, w).Intact? && ParseRecord(p, w).rtype == t
  }

  // ---- Appending, cut short anywhere --------------------------------------

  /** The page once these words have been written over it. */
  function Burn(p: Page, w: nat, words: seq<u16>): Page
    requires w + |words| <= PAGE_WORDS
  {
    p[..w] + words + p[w + |words|..]
  }

  /** A record of which only the first k double words were written. */
  function TornRecord(r: seq<u16>, k: nat): (t: seq<u16>)
    requires 2 * k <= |r|
    ensures |t| == |r|
  {
    r[..2 * k] + seq(|r| - 2 * k, i => ERASED)
  }

  /** The store's only assumption about data: no proper prefix of the record's
      double words, padded by erased flash, passes the CRC by chance. */
  ghost predicate TornDetected(rtype: nat, data: seq<u8>)
    requires 0 < rtype < TYPES && |data| <= RECORD_MAX_BYTES
  {
    var r := Record(rtype, data);
    forall k :: 0 < k < |r| / 2 ==> !IsRecord(TornRecord(r, k), rtype)
  }

  lemma DataUntouched(p: Page, q: Page, u: nat, t: nat)
    requires !Scan(p).unreadable && u == Scan(p).used && Agree(p, q, HEADER_WORDS, u)
    requires t in Scan(p).index
    ensures DataAt(q, Scan(p).index[t]) == DataAt(p, Scan(p).index[t])
  {
    hide CrcWords, ByteOf, RecordWords;
    ScanEntries(p, HEADER_WORDS, map[], t);
    var w := Scan(p).index[t];
    var n := RecordWords(p[w + 1]);
    assert p[w..w + n] == q[w..w + n];
  }

  lemma TornParse(q: Page, u: nat, r: seq<u16>, t: nat, torn: seq<u16>)
    requires IsRecord(r, t) && t < TYPES && u + |r| <= PAGE_WORDS
    requires |torn| == |r| && torn[0] == r[0] && torn[1] == r[1] && q[u..u + |r|] == torn
    ensures !AtEnd(q, u)
    ensures ParseRecord(q, u) == if IsRecord(torn, t) then Intact(|r|, t) else Torn(|r|)
    ensures DataAt(q, u) == RecordData(torn)
  {
    hide CrcWords, ByteOf, RecordWords;
    assert q[u] == torn[0] && q[u + 1] == torn[1] && q[u + |r| - 1] == torn[|r| - 1];
    assert q[u..u + |r| - 1] == torn[..|r| - 1];
  }

  lemma AppendScan(p: Page, q: Page, r: seq<u16>, t: nat, torn: seq<u16>)
    requires !Scan(p).unreadable
    requires IsRecord(r, t) && t < TYPES && Scan(p).used + |r| <= PAGE_WORDS
    requires |torn| == |r| && torn[0] == r[0] && torn[1] == r[1]
    requires Agree(p, q, HEADER_WORDS, Scan(p).used)
    requires q[Scan(p).used..Scan(p).used + |r|] == torn && Blank(q, Scan(p).used + |r|)
    ensures var u := Scan(p).used;
      Scan(q) == Scanned(if IsRecord(torn, t) then Scan(p).index[t := u] else Scan(p).index, u + |r|, false)
  {
    hide CrcWords, ByteOf, RecordWords, ParseRecord;
    ScanAgree(p, q, HEADER_WORDS, map[]);
    TornParse(q, Scan(p).used, r, t, torn);
    assert AtEnd(q, Scan(p).used + |r|);
  }

  /** Exactly what a restart finds after k of a record's double words were
      appended to a journal: the old contents, or the new record, or (only if a
      torn record passes its CRC by chance) the torn one; never anything else,
      and the journal can be appended to again. */
  lemma AppendCut(p: Page, q: Page, r: seq<u16>, t: nat, k: nat)
    requires !Scan(p).unreadable && Blank(p, Scan(p).used)
    requires IsRecord(r, t) && t < TYPES && Scan(p).used + |r| <= PAGE_WORDS && 0 < k <= |r| / 2
    requires q == Burn(p, Scan(p).used, r[..2 * k])
    ensures var u, torn := Scan(p).used, TornRecord(r, k);
      && Scan(q) == Scanned(if IsRecord(torn, t) then Scan(p).index[t := u] else Scan(p).index, u + |r|, false)
      && Blank(q, u + |r|)
      && Contents(q) == if IsRecord(torn, t) then Contents(p)[t := RecordData(torn)] else Contents(p)
  {
    hide CrcWords, ByteOf, RecordWords, ParseRecord, ScanFrom, RecordData;
    var u, torn, ix := Scan(p).used, TornRecord(r, k), Scan(p).index;
    assert q[u..u + |r|] == torn;
    AppendScan(p, q, r, t, torn);
    TornParse(q, u, r, t, torn);
    forall s | s in ix
      ensures DataAt(q, ix[s]) == DataAt(p, ix[s])
    {
      DataUntouched(p, q, u, s);
    }
  }

  /** Writing a header changes nothing but the header. */
  lemma HeaderOnly(p: Page, q: Page)
    requires Agree(p, q, HEADER_WORDS, PAGE_WORDS) && !Scan(p).unreadable
    ensures Scan(q) == Scan(p) && Contents(q) == Contents(p)
  {
    hide CrcWords, ByteOf, RecordWords, ParseRecord;
    ScanAgree(p, q, HEADER_WORDS, map[]);
    var u := Scan(p).used;
    assert ScanFrom(p, u, Scan(p).index) == Scan(p) by {
      ScanAgree(p, p, HEADER_WORDS, map[]);
    }
    assert AtEnd(p, u);
    forall s | s in Scan(p).index
      ensures DataAt(q, Scan(p).index[s]) == DataAt(p, Scan(p).index[s])
    {
      DataUntouched(p, q, u, s);
    }
  }

  /** A whole record appended to a journal. */
  lemma AppendWhole(p: Page, q: Page, r: seq<u16>, t: nat)
    requires !Scan(p).unreadable && Blank(p, Scan(p).used)
    requires IsRecord(r, t) && t < TYPES && Scan(p).used + |r| <= PAGE_WORDS
    requires q == Burn(p, Scan(p).used, r)
    ensures Scan(q) == Scanned(Scan(p).index[t := Scan(p).used], Scan(p).used + |r|, false)
    ensures Blank(q, Scan(p).used + |r|) && q[..HEADER_WORDS] == p[..HEADER_WORDS]
    ensures Contents(q) == Contents(p)[t := RecordData(r)]
  {
    hide CrcWords, ByteOf, ParseRecord, ScanFrom, RecordData, DataAt;
    var k := |r| / 2;
    assert r[..2 * k] == r && TornRecord(r, k) == r;
    AppendCut(p, q, r, t, k);
  }

  /** The choice of page survives anything done to the other one that does not
      give it a good header. */
  lemma ChosenKept(image: Image, image': Image, target: nat)
    requires target < 2 && Chosen(image) != target && image'[1 - target] == image[1 - target]
    requires image'[target][..HEADER_WORDS] == image[target][..HEADER_WORDS] || !HeaderValid(image'[target])
    ensures Chosen(image') == Chosen(image)
  {
    hide CrcWord;
    var p, q := image[target], image'[target];
    if q[..HEADER_WORDS] == p[..HEADER_WORDS] {
      assert forall i :: 0 <= i < HEADER_WORDS ==> q[i] == q[..HEADER_WORDS][i] == p[..HEADER_WORDS][i] == p[i];
      assert q[..3] == p[..3];
      assert HeaderValid(q) == HeaderValid(p);
    }
  }

  /** A page with the next generation takes over, across the wrap too. */
  lemma ChosenNext(image: Image, image': Image, target: nat)
    requires target < 2 && image'[1 - target] == image[1 - target] && HeaderValid(image'[target])
    requires Chosen(image) == -1 ||
      (Chosen(image) == 1 - target && image'[target][2] == (image[1 - target][2] + 1) % U16)
    ensures Chosen(image') == target
  {
    hide CrcWords;
  }

  lemma HeaderWritten(p: Page, q: Page, generation: u16, k: nat)
    requires p[..HEADER_WORDS] == seq(HEADER_WORDS, i => ERASED) && k <= 2
    requires q == Burn(p, 0, Header(generation)[..2 * k])
    ensures HeaderValid(q) <==> k == 2
    ensures k == 2 ==> q[2] == generation
    ensures forall i :: HEADER_WORDS <= i < PAGE_WORDS ==> q[i] == p[i]
  {
    hide CrcWord;
    var h := Header(generation);
    assert forall i :: 0 <= i < HEADER_WORDS ==> p[i] == p[..HEADER_WORDS][i] == ERASED;
    if k == 1 {
      HalfHeaderInvalid(q);
    } else if k == 2 {
      assert h[..2 * k] == h && q[..3] == h[..3] == [MAGIC, FORMAT, generation];
    }
  }

  lemma EmptyPage(p: Page)
    requires Blank(p, 0)
    ensures p[..HEADER_WORDS] == seq(HEADER_WORDS, i => ERASED)
    ensures Scan(p) == Scanned(map[], HEADER_WORDS, false) && Contents(p) == map[]
  {
  }

  /** Entries below the free space do not notice what is written there. */
  lemma EntryKept(p: Page, q: Page, t: nat, w: nat, u: nat)
    requires Entry(p, t, w) && w + RecordWords(p[w + 1]) <= u <= PAGE_WORDS && Agree(p, q, HEADER_WORDS, u)
    ensures Entry(q, t, w) && q[w + 1] == p[w + 1] && DataAt(q, w) == DataAt(p, w)
  {
    hide CrcWords, ByteOf, RecordWords, ParseRecord;
    var n := RecordWords(p[w + 1]);
    ParseAgree(p, q, w, u);
    assert p[w..w + n] == q[w..w + n];
  }
}
