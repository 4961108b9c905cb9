/** What the settings store knows of its flash: the tables it keeps in RAM, and
    what every image a power cut can leave means to the next start-up. */
module StoreTables {
  import opened MachineWords
  import opened Crc16
  import opened StoreFormat

  // ---- The tables -----------------------------------------------------------

  /** record_word[] as a map: the types that have a record, and where. */
  ghost function Table(words: seq<nat>): map<nat, nat> {
    map t | 0 < t < |words| && words[t] != 0 :: words[t]
  }

  /** The records the tables lead to. */
  ghost function HeldIn(p: Page, words: seq<nat>): map<nat, seq<u8>> {
    Resolve(p, Table(words))
  }

  /** Every entry is an intact record of its type and length below the free space. */
  ghost predicate TablesOk(p: Page, words: seq<nat>, lengths: seq<nat>, used: nat) {
    && |words| == |lengths| == TYPES && words[0] == 0
    && forall t :: 0 < t < TYPES && words[t] != 0 ==>
         Entry(p, t, words[t]) && lengths[t] == p[words[t] + 1] && words[t] + RecordWords(lengths[t]) <= used
  }

  lemma TableSet(words: seq<nat>, t: nat, word: nat)
    requires 0 < t < |words| && word != 0
    ensures Table(words[t := word]) == Table(words)[t := word]
  {
  }

  /** The tables a scan leaves are sound. */
  lemma ScannedTables(p: Page, words: seq<nat>, lengths: seq<nat>)
    requires |words| == |lengths| == TYPES && words[0] == 0 && Table(words) == Scan(p).index
    requires forall t :: 0 < t < TYPES && words[t] != 0 ==> words[t] + 2 <= PAGE_WORDS && lengths[t] == p[words[t] + 1]
    ensures TablesOk(p, words, lengths, Scan(p).used)
  {
    hide CrcWords, ScanFrom, ParseRecord, RecordWords;
    forall t | 0 < t < TYPES && words[t] != 0
      ensures Entry(p, t, words[t]) && words[t] + RecordWords(p[words[t] + 1]) <= Scan(p).used
    {
      assert t in Table(words);
      ScanEntries(p, HEADER_WORDS, map[], t);
    }
  }

  lemma HeldAt(p: Page, words: seq<nat>, lengths: seq<nat>, used: nat, t: nat)
    requires TablesOk(p, words, lengths, used) && 0 < t < TYPES
    ensures t in HeldIn(p, words) <==> words[t] != 0
    ensures words[t] != 0 ==>
      && words[t] + RecordWords(lengths[t]) <= PAGE_WORDS
      && HeldIn(p, words)[t] == DataAt(p, words[t]) == RecordData(p[words[t]..words[t] + RecordWords(lengths[t])])
      && |HeldIn(p, words)[t]| == lengths[t]
  {
    hide CrcWords, ByteOf, ParseRecord, RecordWords, RecordData;
    if words[t] != 0 {
      DataLength(p, t, words[t]);
      assert t in Table(words);
    }
  }

  /** A page written from the records of another, and one more, has their
      tables: the lengths of the rest carry over. */
  lemma CarriedTables(p: Page, words: seq<nat>, lengths: seq<nat>, used: nat, q: Page, words': seq<nat>, rtype: nat, data: seq<u8>)
    requires TablesOk(p, words, lengths, used) && 0 < rtype < TYPES
    requires |words'| == TYPES && words'[0] == 0 && Scan(q).index == Table(words')
    requires Contents(q) == HeldIn(p, words)[rtype := data]
    ensures TablesOk(q, words', lengths[rtype := |data|], Scan(q).used)
  {
    hide CrcWords, ScanFrom, ParseRecord, ByteOf, RecordWords, RecordData;
    forall t | 0 < t < TYPES && words'[t] != 0
      ensures words'[t] + 2 <= PAGE_WORDS && lengths[rtype := |data|][t] == q[words'[t] + 1]
    {
      assert t in Table(words');
      ScanEntries(q, HEADER_WORDS, map[], t);
      DataLength(q, t, words'[t]);
      assert Contents(q)[t] == DataAt(q, words'[t]);
      HeldAt(p, words, lengths, used, t);
    }
    ScannedTables(q, words', lengths[rtype := |data|]);
  }

  lemma DataLength(p: Page, t: nat, w: nat)
    requires Entry(p, t, w)
    ensures |DataAt(p, w)| == p[w + 1]
  {
    hide CrcWords, ByteOf;
  }

  /** Writing into free space disturbs no entry. */
  lemma TablesKept(p: Page, q: Page, words: seq<nat>, lengths: seq<nat>, used: nat)
    requires used <= PAGE_WORDS && TablesOk(p, words, lengths, used) && Agree(p, q, HEADER_WORDS, used)
    ensures TablesOk(q, words, lengths, used) && HeldIn(q, words) == HeldIn(p, words)
  {
    hide CrcWords, ByteOf, ParseRecord, RecordWords, DataAt;
    forall t | 0 < t < TYPES && words[t] != 0
      ensures Entry(q, t, words[t]) && q[words[t] + 1] == p[words[t] + 1] && DataAt(q, words[t]) == DataAt(p, words[t])
    {
      EntryKept(p, q, t, words[t], used);
    }
  }

  /** A record written there can be added to them. */
  lemma TablesExtended(p: Page, words: seq<nat>, lengths: seq<nat>, used: nat, rtype: nat, data: seq<u8>)
    requires TablesOk(p, words, lengths, used) && used >= HEADER_WORDS
    requires 0 < rtype < TYPES && |data| <= RECORD_MAX_BYTES && used + |Record(rtype, data)| <= PAGE_WORDS
    requires p[used..used + |Record(rtype, data)|] == Record(rtype, data)
    ensures TablesOk(p, words[rtype := used], lengths[rtype := |data|], used + |Record(rtype, data)|)
    ensures HeldIn(p, words[rtype := used]) == HeldIn(p, words)[rtype := data]
  {
    hide CrcWords, ByteOf, ParseRecord, DataAt, RecordData, Record, RecordWords;
    TableSet(words, rtype, used);
    ExtendedEntry(p, used, rtype, data);
  }

  lemma ExtendedEntry(p: Page, used: nat, rtype: nat, data: seq<u8>)
    requires used >= HEADER_WORDS
    requires 0 < rtype < TYPES && |data| <= RECORD_MAX_BYTES && used + |Record(rtype, data)| <= PAGE_WORDS
    requires p[used..used + |Record(rtype, data)|] == Record(rtype, data)
    ensures Entry(p, rtype, used) && p[used + 1] == |data| && |Record(rtype, data)| == RecordWords(|data|)
    ensures DataAt(p, used) == data
  {
    hide CrcWords, ByteOf, ParseRecord, DataAt, RecordData;
    RecordRoundTrip(rtype, data);
    RecordParses(p, used, Record(rtype, data), rtype);
  }

  // ---- Images ---------------------------------------------------------------

  /** From here on nothing has been written or programmed. */
  ghost predicate Untouched(image: Image, programmed: set<(nat, nat)>, page: nat, from: nat)
    requires page < 2
  {
    Blank(image[page], from) && forall x :: x in programmed && x.0 == page ==> x.1 < from
  }

  /** Free space that reads erased really is: nothing there was programmed to
      all ones. Only a page some other writer left could be otherwise. */
  ghost predicate Legible(p: Page, programmed: set<(nat, nat)>, page: nat, from: nat) {
    forall x :: x in programmed && x.0 == page && from <= x.1 ==>
      x.1 % 2 == 0 && x.1 + 2 <= PAGE_WORDS && (p[x.1] != ERASED || p[x.1 + 1] != ERASED)
  }

  /** The page in use is a journal that can be appended to: true of an empty
      store, and kept by every operation, whatever fails. */
  ghost predicate Clean(image: Image, programmed: set<(nat, nat)>) {
    var c := Chosen(image);
    c >= 0 ==> !Scan(image[c]).unreadable && Untouched(image, programmed, c, Scan(image[c]).used)
  }

  /** Nothing has happened to the page a restart chooses. */
  ghost predicate Undisturbed(image: Image, programmed: set<(nat, nat)>, image': Image, programmed': set<(nat, nat)>) {
    var c := Chosen(image);
    Chosen(image') == c && (c >= 0 ==> image'[c] == image[c] && forall x :: x in programmed' && x.0 == c ==> x in programmed)
  }

  lemma UndisturbedKeeps(image: Image, programmed: set<(nat, nat)>, image': Image, programmed': set<(nat, nat)>)
    requires Undisturbed(image, programmed, image', programmed')
    ensures Stored(image') == Stored(image)
    ensures Clean(image, programmed) ==> Clean(image', programmed')
    ensures forall c, from :: c == Chosen(image) >= 0 && Legible(image[c], programmed, c, from) ==>
              Legible(image'[c], programmed', c, from)
  {
    hide CrcWords, ScanFrom, Resolve;
  }

  lemma ChosenAfter(image: Image, image': Image, c: nat)
    requires Chosen(image) == c && image'[1 - c] == image[1 - c]
    requires image'[c][..HEADER_WORDS] == image[c][..HEADER_WORDS]
    ensures Chosen(image') == c && image'[c][2] == image[c][2]
  {
    hide CrcWord;
    var p, q := image[c], image'[c];
    assert forall i :: 0 <= i < HEADER_WORDS ==> q[i] == q[..HEADER_WORDS][i] == p[..HEADER_WORDS][i] == p[i];
    assert q[..3] == p[..3];
    assert HeaderValid(q) == HeaderValid(p);
  }

  /** What an append that landed k of the record's double words leaves to be
      found: the old records, or all of them and the new one. */
  lemma Appended(image: Image, programmed: set<(nat, nat)>, image': Image, programmed': set<(nat, nat)>,
                 rtype: nat, data: seq<u8>, k: nat)
    requires Clean(image, programmed) && Chosen(image) >= 0
    requires 0 < rtype < TYPES && |data| <= RECORD_MAX_BYTES && TornDetected(rtype, data)
    requires 2 * k <= |Record(rtype, data)| && Scan(image[Chosen(image)]).used + |Record(rtype, data)| <= PAGE_WORDS
    requires var c := Chosen(image); var u := Scan(image[c]).used;
      && image' == image[c := Burn(image[c], u, Record(rtype, data)[..2 * k])]
      && forall x :: x in programmed' ==> x in programmed || (x.0 == c && u <= x.1 < u + 2 * k)
    ensures var c := Chosen(image); var s, whole := Scan(image[c]), 2 * k == |Record(rtype, data)|;
      && Chosen(image') == c && Clean(image', programmed')
      && Scan(image'[c]).index == (if whole then s.index[rtype := s.used] else s.index)
      && (whole ==> Scan(image'[c]).used == s.used + 2 * k)
      && Stored(image') == (if whole then Stored(image)[rtype := data] else Stored(image))
  {
    hide CrcWords, ScanFrom, ParseRecord, RecordData, RecordWords, DataAt, HeaderValid, Resolve, Record, IsRecord;
    var c, r := Chosen(image), Record(rtype, data);
    var p, q := image[c], image'[c];
    RecordRoundTrip(rtype, data);
    assert q[..HEADER_WORDS] == p[..HEADER_WORDS];
    ChosenAfter(image, image', c);
    if k == 0 {
      assert q == p;
    } else {
      AppendCut(p, q, r, rtype, k);
      if 2 * k == |r| {
        assert TornRecord(r, k) == r;
      }
    }
  }

  /** What the header of a filled page makes a restart find. */
  lemma TakeOver(image: Image, programmed: set<(nat, nat)>, image': Image, programmed': set<(nat, nat)>, target: nat, word: nat)
    requires target < 2 && image'[1 - target] == image[1 - target] && HeaderValid(image'[target])
    requires Chosen(image) == -1 || (Chosen(image) == 1 - target && image'[target][2] == (image[1 - target][2] + 1) % U16)
    requires !Scan(image'[target]).unreadable && Scan(image'[target]).used == word && Untouched(image', programmed', target, word)
    ensures Chosen(image') == target && Clean(image', programmed') && Stored(image') == Contents(image'[target])
  {
    hide CrcWords, ScanFrom, HeaderValid;
    ChosenNext(image, image', target);
  }

  lemma BurnFrame(p: Page, w: nat, words: seq<u16>)
    requires HEADER_WORDS <= w && w + |words| <= PAGE_WORDS
    ensures var q := Burn(p, w, words);
      && q[..HEADER_WORDS] == p[..HEADER_WORDS] && q[..w] == p[..w] && Agree(p, q, HEADER_WORDS, w)
      && q[w..w + |words|] == words && forall i :: w + |words| <= i < PAGE_WORDS ==> q[i] == p[i]
  {
  }

  lemma BurnNone(image: Image, p: nat, word: nat, all: seq<u16>)
    requires p < 2 && word <= PAGE_WORDS
    ensures image == image[p := Burn(image[p], word, all[..0])]
  {
    assert Burn(image[p], word, all[..0]) == image[p];
  }

  lemma BurnTwo(before: Page, word: nat, all: seq<u16>, i: nat)
    requires i + 2 <= |all| && word + |all| <= PAGE_WORDS
    ensures Burn(Burn(before, word, all[..i]), word + i, [all[i], all[i + 1]]) == Burn(before, word, all[..i + 2])
    ensures Burn(before, word, all[..i])[word + i] == before[word + i]
    ensures Burn(before, word, all[..i])[word + i + 1] == before[word + i + 1]
  {
  }

  // ---- Copying to another page -----------------------------------------------

  /** The records of the other types, as copied so far. */
  ghost function Copied(held: map<nat, seq<u8>>, rtype: nat, below: nat): map<nat, seq<u8>> {
    map s | s in held && s < below && s != rtype :: held[s]
  }

  lemma CopiedStep(held: map<nat, seq<u8>>, rtype: nat, other: nat)
    ensures Copied(held, rtype, other + 1) ==
      if other in held && other != rtype then Copied(held, rtype, other)[other := held[other]]
      else Copied(held, rtype, other)
  {
  }

  lemma CopiedAll(p: Page, words: seq<nat>, rtype: nat, data: seq<u8>)
    requires |words| == TYPES
    ensures var held := HeldIn(p, words);
      Copied(held, rtype, 1) == map[] && Copied(held, rtype, TYPES)[rtype := data] == held[rtype := data]
  {
    hide DataAt;
    var held := HeldIn(p, words);
    assert forall t :: t in held ==> t in Table(words);
  }

  // ---- Building a record -----------------------------------------------------

  // Word j of the data once i bytes of it have been put in place.
  ghost function Partial(data: seq<u8>, i: nat, j: nat): u16
    requires i <= |data|
  {
    (if 2 * j < i then Placed(data[2 * j], 0) else 0) + (if 2 * j + 1 < i then Placed(data[2 * j + 1], 1) else 0)
  }

  // A byte in the half of a word its index gives it.
  function Placed(byte: u8, index: nat): (w: u16)
    ensures w <= 255 * 256
  {
    var v: int := byte;
    if index % 2 == 0 then v else v * 256
  }

  lemma PartialNone(data: seq<u8>)
    ensures forall j: nat :: Partial(data, 0, j) == 0
  {
  }

  lemma PartialStep(data: seq<u8>, i: nat)
    requires i < |data| <= RECORD_MAX_BYTES
    ensures Partial(data, i + 1, i / 2) == Partial(data, i, i / 2) + Placed(data[i], i)
    ensures forall j: nat :: j != i / 2 ==> Partial(data, i + 1, j) == Partial(data, i, j)
    ensures i / 2 < RecordWords(|data|) - 3
  {
  }

  lemma BodyDone(rtype: nat, data: seq<u8>, body: seq<u16>)
    requires 0 < rtype < TYPES && |data| <= RECORD_MAX_BYTES
    requires |body| == RecordWords(|data|) - 1 && body[0] == RECORD_MARK + rtype && body[1] == |data|
    requires forall j :: 0 <= j < |body| - 2 ==> body[2 + j] == Partial(data, |data|, j)
    ensures body == RecordBody(rtype, data)
  {
    var spec := RecordBody(rtype, data);
    forall i | 0 <= i < |body|
      ensures body[i] == spec[i]
    {
      if i >= 2 {
        assert body[2 + (i - 2)] == Partial(data, |data|, i - 2);
        assert i - 2 < |Pack(data)| ==> spec[i] == Pack(data)[i - 2];
      }
    }
  }
}
