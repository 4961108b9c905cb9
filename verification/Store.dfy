/** The settings store (settings/store.c): a journal over two flash pages that
    a power cut at any flash operation cannot corrupt. */
module SettingsStore {
  import opened MachineWords
  import opened Crc16
  import opened StoreFormat
  import opened StoreTables
  import opened FlashMemory

  datatype StoreResult = StoreOk | BadArgument | FlashFailure | Verify

  predicate Acceptable(rtype: u8, data: seq<u8>) {
    0 < rtype < TYPES && |data| <= RECORD_MAX_BYTES
  }

  /** Anything but success, with the power on, is due to a fault meanwhile. */
  ghost predicate Troubled(flash: Flash, faults: nat, powered: bool, r: StoreResult)
    reads flash`ops
  {
    flash.Faults() >= faults && (r != StoreOk && powered ==> flash.Faults() > faults)
  }

  class Store {
    const flash: Flash
    var active: bool
    var page: nat
    var generation: u16
    var used: nat
    var full: bool
    // By type: the word at which Held()'s record begins, or 0, and how many bytes it has.
    const recordWord: array<nat>
    const recordLength: array<nat>

    ghost predicate Shape()
      reads this
    {
      recordWord.Length == TYPES && recordLength.Length == TYPES && recordWord != recordLength && page < 2
    }

    /** What store_read() gives now. */
    ghost function Held(): map<nat, seq<u8>>
      reads this, recordWord, flash
      requires Shape()
    {
      if active then HeldIn(flash.image[page], recordWord[..]) else map[]
    }

    ghost predicate Tables()
      reads this, recordWord, recordLength, flash
    {
      && Shape()
      && (active ==> TablesOk(flash.image[page], recordWord[..], recordLength[..], used))
      && (!active ==> forall t :: 0 <= t < TYPES ==> recordWord[t] == 0)
    }

    /** The tables are sound, for the page a restart would choose. */
    ghost predicate Valid()
      reads this, recordWord, recordLength, flash
    {
      && Tables()
      && (active ==>
           && Chosen(flash.image) == page && generation == flash.image[page][2]
           && HEADER_WORDS <= used <= PAGE_WORDS && used % 2 == 0
           && (!full ==> Legible(flash.image[page], flash.programmed, page, used)))
      && (!active ==> Chosen(flash.image) == -1)
    }

    /** ... and a restart would find the same records. */
    ghost predicate Synced()
      reads this, recordWord, recordLength, flash
    {
      && Valid() && Clean(flash.image, flash.programmed)
      && (active ==> Table(recordWord[..]) == Scan(flash.image[page]).index)
      && (active && !full ==> used == Scan(flash.image[page]).used)
    }

    lemma SyncedHeld()
      ensures Synced() ==> Held() == Stored(flash.image)
    {
      hide Clean, Chosen, Legible, TablesOk;
      if Synced() {
        assert Chosen(flash.image) == if active then page else -1;
      }
    }

    constructor (flash: Flash)
      ensures this.flash == flash && fresh(recordWord) && fresh(recordLength) && Shape()
    {
      this.flash := flash;
      active, page, generation, used, full := false, 0, 0, 0, false;
      recordWord := new nat[TYPES];
      recordLength := new nat[TYPES];
    }

    // ---- Reading the flash ------------------------------------------------

    /** header_valid() */
    method ReadHeader(p: nat) returns (valid: bool, gen: u16)
      requires p < 2
      ensures valid == HeaderValid(flash.image[p]) && gen == flash.image[p][2]
    {
      hide CrcWord;
      ghost var words := flash.image[p];
      var crc := CRC_INIT;
      var index := 0;
      while index < HEADER_WORDS - 1
        invariant 0 <= index <= HEADER_WORDS - 1
        invariant crc == CrcWords(CRC_INIT, words[..index])
      {
        assert words[..index + 1][..index] == words[..index];
        crc := CrcWord(crc, flash.image[p][index]);
        index := index + 1;
      }
      gen := flash.image[p][2];
      valid := flash.image[p][0] == MAGIC && flash.image[p][1] == FORMAT && flash.image[p][3] == crc;
    }

    /** check_record() */
    method CheckRecord(p: nat, word: nat) returns (parsed: Parsed, length: nat)
      requires p < 2 && word + 2 <= PAGE_WORDS
      ensures parsed == ParseRecord(flash.image[p], word) && length == flash.image[p][word + 1]
    {
      hide CrcWord;
      ghost var image := flash.image[p];
      var mark := flash.image[p][word];
      length := flash.image[p][word + 1];
      if mark / 256 != RECORD_MARK / 256 || mark % 256 == 0 || mark % 256 == 0xFF || length > RECORD_MAX_BYTES {
        return Unreadable, length;
      }
      var words := RecordWords(length);
      if word + words > PAGE_WORDS {
        return Unreadable, length;
      }
      var crc := CRC_INIT;
      var index := 0;
      while index < words - 1
        invariant 0 <= index <= words - 1
        invariant crc == CrcWords(CRC_INIT, image[word..word + index])
      {
        assert image[word..word + index + 1][..index] == image[word..word + index];
        crc := CrcWord(crc, flash.image[p][word + index]);
        index := index + 1;
      }
      parsed := if flash.image[p][word + words - 1] == crc then Intact(words, mark % 256) else Torn(words);
    }

    method ClearTables()
      requires Shape()
      modifies recordWord, recordLength
      ensures forall t :: 0 <= t < TYPES ==> recordWord[t] == 0
    {
      forall i | 0 <= i < recordWord.Length { recordWord[i] := 0; }
      forall i | 0 <= i < recordLength.Length { recordLength[i] := 0; }
    }

    // The record check_record() found, noted in the tables if it is one to keep.
    method Note(parsed: Parsed, word: nat, length: nat)
      requires Shape() && recordWord[0] == 0 && word != 0
      requires parsed.Intact? ==> parsed.rtype > 0
      modifies recordWord, recordLength
      ensures Table(recordWord[..]) == Noted(old(Table(recordWord[..])), parsed, word) && recordWord[0] == 0
      ensures forall t :: 0 < t < TYPES ==>
        || (recordWord[t] == old(recordWord[t]) && recordLength[t] == old(recordLength[t]))
        || (recordWord[t] == word && recordLength[t] == length)
    {
      if parsed.Intact? && parsed.rtype < TYPES {
        TableSet(recordWord[..], parsed.rtype, word);
        ghost var words := recordWord[..];
        recordWord[parsed.rtype] := word;
        recordLength[parsed.rtype] := length;
        assert recordWord[..] == words[parsed.rtype as nat := word];
      }
    }

    /** scan() */
    method ScanPage()
      requires Shape()
      modifies this`used, this`full, recordWord, recordLength
      ensures var s := Scan(flash.image[page]);
        && Table(recordWord[..]) == s.index && used == s.used && full == s.unreadable
        && TablesOk(flash.image[page], recordWord[..], recordLength[..], used)
    {
      hide CrcWords, RecordWords, ParseRecord, Table, Entry;
      var word := HEADER_WORDS;
      ClearTables();
      full := false;
      ghost var p := flash.image[page];
      EmptyTable(recordWord[..]);
      while word + 2 <= PAGE_WORDS
        invariant HEADER_WORDS <= word <= PAGE_WORDS && !full && recordWord[0] == 0
        invariant Scan(p) == ScanFrom(p, word, Table(recordWord[..]))
        invariant forall t :: 0 < t < TYPES && recordWord[t] != 0 ==>
          recordWord[t] + 2 <= PAGE_WORDS && recordLength[t] == p[recordWord[t] + 1]
        decreases PAGE_WORDS - word
      {
        if flash.image[page][word] == ERASED && flash.image[page][word + 1] == ERASED {
          break;
        }
        var parsed, length := CheckRecord(page, word);
        if parsed.Unreadable? {
          full := true;
          break;
        }
        Note(parsed, word, length);
        word := word + parsed.words;
      }
      used := word;
      ScannedTables(p, recordWord[..], recordLength[..]);
    }

    lemma EmptyTable(words: seq<nat>)
      requires forall t :: 0 <= t < |words| ==> words[t] == 0
      ensures Table(words) == map[]
    {
    }

    // ---- Interface --------------------------------------------------------

    /** store_init(): after a restart, exactly what the flash holds. */
    method Init()
      requires Shape()
      requires var c := Chosen(flash.image);
        c >= 0 ==> Legible(flash.image[c], flash.programmed, c, Scan(flash.image[c]).used)
      modifies this, recordWord, recordLength
      ensures Valid() && Held() == Stored(flash.image)
      ensures Clean(flash.image, flash.programmed) ==> Synced() && !full
    {
      hide CrcWords, ScanFrom, HeaderValid, Resolve, Table, Legible, TablesOk;
      page, generation, used, full, active := 0, 0, 0, false, false;
      ClearTables();
      var valid0, gen0 := ReadHeader(0);
      var valid1, gen1 := ReadHeader(1);
      if !valid0 && !valid1 {
        return;
      }
      page := if valid0 && (!valid1 || (gen0 - gen1) % U16 < 0x8000) then 0 else 1;
      generation := if page == 0 then gen0 else gen1;
      active := true;
      ScanPage();
    }

    /** store_read(): the latest record of the type, whole, if it fits. */
    method Read(rtype: u8, data: array<u8>, capacity: nat) returns (ok: bool, length: nat)
      requires Valid() && capacity <= data.Length
      modifies data
      ensures ok <==> rtype as nat in Held() && |Held()[rtype as nat]| <= capacity
      ensures ok ==> length <= data.Length && data[..length] == Held()[rtype as nat]
    {
      hide CrcWords, Entry, Chosen, Legible, HeldIn, TablesOk, DataAt;
      length := 0;
      if active && 0 < rtype < TYPES {
        HeldAt(flash.image[page], recordWord[..], recordLength[..], used, rtype);
      } else {
        NothingElse(rtype);
      }
      if !active || rtype == 0 || rtype >= TYPES || recordWord[rtype] == 0 || recordLength[rtype] > capacity {
        return false, 0;
      }
      ghost var p := flash.image[page];
      ghost var record := p[recordWord[rtype]..recordWord[rtype] + RecordWords(recordLength[rtype])];
      var word := recordWord[rtype] + 2;
      length := recordLength[rtype];
      var index := 0;
      while index < length
        invariant 0 <= index <= length <= data.Length
        invariant forall i :: 0 <= i < index ==> data[i] == RecordData(record)[i]
      {
        var value := flash.image[page][word + index / 2];
        data[index] := if index % 2 == 0 then value % 256 else value / 256;
        index := index + 1;
      }
      ok := true;
      assert data[..length] == RecordData(record);
    }

    lemma NothingElse(rtype: nat)
      requires Tables() && (!active || rtype == 0 || rtype >= TYPES)
      ensures rtype !in Held()
    {
      hide DataAt, TablesOk;
      if active {
        assert rtype !in Table(recordWord[..]);
      }
    }

    // ---- Writing ----------------------------------------------------------

    /** blank() */
    method IsBlank(p: nat, word: nat, words: nat) returns (blank: bool)
      requires p < 2 && word + words <= PAGE_WORDS
      ensures blank <==> forall i :: word <= i < word + words ==> flash.image[p][i] == ERASED
    {
      var index := 0;
      while index < words
        invariant 0 <= index <= words
        invariant forall i :: word <= i < word + index ==> flash.image[p][i] == ERASED
      {
        if flash.image[p][word + index] != ERASED {
          return false;
        }
        index := index + 1;
      }
      blank := true;
    }

    // The first loop of write_words(): the double words, in order.
    method WriteDoubles(p: nat, word: nat, words: array<u16>, count: nat) returns (ok: bool, ghost k: nat)
      requires p < 2 && word % 2 == 0 && count % 2 == 0 && word + count <= PAGE_WORDS && count <= words.Length
      requires forall i :: word <= i < word + count ==> flash.image[p][i] == ERASED
      requires forall x :: x in flash.programmed && x.0 == p ==> x.1 < word || word + count <= x.1
      modifies flash
      ensures flash.Faults() >= old(flash.Faults()) && (!ok && old(flash.powered) ==> flash.Faults() > old(flash.Faults()))
      ensures 2 * k <= count
      ensures flash.image == old(flash.image)[p := Burn(old(flash.image)[p], word, words[..count][..2 * k])]
      ensures forall x :: x in flash.programmed ==> x in old(flash.programmed) || (x.0 == p && word <= x.1 < word + 2 * k)
      ensures flash.powered ==> old(flash.powered)
      ensures ok ==> 2 * k == count && flash.powered == (old(flash.powered) || count > 0)
      ensures !ok && flash.powered ==> 2 * k < count
    {
      hide InStore, Burn, WordAddress, PageOf, WordOf;
      ghost var before, all := flash.image[p], words[..count];
      var index := 0;
      k := 0;
      BurnNone(flash.image, p, word, all);
      while index < count
        invariant 0 <= index <= count && index % 2 == 0 && 2 * k == index
        invariant flash.image == old(flash.image)[p := Burn(before, word, all[..index])]
        invariant forall x :: x in flash.programmed ==> x in old(flash.programmed) || (x.0 == p && word <= x.1 < word + index)
        invariant flash.powered == (old(flash.powered) || index > 0)
        invariant index > 0 ==> old(flash.powered)
        invariant flash.Faults() >= old(flash.Faults())
      {
        AddressRoundTrip(p, word + index);
        BurnTwo(before, word, all, index);
        var result := flash.WriteDouble(WordAddress(p, word + index), words[index], words[index + 1]);
        if (p, word + index) in flash.programmed {
          k := k + 1;
        }
        if result != FlashOk {
          return false, k;
        }
        index := index + 2;
      }
      ok := true;
    }

    /** write_words(): k double words land, in order: all of them if it says so,
        or if the power goes with the last. */
    method WriteWords(p: nat, word: nat, words: array<u16>, count: nat) returns (r: StoreResult, ghost k: nat)
      requires p < 2 && word % 2 == 0 && count % 2 == 0 && word + count <= PAGE_WORDS && 0 < count <= words.Length
      requires forall i :: word <= i < word + count ==> flash.image[p][i] == ERASED
      requires forall x :: x in flash.programmed && x.0 == p ==> x.1 < word || word + count <= x.1
      modifies flash
      ensures Troubled(flash, old(flash.Faults()), old(flash.powered), r)
      ensures r != BadArgument
      ensures 2 * k <= count
      ensures flash.image == old(flash.image)[p := Burn(old(flash.image)[p], word, words[..count][..2 * k])]
      ensures forall x :: x in flash.programmed ==> x in old(flash.programmed) || (x.0 == p && word <= x.1 < word + 2 * k)
      ensures flash.powered ==> old(flash.powered)
      ensures r == StoreOk ==> flash.powered && 2 * k == count
      ensures r != StoreOk && flash.powered ==> 2 * k < count
    {
      var ok;
      ok, k := WriteDoubles(p, word, words, count);
      if !ok {
        return FlashFailure, k;
      }
      var index := 0;
      assert forall i :: 0 <= i < count ==> flash.image[p][word + i] == words[i];
      while index < count
        invariant 0 <= index <= count
      {
        if flash.image[p][word + index] != words[index] {
          return Verify, k;
        }
        index := index + 1;
      }
      r := StoreOk;
    }

    /** build_record() */
    static method BuildRecord(rtype: u8, data: seq<u8>, words: array<u16>) returns (count: nat)
      requires Acceptable(rtype, data) && words.Length == 68
      modifies words
      ensures count == RecordWords(|data|) && words[..count] == Record(rtype, data)
    {
      hide CrcWord, RecordBody;
      count := RecordWords(|data|);
      FillBody(rtype, data, words, count);
      var crc := CRC_INIT;
      var index := 0;
      while index < count - 1
        invariant 0 <= index <= count - 1
        invariant crc == CrcWords(CRC_INIT, words[..index])
      {
        assert words[..index + 1][..index] == words[..index];
        crc := CrcWord(crc, words[index]);
        index := index + 1;
      }
      words[count - 1] := crc;
      assert words[..count] == words[..count - 1] + [crc];
    }

    // The header and the data, two bytes to a word.
    static method FillBody(rtype: u8, data: seq<u8>, words: array<u16>, count: nat)
      requires Acceptable(rtype, data) && words.Length == 68 && count == RecordWords(|data|)
      modifies words
      ensures words[..count - 1] == RecordBody(rtype, data)
    {
      hide Partial, Placed, RecordWords, RecordBody;
      forall i | 0 <= i < count { words[i] := 0; }
      words[0] := RECORD_MARK + rtype;
      words[1] := |data|;
      var index := 0;
      PartialNone(data);
      while index < |data|
        invariant 0 <= index <= |data|
        invariant words[0] == RECORD_MARK + rtype && words[1] == |data|
        invariant forall j :: 0 <= j < count - 3 ==> words[2 + j] == Partial(data, index, j)
      {
        PartialStep(data, index);
        var half := index / 2;
        assert words[2 + half] == Partial(data, index, half);
        words[2 + half] := words[2 + half] + Placed(data[index], index);
        index := index + 1;
        forall j | 0 <= j < count - 3
          ensures words[2 + j] == Partial(data, index, j)
        {
          assert j != half ==> Partial(data, index, j) == Partial(data, index - 1, j);
        }
      }
      BodyDone(rtype, data, words[..count - 1]);
    }

    // ---- Changing page ----------------------------------------------------

    // The start of change_page(): the target erased, and read back blank.
    method ErasePage(target: nat) returns (r: StoreResult)
      requires target < 2 && Chosen(flash.image) != target
      modifies flash
      ensures Troubled(flash, old(flash.Faults()), old(flash.powered), r)
      ensures r != BadArgument
      ensures flash.image[1 - target] == old(flash.image)[1 - target]
      ensures Chosen(flash.image) == old(Chosen(flash.image))
      ensures forall x :: x in flash.programmed ==> x in old(flash.programmed)
      ensures flash.powered ==> old(flash.powered)
      ensures r == StoreOk ==> flash.powered && Blank(flash.image[target], 0) && forall x :: x in flash.programmed ==> x.0 != target
    {
      hide HeaderValid, Chosen;
      AddressRoundTrip(target, 0);
      ghost var before := flash.image;
      var result := flash.ErasePage(WordAddress(target, 0));
      ChosenKept(before, flash.image, target);
      if result != FlashOk {
        return FlashFailure;
      }
      var blank := IsBlank(target, 0, PAGE_WORDS);
      r := if blank then StoreOk else Verify;
    }

    // The other page under construction: a journal with these contents, no header yet.
    ghost predicate Building(target: nat, word: nat, contents: map<nat, seq<u8>>)
      reads flash
      requires target < 2
    {
      var p := flash.image[target];
      && p[..HEADER_WORDS] == seq(HEADER_WORDS, i => ERASED)
      && !Scan(p).unreadable && Scan(p).used == word && Blank(p, word) && Contents(p) == contents
      && forall x :: x in flash.programmed && x.0 == target ==> HEADER_WORDS <= x.1 < word
    }

    // One record written into the page under construction.
    method AppendTo(target: nat, word: nat, words: array<u16>, count: nat, ghost rtype: nat, ghost contents: map<nat, seq<u8>>)
      returns (r: StoreResult)
      requires target < 2 && Building(target, word, contents)
      requires count <= words.Length && IsRecord(words[..count], rtype) && rtype < TYPES && word + count <= PAGE_WORDS
      modifies flash
      ensures Troubled(flash, old(flash.Faults()), old(flash.powered), r)
      ensures r != BadArgument
      ensures flash.image[1 - target] == old(flash.image)[1 - target]
      ensures !HeaderValid(flash.image[target])
      ensures flash.powered ==> old(flash.powered)
      ensures forall x :: x in flash.programmed && x.0 != target ==> x in old(flash.programmed)
      ensures r == StoreOk ==> flash.powered && Building(target, word + count, contents[rtype := RecordData(words[..count])])
      ensures r == StoreOk ==> Scan(flash.image[target]).index == Scan(old(flash.image[target])).index[rtype := word]
    {
      hide CrcWords, ScanFrom, ParseRecord, RecordData;
      ghost var before, record, k := flash.image[target], words[..count], 0;
      r, k := WriteWords(target, word, words, count);
      assert flash.image[target][..HEADER_WORDS] == before[..HEADER_WORDS];
      assert flash.image[target][0] == before[..HEADER_WORDS][0];
      if r == StoreOk {
        assert record[..2 * k] == record;
        AppendWhole(before, flash.image[target], record, rtype);
      }
    }

    method CopyRecord(other: nat, words: array<u16>) returns (count: nat)
      requires Tables() && active && 0 < other < TYPES && recordWord[other] != 0 && words.Length == 68
      modifies words
      ensures count <= 68 && IsRecord(words[..count], other)
      ensures RecordData(words[..count]) == Held()[other]
    {
      hide CrcWords, ParseRecord, RecordData, DataAt;
      ghost var p, w := flash.image[page], recordWord[other];
      assert Entry(p, other, w);
      ParsedIsRecord(p, w);
      HeldAt(p, recordWord[..], recordLength[..], used, other);
      count := RecordWords(recordLength[other]);
      var index := 0;
      while index < count
        invariant 0 <= index <= count
        invariant forall i :: 0 <= i < index ==> words[i] == p[w + i]
      {
        words[index] := flash.image[page][recordWord[other] + index];
        index := index + 1;
      }
      assert words[..count] == p[w..w + count];
    }

    // The loop of change_page(): all that is held but the one replaced.
    method CopyRecords(rtype: nat, target: nat, newWord: array<nat>) returns (r: StoreResult, word: nat)
      requires Tables() && 0 < rtype < TYPES && target < 2 && (active ==> target == 1 - page)
      requires Building(target, HEADER_WORDS, map[]) && Scan(flash.image[target]).index == map[] && flash.powered
      requires newWord.Length == TYPES && newWord != recordWord && newWord != recordLength
      requires forall t :: 0 <= t < TYPES ==> newWord[t] == 0
      modifies flash, newWord
      ensures Troubled(flash, old(flash.Faults()), old(flash.powered), r)
      ensures r != BadArgument
      ensures flash.image[1 - target] == old(flash.image)[1 - target]
      ensures !HeaderValid(flash.image[target])
      ensures flash.powered ==> old(flash.powered)
      ensures forall x :: x in flash.programmed && x.0 != target ==> x in old(flash.programmed)
      ensures word <= HEADER_WORDS + 68 * (TYPES - 1)
      ensures r == StoreOk ==> flash.powered && Building(target, word, Copied(old(Held()), rtype, TYPES))
      ensures r == StoreOk ==> newWord[0] == 0 && newWord[rtype] == 0 && Scan(flash.image[target]).index == Table(newWord[..])
    {
      hide CrcWords, ScanFrom, ParseRecord, RecordData, RecordWords, DataAt, Table, Copied, Entry, HeldIn, IsRecord;
      hide Building, HeaderValid, Flash.Faults, TablesOk;
      HeaderMissing(target, HEADER_WORDS, map[]);
      word := HEADER_WORDS;
      var words := new u16[68];
      var other := 1;
      ghost var held := Held();
      if active {
        CopiedAll(flash.image[page], recordWord[..], rtype, []);
      } else {
        NoneCopied(rtype);
      }
      EmptyTable(newWord[..]);
      while other < TYPES
        invariant 1 <= other <= TYPES && HEADER_WORDS <= word <= HEADER_WORDS + 68 * (other - 1)
        invariant flash.image[1 - target] == old(flash.image)[1 - target] && flash.powered
        invariant !HeaderValid(flash.image[target])
        invariant forall x :: x in flash.programmed && x.0 != target ==> x in old(flash.programmed)
        invariant Building(target, word, Copied(held, rtype, other)) && newWord[0] == 0 && newWord[rtype] == 0
        invariant forall t :: other <= t < TYPES ==> newWord[t] == 0
        invariant Scan(flash.image[target]).index == Table(newWord[..])
        invariant flash.Faults() >= old(flash.Faults())
      {
        assert Tables() && Held() == held;
        if active {
          HeldAt(flash.image[page], recordWord[..], recordLength[..], used, other);
        }
        if other != rtype && recordWord[other] != 0 {
          var count := CopyRecord(other, words);
          ghost var table := newWord[..];
          r := AppendTo(target, word, words, count, other, Copied(held, rtype, other));
          if r != StoreOk {
            return;
          }
          newWord[other] := word;
          assert newWord[..] == table[other := word];
          TableSet(table, other, word);
          word := word + count;
        }
        CopiedStep(held, rtype, other);
        other := other + 1;
      }
      r := StoreOk;
    }

    lemma HeaderMissing(target: nat, word: nat, contents: map<nat, seq<u8>>)
      requires target < 2 && Building(target, word, contents)
      ensures !HeaderValid(flash.image[target])
    {
      assert flash.image[target][0] == flash.image[target][..HEADER_WORDS][0];
    }

    lemma NoneCopied(rtype: nat)
      ensures Copied(map[], rtype, 1) == map[]
    {
    }

    // The end of change_page(): the header, which is the switch.
    method WriteHeader(target: nat, gen: u16, ghost word: nat, ghost contents: map<nat, seq<u8>>) returns (r: StoreResult)
      requires target < 2 && Building(target, word, contents) && word >= HEADER_WORDS
      modifies flash
      ensures Troubled(flash, old(flash.Faults()), old(flash.powered), r)
      ensures r != BadArgument
      ensures flash.image[1 - target] == old(flash.image)[1 - target]
      ensures flash.powered ==> old(flash.powered)
      ensures forall x :: x in flash.programmed && x.0 != target ==> x in old(flash.programmed)
      ensures r == StoreOk ==> flash.powered && HeaderValid(flash.image[target])
      ensures HeaderValid(flash.image[target]) ==>
        && (r == StoreOk || !flash.powered) && flash.image[target][2] == gen
        && Scan(flash.image[target]) == Scan(old(flash.image)[target]) && Contents(flash.image[target]) == contents
        && Untouched(flash.image, flash.programmed, target, word)
    {
      hide CrcWords, ScanFrom, ParseRecord, RecordData, RecordWords, DataAt;
      var words := new u16[4];
      words[0], words[1], words[2] := MAGIC, FORMAT, gen;
      words[3] := CrcWords(CRC_INIT, words[..3]);
      assert words[..3] == [MAGIC, FORMAT, gen];
      assert words[..4] == Header(gen);
      ghost var before, k := flash.image[target], 0;
      assert forall i :: 0 <= i < HEADER_WORDS ==> before[i] == before[..HEADER_WORDS][i];
      r, k := WriteWords(target, 0, words, HEADER_WORDS);
      HeaderWritten(before, flash.image[target], gen, k);
      if k == 2 {
        HeaderOnly(before, flash.image[target]);
      }
    }

    // change_page() up to the header: the target holds every record, the new
    // one included, and is not yet a page a restart would look at.
    method FillPage(rtype: u8, data: seq<u8>, target: nat, newWord: array<nat>) returns (r: StoreResult, word: nat)
      requires Valid() && Acceptable(rtype, data) && target == (if active then 1 - page else 0)
      requires newWord.Length == TYPES && newWord != recordWord && newWord != recordLength
      requires forall t :: 0 <= t < TYPES ==> newWord[t] == 0
      modifies flash, newWord
      ensures Troubled(flash, old(flash.Faults()), old(flash.powered), r)
      ensures r != BadArgument
      ensures flash.image[1 - target] == old(flash.image)[1 - target]
      ensures flash.powered ==> old(flash.powered)
      ensures Undisturbed(old(flash.image), old(flash.programmed), flash.image, flash.programmed)
      ensures r == StoreOk ==> flash.powered && HEADER_WORDS <= word <= PAGE_WORDS && word % 2 == 0
      ensures r == StoreOk ==> Building(target, word, old(Held())[rtype as nat := data])
      ensures r == StoreOk ==> newWord[0] == 0 && Scan(flash.image[target]).index == Table(newWord[..])
    {
      hide CrcWords, ScanFrom, ParseRecord, RecordData, RecordWords, HeldIn, HeaderValid, Chosen, Legible;
      hide IsRecord, Record, Table, Copied, Contents, TablesOk, Flash.Faults;
      ghost var image0, held := flash.image, Held();
      word := 0;
      if active {
        CopiedAll(flash.image[page], recordWord[..], rtype, data);
      } else {
        CopiedNone(rtype, data);
      }
      r := ErasePage(target);
      if r != StoreOk {
        return;
      }
      EmptyPage(flash.image[target]);
      r, word := CopyRecords(rtype, target, newWord);
      if r != StoreOk {
        ChosenKept(image0, flash.image, target);
        return;
      }
      ghost var table := newWord[..];
      var words := new u16[68];
      var count := BuildRecord(rtype, data, words);
      RecordRoundTrip(rtype, data);
      r := AppendTo(target, word, words, count, rtype, Copied(held, rtype, TYPES));
      ChosenKept(image0, flash.image, target);
      newWord[rtype] := word;
      assert newWord[..] == table[rtype as nat := word];
      TableSet(table, rtype, word);
      word := word + count;
    }

    lemma CopiedNone(rtype: nat, data: seq<u8>)
      ensures Copied(map[], rtype, TYPES)[rtype := data] == map[rtype := data]
    {
    }

    // The tables follow the switch.
    method Follow(newWord: array<nat>, rtype: u8, data: seq<u8>, target: nat, gen: u16, word: nat)
      requires Tables() && target < 2 && Acceptable(rtype, data)
      requires newWord.Length == TYPES && newWord != recordWord && newWord != recordLength && newWord[0] == 0
      requires Chosen(flash.image) == target && Clean(flash.image, flash.programmed) && flash.image[target][2] == gen
      requires var s := Scan(flash.image[target]); s.index == Table(newWord[..]) && s.used == word && word % 2 == 0
      requires Contents(flash.image[target]) == Held()[rtype as nat := data]
      modifies this, recordWord, recordLength
      ensures Synced() && !full && Held() == old(Held())[rtype as nat := data]
    {
      hide CrcWords, ScanFrom, Resolve, Table, Chosen, TablesOk;
      if active {
        CarriedTables(flash.image[page], recordWord[..], recordLength[..], used, flash.image[target], newWord[..], rtype, data);
      } else {
        FirstTables(flash.image[target], newWord[..], recordLength[..], rtype, data);
      }
      ghost var table, lengths := newWord[..], recordLength[..];
      forall i | 0 <= i < TYPES { recordWord[i] := newWord[i]; }
      recordLength[rtype] := |data|;
      active, page, generation, used, full := true, target, gen, word, false;
      assert recordWord[..] == table && recordLength[..] == lengths[rtype as nat := |data| as nat];
    }

    lemma FirstTables(q: Page, words: seq<nat>, lengths: seq<nat>, rtype: nat, data: seq<u8>)
      requires |words| == |lengths| == TYPES && words[0] == 0 && 0 < rtype < TYPES
      requires Scan(q).index == Table(words) && Contents(q) == map[rtype := data]
      ensures TablesOk(q, words, lengths[rtype := |data|], Scan(q).used)
    {
      hide CrcWords, ScanFrom, ParseRecord, RecordWords, DataAt;
      var none := seq(TYPES, i => 0);
      assert HeldIn(q, none) == map[];
      CarriedTables(q, none, lengths, 0, q, words, rtype, data);
    }

    /** change_page(): every record and the new one go to the other page, and
        only its header, the last double word written, makes it the page in use. */
    method ChangePage(rtype: u8, data: seq<u8>) returns (r: StoreResult)
      requires Valid() && Acceptable(rtype, data)
      modifies this, recordWord, recordLength, flash
      ensures Troubled(flash, old(flash.Faults()), old(flash.powered), r)
      ensures r != BadArgument
      ensures flash.powered ==> old(flash.powered)
      ensures old(active) ==> flash.image[old(page)] == old(flash.image)[old(page)]
      ensures r == StoreOk ==> flash.powered && Synced() && !full && Held() == old(Held())[rtype as nat := data]
      ensures r != StoreOk && flash.powered ==> Valid() && Held() == old(Held()) && (old(Synced()) ==> Synced())
      ensures old(Clean(flash.image, flash.programmed)) ==> Clean(flash.image, flash.programmed)
      ensures Stored(flash.image) == old(Stored(flash.image)) || Stored(flash.image) == old(Held())[rtype as nat := data]
    {
      hide CrcWords, ScanFrom, ParseRecord, RecordData, RecordWords, DataAt, HeaderValid, Resolve, Table;
      hide TablesOk, HeldIn, Undisturbed, Chosen, Clean, Legible, Contents;
      ghost var image0, programmed0, held := flash.image, flash.programmed, Held();
      var target := if active then 1 - page else 0;
      var gen := if active then (generation + 1) % U16 else 1;
      var newWord := new nat[TYPES](i => 0);
      var word;
      r, word := FillPage(rtype, data, target, newWord);
      UndisturbedKeeps(image0, programmed0, flash.image, flash.programmed);
      SameChoice(image0, programmed0, flash.image, flash.programmed);
      if r != StoreOk {
        return;
      }
      ghost var image1, programmed1 := flash.image, flash.programmed;
      r := WriteHeader(target, gen, word, held[rtype as nat := data]);
      if !HeaderValid(flash.image[target]) {
        ChosenKept(image1, flash.image, target);
        BackToSame(image1, programmed1, flash.image, flash.programmed);
        UndisturbedKeeps(image1, programmed1, flash.image, flash.programmed);
        return;
      }
      TakeOver(image0, programmed0, flash.image, flash.programmed, target, word);
      if r != StoreOk {
        return;
      }
      SyncedHeld();
      Follow(newWord, rtype, data, target, gen, word);
    }

    lemma SameChoice(image: Image, programmed: set<(nat, nat)>, image': Image, programmed': set<(nat, nat)>)
      requires Undisturbed(image, programmed, image', programmed')
      ensures Chosen(image') == Chosen(image)
      ensures Chosen(image) >= 0 ==> image'[Chosen(image)] == image[Chosen(image)]
    {
      hide Chosen;
    }

    lemma BackToSame(image: Image, programmed: set<(nat, nat)>, image': Image, programmed': set<(nat, nat)>)
      requires var c := Chosen(image);
        Chosen(image') == c && (c >= 0 ==> image'[c] == image[c] && forall x :: x in programmed' && x.0 == c ==> x in programmed)
      ensures Undisturbed(image, programmed, image', programmed')
    {
      hide Chosen;
    }

    // ---- store_write() ----------------------------------------------------

    // The record after the last, on the page in use: the flash's side of it.
    method PutRecord(rtype: u8, data: seq<u8>, words: array<u16>, count: nat) returns (r: StoreResult, ghost k: nat)
      requires Valid() && active && !full && Acceptable(rtype, data) && used + count <= PAGE_WORDS
      requires count <= words.Length && words[..count] == Record(rtype, data)
      requires forall i :: used <= i < used + count ==> flash.image[page][i] == ERASED
      modifies flash
      ensures Troubled(flash, old(flash.Faults()), old(flash.powered), r)
      ensures r != BadArgument
      ensures 2 * k <= count && (flash.powered ==> old(flash.powered))
      ensures r == StoreOk ==> flash.powered && 2 * k == count
      ensures r != StoreOk && flash.powered ==> 2 * k < count
      ensures flash.image == old(flash.image)[page := Burn(old(flash.image)[page], used, Record(rtype, data)[..2 * k])]
      ensures forall x :: x in flash.programmed ==> x in old(flash.programmed) || (x.0 == page && used <= x.1 < used + 2 * k)
      ensures Tables() && Chosen(flash.image) == page && generation == flash.image[page][2] && Held() == old(Held())
      ensures Legible(flash.image[page], flash.programmed, page, used + 2 * k)
    {
      hide CrcWords, TablesOk, HeldIn, Chosen, Record, Burn;
      ghost var image0, record := flash.image, words[..count];
      ghost var rw, rl := recordWord[..], recordLength[..];
      r, k := WriteWords(page, used, words, count);
      BurnFrame(image0[page], used, record[..2 * k]);
      ChosenAfter(image0, flash.image, page);
      TablesKept(image0[page], flash.image[page], rw, rl, used);
    }

    // ... and the store's.
    method Append(rtype: u8, data: seq<u8>, words: array<u16>, count: nat) returns (r: StoreResult)
      requires Valid() && active && !full && Acceptable(rtype, data) && used + count <= PAGE_WORDS
      requires count <= words.Length && words[..count] == Record(rtype, data)
      requires forall i :: used <= i < used + count ==> flash.image[page][i] == ERASED
      modifies flash, this`used, this`full, recordWord, recordLength
      ensures Troubled(flash, old(flash.Faults()), old(flash.powered), r)
      ensures r != BadArgument
      ensures Valid() && (flash.powered ==> old(flash.powered))
      ensures flash.image[page][..old(used)] == old(flash.image)[page][..old(used)]
      ensures r == StoreOk ==> flash.powered && Held() == old(Held())[rtype as nat := data]
      ensures r != StoreOk ==> Held() == old(Held())
      ensures r == StoreOk ==> used == old(used) + count && !full
      ensures r == StoreOk ==>
                flash.image == old(flash.image)[page := Burn(old(flash.image)[page], old(used), Record(rtype, data))]
      ensures old(Synced()) && TornDetected(rtype, data) ==>
        && (flash.powered ==> Synced()) && Clean(flash.image, flash.programmed)
        && (Stored(flash.image) == old(Held()) || Stored(flash.image) == old(Held())[rtype as nat := data])
    {
      hide CrcWords, ScanFrom, RecordWords, Record, Chosen, TornDetected, Stored, TablesOk, HeldIn, Table, Burn;
      ghost var image0, programmed0, k := flash.image, flash.programmed, 0;
      ghost var synced, rw, rl, u := Synced() && TornDetected(rtype, data), recordWord[..], recordLength[..], used;
      SyncedHeld();
      r, k := PutRecord(rtype, data, words, count);
      BurnFrame(image0[page], used, Record(rtype, data)[..2 * k]);
      if synced {
        Appended(image0, programmed0, flash.image, flash.programmed, rtype, data, k);
      }
      if r == StoreOk {
        assert Record(rtype, data)[..2 * k] == Record(rtype, data);
        TablesExtended(flash.image[page], rw, rl, used, rtype, data);
        recordWord[rtype] := used;
        recordLength[rtype] := |data|;
        used := used + count;
        assert recordWord[..] == rw[rtype as nat := u] && recordLength[..] == rl[rtype as nat := |data| as nat];
        TableSet(rw, rtype, u);
      } else {
        full := true;
      }
    }

    // What is free in a journal of ours is blank.
    lemma BlankAhead(count: nat)
      requires Valid() && active && !full && used + count <= PAGE_WORDS
      ensures Synced() ==> forall i :: used <= i < used + count ==> flash.image[page][i] == ERASED
    {
      hide CrcWords, ScanFrom, Chosen, TablesOk, Legible, Table;
    }

    /** store_write_erases() */
    predicate WriteErases(length: nat)
      reads this
    {
      !active || full || used + RecordWords(length) > PAGE_WORDS
    }

    /** store_write(): whatever fails and wherever the power goes, a restart
        finds the records as they were or with the new one, and no other change. */
    method Write(rtype: u8, data: seq<u8>) returns (r: StoreResult)
      requires Valid() && flash.powered
      modifies this, recordWord, recordLength, flash
      // Unless the flash fails, or the power, it is done.
      ensures r == StoreOk || r == BadArgument || flash.Faults() > old(flash.Faults())
      ensures flash.Faults() >= old(flash.Faults())
      ensures r == BadArgument <==> !Acceptable(rtype, data)
      ensures r == BadArgument ==> flash.image == old(flash.image) && flash.powered && (old(Synced()) ==> Synced())
      ensures flash.powered ==> Valid()
      ensures r == StoreOk ==> flash.powered && Held() == old(Held())[rtype as nat := data]
      ensures r != StoreOk && flash.powered ==> Held() == old(Held())
      ensures old(active) ==> flash.image[old(page)][..old(used)] == old(flash.image)[old(page)][..old(used)]
      ensures old(Synced()) && Acceptable(rtype, data) && TornDetected(rtype, data) ==>
        && (flash.powered ==> Synced()) && Clean(flash.image, flash.programmed)
        && (Stored(flash.image) == old(Held()) || Stored(flash.image) == old(Held())[rtype as nat := data])
      // A record that fits goes after the last, and nothing else is written or erased.
      ensures old(Synced()) && old(active) && !old(full) && old(used) + RecordWords(|data|) <= PAGE_WORDS
              && Acceptable(rtype, data) && flash.Faults() == old(flash.Faults()) ==>
        && active && page == old(page) && used == old(used) + RecordWords(|data|)
        && flash.image == old(flash.image)[page := Burn(old(flash.image)[page], old(used), Record(rtype, data))]
      ensures r == StoreOk ==> !full
      ensures r == BadArgument ==> active == old(active) && full == old(full)
    {
      hide CrcWords, ScanFrom, RecordWords, Record, Chosen, TornDetected, Stored, TablesOk, HeldIn, Table, Burn;
      hide Legible, Clean;
      SyncedHeld();
      if rtype == 0 || rtype >= TYPES || |data| > RECORD_MAX_BYTES {
        return BadArgument;
      }
      if !WriteErases(|data|) {
        var words := new u16[68];
        var count := BuildRecord(rtype, data, words);
        var blank := IsBlank(page, used, count);
        BlankAhead(count);
        if blank {
          r := Append(rtype, data, words, count);
          if r == StoreOk {
            return;
          }
        }
        full := true;
      }
      r := ChangePage(rtype, data);
    }
  }

  // ---- Whole lives ----------------------------------------------------------

  /** One store_write() as its caller saw it: completed only if it said so; the
      flash operations that went wrong in it; and the flash before and after. */
  datatype Attempt = Attempt(rtype: nat, data: seq<u8>, completed: bool, faults: nat, before: Image, after: Image)

  ghost function FaultsIn(log: seq<Attempt>): nat {
    if log == [] then 0 else FaultsIn(log[..|log| - 1]) + log[|log| - 1].faults
  }

  /** What a write said, of an attempt: it was completed, refused, or came upon a fault. */
  ghost predicate Accounted(a: Attempt, rtype: u8, data: seq<u8>, r: StoreResult) {
    && a.rtype == rtype && a.data == data
    && (a.completed <==> r == StoreOk) && (r == BadArgument <==> !Acceptable(rtype, data))
    && (a.completed || r == BadArgument || a.faults > 0)
    && (r == BadArgument ==> a.after == a.before)
  }

  /** Each attempt finds the flash as the last one left it. */
  ghost predicate Linked(log: seq<Attempt>, first: Image, last: Image) {
    && (if log == [] then first == last else log[0].before == first && log[|log| - 1].after == last)
    && forall i, j :: 0 <= i && j == i + 1 && j < |log| ==> log[i].after == log[j].before
  }

  predicate IsWrite(a: Attempt) {
    0 < a.rtype < TYPES && |a.data| <= RECORD_MAX_BYTES
  }

  /** The last write that was not refused was not completed either. */
  predicate Spoiled(log: seq<Attempt>) {
    log != [] && if IsWrite(log[|log| - 1]) then !log[|log| - 1].completed else Spoiled(log[..|log| - 1])
  }

  /** A record there is room for on the page in use. */
  predicate Fits(a: Attempt) {
    var c := Chosen(a.before);
    IsWrite(a) && c >= 0 && Scan(a.before[c]).used + RecordWords(|a.data|) <= PAGE_WORDS
  }

  /** All that changes is that it stands after the last one there. */
  predicate Appends(a: Attempt)
    requires Fits(a)
  {
    var c := Chosen(a.before);
    a.after == a.before[c := Burn(a.before[c], Scan(a.before[c]).used, Record(a.rtype, a.data))]
  }

  /** No page is erased for a record there is room for, unless the flash fails it
      or failed the last one. */
  ghost predicate Sparing(log: seq<Attempt>) {
    forall i :: 0 <= i < |log| && Fits(log[i]) && log[i].faults == 0 && !Spoiled(log[..i]) ==> Appends(log[i])
  }

  /** Every type holds its last completed record or one attempted since; a type
      with no completed record may hold nothing; nothing else is ever held. */
  ghost predicate Explains(log: seq<Attempt>, held: map<nat, seq<u8>>) {
    && (forall t :: t in held ==> exists i :: 0 <= i < |log| && Source(log, i, t, held[t]))
    && (forall i :: 0 <= i < |log| && log[i].completed ==> log[i].rtype in held)
  }

  ghost predicate Source(log: seq<Attempt>, i: nat, t: nat, data: seq<u8>)
    requires i < |log|
  {
    && log[i].rtype == t && log[i].data == data
    && forall j :: i < j < |log| && log[j].rtype == t ==> !log[j].completed
  }

  lemma ExplainsStep(log: seq<Attempt>, held: map<nat, seq<u8>>, a: Attempt, held': map<nat, seq<u8>>)
    requires Explains(log, held)
    requires held' == held[a.rtype := a.data] || (held' == held && !a.completed)
    ensures Explains(log + [a], held')
  {
    var log' := log + [a];
    forall t | t in held'
      ensures exists i :: 0 <= i < |log'| && Source(log', i, t, held'[t])
    {
      if t == a.rtype && held' == held[a.rtype := a.data] {
        assert Source(log', |log|, t, held'[t]);
      } else {
        var i :| 0 <= i < |log| && Source(log, i, t, held[t]);
        assert Source(log', i, t, held'[t]);
      }
    }
  }

  /** A life of the store: any writes at all, any of them cut short by a loss
      of power at any flash operation or failed by the flash, restarts between
      them whenever it likes and after every loss of power. At the end a
      restart and a read of everything accounts for every record. A write that
      could be made and was not came upon a fault of the flash, and there are
      no more of those than the flash had. A page is erased only for a record
      that does not fit, or after a fault. */
  method Life(flash: Flash, script: seq<(u8, seq<u8>)>)
    returns (store: Store, results: seq<StoreResult>, ghost log: seq<Attempt>)
    requires flash.image == [ERASED_PAGE, ERASED_PAGE] && flash.programmed == {}
    requires forall i :: 0 <= i < |script| && Acceptable(script[i].0, script[i].1) ==>
      TornDetected(script[i].0, script[i].1)
    modifies flash
    ensures |log| == |results| == |script|
    ensures forall i :: 0 <= i < |log| ==> Accounted(log[i], script[i].0, script[i].1, results[i])
    ensures old(flash.Faults()) + FaultsIn(log) == flash.Faults()
    ensures Linked(log, old(flash.image), flash.image) && Sparing(log)
    ensures fresh(store) && store.flash == flash && store.Synced() && Explains(log, store.Held())
  {
    hide Chosen, Clean, Stored, Acceptable, TornDetected, Flash.Faults, Explains, Store.Held, FaultsIn, TablesOk, Legible;
    hide Accounted, Linked, Sparing, Spoiled, Scan;
    log, results := [], [];
    NewLife(flash);
    store := Restart(flash);
    for n := 0 to |script|
      invariant store.flash == flash && fresh(store) && fresh(store.recordWord) && fresh(store.recordLength)
      invariant flash.powered && store.Synced() && Explains(log, store.Held()) && (store.full ==> Spoiled(log))
      invariant |log| == |results| == n && forall i :: 0 <= i < n ==> Accounted(log[i], script[i].0, script[i].1, results[i])
      invariant old(flash.Faults()) + FaultsIn(log) == flash.Faults()
      invariant Linked(log, old(flash.image), flash.image) && Sparing(log)
    {
      var r: StoreResult;
      ghost var a: Attempt;
      r, a := Try(store, script[n].0, script[n].1, log);
      var restart: bool := *;
      FaultsNext(log, a);
      LinkedNext(log, old(flash.image), a);
      SparingNext(log, a);
      SpoiledNext(log, a, script[n].0, script[n].1, r);
      log, results := log + [a], results + [r];
      if restart || !flash.powered {
        store := Restart(flash);
      }
    }
  }

  // One write of a life, and what it leaves.
  method Try(store: Store, rtype: u8, data: seq<u8>, ghost log: seq<Attempt>) returns (r: StoreResult, ghost a: Attempt)
    requires store.flash.powered && store.Synced() && Explains(log, store.Held())
    requires Acceptable(rtype, data) ==> TornDetected(rtype, data)
    modifies store, store.recordWord, store.recordLength, store.flash
    ensures a == Attempt(rtype, data, r == StoreOk, a.faults, old(store.flash.image), store.flash.image)
    ensures Accounted(a, rtype, data, r) && old(store.flash.Faults()) + a.faults == store.flash.Faults()
    ensures Explains(log + [a], Stored(store.flash.image)) && Clean(store.flash.image, store.flash.programmed)
    ensures store.flash.powered ==> store.Synced() && store.Held() == Stored(store.flash.image)
    ensures Fits(a) && a.faults == 0 && !old(store.full) ==> Appends(a)
    ensures (r == StoreOk ==> !store.full) && (r == BadArgument ==> store.full == old(store.full))
  {
    hide Chosen, Clean, Stored, TornDetected, Flash.Faults, Explains, TablesOk, Legible, Scan, Burn, Record, RecordWords;
    hide Table, HeldIn;
    ghost var held, faults := store.Held(), store.flash.Faults();
    store.SyncedHeld();
    InUse(store);
    r := store.Write(rtype, data);
    a := Attempt(rtype, data, r == StoreOk, store.flash.Faults() - faults, old(store.flash.image), store.flash.image);
    store.SyncedHeld();
    ExplainsStep(log, held, a, Stored(store.flash.image));
  }

  lemma InUse(store: Store)
    requires store.Synced()
    ensures Clean(store.flash.image, store.flash.programmed) && store.page < 2
    ensures Chosen(store.flash.image) == if store.active then store.page else -1
    ensures store.active && !store.full ==> store.used == Scan(store.flash.image[store.page]).used
  {
    hide Chosen, Clean, TablesOk, Legible, ScanFrom, Table;
  }

  lemma LinkedNext(log: seq<Attempt>, first: Image, a: Attempt)
    requires Linked(log, first, a.before)
    ensures Linked(log + [a], first, a.after)
  {
  }

  lemma SparingNext(log: seq<Attempt>, a: Attempt)
    requires Sparing(log) && (Fits(a) && a.faults == 0 && !Spoiled(log) ==> Appends(a))
    ensures Sparing(log + [a])
  {
    hide Fits, Appends, Spoiled;
    forall i | 0 <= i < |log + [a]| && Fits((log + [a])[i]) && (log + [a])[i].faults == 0 && !Spoiled((log + [a])[..i])
      ensures Appends((log + [a])[i])
    {
      assert (log + [a])[..i] == log[..i];
      assert log[..|log|] == log;
    }
  }

  lemma SpoiledNext(log: seq<Attempt>, a: Attempt, rtype: u8, data: seq<u8>, r: StoreResult)
    requires Accounted(a, rtype, data, r)
    ensures Spoiled(log + [a]) == if r == BadArgument then Spoiled(log) else r != StoreOk
  {
    assert (log + [a])[..|log + [a]| - 1] == log;
  }

  // A reset, and what start-up finds.
  method Restart(flash: Flash) returns (store: Store)
    requires Clean(flash.image, flash.programmed)
    modifies flash`powered
    ensures fresh(store) && fresh(store.recordWord) && fresh(store.recordLength) && store.flash == flash
    ensures flash.powered && store.Synced() && !store.full && store.Held() == Stored(flash.image)
  {
    hide Chosen, Clean, Stored, Scan, HeldIn, Table, TablesOk, Legible;
    flash.PowerOn();
    store := new Store(flash);
    CleanLegible(flash.image, flash.programmed);
    store.Init();
  }

  lemma NewLife(flash: Flash)
    requires flash.image == [ERASED_PAGE, ERASED_PAGE] && flash.programmed == {}
    ensures Clean(flash.image, flash.programmed) && Explains([], Stored(flash.image)) && FaultsIn([]) == 0
    ensures Linked([], flash.image, flash.image) && Sparing([])
  {
    NewFlash(flash.image);
  }

  lemma FaultsNext(log: seq<Attempt>, a: Attempt)
    ensures FaultsIn(log + [a]) == FaultsIn(log) + a.faults
  {
    assert (log + [a])[..|log + [a]| - 1] == log;
  }

  /** With no fault in its flash a life completes every write that could be made,
      so each type holds what was last written to it. */
  lemma NothingFails(log: seq<Attempt>, script: seq<(u8, seq<u8>)>, results: seq<StoreResult>, held: map<nat, seq<u8>>)
    requires |log| == |results| == |script| && Explains(log, held) && FaultsIn(log) == 0
    requires forall i :: 0 <= i < |log| ==> Accounted(log[i], script[i].0, script[i].1, results[i])
    ensures forall i :: 0 <= i < |script| && Acceptable(script[i].0, script[i].1) ==> results[i] == StoreOk
    ensures forall i :: 0 <= i < |script| && Acceptable(script[i].0, script[i].1) && LastOfType(script, i) ==>
              script[i].0 in held && held[script[i].0] == script[i].1
  {
    hide Acceptable, Explains;
    forall i | 0 <= i < |script| && Acceptable(script[i].0, script[i].1)
      ensures results[i] == StoreOk
      ensures LastOfType(script, i) ==> script[i].0 in held && held[script[i].0] == script[i].1
    {
      NoFaults(log, i);
      if LastOfType(script, i) {
        HeldIsLast(log, held, i);
      }
    }
  }

  /** ... and erases a page only for a record that does not fit. */
  lemma ErasedWhenFull(log: seq<Attempt>, script: seq<(u8, seq<u8>)>, results: seq<StoreResult>)
    requires |log| == |results| == |script| && FaultsIn(log) == 0 && Sparing(log)
    requires forall i :: 0 <= i < |log| ==> Accounted(log[i], script[i].0, script[i].1, results[i])
    ensures forall i :: 0 <= i < |log| && Fits(log[i]) ==> Appends(log[i])
  {
    hide Fits, Appends;
    forall i | 0 <= i < |log| && Fits(log[i])
      ensures Appends(log[i])
    {
      NoFaults(log, i);
      NeverSpoiled(log, script, results, i);
    }
  }

  lemma {:induction false} NeverSpoiled(log: seq<Attempt>, script: seq<(u8, seq<u8>)>, results: seq<StoreResult>, i: nat)
    requires |log| == |results| == |script| && FaultsIn(log) == 0 && i <= |log|
    requires forall k :: 0 <= k < |log| ==> Accounted(log[k], script[k].0, script[k].1, results[k])
    ensures !Spoiled(log[..i])
  {
    if i > 0 {
      NoFaults(log, i - 1);
      NeverSpoiled(log, script, results, i - 1);
      assert log[..i] == log[..i - 1] + [log[i - 1]];
      SpoiledNext(log[..i - 1], log[i - 1], script[i - 1].0, script[i - 1].1, results[i - 1]);
    }
  }

  predicate LastOfType(script: seq<(u8, seq<u8>)>, i: nat)
    requires i < |script|
  {
    forall j :: i < j < |script| ==> script[j].0 != script[i].0
  }

  lemma {:induction false} NoFaults(log: seq<Attempt>, i: nat)
    requires i < |log| && FaultsIn(log) == 0
    ensures log[i].faults == 0
  {
    if i < |log| - 1 {
      NoFaults(log[..|log| - 1], i);
    }
  }

  lemma HeldIsLast(log: seq<Attempt>, held: map<nat, seq<u8>>, i: nat)
    requires Explains(log, held) && i < |log| && log[i].completed
    requires forall j :: i < j < |log| ==> log[j].rtype != log[i].rtype
    ensures log[i].rtype in held && held[log[i].rtype] == log[i].data
  {
    var t := log[i].rtype;
    var k :| 0 <= k < |log| && Source(log, k, t, held[t]);
    assert k <= i;
  }

  lemma NewFlash(image: Image)
    requires image == [ERASED_PAGE, ERASED_PAGE]
    ensures Chosen(image) == -1 && Stored(image) == map[] && Clean(image, {})
  {
  }

  lemma CleanLegible(image: Image, programmed: set<(nat, nat)>)
    requires Clean(image, programmed)
    ensures var c := Chosen(image); c >= 0 ==> Legible(image[c], programmed, c, Scan(image[c]).used)
  {
    hide Chosen, ScanFrom;
  }
}
