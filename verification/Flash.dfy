/** The contract of the program flash (drivers/flash.h) under the store: two
    erase pages, programmed in double words. Power may go at any
    operation; a double word is written or not, but an erase can stop half way. */
module FlashMemory {
  import opened MachineWords
  import opened StoreFormat

  const PAGE_ADDRESSES: nat := 0x800
  const STORE_BASE: nat := 0x029800
  const STORE_END: nat := STORE_BASE + 2 * PAGE_ADDRESSES

  datatype FlashResult = FlashOk | FlashFailed

  predicate InStore(address: nat, alignment: nat)
    requires alignment > 0
  {
    STORE_BASE <= address < STORE_END && address % alignment == 0
  }

  function WordAddress(page: nat, word: nat): nat {
    STORE_BASE + page * PAGE_ADDRESSES + 2 * word
  }

  function PageOf(address: nat): (p: nat)
    requires InStore(address, 2)
    ensures p < 2
  {
    (address - STORE_BASE) / PAGE_ADDRESSES
  }

  function WordOf(address: nat): (w: nat)
    requires InStore(address, 2)
    ensures w < PAGE_WORDS
  {
    (address - STORE_BASE) % PAGE_ADDRESSES / 2
  }

  lemma AddressRoundTrip(page: nat, word: nat)
    requires page < 2 && word < PAGE_WORDS && word % 2 == 0
    ensures InStore(WordAddress(page, word), 4)
    ensures PageOf(WordAddress(page, word)) == page && WordOf(WordAddress(page, word)) == word
    ensures word == 0 ==> InStore(WordAddress(page, word), PAGE_ADDRESSES)
  {
  }

  /** How an operation goes: as it should, failing, or being the last before the
      power goes. */
  datatype Course = Fine | Failing | Cut(done: bool)

  /** The operations among the first n that do not go as they should. */
  ghost function Troubles(plan: nat -> Course, n: nat): nat {
    if n == 0 then 0 else Troubles(plan, n - 1) + if plan(n - 1) == Fine then 0 else 1
  }

  class Flash {
    var image: Image
    // False from the moment power is lost: nothing more happens, and what
    // the caller does next only stands for code that never ran.
    var powered: bool
    // How each operation will go, and how many there have been.
    const plan: nat -> Course
    var ops: nat
    // The double words (by page and first word) programmed since their page
    // was last erased.
    ghost var programmed: set<(nat, nat)>

    /** The operations so far that failed, were cut short, or did not do all they said. */
    ghost function Faults(): nat
      reads this`ops
    {
      Troubles(plan, ops)
    }

    constructor (plan: nat -> Course)
      ensures powered && image == [ERASED_PAGE, ERASED_PAGE] && programmed == {}
      ensures this.plan == plan && ops == 0
    {
      this.plan := plan;
      ops := 0;
      image := [ERASED_PAGE, ERASED_PAGE];
      powered := true;
      programmed := {};
    }

    /** After a reset: the flash is as it was left. */
    method PowerOn()
      modifies this`powered
      ensures powered
    {
      powered := true;
    }

    // The preconditions are the rule of flash.h: inside the store, aligned,
    // and not written since it was erased.
    method WriteDouble(address: nat, first: u16, second: u16) returns (r: FlashResult)
      requires InStore(address, 4)
      requires (PageOf(address), WordOf(address)) !in programmed
      requires image[PageOf(address)][WordOf(address)] == ERASED
      requires image[PageOf(address)][WordOf(address) + 1] == ERASED
      modifies this
      ensures powered ==> old(powered)
      ensures r == FlashOk ==> powered
      ensures Faults() == old(Faults()) + if plan(old(ops)) == Fine then 0 else 1
      ensures r == FlashOk <==> old(powered) && plan(old(ops)) == Fine
      ensures var page, word := PageOf(address), WordOf(address);
        || (image == old(image) && programmed == old(programmed) && r == FlashFailed)
        || (image == old(image)[page := Burn(old(image)[page], word, [first, second])] &&
            programmed == old(programmed) + {(page, word)} && (r == FlashOk || !powered))
      ensures !old(powered) ==> image == old(image)
    {
      var page, word := PageOf(address), WordOf(address);
      var course := plan(ops);
      var done := powered && (course == Fine || course == Cut(true));
      ops := ops + 1;
      if done {
        image := image[page := Burn(image[page], word, [first, second])];
        programmed := programmed + {(page, word)};
      }
      powered := powered && !course.Cut?;
      r := if done && powered then FlashOk else FlashFailed;
    }

    // An erase that fails or is cut short leaves anything at all in the page,
    // except a good header that was not there before. One that says it
    // succeeded may not have: the store reads the page back.
    method ErasePage(address: nat) returns (r: FlashResult)
      requires InStore(address, PAGE_ADDRESSES)
      modifies this
      ensures powered ==> old(powered)
      ensures r == FlashOk ==> powered
      ensures Faults() == old(Faults()) + if plan(old(ops)) == Fine then 0 else 1
      ensures old(powered) && plan(old(ops)) == Fine ==> r == FlashOk && Blank(image[PageOf(address)], 0)
      ensures var page := PageOf(address);
        && image[1 - page] == old(image)[1 - page]
        && (image[page][..HEADER_WORDS] == old(image)[page][..HEADER_WORDS] || !HeaderValid(image[page]))
        && programmed <= old(programmed)
        && (forall x :: x in old(programmed) && x.0 != page ==> x in programmed)
        && (Blank(image[page], 0) && r == FlashOk ==> forall x :: x in programmed ==> x.0 != page)
      ensures !old(powered) ==> image == old(image)
    {
      var page := PageOf(address);
      var left: Page, says: bool := *, *;
      var course := plan(ops);
      ops := ops + 1;
      if course == Fine {
        left, says := ERASED_PAGE, true;
      }
      if powered && (left[..HEADER_WORDS] == image[page][..HEADER_WORDS] || !HeaderValid(left)) {
        image := image[page := left];
        if Blank(left, 0) {
          programmed := set x | x in programmed && x.0 != page;
        }
      } else {
        says := false;
      }
      powered := powered && !course.Cut?;
      r := if powered && says then FlashOk else FlashFailed;
    }
  }
}
