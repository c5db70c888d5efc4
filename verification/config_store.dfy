/**
 * The configuration store of config.c: a single flash page laid out as
 * ENTRY_COUNT status words followed by ENTRY_COUNT record slots. Slots are
 * used one after the other; the slot marked IN_USE holds the current
 * configuration, OLD slots are superseded, FREE slots are still erased. When
 * no slot is free the page is erased and the save starts over.
 *
 * The page is `flash.words`; the RAM configuration `config` is a field of
 * `Store`. Specification functions over the page contents (a `seq<u16>`)
 * say what load and a successful save compute; the lemmas at the end state
 * the properties of load and save: what load returns after a save, after
 * each kind of failed save, and that at most one slot stays IN_USE.
 */
module ConfigStore {
  import opened Words
  import opened ConfigRecord
  import opened FlashDevice

  // Slot status words (config.c:27-28).
  const FREE: u16 := 0xffff
  const IN_USE: u16 := 0x5555
  const OLD: u16 := 0x0000

  /** CONFIG_PAGE_SIZE / (sizeof(config_entry_t) + sizeof(uint16_t)), see EntryCountFitsPage. */
  const ENTRY_COUNT: nat := 8

  /** Eight slots: as many records and their status words as fit into the page. */
  lemma EntryCountFitsPage()
    ensures ENTRY_COUNT == CONFIG_PAGE_SIZE / (2 * RECORD_WORDS + 2)
    ensures ENTRY_COUNT * (RECORD_WORDS + 1) <= PAGE_WORDS
  {
    assert RECORD_WORDS == 61;
  }

  /** The error_t values these functions return. */
  datatype Error = Success | NoConfig | FlashWrite

  /** Where a save stopped: at the erase, copying the record, retiring the old slot, promoting the new one, or not at all. */
  datatype Phase = Erase | Copy | Retire | Promote | Done

  /** Word offset of a slot's record: the status words come first. */
  function EntryAddr(slot: nat): (a: nat)
    requires slot < ENTRY_COUNT
    ensures ENTRY_COUNT <= a && a + RECORD_WORDS <= PAGE_WORDS
  {
    ENTRY_COUNT + slot * RECORD_WORDS
  }

  /** The record words of two different slots do not overlap. */
  lemma SlotsDisjoint(a: nat, b: nat)
    requires a < ENTRY_COUNT && b < ENTRY_COUNT && a != b
    ensures EntryAddr(a) + RECORD_WORDS <= EntryAddr(b) || EntryAddr(b) + RECORD_WORDS <= EntryAddr(a)
  {
    assert RECORD_WORDS == 61;
  }

  /** The half-words of a slot's record. */
  function SlotWords(page: seq<u16>, slot: nat): (ws: seq<u16>)
    requires |page| == PAGE_WORDS && slot < ENTRY_COUNT
    ensures |ws| == RECORD_WORDS
  {
    page[EntryAddr(slot) .. EntryAddr(slot) + RECORD_WORDS]
  }

  /** The lowest slot below `n` whose status is `v`, or -1. */
  function FirstBelow(page: seq<u16>, v: u16, n: nat): (k: int)
    requires n <= |page|
    ensures -1 <= k < n
    ensures k == -1 <==> forall i :: 0 <= i < n ==> page[i] != v
    ensures k != -1 ==> page[k] == v && forall i :: 0 <= i < k ==> page[i] != v
  {
    if n == 0 then -1
    else
      var k := FirstBelow(page, v, n - 1);
      if k != -1 then k else if page[n - 1] == v then n - 1 else -1
  }

  /** The highest slot below `n` whose status is `v`, or -1. */
  function LastBelow(page: seq<u16>, v: u16, n: nat): (k: int)
    requires n <= |page|
    ensures -1 <= k < n
    ensures k == -1 <==> forall i :: 0 <= i < n ==> page[i] != v
    ensures k != -1 ==> page[k] == v && forall i :: k < i < n ==> page[i] != v
  {
    if n == 0 then -1
    else if page[n - 1] == v then n - 1
    else LastBelow(page, v, n - 1)
  }

  /** What load_config reads from a page: the record of the first IN_USE slot, if any. */
  function Loaded(page: seq<u16>): Option<Record>
    requires |page| == PAGE_WORDS
  {
    var k := FirstBelow(page, IN_USE, ENTRY_COUNT);
    if k == -1 then None else Some(Decode(SlotWords(page, k)))
  }

  /** The single-authority invariant of the page. */
  predicate AtMostOneInUse(page: seq<u16>)
    requires |page| == PAGE_WORDS
  {
    forall i, j :: 0 <= i < j < ENTRY_COUNT ==> !(page[i] == IN_USE && page[j] == IN_USE)
  }

  /** The page after a verified erase. */
  function ErasedPage(): (p: seq<u16>)
    ensures |p| == PAGE_WORDS
  {
    seq(PAGE_WORDS, _ => ERASED)
  }

  /** The page a save writes into: the page itself, or the erased page when no slot is free. */
  function SaveBase(page: seq<u16>): (base: seq<u16>)
    requires |page| == PAGE_WORDS
    ensures |base| == PAGE_WORDS
    ensures FirstBelow(base, FREE, ENTRY_COUNT) != -1
  {
    if FirstBelow(page, FREE, ENTRY_COUNT) == -1 then
      var p := ErasedPage();
      assert p[0] == FREE;
      p
    else page
  }

  /** `page` with the record words of `slot` replaced by `ws`. */
  function WithWords(page: seq<u16>, slot: nat, ws: seq<u16>): (p: seq<u16>)
    requires |page| == PAGE_WORDS && slot < ENTRY_COUNT && |ws| == RECORD_WORDS
    ensures |p| == PAGE_WORDS
    ensures SlotWords(p, slot) == ws
    ensures forall j :: 0 <= j < PAGE_WORDS && !(EntryAddr(slot) <= j < EntryAddr(slot) + RECORD_WORDS) ==> p[j] == page[j]
  {
    page[..EntryAddr(slot)] + ws + page[EntryAddr(slot) + RECORD_WORDS..]
  }

  /** `page` with `rec` copied into the record words of `slot`. */
  function WithRecord(page: seq<u16>, slot: nat, rec: Record): (p: seq<u16>)
    requires |page| == PAGE_WORDS && slot < ENTRY_COUNT
    ensures |p| == PAGE_WORDS
    ensures SlotWords(p, slot) == Encode(rec)
    ensures forall j :: 0 <= j < PAGE_WORDS && !(EntryAddr(slot) <= j < EntryAddr(slot) + RECORD_WORDS) ==> p[j] == page[j]
  {
    WithWords(page, slot, Encode(rec))
  }

  /** `last` marked OLD (when there is one), then `unused` marked IN_USE. */
  function MarkSlots(page: seq<u16>, unused: nat, last: int): seq<u16>
    requires |page| == PAGE_WORDS && unused < ENTRY_COUNT && -1 <= last < ENTRY_COUNT
  {
    var q := if last == -1 then page else page[last := OLD];
    q[unused := IN_USE]
  }

  /** The page after a save of `rec` that met no fault. */
  function SavedPage(page: seq<u16>, rec: Record): seq<u16>
    requires |page| == PAGE_WORDS
  {
    var base := SaveBase(page);
    var unused := FirstBelow(base, FREE, ENTRY_COUNT);
    MarkSlots(WithRecord(base, unused, rec), unused, LastBelow(base, IN_USE, ENTRY_COUNT))
  }

  /**
   * What a save of `rec` into `page` leaves behind, `p`, by where it stopped:
   * the saved page when nothing failed; after a failed record copy, the page
   * load read before (on the erased page when the save had to erase); after
   * a failed OLD write, the old record or nothing; after a failed IN_USE
   * write, nothing or the new record. Except after a failed erase, a page
   * with at most one IN_USE slot keeps at most one.
   */
  predicate SaveOutcome(page: seq<u16>, rec: Record, stop: Phase, p: seq<u16>)
    requires |page| == PAGE_WORDS && |p| == PAGE_WORDS
  {
    && (stop == Done ==> p == SavedPage(page, rec))
    && (stop == Copy ==> Loaded(p) == Loaded(SaveBase(page)))
    && (stop == Retire && AtMostOneInUse(page) ==> Loaded(p) == Loaded(SaveBase(page)) || Loaded(p) == None)
    && (stop == Promote && AtMostOneInUse(page) ==> Loaded(p) == None || Loaded(p) == Some(rec))
    && (stop != Erase && AtMostOneInUse(page) ==> AtMostOneInUse(p))
  }

  /** The scan of load_config: the first IN_USE slot, or -1. */
  method FindInUse(page: array<u16>) returns (inUse: int)
    requires page.Length == PAGE_WORDS
    ensures inUse == FirstBelow(page[..], IN_USE, ENTRY_COUNT)
  {
    inUse := -1;
    var entry := 0;
    while entry < ENTRY_COUNT
      invariant 0 <= entry <= ENTRY_COUNT
      invariant FirstBelow(page[..], IN_USE, entry) == -1
    {
      if page[entry] == IN_USE {
        inUse := entry;
        break;
      }
      entry := entry + 1;
    }
  }

  /** The scan of save_config: the last IN_USE slot and the first FREE slot, each -1 if absent. */
  method ScanSlots(page: array<u16>) returns (lastInUse: int, unused: int)
    requires page.Length == PAGE_WORDS
    ensures lastInUse == LastBelow(page[..], IN_USE, ENTRY_COUNT)
    ensures unused == FirstBelow(page[..], FREE, ENTRY_COUNT)
  {
    lastInUse, unused := -1, -1;
    var entry := 0;
    while entry < ENTRY_COUNT
      invariant 0 <= entry <= ENTRY_COUNT
      invariant lastInUse == LastBelow(page[..], IN_USE, entry)
      invariant unused == FirstBelow(page[..], FREE, entry)
    {
      if page[entry] == IN_USE {
        lastInUse := entry;
      }
      if page[entry] == FREE && unused == -1 {
        unused := entry;
      }
      entry := entry + 1;
    }
  }

  /** The verification pass of the erase: does every word of the page read 0xffff? */
  method VerifyErased(page: array<u16>) returns (ok: bool)
    requires page.Length == PAGE_WORDS
    ensures ok <==> forall i :: 0 <= i < PAGE_WORDS ==> page[i] == ERASED
  {
    var i := 0;
    while i < PAGE_WORDS
      invariant 0 <= i <= PAGE_WORDS
      invariant forall j :: 0 <= j < i ==> page[j] == ERASED
    {
      if page[i] != ERASED {
        return false;
      }
      i := i + 1;
    }
    return true;
  }

  class Store {
    /** The configuration in RAM, `config`. */
    var config: Record
    /** The flash that holds `config_page`. */
    const flash: Flash

    ghost predicate Valid()
      reads this, flash
    {
      flash.Valid()
    }

    constructor (flash: Flash)
      requires flash.Valid()
      ensures Valid() && this.flash == flash && config == DEFAULT_CONFIG
    {
      this.flash := flash;
      config := DEFAULT_CONFIG;
    }

    /** load_config: copy the first IN_USE slot into `config`, or report that there is none. */
    method LoadConfig() returns (e: Error)
      requires Valid()
      modifies this
      ensures Valid()
      ensures Loaded(flash.words[..]) == None ==> e == NoConfig && config == old(config)
      ensures Loaded(flash.words[..]).Some? ==> e == Success && config == Loaded(flash.words[..]).value
    {
      var inUse := FindInUse(flash.words);
      if inUse == -1 {
        return NoConfig;
      }
      config := Decode(flash.words[EntryAddr(inUse) .. EntryAddr(inUse) + RECORD_WORDS]);
      return Success;
    }

    /** flash_write_check: program one word, then check the error flags and read the word back. */
    method FlashWriteCheck(addr: int, value: u16) returns (e: Error)
      requires Valid()
      modifies flash, flash.words
      ensures Valid()
      ensures flash.ops == old(flash.ops) + 1 && flash.erases == old(flash.erases)
      ensures var held := Held(flash.oracle(old(flash.ops)), addr, value);
        && (0 <= addr < PAGE_WORDS ==>
              flash.words[..] == old(flash.words[..])[addr := held] && flash.outside == old(flash.outside))
        && (!(0 <= addr < PAGE_WORDS) ==>
              flash.words[..] == old(flash.words[..]) && flash.outside == old(flash.outside) + [(addr, held)])
        && (e == Success <==> !flash.oracle(old(flash.ops)).errorFlag && held == value)
      ensures e == Success || e == FlashWrite
      ensures e == FlashWrite ==> flash.LastFaulted()
      ensures e == Success ==> NoErrorFlag(flash.oracle, old(flash.ops), flash.ops)
    {
      var errorFlag, held := flash.Program(addr, value);
      if errorFlag {
        return FlashWrite;
      }
      if held != value {
        return FlashWrite;
      }
      return Success;
    }

    /** flash_erase_config_page: erase the page, check the error flags, then check every word. */
    method FlashEraseConfigPage() returns (e: Error)
      requires Valid()
      modifies flash, flash.words
      ensures Valid()
      ensures flash.ops == old(flash.ops) + 1 && flash.erases == old(flash.erases) + 1
      ensures flash.outside == old(flash.outside)
      ensures flash.words[..] == ErasedImage(flash.oracle(old(flash.ops)))
      ensures e == Success || e == FlashWrite
      ensures e == Success <==> !flash.oracle(old(flash.ops)).errorFlag && flash.words[..] == ErasedPage()
      ensures e == FlashWrite ==> flash.LastFaulted()
      ensures e == Success ==> NoErrorFlag(flash.oracle, old(flash.ops), flash.ops)
    {
      var errorFlag := flash.ErasePage();
      if errorFlag {
        return FlashWrite;
      }
      var ok := VerifyErased(flash.words);
      if ok {
        assert flash.words[..] == ErasedPage();
      }
      e := if ok then Success else FlashWrite;
    }

    /**
     * The slot search of save_config: the last IN_USE and the first FREE
     * slot; when no slot is free, the page is erased and the search is made
     * again on the erased page.
     */
    method FindFreeSlot() returns (e: Error, lastInUse: int, unused: int)
      requires Valid()
      modifies flash, flash.words
      ensures Valid()
      ensures flash.outside == old(flash.outside)
      ensures flash.erases == old(flash.erases) + if FirstBelow(old(flash.words[..]), FREE, ENTRY_COUNT) == -1 then 1 else 0
      ensures e == Success || e == FlashWrite
      ensures e == FlashWrite ==> FirstBelow(old(flash.words[..]), FREE, ENTRY_COUNT) == -1
      ensures flash.ops >= old(flash.ops)
      ensures e == FlashWrite ==> flash.ops > old(flash.ops) && flash.LastFaulted()
      ensures e == FlashWrite ==> flash.words[..] == ErasedImage(flash.oracle(old(flash.ops)))
      ensures e == Success ==> NoErrorFlag(flash.oracle, old(flash.ops), flash.ops)
      ensures e == Success ==>
        && flash.words[..] == SaveBase(old(flash.words[..]))
        && unused == FirstBelow(flash.words[..], FREE, ENTRY_COUNT)
        && lastInUse == LastBelow(flash.words[..], IN_USE, ENTRY_COUNT)
    {
      ghost var initial := flash.words[..];
      lastInUse, unused := ScanSlots(flash.words);
      var retried := false;
      // save_config calls itself after a verified erase; the call is this
      // loop, whose body runs at most once.
      while unused == -1
        invariant Valid()
        invariant flash.outside == old(flash.outside)
        invariant lastInUse == LastBelow(flash.words[..], IN_USE, ENTRY_COUNT)
        invariant unused == FirstBelow(flash.words[..], FREE, ENTRY_COUNT)
        invariant !retried ==> flash.words[..] == initial && flash.ops == old(flash.ops) && flash.erases == old(flash.erases)
        invariant retried ==> flash.words[..] == ErasedPage() && flash.erases == old(flash.erases) + 1
        invariant flash.ops >= old(flash.ops)
        invariant NoErrorFlag(flash.oracle, old(flash.ops), flash.ops)
        invariant retried ==> FirstBelow(initial, FREE, ENTRY_COUNT) == -1
        decreases if retried then 0 else 1
      {
        e := FlashEraseConfigPage();
        if e != Success {
          return;
        }
        lastInUse, unused := ScanSlots(flash.words);
        retried := true;
      }
      e := Success;
    }

    /** The copy loop of save_config: `ws`, half-word by half-word, into the record words of `slot`. */
    method CopyRecord(slot: int, ws: seq<u16>) returns (e: Error)
      requires Valid() && 0 <= slot < ENTRY_COUNT && |ws| == RECORD_WORDS
      modifies flash, flash.words
      ensures Valid()
      ensures flash.outside == old(flash.outside) && flash.erases == old(flash.erases)
      ensures flash.ops >= old(flash.ops)
      ensures e == Success || e == FlashWrite
      ensures e == FlashWrite ==> flash.ops > old(flash.ops) && flash.LastFaulted()
      ensures e == Success ==> flash.words[..] == WithWords(old(flash.words[..]), slot, ws)
      ensures e == Success ==> NoErrorFlag(flash.oracle, old(flash.ops), flash.ops)
      ensures forall j :: 0 <= j < PAGE_WORDS && !(EntryAddr(slot) <= j < EntryAddr(slot) + RECORD_WORDS) ==>
        flash.words[j] == old(flash.words[j])
    {
      ghost var before := flash.words[..];
      var dest := EntryAddr(slot);
      var i := 0;
      while i < RECORD_WORDS
        invariant 0 <= i <= RECORD_WORDS
        invariant Valid()
        invariant flash.outside == old(flash.outside) && flash.erases == old(flash.erases)
        invariant flash.ops >= old(flash.ops)
        invariant NoErrorFlag(flash.oracle, old(flash.ops), flash.ops)
        invariant forall j :: 0 <= j < PAGE_WORDS ==>
          flash.words[j] == if dest <= j < dest + i then ws[j - dest] else before[j]
      {
        e := FlashWriteCheck(dest + i, ws[i]);
        if e != Success {
          return;
        }
        i := i + 1;
      }
      assert flash.words[..] == WithWords(before, slot, ws);
      e := Success;
    }

    /**
     * The part of save_config before the status writes: find a free slot
     * (erasing when there is none) and copy `config` into it.
     */
    method WriteRecord() returns (e: Error, ghost stop: Phase, lastInUse: int, unused: int)
      requires Valid()
      modifies flash, flash.words
      ensures Valid()
      ensures flash.outside == old(flash.outside)
      ensures flash.erases == old(flash.erases) + if FirstBelow(old(flash.words[..]), FREE, ENTRY_COUNT) == -1 then 1 else 0
      ensures flash.ops >= old(flash.ops)
      ensures e == Success || e == FlashWrite
      ensures e == FlashWrite ==> flash.ops > old(flash.ops) && flash.LastFaulted()
      ensures stop == Erase || stop == Copy || stop == Done
      ensures e == Success <==> stop == Done
      ensures e == Success ==> NoErrorFlag(flash.oracle, old(flash.ops), flash.ops)
      ensures stop == Erase ==> FirstBelow(old(flash.words[..]), FREE, ENTRY_COUNT) == -1
      ensures stop == Erase ==> flash.words[..] == ErasedImage(flash.oracle(old(flash.ops)))
      ensures stop == Copy ==> SaveOutcome(old(flash.words[..]), config, stop, flash.words[..])
      ensures stop == Done ==>
        var base := SaveBase(old(flash.words[..]));
        && unused == FirstBelow(base, FREE, ENTRY_COUNT)
        && lastInUse == LastBelow(base, IN_USE, ENTRY_COUNT)
        && flash.words[..] == WithRecord(base, unused, config)
    {
      ghost var base := SaveBase(flash.words[..]);
      e, lastInUse, unused := FindFreeSlot();
      if e != Success {
        stop := Erase;
        return;
      }
      e := CopyRecord(unused, Encode(config));
      if e != Success {
        stop := Copy;
        CopyFailureKeepsLoad(base, flash.words[..], unused);
        AtMostOneKeptByErase(old(flash.words[..]));
        return;
      }
      stop := Done;
    }

    /** The status writes of save_config, as evidently intended: OLD only when there is a previous slot. */
    method MarkStatuses(lastInUse: int, unused: int) returns (e: Error, ghost stop: Phase)
      requires Valid() && 0 <= unused < ENTRY_COUNT && -1 <= lastInUse < ENTRY_COUNT && lastInUse != unused
      modifies flash, flash.words
      ensures Valid()
      ensures flash.outside == old(flash.outside) && flash.erases == old(flash.erases)
      ensures flash.ops >= old(flash.ops)
      ensures e == Success || e == FlashWrite
      ensures e == FlashWrite ==> flash.ops > old(flash.ops) && flash.LastFaulted()
      ensures stop == Retire || stop == Promote || stop == Done
      ensures e == Success <==> stop == Done
      ensures e == Success ==> NoErrorFlag(flash.oracle, old(flash.ops), flash.ops)
      ensures stop == Done ==> flash.words[..] == MarkSlots(old(flash.words[..]), unused, lastInUse)
      ensures stop == Retire ==>
        lastInUse != -1 && flash.words[..] == old(flash.words[..])[lastInUse := flash.words[lastInUse]]
      ensures stop == Promote ==>
        var q := if lastInUse == -1 then old(flash.words[..]) else old(flash.words[..])[lastInUse := OLD];
        flash.words[..] == q[unused := flash.words[unused]]
    {
      if lastInUse != -1 {
        e := FlashWriteCheck(lastInUse, OLD);
        if e != Success {
          stop := Retire;
          return;
        }
      }
      e := FlashWriteCheck(unused, IN_USE);
      stop := if e == Success then Done else Promote;
    }

    /**
     * The status writes of save_config as written: OLD goes to
     * `entry_status + last_in_use` even when `last_in_use` is -1, which is
     * the word just before the page (config.c:230).
     */
    method MarkStatusesAsWritten(lastInUse: int, unused: int) returns (e: Error, ghost stop: Phase)
      requires Valid() && 0 <= unused < ENTRY_COUNT && -1 <= lastInUse < ENTRY_COUNT && lastInUse != unused
      modifies flash, flash.words
      ensures Valid()
      ensures flash.erases == old(flash.erases)
      ensures flash.ops >= old(flash.ops)
      ensures e == Success || e == FlashWrite
      ensures e == FlashWrite ==> flash.ops > old(flash.ops) && flash.LastFaulted()
      ensures stop == Retire || stop == Promote || stop == Done
      ensures e == Success <==> stop == Done
      ensures e == Success ==> NoErrorFlag(flash.oracle, old(flash.ops), flash.ops)
      ensures lastInUse != -1 ==> flash.outside == old(flash.outside)
      ensures lastInUse == -1 ==>
        && |flash.outside| == |old(flash.outside)| + 1
        && flash.outside[..|old(flash.outside)|] == old(flash.outside)
        && flash.outside[|old(flash.outside)|].0 == -1
      ensures stop == Done ==> flash.words[..] == MarkSlots(old(flash.words[..]), unused, lastInUse)
      ensures stop == Done ==> flash.outside == old(flash.outside) + if lastInUse == -1 then [(-1, OLD)] else []
      ensures stop == Retire && lastInUse == -1 ==> flash.words[..] == old(flash.words[..])
      ensures stop == Retire && lastInUse != -1 ==>
        flash.words[..] == old(flash.words[..])[lastInUse := flash.words[lastInUse]]
      ensures stop == Promote ==>
        var q := if lastInUse == -1 then old(flash.words[..]) else old(flash.words[..])[lastInUse := OLD];
        flash.words[..] == q[unused := flash.words[unused]]
    {
      e := FlashWriteCheck(lastInUse, OLD);
      if e != Success {
        stop := Retire;
        return;
      }
      e := FlashWriteCheck(unused, IN_USE);
      stop := if e == Success then Done else Promote;
    }

    /**
     * save_config with the status words written as evidently intended: the
     * old slot is marked OLD only when there is one, then the new slot is
     * marked IN_USE. No word outside the page is ever written.
     */
    method SaveConfig() returns (e: Error, ghost stop: Phase)
      requires Valid()
      modifies flash, flash.words
      ensures Valid()
      ensures flash.outside == old(flash.outside)
      ensures flash.erases == old(flash.erases) + if FirstBelow(old(flash.words[..]), FREE, ENTRY_COUNT) == -1 then 1 else 0
      ensures e == Success || e == FlashWrite
      ensures e == Success <==> stop == Done
      ensures e == Success ==> flash.words[..] == SavedPage(old(flash.words[..]), config)
      ensures e == Success ==> NoErrorFlag(flash.oracle, old(flash.ops), flash.ops)
      ensures e == FlashWrite ==> flash.ops > old(flash.ops) && flash.LastFaulted()
      ensures stop == Erase ==> FirstBelow(old(flash.words[..]), FREE, ENTRY_COUNT) == -1
      ensures stop == Erase ==> flash.words[..] == ErasedImage(flash.oracle(old(flash.ops)))
      ensures SaveOutcome(old(flash.words[..]), config, stop, flash.words[..])
    {
      ghost var initial := flash.words[..];
      var lastInUse, unused;
      e, stop, lastInUse, unused := WriteRecord();
      if e != Success {
        return;
      }
      ghost var before := flash.words[..];
      e, stop := MarkStatuses(lastInUse, unused);
      MarkOutcome(initial, config, unused, lastInUse, before, flash.words[..], stop);
    }

    /**
     * save_config as written: the status word at `entry_status + last_in_use`
     * is set to OLD even when `last_in_use` is -1, which programs the word just
     * before the page (config.c:230). That happens on every save into a page
     * without an IN_USE slot, in particular on every save that had to erase.
     */
    method SaveConfigAsWritten() returns (e: Error, ghost stop: Phase)
      requires Valid()
      modifies flash, flash.words
      ensures Valid()
      ensures flash.erases == old(flash.erases) + if FirstBelow(old(flash.words[..]), FREE, ENTRY_COUNT) == -1 then 1 else 0
      ensures e == Success || e == FlashWrite
      ensures e == Success <==> stop == Done
      ensures e == Success ==> flash.words[..] == SavedPage(old(flash.words[..]), config)
      ensures e == Success ==> NoErrorFlag(flash.oracle, old(flash.ops), flash.ops)
      ensures e == Success ==>
        flash.outside == old(flash.outside) +
          (if LastBelow(SaveBase(old(flash.words[..])), IN_USE, ENTRY_COUNT) == -1 then [(-1, OLD)] else [])
      ensures e == FlashWrite ==> flash.ops > old(flash.ops) && flash.LastFaulted()
      ensures stop == Erase ==> FirstBelow(old(flash.words[..]), FREE, ENTRY_COUNT) == -1
      ensures stop == Erase ==> flash.words[..] == ErasedImage(flash.oracle(old(flash.ops)))
      ensures SaveOutcome(old(flash.words[..]), config, stop, flash.words[..])
    {
      ghost var initial := flash.words[..];
      var lastInUse, unused;
      e, stop, lastInUse, unused := WriteRecord();
      if e != Success {
        return;
      }
      ghost var before := flash.words[..];
      e, stop := MarkStatusesAsWritten(lastInUse, unused);
      MarkOutcome(initial, config, unused, lastInUse, before, flash.words[..], stop);
    }
  }

  // ---------------------------------------------------------------------
  // Properties of the page functions

  /**
   * What the status writes of a save leave on the page, for each place they
   * can stop: the saved page, or after a failed write a page that loads the
   * old record, the new one or nothing. Either way a page that had at most
   * one IN_USE slot still has at most one.
   */
  lemma MarkOutcome(initial: seq<u16>, rec: Record, u: int, l: int, before: seq<u16>, p: seq<u16>, stop: Phase)
    requires |initial| == PAGE_WORDS && |p| == PAGE_WORDS
    requires u == FirstBelow(SaveBase(initial), FREE, ENTRY_COUNT)
    requires l == LastBelow(SaveBase(initial), IN_USE, ENTRY_COUNT)
    requires before == WithRecord(SaveBase(initial), u, rec)
    requires stop == Retire || stop == Promote || stop == Done
    requires stop == Done ==> p == MarkSlots(before, u, l)
    requires stop == Retire && l == -1 ==> p == before
    requires stop == Retire && l != -1 ==> p == before[l := p[l]]
    requires stop == Promote ==> p == (if l == -1 then before else before[l := OLD])[u := p[u]]
    ensures SaveOutcome(initial, rec, stop, p)
  {
    var base := SaveBase(initial);
    AtMostOneKeptByErase(initial);
    if stop == Done {
      if AtMostOneInUse(initial) {
        SaveThenLoad(initial, rec);
      }
    } else if stop == Retire && l == -1 {
      CopyFailureKeepsLoad(base, p, u);
    } else if AtMostOneInUse(initial) {
      if stop == Retire {
        RetireFailure(base, u, l, rec, p);
      } else {
        PromoteFailure(base, u, l, rec, p);
      }
    }
  }

  /** Only the status words decide which slot load reads, and only that slot's words decide what it reads. */
  lemma {:induction false} FirstBelowSameStatuses(p: seq<u16>, q: seq<u16>, v: u16, n: nat)
    requires n <= |p| && n <= |q|
    requires forall i :: 0 <= i < n ==> p[i] == q[i]
    ensures FirstBelow(p, v, n) == FirstBelow(q, v, n)
  {
    if n > 0 {
      FirstBelowSameStatuses(p, q, v, n - 1);
    }
  }

  /** A page whose one IN_USE slot is `k` loads that slot's record. */
  lemma OnlyInUse(p: seq<u16>, k: nat)
    requires |p| == PAGE_WORDS && k < ENTRY_COUNT
    requires p[k] == IN_USE
    requires forall i :: 0 <= i < ENTRY_COUNT && i != k ==> p[i] != IN_USE
    ensures Loaded(p) == Some(Decode(SlotWords(p, k)))
    ensures AtMostOneInUse(p)
  {
  }

  /** A page whose first IN_USE slot is `k` loads that slot's record. */
  lemma FirstInUse(p: seq<u16>, k: nat)
    requires |p| == PAGE_WORDS && k < ENTRY_COUNT
    requires p[k] == IN_USE
    requires forall i :: 0 <= i < k ==> p[i] != IN_USE
    ensures Loaded(p) == Some(Decode(SlotWords(p, k)))
  {
  }

  /** A page without IN_USE slot loads nothing. */
  lemma NoneInUse(p: seq<u16>)
    requires |p| == PAGE_WORDS
    requires forall i :: 0 <= i < ENTRY_COUNT ==> p[i] != IN_USE
    ensures Loaded(p) == None
    ensures AtMostOneInUse(p)
  {
  }

  /** With at most one IN_USE slot, every slot other than the last IN_USE one is not IN_USE. */
  lemma OthersNotInUse(base: seq<u16>)
    requires |base| == PAGE_WORDS && AtMostOneInUse(base)
    ensures var l := LastBelow(base, IN_USE, ENTRY_COUNT);
      forall i :: 0 <= i < ENTRY_COUNT && i != l ==> base[i] != IN_USE
  {
  }

  /** Erasing a page that had no free slot keeps the single-authority invariant. */
  lemma AtMostOneKeptByErase(page: seq<u16>)
    requires |page| == PAGE_WORDS
    ensures AtMostOneInUse(page) ==> AtMostOneInUse(SaveBase(page))
  {
  }

  /**
   * A failed record copy leaves the status words and every other slot alone,
   * so load still reads what it read before the copy began.
   */
  lemma CopyFailureKeepsLoad(base: seq<u16>, p: seq<u16>, u: int)
    requires |base| == PAGE_WORDS && |p| == PAGE_WORDS && 0 <= u < ENTRY_COUNT
    requires base[u] == FREE
    requires forall j :: 0 <= j < PAGE_WORDS && !(EntryAddr(u) <= j < EntryAddr(u) + RECORD_WORDS) ==> p[j] == base[j]
    ensures Loaded(p) == Loaded(base)
    ensures AtMostOneInUse(base) ==> AtMostOneInUse(p)
  {
    FirstBelowSameStatuses(p, base, IN_USE, ENTRY_COUNT);
    var k := FirstBelow(base, IN_USE, ENTRY_COUNT);
    if k != -1 {
      SlotsDisjoint(k, u);
      assert SlotWords(p, k) == SlotWords(base, k);
    }
  }

  /** Writing a status word leaves every record word alone. */
  lemma StatusWriteKeepsSlot(p: seq<u16>, k: nat, v: u16, s: nat)
    requires |p| == PAGE_WORDS && k < ENTRY_COUNT && s < ENTRY_COUNT
    ensures SlotWords(p[k := v], s) == SlotWords(p, s)
  {
    assert forall j :: 0 <= j < RECORD_WORDS ==> SlotWords(p[k := v], s)[j] == SlotWords(p, s)[j];
  }

  /** Copying a record into one slot leaves every other slot and every status word alone. */
  lemma WithRecordKeepsOthers(base: seq<u16>, u: nat, rec: Record, s: nat)
    requires |base| == PAGE_WORDS && u < ENTRY_COUNT && s < ENTRY_COUNT
    ensures forall i :: 0 <= i < ENTRY_COUNT ==> WithRecord(base, u, rec)[i] == base[i]
    ensures s != u ==> SlotWords(WithRecord(base, u, rec), s) == SlotWords(base, s)
  {
    if s != u {
      SlotsDisjoint(s, u);
      var w := WithRecord(base, u, rec);
      assert forall j :: 0 <= j < RECORD_WORDS ==> SlotWords(w, s)[j] == SlotWords(base, s)[j];
    }
  }

  /** The status words and slots of a committed page. */
  lemma SavedShape(base: seq<u16>, u: nat, l: int, rec: Record, s: nat)
    requires |base| == PAGE_WORDS && u < ENTRY_COUNT && -1 <= l < ENTRY_COUNT && l != u && s < ENTRY_COUNT
    ensures var p := MarkSlots(WithRecord(base, u, rec), u, l);
      && |p| == PAGE_WORDS
      && (forall i :: 0 <= i < ENTRY_COUNT ==> p[i] == if i == u then IN_USE else if i == l then OLD else base[i])
      && SlotWords(p, u) == Encode(rec)
      && (s != u ==> SlotWords(p, s) == SlotWords(base, s))
  {
    var w := WithRecord(base, u, rec);
    WithRecordKeepsOthers(base, u, rec, s);
    var q := if l == -1 then w else w[l := OLD];
    if l != -1 {
      StatusWriteKeepsSlot(w, l, OLD, u);
      StatusWriteKeepsSlot(w, l, OLD, s);
    }
    StatusWriteKeepsSlot(q, u, IN_USE, u);
    StatusWriteKeepsSlot(q, u, IN_USE, s);
  }

  /** A failed OLD write leaves either the old record loadable or nothing. */
  lemma RetireFailure(base: seq<u16>, u: int, l: int, rec: Record, p: seq<u16>)
    requires |base| == PAGE_WORDS && AtMostOneInUse(base)
    requires u == FirstBelow(base, FREE, ENTRY_COUNT) && u != -1
    requires l == LastBelow(base, IN_USE, ENTRY_COUNT) && l != -1
    requires |p| == PAGE_WORDS && p == WithRecord(base, u, rec)[l := p[l]]
    ensures Loaded(p) == Loaded(base) || Loaded(p) == None
    ensures AtMostOneInUse(p)
  {
    OthersNotInUse(base);
    var w := WithRecord(base, u, rec);
    WithRecordKeepsOthers(base, u, rec, l);
    StatusWriteKeepsSlot(w, l, p[l], l);
    if p[l] == IN_USE {
      OnlyInUse(p, l);
      OnlyInUse(base, l);
    } else {
      NoneInUse(p);
    }
  }

  /** A failed IN_USE write leaves either nothing loadable or the new record. */
  lemma PromoteFailure(base: seq<u16>, u: int, l: int, rec: Record, p: seq<u16>)
    requires |base| == PAGE_WORDS && AtMostOneInUse(base)
    requires u == FirstBelow(base, FREE, ENTRY_COUNT) && u != -1
    requires l == LastBelow(base, IN_USE, ENTRY_COUNT)
    requires |p| == PAGE_WORDS
    requires var w := WithRecord(base, u, rec);
      p == (if l == -1 then w else w[l := OLD])[u := p[u]]
    ensures Loaded(p) == None || Loaded(p) == Some(rec)
    ensures AtMostOneInUse(p)
  {
    OthersNotInUse(base);
    var w := WithRecord(base, u, rec);
    WithRecordKeepsOthers(base, u, rec, u);
    var q := if l == -1 then w else w[l := OLD];
    if l != -1 {
      StatusWriteKeepsSlot(w, l, OLD, u);
    }
    StatusWriteKeepsSlot(q, u, p[u], u);
    assert forall i :: 0 <= i < ENTRY_COUNT && i != u ==> p[i] != IN_USE by {
      assert forall i :: 0 <= i < ENTRY_COUNT && i != u ==> p[i] == q[i];
    }
    if p[u] == IN_USE {
      OnlyInUse(p, u);
      DecodeEncode(rec);
    } else {
      NoneInUse(p);
    }
  }

  /**
   * Save followed by load returns the saved record, and the page keeps at
   * most one IN_USE slot: the new one.
   */
  lemma SaveThenLoad(page: seq<u16>, rec: Record)
    requires |page| == PAGE_WORDS && AtMostOneInUse(page)
    ensures Loaded(SavedPage(page, rec)) == Some(rec)
    ensures AtMostOneInUse(SavedPage(page, rec))
  {
    var base := SaveBase(page);
    AtMostOneKeptByErase(page);
    OthersNotInUse(base);
    var u := FirstBelow(base, FREE, ENTRY_COUNT);
    var l := LastBelow(base, IN_USE, ENTRY_COUNT);
    SavedShape(base, u, l, rec, u);
    var p := SavedPage(page, rec);
    OnlyInUse(p, u);
    DecodeEncode(rec);
  }

  /**
   * A successful save into a page with a free slot changes the first free
   * slot's status and record, the last IN_USE slot's status, and nothing else.
   */
  lemma SaveTouchesOnlyTwoSlots(page: seq<u16>, rec: Record, i: nat)
    requires |page| == PAGE_WORDS && i < ENTRY_COUNT
    requires FirstBelow(page, FREE, ENTRY_COUNT) != -1
    ensures var p := SavedPage(page, rec);
      var u := FirstBelow(page, FREE, ENTRY_COUNT);
      var l := LastBelow(page, IN_USE, ENTRY_COUNT);
      && p[u] == IN_USE && SlotWords(p, u) == Encode(rec)
      && (l != -1 ==> p[l] == OLD)
      && (i != u && i != l ==> p[i] == page[i] && SlotWords(p, i) == SlotWords(page, i))
  {
    var u := FirstBelow(page, FREE, ENTRY_COUNT);
    var l := LastBelow(page, IN_USE, ENTRY_COUNT);
    assert SavedPage(page, rec) == MarkSlots(WithRecord(page, u, rec), u, l);
    SavedShape(page, u, l, rec, i);
  }

  /**
   * When no slot is free, the save erases; after a verified erase the first
   * slot is free and there is no previous slot, so the retry neither erases
   * again nor has an IN_USE slot to retire.
   */
  lemma RetryFindsFirstSlotFree(page: seq<u16>)
    requires |page| == PAGE_WORDS
    requires FirstBelow(page, FREE, ENTRY_COUNT) == -1
    ensures FirstBelow(SaveBase(page), FREE, ENTRY_COUNT) == 0
    ensures LastBelow(SaveBase(page), IN_USE, ENTRY_COUNT) == -1
  {
    var base := SaveBase(page);
    assert base[0] == FREE;
  }

  /** The first FREE slot, or ENTRY_COUNT when the page has none. */
  function NextFree(page: seq<u16>): (k: nat)
    requires |page| == PAGE_WORDS
    ensures k <= ENTRY_COUNT
    ensures k < ENTRY_COUNT <==> FirstBelow(page, FREE, ENTRY_COUNT) != -1
  {
    var k := FirstBelow(page, FREE, ENTRY_COUNT);
    if k == -1 then ENTRY_COUNT else k
  }

  /**
   * Slots are used in increasing order: a save writes its record into a
   * slot that was FREE, never into a used one, and afterwards that slot and
   * every slot before it are not FREE, so the next save uses a later slot
   * (or erases).
   */
  lemma SaveUsesIncreasingSlots(page: seq<u16>, rec: Record)
    requires |page| == PAGE_WORDS
    ensures var base := SaveBase(page);
      var u := FirstBelow(base, FREE, ENTRY_COUNT);
      var p := SavedPage(page, rec);
      && |p| == PAGE_WORDS
      && 0 <= u && base[u] == FREE
      && (forall i :: 0 <= i <= u ==> p[i] != FREE)
      && (FirstBelow(p, FREE, ENTRY_COUNT) == -1 || FirstBelow(p, FREE, ENTRY_COUNT) > u)
  {
    var base := SaveBase(page);
    var u := FirstBelow(base, FREE, ENTRY_COUNT);
    var l := LastBelow(base, IN_USE, ENTRY_COUNT);
    assert SavedPage(page, rec) == MarkSlots(WithRecord(base, u, rec), u, l);
    SavedShape(base, u, l, rec, u);
  }

  /** A save into a page with a FREE slot does not erase, and moves the first FREE slot forward. */
  lemma SaveAdvancesNextFree(page: seq<u16>, rec: Record)
    requires |page| == PAGE_WORDS && FirstBelow(page, FREE, ENTRY_COUNT) != -1
    ensures |SavedPage(page, rec)| == PAGE_WORDS
    ensures NextFree(SavedPage(page, rec)) > NextFree(page)
  {
    SaveUsesIncreasingSlots(page, rec);
    assert SaveBase(page) == page;
  }

  /** The page after saving each of `recs` in turn, every save meeting no fault. */
  function SaveAll(page: seq<u16>, recs: seq<Record>): (p: seq<u16>)
    requires |page| == PAGE_WORDS
    ensures |p| == PAGE_WORDS
    decreases |recs|
  {
    if recs == [] then page
    else
      SaveUsesIncreasingSlots(page, recs[0]);
      SaveAll(SavedPage(page, recs[0]), recs[1..])
  }

  /**
   * How many of those saves erase the page: one for each save that finds no
   * FREE slot, as Store.SaveConfig counts in `flash.erases`.
   */
  function Erasures(page: seq<u16>, recs: seq<Record>): (n: nat)
    requires |page| == PAGE_WORDS
    ensures n <= |recs|
    decreases |recs|
  {
    if recs == [] then 0
    else
      SaveUsesIncreasingSlots(page, recs[0]);
      (if FirstBelow(page, FREE, ENTRY_COUNT) == -1 then 1 else 0) + Erasures(SavedPage(page, recs[0]), recs[1..])
  }

  /** A run of saves without an erase uses one slot each, from the first FREE slot on. */
  lemma {:induction false} SavesWithoutErase(page: seq<u16>, recs: seq<Record>)
    requires |page| == PAGE_WORDS && Erasures(page, recs) == 0
    ensures NextFree(page) + |recs| <= ENTRY_COUNT
    decreases |recs|
  {
    if recs != [] {
      SaveAdvancesNextFree(page, recs[0]);
      SavesWithoutErase(SavedPage(page, recs[0]), recs[1..]);
    }
  }

  /** Wear levelling: any ENTRY_COUNT + 1 saves in a row erase the page at least once. */
  lemma SlotsRunOutAfterEntryCountSaves(page: seq<u16>, recs: seq<Record>)
    requires |page| == PAGE_WORDS && |recs| > ENTRY_COUNT
    ensures Erasures(page, recs) >= 1
  {
    if Erasures(page, recs) == 0 {
      SavesWithoutErase(page, recs);
    }
  }

  /** Every slot from the first FREE one on is FREE, as on an erased page. */
  predicate TailFree(page: seq<u16>)
    requires |page| == PAGE_WORDS
  {
    forall i :: NextFree(page) <= i < ENTRY_COUNT ==> page[i] == FREE
  }

  /** A page whose slots up to `u` are used and whose later slots are FREE has its first FREE slot at u + 1. */
  lemma NextFreeAfter(p: seq<u16>, u: nat)
    requires |p| == PAGE_WORDS && u < ENTRY_COUNT
    requires forall i :: 0 <= i <= u ==> p[i] != FREE
    requires forall i :: u < i < ENTRY_COUNT ==> p[i] == FREE
    ensures NextFree(p) == u + 1 && TailFree(p)
  {
    if u + 1 < ENTRY_COUNT {
      assert p[u + 1] == FREE;
    }
  }

  /** On such a page a save takes exactly the next slot and leaves the rest FREE. */
  lemma SaveTakesNextSlot(page: seq<u16>, rec: Record)
    requires |page| == PAGE_WORDS && TailFree(page) && NextFree(page) < ENTRY_COUNT
    ensures |SavedPage(page, rec)| == PAGE_WORDS
    ensures TailFree(SavedPage(page, rec))
    ensures NextFree(SavedPage(page, rec)) == NextFree(page) + 1
  {
    SaveUsesIncreasingSlots(page, rec);
    assert SaveBase(page) == page;
    var u := FirstBelow(page, FREE, ENTRY_COUNT);
    var l := LastBelow(page, IN_USE, ENTRY_COUNT);
    var p := SavedPage(page, rec);
    assert l < u by {
      assert page[u] == FREE;
    }
    assert p == MarkSlots(WithRecord(page, u, rec), u, l);
    SavedShape(page, u, l, rec, u);
    NextFreeAfter(p, u);
  }

  /** From such a page, the saves up to the last slot erase nothing and use one slot each. */
  lemma {:induction false} SavesFillInOrder(page: seq<u16>, recs: seq<Record>)
    requires |page| == PAGE_WORDS && TailFree(page) && NextFree(page) + |recs| <= ENTRY_COUNT
    ensures Erasures(page, recs) == 0
    ensures NextFree(SaveAll(page, recs)) == NextFree(page) + |recs|
    decreases |recs|
  {
    if recs != [] {
      SaveTakesNextSlot(page, recs[0]);
      SavesFillInOrder(SavedPage(page, recs[0]), recs[1..]);
    }
  }

  /**
   * The bound is tight: an erased page takes ENTRY_COUNT saves without an
   * erase, after which no slot is FREE and the next save erases.
   */
  lemma ErasedPageTakesEntryCountSaves(recs: seq<Record>)
    requires |recs| == ENTRY_COUNT
    ensures Erasures(ErasedPage(), recs) == 0
    ensures FirstBelow(SaveAll(ErasedPage(), recs), FREE, ENTRY_COUNT) == -1
  {
    assert ErasedPage()[0] == FREE;
    SavesFillInOrder(ErasedPage(), recs);
  }

  /**
   * A save into a full page erases it before copying, so a copy that then
   * fails leaves no configuration to load, whatever loaded before.
   */
  lemma FullPageCopyFailureLosesConfig(page: seq<u16>)
    requires |page| == PAGE_WORDS
    requires FirstBelow(page, FREE, ENTRY_COUNT) == -1
    ensures Loaded(SaveBase(page)) == None
  {
    NoneInUse(ErasedPage());
  }

  /**
   * A failed erase can leave any pattern in the status words: with two
   * words stuck at IN_USE, the page no longer has at most one IN_USE slot.
   */
  lemma FailedEraseCanBreakInvariant()
    ensures !AtMostOneInUse(ErasedImage(Fault(true, map[0 := IN_USE, 1 := IN_USE])))
  {
    var p := ErasedImage(Fault(true, map[0 := IN_USE, 1 := IN_USE]));
    assert p[0] == IN_USE && p[1] == IN_USE;
  }

  /** An erased page loads nothing; saving into it and loading gives the saved record. */
  lemma ErasedPageScenario(rec: Record)
    ensures Loaded(ErasedPage()) == None
    ensures Loaded(SavedPage(ErasedPage(), rec)) == Some(rec)
  {
    NoneInUse(ErasedPage());
    SaveThenLoad(ErasedPage(), rec);
  }

  /** Loads agree on two pages that agree on the status words up to `k` and on slot `k`, when `k` is IN_USE. */
  lemma LoadedAgreesUpTo(p: seq<u16>, q: seq<u16>, k: nat)
    requires |p| == PAGE_WORDS && |q| == PAGE_WORDS && k < ENTRY_COUNT
    requires q[k] == IN_USE && k == FirstBelow(q, IN_USE, ENTRY_COUNT)
    requires forall i :: 0 <= i <= k ==> p[i] == q[i]
    requires SlotWords(p, k) == SlotWords(q, k)
    ensures Loaded(p) == Loaded(q)
  {
    FirstInUse(p, k);
  }

  /**
   * A page that has two IN_USE slots (the case the scans do not detect):
   * save retires the last of them but load reads the first, so a successful
   * save is invisible to the next load.
   */
  lemma TwoInUseHidesSave(page: seq<u16>, rec: Record, i: nat, j: nat)
    requires |page| == PAGE_WORDS && i < j < ENTRY_COUNT
    requires page[i] == IN_USE && page[j] == IN_USE
    requires i == FirstBelow(page, IN_USE, ENTRY_COUNT)
    requires FirstBelow(page, FREE, ENTRY_COUNT) > i
    ensures Loaded(SavedPage(page, rec)) == Some(Decode(SlotWords(page, i)))
  {
    var u := FirstBelow(page, FREE, ENTRY_COUNT);
    var l := LastBelow(page, IN_USE, ENTRY_COUNT);
    assert SaveBase(page) == page;
    SavedShape(page, u, l, rec, i);
    LoadedAgreesUpTo(SavedPage(page, rec), page, i);
  }
}
