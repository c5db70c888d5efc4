/**
 * The flash controller as the configuration store sees it: one erase page of
 * 16-bit words, a "program one word" command and an "erase the page" command,
 * each of which reports the controller's error flags once it is no longer
 * busy.
 *
 * What the hardware does on each command is decided by a fault oracle fixed
 * when the device is created: the k-th command issued may raise the error
 * flag, and may leave chosen words holding some other value than the one
 * asked for (a word that did not program, or did not erase). A command whose
 * oracle entry is NO_FAULT does exactly what it is asked.
 *
 * Memory outside the page cannot be seen by this model; a program command
 * aimed outside the page is recorded in `outside`, with the value it left.
 * The unlock/lock key sequence, the control and status register bits and the
 * busy-wait are not modelled.
 */
module FlashDevice {
  import opened Words

  /** Size of the configuration page in bytes. */
  const CONFIG_PAGE_SIZE := 1024
  const PAGE_WORDS := CONFIG_PAGE_SIZE / 2
  /** The value of an erased flash word. */
  const ERASED: u16 := 0xffff

  /**
   * What the hardware does with one command: whether the controller raises
   * PGERR/WRPRTERR, and which word offsets (relative to the page) end up
   * holding which value regardless of the command.
   */
  datatype Fault = Fault(errorFlag: bool, stuck: map<int, u16>)

  const NO_FAULT := Fault(false, map[])

  /** The value the word at `addr` holds after a command that aimed to leave `value` there. */
  function Held(f: Fault, addr: int, value: u16): (v: u16)
    ensures f == NO_FAULT ==> v == value
  {
    if addr in f.stuck then f.stuck[addr] else value
  }

  /** The page after an erase command with fault `f`. */
  function ErasedImage(f: Fault): (p: seq<u16>)
    ensures |p| == PAGE_WORDS
    ensures forall i :: 0 <= i < PAGE_WORDS ==> p[i] == Held(f, i, ERASED)
  {
    seq(PAGE_WORDS, i => Held(f, i, ERASED))
  }

  /** None of the commands numbered `lo` up to, but not including, `hi` raised the error flag. */
  ghost predicate NoErrorFlag(oracle: nat -> Fault, lo: nat, hi: nat)
  {
    forall k :: lo <= k < hi ==> !oracle(k).errorFlag
  }

  class Flash {
    /** The configuration page, word by word. */
    const words: array<u16>
    /** The fault oracle: what the k-th command does. */
    const oracle: nat -> Fault
    /** Number of program and erase commands issued so far. */
    var ops: nat
    /** Program commands aimed outside the page: word offset and the value left there. */
    var outside: seq<(int, u16)>
    /** Number of erase commands issued so far. */
    ghost var erases: nat

    ghost predicate Valid()
      reads this
    {
      words.Length == PAGE_WORDS
    }

    /** The last command issued met a fault. */
    ghost predicate LastFaulted()
      reads this
    {
      ops > 0 && oracle(ops - 1) != NO_FAULT
    }

    constructor (image: seq<u16>, oracle: nat -> Fault)
      requires |image| == PAGE_WORDS
      ensures Valid() && fresh(words)
      ensures words[..] == image && this.oracle == oracle
      ensures ops == 0 && outside == [] && erases == 0
    {
      words := new u16[PAGE_WORDS](i requires 0 <= i < PAGE_WORDS => image[i]);
      this.oracle := oracle;
      ops, outside, erases := 0, [], 0;
    }

    /**
     * Writes `value` to the word at offset `addr` of the page and waits for
     * the controller; returns the error flag and the value the word then holds.
     */
    method Program(addr: int, value: u16) returns (errorFlag: bool, held: u16)
      requires Valid()
      modifies this, words
      ensures Valid()
      ensures ops == old(ops) + 1 && erases == old(erases)
      ensures errorFlag == oracle(old(ops)).errorFlag
      ensures held == Held(oracle(old(ops)), addr, value)
      ensures 0 <= addr < PAGE_WORDS ==>
                words[..] == old(words[..])[addr := held] && outside == old(outside)
      ensures !(0 <= addr < PAGE_WORDS) ==>
                words[..] == old(words[..]) && outside == old(outside) + [(addr, held)]
    {
      var f := oracle(ops);
      held := Held(f, addr, value);
      errorFlag := f.errorFlag;
      if 0 <= addr < words.Length {
        words[addr] := held;
      } else {
        outside := outside + [(addr, held)];
      }
      ops := ops + 1;
    }

    /** Erases the whole page and waits for the controller; returns the error flag. */
    method ErasePage() returns (errorFlag: bool)
      requires Valid()
      modifies this, words
      ensures Valid()
      ensures ops == old(ops) + 1 && erases == old(erases) + 1 && outside == old(outside)
      ensures errorFlag == oracle(old(ops)).errorFlag
      ensures words[..] == ErasedImage(oracle(old(ops)))
    {
      var f := oracle(ops);
      forall i | 0 <= i < words.Length {
        words[i] := Held(f, i, ERASED);
      }
      errorFlag := f.errorFlag;
      ops := ops + 1;
      erases := erases + 1;
    }
  }
}
