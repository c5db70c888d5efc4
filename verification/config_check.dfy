/**
 * config_valid of config.c: the checks the firmware makes on the RAM
 * configuration before it trusts it. The board's address must not be 0xff
 * (0xfe, the broadcast address, only draws a warning), `physical_led` must be
 * a permutation of the LED indices, and every LED colour must be one of the
 * four legal colours. Each failed check prints a message to the debug USART;
 * the messages are modelled as the sequence of their identities.
 */
module ConfigCheck {
  import opened Words
  import opened ConfigRecord

  /** The four strings config_valid may print. */
  datatype Message = AddressInvalid | AddressBroadcast | PermutationInvalid | ColorInvalid

  /** The address a board has before one is assigned. */
  const ADDRESS_UNSET := 0xff
  /** The broadcast address. */
  const ADDRESS_BROADCAST := 0xfe

  predicate IsLegalColor(c: u32) {
    c == RED || c == GREEN || c == BLUE || c == WHITE
  }

  /** What the led_seen counters check: every LED index occurs exactly once. */
  predicate CountsAreOne(p: seq<u8>) {
    forall v :: 0 <= v < MODULE_LENGTH ==> multiset(p)[v] == 1
  }

  /** A permutation in the usual sense: every entry is an LED index and no two entries are equal. */
  predicate IsBijection(p: seq<u8>) {
    && (forall i :: 0 <= i < |p| ==> p[i] < MODULE_LENGTH)
    && (forall i, j :: 0 <= i < j < |p| ==> p[i] != p[j])
  }

  predicate IsValid(c: Record) {
    && c.myAddress != ADDRESS_UNSET
    && CountsAreOne(c.physicalLed)
    && forall i :: 0 <= i < MODULE_LENGTH ==> IsLegalColor(c.ledColor[i])
  }

  /** One PermutationInvalid message per LED index below `n` that does not occur exactly once. */
  function PermutationMessages(p: seq<u8>, n: nat): (ms: seq<Message>)
    ensures |ms| <= n
    ensures forall k :: 0 <= k < |ms| ==> ms[k] == PermutationInvalid
    ensures ms == [] <==> forall v :: 0 <= v < n ==> multiset(p)[v] == 1
  {
    if n == 0 then []
    else PermutationMessages(p, n - 1) + if multiset(p)[n - 1] != 1 then [PermutationInvalid] else []
  }

  /** One ColorInvalid message per LED below `n` whose colour is not legal. */
  function ColorMessages(cs: seq<u32>, n: nat): (ms: seq<Message>)
    requires n <= |cs|
    ensures |ms| <= n
    ensures forall k :: 0 <= k < |ms| ==> ms[k] == ColorInvalid
    ensures ms == [] <==> forall i :: 0 <= i < n ==> IsLegalColor(cs[i])
  {
    if n == 0 then []
    else ColorMessages(cs, n - 1) + if !IsLegalColor(cs[n - 1]) then [ColorInvalid] else []
  }

  function AddressMessages(address: u16): seq<Message> {
    (if address == ADDRESS_UNSET then [AddressInvalid] else [])
    + (if address == ADDRESS_BROADCAST then [AddressBroadcast] else [])
  }

  /** Everything config_valid prints for `c`, in order. */
  function Diagnostics(c: Record): seq<Message> {
    AddressMessages(c.myAddress)
    + PermutationMessages(c.physicalLed, MODULE_LENGTH)
    + ColorMessages(c.ledColor, MODULE_LENGTH)
  }

  /**
   * config_valid: 1 if `config` passes every check, 0 otherwise, and the
   * messages printed on the way.
   */
  method ConfigValid(config: Record) returns (valid: int, messages: seq<Message>)
    ensures valid == (if IsValid(config) then 1 else 0)
    ensures messages == Diagnostics(config)
  {
    valid := 1;
    messages := [];
    if config.myAddress == ADDRESS_UNSET {
      messages := messages + [AddressInvalid];
      valid := 0;
    }
    if config.myAddress == ADDRESS_BROADCAST {
      messages := messages + [AddressBroadcast];
    }
    assert messages == AddressMessages(config.myAddress);
    assert valid == 1 <==> config.myAddress != ADDRESS_UNSET;
    var ledSeen := CountLeds(config.physicalLed);
    var permutationOk, permutationMessages := CheckLedSeen(config.physicalLed, ledSeen);
    if !permutationOk {
      valid := 0;
    }
    var colorsOk, colorMessages := CheckColors(config.ledColor);
    if !colorsOk {
      valid := 0;
    }
    messages := messages + permutationMessages + colorMessages;
    assert valid == 1 <==> IsValid(config);
  }

  /** The loop over led_seen: one message per LED index not seen exactly once. */
  method CheckLedSeen(p: seq<u8>, ledSeen: array<int>) returns (ok: bool, ms: seq<Message>)
    requires ledSeen.Length == MODULE_LENGTH
    requires forall k :: 0 <= k < MODULE_LENGTH ==> ledSeen[k] == multiset(p)[k]
    ensures ms == PermutationMessages(p, MODULE_LENGTH)
    ensures ok <==> CountsAreOne(p)
  {
    ok := true;
    ms := [];
    for i := 0 to MODULE_LENGTH
      invariant ms == PermutationMessages(p, i)
      invariant ok <==> ms == []
    {
      if ledSeen[i] != 1 {
        ms := ms + [PermutationInvalid];
        ok := false;
      }
    }
  }

  /** The loop over led_color: one message per LED whose colour is not legal. */
  method CheckColors(cs: seq<u32>) returns (ok: bool, ms: seq<Message>)
    requires |cs| == MODULE_LENGTH
    ensures ms == ColorMessages(cs, MODULE_LENGTH)
    ensures ok <==> forall i :: 0 <= i < MODULE_LENGTH ==> IsLegalColor(cs[i])
  {
    ok := true;
    ms := [];
    for i := 0 to MODULE_LENGTH
      invariant ms == ColorMessages(cs, i)
      invariant ok <==> ms == []
    {
      if !IsLegalColor(cs[i]) {
        ms := ms + [ColorInvalid];
        ok := false;
      }
    }
  }

  /** The led_seen counters: how often each LED index occurs in `p`. */
  method CountLeds(p: seq<u8>) returns (ledSeen: array<int>)
    requires |p| == MODULE_LENGTH
    ensures fresh(ledSeen) && ledSeen.Length == MODULE_LENGTH
    ensures forall k :: 0 <= k < MODULE_LENGTH ==> ledSeen[k] == multiset(p)[k]
  {
    ledSeen := new int[MODULE_LENGTH];
    for i := 0 to MODULE_LENGTH
      invariant forall k :: 0 <= k < i ==> ledSeen[k] == 0
    {
      ledSeen[i] := 0;
    }
    for i := 0 to MODULE_LENGTH
      invariant forall k :: 0 <= k < MODULE_LENGTH ==> ledSeen[k] == multiset(p[..i])[k]
    {
      // An index past the end of led_seen writes outside the array; here
      // that write is lost, and no counter changes.
      if p[i] < MODULE_LENGTH {
        ledSeen[p[i]] := ledSeen[p[i]] + 1;
      }
      assert p[..i + 1] == p[..i] + [p[i]];
    }
    assert p[..MODULE_LENGTH] == p;
  }

  // ---------------------------------------------------------------------
  // The led_seen check is exactly the permutation property

  /** The number of entries of `p` below `n`, counted value by value. */
  ghost function CountBelow(p: seq<u8>, n: nat): nat {
    if n == 0 then 0 else CountBelow(p, n - 1) + multiset(p)[n - 1]
  }

  lemma {:induction false} CountBelowAppend(p: seq<u8>, x: u8, n: nat)
    ensures CountBelow(p + [x], n) == CountBelow(p, n) + if x < n then 1 else 0
  {
    if n > 0 {
      CountBelowAppend(p, x, n - 1);
      assert multiset(p + [x]) == multiset(p) + multiset{x};
    }
  }

  lemma {:induction false} CountBelowEmpty(n: nat)
    ensures CountBelow([], n) == 0
  {
    if n > 0 {
      CountBelowEmpty(n - 1);
    }
  }

  /** At most |p| entries are below `n`, and all of them are exactly when the count reaches |p|. */
  lemma {:induction false} CountBelowBound(p: seq<u8>, n: nat)
    ensures CountBelow(p, n) <= |p|
    ensures CountBelow(p, n) == |p| <==> forall i :: 0 <= i < |p| ==> p[i] < n
  {
    if p == [] {
      CountBelowEmpty(n);
    } else {
      var q := p[..|p| - 1];
      assert p == q + [p[|p| - 1]];
      assert forall i :: 0 <= i < |q| ==> q[i] == p[i];
      CountBelowAppend(q, p[|p| - 1], n);
      CountBelowBound(q, n);
    }
  }

  /** When every count below `n` is at most one, the counts sum to `n` only if each is one. */
  lemma {:induction false} CountBelowFull(p: seq<u8>, n: nat)
    requires forall v :: 0 <= v < n ==> multiset(p)[v] <= 1
    ensures CountBelow(p, n) <= n
    ensures CountBelow(p, n) == n ==> forall v :: 0 <= v < n ==> multiset(p)[v] == 1
  {
    if n > 0 {
      CountBelowFull(p, n - 1);
    }
  }

  lemma CountsOfOnes(p: seq<u8>, n: nat)
    requires forall v :: 0 <= v < n ==> multiset(p)[v] == 1
    ensures CountBelow(p, n) == n
  {
    if n > 0 {
      CountsOfOnes(p, n - 1);
    }
  }

  /** Removing one entry removes one occurrence of its value. */
  lemma RemoveAt(p: seq<u8>, k: nat)
    requires k < |p|
    ensures multiset(p) == multiset(p[..k] + p[k + 1..]) + multiset{p[k]}
  {
    assert p == p[..k] + [p[k]] + p[k + 1..];
  }

  /** A value at two positions occurs at least twice. */
  lemma TwoPositions(p: seq<u8>, a: nat, b: nat)
    requires a < b < |p| && p[a] == p[b]
    ensures multiset(p)[p[a]] >= 2
  {
    RemoveAt(p, a);
    var q := p[..a] + p[a + 1..];
    assert q[b - 1] == p[b];
  }

  /** A value that occurs twice sits at two positions. */
  lemma TwoOccurrences(p: seq<u8>, v: u8) returns (a: nat, b: nat)
    requires multiset(p)[v] >= 2
    ensures a < b < |p| && p[a] == v && p[b] == v
  {
    assert v in multiset(p);
    var i :| 0 <= i < |p| && p[i] == v;
    RemoveAt(p, i);
    var q := p[..i] + p[i + 1..];
    assert v in multiset(q);
    var j :| 0 <= j < |q| && q[j] == v;
    if j < i {
      a, b := j, i;
    } else {
      a, b := i, j + 1;
    }
  }

  /** The check that led_seen makes holds exactly for the permutations of the LED indices. */
  lemma CountsAreOneIffBijection(p: seq<u8>)
    requires |p| == MODULE_LENGTH
    ensures CountsAreOne(p) <==> IsBijection(p)
  {
    if CountsAreOne(p) {
      CountsOfOnes(p, MODULE_LENGTH);
      CountBelowBound(p, MODULE_LENGTH);
      forall i, j | 0 <= i < j < |p|
        ensures p[i] != p[j]
      {
        if p[i] == p[j] {
          TwoPositions(p, i, j);
        }
      }
    }
    if IsBijection(p) {
      forall v | 0 <= v < MODULE_LENGTH
        ensures multiset(p)[v] <= 1
      {
        if multiset(p)[v] >= 2 {
          var a, b := TwoOccurrences(p, v as u8);
        }
      }
      CountBelowBound(p, MODULE_LENGTH);
      CountBelowFull(p, MODULE_LENGTH);
    }
  }

  /** A permutation reaches every LED index. */
  lemma BijectionIsOnto(p: seq<u8>, v: nat)
    requires |p| == MODULE_LENGTH && CountsAreOne(p) && v < MODULE_LENGTH
    ensures exists i :: 0 <= i < |p| && p[i] == v
  {
    assert v as u8 in multiset(p);
  }

  /** A configuration passes config_valid exactly when it prints nothing but the broadcast warning. */
  lemma ValidIffQuiet(c: Record)
    ensures IsValid(c) <==> Diagnostics(c) == [] || Diagnostics(c) == [AddressBroadcast]
  {
    if IsValid(c) {
      assert PermutationMessages(c.physicalLed, MODULE_LENGTH) == [];
      assert ColorMessages(c.ledColor, MODULE_LENGTH) == [];
    } else {
      var a := AddressMessages(c.myAddress);
      var ps := PermutationMessages(c.physicalLed, MODULE_LENGTH);
      var cs := ColorMessages(c.ledColor, MODULE_LENGTH);
      if c.myAddress == ADDRESS_UNSET {
        assert Diagnostics(c)[0] == AddressInvalid;
      } else if ps != [] {
        assert Diagnostics(c)[|a|] == PermutationInvalid;
      } else {
        assert Diagnostics(c)[|a|] == ColorInvalid;
      }
    }
  }


  /** The configuration in RAM at reset passes config_valid without a message. */
  lemma DefaultConfigValid()
    ensures IsValid(DEFAULT_CONFIG)
    ensures Diagnostics(DEFAULT_CONFIG) == []
  {
    CountsAreOneIffBijection(DEFAULT_CONFIG.physicalLed);
  }

  /**
   * A record read from an erased slot fails the permutation and colour
   * checks, but not the address check: its address, 0xffff, is not 0xff.
   */
  lemma ErasedEntryInvalid()
    ensures !IsValid(ERASED_ENTRY)
    ensures AddressInvalid !in Diagnostics(ERASED_ENTRY)
    ensures PermutationInvalid in Diagnostics(ERASED_ENTRY)
    ensures ColorInvalid in Diagnostics(ERASED_ENTRY)
  {
    var p := ERASED_ENTRY.physicalLed;
    assert p[0] == 0xff;
    CountsAreOneIffBijection(p);
    var a := AddressMessages(ERASED_ENTRY.myAddress);
    var ps := PermutationMessages(p, MODULE_LENGTH);
    var cs := ColorMessages(ERASED_ENTRY.ledColor, MODULE_LENGTH);
    assert a == [];
    assert !IsLegalColor(ERASED_ENTRY.ledColor[0]);
    assert ps[0] in Diagnostics(ERASED_ENTRY);
    assert Diagnostics(ERASED_ENTRY)[|ps|] == cs[0];
  }
}
