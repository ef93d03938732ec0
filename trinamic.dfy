/** The register-access slave of the Trinamic TMC4671 motor-controller mock:
    a 40-bit SPI word (1 direction bit, 7 address bits, 32 content bits, most
    significant first), a sparse register file, and change hooks that
    recompute dependent registers after a write.

    The simulator's awaits are replaced by a Trace: one record per race the
    transaction runs, saying which trigger won and what MOSI read. */
module Trinamic {
  import opened Bits

  const ADDRESS_BITS: nat := 7
  const CONTENT_BITS: nat := 32
  const WORD_WIDTH: nat := 1 + ADDRESS_BITS + CONTENT_BITS

  /** A Python dict subscription: the value, or the KeyError it raises. */
  datatype Lookup = Found(value: int) | Missing(key: int)

  function Get(m: map<int, int>, key: int): (r: Lookup)
  {
    if key in m then Found(m[key]) else Missing(key)
  }

  /** A registered change hook: the addresses it rewrites and the callable that
      computes their value. The callable takes no arguments in the device but
      reads the register file, so it is a function of the register file here. */
  datatype Callback = Callback(updateAddresses: seq<int>, f: map<int, int> -> Lookup)

  type Callbacks = map<int, Callback>

  // ---------------------------------------------------------------------------
  // Word encoder (test-stimulus builder)

  datatype EncodeError = BadOperation | UnknownAddress
  datatype Encoded = Word(word: nat) | ValueError(reason: EncodeError)

  /** The 40-bit command word for `operation` at `address` carrying `content`.
      The three fields occupy disjoint bits, so the source's `|` is `+`;
      `address & 0b1111` and `content & 0xFFFF_FFFF` are Euclidean remainders,
      which agree with Python's `&` for negative operands too. */
  function CreateSpiWord(registers: map<int, int>, operation: string, address: int, content: int): (r: Encoded)
    ensures r.Word? <==> (operation == "read" || operation == "write") && address in registers
    ensures r == ValueError(BadOperation) <==> operation != "read" && operation != "write"
    ensures r == ValueError(UnknownAddress)
        <==> (operation == "read" || operation == "write") && address !in registers
  {
    if operation != "read" && operation != "write" then ValueError(BadOperation)
    else if address !in registers then ValueError(UnknownAddress)
    else Word((if operation == "write" then Pow2(39) else 0) + (address % 16) * Pow2(32) + content % Pow2(32))
  }

  // ---------------------------------------------------------------------------
  // The bus, as the transaction observes it

  /** One address or content bit: whether `frame_end` won the race against the
      falling edge, whether it won the race against the 20 ns timer, and the
      MOSI level sampled after both. */
  datatype BitStep = BitStep(endBeforeEdge: bool, endBeforeTimer: bool, mosi: bool)
  {
    predicate Aborted() { endBeforeEdge || endBeforeTimer }
  }

  /** Everything one frame's transaction reads from the bus, in order. */
  datatype Trace = Trace(
    sclkAtSelect: bool,          // SCLK level after chip select
    directionMosi: bool,         // MOSI after the first falling edge and the 20 ns timer
    addressSteps: seq<BitStep>,
    endBeforeRising: bool,       // frame_end won against the rising edge after the address
    edgeBeforePause: bool,       // a falling edge won against the 250 ns timer
    dataSteps: seq<BitStep>,
    edgeBeforeEnd: bool,         // a falling edge won against frame_end after the content
    sclkAtEnd: bool)             // SCLK level at the end of the frame
  {
    /** A trace has one step for each bit the loops sample. */
    predicate WellFormed()
    {
      |addressSteps| == ADDRESS_BITS && |dataSteps| == CONTENT_BITS
    }
  }

  /** The SpiFrameError raised, told apart by what the message reports. */
  datatype FrameErrorKind =
    | SclkNotIdle   // SCLK low at chip select or at the end of the frame
    | Deselected    // chip select released in the middle of the transaction
    | ReadPause     // data clocked too soon after the address of a read
    | Overrun       // more clock edges than the word has bits

  datatype Outcome = Ok | FrameError(kind: FrameErrorKind) | KeyErr(key: int)

  /** The result of a commit: how it ended and the register file it left. */
  datatype Update = Update(outcome: Outcome, registers: map<int, int>)

  /** The result of a transaction: how it ended, the register file it left,
      and the levels it drove onto MISO, one per sampled bit. */
  datatype Effect = Effect(outcome: Outcome, registers: map<int, int>, miso: seq<bool>)

  function Mosi(steps: seq<BitStep>): (bits: seq<bool>)
  {
    seq(|steps|, k requires 0 <= k < |steps| => steps[k].mosi)
  }

  /** The index of the first step at which `frame_end` won a race, or the
      number of steps if it never did. */
  function FirstAbort(steps: seq<BitStep>): (k: nat)
    ensures k <= |steps|
    ensures forall j :: 0 <= j < k ==> !steps[j].Aborted()
    ensures k < |steps| ==> steps[k].Aborted()
  {
    if steps == [] || steps[0].Aborted() then 0 else 1 + FirstAbort(steps[1..])
  }

  function DecodedAddress(t: Trace): (address: nat) { FromBitsMsb(Mosi(t.addressSteps)) }

  function DecodedContent(t: Trace): (content: nat) { FromBitsMsb(Mosi(t.dataSteps)) }

  /** Assigns the hook's value to each of `pending` in turn, re-evaluating the
      callable against the register file as it stands before each assignment. */
  function RunHook(registers: map<int, int>, pending: seq<int>, f: map<int, int> -> Lookup): (u: Update)
    decreases |pending|
  {
    if pending == [] then Update(Ok, registers)
    else match f(registers)
      case Missing(key) => Update(KeyErr(key), registers)
      case Found(v) => RunHook(registers[pending[0] := v], pending[1..], f)
  }

  /** Stores `content` at `address`, then runs the hook watching `address`, if any. */
  function Commit(registers: map<int, int>, callbacks: Callbacks, address: int, content: int): (u: Update)
  {
    var stored := registers[address := content];
    if address in callbacks then RunHook(stored, callbacks[address].updateAddresses, callbacks[address].f)
    else Update(Ok, stored)
  }

  /** What a transaction observes before it would commit: how its checks end
      (Ok when every one passed) and the levels it drove onto MISO. */
  datatype Decoded = Decoded(outcome: Outcome, miso: seq<bool>)

  /** The checks of one transaction, in the order it makes them, and the MISO
      levels driven up to the point where it stops: the direction bit and each
      address bit are echoed, each content bit is a bit of the register at the
      decoded address, which must exist. */
  function Decode(t: Trace, registers: map<int, int>): (d: Decoded)
    requires t.WellFormed()
  {
    if !t.sclkAtSelect then Decoded(FrameError(SclkNotIdle), [])
    else
      var ka := FirstAbort(t.addressSteps);
      if ka < ADDRESS_BITS then Decoded(FrameError(Deselected), [t.directionMosi] + Mosi(t.addressSteps)[..ka + 1])
      else
        var echoed := [t.directionMosi] + Mosi(t.addressSteps);
        if t.endBeforeRising then Decoded(FrameError(Deselected), echoed)
        else if !t.directionMosi && t.edgeBeforePause then Decoded(FrameError(ReadPause), echoed)
        else DecodeData(t, registers, DecodedAddress(t), echoed)
  }

  /** The content phase of Decode and the checks after it, for a frame whose
      header passed; `echoed` is what MISO carried during the header. */
  function DecodeData(t: Trace, registers: map<int, int>, address: int, echoed: seq<bool>): (d: Decoded)
    requires t.WellFormed()
  {
    if address !in registers then Decoded(KeyErr(address), echoed)
    else
      var stored := WordBits(registers[address], CONTENT_BITS);
      var kd := FirstAbort(t.dataSteps);
      if kd < CONTENT_BITS then Decoded(FrameError(Deselected), echoed + stored[..kd + 1])
      else if t.edgeBeforeEnd then Decoded(FrameError(Overrun), echoed + stored)
      else if !t.sclkAtEnd then Decoded(FrameError(SclkNotIdle), echoed + stored)
      else Decoded(Ok, echoed + stored)
  }

  /** What one transaction does: the checks of Decode, then, for a write that
      passed all of them, the commit. */
  function Run(t: Trace, registers: map<int, int>, callbacks: Callbacks): (e: Effect)
    requires t.WellFormed()
  {
    var d := Decode(t, registers);
    if d.outcome == Ok && t.directionMosi then
      var c := Commit(registers, callbacks, DecodedAddress(t), DecodedContent(t));
      Effect(c.outcome, c.registers, d.miso)
    else Effect(d.outcome, registers, d.miso)
  }

  // ---------------------------------------------------------------------------
  // The device as constructed

  /** Python's `int.from_bytes(bytes, byteorder='big')`. */
  function BigEndian(bytes: string): (value: nat)
  {
    if bytes == [] then 0 else 256 * BigEndian(bytes[..|bytes| - 1]) + bytes[|bytes| - 1] as nat
  }

  function InitialRegisters(): (registers: map<int, int>)
  {
    map[0x00 := BigEndian("4671"), 0x01 := 0x0000_0000]
  }

  /** The identification values selected by register 0x01. */
  function IdentificationTable(): (table: map<int, int>)
  {
    map[0 := BigEndian("4671"),
        1 := 0x0000_0100,
        2 := 0x2022_0323,
        3 := 0x0010_1029,
        4 := BigEndian("var2"),
        5 := BigEndian("rev3")]
  }

  /** The callable registered on 0x01: look up register 0x01 in the table. */
  function IdentificationHook(registers: map<int, int>): (r: Lookup)
  {
    match Get(registers, 0x01)
    case Missing(key) => Missing(key)
    case Found(v) => Get(IdentificationTable(), v)
  }

  function SeededCallbacks(): (callbacks: Callbacks)
  {
    map[0x01 := Callback([0x00], IdentificationHook)]
  }

  /** Every address a hook rewrites is already in the register file. */
  ghost predicate HooksTargetRegisters(registers: map<int, int>, callbacks: Callbacks)
  {
    forall w, d :: w in callbacks && d in callbacks[w].updateAddresses ==> d in registers
  }

  // ---------------------------------------------------------------------------
  // The two sampling loops of a transaction

  /** The address loop: on each falling edge (seven of them in a frame), shifts MOSI into the
      address, most significant bit first, and echoes it onto MISO; stops at
      the first bit on which `frame_end` won a race. */
  method ReceiveAddress(steps: seq<BitStep>) returns (address: nat, echo: seq<bool>, aborted: bool)
    ensures aborted <==> FirstAbort(steps) < |steps|
    ensures aborted ==> echo == Mosi(steps)[..FirstAbort(steps) + 1]
    ensures !aborted ==> echo == Mosi(steps) && address == FromBitsMsb(Mosi(steps))
  {
    ghost var bits := Mosi(steps);
    address, echo, aborted := 0, [], false;
    for k := 0 to |steps|
      invariant address == ShiftedIn(bits, k)
      invariant k <= FirstAbort(steps)
      invariant echo == bits[..k]
    {
      var step := steps[k];
      var bit := if step.mosi then Pow2(|steps| - 1 - k) else 0;
      address := address + bit;
      echo := echo + [step.mosi];
      if step.Aborted() {
        return address, echo, true;
      }
    }
    ShiftedInComplete(bits);
  }

  /** The content loop: on each falling edge (32 of them in a frame), shifts MOSI into the
      content, most significant bit first, and drives MISO with the matching
      bit of the register being addressed, whose lookup can raise KeyError on
      the first bit; stops at the first bit on which `frame_end` won a race.
      `outcome` is Ok when every bit was sampled. */
  method ReceiveContent(steps: seq<BitStep>, stored: Lookup) returns (content: nat, driven: seq<bool>, outcome: Outcome)
    requires |steps| > 0
    ensures stored.Missing? ==> outcome == KeyErr(stored.key) && driven == []
    ensures stored.Found? && FirstAbort(steps) < |steps| ==>
              outcome == FrameError(Deselected)
              && driven == WordBits(stored.value, |steps|)[..FirstAbort(steps) + 1]
    ensures stored.Found? && FirstAbort(steps) == |steps| ==>
              outcome == Ok
              && driven == WordBits(stored.value, |steps|)
              && content == FromBitsMsb(Mosi(steps))
  {
    ghost var bits := Mosi(steps);
    ghost var levels := if stored.Found? then WordBits(stored.value, |steps|) else [];
    content, driven := 0, [];
    for k := 0 to |steps|
      invariant content == ShiftedIn(bits, k)
      invariant k <= FirstAbort(steps)
      invariant k > 0 ==> stored.Found?
      invariant driven == levels[..k]
    {
      var step := steps[k];
      var bit := if step.mosi then Pow2(|steps| - 1 - k) else 0;
      content := content + bit;
      if stored.Missing? {
        return content, driven, KeyErr(stored.key);
      }
      assert levels[..k + 1] == levels[..k] + [Bit(stored.value, |steps| - 1 - k)];
      driven := driven + [Bit(stored.value, |steps| - 1 - k)];
      if step.Aborted() {
        return content, driven, FrameError(Deselected);
      }
    }
    ShiftedInComplete(bits);
    assert levels[..|steps|] == levels;
    outcome := Ok;
  }

  class TMC4671 {
    var registers: map<int, int>
    var callbacks: Callbacks

    ghost predicate Valid()
      reads this
    {
      HooksTargetRegisters(registers, callbacks)
    }

    constructor ()
      ensures registers == InitialRegisters() && callbacks == SeededCallbacks()
      ensures Valid()
    {
      callbacks := map[];
      registers := InitialRegisters();
      new;
      RegisterAddressChangedHook(0x01, [0x00], IdentificationHook);
    }

    /** The value of register `reg`, or the KeyError the lookup raises. */
    function GetRegister(reg: int): (r: Lookup)
      reads this
      ensures r.Found? <==> reg in registers
      ensures r.Found? ==> r.value == registers[reg]
      ensures r.Missing? ==> r.key == reg
    {
      Get(registers, reg)
    }

    method RegisterAddressChangedHook(watchAddress: int, updateAddresses: seq<int>, f: map<int, int> -> Lookup)
      modifies this`callbacks
      ensures callbacks == old(callbacks)[watchAddress := Callback(updateAddresses, f)]
      ensures old(Valid()) && (forall d :: d in updateAddresses ==> d in registers) ==> Valid()
    {
      callbacks := callbacks[watchAddress := Callback(updateAddresses, f)];
    }

    /** Everything a transaction does before it would commit: the select
        check, the direction bit, the address loop, the boundary and read-pause
        races, the content loop, the overrun race and the final SCLK check. */
    method ReceiveFrame(t: Trace) returns (outcome: Outcome, doWrite: bool, address: nat, content: nat, miso: seq<bool>)
      requires t.WellFormed()
      ensures outcome == Decode(t, registers).outcome
      ensures miso == Decode(t, registers).miso
      ensures doWrite == t.directionMosi
      ensures outcome == Ok ==> address == DecodedAddress(t) && address in registers && content == DecodedContent(t)
    {
      doWrite, address, content := t.directionMosi, 0, 0;
      if !t.sclkAtSelect {
        return FrameError(SclkNotIdle), doWrite, address, content, [];
      }
      miso := [t.directionMosi];

      var echo, aborted;
      address, echo, aborted := ReceiveAddress(t.addressSteps);
      miso := miso + echo;
      if aborted {
        return FrameError(Deselected), doWrite, address, content, miso;
      }

      if t.endBeforeRising {
        return FrameError(Deselected), doWrite, address, content, miso;
      }
      if !doWrite && t.edgeBeforePause {
        return FrameError(ReadPause), doWrite, address, content, miso;
      }

      assert Decode(t, registers) == DecodeData(t, registers, address, miso);
      var driven, sampled;
      content, driven, sampled := ReceiveContent(t.dataSteps, Get(registers, address));
      miso := miso + driven;
      if sampled != Ok {
        return sampled, doWrite, address, content, miso;
      }

      if t.edgeBeforeEnd {
        return FrameError(Overrun), doWrite, address, content, miso;
      }
      if !t.sclkAtEnd {
        return FrameError(SclkNotIdle), doWrite, address, content, miso;
      }
      outcome := Ok;
    }

    /** One SPI transaction: the frame is received and checked, and a write is
        committed only after every check has passed; the commit stores the
        content and then runs the hook watching its address. */
    method Transaction(t: Trace) returns (outcome: Outcome, miso: seq<bool>)
      requires t.WellFormed()
      modifies this`registers
      ensures Effect(outcome, registers, miso) == Run(t, old(registers), callbacks)
      ensures old(Valid()) ==> Valid()
    {
      var doWrite, address, content;
      outcome, doWrite, address, content, miso := ReceiveFrame(t);
      if outcome != Ok || !doWrite {
        return;
      }

      registers := registers[address := content];
      if address in callbacks {
        var cb := callbacks[address];
        for i := 0 to |cb.updateAddresses|
          invariant RunHook(registers, cb.updateAddresses[i..], cb.f) == Commit(old(registers), callbacks, address, content)
          invariant old(Valid()) ==> registers.Keys == old(registers).Keys
          invariant old(Valid()) ==> forall d :: d in cb.updateAddresses ==> d in old(registers)
        {
          var value := cb.f(registers);
          if value.Missing? {
            return KeyErr(value.key), miso;
          }
          registers := registers[cb.updateAddresses[i] := value.value];
        }
      }
    }
  }
}
