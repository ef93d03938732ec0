/** What the TMC4671 register slave promises: the layout of the words its
    encoder builds, the round trip of a word through a transaction, which
    failures leave the register file alone, what a read drives onto MISO,
    what a write may change, and the identification registers. */
module TrinamicProperties {
  import opened Bits
  import opened Trinamic

  // ---------------------------------------------------------------------------
  // A frame as a bus master sends it

  /** Bits clocked in with chip select held throughout. */
  function CleanSteps(bits: seq<bool>): (steps: seq<BitStep>)
    ensures |steps| == |bits|
    ensures forall k :: 0 <= k < |bits| ==> steps[k] == BitStep(false, false, bits[k])
  {
    seq(|bits|, k requires 0 <= k < |bits| => BitStep(false, false, bits[k]))
  }

  /** The frame a master sends for `word`: its 40 low bits, most significant
      first, SCLK high at both ends of the frame, chip select held, and no
      clock edge where the slave waits for none. */
  function BusFrame(word: int): (t: Trace)
    ensures t.WellFormed()
  {
    var bits := WordBits(word, WORD_WIDTH);
    Trace(true, bits[0], CleanSteps(bits[1..1 + ADDRESS_BITS]), false, false,
          CleanSteps(bits[1 + ADDRESS_BITS..]), false, true)
  }

  /** Every check of a transaction passes, whatever the register file holds:
      the reference, independent of Decode, for when a frame is accepted. */
  predicate FrameClean(t: Trace)
  {
    && t.sclkAtSelect
    && (forall i :: 0 <= i < |t.addressSteps| ==> !t.addressSteps[i].Aborted())
    && !t.endBeforeRising
    && (t.directionMosi || !t.edgeBeforePause)
    && (forall i :: 0 <= i < |t.dataSteps| ==> !t.dataSteps[i].Aborted())
    && !t.edgeBeforeEnd
    && t.sclkAtEnd
  }

  /** `r` is one of the addresses the hook watching `address` rewrites. */
  predicate Dependent(callbacks: Callbacks, address: int, r: int)
  {
    address in callbacks && r in callbacks[address].updateAddresses
  }

  // ---------------------------------------------------------------------------
  // The encoder

  lemma Pow2Values()
    ensures Pow2(ADDRESS_BITS) == 128
    ensures Pow2(CONTENT_BITS) == 0x1_0000_0000
    ensures Pow2(39) == 128 * Pow2(CONTENT_BITS)
    ensures Pow2(WORD_WIDTH) == 256 * Pow2(CONTENT_BITS)
  {
    assert Pow2(8) == 256;
    Pow2Add(8, 8);
    Pow2Add(16, 16);
    Pow2Add(7, 32);
    Pow2Add(8, 32);
  }

  /** A word the encoder builds is 40 bits wide: the direction on bit 39,
      zeros on bits 38 to 36, the low four address bits on bits 35 to 32 and
      the low 32 content bits below them. */
  lemma {:induction false} EncodedLayout(registers: map<int, int>, operation: string, address: int, content: int, w: nat)
    requires CreateSpiWord(registers, operation, address, content) == Word(w)
    ensures w < Pow2(WORD_WIDTH)
    ensures w / Pow2(CONTENT_BITS) == (if operation == "write" then 128 else 0) + address % 16
    ensures w % Pow2(CONTENT_BITS) == content % Pow2(CONTENT_BITS)
    ensures WordBits(w, WORD_WIDTH)
         == [operation == "write"] + WordBits(address % 16, ADDRESS_BITS) + WordBits(content % Pow2(CONTENT_BITS), CONTENT_BITS)
  {
    Pow2Values();
    var p := Pow2(CONTENT_BITS);
    var dir := if operation == "write" then 1 else 0;
    var a4, c := address % 16, content % p;
    var hi := dir * 128 + a4;
    assert w == p * hi + c;
    DivModUnique(w, p, hi, c);
    WordBitsConcat(hi, c, 8, CONTENT_BITS);
    WordBitsConcat(dir, a4, 1, ADDRESS_BITS);
    assert WordBits(dir, 1) == [operation == "write"];
  }

  lemma SmallMod(x: int, m: int)
    requires 0 <= x < m
    ensures x % m == x
  {
  }

  /** `t` is a frame that passes every timing check and carries `word`, most
      significant bit first. */
  predicate Carries(t: Trace, word: int)
  {
    && t.WellFormed()
    && FrameClean(t)
    && [t.directionMosi] + Mosi(t.addressSteps) + Mosi(t.dataSteps) == WordBits(word, WORD_WIDTH)
  }

  /** The frame a master sends for a word carries it. */
  lemma BusFrameCarries(word: int)
    ensures Carries(BusFrame(word), word)
  {
    var bits := WordBits(word, WORD_WIDTH);
    var t := BusFrame(word);
    assert Mosi(t.addressSteps) == bits[1..1 + ADDRESS_BITS];
    assert Mosi(t.dataSteps) == bits[1 + ADDRESS_BITS..];
    assert [bits[0]] + bits[1..1 + ADDRESS_BITS] + bits[1 + ADDRESS_BITS..] == bits;
  }

  /** From a frame carrying an encoded word the slave decodes the direction,
      the low four bits of the address and the low 32 bits of the content. */
  lemma EncodedFrame(registers: map<int, int>, operation: string, address: int, content: int, w: nat, t: Trace)
    requires CreateSpiWord(registers, operation, address, content) == Word(w) && Carries(t, w)
    ensures t.directionMosi == (operation == "write")
    ensures DecodedAddress(t) == address % 16
    ensures DecodedContent(t) == content % Pow2(CONTENT_BITS)
  {
    EncodedLayout(registers, operation, address, content, w);
    var a4, c := address % 16, content % Pow2(CONTENT_BITS);
    var got := [t.directionMosi] + Mosi(t.addressSteps) + Mosi(t.dataSteps);
    var sent := [operation == "write"] + WordBits(a4, ADDRESS_BITS) + WordBits(c, CONTENT_BITS);
    assert got[0] == sent[0];
    assert Mosi(t.addressSteps) == got[1..1 + ADDRESS_BITS] == sent[1..1 + ADDRESS_BITS] == WordBits(a4, ADDRESS_BITS);
    assert Mosi(t.dataSteps) == got[1 + ADDRESS_BITS..] == sent[1 + ADDRESS_BITS..] == WordBits(c, CONTENT_BITS);
    Pow2Values();
    FromWordBits(a4, ADDRESS_BITS);
    SmallMod(a4, Pow2(ADDRESS_BITS));
    FromWordBits(c, CONTENT_BITS);
    SmallMod(c, Pow2(CONTENT_BITS));
  }

  // ---------------------------------------------------------------------------
  // Which frames are accepted

  /** The checks before the commit pass exactly when the frame is clean and
      its address is in the register file. */
  lemma DecodeSucceedsIff(t: Trace, registers: map<int, int>)
    requires t.WellFormed()
    ensures Decode(t, registers).outcome == Ok <==> FrameClean(t) && DecodedAddress(t) in registers
  {
    var ka, kd := FirstAbort(t.addressSteps), FirstAbort(t.dataSteps);
    if ka < ADDRESS_BITS {
      assert t.addressSteps[ka].Aborted();
    }
    if kd < CONTENT_BITS {
      assert t.dataSteps[kd].Aborted();
    }
  }

  /** The commit only ever ends Ok or with the KeyError of a hook. */
  lemma {:induction false} RunHookOutcome(registers: map<int, int>, pending: seq<int>, f: map<int, int> -> Lookup)
    ensures RunHook(registers, pending, f).outcome.Ok? || RunHook(registers, pending, f).outcome.KeyErr?
    decreases |pending|
  {
    if pending != [] && f(registers).Found? {
      RunHookOutcome(registers[pending[0] := f(registers).value], pending[1..], f);
    }
  }

  /** A read never changes the register file, and it succeeds exactly when
      the frame is clean and its address exists. */
  lemma ReadChangesNothing(t: Trace, registers: map<int, int>, callbacks: Callbacks)
    requires t.WellFormed() && !t.directionMosi
    ensures Run(t, registers, callbacks).registers == registers
    ensures Run(t, registers, callbacks).outcome == Ok <==> FrameClean(t) && DecodedAddress(t) in registers
  {
    DecodeSucceedsIff(t, registers);
  }

  /** A frame error, raised before any commit, leaves the register file as it was. */
  lemma FrameErrorChangesNothing(t: Trace, registers: map<int, int>, callbacks: Callbacks)
    requires t.WellFormed()
    ensures Run(t, registers, callbacks).outcome.FrameError? ==> Run(t, registers, callbacks).registers == registers
  {
    var a := DecodedAddress(t);
    if Decode(t, registers).outcome == Ok && t.directionMosi && a in callbacks {
      RunHookOutcome(registers[a := DecodedContent(t)], callbacks[a].updateAddresses, callbacks[a].f);
    }
  }

  /** A frame addressing a register that does not exist never succeeds and
      changes nothing; when every timing check passes it fails with the
      KeyError of that address. */
  lemma MissingAddressFails(t: Trace, registers: map<int, int>, callbacks: Callbacks)
    requires t.WellFormed() && DecodedAddress(t) !in registers
    ensures Run(t, registers, callbacks).outcome != Ok
    ensures Run(t, registers, callbacks).registers == registers
    ensures FrameClean(t) ==> Run(t, registers, callbacks).outcome == KeyErr(DecodedAddress(t))
  {
    DecodeSucceedsIff(t, registers);
  }

  /** The 250 ns pause after the address is checked on reads only: on a
      write, a falling edge inside it changes nothing. */
  lemma ReadPauseOnlyOnReads(t: Trace, registers: map<int, int>, callbacks: Callbacks, early: bool)
    requires t.WellFormed() && t.directionMosi
    ensures Run(t.(edgeBeforePause := early), registers, callbacks) == Run(t, registers, callbacks)
  {
    var t' := t.(edgeBeforePause := early);
    assert t'.addressSteps == t.addressSteps && t'.dataSteps == t.dataSteps;
    assert DecodedAddress(t') == DecodedAddress(t) && DecodedContent(t') == DecodedContent(t);
    assert Decode(t', registers) == Decode(t, registers);
  }

  /** On a read whose address phase completed, a falling edge inside the
      pause is a timing error. */
  lemma ReadPauseEnforced(t: Trace, registers: map<int, int>, callbacks: Callbacks)
    requires t.WellFormed() && !t.directionMosi && t.edgeBeforePause
    requires t.sclkAtSelect && !t.endBeforeRising
    requires forall i :: 0 <= i < |t.addressSteps| ==> !t.addressSteps[i].Aborted()
    ensures Run(t, registers, callbacks).outcome == FrameError(ReadPause)
    ensures Run(t, registers, callbacks).registers == registers
  {
  }

  /** Chip select released during an address bit, after a clean select, is
      a Deselected frame error and changes nothing. */
  lemma AddressAbort(t: Trace, registers: map<int, int>, callbacks: Callbacks, i: nat)
    requires t.WellFormed() && t.sclkAtSelect
    requires i < |t.addressSteps| && t.addressSteps[i].Aborted()
    ensures Run(t, registers, callbacks).outcome == FrameError(Deselected)
    ensures Run(t, registers, callbacks).registers == registers
  {
  }

  /** Chip select released during a content bit, after a header that passed
      and a lookup that succeeded, is a Deselected frame error and changes
      nothing. */
  lemma ContentAbort(t: Trace, registers: map<int, int>, callbacks: Callbacks, i: nat)
    requires t.WellFormed() && t.sclkAtSelect && !t.endBeforeRising && (t.directionMosi || !t.edgeBeforePause)
    requires forall j :: 0 <= j < |t.addressSteps| ==> !t.addressSteps[j].Aborted()
    requires DecodedAddress(t) in registers
    requires i < |t.dataSteps| && t.dataSteps[i].Aborted()
    ensures Run(t, registers, callbacks).outcome == FrameError(Deselected)
    ensures Run(t, registers, callbacks).registers == registers
  {
    assert FirstAbort(t.addressSteps) == ADDRESS_BITS;
    assert FirstAbort(t.dataSteps) <= i;
  }

  /** A frame that breaks any timing check fails, with a frame error or with
      the KeyError of a missing address, and leaves the register file alone. */
  lemma UncleanFrameFails(t: Trace, registers: map<int, int>, callbacks: Callbacks)
    requires t.WellFormed() && !FrameClean(t)
    ensures Run(t, registers, callbacks).outcome.FrameError?
         || Run(t, registers, callbacks).outcome == KeyErr(DecodedAddress(t))
    ensures Run(t, registers, callbacks).registers == registers
  {
    DecodeSucceedsIff(t, registers);
  }

  // ---------------------------------------------------------------------------
  // What drives MISO

  /** MISO carries the direction bit and the address bits as received, then
      the addressed register most significant bit first; a frame cut short
      drives a prefix of that. */
  lemma MisoPrefix(t: Trace, registers: map<int, int>)
    requires t.WellFormed()
    ensures var a := DecodedAddress(t);
      Decode(t, registers).miso
      <= [t.directionMosi] + Mosi(t.addressSteps) + (if a in registers then WordBits(registers[a], CONTENT_BITS) else [])
  {
    var a := DecodedAddress(t);
    var echoed := [t.directionMosi] + Mosi(t.addressSteps);
    var ka := FirstAbort(t.addressSteps);
    if ka < ADDRESS_BITS {
      assert Mosi(t.addressSteps)[..ka + 1] <= Mosi(t.addressSteps);
    } else if a in registers {
      var stored := WordBits(registers[a], CONTENT_BITS);
      var kd := FirstAbort(t.dataSteps);
      if kd < CONTENT_BITS {
        assert echoed + stored[..kd + 1] <= echoed + stored;
      }
    }
  }

  /** On a completed frame MISO has carried 40 levels: the echoed header,
      then at position 8 + k bit 31 - k of the addressed register, so the
      last 32 levels read back the register's low 32 bits. */
  lemma DrivenLevels(t: Trace, registers: map<int, int>)
    requires t.WellFormed() && Decode(t, registers).outcome == Ok
    ensures var a, miso := DecodedAddress(t), Decode(t, registers).miso;
      && |miso| == WORD_WIDTH
      && miso[..1 + ADDRESS_BITS] == [t.directionMosi] + Mosi(t.addressSteps)
      && (forall k :: 1 + ADDRESS_BITS <= k < WORD_WIDTH ==> miso[k] == Bit(registers[a], WORD_WIDTH - 1 - k))
      && FromBitsMsb(miso[1 + ADDRESS_BITS..]) == registers[a] % Pow2(CONTENT_BITS)
  {
    var a := DecodedAddress(t);
    var echoed := [t.directionMosi] + Mosi(t.addressSteps);
    var stored := WordBits(registers[a], CONTENT_BITS);
    var miso := Decode(t, registers).miso;
    assert miso == echoed + stored;
    assert miso[..1 + ADDRESS_BITS] == echoed;
    assert miso[1 + ADDRESS_BITS..] == stored;
    FromWordBits(registers[a], CONTENT_BITS);
  }

  // ---------------------------------------------------------------------------
  // What a write changes

  /** The hook assigns only the addresses it rewrites, and keeps the others. */
  lemma {:induction false} RunHookFrame(registers: map<int, int>, pending: seq<int>, f: map<int, int> -> Lookup)
    ensures var u := RunHook(registers, pending, f);
      && (forall r :: r in registers ==> r in u.registers)
      && (forall r :: r in u.registers && r !in registers ==> r in pending)
      && (forall r :: r in registers && r !in pending ==> u.registers[r] == registers[r])
    decreases |pending|
  {
    if pending != [] && f(registers).Found? {
      var next := registers[pending[0] := f(registers).value];
      RunHookFrame(next, pending[1..], f);
      assert forall r :: r in registers ==> r in next;
      forall r | r in pending[1..]
        ensures r in pending
      {
      }
    }
  }

  /** A transaction changes at most the address it writes and the addresses
      the hook watching that address rewrites; it adds no other key. */
  lemma WriteChangesOnly(t: Trace, registers: map<int, int>, callbacks: Callbacks, r: int)
    requires t.WellFormed()
    requires r != DecodedAddress(t) && !Dependent(callbacks, DecodedAddress(t), r)
    ensures r in Run(t, registers, callbacks).registers <==> r in registers
    ensures r in registers ==> Run(t, registers, callbacks).registers[r] == registers[r]
  {
    var a := DecodedAddress(t);
    if Decode(t, registers).outcome == Ok && t.directionMosi && a in callbacks {
      RunHookFrame(registers[a := DecodedContent(t)], callbacks[a].updateAddresses, callbacks[a].f);
    }
  }

  /** When every hook rewrites existing registers, no transaction adds a key,
      so that property is kept. */
  lemma KeysPreserved(t: Trace, registers: map<int, int>, callbacks: Callbacks)
    requires t.WellFormed() && HooksTargetRegisters(registers, callbacks)
    ensures Run(t, registers, callbacks).registers.Keys == registers.Keys
    ensures HooksTargetRegisters(Run(t, registers, callbacks).registers, callbacks)
  {
    var a := DecodedAddress(t);
    if Decode(t, registers).outcome == Ok && t.directionMosi {
      DecodeSucceedsIff(t, registers);
      if a in callbacks {
        var stored := registers[a := DecodedContent(t)];
        var u := RunHook(stored, callbacks[a].updateAddresses, callbacks[a].f);
        RunHookFrame(stored, callbacks[a].updateAddresses, callbacks[a].f);
        assert forall d :: d in callbacks[a].updateAddresses ==> d in registers;
        assert forall r :: r in u.registers <==> r in registers;
      }
    }
  }

  // ---------------------------------------------------------------------------
  // Round trips through the encoder and a transaction

  /** A frame that passes every timing check, addressed to `a` and carrying
      `c`, fails only when `a` is missing, and otherwise commits `c` at `a`
      if it is a write. */
  lemma CleanFrameEffect(t: Trace, registers: map<int, int>, callbacks: Callbacks, a: int, c: int)
    requires t.WellFormed() && FrameClean(t) && DecodedAddress(t) == a && DecodedContent(t) == c
    ensures var e := Run(t, registers, callbacks);
      && (a !in registers ==> e.outcome == KeyErr(a) && e.registers == registers)
      && (a in registers && !t.directionMosi ==> e.outcome == Ok && e.registers == registers)
      && (a in registers && t.directionMosi ==> Update(e.outcome, e.registers) == Commit(registers, callbacks, a, c))
  {
    DecodeSucceedsIff(t, registers);
  }

  /** A frame carrying a write word commits the low 32 bits of the content
      at the low four bits of the address, or fails with the KeyError of that
      address and changes nothing. */
  lemma WriteFrameEffect(registers: map<int, int>, callbacks: Callbacks, address: int, content: int, w: nat, t: Trace)
    requires CreateSpiWord(registers, "write", address, content) == Word(w) && Carries(t, w)
    ensures var e, a, c := Run(t, registers, callbacks), address % 16, content % Pow2(CONTENT_BITS);
      && (a in registers ==> Update(e.outcome, e.registers) == Commit(registers, callbacks, a, c))
      && (a !in registers ==> e.outcome == KeyErr(a) && e.registers == registers)
  {
    EncodedFrame(registers, "write", address, content, w, t);
    CleanFrameEffect(t, registers, callbacks, address % 16, content % Pow2(CONTENT_BITS));
  }

  /** Writing a register that no hook watches stores the content's low 32 bits. */
  lemma WriteRoundTrip(registers: map<int, int>, callbacks: Callbacks, address: int, content: int, w: nat, t: Trace)
    requires CreateSpiWord(registers, "write", address, content) == Word(w) && Carries(t, w)
    requires 0 <= address < 16 && address !in callbacks
    ensures Run(t, registers, callbacks).outcome == Ok
    ensures Run(t, registers, callbacks).registers == registers[address := content % Pow2(CONTENT_BITS)]
  {
    EncodedFrame(registers, "write", address, content, w, t);
    SmallMod(address, 16);
    CleanFrameEffect(t, registers, callbacks, address, content % Pow2(CONTENT_BITS));
  }

  /** A frame carrying a read word changes nothing and drives the register at
      the low four address bits onto MISO, whose last 32 levels read back its
      low 32 bits; a missing register fails with its KeyError. */
  lemma ReadFrameEffect(registers: map<int, int>, callbacks: Callbacks, address: int, content: int, w: nat, t: Trace)
    requires CreateSpiWord(registers, "read", address, content) == Word(w) && Carries(t, w)
    ensures var e, a := Run(t, registers, callbacks), address % 16;
      && e.registers == registers
      && (a in registers ==> e.outcome == Ok && FromBitsMsb(e.miso[1 + ADDRESS_BITS..]) == registers[a] % Pow2(CONTENT_BITS))
      && (a !in registers ==> e.outcome == KeyErr(a))
  {
    EncodedFrame(registers, "read", address, content, w, t);
    CleanFrameEffect(t, registers, callbacks, address % 16, content % Pow2(CONTENT_BITS));
    if address % 16 in registers {
      DrivenLevels(t, registers);
    }
  }

  /** Reading back a register no hook watches returns what was written, cut to 32 bits. */
  lemma WriteThenRead(registers: map<int, int>, callbacks: Callbacks, address: int, content: int, ignored: int,
                      w1: nat, t1: Trace, w2: nat, t2: Trace)
    requires CreateSpiWord(registers, "write", address, content) == Word(w1) && Carries(t1, w1)
    requires 0 <= address < 16 && address !in callbacks
    requires CreateSpiWord(registers[address := content % Pow2(CONTENT_BITS)], "read", address, ignored) == Word(w2)
    requires Carries(t2, w2)
    ensures var written := Run(t1, registers, callbacks).registers;
      Run(t2, written, callbacks).outcome == Ok
      && FromBitsMsb(Run(t2, written, callbacks).miso[1 + ADDRESS_BITS..]) == content % Pow2(CONTENT_BITS)
  {
    var c := content % Pow2(CONTENT_BITS);
    WriteRoundTrip(registers, callbacks, address, content, w1, t1);
    var written := registers[address := c];
    ReadFrameEffect(written, callbacks, address, ignored, w2, t2);
    SmallMod(address, 16);
    SmallMod(c, Pow2(CONTENT_BITS));
  }

  // ---------------------------------------------------------------------------
  // The device as constructed

  /** The register file starts with "4671" in 0x00 and zero in 0x01; the
      identification table holds the values the chip reports. */
  lemma InitialValues()
    ensures InitialRegisters() == map[0x00 := 0x3436_3731, 0x01 := 0]
    ensures IdentificationTable() ==
      map[0 := 0x3436_3731, 1 := 0x0000_0100, 2 := 0x2022_0323, 3 := 0x0010_1029, 4 := 0x7661_7232, 5 := 0x7265_7633]
    ensures HooksTargetRegisters(InitialRegisters(), SeededCallbacks())
  {
    assert BigEndian("4671") == 0x3436_3731 by {
      BigEndianPrefixes("4671");
    }
    assert BigEndian("var2") == 0x7661_7232 by {
      BigEndianPrefixes("var2");
    }
    assert BigEndian("rev3") == 0x7265_7633 by {
      BigEndianPrefixes("rev3");
    }
  }

  /** Unfolds BigEndian over a four-byte string. */
  lemma BigEndianPrefixes(s: string)
    requires |s| == 4
    ensures BigEndian(s) == ((s[0] as nat * 256 + s[1] as nat) * 256 + s[2] as nat) * 256 + s[3] as nat
  {
    assert s[..1][..0] == [];
    assert BigEndian(s[..1]) == s[0] as nat;
    assert s[..2][..1] == s[..1];
    assert BigEndian(s[..2]) == s[0] as nat * 256 + s[1] as nat;
    assert s[..3][..2] == s[..2];
    assert BigEndian(s[..3]) == (s[0] as nat * 256 + s[1] as nat) * 256 + s[2] as nat;
    assert s[..3] == s[..|s| - 1];
  }

  /** Storing v at 0x01 under the seeded hook: when v indexes the
      identification table, 0x00 is also set to the table's entry; otherwise
      the KeyError of v is raised after 0x01 already holds v, and 0x00 keeps
      its value. */
  lemma IdentificationCommit(registers: map<int, int>, v: int)
    ensures v in IdentificationTable() ==>
      Commit(registers, SeededCallbacks(), 0x01, v) == Update(Ok, registers[0x01 := v][0x00 := IdentificationTable()[v]])
    ensures v !in IdentificationTable() ==>
      Commit(registers, SeededCallbacks(), 0x01, v) == Update(KeyErr(v), registers[0x01 := v])
  {
  }

  /** Under the seeded hook, a frame writing v to 0x01 stores the low 32
      bits c of v there, then selects the identification value c names into
      0x00, or fails with the KeyError of c leaving 0x00 as it was. */
  lemma IdentificationWrite(registers: map<int, int>, v: int, w: nat, t: Trace)
    requires CreateSpiWord(registers, "write", 0x01, v) == Word(w) && Carries(t, w)
    ensures var e, c := Run(t, registers, SeededCallbacks()), v % Pow2(CONTENT_BITS);
      && (c in IdentificationTable() ==>
            e.outcome == Ok && e.registers == registers[0x01 := c][0x00 := IdentificationTable()[c]])
      && (c !in IdentificationTable() ==> e.outcome == KeyErr(c) && e.registers == registers[0x01 := c])
  {
    var c := v % Pow2(CONTENT_BITS);
    var e := Run(t, registers, SeededCallbacks());
    WriteFrameEffect(registers, SeededCallbacks(), 0x01, v, w, t);
    SmallMod(0x01, 16);
    assert Update(e.outcome, e.registers) == Commit(registers, SeededCallbacks(), 0x01, c);
    IdentificationCommit(registers, c);
  }

  /** On the device as constructed the register file keeps the keys 0x00 and 0x01. */
  lemma SeededKeysStay(t: Trace, registers: map<int, int>)
    requires t.WellFormed() && registers.Keys == {0x00, 0x01}
    ensures Run(t, registers, SeededCallbacks()).registers.Keys == {0x00, 0x01}
  {
    KeysPreserved(t, registers, SeededCallbacks());
  }

  /** Under the seeded hook, repeating a transaction leaves the register file
      as the first one left it. */
  lemma SeededIdempotent(t: Trace, registers: map<int, int>)
    requires t.WellFormed()
    ensures var once := Run(t, registers, SeededCallbacks()).registers;
      Run(t, once, SeededCallbacks()).registers == once
  {
    var once := Run(t, registers, SeededCallbacks()).registers;
    var a, c := DecodedAddress(t), DecodedContent(t);
    DecodeSucceedsIff(t, registers);
    if Decode(t, registers).outcome == Ok && t.directionMosi {
      IdentificationCommit(registers, c);
      DecodeSucceedsIff(t, once);
      if a == 0x01 {
        IdentificationCommit(once, c);
      }
    }
  }
}
