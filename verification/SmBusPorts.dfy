/** What a guest sees of the SMBus controller through its ports, with port numbers, protocols and status bits written
    out (src/devices/SMBus.cpp:65-238). */
module SmBusPorts {
  import opened Words
  import opened SmBusModel

  /** A status write that clears: one of bits 0, 1, 2, 4 and 5 is set. */
  predicate ClearingWrite(value: byte) {
    value % 2 == 1 || value / 2 % 2 == 1 || value / 4 % 2 == 1 || value / 16 % 2 == 1 || value / 32 % 2 == 1
  }

  lemma {:induction false} Halves(v: nat)
    ensures v / 2 / 2 == v / 4 && v / 4 / 2 == v / 8 && v / 8 / 2 == v / 16 && v / 16 / 2 == v / 32
  {
  }

  lemma {:induction false} BitsOf(v: nat)
    ensures Bit(v, 0) <==> v % 2 == 1
    ensures Bit(v, 1) <==> v / 2 % 2 == 1
    ensures Bit(v, 2) <==> v / 4 % 2 == 1
    ensures Bit(v, 3) <==> v / 8 % 2 == 1
    ensures Bit(v, 4) <==> v / 16 % 2 == 1
    ensures Bit(v, 5) <==> v / 32 % 2 == 1
  {
    Halves(v);
    BitDown(v, 1);
    BitDown(v, 2);
    BitDown(v / 2, 1);
    BitDown(v, 3);
    BitDown(v / 2, 2);
    BitDown(v / 4, 1);
    BitDown(v, 4);
    BitDown(v / 2, 3);
    BitDown(v / 4, 2);
    BitDown(v / 8, 1);
    BitDown(v, 5);
    BitDown(v / 2, 4);
    BitDown(v / 4, 3);
    BitDown(v / 8, 2);
    BitDown(v / 16, 1);
  }

  lemma {:induction false} BitDown(v: nat, i: nat)
    requires i > 0
    ensures Bit(v, i) == Bit(v / 2, i - 1)
  {
  }

  lemma {:induction false} ClearsIff(value: byte)
    ensures Clears(value) <==> ClearingWrite(value)
  {
    BitsOf(value);
  }

  /** Clear the status, put a byte into the data register, and start a transaction: the command to port 8, the
      address with the direction to port 4, and the protocol with the start bit to port 2. */
  function Request(clear: byte, data: byte, device: nat, read: bool, command: byte, protocol: nat): seq<Access> {
    [Write(0x0, clear), Write(0x6, data), Write(0x8, command), Write(0x4, 2 * device + if read then 1 else 0),
     Write(0x2, 0x8 + protocol)]
  }

  /** What a port reads as. */
  function Port(s: Bus, port: nat): nat
    requires ValidBus(s)
  {
    IORead(s, 1, port, 1).0
  }

  /** The registers after the first four writes. */
  function SetUp(s: Bus, data: byte, device: nat, read: bool, command: byte, protocol: nat): Bus
    requires device < 128 && protocol < 8
  {
    s.(status := 0, index := 0, data0 := data, command := command, address := 2 * device + (if read then 1 else 0),
       control := 0x8 + protocol)
  }

  lemma {:induction false} SetUpRegisters(s: Bus, data: byte, device: nat, read: bool, command: byte, protocol: nat)
    requires device < 128 && protocol < 8
    ensures var t := SetUp(s, data, device, read, command, protocol);
      t.control % 8 == protocol && Target(t) == device && Reading(t) == read
  {
  }

  lemma {:induction false} RequestRuns(s: Bus, clear: byte, data: byte, device: nat, read: bool, command: byte,
                                       protocol: nat)
    requires ValidBus(s) && device < 128 && protocol < 8 && ClearingWrite(clear)
    requires Transact(SetUp(s, data, device, read, command, protocol)).Done?
    ensures Run(s, Request(clear, data, device, read, command, protocol)) ==
      Transact(SetUp(s, data, device, read, command, protocol))
  {
    ClearsIff(clear);
    var s1 := s.(status := 0, index := 0);
    var s2 := s1.(data0 := data);
    var start := Start(device, read, command, protocol);
    assert Perform(s, Write(0x0, clear)) == Done(s1);
    DataWrite(s1, data);
    RunCons(s1, Write(0x6, data), start);
    RunCons(s, Write(0x0, clear), [Write(0x6, data)] + start);
    assert Request(clear, data, device, read, command, protocol) ==
           [Write(0x0, clear)] + ([Write(0x6, data)] + start);
    assert Ready(s2, device, read, command, protocol) == SetUp(s, data, device, read, command, protocol);
    StartTransacts(s2, device, read, command, protocol);
  }

  /** The status a transaction leaves, from a cleared one: completed, or a protocol error. */
  lemma {:induction false} StatusBits()
    ensures OrByte(0, 0x10) == 0x10 && OrByte(0, 0x04) == 0x04
  {
    OrZero(0x10);
    OrZero(0x04);
  }

  lemma {:induction false} OrZero(a: nat)
    ensures Or(0, a) == a
  {
    if a == 0 {
    } else {
      OrZero(a / 2);
    }
  }

  /** The protocols that are implemented: quick, byte, byte data, word data and block data. */
  predicate Implemented(protocol: nat) {
    protocol == 0 || protocol == 1 || protocol == 2 || protocol == 3 || protocol == 5
  }

  /** A transaction for an address without a device, or with a protocol that is not implemented, reports a
      protocol error (bit 2) and nothing else, and touches neither data nor devices. */
  lemma {:induction false} RefusedRequest(s: Bus, clear: byte, data: byte, device: nat, read: bool, command: byte,
                                          protocol: nat)
    requires ValidBus(s) && device < 128 && protocol < 8 && ClearingWrite(clear)
    requires device !in s.devices || !Implemented(protocol)
    ensures var e := Run(s, Request(clear, data, device, read, command, protocol));
      && e.Done? && e.bus.devices == s.devices
      && Port(e.bus, 0x0) == 0x04 && Port(e.bus, 0x6) == data && Port(e.bus, 0x7) == s.data1
  {
    StatusBits();
    RequestRuns(s, clear, data, device, read, command, protocol);
  }

  /** A completed transaction sets the status and changes nothing else that the exchange did not. */
  lemma {:induction false} TransactStatus(t: Bus)
    requires ValidBus(t) && t.status == 0 && Target(t) in t.devices && Implemented(t.control % 8)
    requires Exchange(t).Done? && Exchange(t).bus.status == 0
    ensures Transact(t) == Done(Exchange(t).bus.(status := 0x10))
  {
    StatusBits();
  }

  lemma {:induction false} ReadExchange(t: Bus)
    requires ValidBus(t) && Target(t) in t.devices && Reading(t) && Implemented(t.control % 8)
    requires t.control % 8 == 3 ==> t.command < 255
    ensures var protocol, memory, e := t.control % 8, t.devices[Target(t)], Exchange(t);
      && e.Done? && e.bus.devices == t.devices && e.bus.status == t.status
      && e.bus.data0 == (if protocol == 0 then t.data0
                         else if protocol == 2 || protocol == 3 then memory[t.command] else 0)
      && e.bus.data1 == (if protocol == 3 then memory[t.command + 1] else t.data1)
  {
  }

  lemma {:induction false} WriteExchange(t: Bus, other: nat, at: byte)
    requires ValidBus(t) && Target(t) in t.devices && !Reading(t) && Implemented(t.control % 8) && other in t.devices
    requires t.control % 8 == 2 || t.control % 8 == 3 ==> t.command < 255
    requires t.control % 8 == 5 ==> t.data0 <= 32 && t.command + t.data0 <= 256
    ensures var protocol, e := t.control % 8, Exchange(t);
      && e.Done? && e.bus.devices.Keys == t.devices.Keys && e.bus.status == t.status
      && e.bus.data0 == t.data0 && e.bus.data1 == t.data1
      && |e.bus.devices[other]| == 256
      && e.bus.devices[other][at] ==
           (if other != Target(t) then t.devices[other][at]
            else if (protocol == 2 || protocol == 3) && at == t.command then t.data0
            else if (protocol == 2 || protocol == 3) && at == t.command + 1 then 0
            else if protocol == 5 && t.command <= at < t.command + t.data0 then t.block[at - t.command]
            else t.devices[other][at])
  {
    if t.control % 8 == 5 {
      StoredAt(t.devices[Target(t)], t.command, t.block[..t.data0], at);
    }
  }

  /** A read from a connected device with an implemented protocol completes (bit 4) without an error: a byte read
      puts the addressed byte into port 6, a word read the addressed byte into port 6 and the next one into port 7,
      and the others leave a zero, or the register as it was for a quick command. No memory changes. */
  lemma {:induction false} ReadRequest(s: Bus, clear: byte, data: byte, device: nat, command: byte, protocol: nat)
    requires ValidBus(s) && device < 128 && ClearingWrite(clear)
    requires device in s.devices && Implemented(protocol) && (protocol == 3 ==> command < 255)
    ensures var e := Run(s, Request(clear, data, device, true, command, protocol));
      && e.Done? && e.bus.devices == s.devices && Port(e.bus, 0x0) == 0x10
      && Port(e.bus, 0x6) == (if protocol == 0 then data
                              else if protocol == 2 || protocol == 3 then s.devices[device][command] else 0)
      && Port(e.bus, 0x7) == (if protocol == 3 then s.devices[device][command + 1] else s.data1)
  {
    var t := SetUp(s, data, device, true, command, protocol);
    SetUpRegisters(s, data, device, true, command, protocol);
    ReadExchange(t);
    TransactStatus(t);
    RequestRuns(s, clear, data, device, true, command, protocol);
  }

  /** A write to a connected device with an implemented protocol completes without an error and leaves the data
      register: a byte or word write stores the byte and clears the next one, a block write stores the first `data`
      bytes of the block buffer, and the others store nothing. No other byte of any device changes. */
  lemma {:induction false} WriteRequest(s: Bus, clear: byte, data: byte, device: nat, command: byte, protocol: nat,
                                        other: nat, at: byte)
    requires ValidBus(s) && device < 128 && ClearingWrite(clear) && other in s.devices
    requires device in s.devices && Implemented(protocol) && (protocol == 2 || protocol == 3 ==> command < 255)
    requires protocol == 5 ==> data <= 32 && command + data <= 256
    ensures var e := Run(s, Request(clear, data, device, false, command, protocol));
      && e.Done? && e.bus.devices.Keys == s.devices.Keys && Port(e.bus, 0x0) == 0x10
      && Port(e.bus, 0x6) == data && Port(e.bus, 0x7) == s.data1
      && |e.bus.devices[other]| == 256
      && e.bus.devices[other][at] ==
           (if other != device then s.devices[other][at]
            else if (protocol == 2 || protocol == 3) && at == command then data
            else if (protocol == 2 || protocol == 3) && at == command + 1 then 0
            else if protocol == 5 && command <= at < command + data then s.block[at - command]
            else s.devices[other][at])
  {
    var t := SetUp(s, data, device, false, command, protocol);
    SetUpRegisters(s, data, device, false, command, protocol);
    WriteExchange(t, other, at);
    TransactStatus(t);
    RequestRuns(s, clear, data, device, false, command, protocol);
  }

  /** A request is only without a defined effect when it would leave the image of the device or the block buffer. */
  lemma {:induction false} UndefinedRequest(s: Bus, data: byte, device: nat, read: bool, command: byte, protocol: nat)
    requires ValidBus(s) && device < 128 && protocol < 8
    ensures Transact(SetUp(s, data, device, read, command, protocol)).OutOfBounds? <==>
      device in s.devices && ((protocol == 3 && command == 255) || (!read && protocol == 2 && command == 255)
                              || (!read && protocol == 5 && (data > 32 || command + data > 256)))
  {
  }

  /** Ports that are not written keep their value, a register port reads back what was written to it, and the
      enable port reads back its low five bits. A status write clears or leaves the completion bit, and rewinds the
      block buffer. */
  lemma {:induction false} RegisterPorts(s: Bus, port: nat, value: nat)
    requires ValidBus(s) && port in {0x0, 0x4, 0x6, 0x7, 0x8}
    ensures var e := Perform(s, Write(port, value));
      && e.Done? && e.bus.devices == s.devices && e.bus.block == s.block
      && (forall p :: p in {0x0, 0x2, 0x4, 0x6, 0x7, 0x8} && p != port ==> Port(e.bus, p) == Port(s, p))
      && Port(e.bus, port) == (if port != 0x0 then value % 0x100 else if ClearingWrite(value % 0x100) then 0 else 0x10)
      && e.bus.index == (if port == 0x0 then 0 else s.index)
  {
    ClearsIff(value % 0x100);
  }

  /** A write to the enable port without the start bit only stores its value; with the abort bit (bit 5) it also
      sets bit 0 of the status. */
  lemma {:induction false} EnablePort(s: Bus, value: byte)
    requires ValidBus(s) && value / 8 % 2 == 0
    ensures var e := Perform(s, Write(0x2, value));
      && e.Done? && e.bus.devices == s.devices && Port(e.bus, 0x2) == value % 32
      && (Bit(Port(e.bus, 0x0), 0) <==> Bit(s.status, 0) || value / 32 % 2 == 1)
      && (forall i :: i > 0 ==> (Bit(Port(e.bus, 0x0), i) <==> Bit(s.status, i)))
  {
    BitsOf(value);
    forall i: nat
      ensures Bit(Or(s.status, 0x1), i) <==> Bit(s.status, i) || i == 0
    {
      OrOneBit(s.status, i);
    }
    assert Perform(s, Write(0x2, value)) == Done(WithControl(s, value));
  }

  lemma {:induction false} OrOneBit(w: nat, i: nat)
    ensures Bit(Or(w, 0x1), i) <==> Bit(w, i) || i == 0
  {
    OrBits(w, 1, i);
    if i > 0 {
      ZeroBits(i - 1);
    }
  }

  /** The block port goes through the 32 bytes of the buffer in turn, for reading and for writing. */
  lemma {:induction false} BlockPort(s: Bus, value: nat)
    requires ValidBus(s)
    ensures var e := Perform(s, Write(0x9, value));
      && e.Done? && e.bus.devices == s.devices && e.bus.block == s.block[s.index := value % 0x100]
      && e.bus.index == (s.index + 1) % 32
    ensures var (read, after) := IORead(s, 1, 0x9, 1);
      read == s.block[s.index] && after == s.(index := (s.index + 1) % 32)
  {
  }

  /** Only single-byte accesses to bar 1 do anything; the port is the address modulo 64, the value written is taken
      modulo 256, and ports without a register ignore writes and read as zero. */
  lemma {:induction false} OtherAccesses(s: Bus, barIndex: int, addr: nat, value: nat, size: nat)
    requires ValidBus(s)
    ensures barIndex != 1 || size != 1 ==>
      IOWrite(s, barIndex, addr, value, size) == Done(s) && IORead(s, barIndex, addr, size) == (0, s)
    ensures IOWrite(s, 1, addr, value, 1) == IOWrite(s, 1, addr % 64, value % 256, 1)
    ensures IORead(s, 1, addr, 1) == IORead(s, 1, addr % 64, 1)
    ensures addr % 64 !in {0x0, 0x2, 0x4, 0x6, 0x7, 0x8, 0x9} ==>
      IOWrite(s, 1, addr, value, 1) == Done(s) && IORead(s, 1, addr, 1) == (0, s)
  {
    assert addr % 64 % 64 == addr % 64 && value % 256 % 256 == value % 256;
  }
}
