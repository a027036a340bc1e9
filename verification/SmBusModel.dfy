/** The SMBus controller with EEPROM devices behind it, as functions on values
    (src/devices/SMBus.cpp:52-238, src/devices/EEPROMDevice.cpp:42-85). */
module SmBusModel {
  import opened Words

  const BLOCK_SIZE := 32

  // Register offsets.
  const SMB_GLOBAL_STATUS := 0x0
  const SMB_GLOBAL_ENABLE := 0x2
  const SMB_HOST_ADDRESS := 0x4
  const SMB_HOST_DATA := 0x6
  const SMB_HOST_COMMAND := 0x8
  const SMB_HOST_BLOCK_DATA := 0x9

  // Transaction types, the low three bits of the control register.
  const AMD756_QUICK := 0
  const AMD756_BYTE := 1
  const AMD756_BYTE_DATA := 2
  const AMD756_WORD_DATA := 3
  const AMD756_BLOCK_DATA := 5

  // Status flags, and the bits of the control register that start or abort a transaction.
  const GS_ABRT_STS := 0x01
  const GS_PRERR_STS := 0x04
  const GS_HCYC_STS := 0x10
  const GE_HOST_STC := 0x08
  const START_BIT := 3
  const ABORT_BIT := 5

  /** The register file, the block buffer with its index, and the memory of each connected device. */
  datatype Bus = Bus(status: byte, control: byte, command: byte, address: byte, data0: byte, data1: byte,
                     block: seq<byte>, index: nat, devices: map<nat, seq<byte>>)

  predicate ValidBus(s: Bus) {
    && |s.block| == BLOCK_SIZE && s.index < BLOCK_SIZE
    && forall d :: d in s.devices ==> |s.devices[d]| == EEPROM_SIZE
  }

  /** What an access does; accesses outside a buffer have no defined effect in the original. */
  datatype Effect = Done(bus: Bus) | OutOfBounds

  predicate Clears(value: byte) {
    Bit(value, 0) || Bit(value, 1) || Bit(value, 2) || Bit(value, 4) || Bit(value, 5)
  }

  function OrByte(a: byte, b: byte): byte {
    OrFits(a, b);
    Or(a, b)
  }

  lemma OrFits(a: byte, b: byte)
    ensures Or(a, b) < 0x100
  {
    WordSizes();
    OpsFit(a, b, 8);
  }

  function Target(s: Bus): nat {
    s.address / 2
  }

  predicate Reading(s: Bus) {
    s.address % 2 == 1
  }

  /** A byte write stores 16 bits: the byte and a zero after it. */
  function StoreWord(memory: seq<byte>, at: nat, low: byte): seq<byte>
    requires at + 1 < |memory|
  {
    memory[at := low][at + 1 := 0]
  }

  function StoreBlock(memory: seq<byte>, at: nat, bytes: seq<byte>): seq<byte>
    requires at + |bytes| <= |memory|
  {
    memory[..at] + bytes + memory[at + |bytes|..]
  }

  function WithMemory(s: Bus, memory: seq<byte>): Bus {
    s.(devices := s.devices[Target(s) := memory])
  }

  /** A transaction type the controller does not implement: a process call or a reserved one. */
  predicate Unsupported(protocol: nat) {
    protocol !in {AMD756_QUICK, AMD756_BYTE, AMD756_BYTE_DATA, AMD756_WORD_DATA, AMD756_BLOCK_DATA}
  }

  /** The exchange with the addressed device, before the status is set. */
  function Exchange(s: Bus): Effect
    requires ValidBus(s) && Target(s) in s.devices
  {
    var protocol, memory := s.control % 8, s.devices[Target(s)];
    if protocol == AMD756_BYTE_DATA then
      if Reading(s) then Done(s.(data0 := memory[s.command]))
      else if s.command + 1 < EEPROM_SIZE then Done(WithMemory(s, StoreWord(memory, s.command, s.data0)))
      else OutOfBounds
    else if protocol == AMD756_WORD_DATA then
      if s.command + 1 >= EEPROM_SIZE then OutOfBounds
      else if Reading(s) then Done(s.(data0 := memory[s.command], data1 := memory[s.command + 1]))
      else Done(WithMemory(s, StoreWord(memory, s.command, s.data0)))
    else if protocol == AMD756_BLOCK_DATA && !Reading(s) then
      if s.data0 <= BLOCK_SIZE && s.command + s.data0 <= EEPROM_SIZE then
        Done(WithMemory(s, StoreBlock(memory, s.command, s.block[..s.data0])))
      else OutOfBounds
    else if protocol != AMD756_QUICK && Reading(s) then Done(s.(data0 := 0))
    else Done(s)
  }

  function Transact(s: Bus): Effect
    requires ValidBus(s)
  {
    if Target(s) !in s.devices || Unsupported(s.control % 8)
    then Done(s.(status := OrByte(s.status, GS_PRERR_STS)))
    else
      var e := Exchange(s);
      if e.Done? then Done(e.bus.(status := OrByte(s.status, GS_HCYC_STS))) else e
  }

  function NextIndex(i: nat): nat {
    if i + 1 > 31 then 0 else i + 1
  }

  /** The control register as written, and an abort request noted in the status. */
  function WithControl(s: Bus, v: byte): Bus {
    s.(control := v, status := if Bit(v, ABORT_BIT) then OrByte(s.status, GS_ABRT_STS) else s.status)
  }

  /** A write to the control register may start a transaction. */
  function Enable(s: Bus, v: byte): Effect
    requires ValidBus(s)
  {
    if Bit(v, START_BIT) then Transact(WithControl(s, v)) else Done(WithControl(s, v))
  }

  /** A write to any other register. */
  function RegisterWrite(s: Bus, port: nat, v: byte): Bus
    requires ValidBus(s)
  {
    if port == SMB_GLOBAL_STATUS then s.(status := if Clears(v) then 0 else GS_HCYC_STS, index := 0)
    else if port == SMB_HOST_COMMAND then s.(command := v)
    else if port == SMB_HOST_ADDRESS then s.(address := v)
    else if port == SMB_HOST_DATA then s.(data0 := v)
    else if port == SMB_HOST_DATA + 1 then s.(data1 := v)
    else if port == SMB_HOST_BLOCK_DATA then s.(block := s.block[s.index := v], index := NextIndex(s.index))
    else s
  }

  /** A write of a 32-bit value to a port; only byte accesses to the I/O bar do anything. */
  function IOWrite(s: Bus, barIndex: int, addr: nat, value: nat, size: nat): Effect
    requires ValidBus(s)
  {
    if barIndex != 1 || size != 1 then Done(s)
    else if addr % 0x40 == SMB_GLOBAL_ENABLE then Enable(s, value % 0x100)
    else Done(RegisterWrite(s, addr % 0x40, value % 0x100))
  }

  function IORead(s: Bus, barIndex: int, addr: nat, size: nat): (nat, Bus)
    requires ValidBus(s)
  {
    var port := addr % 0x40;
    if barIndex != 1 || size != 1 then (0, s)
    else if port == SMB_GLOBAL_STATUS then (s.status, s)
    else if port == SMB_GLOBAL_ENABLE then (s.control % 0x20, s)
    else if port == SMB_HOST_COMMAND then (s.command, s)
    else if port == SMB_HOST_ADDRESS then (s.address, s)
    else if port == SMB_HOST_DATA then (s.data0, s)
    else if port == SMB_HOST_DATA + 1 then (s.data1, s)
    else if port == SMB_HOST_BLOCK_DATA then (s.block[s.index], s.(index := NextIndex(s.index)))
    else (0, s)
  }

  // ---------------------------------------------------------------- runs

  datatype Access =
    | Write(addr: nat, value: nat)
    | Read(addr: nat)
    | OddWrite(barIndex: int, addr: nat, value: nat, size: nat)
    | OddRead(barIndex: int, addr: nat, size: nat)

  function Perform(s: Bus, a: Access): Effect
    requires ValidBus(s)
  {
    match a
    case Write(addr, value) => IOWrite(s, 1, addr, value, 1)
    case Read(addr) => Done(IORead(s, 1, addr, 1).1)
    case OddWrite(barIndex, addr, value, size) => IOWrite(s, barIndex, addr, value, size)
    case OddRead(barIndex, addr, size) => Done(IORead(s, barIndex, addr, size).1)
  }

  lemma PerformKeepsValid(s: Bus, a: Access)
    requires ValidBus(s) && Perform(s, a).Done?
    ensures ValidBus(Perform(s, a).bus) && Perform(s, a).bus.devices.Keys == s.devices.Keys
  {
  }

  /** Accesses in sequence, up to the first one outside a buffer. */
  function Run(s: Bus, accesses: seq<Access>): (e: Effect)
    requires ValidBus(s)
    ensures e.Done? ==> ValidBus(e.bus) && e.bus.devices.Keys == s.devices.Keys
    decreases |accesses|
  {
    if accesses == [] then Done(s)
    else
      var e := Perform(s, accesses[0]);
      if e.OutOfBounds? then e
      else
        PerformKeepsValid(s, accesses[0]);
        Run(e.bus, accesses[1..])
  }

  lemma {:induction false} RunAppend(s: Bus, a: seq<Access>, b: seq<Access>)
    requires ValidBus(s)
    ensures Run(s, a + b) == var e := Run(s, a); if e.Done? then Run(e.bus, b) else e
    decreases |a|
  {
    if a == [] {
      assert a + b == b;
    } else {
      assert (a + b)[0] == a[0] && (a + b)[1..] == a[1..] + b;
      var e := Perform(s, a[0]);
      if e.Done? {
        PerformKeepsValid(s, a[0]);
        RunAppend(e.bus, a[1..], b);
      }
    }
  }

  // ---------------------------------------------------------------- uploading a block

  function BlockWrites(bytes: seq<byte>): seq<Access> {
    if bytes == [] then [] else [Write(SMB_HOST_BLOCK_DATA, bytes[0])] + BlockWrites(bytes[1..])
  }

  /** Set up and start a transaction. */
  function Start(device: nat, read: bool, command: byte, protocol: nat): seq<Access> {
    [Write(SMB_HOST_COMMAND, command),
     Write(SMB_HOST_ADDRESS, 2 * device + if read then 1 else 0),
     Write(SMB_GLOBAL_ENABLE, GE_HOST_STC + protocol)]
  }

  /** A status write, the bytes, their number, and a block write. */
  function Upload(device: nat, command: byte, bytes: seq<byte>, status: nat): seq<Access> {
    [Write(SMB_GLOBAL_STATUS, status)] + BlockWrites(bytes) + [Write(SMB_HOST_DATA, |bytes|)]
    + Start(device, false, command, AMD756_BLOCK_DATA)
  }

  lemma {:induction false} RunCons(s: Bus, a: Access, rest: seq<Access>)
    requires ValidBus(s) && Perform(s, a).Done?
    ensures ValidBus(Perform(s, a).bus)
    ensures Run(s, [a] + rest) == Run(Perform(s, a).bus, rest)
  {
    PerformKeepsValid(s, a);
    assert ([a] + rest)[0] == a && ([a] + rest)[1..] == rest;
  }

  lemma {:induction false} RunOne(s: Bus, a: Access)
    requires ValidBus(s) && Perform(s, a).Done?
    ensures Run(s, [a]) == Perform(s, a)
  {
    RunCons(s, a, []);
    assert [a] + [] == [a];
  }

  /** The block buffer after storing bytes from the current index on. */
  function Filled(s: Bus, bytes: seq<byte>): Bus
    requires ValidBus(s) && s.index + |bytes| <= BLOCK_SIZE
  {
    s.(block := StoreBlock(s.block, s.index, bytes),
       index := if s.index + |bytes| == BLOCK_SIZE then 0 else s.index + |bytes|)
  }

  lemma {:induction false} FilledMore(s: Bus, b: byte, rest: seq<byte>)
    requires ValidBus(s) && s.index + 1 + |rest| <= BLOCK_SIZE
    ensures var t := Filled(s, [b]);
      && t == s.(block := s.block[s.index := b], index := NextIndex(s.index))
      && (rest != [] ==> Filled(t, rest) == Filled(s, [b] + rest))
  {
    var t := Filled(s, [b]);
    assert t.block == s.block[s.index := b];
    if rest != [] {
      assert Filled(t, rest).block == Filled(s, [b] + rest).block;
    }
  }

  lemma {:induction false} BlockFill(s: Bus, bytes: seq<byte>)
    requires ValidBus(s) && bytes != [] && s.index + |bytes| <= BLOCK_SIZE
    ensures Run(s, BlockWrites(bytes)) == Done(Filled(s, bytes))
    decreases |bytes|
  {
    var a, rest := Write(SMB_HOST_BLOCK_DATA, bytes[0]), bytes[1..];
    FilledMore(s, bytes[0], rest);
    assert bytes == [bytes[0]] + rest;
    assert Perform(s, a) == Done(Filled(s, [bytes[0]]));
    RunCons(s, a, BlockWrites(rest));
    if rest == [] {
    } else {
      BlockFill(Filled(s, [bytes[0]]), rest);
    }
  }

  /** The registers as a transaction that was just started finds them. */
  function Ready(s: Bus, device: nat, read: bool, command: byte, protocol: nat): Bus
    requires device < 128 && protocol < 8
  {
    s.(command := command, address := 2 * device + (if read then 1 else 0), control := GE_HOST_STC + protocol)
  }

  /** Starting a transaction runs it on the registers just written. */
  lemma {:induction false} StartTransacts(s: Bus, device: nat, read: bool, command: byte, protocol: nat)
    requires ValidBus(s) && device < 128 && protocol < 8
    requires Transact(Ready(s, device, read, command, protocol)).Done?
    ensures Run(s, Start(device, read, command, protocol)) == Transact(Ready(s, device, read, command, protocol))
  {
    var address := 2 * device + if read then 1 else 0;
    var a, b, c := Write(SMB_HOST_COMMAND, command), Write(SMB_HOST_ADDRESS, address),
                   Write(SMB_GLOBAL_ENABLE, GE_HOST_STC + protocol);
    var s1 := s.(command := command);
    var s2 := s1.(address := address);
    CommandWrite(s, command);
    AddressWrite(s1, address);
    EnableWrite(s2, protocol);
    RunCons(s, a, [b, c]);
    RunCons(s1, b, [c]);
    RunOne(s2, c);
    assert Start(device, read, command, protocol) == [a] + [b, c];
    assert [b, c] == [b] + [c];
  }

  lemma CommandWrite(s: Bus, command: byte)
    requires ValidBus(s)
    ensures Perform(s, Write(SMB_HOST_COMMAND, command)) == Done(s.(command := command))
  {
  }

  lemma AddressWrite(s: Bus, address: byte)
    requires ValidBus(s)
    ensures Perform(s, Write(SMB_HOST_ADDRESS, address)) == Done(s.(address := address))
  {
  }

  lemma DataWrite(s: Bus, count: byte)
    requires ValidBus(s)
    ensures Perform(s, Write(SMB_HOST_DATA, count)) == Done(s.(data0 := count))
  {
  }

  lemma DataRead(s: Bus)
    requires ValidBus(s)
    ensures IORead(s, 1, SMB_HOST_DATA, 1) == (s.data0, s)
  {
  }

  lemma {:induction false} CountWrite(s: Bus, count: byte)
    requires ValidBus(s)
    ensures Run(s, [Write(SMB_HOST_DATA, count)]) == Done(s.(data0 := count))
  {
    DataWrite(s, count);
    RunOne(s, Write(SMB_HOST_DATA, count));
  }

  lemma {:induction false} EnableWrite(s: Bus, protocol: nat)
    requires ValidBus(s) && protocol < 8
    ensures Perform(s, Write(SMB_GLOBAL_ENABLE, GE_HOST_STC + protocol)) ==
      Transact(s.(control := GE_HOST_STC + protocol))
  {
    var v := GE_HOST_STC + protocol;
    ControlBits(protocol);
    assert WithControl(s, v) == s.(control := v);
    assert Enable(s, v) == Transact(s.(control := v));
  }

  lemma ControlBits(protocol: nat)
    requires protocol < 8
    ensures Bit(GE_HOST_STC + protocol, START_BIT) && !Bit(GE_HOST_STC + protocol, ABORT_BIT)
    ensures (GE_HOST_STC + protocol) % 8 == protocol
  {
    var v := GE_HOST_STC + protocol;
    assert v / 2 / 2 / 2 == 1;
    assert Bit(v, 3) == Bit(v / 2, 2) == Bit(v / 2 / 2, 1) == Bit(1, 0);
    assert Bit(v, 5) == Bit(v / 2, 4) == Bit(v / 2 / 2, 3) == Bit(1, 2) == Bit(0, 1);
    ZeroBits(1);
  }

  /** End to end: uploading n <= 32 bytes from any state of the controller stores exactly those bytes at
      command .. command + n of the addressed EEPROM, and nothing else in any device changes. */
  lemma {:induction false} UploadStores(s: Bus, device: nat, command: byte, bytes: seq<byte>, status: nat)
    requires ValidBus(s) && device < 128 && device in s.devices
    requires |bytes| <= BLOCK_SIZE && command + |bytes| <= EEPROM_SIZE
    ensures var e := Run(s, Upload(device, command, bytes, status));
      e.Done? && e.bus.devices == s.devices[device := StoreBlock(s.devices[device], command, bytes)]
  {
    var s1 := Perform(s, Write(SMB_GLOBAL_STATUS, status)).bus;
    UploadedBuffer(s, bytes, status);
    var s2 := if bytes == [] then s1 else Filled(s1, bytes);
    var s3 := s2.(data0 := |bytes|);
    var before := [Write(SMB_GLOBAL_STATUS, status)] + BlockWrites(bytes);
    var count := [Write(SMB_HOST_DATA, |bytes|)];
    CountWrite(s2, |bytes|);
    RunAppend(s, before, count);
    RunAppend(s, before + count, Start(device, false, command, AMD756_BLOCK_DATA));
    BlockStored(s3, device, command);
    StartTransacts(s3, device, false, command, AMD756_BLOCK_DATA);
    assert s3.block[..|bytes|] == bytes;
  }

  /** After a status write the bytes written to the block port fill the buffer from its start. */
  lemma {:induction false} UploadedBuffer(s: Bus, bytes: seq<byte>, status: nat)
    requires ValidBus(s) && |bytes| <= BLOCK_SIZE
    ensures var s1 := Perform(s, Write(SMB_GLOBAL_STATUS, status)).bus;
      && ValidBus(s1) && s1.index == 0 && s1.devices == s.devices
      && Run(s, [Write(SMB_GLOBAL_STATUS, status)] + BlockWrites(bytes)) ==
         Done(if bytes == [] then s1 else Filled(s1, bytes))
  {
    RunCons(s, Write(SMB_GLOBAL_STATUS, status), BlockWrites(bytes));
    var s1 := Perform(s, Write(SMB_GLOBAL_STATUS, status)).bus;
    if bytes != [] {
      BlockFill(s1, bytes);
    }
  }

  lemma {:induction false} BlockStored(s: Bus, device: nat, command: byte)
    requires ValidBus(s) && device < 128 && device in s.devices
    requires s.data0 <= BLOCK_SIZE && command + s.data0 <= EEPROM_SIZE
    ensures var e := Transact(Ready(s, device, false, command, AMD756_BLOCK_DATA));
      e.Done? && e.bus.devices == s.devices[device := StoreBlock(s.devices[device], command, s.block[..s.data0])]
  {
    ControlBits(AMD756_BLOCK_DATA);
  }

  lemma {:induction false} ByteLoaded(s: Bus, device: nat, command: byte)
    requires ValidBus(s) && device < 128 && device in s.devices
    ensures var e := Transact(Ready(s, device, true, command, AMD756_BYTE_DATA));
      e.Done? && e.bus.devices == s.devices && e.bus.data0 == s.devices[device][command]
  {
    ControlBits(AMD756_BYTE_DATA);
  }

  lemma {:induction false} ByteStored(s: Bus, device: nat, command: byte)
    requires ValidBus(s) && device < 128 && device in s.devices && command + 1 < EEPROM_SIZE
    ensures var e := Transact(Ready(s, device, false, command, AMD756_BYTE_DATA));
      e.Done? && e.bus.devices == s.devices[device := StoreWord(s.devices[device], command, s.data0)]
  {
    ControlBits(AMD756_BYTE_DATA);
  }

  /** A byte read through the bus returns the addressed byte and changes no memory. */
  lemma {:induction false} ByteReadReturns(s: Bus, device: nat, command: byte)
    requires ValidBus(s) && device < 128 && device in s.devices
    ensures var e := Run(s, Start(device, true, command, AMD756_BYTE_DATA));
      && e.Done? && e.bus.devices == s.devices
      && IORead(e.bus, 1, SMB_HOST_DATA, 1).0 == s.devices[device][command]
  {
    ByteLoaded(s, device, command);
    StartTransacts(s, device, true, command, AMD756_BYTE_DATA);
    DataRead(Run(s, Start(device, true, command, AMD756_BYTE_DATA)).bus);
  }

  lemma StoredAt(memory: seq<byte>, command: nat, bytes: seq<byte>, at: nat)
    requires command + |bytes| <= |memory| && at < |memory|
    ensures StoreBlock(memory, command, bytes)[at] ==
      if command <= at < command + |bytes| then bytes[at - command] else memory[at]
  {
  }

  /** Uploaded bytes are read back, and every other byte of every device reads as before the upload. */
  lemma {:induction false} UploadReadBack(s: Bus, device: nat, command: byte, bytes: seq<byte>, status: nat,
                                          other: nat, at: byte)
    requires ValidBus(s) && device < 128 && device in s.devices && other < 128 && other in s.devices
    requires |bytes| <= BLOCK_SIZE && command + |bytes| <= EEPROM_SIZE
    ensures var e := Run(s, Upload(device, command, bytes, status) + Start(other, true, at, AMD756_BYTE_DATA));
      e.Done? && IORead(e.bus, 1, SMB_HOST_DATA, 1).0 ==
        if other == device && command <= at < command + |bytes| then bytes[at - command] else s.devices[other][at]
  {
    RunAppend(s, Upload(device, command, bytes, status), Start(other, true, at, AMD756_BYTE_DATA));
    UploadStores(s, device, command, bytes, status);
    var t := Run(s, Upload(device, command, bytes, status)).bus;
    ByteReadReturns(t, other, at);
    StoredAt(s.devices[device], command, bytes, at);
  }

  /** A byte write through the bus is only a byte write when the next byte is already zero: it clears it. */
  lemma {:induction false} ByteWriteIsClean(s: Bus, device: nat, command: byte, value: byte)
    requires ValidBus(s) && device < 128 && device in s.devices && command + 1 < EEPROM_SIZE
    ensures var e := Run(s, [Write(SMB_HOST_DATA, value)] + Start(device, false, command, AMD756_BYTE_DATA));
      && e.Done?
      && e.bus.devices[device][command] == value
      && (s.devices[device][command + 1] == 0 <==>
            e.bus.devices == s.devices[device := StoreBlock(s.devices[device], command, [value])])
  {
    var s1 := s.(data0 := value);
    RunAppend(s, [Write(SMB_HOST_DATA, value)], Start(device, false, command, AMD756_BYTE_DATA));
    CountWrite(s, value);
    ByteStored(s1, device, command);
    StartTransacts(s1, device, false, command, AMD756_BYTE_DATA);
    WordIsByte(s.devices[device], command, value);
    if s.devices[device][command + 1] != 0 {
      MemoriesDiffer(s.devices, device, StoreWord(s.devices[device], command, value),
                     StoreBlock(s.devices[device], command, [value]));
    }
  }

  lemma {:induction false} WordIsByte(memory: seq<byte>, at: nat, value: byte)
    requires at + 1 < |memory|
    ensures StoreWord(memory, at, value)[at] == value
    ensures StoreWord(memory, at, value) == StoreBlock(memory, at, [value]) <==> memory[at + 1] == 0
  {
    var stored, wanted := StoreWord(memory, at, value), StoreBlock(memory, at, [value]);
    if memory[at + 1] == 0 {
      assert stored == wanted;
    } else {
      assert stored[at + 1] != wanted[at + 1];
    }
  }

  lemma {:induction false} MemoriesDiffer(devices: map<nat, seq<byte>>, device: nat, a: seq<byte>, b: seq<byte>)
    requires a != b
    ensures devices[device := a] != devices[device := b]
  {
    assert devices[device := a][device] != devices[device := b][device];
  }
}
