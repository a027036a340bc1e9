/** The controller and device objects: register fields, a 32-byte buffer, and EEPROM images written in
    place (src/devices/SMBus.cpp, src/devices/EEPROMDevice.cpp). */
module SmBusDevices {
  import opened Words
  import opened SmBusModel

  class EEPROMDevice {
    const m_pEEPROM: array<byte>

    constructor (image: array<byte>)
      ensures m_pEEPROM == image
    {
      m_pEEPROM := image;
    }

    method ReadByte(command: byte) returns (value: byte)
      requires command < m_pEEPROM.Length
      ensures value == m_pEEPROM[command]
    {
      value := m_pEEPROM[command];
    }

    /** A little-endian 16-bit load. */
    method ReadWord(command: byte) returns (value: nat)
      requires command + 1 < m_pEEPROM.Length
      ensures value % 0x100 == m_pEEPROM[command] && value / 0x100 == m_pEEPROM[command + 1]
    {
      var low: nat, high: nat := m_pEEPROM[command], m_pEEPROM[command + 1];
      value := low + 0x100 * high;
    }

    method WriteByte(command: byte, value: byte)
      requires command + 1 < m_pEEPROM.Length
      modifies m_pEEPROM
      ensures m_pEEPROM[..] == StoreWord(old(m_pEEPROM[..]), command, value)
    {
      WriteWord(command, value);
    }

    /** A little-endian 16-bit store; the controller only ever passes a byte. */
    method WriteWord(command: byte, value: byte)
      requires command + 1 < m_pEEPROM.Length
      modifies m_pEEPROM
      ensures m_pEEPROM[..] == StoreWord(old(m_pEEPROM[..]), command, value)
    {
      m_pEEPROM[command] := value % 0x100;
      m_pEEPROM[command + 1] := value / 0x100;
    }

    method WriteBlock(command: byte, data: array<byte>, length: nat)
      requires length <= data.Length && command + length <= m_pEEPROM.Length && data != m_pEEPROM
      modifies m_pEEPROM
      ensures m_pEEPROM[..] == StoreBlock(old(m_pEEPROM[..]), command, data[..length])
    {
      forall i | 0 <= i < length {
        m_pEEPROM[command + i] := data[i];
      }
    }
  }

  class SMBus {
    var m_Status: byte
    var m_Control: byte
    var m_Command: byte
    var m_Address: byte
    var m_Data0: byte
    var m_Data1: byte
    const m_Data: array<byte>
    var m_Index: nat
    var m_Devices: map<nat, EEPROMDevice>

    /** The memory of each connected device. */
    ghost var memories: map<nat, seq<byte>>

    ghost function Images(): set<array<byte>>
      reads `m_Devices
    {
      set d | d in m_Devices :: m_Devices[d].m_pEEPROM
    }

    /** Every device has an image of its own, apart from the block buffer. */
    ghost predicate Separate()
      reads `m_Devices
    {
      && (forall d :: d in m_Devices ==>
            m_Devices[d].m_pEEPROM.Length == EEPROM_SIZE && m_Devices[d].m_pEEPROM != m_Data)
      && (forall d, e :: d in m_Devices && e in m_Devices && d != e ==>
            m_Devices[d].m_pEEPROM != m_Devices[e].m_pEEPROM)
    }

    ghost predicate Valid()
      reads `m_Devices, `m_Index, `memories, Images()
    {
      && m_Data.Length == BLOCK_SIZE && m_Index < BLOCK_SIZE && Separate()
      && memories.Keys == m_Devices.Keys
      && forall d :: d in m_Devices ==> memories[d] == m_Devices[d].m_pEEPROM[..]
    }

    ghost function View(): Bus
      reads this, m_Data
    {
      Bus(m_Status, m_Control, m_Command, m_Address, m_Data0, m_Data1, m_Data[..], m_Index, memories)
    }

    constructor ()
      ensures Valid() && m_Devices == map[] && m_Status == 0 && fresh(m_Data)
    {
      m_Status, m_Control, m_Command, m_Address, m_Data0, m_Data1, m_Index := 0, 0, 0, 0, 0, 0, 0;
      m_Data := new byte[BLOCK_SIZE](_ => 0);
      m_Devices, memories := map[], map[];
    }

    /** The first device connected to an address stays. */
    method ConnectDevice(addr: byte, device: EEPROMDevice)
      requires Valid() && device.m_pEEPROM.Length == EEPROM_SIZE
      requires device.m_pEEPROM != m_Data && device.m_pEEPROM !in Images()
      modifies `m_Devices, `memories
      ensures Valid()
      ensures View() == old(View()).(devices :=
        if addr / 2 in old(m_Devices) then old(memories) else old(memories)[addr / 2 := device.m_pEEPROM[..]])
    {
      var devAddr := addr / 2;
      if devAddr in m_Devices {
        return;
      }
      forall d | d in m_Devices
        ensures m_Devices[d].m_pEEPROM in Images()
      {
      }
      m_Devices := m_Devices[devAddr := device];
      memories := memories[devAddr := device.m_pEEPROM[..]];
    }

    /** A byte write to a connected device replaces its memory and nothing else. */
    method WriteDeviceByte(addr: nat)
      requires Valid() && addr in m_Devices && m_Command + 1 < EEPROM_SIZE
      modifies `memories, Images()
      ensures Valid() && m_Data[..] == old(m_Data[..])
      ensures memories == old(memories)[addr := StoreWord(old(memories)[addr], m_Command, m_Data0)]
    {
      var device := m_Devices[addr];
      assert device.m_pEEPROM in Images();
      device.WriteByte(m_Command, m_Data0);
      memories := memories[addr := device.m_pEEPROM[..]];
    }

    method WriteDeviceWord(addr: nat)
      requires Valid() && addr in m_Devices && m_Command + 1 < EEPROM_SIZE
      modifies `memories, Images()
      ensures Valid() && m_Data[..] == old(m_Data[..])
      ensures memories == old(memories)[addr := StoreWord(old(memories)[addr], m_Command, m_Data0)]
    {
      var device := m_Devices[addr];
      assert device.m_pEEPROM in Images();
      device.WriteWord(m_Command, m_Data0);
      memories := memories[addr := device.m_pEEPROM[..]];
    }

    method WriteDeviceBlock(addr: nat)
      requires Valid() && addr in m_Devices && m_Data0 <= BLOCK_SIZE && m_Command + m_Data0 <= EEPROM_SIZE
      modifies `memories, Images()
      ensures Valid() && m_Data[..] == old(m_Data[..])
      ensures memories == old(memories)[addr := StoreBlock(old(memories)[addr], m_Command, m_Data[..m_Data0])]
    {
      var device := m_Devices[addr];
      assert device.m_pEEPROM in Images();
      device.WriteBlock(m_Command, m_Data, m_Data0);
      memories := memories[addr := device.m_pEEPROM[..]];
    }

    method ExecuteTransaction()
      requires Valid() && Transact(View()).Done?
      modifies `m_Status, `m_Data0, `m_Data1, `memories, Images()
      ensures Valid() && View() == Transact(old(View())).bus
    {
      var prot := m_Control % 8;
      var addr := m_Address / 2;
      if addr !in m_Devices {
        SetStatus(GS_PRERR_STS);
        return;
      }
      if Unsupported(prot) {
        SetStatus(GS_PRERR_STS);
        return;
      }
      ExchangeWith(addr, prot, m_Address % 2 == 1);
      SetStatus(GS_HCYC_STS);
    }

    method SetStatus(flag: byte)
      requires Valid()
      modifies `m_Status
      ensures Valid() && View() == old(View()).(status := OrByte(old(m_Status), flag))
    {
      m_Status := OrByte(m_Status, flag);
    }

    /** The cases of the transaction types that are implemented. */
    method ExchangeWith(addr: nat, prot: nat, read: bool)
      requires Valid() && addr in m_Devices && prot == m_Control % 8 && !Unsupported(prot)
      requires addr == Target(View()) && read == Reading(View()) && Exchange(View()).Done?
      modifies `m_Data0, `m_Data1, `memories, Images()
      ensures Valid() && View() == Exchange(old(View())).bus
    {
      if prot == AMD756_QUICK {
        // The device does nothing.
      } else if prot == AMD756_BYTE {
        if read {
          m_Data0 := 0;
        }
      } else if prot == AMD756_BYTE_DATA {
        ExchangeByte(addr, read);
      } else if prot == AMD756_WORD_DATA {
        ExchangeWord(addr, read);
      } else if read {
        m_Data0 := 0;
      } else {
        WriteDeviceBlock(addr);
      }
    }

    method ExchangeByte(addr: nat, read: bool)
      requires Valid() && addr in m_Devices && AMD756_BYTE_DATA == m_Control % 8
      requires addr == Target(View()) && read == Reading(View()) && Exchange(View()).Done?
      modifies `m_Data0, `memories, Images()
      ensures Valid() && View() == Exchange(old(View())).bus
    {
      if read {
        var device := m_Devices[addr];
        m_Data0 := device.ReadByte(m_Command);
      } else {
        WriteDeviceByte(addr);
      }
    }

    method ExchangeWord(addr: nat, read: bool)
      requires Valid() && addr in m_Devices && AMD756_WORD_DATA == m_Control % 8
      requires addr == Target(View()) && read == Reading(View()) && Exchange(View()).Done?
      modifies `m_Data0, `m_Data1, `memories, Images()
      ensures Valid() && View() == Exchange(old(View())).bus
    {
      if read {
        var device := m_Devices[addr];
        var val := device.ReadWord(m_Command);
        m_Data0 := val % 0x100;
        m_Data1 := val / 0x100;
      } else {
        WriteDeviceWord(addr);
      }
    }

    method IoRead(barIndex: int, addr: nat, size: nat) returns (value: nat)
      requires Valid()
      modifies `m_Index
      ensures Valid() && value == IORead(old(View()), barIndex, addr, size).0
      ensures View() == IORead(old(View()), barIndex, addr, size).1
    {
      if barIndex != 1 {
        return 0;
      }
      if size != 1 {
        return 0;
      }
      var port := addr % 0x40;
      if port == SMB_GLOBAL_STATUS {
        value := m_Status;
      } else if port == SMB_GLOBAL_ENABLE {
        value := m_Control % 0x20;
      } else if port == SMB_HOST_COMMAND {
        value := m_Command;
      } else if port == SMB_HOST_ADDRESS {
        value := m_Address;
      } else if port == SMB_HOST_DATA {
        value := m_Data0;
      } else if port == SMB_HOST_DATA + 1 {
        value := m_Data1;
      } else if port == SMB_HOST_BLOCK_DATA {
        value := m_Data[m_Index];
        m_Index := m_Index + 1;
        if m_Index > 31 {
          m_Index := 0;
        }
      } else {
        value := 0;
      }
    }

    method WriteControl(value: byte)
      requires Valid()
      modifies `m_Control, `m_Status
      ensures View() == WithControl(old(View()), value)
    {
      m_Control := value;
      if Bit(value, ABORT_BIT) {
        m_Status := OrByte(m_Status, GS_ABRT_STS);
      }
    }

    method WriteEnable(value: byte)
      requires Valid() && Enable(View(), value).Done?
      modifies this, Images()
      ensures Valid() && View() == Enable(old(View()), value).bus && m_Devices == old(m_Devices)
    {
      WriteControl(value);
      if Bit(value, START_BIT) {
        ExecuteTransaction();
      }
    }

    method WriteBlockData(value: byte)
      requires Valid()
      modifies `m_Index, m_Data
      ensures Valid() && View() == RegisterWrite(old(View()), SMB_HOST_BLOCK_DATA, value)
    {
      m_Data[m_Index] := value;
      m_Index := m_Index + 1;
      if m_Index > 31 {
        m_Index := 0;
      }
    }

    method WriteRegister(port: nat, value: byte)
      requires Valid() && port != SMB_GLOBAL_ENABLE
      modifies `m_Status, `m_Command, `m_Address, `m_Data0, `m_Data1, `m_Index, m_Data
      ensures Valid() && View() == RegisterWrite(old(View()), port, value)
    {
      if port == SMB_GLOBAL_STATUS {
        if Clears(value) {
          m_Status := 0;
        } else {
          m_Status := GS_HCYC_STS;
        }
        m_Index := 0;
      } else if port == SMB_HOST_COMMAND {
        m_Command := value;
      } else if port == SMB_HOST_ADDRESS {
        m_Address := value;
      } else if port == SMB_HOST_DATA {
        m_Data0 := value;
      } else if port == SMB_HOST_DATA + 1 {
        m_Data1 := value;
      } else if port == SMB_HOST_BLOCK_DATA {
        WriteBlockData(value);
      }
    }

    method IoWrite(barIndex: int, addr: nat, value: nat, size: nat)
      requires Valid() && IOWrite(View(), barIndex, addr, value, size).Done?
      modifies this, m_Data, Images()
      ensures Valid() && View() == IOWrite(old(View()), barIndex, addr, value, size).bus && m_Devices == old(m_Devices)
    {
      if barIndex != 1 {
        return;
      }
      if size != 1 {
        return;
      }
      var port := addr % 0x40;
      if port == SMB_GLOBAL_ENABLE {
        WriteEnable(value % 0x100);
      } else {
        WriteRegister(port, value % 0x100);
      }
    }
  }
}
