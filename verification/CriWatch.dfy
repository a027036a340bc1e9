/** The change detector for guest file records, `BetaTrace_WatchCriFileStates`
    (src/common/BetaConfig.cpp:317-362): a hash per slot tells whether a record changed. */
module CriWatch {
  import opened Words
  import opened Fnv

  const MAX_SLOTS := 64
  const RECORD_SIZE := 340

  /** One record copied from guest memory, or nothing when the memory cannot be read. */
  datatype Copy = Unreadable | Read(bytes: seq<byte>)

  ghost predicate ValidCopy(c: Copy) {
    c.Read? ==> |c.bytes| == RECORD_SIZE
  }

  /** Byte zero marks a record in use. */
  predicate Active(bytes: seq<byte>) {
    bytes != [] && bytes[0] != 0
  }

  datatype Slot = Slot(seen: bool, hash: uint64)

  const Fresh := Slot(false, 0)

  predicate Reports(s: Slot, c: Copy) {
    c.Read? && Active(c.bytes) && !(s.seen && s.hash == Hash(c.bytes))
  }

  function Observe(s: Slot, c: Copy): Slot {
    if c.Unreadable? then s
    else if !Active(c.bytes) then Fresh
    else Slot(true, Hash(c.bytes))
  }

  // ---------------------------------------------------------------- whole runs

  /** The slot after a history of copies. */
  function After(history: seq<Copy>): Slot {
    if history == [] then Fresh else Observe(After(history[..|history| - 1]), history[|history| - 1])
  }

  /** The last copy that could be read. */
  function LastRead(history: seq<Copy>): Copy {
    if history == [] then Unreadable
    else if history[|history| - 1].Read? then history[|history| - 1]
    else LastRead(history[..|history| - 1])
  }

  lemma {:induction false} SlotRemembersLastRead(history: seq<Copy>)
    ensures var c := LastRead(history);
      After(history) == if c.Read? && Active(c.bytes) then Slot(true, Hash(c.bytes)) else Fresh
  {
    if history == [] {
    } else {
      SlotRemembersLastRead(history[..|history| - 1]);
    }
  }

  /** In any run an active record is reported exactly when the last readable copy of its slot was absent,
      inactive, or hashed differently. */
  lemma {:induction false} ReportedIff(history: seq<Copy>, bytes: seq<byte>)
    requires bytes != []
    ensures var c := LastRead(history);
      Reports(After(history), Read(bytes)) <==>
        bytes[0] != 0 && !(c.Read? && c.bytes != [] && c.bytes[0] != 0 && Hash(c.bytes) == Hash(bytes))
  {
    SlotRemembersLastRead(history);
  }

  /** A change of one byte of an active record is always reported, whatever happened before and however
      often the record could not be read since; an unchanged record is not reported again. */
  lemma {:induction false} OneByteChangeReported(history: seq<Copy>, bytes: seq<byte>, i: nat, v: byte)
    requires LastRead(history) == Read(bytes) && i < |bytes| && bytes[0] != 0
    ensures !Reports(After(history), Read(bytes))
    ensures v != bytes[i] && bytes[i := v][0] != 0 ==> Reports(After(history), Read(bytes[i := v]))
  {
    SlotRemembersLastRead(history);
    if v != bytes[i] {
      OneByteChangesHash(bytes, bytes[i := v], i);
    }
  }

  // ---------------------------------------------------------------- the code

  /** Each slot once, in slot order. */
  ghost predicate Ascending(slots: seq<nat>) {
    forall j, k :: 0 <= j < k < |slots| ==> slots[j] < slots[k]
  }

  class Watcher {
    const enabled: bool
    const base: nat
    const stride: nat
    const configuredCount: nat
    const seen: array<bool>
    const hashes: array<uint64>

    ghost predicate Valid() {
      seen.Length == hashes.Length == MAX_SLOTS
    }

    ghost function SlotAt(slot: nat): Slot
      requires Valid() && slot < MAX_SLOTS
      reads seen, hashes
    {
      Slot(seen[slot], hashes[slot])
    }

    function Count(): nat {
      if configuredCount < MAX_SLOTS then configuredCount else MAX_SLOTS
    }

    predicate Off() {
      !enabled || base == 0 || stride < RECORD_SIZE || Count() == 0
    }

    /** The guest address of a slot, in 32-bit arithmetic. */
    function Address(slot: nat): nat {
      (base + slot * stride) % 0x1_0000_0000
    }

    /** The slot is looked at: tracing is on, the table has an address, records are at least 340 bytes apart, and the
        slot is configured. */
    predicate Looked(slot: nat) {
      enabled && base != 0 && stride >= 340 && slot < configuredCount
    }

    /** What the pass makes of a slot: forgotten when its first byte is zero, otherwise the hash of its bytes, and as
        it was when it is not looked at or cannot be read. */
    function Expected(slot: nat, guest: nat -> Copy, before: Slot): Slot {
      match guest((base + slot * stride) % 0x1_0000_0000)
      case Unreadable => before
      case Read(bytes) =>
        if !Looked(slot) || bytes == [] then before
        else if bytes[0] == 0 then Slot(false, 0)
        else Slot(true, Hash(bytes))
    }

    /** A readable record in use whose hash differs from the one remembered, or with none remembered. */
    predicate Changed(c: Copy, before: Slot) {
      c.Read? && c.bytes != [] && c.bytes[0] != 0 && (!before.seen || before.hash != Hash(c.bytes))
    }

    constructor (enabled: bool, base: nat, stride: nat, count: nat)
      ensures Valid() && fresh(seen) && fresh(hashes)
      ensures forall slot :: 0 <= slot < MAX_SLOTS ==> SlotAt(slot) == Fresh
    {
      this.enabled, this.base, this.stride, this.configuredCount := enabled, base, stride, count;
      seen := new bool[MAX_SLOTS](_ => false);
      hashes := new uint64[MAX_SLOTS](_ => 0);
    }

    method SnapshotHash(snapshot: seq<byte>) returns (hash: uint64)
      ensures hash == Hash(snapshot)
    {
      hash := OFFSET;
      for k := 0 to |snapshot|
        invariant hash == Hash(snapshot[..k])
      {
        assert snapshot[..k + 1][..k] == snapshot[..k];
        hash := (Xor(hash, snapshot[k]) * PRIME) % MODULUS;
      }
      assert snapshot[..|snapshot|] == snapshot;
    }

    /** Looks at every slot once; `guest` is what guest memory holds at an address. */
    method Watch(guest: nat -> Copy) returns (reported: seq<nat>)
      requires Valid() && forall a :: ValidCopy(guest(a))
      modifies seen, hashes
      ensures forall slot :: 0 <= slot < 64 ==> SlotAt(slot) == Expected(slot, guest, old(SlotAt(slot)))
      ensures Ascending(reported)
      ensures forall slot :: slot in reported <==>
        0 <= slot < 64 && Looked(slot) && Changed(guest((base + slot * stride) % 0x1_0000_0000), old(SlotAt(slot)))
    {
      reported := [];
      if Off() {
        return;
      }
      for slot := 0 to Count()
        invariant forall s :: 0 <= s < slot ==> SlotAt(s) == Observe(old(SlotAt(s)), guest(Address(s)))
        invariant forall s :: slot <= s < MAX_SLOTS ==> SlotAt(s) == old(SlotAt(s))
        invariant Ascending(reported) && forall k :: 0 <= k < |reported| ==> reported[k] < slot
        invariant forall s :: s in reported <==> 0 <= s < slot && Reports(old(SlotAt(s)), guest(Address(s)))
      {
        var copy := guest(Address(slot));
        if copy.Unreadable? {
          continue;
        }
        if copy.bytes[0] == 0 {
          seen[slot] := false;
          hashes[slot] := 0;
          continue;
        }
        var hash := SnapshotHash(copy.bytes);
        if seen[slot] && hashes[slot] == hash {
          continue;
        }
        seen[slot] := true;
        hashes[slot] := hash;
        reported := reported + [slot];
      }
    }
  }
}
