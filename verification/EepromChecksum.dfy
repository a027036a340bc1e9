/** The checksum of the EEPROM's factory and user sections (src/common/EmuEEPROM.cpp:55-90). */
module EepromChecksum {
  import opened Words

  // ---------------------------------------------------------------- closed form

  /** The sum of the first m bytes whose position is p modulo 4. */
  function ColumnSum(data: seq<byte>, m: nat, p: nat): nat
    requires m <= |data|
  {
    if m == 0 then 0
    else ColumnSum(data, m - 1, p) + if (m - 1) % 4 == p then data[m - 1] else 0
  }

  /** The high bytes of the words summed for position p: every byte but the last, in its own column. */
  function High(data: seq<byte>, p: nat): nat
    requires data != []
  {
    ColumnSum(data, |data| - 1, p)
  }

  /** The low bytes: the previous column, and for position 0 also the last byte, which is rotated to the front. */
  function Low(data: seq<byte>, p: nat): nat
    requires data != []
  {
    ColumnSum(data, |data| - 1, (p + 3) % 4) + if p == 0 then data[|data| - 1] else 0
  }

  function Crc(data: seq<byte>, p: nat): byte
    requires data != []
  {
    (255 - High(data, p) - Low(data, p) / 256) % 256
  }

  function Checksum(data: seq<byte>): (crc: seq<byte>)
    requires data != []
    ensures |crc| == 4
  {
    [Crc(data, 0), Crc(data, 1), Crc(data, 2), Crc(data, 3)]
  }

  // ---------------------------------------------------------------- the words the loop subtracts

  /** The input rotated right by one byte and padded with zeros: what the loop reads. */
  function Rotated(data: seq<byte>): (r: seq<byte>)
    requires data != []
    ensures |r| == |data| + 4
  {
    [data[|data| - 1]] + data[..|data| - 1] + [0, 0, 0, 0]
  }

  /** A little-endian 16-bit load. */
  function WordAt(bytes: seq<byte>, l: nat): nat
    requires l + 1 < |bytes|
  {
    bytes[l] as int + 0x100 * (bytes[l + 1] as int)
  }

  /** The loop's accumulator before it reads at l, starting from p in steps of 4. */
  function Accumulated(bytes: seq<byte>, p: nat, l: nat): nat
    requires p < 4 && l % 4 == p && (l > p ==> l - 3 < |bytes|)
  {
    if l < 4 then 0xFFFF
    else (Accumulated(bytes, p, l - 4) - WordAt(bytes, l - 4)) % 0x1_0000
  }

  /** The sums of low and high bytes read before l. */
  function LowRead(data: seq<byte>, p: nat, l: nat): nat
    requires data != [] && p < 4 && l % 4 == p
  {
    ColumnSum(data, Clip(l - 1, |data| - 1), (p + 3) % 4) + if p == 0 && l > 0 then data[|data| - 1] else 0
  }

  function HighRead(data: seq<byte>, p: nat, l: nat): nat
    requires data != [] && p < 4 && l % 4 == p
  {
    ColumnSum(data, Clip(l, |data| - 1), p)
  }

  function Clip(x: int, limit: nat): (r: nat)
    ensures r <= limit
  {
    if x < 0 then 0 else if x < limit then x else limit
  }

  lemma OneStep(data: seq<byte>, m: int, p: nat, limit: nat)
    requires limit <= |data|
    ensures ColumnSum(data, Clip(m + 1, limit), p) ==
      ColumnSum(data, Clip(m, limit), p) + if 0 <= m < limit && m % 4 == p then data[m] else 0
  {
  }

  /** Four steps along the data meet one byte of each column. */
  lemma {:induction false} FourSteps(data: seq<byte>, m: int, p: nat, limit: nat)
    requires m % 4 == p && limit <= |data|
    ensures ColumnSum(data, Clip(m + 4, limit), p) ==
      ColumnSum(data, Clip(m, limit), p) + if 0 <= m < limit then data[m] else 0
  {
    OthersMiss(m, p);
    OneStep(data, m, p, limit);
    MissStep(data, m + 1, p, limit);
    MissStep(data, m + 2, p, limit);
    MissStep(data, m + 3, p, limit);
  }

  lemma OthersMiss(m: int, p: nat)
    requires m % 4 == p
    ensures (m + 1) % 4 != p && (m + 2) % 4 != p && (m + 3) % 4 != p
  {
  }

  lemma {:induction false} MissStep(data: seq<byte>, m: int, p: nat, limit: nat)
    requires limit <= |data| && m % 4 != p
    ensures ColumnSum(data, Clip(m + 1, limit), p) == ColumnSum(data, Clip(m, limit), p)
  {
    OneStep(data, m, p, limit);
  }

  /** No byte of a column comes before its first position. */
  lemma {:induction false} FirstSteps(data: seq<byte>, m: int, limit: nat)
    requires m < 4 && limit <= |data|
    ensures ColumnSum(data, Clip(m, limit), m % 4) == 0
  {
    FourSteps(data, m - 4, m % 4, limit);
  }

  lemma {:induction false} AccumulatedSums(data: seq<byte>, p: nat, l: nat)
    requires data != [] && p < 4 && l % 4 == p && l < |data| + 4
    ensures Accumulated(Rotated(data), p, l) ==
      (0xFFFF - LowRead(data, p, l) - 256 * HighRead(data, p, l)) % 0x1_0000
  {
    if l < 4 {
      NothingRead(data, p);
    } else {
      var k := l - 4;
      AccumulatedSums(data, p, k);
      ReadWord(data, p, k);
      SubtractMod(LowRead(data, p, k), HighRead(data, p, k), LowRead(data, p, l), HighRead(data, p, l),
                  WordAt(Rotated(data), k));
    }
  }

  lemma {:induction false} NothingRead(data: seq<byte>, p: nat)
    requires data != [] && p < 4
    ensures LowRead(data, p, p) == HighRead(data, p, p) == 0
  {
    FirstSteps(data, p, |data| - 1);
    FirstSteps(data, p - 1, |data| - 1);
  }

  /** One word read: its low byte comes from the previous column, its high byte from this one. */
  lemma {:induction false} ReadWord(data: seq<byte>, p: nat, k: nat)
    requires data != [] && p < 4 && k % 4 == p && k < |data|
    ensures WordAt(Rotated(data), k) == LowRead(data, p, k + 4) - LowRead(data, p, k)
      + 256 * (HighRead(data, p, k + 4) - HighRead(data, p, k))
  {
    RotatedBytes(data, k);
    LowStep(data, p, k);
    FourSteps(data, k, p, |data| - 1);
  }

  lemma {:induction false} LowStep(data: seq<byte>, p: nat, k: nat)
    requires p < 4 && k % 4 == p && k < |data|
    ensures LowRead(data, p, k + 4) == LowRead(data, p, k) + if k == 0 then data[|data| - 1] else data[k - 1]
  {
    FourSteps(data, k - 1, (p + 3) % 4, |data| - 1);
  }

  lemma RotatedBytes(data: seq<byte>, k: nat)
    requires k < |data|
    ensures Rotated(data)[k] == if k == 0 then data[|data| - 1] else data[k - 1]
    ensures Rotated(data)[k + 1] == if k < |data| - 1 then data[k] else 0
  {
  }

  lemma SubtractMod(lo: int, hi: int, lo': int, hi': int, w: int)
    requires w == lo' - lo + 256 * (hi' - hi)
    ensures ((0xFFFF - lo - 256 * hi) % 0x1_0000 - w) % 0x1_0000
         == (0xFFFF - lo' - 256 * hi') % 0x1_0000
  {
  }

  lemma HighByteOf(low: nat, high: nat)
    ensures ((0xFFFF - low - 256 * high) % 0x1_0000) / 256 == (255 - high - low / 256) % 256
  {
  }

  /** The wrapping loop computes the closed form. */
  lemma {:induction false} LoopComputesCrc(data: seq<byte>, p: nat, l: nat)
    requires data != [] && p < 4 && l % 4 == p && |data| <= l < |data| + 4
    ensures Accumulated(Rotated(data), p, l) / 256 == Crc(data, p)
  {
    AccumulatedSums(data, p, l);
    HighByteOf(Low(data, p), High(data, p));
  }

  lemma AccumulatedStep(bytes: seq<byte>, p: nat, l: nat)
    requires p < 4 && l % 4 == p && l + 1 < |bytes|
    ensures (l + 4) % 4 == p
    ensures Accumulated(bytes, p, l + 4) == (Accumulated(bytes, p, l) - WordAt(bytes, l)) % 0x1_0000
  {
  }

  // ---------------------------------------------------------------- the code

  /** The image with `crc` stored at `at`. */
  function Stored(image: seq<byte>, at: nat, crc: seq<byte>): seq<byte>
    requires at + |crc| <= |image|
  {
    image[..at] + crc + image[at + |crc|..]
  }

  /** The inner loop: the 16-bit value left after subtracting every fourth word from `pos` on. */
  method SubtractWords(crcData: array<byte>, dataLen: nat, pos: nat, ghost data: seq<byte>) returns (crcPosVal: int)
    requires pos < 4 && |data| == dataLen > 0 && crcData[..] == Rotated(data)
    ensures 0 <= crcPosVal < 0x1_0000 && crcPosVal / 0x100 == Crc(data, pos)
  {
    ghost var read := crcData[..];
    crcPosVal := 0xFFFF;
    var l: nat := pos;
    while l < dataLen
      invariant l % 4 == pos && l < dataLen + 4
      invariant crcPosVal == Accumulated(read, pos, l)
    {
      AccumulatedStep(read, pos, l);
      crcPosVal := (crcPosVal - (crcData[l] as int + 0x100 * (crcData[l + 1] as int))) % 0x1_0000;
      l := l + 4;
    }
    LoopComputesCrc(data, pos, l);
  }

  /** Writes the checksum of the `dataLen` bytes at `dataAt` into the four bytes at `crcAt`. */
  method EepromCRC(eeprom: array<byte>, crcAt: nat, dataAt: nat, dataLen: nat)
    requires 1 <= dataLen && dataAt + dataLen <= eeprom.Length && crcAt + 4 <= eeprom.Length
    requires crcAt + 4 <= dataAt || dataAt + dataLen <= crcAt
    modifies eeprom
    ensures eeprom[..] == Stored(old(eeprom[..]), crcAt, Checksum(old(eeprom[dataAt..dataAt + dataLen])))
  {
    ghost var image, data := eeprom[..], eeprom[dataAt..dataAt + dataLen];
    forall i | 0 <= i < 4 {
      eeprom[crcAt + i] := 0;
    }
    assert eeprom[dataAt..dataAt + dataLen] == data;
    var crcData := RotatedCopy(eeprom, dataAt, dataLen);
    for pos := 0 to 4
      invariant crcData[..] == Rotated(data)
      invariant forall i :: 0 <= i < pos ==> eeprom[crcAt + i] == Checksum(data)[i]
      invariant forall i :: 0 <= i < eeprom.Length && !(crcAt <= i < crcAt + 4) ==> eeprom[i] == image[i]
    {
      var crcPosVal := SubtractWords(crcData, dataLen, pos, data);
      eeprom[crcAt + pos] := crcPosVal / 0x100;
    }
    StoredIs(image, eeprom[..], crcAt, Checksum(data));
  }

  /** The buffer the loop reads: the section rotated by one byte, and four zeros. */
  method RotatedCopy(eeprom: array<byte>, dataAt: nat, dataLen: nat) returns (crcData: array<byte>)
    requires 1 <= dataLen && dataAt + dataLen <= eeprom.Length
    ensures fresh(crcData) && crcData[..] == Rotated(eeprom[dataAt..dataAt + dataLen])
  {
    crcData := new byte[dataLen + 4](_ => 0);
    forall i | 0 <= i < dataLen - 1 {
      crcData[1 + i] := eeprom[dataAt + i];
    }
    crcData[0] := eeprom[dataAt + dataLen - 1];
  }

  /** The bytes outside the checksum are those of the image, and the four inside are the checksum. */
  lemma {:induction false} StoredIs(image: seq<byte>, after: seq<byte>, at: nat, crc: seq<byte>)
    requires |after| == |image| && |crc| == 4 && at + 4 <= |image|
    requires forall i :: 0 <= i < 4 ==> after[at + i] == crc[i]
    requires forall i :: 0 <= i < |image| && !(at <= i < at + 4) ==> after[i] == image[i]
    ensures after == Stored(image, at, crc)
  {
    assert forall i :: at <= i < at + 4 ==> after[i] == crc[i - at] by {
      forall i | at <= i < at + 4
        ensures after[i] == crc[i - at]
      {
        assert after[at + (i - at)] == crc[i - at];
      }
    }
  }

  // The two checked sections of the 256-byte image, from the layout of XBOX_EEPROM.
  const FACTORY_CHECKSUM := 48
  const FACTORY_DATA := 52
  const FACTORY_SIZE := 44
  const USER_CHECKSUM := 96
  const USER_DATA := 100
  const USER_SIZE := 92

  // The widths of the fields of XBOX_ENCRYPTED_SETTINGS, XBOX_FACTORY_SETTINGS and XBOX_USER_SETTINGS, and of what
  // follows them in XBOX_EEPROM. The checksum is the first field of the two checked sections.
  const ENCRYPTED_FIELDS: seq<nat> := [20, 8, 16, 4]
  const FACTORY_FIELDS: seq<nat> := [4, 12, 6, 2, 16, 4, 4]
  const USER_FIELDS: seq<nat> := [4, 4, 4, 4, 8, 4, 4, 8, 4, 4, 4, 4, 4, 4, 4, 4, 4, 4, 4, 4, 4, 4]
  const LAST_FIELDS: seq<nat> := [58, 4, 2]

  /** Where field n starts; with the number of fields, the size of the structure. */
  function Offset(widths: seq<nat>, n: nat): nat
    requires n <= |widths|
  {
    if n == 0 then 0 else Offset(widths, n - 1) + widths[n - 1]
  }

  /** The sections follow one another without gaps, each starts with its checksum, and the data is the rest. */
  lemma SectionLayout()
    ensures var factory := Offset(ENCRYPTED_FIELDS, |ENCRYPTED_FIELDS|);
      var user := factory + Offset(FACTORY_FIELDS, |FACTORY_FIELDS|);
      var last := user + Offset(USER_FIELDS, |USER_FIELDS|);
      && FACTORY_CHECKSUM == factory && FACTORY_DATA == factory + Offset(FACTORY_FIELDS, 1)
      && FACTORY_DATA + FACTORY_SIZE == user
      && USER_CHECKSUM == user && USER_DATA == user + Offset(USER_FIELDS, 1)
      && USER_DATA + USER_SIZE == last
      && EEPROM_SIZE == last + Offset(LAST_FIELDS, |LAST_FIELDS|)
  {
    assert Offset(ENCRYPTED_FIELDS, 4) == 48;
    assert Offset(FACTORY_FIELDS, 7) == 48;
    assert Offset(USER_FIELDS, 8) == 40;
    assert Offset(USER_FIELDS, 15) == 68;
    assert Offset(USER_FIELDS, 22) == 96;
    assert Offset(LAST_FIELDS, 3) == 64;
  }

  /** Both sections carry the checksum of their contents. */
  predicate SectionsValid(image: seq<byte>)
    requires |image| == EEPROM_SIZE
  {
    && Section(image, FACTORY_CHECKSUM, 4) == Checksum(Section(image, FACTORY_DATA, FACTORY_SIZE))
    && Section(image, USER_CHECKSUM, 4) == Checksum(Section(image, USER_DATA, USER_SIZE))
  }

  function Section(image: seq<byte>, at: nat, size: nat): seq<byte>
    requires at + size <= |image|
  {
    image[at..at + size]
  }

  function WithFactory(image: seq<byte>): (r: seq<byte>)
    requires |image| == EEPROM_SIZE
    ensures |r| == EEPROM_SIZE
  {
    Stored(image, FACTORY_CHECKSUM, Checksum(Section(image, FACTORY_DATA, FACTORY_SIZE)))
  }

  function WithUser(image: seq<byte>): (r: seq<byte>)
    requires |image| == EEPROM_SIZE
    ensures |r| == EEPROM_SIZE
  {
    Stored(image, USER_CHECKSUM, Checksum(Section(image, USER_DATA, USER_SIZE)))
  }

  method GenSectionCRCs(eeprom: array<byte>)
    requires eeprom.Length == EEPROM_SIZE
    modifies eeprom
    ensures eeprom[..] == WithUser(WithFactory(old(eeprom[..])))
  {
    ghost var image := eeprom[..];
    assert eeprom[FACTORY_DATA..FACTORY_DATA + FACTORY_SIZE] == Section(image, FACTORY_DATA, FACTORY_SIZE);
    EepromCRC(eeprom, FACTORY_CHECKSUM, FACTORY_DATA, FACTORY_SIZE);
    image := eeprom[..];
    assert eeprom[USER_DATA..USER_DATA + USER_SIZE] == Section(image, USER_DATA, USER_SIZE);
    EepromCRC(eeprom, USER_CHECKSUM, USER_DATA, USER_SIZE);
  }

  predicate InChecksum(i: int) {
    FACTORY_CHECKSUM <= i < FACTORY_DATA || USER_CHECKSUM <= i < USER_DATA
  }

  /** Regenerating makes both sections valid, touches nothing but the two checksums, and leaves an
      image that is already valid as it is. */
  lemma {:induction false} RegeneratedSections(image: seq<byte>)
    requires |image| == EEPROM_SIZE
    ensures var r := WithUser(WithFactory(image));
      && SectionsValid(r)
      && (forall i :: 0 <= i < EEPROM_SIZE && !InChecksum(i) ==> r[i] == image[i])
      && (SectionsValid(image) <==> r == image)
  {
    var f := WithFactory(image);
    var r := WithUser(f);
    assert Section(r, FACTORY_CHECKSUM, 4) == Section(f, FACTORY_CHECKSUM, 4)
        == Checksum(Section(image, FACTORY_DATA, FACTORY_SIZE));
    assert Section(r, FACTORY_DATA, FACTORY_SIZE) == Section(image, FACTORY_DATA, FACTORY_SIZE);
    assert Section(r, USER_CHECKSUM, 4) == Checksum(Section(f, USER_DATA, USER_SIZE));
    assert Section(r, USER_DATA, USER_SIZE) == Section(f, USER_DATA, USER_SIZE) == Section(image, USER_DATA, USER_SIZE);
    if SectionsValid(image) {
      StoredSame(image, FACTORY_CHECKSUM);
      StoredSame(image, USER_CHECKSUM);
    }
  }

  lemma StoredSame(image: seq<byte>, at: nat)
    requires at + 4 <= |image|
    ensures Stored(image, at, Section(image, at, 4)) == image
  {
  }

  // ---------------------------------------------------------------- what the checksum detects

  lemma {:induction false} ColumnSumUpdate(data: seq<byte>, i: nat, v: byte, m: nat, p: nat)
    requires i < |data| && m <= |data|
    ensures ColumnSum(data[i := v], m, p) ==
      ColumnSum(data, m, p) + if i < m && i % 4 == p then v - data[i] else 0
  {
    if m == 0 {
    } else {
      ColumnSumUpdate(data, i, v, m - 1, p);
    }
  }

  /** Changing one byte before the last moves its own checksum byte by exactly the difference, modulo 256,
      and can otherwise reach only the next checksum byte. */
  lemma {:induction false} ByteChange(data: seq<byte>, i: nat, v: byte)
    requires i < |data| - 1
    ensures var changed := data[i := v];
      && Crc(changed, i % 4) == (Crc(data, i % 4) - (v - data[i])) % 256
      && (forall p :: 0 <= p < 4 && p != i % 4 && p != (i + 1) % 4 ==> Crc(changed, p) == Crc(data, p))
  {
    forall p | 0 <= p < 4
      ensures High(data[i := v], p) == High(data, p) + if p == i % 4 then v - data[i] else 0
      ensures Low(data[i := v], p) == Low(data, p) + if p == (i + 1) % 4 then v - data[i] else 0
    {
      SumsChange(data, i, v, p);
    }
    DifferenceMod(255 - High(data, i % 4) - Low(data, i % 4) / 256, v - data[i]);
  }

  lemma {:induction false} SumsChange(data: seq<byte>, i: nat, v: byte, p: nat)
    requires i < |data| - 1 && p < 4
    ensures High(data[i := v], p) == High(data, p) + if p == i % 4 then v - data[i] else 0
    ensures Low(data[i := v], p) == Low(data, p) + if p == (i + 1) % 4 then v - data[i] else 0
  {
    ColumnSumUpdate(data, i, v, |data| - 1, p);
    ColumnSumUpdate(data, i, v, |data| - 1, (p + 3) % 4);
    NextColumn(i, p);
  }

  lemma NextColumn(i: nat, p: nat)
    requires p < 4
    ensures i % 4 == (p + 3) % 4 <==> p == (i + 1) % 4
  {
  }

  lemma DifferenceMod(x: int, d: int)
    ensures (x - d) % 256 == (x % 256 - d) % 256
  {
  }

  /** Every change of a single byte before the last one is detected. */
  lemma {:induction false} ByteChangeDetected(data: seq<byte>, i: nat, v: byte)
    requires i < |data| - 1 && v != data[i]
    ensures Checksum(data[i := v]) != Checksum(data)
  {
    ByteChange(data, i, v);
    assert Checksum(data[i := v])[i % 4] == Crc(data[i := v], i % 4);
    assert Checksum(data)[i % 4] == Crc(data, i % 4);
    NonZeroShift(Crc(data, i % 4), v - data[i]);
  }

  lemma NonZeroShift(c: byte, d: int)
    requires -256 < d < 256 && d != 0
    ensures (c - d) % 256 != c
  {
  }

  /** The last byte is only seen through a carry: changing it goes unnoticed exactly when it and the old
      value both carry, or both do not, out of the last column's low byte. */
  lemma {:induction false} LastByteChange(data: seq<byte>, v: byte)
    requires data != []
    ensures var last, column := data[|data| - 1], ColumnSum(data, |data| - 1, 3) % 256;
      Checksum(data[|data| - 1 := v]) == Checksum(data) <==> (column + v < 256 <==> column + last < 256)
  {
    var n := |data| - 1;
    var changed := data[n := v];
    forall p | 0 <= p < 4
      ensures ColumnSum(changed, n, p) == ColumnSum(data, n, p)
    {
      ColumnSumUpdate(data, n, v, n, p);
    }
    assert forall p :: 0 < p < 4 ==> Crc(changed, p) == Crc(data, p);
    CarryOnly(255 - High(data, 0), ColumnSum(data, n, 3), data[n], v);
    if Crc(changed, 0) != Crc(data, 0) {
      assert Checksum(changed)[0] != Checksum(data)[0];
    }
  }

  lemma CarryOnly(x: int, s: nat, a: byte, b: byte)
    ensures (x - (s + a) / 256) % 256 == (x - (s + b) / 256) % 256 <==> (s % 256 + a < 256 <==> s % 256 + b < 256)
  {
    assert (s + a) / 256 == s / 256 + if s % 256 + a < 256 then 0 else 1;
    assert (s + b) / 256 == s / 256 + if s % 256 + b < 256 then 0 else 1;
  }

  /** Exchanging two bytes of the same column, both before the last byte, is never detected. */
  lemma {:induction false} SwapUndetected(data: seq<byte>, i: nat, j: nat)
    requires i < |data| - 1 && j < |data| - 1 && i % 4 == j % 4
    ensures Checksum(data[i := data[j]][j := data[i]]) == Checksum(data)
  {
    var n, once := |data| - 1, data[i := data[j]];
    forall p | 0 <= p < 4
      ensures ColumnSum(once[j := data[i]], n, p) == ColumnSum(data, n, p)
    {
      ColumnSumUpdate(data, i, data[j], n, p);
      ColumnSumUpdate(once, j, data[i], n, p);
    }
  }
}
