/**
 * The rotating-slot preset store of the firmware (`saveToEEPROM`,
 * `loadFromEEPROM`). The EEPROM is an array of L bytes whose last byte holds
 * the current slot; a record is written at slot*10. Every address is taken
 * modulo L, as the address register of the AVR EEPROM does.
 */
module Store {
  import opened Bits

  const CODE_SIZE: nat := 7
  const SAVE_SIZE: nat := 10
  const SLOT_LIMIT: nat := 102
  /** size, CODE_SIZE code bytes, brightness, four colour bytes */
  const RECORD_SIZE: nat := 1 + CODE_SIZE + 1 + 4

  datatype Preset = Preset(size: uint8, code: seq<uint8>, brightness: uint8, color: uint32)

  predicate WellFormed(p: Preset)
  {
    |p.code| == CODE_SIZE
  }

  /** The four bytes `EEPROM.put` stores for a `uint32_t`, least significant first. */
  function ColorBytes(c: uint32): (b: seq<uint8>)
    ensures |b| == 4
  {
    var q1 := c / 0x100;
    var q2 := q1 / 0x100;
    [c % 0x100, q1 % 0x100, q2 % 0x100, q2 / 0x100]
  }

  function ColorFromBytes(b: seq<uint8>): uint32
    requires |b| == 4
  {
    var b0, b1, b2, b3: int := b[0], b[1], b[2], b[3];
    b0 + 0x100 * b1 + 0x1_0000 * b2 + 0x100_0000 * b3
  }

  /** Reading back the four bytes stored for a colour gives the colour. */
  lemma ColorRoundTrip(c: uint32)
    ensures ColorFromBytes(ColorBytes(c)) == c
  {
    var q1 := c / 0x100;
    var q2 := q1 / 0x100;
    var b := ColorBytes(c);
    assert c == b[0] + 0x100 * q1;
    assert q1 == b[1] + 0x100 * q2;
    assert q2 == b[2] + 0x100 * b[3];
  }

  /** The record layout: [size][code: 7][brightness][colour: 4]. */
  function RecordBytes(p: Preset): (b: seq<uint8>)
    requires WellFormed(p)
    ensures |b| == RECORD_SIZE
  {
    [p.size] + p.code + [p.brightness] + ColorBytes(p.color)
  }

  /** The cell an address reaches in an EEPROM of n bytes. */
  function Wrap(addr: nat, n: nat): (a: nat)
    requires n > 0
    ensures a < n && (addr < n ==> a == addr)
  {
    addr % n
  }

  function Get(mem: seq<uint8>, addr: nat): uint8
    requires |mem| > 0
  {
    mem[Wrap(addr, |mem|)]
  }

  function Put(mem: seq<uint8>, addr: nat, b: uint8): (r: seq<uint8>)
    requires |mem| > 0
    ensures |r| == |mem|
  {
    mem[Wrap(addr, |mem|) := b]
  }

  /** Bytes written one at a time from `base` upward, first byte first. */
  function PutAll(mem: seq<uint8>, base: nat, bytes: seq<uint8>): (r: seq<uint8>)
    requires |mem| > 0
    ensures |r| == |mem|
  {
    if |bytes| == 0 then mem
    else Put(PutAll(mem, base, bytes[..|bytes| - 1]), base + |bytes| - 1, bytes[|bytes| - 1])
  }

  /** The slot `saveToEEPROM` uses: the stored pointer plus one in `uint8`, reset to 0 above the limit. */
  function NextSlot(ptr: uint8, limit: nat): uint8
  {
    var s := (ptr as int + 1) % 0x100;
    if s > limit then 0 else s
  }

  /** The EEPROM after `saveToEEPROM` with the given slot limit; the pointer is written last. */
  function SaveImage(mem: seq<uint8>, p: Preset, limit: nat): (r: seq<uint8>)
    requires |mem| > 0 && WellFormed(p)
    ensures |r| == |mem|
  {
    var slot := NextSlot(mem[|mem| - 1], limit);
    Put(PutAll(mem, slot * SAVE_SIZE, RecordBytes(p)), |mem| - 1, slot)
  }

  /** `EEPROM.get` of a `uint32_t` at addr. */
  function GetColor(mem: seq<uint8>, addr: nat): uint32
    requires |mem| > 0
  {
    ColorFromBytes([Get(mem, addr), Get(mem, addr + 1), Get(mem, addr + 2), Get(mem, addr + 3)])
  }

  /** The preset `loadFromEEPROM` reads back from the slot named by the pointer byte. */
  function LoadImage(mem: seq<uint8>): Preset
    requires |mem| > 0
  {
    var base := mem[|mem| - 1] * SAVE_SIZE;
    Preset(Get(mem, base), GetAll(mem, base + 1, CODE_SIZE),
           Get(mem, base + CODE_SIZE + 1), GetColor(mem, base + CODE_SIZE + 2))
  }

  /** Bytes read one at a time from `base` upward. */
  function GetAll(mem: seq<uint8>, base: nat, count: nat): (r: seq<uint8>)
    requires |mem| > 0
    ensures |r| == count
  {
    if count == 0 then [] else GetAll(mem, base, count - 1) + [Get(mem, base + count - 1)]
  }

  lemma {:induction false} GetAllAt(mem: seq<uint8>, base: nat, count: nat, k: nat)
    requires |mem| > 0 && k < count
    ensures GetAll(mem, base, count)[k] == Get(mem, base + k)
  {
    if k < count - 1 {
      GetAllAt(mem, base, count - 1, k);
    }
  }

  /** Some address among base, base+1, .., base+count-1 reaches cell a of an n-byte EEPROM. */
  predicate Covers(base: nat, count: nat, n: nat, a: nat)
    requires n > 0
  {
    count > 0 && (Wrap(base + count - 1, n) == a || Covers(base, count - 1, n, a))
  }

  /** Writing A and then B right after it is writing A + B. */
  lemma {:induction false} PutAllAppend(mem: seq<uint8>, base: nat, a: seq<uint8>, b: seq<uint8>)
    requires |mem| > 0
    ensures PutAll(PutAll(mem, base, a), base + |a|, b) == PutAll(mem, base, a + b)
  {
    if |b| > 0 {
      var b' := b[..|b| - 1];
      PutAllAppend(mem, base, a, b');
      assert (a + b)[..|a + b| - 1] == a + b';
    } else {
      assert a + b == a;
    }
  }

  /** Without wrap-around, the written bytes sit at base.. and nothing else changes. */
  lemma {:induction false} PutAllAt(mem: seq<uint8>, base: nat, bytes: seq<uint8>, a: nat)
    requires |mem| > 0 && base + |bytes| <= |mem| && a < |mem|
    ensures PutAll(mem, base, bytes)[a] == if base <= a < base + |bytes| then bytes[a - base] else mem[a]
  {
    if |bytes| > 0 {
      PutAllAt(mem, base, bytes[..|bytes| - 1], a);
    }
  }

  /** A byte no write lands on, wrap-around included, keeps its value. */
  lemma {:induction false} PutAllElsewhere(mem: seq<uint8>, base: nat, bytes: seq<uint8>, a: nat)
    requires |mem| > 0 && a < |mem|
    requires !Covers(base, |bytes|, |mem|, a)
    ensures PutAll(mem, base, bytes)[a] == mem[a]
  {
    if |bytes| > 0 {
      PutAllElsewhere(mem, base, bytes[..|bytes| - 1], a);
    }
  }

  /**
   * The pointer byte after a save is the old pointer plus one (mod 256), or 0
   * when that exceeds SLOT_LIMIT; so it always lies in [0, SLOT_LIMIT].
   */
  lemma SavePointer(mem: seq<uint8>, p: Preset)
    requires |mem| > 0 && WellFormed(p)
    ensures var ptr := SaveImage(mem, p, SLOT_LIMIT)[|mem| - 1];
      var next := (mem[|mem| - 1] as int + 1) % 0x100;
      ptr == (if next <= SLOT_LIMIT then next else 0) && 0 <= ptr <= SLOT_LIMIT
  {
  }

  /** Slots are used in turn, and after the last one the pointer wraps to slot 0. */
  lemma NextSlotCycles(ptr: uint8, limit: nat)
    requires ptr <= limit < 0xFF
    ensures NextSlot(ptr, limit) == if ptr == limit then 0 else ptr + 1
  {
  }

  /**
   * When the record fits below the pointer byte, a save writes the size at
   * slot*10, the code at +1..+7, the brightness at +8 and the colour at
   * +9..+12, and leaves every other byte but the pointer as it was.
   */
  lemma SaveLayout(mem: seq<uint8>, p: Preset, limit: nat, a: nat)
    requires |mem| > 0 && WellFormed(p) && a < |mem| - 1
    requires NextSlot(mem[|mem| - 1], limit) * SAVE_SIZE + RECORD_SIZE <= |mem| - 1
    ensures var base := NextSlot(mem[|mem| - 1], limit) * SAVE_SIZE;
      SaveImage(mem, p, limit)[a] == if base <= a < base + RECORD_SIZE then RecordBytes(p)[a - base] else mem[a]
  {
    var slot := NextSlot(mem[|mem| - 1], limit);
    PutAllAt(mem, slot * SAVE_SIZE, RecordBytes(p), a);
  }

  /** Whatever the slot, a byte that is neither the pointer nor covered by the record is unchanged. */
  lemma SaveFrame(mem: seq<uint8>, p: Preset, limit: nat, a: nat)
    requires |mem| > 0 && WellFormed(p) && a < |mem| - 1
    requires !Covers(NextSlot(mem[|mem| - 1], limit) * SAVE_SIZE, RECORD_SIZE, |mem|, a)
    ensures SaveImage(mem, p, limit)[a] == mem[a]
  {
    var slot := NextSlot(mem[|mem| - 1], limit);
    PutAllElsewhere(mem, slot * SAVE_SIZE, RecordBytes(p), a);
  }

  lemma SavedByte(mem: seq<uint8>, p: Preset, limit: nat, k: nat)
    requires |mem| > 0 && WellFormed(p) && k < RECORD_SIZE
    requires NextSlot(mem[|mem| - 1], limit) * SAVE_SIZE + RECORD_SIZE <= |mem| - 1
    ensures Get(SaveImage(mem, p, limit), NextSlot(mem[|mem| - 1], limit) * SAVE_SIZE + k) == RecordBytes(p)[k]
  {
    SaveLayout(mem, p, limit, NextSlot(mem[|mem| - 1], limit) * SAVE_SIZE + k);
  }

  /** Loading right after saving gives back the saved preset, when the record fits below the pointer. */
  lemma SaveLoadRoundTrip(mem: seq<uint8>, p: Preset, limit: nat)
    requires |mem| > 0 && WellFormed(p)
    requires NextSlot(mem[|mem| - 1], limit) * SAVE_SIZE + RECORD_SIZE <= |mem| - 1
    ensures LoadImage(SaveImage(mem, p, limit)) == p
  {
    var base := NextSlot(mem[|mem| - 1], limit) * SAVE_SIZE;
    var after := SaveImage(mem, p, limit);
    var bytes := RecordBytes(p);
    assert after[|mem| - 1] == NextSlot(mem[|mem| - 1], limit);
    var q := LoadImage(after);
    SavedByte(mem, p, limit, 0);
    assert q.code == p.code by {
      forall i | 0 <= i < CODE_SIZE ensures q.code[i] == p.code[i] {
        GetAllAt(after, base + 1, CODE_SIZE, i);
        SavedByte(mem, p, limit, i + 1);
        assert base + 1 + i == base + (i + 1);
      }
    }
    SavedByte(mem, p, limit, CODE_SIZE + 1);
    SavedByte(mem, p, limit, CODE_SIZE + 2);
    SavedByte(mem, p, limit, CODE_SIZE + 3);
    SavedByte(mem, p, limit, CODE_SIZE + 4);
    SavedByte(mem, p, limit, CODE_SIZE + 5);
    ColorRoundTrip(p.color);
  }

  /**
   * With SLOT_LIMIT = 102 and a 1024-byte EEPROM, a save after pointer 101
   * uses slot 102, whose record covers the pointer byte 1023: code byte 2 is
   * written there and then overwritten by the pointer, so a load reads 102
   * back as code byte 2.
   */
  lemma SlotLimitBreaksRoundTrip(mem: seq<uint8>, p: Preset)
    requires |mem| == 1024 && mem[1023] == 101 && WellFormed(p) && p.code[2] != 102
    ensures NextSlot(mem[1023], SLOT_LIMIT) * SAVE_SIZE + RECORD_SIZE > |mem| - 1
    ensures LoadImage(SaveImage(mem, p, SLOT_LIMIT)).code[2] == 102
    ensures LoadImage(SaveImage(mem, p, SLOT_LIMIT)) != p
  {
    var after := SaveImage(mem, p, SLOT_LIMIT);
    assert after[1023] == 102;
    GetAllAt(after, 1021, CODE_SIZE, 2);
  }

  /** The largest slot whose record still ends below the pointer byte of an L-byte EEPROM. */
  function SafeSlotLimit(len: nat): (limit: nat)
    requires len >= RECORD_SIZE + 1
    ensures limit * SAVE_SIZE + RECORD_SIZE <= len - 1
    ensures (limit + 1) * SAVE_SIZE + RECORD_SIZE > len - 1
  {
    (len - 1 - RECORD_SIZE) / SAVE_SIZE
  }

  /** With the slot limit derived from the EEPROM length, every save loads back intact. */
  lemma SafeLimitRoundTrip(mem: seq<uint8>, p: Preset)
    requires |mem| >= RECORD_SIZE + 1 && WellFormed(p)
    ensures LoadImage(SaveImage(mem, p, SafeSlotLimit(|mem|))) == p
  {
    var limit := SafeSlotLimit(|mem|);
    assert NextSlot(mem[|mem| - 1], limit) <= limit;
    SaveLoadRoundTrip(mem, p, limit);
  }

  /** `EEPROM.put` of one byte. */
  method PutByte(eeprom: array<uint8>, addr: nat, b: uint8)
    requires eeprom.Length > 0
    modifies eeprom
    ensures eeprom[..] == Put(old(eeprom[..]), addr, b)
  {
    eeprom[addr % eeprom.Length] := b;
  }

  /** `EEPROM.put` of a `uint32_t`: its four bytes, one address after the other. */
  method PutColor(eeprom: array<uint8>, addr: nat, c: uint32)
    requires eeprom.Length > 0
    modifies eeprom
    ensures eeprom[..] == PutAll(old(eeprom[..]), addr, ColorBytes(c))
  {
    var bytes := ColorBytes(c);
    var k := 0;
    while k < 4
      invariant 0 <= k <= 4
      invariant eeprom[..] == PutAll(old(eeprom[..]), addr, bytes[..k])
    {
      PutByte(eeprom, addr + k, bytes[k]);
      assert bytes[..k + 1][..k] == bytes[..k];
      k := k + 1;
    }
    assert bytes[..4] == bytes;
  }

  /** The record writes of `saveToEEPROM`, in the source's order, at base. */
  method PutRecord(eeprom: array<uint8>, base: nat, aruco: array<uint8>, size: uint8, brightness: uint8, color: uint32)
    requires eeprom.Length > 0 && aruco.Length >= CODE_SIZE && aruco != eeprom
    modifies eeprom
    ensures eeprom[..] ==
      PutAll(old(eeprom[..]), base, RecordBytes(Preset(size, aruco[..CODE_SIZE], brightness, color)))
  {
    ghost var mem := eeprom[..];
    ghost var bytes := RecordBytes(Preset(size, aruco[..CODE_SIZE], brightness, color));
    PutByte(eeprom, base, size);
    assert bytes[..1] == [size];
    var i := 0;
    while i < CODE_SIZE
      invariant 0 <= i <= CODE_SIZE
      invariant eeprom[..] == PutAll(mem, base, bytes[..i + 1])
    {
      assert bytes[i + 1] == aruco[i];
      PutByte(eeprom, base + i + 1, aruco[i]);
      assert bytes[..i + 2][..i + 1] == bytes[..i + 1];
      i := i + 1;
    }
    assert bytes[CODE_SIZE + 1] == brightness;
    PutByte(eeprom, base + CODE_SIZE + 1, brightness);
    assert bytes[..CODE_SIZE + 2][..CODE_SIZE + 1] == bytes[..CODE_SIZE + 1];
    PutColor(eeprom, base + CODE_SIZE + 2, color);
    PutAllAppend(mem, base, bytes[..CODE_SIZE + 2], ColorBytes(color));
    assert bytes[..CODE_SIZE + 2] + ColorBytes(color) == bytes;
  }

  method SaveToEEPROM(eeprom: array<uint8>, aruco: array<uint8>, size: uint8, brightness: uint8, color: uint32)
    requires eeprom.Length > 0 && aruco.Length >= CODE_SIZE && aruco != eeprom
    modifies eeprom
    ensures eeprom[..] == SaveImage(old(eeprom[..]), Preset(size, aruco[..CODE_SIZE], brightness, color), SLOT_LIMIT)
  {
    var slot: uint8 := eeprom[eeprom.Length - 1];
    slot := (slot as int + 1) % 0x100;
    if slot > SLOT_LIMIT {
      slot := 0;
    }
    PutRecord(eeprom, slot * SAVE_SIZE, aruco, size, brightness, color);
    PutByte(eeprom, eeprom.Length - 1, slot);
  }

  method LoadFromEEPROM(eeprom: array<uint8>, aruco: array<uint8>)
    returns (size: uint8, brightness: uint8, color: uint32)
    requires eeprom.Length > 0 && aruco.Length >= CODE_SIZE && aruco != eeprom
    modifies aruco
    ensures LoadImage(eeprom[..]) == Preset(size, aruco[..CODE_SIZE], brightness, color)
    ensures aruco[CODE_SIZE..] == old(aruco[CODE_SIZE..])
  {
    var n := eeprom.Length;
    var slot := eeprom[n - 1];
    var base := slot * SAVE_SIZE;
    size := eeprom[base % n];
    var i := 0;
    while i < CODE_SIZE
      invariant 0 <= i <= CODE_SIZE
      invariant aruco[..i] == GetAll(eeprom[..], base + 1, i)
      invariant aruco[CODE_SIZE..] == old(aruco[CODE_SIZE..])
    {
      aruco[i] := eeprom[(base + i + 1) % n];
      assert aruco[..i + 1] == aruco[..i] + [aruco[i]];
      i := i + 1;
    }
    brightness := eeprom[(base + CODE_SIZE + 1) % n];
    var addr := base + CODE_SIZE + 2;
    color := ColorFromBytes([eeprom[addr % n], eeprom[(addr + 1) % n], eeprom[(addr + 2) % n], eeprom[(addr + 3) % n]]);
  }
}
