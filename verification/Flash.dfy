/**
 The flash loader: identification, erasure and programming of a flash chip that is
 reached through the banked cartridge pages. The bank registers share their addresses
 with the flash data, and the command addresses of an SST chip need two extra banks,
 one of them in the page where the file buffer lives.
 */
module Flash {
  import opened Bytes
  import opened Wrappers
  import opened ChipModel

  datatype Page = Ram | Cartridge(slot: nat)

  const SEGMENT_SIZE := 0x2000
  const ATTEMPTS := 1000000

  function Address1(sst: bool): nat { if sst then 0x3555 else 0x555 }
  function Address2(sst: bool): nat { if sst then 0x4aaa else 0x2aa }

  function CommandAddress(sst: bool, first: bool): address {
    0x4000 + if first then Address1(sst) else Address2(sst)
  }

  // ---------- Command sequences, on the state of one chip ----------

  /** The chip can take the first write of an unlock sequence. */
  ghost predicate Accepting(v: ChipState) {
    v.Valid() && v.busy == 0 && !v.id && (v.sequence == Ready || v.sequence == EraseSetup)
  }

  /** The banks that show the command addresses are in place. */
  predicate Mapped(v: ChipState, sst: bool)
    requires |v.banks| == 4
  {
    sst ==> v.banks[1] == 2 && v.banks[2] == 1
  }

  /** The chip listens to the command addresses of the chosen family. */
  predicate Understands(v: ChipState, sst: bool) {
    v.kind != Empty && IsSst(v.kind) == sst
  }

  /** What the third write of an unlock sequence does to a chip that listens. */
  function Commanded(v: ChipState, command: byte, duration: nat): ChipState {
    if command == 0x90 then v.(id := true)
    else if command == 0xa0 then v.(sequence := Program)
    else if command == 0x80 then v.(sequence := EraseSetup)
    else v.(erasePending := true, pendingValue := 0xff, busy := duration,
            erases := v.erases + 1, sequence := Ready)
  }

  predicate IsCommand(v: ChipState, command: byte) {
    if v.sequence == Ready then command == 0x90 || command == 0xa0 || command == 0x80 else command == 0x10
  }

  /** An address is its bank and its offset in the bank. */
  lemma BankAndOffset(b: nat, r: nat)
    requires r < BANK_SIZE
    ensures (b * BANK_SIZE + r) % 0x800 == r % 0x800
    ensures (b * BANK_SIZE + r) % 0x8000 == b % 4 * BANK_SIZE + r
  {
    Remainder(b * BANK_SIZE + r, 0x800, 4 * b + r / 0x800, r % 0x800);
    Remainder(b * BANK_SIZE + r, 0x8000, b / 4, b % 4 * BANK_SIZE + r);
  }

  /** The low address lines go to the chip directly. */
  lemma LowAddressLines(kind: Kind, banks: seq<bank>, cpu: address)
    requires |banks| == 4
    ensures Physical(kind, banks, cpu) % 0x800 == cpu % 0x800
    ensures Physical(kind, banks, cpu) % 0x8000 == banks[Window(cpu)] % 4 * BANK_SIZE + cpu % BANK_SIZE
  {
    var b := banks[Window(cpu)];
    var c := if kind == Amd010 then b % 16 else b;
    if kind == Amd010 {
      Remainder(b * BANK_SIZE + cpu % BANK_SIZE, 0x20000, b / 16, b % 16 * BANK_SIZE + cpu % BANK_SIZE);
      Remainder(b, 4, 4 * (b / 16) + b % 16 / 4, c % 4);
    }
    assert Physical(kind, banks, cpu) == c * BANK_SIZE + cpu % BANK_SIZE;
    BankAndOffset(c, cpu % BANK_SIZE);
    BankAndOffset(cpu / BANK_SIZE, cpu % BANK_SIZE);
  }

  /** Where the unlock addresses arrive; none of them is a bank register. */
  lemma CommandAddresses(v: ChipState, sst: bool)
    requires |v.banks| == 4 && Mapped(v, sst)
    ensures !IsMapper(0x4000 + Address1(sst)) && !IsMapper(0x4000 + Address2(sst))
    ensures Understands(v, sst) ==>
      v.FirstAddress(0x4000 + Address1(sst)) && v.SecondAddress(0x4000 + Address2(sst))
    ensures IsSst(v.kind) && !sst ==> !v.FirstAddress(0x4000 + Address1(sst))
  {
    LowAddressLines(v.kind, v.banks, 0x4000 + Address1(sst));
    LowAddressLines(v.kind, v.banks, 0x4000 + Address2(sst));
    if sst {
      assert Window(0x7555) == 1 && Window(0x8aaa) == 2;
    } else {
      assert 0x4555 % 0x800 == 0x555 && 0x42aa % 0x800 == 0x2aa;
    }
  }

  /** The chip with the two command banks in place, for the family that needs them. */
  function CommandBanks(v: ChipState, sst: bool): ChipState
    requires |v.banks| == 4
  {
    if sst then v.(banks := v.banks[1 := 2][2 := 1]) else v
  }

  /** The two bank writes change nothing but the registers, while no command has begun. */
  lemma CommandBanksSelected(v: ChipState, d1: nat, d2: nat)
    requires Accepting(v) && v.sequence == Ready
    ensures !v.Starts(0x7000, 2) && !v.AfterWrite(0x7000, 2, d1).Starts(0x9000, 1)
    ensures v.AfterWrite(0x7000, 2, d1).AfterWrite(0x9000, 1, d2) == CommandBanks(v, true)
  {
    assert v.AfterWrite(0x7000, 2, d1) == v.(banks := v.banks[1 := 2]);
  }

  /** A full unlock sequence, with nothing in between, hands its command to the chip. */
  lemma UnlockAccepted(v: ChipState, sst: bool, command: byte, d1: nat, d2: nat, d3: nat)
    requires Accepting(v) && Mapped(v, sst) && Understands(v, sst) && IsCommand(v, command)
    ensures
      var a1, a2 := 0x4000 + Address1(sst), 0x4000 + Address2(sst);
      var v1 := v.AfterWrite(a1, 0xaa, d1);
      var v2 := v1.AfterWrite(a2, 0x55, d2);
      && !v.Starts(a1, 0xaa) && !v1.Starts(a2, 0x55)
      && (v2.Starts(a1, command) <==> command == 0x10)
      && v2.AfterWrite(a1, command, d3) == Commanded(v, command, d3)
  {
    var a1, a2 := 0x4000 + Address1(sst), 0x4000 + Address2(sst);
    CommandAddresses(v, sst);
    var v1 := v.AfterWrite(a1, 0xaa, d1);
    assert v1 == v.(sequence := if v.sequence == Ready then Cycle1 else EraseCycle1);
    CommandAddresses(v1, sst);
    var v2 := v1.AfterWrite(a2, 0x55, d2);
    assert v2 == v.(sequence := if v.sequence == Ready then Cycle2 else EraseCycle2);
    CommandAddresses(v2, sst);
  }

  /** An empty slot, or an SST chip addressed as an AMD chip, is not disturbed. */
  lemma UnlockIgnored(v: ChipState, sst: bool, command: byte, d1: nat, d2: nat, d3: nat)
    requires Accepting(v) && v.sequence == Ready
    requires v.kind == Empty || (IsSst(v.kind) && !sst)
    requires command != 0xf0
    ensures
      var a1, a2 := 0x4000 + Address1(sst), 0x4000 + Address2(sst);
      && !v.Starts(a1, 0xaa) && v.AfterWrite(a1, 0xaa, d1) == v
      && !v.Starts(a2, 0x55) && v.AfterWrite(a2, 0x55, d2) == v
      && !v.Starts(a1, command) && v.AfterWrite(a1, command, d3) == v
  {
    LowAddressLines(v.kind, v.banks, 0x4000 + Address1(sst));
  }

  /** The chip is ready for this command, or will not notice it. */
  ghost predicate Unlockable(v: ChipState, sst: bool, command: byte) {
    && Accepting(v) && command != 0xf0
    && if Understands(v, sst) then Mapped(v, sst) && IsCommand(v, command)
       else (v.kind == Empty || (IsSst(v.kind) && !sst)) && v.sequence == Ready
  }

  /** The state after an unlock sequence. */
  function Unlocked(v: ChipState, sst: bool, command: byte, duration: nat): ChipState {
    if Understands(v, sst) then Commanded(v, command, duration) else v
  }

  lemma UnlockDone(v: ChipState, v1: ChipState, v2: ChipState, v3: ChipState, sst: bool, command: byte)
    requires Unlockable(v, sst, command)
    requires v1 == v.AfterWrite(CommandAddress(sst, true), 0xaa, v1.busy)
    requires v2 == v1.AfterWrite(CommandAddress(sst, false), 0x55, v2.busy)
    requires v3 == v2.AfterWrite(CommandAddress(sst, true), command, v3.busy)
    ensures v3 == Unlocked(v, sst, command, v3.busy)
    ensures Understands(v, sst) && command == 0x10 ==> v2.Starts(CommandAddress(sst, true), command)
  {
    if Understands(v, sst) {
      UnlockAccepted(v, sst, command, v1.busy, v2.busy, v3.busy);
    } else {
      UnlockIgnored(v, sst, command, v1.busy, v2.busy, v3.busy);
    }
  }

  function BankSelected(v: ChipState, value: byte): ChipState
    requires |v.banks| == 4
  {
    v.(banks := v.banks[0 := value % 64])
  }

  /** A write to the bank register of page 1 does only that, between commands and while busy. */
  lemma BankWrite(v: ChipState, value: byte, d: nat)
    requires v.Valid() && (v.busy > 0 || (v.sequence == Ready && !v.id))
    ensures !v.Starts(0x5000, value)
    ensures v.AfterWrite(0x5000, value, d) == BankSelected(v, value)
  {
    LowAddressLines(v.kind, v.banks, 0x5000);
  }

  /** The reset command brings every chip that is not taking data back to reading out its array. */
  lemma ResetWrite(v: ChipState, d: nat)
    requires v.Valid() && v.sequence != Program && (v.busy > 0 ==> v.sequence == Ready && !v.id)
    ensures !v.Starts(0x4000, 0xf0)
    ensures v.AfterWrite(0x4000, 0xf0, d) == if v.kind == Empty then v else v.(id := false, sequence := Ready)
  {
  }

  /** A bank register written inside a command sequence loses the sequence and is counted as invalid. */
  lemma MapperWriteBreaksUnlock(v: ChipState, cpu: address, value: byte, d: nat)
    requires v.Valid() && v.kind != Empty && v.busy == 0 && !v.id && value != 0xf0
    requires v.sequence != Ready && v.sequence != Program
    requires IsMapper(cpu)
    ensures v.AfterWrite(cpu, value, d).sequence == Ready
    ensures v.AfterWrite(cpu, value, d).invalid == v.invalid + 1
  {
    LowAddressLines(v.kind, v.banks, cpu);
    assert !v.FirstAddress(cpu) && !v.SecondAddress(cpu);
  }

  // ---------- Polling ----------

  /** `after` is `before` with some status reads made. */
  ghost predicate Polled(before: ChipState, after: ChipState, stuck: bool, corrupt: bool) {
    if before.busy == 0 || before.kind == Empty then after == before
    else
      || (0 < after.busy <= before.busy && after == before.(busy := after.busy))
      || (&& !stuck
          && after == before.(busy := 0, erasePending := false, memory := after.memory)
          && before.Committed(after.memory, corrupt))
  }

  /** Polling from `before` has made `used` reads so far and shows the chip as `after`. */
  ghost predicate Polling(before: ChipState, after: ChipState, used: nat, stuck: bool, corrupt: bool) {
    && Polled(before, after, stuck, corrupt)
    && (after.busy > 0 ==> after.busy == if stuck then before.busy else before.busy - used)
    && (before.busy > 0 && after.busy == 0 ==> before.busy <= used)
  }

  ghost predicate AllErased(memory: seq<byte>) {
    forall k :: 0 <= k < |memory| ==> memory[k] == 0xff
  }

  // ---------- Segments ----------

  /** The first array byte of the 8 KB that a segment number selects. */
  function SegmentBase(kind: Kind, segment: byte): (base: nat)
    ensures base + SEGMENT_SIZE <= Capacity(kind)
  {
    Wrapped(kind, segment % 64 * BANK_SIZE)
  }

  lemma SegmentAddress(kind: Kind, banks: seq<bank>, segment: byte, i: nat)
    requires |banks| == 4 && banks[0] == segment % 64 && i < SEGMENT_SIZE
    ensures Physical(kind, banks, 0x4000 + i) == SegmentBase(kind, segment) + i
  {
    assert Window(0x4000 + i) == 0;
    PageOffset(i);
    BankOffset(kind, banks[0], i);
  }

  lemma PageOffset(i: nat)
    requires i < SEGMENT_SIZE
    ensures (0x4000 + i) % BANK_SIZE == i
  {
    Remainder(0x4000 + i, BANK_SIZE, 2, i);
  }

  /** Wrapping leaves the offset in the bank alone. */
  lemma BankOffset(kind: Kind, b: bank, i: nat)
    requires i < BANK_SIZE
    ensures Wrapped(kind, b * BANK_SIZE + i) == Wrapped(kind, b * BANK_SIZE) + i
  {
    Remainder(b * BANK_SIZE, 0x20000, b / 16, b % 16 * BANK_SIZE);
    Remainder(b * BANK_SIZE + i, 0x20000, b / 16, b % 16 * BANK_SIZE + i);
  }

  /** A byte of the file, which is filled up with FFh. */
  function At(file: seq<byte>, p: nat): byte {
    if p < |file| then file[p] else 0xff
  }

  /** The next 8 KB of the file from `position`. */
  ghost function Padded(file: seq<byte>, position: nat): (s: seq<byte>)
    ensures |s| == SEGMENT_SIZE
  {
    seq<byte>(SEGMENT_SIZE, j requires 0 <= j => At(file, position + j))
  }

  lemma PaddedIs(file: seq<byte>, position: nat, count: nat, buffer: seq<byte>)
    requires position <= |file| && |buffer| == SEGMENT_SIZE
    requires count == if |file| - position < SEGMENT_SIZE then |file| - position else SEGMENT_SIZE
    requires forall j :: 0 <= j < SEGMENT_SIZE ==> buffer[j] == if j < count then file[position + j] else 0xff
    ensures buffer == Padded(file, position)
  {
    forall j | 0 <= j < SEGMENT_SIZE ensures buffer[j] == Padded(file, position)[j] {
      assert Padded(file, position)[j] == At(file, position + j);
      assert j < count <==> position + j < |file|;
    }
  }

  /** Programming can turn the `n` array bytes from `base` on into those of the buffer: it only clears bits. */
  ghost predicate Programmable(memory: seq<byte>, base: nat, buffer: seq<byte>, n: nat) {
    && base + n <= |memory| && n <= |buffer|
    && forall j :: 0 <= j < n ==> BitAnd(memory[base + j], buffer[j]) == buffer[j]
  }

  /** A data write to offset `i` of page 1 starts a programming operation; it may hit the bank register. */
  lemma DataWrite(v: ChipState, i: nat, value: byte, d: nat)
    requires v.Valid() && v.kind != Empty && v.busy == 0 && v.sequence == Program && i < SEGMENT_SIZE
    ensures v.Starts(0x4000 + i, value)
    ensures i < 0x1000 ==>
      v.AfterWrite(0x4000 + i, value, d) == Programming(v, Physical(v.kind, v.banks, 0x4000 + i), value, d)
    ensures BankSelected(v.AfterWrite(0x4000 + i, value, d), v.banks[0])
         == Programming(v, Physical(v.kind, v.banks, 0x4000 + i), value, d)
  {
    assert Window(0x4000 + i) == 0;
    assert Latched(v.banks, 0x4000 + i, value)[0 := v.banks[0]] == v.banks;
  }

  /** The chip while it programs `value` into array byte `p`. */
  function Programming(v: ChipState, p: nat, value: byte, duration: nat): ChipState {
    v.(pendingAddress := p, pendingValue := value, busy := duration,
       programs := v.programs + 1, sequence := Ready)
  }

  /** From `v`, exactly the `n` array bytes from `base` on have been programmed, to those of the buffer. */
  ghost predicate Written(v: ChipState, w: ChipState, base: nat, buffer: seq<byte>, n: nat) {
    && w.kind == v.kind && |w.memory| == |v.memory|
    && w.programs == v.programs + n && w.erases == v.erases && w.invalid == v.invalid
    && base + n <= |w.memory| && n <= |buffer|
    && (forall j :: 0 <= j < n ==> w.memory[base + j] == buffer[j])
    && (forall k :: 0 <= k < |w.memory| && !(base <= k < base + n) ==> w.memory[k] == v.memory[k])
  }

  /** One programming operation on array byte `p` leads from `w` to `u`. */
  ghost predicate Touched(w: ChipState, u: ChipState, p: nat) {
    && u.kind == w.kind && |u.memory| == |w.memory|
    && u.programs == w.programs + 1 && u.erases == w.erases && u.invalid == w.invalid
    && (forall k :: 0 <= k < |u.memory| && k != p ==> u.memory[k] == w.memory[k])
    && !u.id && u.sequence == Ready
  }

  lemma WrittenNext(v: ChipState, w: ChipState, u: ChipState, base: nat, buffer: seq<byte>, n: nat)
    requires Written(v, w, base, buffer, n) && n < |buffer| && base + n < |w.memory|
    requires Touched(w, u, base + n) && u.memory[base + n] == buffer[n]
    ensures Written(v, u, base, buffer, n + 1)
  {
  }

  /** Whether programming can go on with byte `n` is decided by what was there in the beginning. */
  lemma ProgrammableNext(v: ChipState, w: ChipState, base: nat, buffer: seq<byte>, n: nat)
    requires Written(v, w, base, buffer, n) && n < |buffer| && base + n < |w.memory|
    ensures
      if BitAnd(w.memory[base + n], buffer[n]) == buffer[n]
      then Programmable(v.memory, base, buffer, n) ==> Programmable(v.memory, base, buffer, n + 1)
      else !Programmable(v.memory, base, buffer, |buffer|)
  {
    assert w.memory[base + n] == v.memory[base + n];
  }

  /** Programming from `v` stopped at offset `i`: the bytes before it are right and none after it is touched. */
  ghost predicate FailedAt(v: ChipState, w: ChipState, u: ChipState, base: nat, buffer: seq<byte>, i: nat) {
    Written(v, w, base, buffer, i) && Touched(w, u, base + i)
  }

  // ---------- Identification ----------

  /** Not in the middle of an operation; may still be showing its identification. */
  ghost predicate Quiet(v: ChipState) {
    && v.Valid() && v.busy == 0 && !v.erasePending
    && if v.kind == Empty then v.Idle() else v.sequence != Program
  }

  predicate IsAmdId(manufacturer: byte, device: byte) {
    || (device == 0x86 && manufacturer == 0x37)
    || (device == 0xa4 && manufacturer == 0x01)
    || (device == 0x20 && manufacturer == 0x01)
  }

  /** The first two bytes of the array look like an identification. */
  predicate Mimics(v: ChipState) {
    |v.memory| >= 2 && IsAmdId(v.memory[0], v.memory[1])
  }

  /** The stack lies in page 3, out of the way of the SST command bank. */
  predicate StackInPage3(stackPointer: nat) {
    stackPointer >= 0xc100
  }

  /** Exactly when identification reports a chip. */
  predicate Detects(v: ChipState, stackPointer: nat) {
    && v.kind != Empty
    && (!IsSst(v.kind) || Mimics(v) || (v.kind == Sst && StackInPage3(stackPointer)))
  }

  /** Exactly when it reports the SST command set. */
  predicate DetectsSst(v: ChipState, stackPointer: nat) {
    v.kind == Sst && !Mimics(v) && StackInPage3(stackPointer)
  }

  /** In numbers: the pairs of manufacturer and device, and the lowest stack that leaves page 2 free. */
  lemma DetectsExactly(v: ChipState, stackPointer: nat)
    requires |v.memory| == MEMORY_SIZE
    ensures
      var mimics := (v.memory[0], v.memory[1]) in {(0x37, 0x86), (0x01, 0xa4), (0x01, 0x20)};
      && (Detects(v, stackPointer) <==>
            || v.kind == Amic || v.kind == Amd040 || v.kind == Amd010
            || (mimics && (v.kind == Sst || v.kind == Unsupported))
            || (v.kind == Sst && stackPointer >= 0xc100))
      && (DetectsSst(v, stackPointer) <==> v.kind == Sst && !mimics && stackPointer >= 0xc100)
  {
  }

  /** Identification leaves the chip reading out an unchanged array, without an aborted command. */
  ghost predicate Undisturbed(v: ChipState, w: ChipState) {
    && w.Idle() && w.kind == v.kind && w.memory == v.memory
    && w.programs == v.programs && w.erases == v.erases && w.invalid == v.invalid
  }

  /** `highest` is the last slot below `n` in which identification reports a chip, or 4 if there is none. */
  ghost predicate HighestDetected(views: seq<ChipState>, stackPointer: nat, n: nat, highest: nat, sst: bool)
    requires n <= 4 && |views| == 4
  {
    if highest == 4 then
      !sst && forall i :: 0 <= i < n ==> !Detects(views[i], stackPointer)
    else
      && highest < n
      && Detects(views[highest], stackPointer) && (sst <==> DetectsSst(views[highest], stackPointer))
      && forall i :: highest < i < n ==> !Detects(views[i], stackPointer)
  }

  /** One more slot has been looked at. */
  lemma NextHighest(views: seq<ChipState>, stackPointer: nat, i: nat, highest: nat, highestIsSst: bool,
                    found: bool, sst: bool)
    requires i < 4 && |views| == 4 && HighestDetected(views, stackPointer, i, highest, highestIsSst)
    requires (found <==> Detects(views[i], stackPointer)) && (sst <==> DetectsSst(views[i], stackPointer))
    ensures HighestDetected(views, stackPointer, i + 1,
                            if found then i else highest, if found then sst else highestIsSst)
  {
  }
}
