/** The loader program: its globals, its bus accesses and its control flow. */
module FlashLoader {
  import opened Bytes
  import opened Wrappers
  import opened ChipModel
  import opened Flash
  import opened FlashCopy

  class Loader {
    /** The chip in each cartridge slot. */
    const slots: seq<Chip>
    /** The 8 KB of RAM from 8000h on, which page 2 shows when no cartridge hides it, with the stack above. */
    const fileSegment: array<byte>
    const stackPointer: nat
    /** The positions of the ROM file at which the disk cannot be read. */
    const diskFails: set<nat>

    var page1: Page
    var page2: Page
    var flashIsSst: bool
    var flashAddress1: nat
    var flashAddress2: nat
    /** How often the ROM file has been opened and closed, and how far it has been read. */
    var opens: nat
    var closes: nat
    var filePosition: nat

    /** The program as it is loaded, on a machine with a chip or an empty slot behind each cartridge slot. */
    constructor (slots: seq<Chip>, fileSegment: array<byte>, stackPointer: nat, diskFails: set<nat>)
      requires |slots| == 4 && forall i, j :: 0 <= i < j < 4 ==> slots[i] != slots[j]
      requires forall i :: 0 <= i < 4 ==> slots[i].Valid() && Quiet(slots[i].View())
      requires fileSegment.Length == SEGMENT_SIZE
      ensures this.slots == slots && this.fileSegment == fileSegment
      ensures this.stackPointer == stackPointer && this.diskFails == diskFails
      ensures Wired() && Restored() && Identified(Views(), 0) && opens == closes == 0
      ensures forall i :: 0 <= i < 4 ==> Views()[i] == old(slots[i].View())
    {
      this.slots, this.fileSegment, this.stackPointer, this.diskFails := slots, fileSegment, stackPointer, diskFails;
      page1, page2 := Ram, Ram;
      flashIsSst, flashAddress1, flashAddress2 := false, 0x555, 0x2aa;
      opens, closes, filePosition := 0, 0, 0;
    }

    /** Among the rest: page 2 hides the RAM, and SST commands are used, only with the stack in page 3. */
    ghost predicate Wired()
      reads this
    {
      && |slots| == 4
      && (forall i, j :: 0 <= i < j < 4 ==> slots[i] != slots[j])
      && fileSegment.Length == SEGMENT_SIZE
      && flashAddress1 == Address1(flashIsSst) && flashAddress2 == Address2(flashIsSst)
      && (page1.Cartridge? ==> page1.slot < 4)
      && (page2.Cartridge? ==> page2.slot < 4)
      && (page2.Cartridge? || flashIsSst ==> stackPointer >= 0xc000)
    }

    /** Both cartridge pages show RAM again. */
    predicate Restored()
      reads this
    {
      page1 == Ram && page2 == Ram
    }

    /** The chip that a bus access at an offset from 4000h reaches. */
    function Selected(offset: nat): Chip
      reads this
      requires Wired() && offset < 0x8000
      requires if offset < 0x4000 then page1.Cartridge? else page2.Cartridge?
    {
      slots[if offset < 0x4000 then page1.slot else page2.slot]
    }

    method BusWrite(offset: nat, value: byte)
      requires Wired() && offset < 0x8000
      requires if offset < 0x4000 then page1.Cartridge? else page2.Cartridge?
      requires Selected(offset).Valid()
      modifies Selected(offset)
      ensures Selected(offset).Valid()
      ensures
        var c := Selected(offset);
        c.View() == old(Selected(offset).View()).AfterWrite(0x4000 + offset, value, c.busy)
      ensures old(Selected(offset).View()).Starts(0x4000 + offset, value) ==>
        1 <= Selected(offset).busy <= Selected(offset).slowest
    {
      Selected(offset).Write(0x4000 + offset, value);
    }

    /** Writes the bank register of page 1. */
    method SelectBank(value: byte)
      requires Wired() && page1.Cartridge? && slots[page1.slot].Valid()
      requires var v := slots[page1.slot].View(); v.busy > 0 || (v.sequence == Ready && !v.id)
      modifies slots[page1.slot]
      ensures slots[page1.slot].Valid()
      ensures slots[page1.slot].View() == BankSelected(old(slots[page1.slot].View()), value)
    {
      ghost var v := slots[page1.slot].View();
      BusWrite(0x1000, value);
      BankWrite(v, value, slots[page1.slot].busy);
    }

    /** Brings the chip back to reading out its array. */
    method ResetFlash()
      requires Wired() && page1.Cartridge? && slots[page1.slot].Valid()
      requires
        var v := slots[page1.slot].View();
        v.sequence != Program && (v.busy > 0 ==> v.sequence == Ready && !v.id)
      modifies slots[page1.slot]
      ensures slots[page1.slot].Valid()
      ensures
        var v := old(slots[page1.slot].View());
        slots[page1.slot].View() == if v.kind == Empty then v else v.(id := false, sequence := Ready)
    {
      ghost var v := slots[page1.slot].View();
      BusWrite(0, 0xf0);
      ResetWrite(v, slots[page1.slot].busy);
    }

    /** A status or data read through page 1. */
    method BusRead(offset: nat) returns (value: byte)
      requires Wired() && offset < 0x4000 && page1.Cartridge? && slots[page1.slot].Valid()
      modifies slots[page1.slot]
      ensures slots[page1.slot].Valid()
      ensures
        var c, before := slots[page1.slot], old(slots[page1.slot].View());
        && Polled(before, c.View(), c.stuck, c.corrupt)
        && (before.kind == Empty || before.busy == 0 ==>
              value == before.Output(0x4000 + offset))
        && (before.kind != Empty && before.busy > 0 ==>
              && c.busy == (if c.stuck then before.busy else before.busy - 1)
              && (if c.busy > 0 then value == c.View().Status(c.stuck)
                  else value < 0x80 <==> before.pendingValue < 0x80))
    {
      value := slots[page1.slot].Read(0x4000 + offset);
    }

    method SetFlashType(sst: bool)
      requires Wired() && (sst ==> stackPointer >= 0xc000)
      modifies this`flashIsSst, this`flashAddress1, this`flashAddress2
      ensures Wired() && flashIsSst == sst
    {
      flashIsSst := sst;
      flashAddress1 := if sst then 0x3555 else 0x555;
      flashAddress2 := if sst then 0x4aaa else 0x2aa;
    }

    /** Keeps the target bank in page 1 and, for SST, maps the two command banks. */
    method SelectFlashCommands(slot: nat)
      requires Wired() && slot < 4 && page1 == Cartridge(slot)
      requires slots[slot].Valid() && Accepting(slots[slot].View()) && slots[slot].sequence == Ready
      modifies this`page2, slots[slot]
      ensures Wired() && slots[slot].Valid()
      ensures page2 == if flashIsSst then Cartridge(slot) else old(page2)
      ensures slots[slot].View() == CommandBanks(old(slots[slot].View()), flashIsSst)
    {
      if flashIsSst {
        page2 := Cartridge(slot);
        ghost var v := slots[slot].View();
        BusWrite(0x3000, 2);
        BusWrite(0x5000, 1);
        CommandBanksSelected(v, v.busy, v.busy);
      }
    }

    method RestoreFlashCommands()
      requires Wired()
      modifies this`page2
      ensures Wired()
      ensures page2 == if flashIsSst then Ram else old(page2)
    {
      if flashIsSst {
        page2 := Ram;
      }
    }

    /** A write to the first or second command address, through page 1 or 2. */
    method CommandWrite(first: bool, value: byte)
      requires Wired() && page1.Cartridge? && slots[page1.slot].Valid() && (flashIsSst ==> page2 == page1)
      modifies slots[page1.slot]
      ensures Wired() && slots[page1.slot].Valid()
      ensures slots[page1.slot].View()
           == old(slots[page1.slot].View()).AfterWrite(CommandAddress(flashIsSst, first), value, slots[page1.slot].busy)
      ensures old(slots[page1.slot].View()).Starts(CommandAddress(flashIsSst, first), value) ==>
        1 <= slots[page1.slot].busy <= slots[page1.slot].slowest
    {
      BusWrite(if first then flashAddress1 else flashAddress2, value);
    }

    /** The three writes that hand a command to the chip. */
    method FlashUnlock(command: byte)
      requires Wired() && page1.Cartridge? && slots[page1.slot].Valid()
      requires flashIsSst ==> page2 == page1
      requires Unlockable(slots[page1.slot].View(), flashIsSst, command)
      modifies slots[page1.slot]
      ensures slots[page1.slot].Valid()
      ensures
        var c, v := slots[page1.slot], old(slots[page1.slot].View());
        && c.View() == Unlocked(v, flashIsSst, command, c.busy)
        && (Understands(v, flashIsSst) && command == 0x10 ==> 1 <= c.busy <= c.slowest)
    {
      ghost var c, v := slots[page1.slot], slots[page1.slot].View();
      CommandWrite(true, 0xaa);
      ghost var v1 := c.View();
      CommandWrite(false, 0x55);
      ghost var v2 := c.View();
      CommandWrite(true, command);
      UnlockDone(v, v1, v2, c.View(), flashIsSst, command);
    }

    /**
     One more read while polling since the chip was in state `v`; `used` reads have been
     made before. While the operation runs DQ7 shows the opposite of the expected bit.
     */
    method PollRead(offset: nat, ghost v: ChipState, ghost used: nat) returns (value: byte)
      requires Wired() && page1.Cartridge? && offset < 0x4000 && slots[page1.slot].Valid()
      requires v.Valid() && !v.id && v.kind != Empty
      requires Polling(v, slots[page1.slot].View(), used, slots[page1.slot].stuck, slots[page1.slot].corrupt)
      modifies slots[page1.slot]
      ensures slots[page1.slot].Valid()
      ensures
        var c := slots[page1.slot];
        && Polling(v, c.View(), used + 1, c.stuck, c.corrupt)
        && (old(c.busy) == 0 ==>
              && c.busy == 0 && c.memory == old(c.memory)
              && value == c.memory[Physical(v.kind, v.banks, 0x4000 + offset)])
        && (c.busy > 0 ==>
              && (value < 0x80) != (v.pendingValue < 0x80)
              && (value / 0x20 % 2 == 1 <==> IsSst(v.kind) || c.stuck))
        && (old(c.busy) > 0 && c.busy == 0 ==> (value < 0x80) == (v.pendingValue < 0x80))
    {
      value := BusRead(offset);
    }

    /** Two reads that agree on the expected value; a running operation cannot produce them. */
    method Confirm(offset: nat, expected: byte, ghost v: ChipState, ghost used: nat)
      returns (value: byte, confirmed: bool)
      requires Wired() && page1.Cartridge? && offset < 0x4000 && slots[page1.slot].Valid()
      requires v.Valid() && !v.id && v.kind != Empty
      requires v.busy > 0 ==> v.pendingValue == expected
      requires Polling(v, slots[page1.slot].View(), used, slots[page1.slot].stuck, slots[page1.slot].corrupt)
      modifies slots[page1.slot]
      ensures slots[page1.slot].Valid()
      ensures
        var c, cell := slots[page1.slot], Physical(v.kind, v.banks, 0x4000 + offset);
        && Polled(v, c.View(), c.stuck, c.corrupt)
        && (confirmed ==> c.busy == 0 && c.memory[cell] == expected && v.busy <= used + 1)
        && (old(c.busy) == 0 ==>
              && c.busy == 0 && c.memory == old(c.memory)
              && value == c.memory[cell] && (confirmed <==> value == expected))
    {
      value := PollRead(offset, v, used);
      if value == expected {
        var again := PollRead(offset, v, used + 1);
        return value, again == expected;
      }
      return value, false;
    }

    /**
     The bounded polling loop. Giving up on a chip that is still at work means that it is
     stuck or that the bound has been reached; giving up on an idle one that the byte is wrong.
     */
    method PollLoop(offset: nat, expected: byte, ghost v: ChipState) returns (okay: bool, ghost used: nat)
      requires Wired() && page1.Cartridge? && offset < 0x4000 && slots[page1.slot].Valid()
      requires v.Valid() && v == slots[page1.slot].View() && v.kind != Empty && !v.id
      requires v.busy > 0 ==> v.pendingValue == expected && flashIsSst == IsSst(v.kind)
      modifies slots[page1.slot]
      ensures slots[page1.slot].Valid() && used <= ATTEMPTS
      ensures
        var c, cell := slots[page1.slot], Physical(v.kind, v.banks, 0x4000 + offset);
        && Polling(v, c.View(), used, c.stuck, c.corrupt)
        && if okay then c.busy == 0 && c.memory[cell] == expected
           else if c.busy == 0 then c.memory[cell] != expected
           else c.stuck || used == ATTEMPTS
    {
      ghost var c, cell := slots[page1.slot], Physical(v.kind, v.banks, 0x4000 + offset);
      var attempts := ATTEMPTS;
      used := 0;
      while attempts > 0
        invariant c.Valid() && used == ATTEMPTS - attempts
        invariant Polling(v, c.View(), used, c.stuck, c.corrupt)
        invariant c.busy == 0 && used > 0 ==> c.memory[cell] != expected
        invariant 0 <= attempts <= ATTEMPTS
        decreases attempts
      {
        attempts := attempts - 1;
        var value := PollRead(offset, v, used);
        used := used + 1;
        if (value < 0x80) == (expected < 0x80) {
          // SST needs further reads once DQ7 has become valid.
          value, okay := Confirm(offset, expected, v, used);
          if okay {
            return;
          }
        }
        if !flashIsSst && value / 0x20 % 2 == 1 {
          break;
        }
      }
      okay := false;
    }

    /**
     Waits for the running operation and checks the byte it leaves. An answer of true is
     never wrong, whatever the chip does; a chip that finishes within the bound is judged
     by what its array holds, even if DQ7 settles before the other bits.
     */
    method FlashCommandOkay(offset: nat, expected: byte) returns (okay: bool)
      requires Wired() && page1.Cartridge? && offset < 0x4000
      requires
        var v := slots[page1.slot].View();
        && slots[page1.slot].Valid() && v.kind != Empty && !v.id
        && (v.busy > 0 ==> v.pendingValue == expected && flashIsSst == IsSst(v.kind))
      modifies slots[page1.slot]
      ensures slots[page1.slot].Valid()
      ensures
        var c, v := slots[page1.slot], old(slots[page1.slot].View());
        var cell := Physical(v.kind, v.banks, 0x4000 + offset);
        && Polled(v, c.View(), c.stuck, c.corrupt)
        && (okay ==> c.busy == 0 && c.memory[cell] == expected)
        && (v.busy == 0 || (!c.stuck && v.busy <= 1000000) ==>
              c.busy == 0 && (okay <==> c.memory[cell] == expected))
        && (v.busy > 0 && (c.stuck || v.busy > 1000001) ==> !okay)
    {
      ghost var v := slots[page1.slot].View();
      ghost var used;
      okay, used := PollLoop(offset, expected, v);
      if !okay {
        var value;
        value, okay := Confirm(offset, expected, v, used);
      }
    }

    /** The six writes that start an erasure, with no bank write between them. */
    method CommandErase(slot: nat)
      requires Wired() && slot < 4 && page1 == Cartridge(slot) && page2 == Ram
      requires slots[slot].Valid() && slots[slot].View().Idle() && slots[slot].kind != Empty
      requires flashIsSst ==> IsSst(slots[slot].kind)
      modifies this`page2, slots[slot]
      ensures Wired() && page2 == Ram && slots[slot].Valid()
      ensures
        var c, v := slots[slot], CommandBanks(old(slots[slot].View()), flashIsSst);
        if Understands(v, flashIsSst) then c.View() == Commanded(v, 0x10, c.busy) && 1 <= c.busy <= c.slowest
        else c.View() == v
    {
      SelectFlashCommands(slot);
      FlashUnlock(0x80);
      FlashUnlock(0x10);
      RestoreFlashCommands();
    }

    /** Gives the command and waits, with bank 0 in page 1. */
    method EraseSelected(slot: nat) returns (okay: bool)
      requires Wired() && slot < 4 && page1 == Cartridge(slot) && page2 == Ram
      requires slots[slot].Valid() && slots[slot].View().Idle() && slots[slot].kind != Empty
      requires slots[slot].banks[0] == 0
      requires flashIsSst ==> IsSst(slots[slot].kind)
      modifies this`page2, slots[slot]
      ensures Wired() && page2 == Ram && slots[slot].Valid()
      ensures
        var c, v := slots[slot], CommandBanks(old(slots[slot].View()), flashIsSst);
        if Understands(v, flashIsSst) then
          && (c.busy == 0 || !okay)
          && (exists busy | 1 <= busy <= c.slowest :: Polled(Commanded(v, 0x10, busy), c.View(), c.stuck, c.corrupt))
          && (okay ==> c.busy == 0 && c.memory[0] == 0xff)
          && (!c.stuck && c.slowest <= ATTEMPTS ==> c.busy == 0 && (okay <==> c.memory[0] == 0xff))
          && (c.stuck ==> !okay)
        else c.View() == v && (okay <==> v.memory[0] == 0xff)
    {
      CommandErase(slot);
      SegmentAddress(slots[slot].kind, slots[slot].banks, 0, 0);
      okay := FlashCommandOkay(0, 0xff);
    }

    /** Erases the whole chip; an SST chip taken for an AMD one does not respond. */
    method EraseFlash(slot: nat) returns (okay: bool)
      requires Wired() && slot < 4 && Restored()
      requires slots[slot].Valid() && slots[slot].View().Idle() && slots[slot].kind != Empty
      requires flashIsSst ==> IsSst(slots[slot].kind)
      modifies this`page1, this`page2, slots[slot]
      ensures Wired() && Restored() && slots[slot].Valid()
      ensures
        var c, v := slots[slot], old(slots[slot].View());
        && !c.id && c.sequence == Ready && c.programs == v.programs && c.invalid == v.invalid
        && if Understands(v, flashIsSst) then
             && c.erases == v.erases + 1
             && (c.memory == v.memory || AllErased(c.memory))
             && (okay ==> c.View().Idle() && AllErased(c.memory))
             && (!c.stuck && c.slowest <= ATTEMPTS ==> okay)
             && (c.stuck ==> !okay)
           else
             c.memory == v.memory && c.erases == v.erases && c.View().Idle() && (okay <==> v.memory[0] == 0xff)
    {
      ghost var c, v := slots[slot], slots[slot].View();
      page1 := Cartridge(slot);
      SelectBank(0);
      okay := EraseSelected(slot);
      if !okay {
        ResetFlash();
      }
      page1 := Ram;
    }

    /** The file buffer shares page 2 with the SST command bank, so it may be read only while page 2 shows RAM. */
    method FileByte(i: nat) returns (value: byte)
      requires stackPointer >= 0xa000
      requires Wired() && i < SEGMENT_SIZE
      requires page2 == Ram
      ensures value == fileSegment[i]
    {
      value := fileSegment[i];
    }

    /** The writes that start programming one byte, and the bank write that undoes the damage done at 5x00. */
    method CommandProgram(slot: nat, segment: byte, i: nat, value: byte)
      requires Wired() && slot < 4 && page1 == Cartridge(slot) && page2 == Ram && i < SEGMENT_SIZE
      requires slots[slot].Valid() && slots[slot].View().Idle() && Understands(slots[slot].View(), flashIsSst)
      requires slots[slot].banks[0] == segment % 64
      modifies this`page2, slots[slot]
      ensures Wired() && page2 == Ram && slots[slot].Valid()
      ensures
        var c, v := slots[slot], CommandBanks(old(slots[slot].View()), flashIsSst);
        && c.View() == Programming(v, SegmentBase(v.kind, segment) + i, value, c.busy)
        && 1 <= c.busy <= c.slowest
    {
      SelectFlashCommands(slot);
      FlashUnlock(0xa0);
      RestoreFlashCommands();
      ghost var c, v := slots[slot], slots[slot].View();
      SegmentAddress(v.kind, v.banks, segment, i);
      BusWrite(i, value);
      DataWrite(v, i, value, c.busy);
      if i >= 0x1000 {
        SelectBank(segment);
      }
    }

    /** Programs and checks one byte of the file buffer. */
    method ProgramByte(slot: nat, segment: byte, i: nat) returns (okay: bool)
      requires stackPointer >= 0xa000
      requires Wired() && slot < 4 && page1 == Cartridge(slot) && page2 == Ram && i < SEGMENT_SIZE
      requires slots[slot].Valid() && slots[slot].View().Idle() && Understands(slots[slot].View(), flashIsSst)
      requires slots[slot].banks[0] == segment % 64
      modifies this`page2, slots[slot]
      ensures Wired() && page2 == Ram && slots[slot].Valid()
      ensures
        var c, w := slots[slot], old(slots[slot].View());
        var p := SegmentBase(w.kind, segment) + i;
        && Touched(w, c.View(), p)
        && (okay ==> c.View().Idle() && c.banks[0] == segment % 64 && c.memory[p] == fileSegment[i])
        && (c.Healthy() && c.slowest <= ATTEMPTS ==>
              (okay <==> BitAnd(w.memory[p], fileSegment[i]) == fileSegment[i]))
    {
      var value := FileByte(i);
      CommandProgram(slot, segment, i, value);
      SegmentAddress(slots[slot].kind, slots[slot].banks, segment, i);
      okay := FlashCommandOkay(i, value);
      if !okay {
        ResetFlash();
      }
    }

    /** `n` bytes of the buffer have been programmed since `v`. */
    ghost predicate SegmentProgress(c: Chip, v: ChipState, base: nat, buffer: seq<byte>, n: nat)
      reads c
    {
      && c.Valid() && c.View().Idle() && Written(v, c.View(), base, buffer, n)
      && (c.Healthy() && c.slowest <= ATTEMPTS ==> Programmable(v.memory, base, buffer, n))
    }

    /** Programming has failed before all of the buffer was done. */
    ghost predicate SegmentFailure(c: Chip, v: ChipState, base: nat, buffer: seq<byte>)
      reads c
    {
      && (exists i: nat, w :: i < SEGMENT_SIZE && FailedAt(v, w, c.View(), base, buffer, i))
      && (c.Healthy() && c.slowest <= ATTEMPTS ==> !Programmable(v.memory, base, buffer, SEGMENT_SIZE))
    }

    /** Programs one more byte of a segment. */
    method ProgramNext(slot: nat, segment: byte, i: nat, ghost v: ChipState) returns (okay: bool)
      requires stackPointer >= 0xa000
      requires Wired() && slot < 4 && page1 == Cartridge(slot) && page2 == Ram && i < SEGMENT_SIZE
      requires slots[slot].Valid() && slots[slot].banks[0] == segment % 64
      requires Understands(slots[slot].View(), flashIsSst)
      requires SegmentProgress(slots[slot], v, SegmentBase(v.kind, segment), fileSegment[..], i)
      modifies this`page2, slots[slot]
      ensures Wired() && page2 == Ram && slots[slot].Valid()
      ensures
        var c, base := slots[slot], SegmentBase(v.kind, segment);
        if okay then c.banks[0] == segment % 64 && SegmentProgress(c, v, base, fileSegment[..], i + 1)
        else SegmentFailure(c, v, base, fileSegment[..])
    {
      ghost var c, w := slots[slot], slots[slot].View();
      ghost var base, buffer := SegmentBase(v.kind, segment), fileSegment[..];
      okay := ProgramByte(slot, segment, i);
      ProgrammableNext(v, w, base, buffer, i);
      if okay {
        WrittenNext(v, w, c.View(), base, buffer, i);
      } else {
        assert FailedAt(v, w, c.View(), base, buffer, i);
      }
    }

    /**
     Programs the file buffer into one 8 KB segment. An answer of true means that every byte
     is right, whatever was in the segment and whatever the chip does at program time. A
     healthy chip gives it exactly if no bit would have to be set.
     */
    method WriteFlashSegment(slot: nat, segment: byte) returns (okay: bool)
      requires stackPointer >= 0xa000
      requires Wired() && slot < 4 && Restored()
      requires slots[slot].Valid() && slots[slot].View().Idle() && Understands(slots[slot].View(), flashIsSst)
      modifies this`page1, this`page2, slots[slot]
      ensures Wired() && Restored() && slots[slot].Valid()
      ensures
        var c, v := slots[slot], old(slots[slot].View());
        var base := SegmentBase(v.kind, segment);
        && (okay ==> c.View().Idle() && Written(v, c.View(), base, fileSegment[..], SEGMENT_SIZE))
        && (!okay ==> exists i: nat, w ::
              i < SEGMENT_SIZE && FailedAt(v, w, c.View(), base, fileSegment[..], i))
        && (c.Healthy() && c.slowest <= ATTEMPTS ==>
              (okay <==> Programmable(v.memory, base, fileSegment[..], SEGMENT_SIZE)))
    {
      ghost var c, v := slots[slot], slots[slot].View();
      page1 := Cartridge(slot);
      SelectBank(segment);
      okay := true;
      var i := 0;
      while i < SEGMENT_SIZE
        invariant Wired() && page1 == Cartridge(slot) && page2 == Ram
        invariant 0 <= i <= SEGMENT_SIZE && okay && c.Valid() && c.banks[0] == segment % 64
        invariant SegmentProgress(c, v, SegmentBase(v.kind, segment), fileSegment[..], i)
      {
        okay := ProgramNext(slot, segment, i, v);
        if !okay {
          break;
        }
        i := i + 1;
      }
      ghost var w, buffer := c.View(), fileSegment[..];
      page1 := Ram;
      assert c.View() == w && fileSegment[..] == buffer;
    }

    /** Reads the two identification bytes of the first bank and leaves identification mode. */
    method ReadId() returns (manufacturer: byte, device: byte)
      requires Wired() && page1.Cartridge? && slots[page1.slot].Valid()
      requires
        var v := slots[page1.slot].View();
        v.busy == 0 && v.sequence == Ready && v.banks[0] == 0 && (v.kind == Empty ==> v.Idle())
      modifies slots[page1.slot]
      ensures slots[page1.slot].Valid()
      ensures
        var c, v := slots[page1.slot], old(slots[page1.slot].View());
        && c.View() == v.(id := false)
        && (manufacturer, device) ==
             if v.kind == Empty then (0xff, 0xff)
             else if v.id then (Manufacturer(v.kind), Device(v.kind))
             else (v.memory[0], v.memory[1])
    {
      ghost var v := slots[page1.slot].View();
      SegmentAddress(v.kind, v.banks, 0, 0);
      SegmentAddress(v.kind, v.banks, 0, 1);
      manufacturer := BusRead(0);
      device := BusRead(1);
      ResetFlash();
    }

    /** The attempt with the AMD and AMIC command set. */
    method IdentAmd() returns (found: bool)
      requires Wired() && page1.Cartridge? && page2 == Ram
      requires slots[page1.slot].Valid() && Quiet(slots[page1.slot].View())
      modifies this`flashIsSst, this`flashAddress1, this`flashAddress2, slots[page1.slot]
      ensures Wired() && !flashIsSst && slots[page1.slot].Valid()
      ensures
        var c, v := slots[page1.slot], old(slots[page1.slot].View());
        && Undisturbed(v, c.View()) && c.banks[0] == 0
        && (found <==> v.kind != Empty && (!IsSst(v.kind) || Mimics(v)))
    {
      ResetFlash();
      SelectBank(0);
      SetFlashType(false);
      FlashUnlock(0x90);
      var manufacturer, device := ReadId();
      found := IsAmdId(manufacturer, device);
    }

    /** The attempt with the SST command set. */
    method IdentSst(slot: nat) returns (found: bool)
      requires Wired() && slot < 4 && page1 == Cartridge(slot) && page2 == Ram && slots[slot].Valid()
      requires stackPointer >= 0xc000
      requires var v := slots[slot].View(); v.Idle() && v.banks[0] == 0 && (v.kind == Empty || IsSst(v.kind))
      modifies this`page2, this`flashIsSst, this`flashAddress1, this`flashAddress2, slots[slot]
      ensures Wired() && page2 == Ram && slots[slot].Valid()
      ensures Undisturbed(old(slots[slot].View()), slots[slot].View())
      ensures found == flashIsSst == (slots[slot].kind == Sst)
    {
      SetFlashType(true);
      SelectFlashCommands(slot);
      FlashUnlock(0x90);
      var manufacturer, device := ReadId();
      RestoreFlashCommands();
      found := manufacturer == 0xbf && device == 0xb7;
      if !found {
        SetFlashType(false);
      }
    }

    method FlashIdent(slot: nat) returns (found: bool)
      requires Wired() && slot < 4 && Restored() && slots[slot].Valid() && Quiet(slots[slot].View())
      modifies this`page1, this`page2, this`flashIsSst, this`flashAddress1, this`flashAddress2, slots[slot]
      ensures Wired() && Restored() && slots[slot].Valid()
      ensures
        var v := old(slots[slot].View());
        && Undisturbed(v, slots[slot].View())
        && (found <==> Detects(v, stackPointer))
        && (flashIsSst <==> DetectsSst(v, stackPointer))
      // The supported SST chip, with the stack out of the way, unless its first two bytes look like another chip.
      ensures
        var v := old(slots[slot].View());
        var mimics := (v.memory[0], v.memory[1]) in {(0x37, 0x86), (0x01, 0xa4), (0x01, 0x20)};
        v.kind == Sst && !mimics && stackPointer >= 0xc100 ==> found && flashIsSst
    {
      DetectsExactly(slots[slot].View(), stackPointer);
      page1 := Cartridge(slot);
      found := IdentAmd();
      if !found {
        if stackPointer < 0xc100 {
          page1 := Ram;
          return false;
        }
        found := IdentSst(slot);
      }
      page1 := Ram;
    }

    function Views(): (views: seq<ChipState>)
      requires Wired()
      reads this, slots
      ensures |views| == 4
    {
      [slots[0].View(), slots[1].View(), slots[2].View(), slots[3].View()]
    }

    /** The chips of the slots below `n` have been identified since `views`, the others not touched. */
    ghost predicate Identified(views: seq<ChipState>, n: nat)
      requires Wired() && |views| == 4
      reads this, slots
    {
      forall j :: 0 <= j < 4 ==>
        slots[j].Valid() && if j < n then Undisturbed(views[j], slots[j].View()) else slots[j].View() == views[j]
    }

    /** Identifies one more slot of the table. */
    method IdentNext(slot: nat, ghost views: seq<ChipState>) returns (found: bool)
      requires Wired() && slot < 4 && Restored() && |views| == 4
      requires Identified(views, slot) && Quiet(views[slot])
      modifies this`page1, this`page2, this`flashIsSst, this`flashAddress1, this`flashAddress2, slots[slot]
      ensures Wired() && Restored() && Identified(views, slot + 1)
      ensures found <==> Detects(views[slot], stackPointer)
      ensures flashIsSst <==> DetectsSst(views[slot], stackPointer)
    {
      found := FlashIdent(slot);
    }

    /** Identifies all slots: the highest one with a supported chip, or 4, and whether that is an SST chip. */
    method Survey(ghost views: seq<ChipState>) returns (highest: nat, highestIsSst: bool)
      requires Wired() && Restored() && |views| == 4
      requires Identified(views, 0) && forall i :: 0 <= i < 4 ==> Quiet(views[i])
      modifies this`page1, this`page2, this`flashIsSst, this`flashAddress1, this`flashAddress2, slots
      ensures Wired() && Restored()
      ensures Identified(views, 4) && (highestIsSst ==> stackPointer >= 0xc000)
      ensures HighestDetected(views, stackPointer, 4, highest, highestIsSst)
    {
      highest, highestIsSst := 4, false;
      for i := 0 to 4
        invariant Wired() && Restored()
        invariant Identified(views, i)
        invariant HighestDetected(views, stackPointer, i, highest, highestIsSst)
        invariant highestIsSst ==> stackPointer >= 0xc000
      {
        var found := IdentNext(i, views);
        NextHighest(views, stackPointer, i, highest, highestIsSst, found, flashIsSst);
        if found {
          highest, highestIsSst := i, flashIsSst;
        }
      }
    }

    /** The highest slot with a supported chip, or 4, and the command set of that chip. */
    method FindFlash() returns (highest: nat)
      requires Wired() && Restored()
      requires Identified(Views(), 0) && forall i :: 0 <= i < 4 ==> Quiet(Views()[i])
      modifies this`page1, this`page2, this`flashIsSst, this`flashAddress1, this`flashAddress2, slots
      ensures Wired() && Restored()
      ensures Identified(old(Views()), 4)
      ensures HighestDetected(old(Views()), stackPointer, 4, highest, flashIsSst)
    {
      ghost var views := Views();
      var highestIsSst;
      highest, highestIsSst := Survey(views);
      SetFlashType(highestIsSst);
    }

    method MemFill(value: byte)
      requires stackPointer >= 0xa000
      requires Wired() && Restored()
      modifies fileSegment
      ensures forall j :: 0 <= j < SEGMENT_SIZE ==> fileSegment[j] == value
    {
      for j := 0 to SEGMENT_SIZE
        invariant forall k :: 0 <= k < j ==> fileSegment[k] == value
      {
        fileSegment[j] := value;
      }
    }

    /** Reads the next part of the file into the buffer, all that is left if it fits, unless the disk fails. */
    method FcbRead(file: seq<byte>) returns (count: int)
      requires stackPointer >= 0xa000
      requires Wired() && Restored() && filePosition <= |file|
      modifies this`filePosition, fileSegment
      ensures count < 0 <==> old(filePosition) in diskFails
      ensures count <= 0 ==> filePosition == old(filePosition) && fileSegment[..] == old(fileSegment[..])
      ensures count >= 0 ==>
        && count == (if |file| - old(filePosition) < SEGMENT_SIZE then |file| - old(filePosition) else SEGMENT_SIZE)
        && filePosition == old(filePosition) + count
        && (forall j :: 0 <= j < SEGMENT_SIZE ==>
              fileSegment[j] == if j < count then file[old(filePosition) + j] else old(fileSegment[j]))
    {
      if filePosition in diskFails {
        return -1;
      }
      count := if |file| - filePosition < SEGMENT_SIZE then |file| - filePosition else SEGMENT_SIZE;
      for j := 0 to count
        modifies fileSegment
        invariant forall k :: 0 <= k < SEGMENT_SIZE ==>
          fileSegment[k] == if k < j then file[filePosition + k] else old(fileSegment[k])
      {
        fileSegment[j] := file[filePosition + j];
      }
      filePosition := filePosition + count;
    }

    /** Reads one part of the file and programs it; nothing is written when nothing could be read. */
    method CopySegment(slot: nat, segment: byte, file: seq<byte>) returns (count: int, okay: bool)
      requires stackPointer >= 0xa000
      requires Wired() && slot < 4 && Restored() && filePosition < |file|
      requires slots[slot].Valid() && slots[slot].View().Idle() && Understands(slots[slot].View(), flashIsSst)
      modifies this`page1, this`page2, this`filePosition, fileSegment, slots[slot]
      ensures Wired() && Restored() && slots[slot].Valid()
      ensures count <= 0 <==> old(filePosition) in diskFails
      ensures count <= 0 ==> filePosition == old(filePosition) && slots[slot].View() == old(slots[slot].View())
      ensures count > 0 ==>
        && count == (if |file| - old(filePosition) < SEGMENT_SIZE then |file| - old(filePosition) else SEGMENT_SIZE)
        && filePosition == old(filePosition) + count
      ensures
        var c, v := slots[slot], old(slots[slot].View());
        var base := SegmentBase(v.kind, segment);
        && c.erases == v.erases && c.invalid == v.invalid
        && (okay ==>
              && count > 0 && c.View().Idle()
              && Written(v, c.View(), base, Padded(file, old(filePosition)), SEGMENT_SIZE))
        && (count > 0 && !okay ==> exists i: nat, w ::
              i < SEGMENT_SIZE && FailedAt(v, w, c.View(), base, Padded(file, old(filePosition)), i))
        && (count > 0 && c.Healthy() && c.slowest <= ATTEMPTS ==>
              (okay <==> Programmable(v.memory, base, Padded(file, old(filePosition)), SEGMENT_SIZE)))
    {
      MemFill(0xff);
      count := FcbRead(file);
      okay := false;
      if count > 0 {
        PaddedIs(file, old(filePosition), count, fileSegment[..]);
        okay := WriteFlashSegment(slot, segment);
      }
    }

    /** One turn of the loop below: what it adds to the progress, or why the copy ends here. */
    method CopyNext(slot: nat, segment: byte, total: nat, file: seq<byte>,
                    ghost v: ChipState, ghost done: nat, ghost round: nat) returns (count: int, okay: bool)
      requires stackPointer >= 0xa000
      requires Wired() && slot < 4 && Restored() && filePosition == total < |file|
      requires slots[slot].Valid() && slots[slot].View().Idle() && Understands(slots[slot].View(), flashIsSst)
      requires CopyProgress(v, slots[slot].View(), file, total, segment, done, round)
      modifies this`page1, this`page2, this`filePosition, fileSegment, slots[slot]
      ensures Wired() && Restored() && slots[slot].Valid()
      ensures
        var c := slots[slot];
        && c.erases == v.erases && c.invalid == v.invalid
        && (count > 0 <==> done * SEGMENT_SIZE !in diskFails)
        && (count > 0 && c.Healthy() && c.slowest <= ATTEMPTS ==> (okay <==> SegmentRewritable(v.kind, file, done)))
        && if count > 0 && okay then
             && c.View().Idle() && filePosition == total + count <= |file|
             && CopyProgress(v, c.View(), file, total + count, (segment + 1) % 256,
                             done + 1, NextRound(v.kind, segment, round))
           else PartlyFilled(v.kind, c.memory, file)
    {
      ghost var c, w := slots[slot], slots[slot].View();
      NextSegmentRewritable(v, w, file, total, segment, done, round);
      count, okay := CopySegment(slot, segment, file);
      if count <= 0 {
        CopyPaused(v, w, file, total, segment, done, round);
      } else if !okay {
        ghost var i: nat, x :| i < SEGMENT_SIZE
          && FailedAt(w, x, c.View(), SegmentBase(w.kind, segment), Padded(file, total), i);
        CopyStopped(v, w, x, c.View(), file, total, segment, done, round, i);
      } else {
        CopyStep(v, w, c.View(), file, total, count, segment, done, round);
      }
    }

    /** The loop that copies the file to an erased chip, 8 KB at a time, around the chip if it is larger. */
    method WriteFile(slot: nat, file: seq<byte>) returns (total: nat)
      requires stackPointer >= 0xa000
      requires Wired() && slot < 4 && Restored() && filePosition == 0
      requires slots[slot].Valid() && slots[slot].View().Idle() && Understands(slots[slot].View(), flashIsSst)
      requires AllErased(slots[slot].memory)
      modifies this`page1, this`page2, this`filePosition, fileSegment, slots[slot]
      ensures Wired() && Restored() && slots[slot].Valid() && total <= |file|
      ensures
        var c, v := slots[slot], old(slots[slot].View());
        && c.erases == v.erases && c.invalid == v.invalid
        && (total == |file| ==>
              && c.View().Idle() && Filled(v.kind, c.memory, file)
              && c.programs == v.programs + SegmentCount(|file|) * SEGMENT_SIZE)
        && PartlyFilled(v.kind, c.memory, file)
        && (total == |file| ==> DiskOkay(diskFails, file))
        && (c.Healthy() && c.slowest <= ATTEMPTS ==>
              (total == |file| <==> DiskOkay(diskFails, file) && AllRewritable(v.kind, file)))
    {
      ghost var c, v := slots[slot], slots[slot].View();
      total := 0;
      var segment: byte := 0;
      ghost var done, round := 0, 0;
      CopyBegins(v, file);
      while total < |file|
        invariant Wired() && Restored() && c.Valid() && filePosition == total <= |file|
        invariant CopyProgress(v, c.View(), file, total, segment, done, round)
        invariant c.View().Idle()
        invariant ReadSoFar(diskFails, done)
        invariant c.Healthy() && c.slowest <= ATTEMPTS ==> RewrittenSoFar(v.kind, file, done)
        decreases |file| - total
      {
        assert BeginsSegment(file, done);
        var count, okay := CopyNext(slot, segment, total, file, v, done, round);
        if count <= 0 || !okay {
          return;
        }
        round := NextRound(v.kind, segment, round);
        total := total + count;
        segment := (segment + 1) % 256;
        done := done + 1;
      }
      CopyDone(v, c.View(), file, segment, done, round);
      CopyPaused(v, c.View(), file, total, segment, done, round);
    }

    /** The highest slot with a chip, or 4. */
    method ChooseHighest() returns (slot: nat)
      requires Wired() && Restored()
      requires Identified(Views(), 0) && forall i :: 0 <= i < 4 ==> Quiet(Views()[i])
      modifies this`page1, this`page2, this`flashIsSst, this`flashAddress1, this`flashAddress2, slots
      ensures Wired() && Restored() && slot <= 4 && (slot < 4 ==> slots[slot].Valid())
      ensures SlotChosen(old(Views()), Views(), stackPointer, None, slot, flashIsSst)
    {
      ghost var before := Views();
      slot := FindFlash();
      HighestIsChosen(before, Views(), stackPointer, slot, flashIsSst);
    }

    /** The requested slot, or 4 if there is no chip in it. */
    method ChooseRequested(request: nat) returns (slot: nat)
      requires Wired() && Restored() && request < 4 && slots[request].Valid() && Quiet(slots[request].View())
      modifies this`page1, this`page2, this`flashIsSst, this`flashAddress1, this`flashAddress2, slots[request]
      ensures Wired() && Restored() && slot <= 4 && (slot < 4 ==> slots[slot].Valid())
      ensures SlotChosen(old(Views()), Views(), stackPointer, Some(request), slot, flashIsSst)
    {
      ghost var before := Views();
      var found := FlashIdent(request);
      slot := if found then request else 4;
      assert Views() == before[request := slots[request].View()];
      RequestIsChosen(before, Views(), stackPointer, request, found, flashIsSst);
    }

    /** Finds the chip to work on: the one in the requested slot, or the highest one there is. */
    method ChooseSlot(request: Option<nat>) returns (slot: nat)
      requires Wired() && Restored() && (request.Some? ==> request.value < 4)
      requires Identified(Views(), 0) && forall i :: 0 <= i < 4 ==> Quiet(Views()[i])
      modifies this`page1, this`page2, this`flashIsSst, this`flashAddress1, this`flashAddress2, slots
      ensures Wired() && Restored() && slot <= 4 && (slot < 4 ==> slots[slot].Valid())
      ensures SlotChosen(old(Views()), Views(), stackPointer, request, slot, flashIsSst)
    {
      if request.None? {
        slot := ChooseHighest();
      } else {
        assert Quiet(Views()[request.value]);
        slot := ChooseRequested(request.value);
      }
    }

    /** Whether a file is loaded completely, when the chip is healthy and fast enough. */
    ghost predicate Promises(v: ChipState, c: Chip, file: seq<byte>, outcome: Outcome) {
      && (Impostor(v) || c.stuck ==> outcome.EraseFailed?)
      && (c.Healthy() && c.slowest <= ATTEMPTS && !Impostor(v) ==>
            && outcome.Finished?
            && (outcome.complete <==> DiskOkay(diskFails, file) && AllRewritable(v.kind, file)))
    }

    /** Erases the chip and copies the file to it. */
    method LoadFile(slot: nat, file: seq<byte>) returns (outcome: Outcome)
      requires stackPointer >= 0xa000
      requires Wired() && slot < 4 && Restored() && filePosition == 0
      requires slots[slot].Valid() && slots[slot].View().Idle() && slots[slot].kind != Empty
      requires flashIsSst <==> IsSst(slots[slot].kind) && !Mimics(slots[slot].View())
      modifies this`page1, this`page2, this`filePosition, fileSegment, slots[slot]
      ensures Wired() && Restored() && slots[slot].Valid() && WorkedOn(outcome, slot)
      ensures
        var c, v := slots[slot], old(slots[slot].View());
        && Attempted(v, c.View(), file)
        && (outcome == Finished(slot, true) ==> Loaded(v, c.View(), file))
        && Promises(v, c, file, outcome)
    {
      ghost var c, v := slots[slot], slots[slot].View();
      var erased := EraseFlash(slot);
      if !erased {
        if c.memory != v.memory {
          ErasedIsPartlyFilled(v.kind, c.memory, file);
        }
        return EraseFailed(slot);
      }
      var total := WriteFile(slot, file);
      outcome := Finished(slot, total == |file|);
    }

    /** Loads the open file. */
    method LoadOpened(slot: nat, request: Option<nat>, file: seq<byte>, ghost before: seq<ChipState>)
      returns (outcome: Outcome)
      requires stackPointer >= 0xa000
      requires Wired() && slot < 4 && Restored() && slots[slot].Valid() && |before| == 4 && filePosition == 0
      requires SlotChosen(before, Views(), stackPointer, request, slot, flashIsSst)
      modifies this`page1, this`page2, this`filePosition, fileSegment, slots[slot]
      ensures Wired() && Restored() && WorkedOn(outcome, slot)
      ensures Reported(before, Views(), stackPointer, request, Some(file), outcome)
      ensures Promises(before[slot], slots[slot], file, outcome)
    {
      ghost var now := Views();
      ChosenReady(before, now, stackPointer, request, slot, flashIsSst);
      assert now[slot] == slots[slot].View();
      outcome := LoadFile(slot, file);
      assert Views() == now[slot := slots[slot].View()];
      LoadReported(before, now, stackPointer, request, slot, flashIsSst, file, outcome, slots[slot].View());
    }

    /** Opens the file, loads it and closes it. */
    method LoadChosen(slot: nat, request: Option<nat>, file: seq<byte>, ghost before: seq<ChipState>)
      returns (outcome: Outcome)
      requires stackPointer >= 0xa000
      requires Wired() && slot < 4 && Restored() && slots[slot].Valid() && |before| == 4
      requires SlotChosen(before, Views(), stackPointer, request, slot, flashIsSst)
      modifies this`page1, this`page2, this`filePosition, this`opens, this`closes, fileSegment, slots[slot]
      ensures Wired() && Restored() && WorkedOn(outcome, slot)
      ensures opens == old(opens) + 1 && closes == old(closes) + 1
      ensures Reported(before, Views(), stackPointer, request, Some(file), outcome)
      ensures Promises(before[slot], slots[slot], file, outcome)
    {
      opens := opens + 1;
      filePosition := 0;
      outcome := LoadOpened(slot, request, file, before);
      closes := closes + 1;
    }

    /** The program stops early exactly for these reasons, checked in this order. */
    ghost predicate StopsEarly(before: seq<ChipState>, argv: seq<string>, disk: map<string, seq<byte>>,
                               outcome: Outcome)
      requires |before| == 4
    {
      var enough, none := stackPointer >= 0x8000 + SEGMENT_SIZE, NoneChosen(before, stackPointer, SlotFlag(argv));
      && (outcome == Usage <==> argv == [])
      && (outcome == NotEnoughMemory <==> argv != [] && !enough)
      && (outcome == MissingName <==> argv != [] && enough && !NameGiven(argv))
      && (outcome == NoFlash <==> enough && NameGiven(argv) && none)
      && (outcome == CannotOpen <==> enough && NameGiven(argv) && !none && NamedFile(argv, disk).None?)
    }

    /** The ROM file has been opened. */
    predicate Opened(outcome: Outcome) {
      outcome.EraseFailed? || outcome.Finished?
    }

    /** The program, once the arguments are known to be there. */
    method RunNamed(request: Option<nat>, file: Option<seq<byte>>) returns (outcome: Outcome)
      requires stackPointer >= 0xa000
      requires Wired() && Restored() && (request.Some? ==> request.value < 4)
      requires Identified(Views(), 0) && forall i :: 0 <= i < 4 ==> Quiet(Views()[i])
      modifies this`page1, this`page2, this`flashIsSst, this`flashAddress1, this`flashAddress2
      modifies this`filePosition, this`opens, this`closes, fileSegment, slots
      ensures Wired() && Restored()
      ensures opens == old(opens) + (if Opened(outcome) then 1 else 0)
      ensures closes == old(closes) + (if Opened(outcome) then 1 else 0)
      ensures outcome != Usage && outcome != NotEnoughMemory && outcome != MissingName
      ensures outcome == NoFlash <==> NoneChosen(old(Views()), stackPointer, request)
      ensures outcome == CannotOpen <==> !NoneChosen(old(Views()), stackPointer, request) && file.None?
      ensures Reported(old(Views()), Views(), stackPointer, request, file, outcome)
      ensures Opened(outcome) ==> Promises(old(Views())[outcome.slot], slots[outcome.slot], file.value, outcome)
    {
      ghost var before := Views();
      var slot := ChooseSlot(request);
      if slot == 4 {
        return NoFlash;
      }
      ChosenIsOne(before, stackPointer, request, slot);
      if file.None? {
        return CannotOpen;
      }
      outcome := LoadChosen(slot, request, file.value, before);
    }

    /** The slot that the first argument asks for, and the number of arguments before the name. */
    method SlotArgument(argv: seq<string>) returns (slot: nat, argnr: nat)
      requires argv != []
      ensures slot < 4 && argnr <= 1
      ensures SlotFlag(argv) == if argnr == 0 then None else Some(slot)
    {
      slot, argnr := 0, 0;
      if argv[0] == "/S0" || argv[0] == "/s0" {
        slot, argnr := 0, argnr + 1;
      }
      if argv[0] == "/S1" || argv[0] == "/s1" {
        slot, argnr := 1, argnr + 1;
      }
      if argv[0] == "/S2" || argv[0] == "/s2" {
        slot, argnr := 2, argnr + 1;
      }
      if argv[0] == "/S3" || argv[0] == "/s3" {
        slot, argnr := 3, argnr + 1;
      }
    }

    /** The arguments, once there is memory enough. */
    method RunArguments(argv: seq<string>, disk: map<string, seq<byte>>) returns (outcome: Outcome)
      requires stackPointer >= 0xa000
      requires Wired() && Restored() && argv != []
      requires Identified(Views(), 0) && forall i :: 0 <= i < 4 ==> Quiet(Views()[i])
      modifies this`page1, this`page2, this`flashIsSst, this`flashAddress1, this`flashAddress2
      modifies this`filePosition, this`opens, this`closes, fileSegment, slots
      ensures Wired() && Restored()
      ensures opens - old(opens) == closes - old(closes) == if Opened(outcome) then 1 else 0
      ensures outcome != Usage && outcome != NotEnoughMemory && (outcome == MissingName <==> !NameGiven(argv))
      ensures
        var none := NoneChosen(old(Views()), stackPointer, SlotFlag(argv));
        && (outcome == NoFlash <==> NameGiven(argv) && none)
        && (outcome == CannotOpen <==> NameGiven(argv) && !none && NamedFile(argv, disk).None?)
      ensures Reported(old(Views()), Views(), stackPointer, SlotFlag(argv), NamedFile(argv, disk), outcome)
      ensures Opened(outcome) ==>
        Promises(old(Views())[outcome.slot], slots[outcome.slot], NamedFile(argv, disk).value, outcome)
    {
      var slot, argnr := SlotArgument(argv);
      if argnr >= |argv| {
        return MissingName;
      }
      var request := if argnr == 0 then None else Some(slot);
      var file := if argv[argnr] in disk then Some(disk[argv[argnr]]) else None;
      assert request == SlotFlag(argv) && file == NamedFile(argv, disk);
      outcome := RunNamed(request, file);
    }

    /**
     The program, with the arguments it is given and a disk, which says what opening a name gives.
     A run that reports completion has put exactly the file into the chip, the last byte
     that goes there where a larger file goes around it. On a healthy chip that is not an
     impostor the copy is completed exactly when the disk can be read and no bit has to be set.
     */
    method Run(argv: seq<string>, disk: map<string, seq<byte>>) returns (outcome: Outcome)
      requires Wired() && Restored()
      requires Identified(Views(), 0) && forall i :: 0 <= i < 4 ==> Quiet(Views()[i])
      modifies this`page1, this`page2, this`flashIsSst, this`flashAddress1, this`flashAddress2
      modifies this`filePosition, this`opens, this`closes, fileSegment, slots
      ensures Wired() && Restored()
      ensures opens - old(opens) == closes - old(closes) == if Opened(outcome) then 1 else 0
      ensures StopsEarly(old(Views()), argv, disk, outcome)
      ensures outcome == NotEnoughMemory <==> argv != [] && stackPointer < 0xa000
      // The file is the one named after the slot flag; the slot is the one asked for, or the highest one there is.
      ensures Opened(outcome) ==>
        var k, views := if SlotFlag(argv).Some? then 1 else 0, old(Views());
        && k < |argv| && argv[k] in disk && NamedFile(argv, disk) == Some(disk[argv[k]])
        && outcome.slot < 4 && Detects(views[outcome.slot], stackPointer)
        && (k == 1 ==> outcome.slot == SlotFlag(argv).value)
        && (k == 0 ==> forall i :: outcome.slot < i < 4 ==> !Detects(views[i], stackPointer))
      ensures Reported(old(Views()), Views(), stackPointer, SlotFlag(argv), NamedFile(argv, disk), outcome)
      ensures Opened(outcome) ==>
        Promises(old(Views())[outcome.slot], slots[outcome.slot], NamedFile(argv, disk).value, outcome)
    {
      if |argv| < 1 {
        return Usage;
      }
      if stackPointer < 0x8000 + SEGMENT_SIZE {
        return NotEnoughMemory;
      }
      outcome := RunArguments(argv, disk);
    }
  }
}
