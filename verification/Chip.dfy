/**
 The flash chip behind the banked mapper of the cartridge. How long an operation takes, the
 bits that have not settled when DQ7 becomes valid, and the damage that a corrupting chip does
 are left open.
 */
module ChipModel {
  import opened Bytes

  datatype Kind = Empty | Amic | Amd040 | Amd010 | Sst | Unsupported

  /** How much of a command sequence the chip has accepted. */
  datatype Sequence =
    | Ready        // nothing
    | Cycle1       // AA
    | Cycle2       // AA 55
    | Program      // AA 55 A0: the next write is data
    | EraseSetup   // AA 55 80
    | EraseCycle1  // AA 55 80 AA
    | EraseCycle2  // AA 55 80 AA 55

  const MEMORY_SIZE := 0x80000
  const BANK_SIZE := 0x2000

  type bank = x: int | 0 <= x < 64
  /** The CPU addresses of the two cartridge pages, 4000h to BFFFh. */
  type address = x: int | 0x4000 <= x < 0xc000 witness 0x4000

  predicate IsSst(kind: Kind) {
    kind == Sst || kind == Unsupported
  }

  function Manufacturer(kind: Kind): byte {
    if IsSst(kind) then 0xbf else if kind == Amic then 0x37 else 0x01
  }

  function Device(kind: Kind): byte {
    match kind
    case Amic => 0x86
    case Amd040 => 0xa4
    case Amd010 => 0x20
    case Sst => 0xb7
    case _ => 0xb6
  }

  /** The number of bytes the chip can address. */
  function Capacity(kind: Kind): nat {
    if kind == Amd010 then 0x20000 else MEMORY_SIZE
  }

  /** The 8 KB window of the CPU address space that an address falls in. */
  function Window(cpu: address): (w: nat)
    ensures w < 4
  {
    (cpu - 0x4000) / BANK_SIZE
  }

  /** The smaller chip ignores the upper address lines. */
  function Wrapped(kind: Kind, p: nat): (r: nat)
    requires p < MEMORY_SIZE
    ensures r < Capacity(kind)
  {
    if kind == Amd010 then p % 0x20000 else p
  }

  function Physical(kind: Kind, banks: seq<bank>, cpu: address): (p: nat)
    requires |banks| == 4
    ensures p < Capacity(kind)
  {
    Wrapped(kind, banks[Window(cpu)] * BANK_SIZE + cpu % BANK_SIZE)
  }

  /** Addresses with bit 12 set and a zero low byte hold the bank registers. */
  predicate IsMapper(cpu: address) {
    cpu / 0x1000 % 2 == 1 && cpu % 0x100 == 0
  }

  function Latched(banks: seq<bank>, cpu: address, value: byte): (r: seq<bank>)
    requires |banks| == 4
    ensures |r| == 4
  {
    if IsMapper(cpu) then banks[Window(cpu) := value % 64] else banks
  }

  /** What the chip does with one bus write, apart from the bank registers. */
  datatype Effect =
    | Ignore
    | ReadMode
    | Identify
    | Advance(next: Sequence)
    | StartProgram
    | StartErase
    | Reject

  datatype ChipState = ChipState(
    kind: Kind, memory: seq<byte>, banks: seq<bank>, sequence: Sequence,
    busy: nat, programs: nat, erases: nat, invalid: nat,
    pendingAddress: nat, pendingValue: byte, id: bool, erasePending: bool)
  {
    ghost predicate Valid() {
      && |memory| == MEMORY_SIZE
      && |banks| == 4
      && pendingAddress < MEMORY_SIZE
    }

    /** Powered, finished with the last operation, and reading out the array. */
    ghost predicate Idle() {
      Valid() && busy == 0 && !id && sequence == Ready && !erasePending
    }

    predicate FirstAddress(cpu: address)
      requires |banks| == 4
    {
      if IsSst(kind) then Physical(kind, banks, cpu) % 0x8000 == 0x5555
      else Physical(kind, banks, cpu) % 0x800 == 0x555
    }

    predicate SecondAddress(cpu: address)
      requires |banks| == 4
    {
      if IsSst(kind) then Physical(kind, banks, cpu) % 0x8000 == 0x2aaa
      else Physical(kind, banks, cpu) % 0x800 == 0x2aa
    }

    /** What the chip does with a write of `value`; `first` and `second` tell whether the
        address is one of the two command addresses. */
    function Decode(first: bool, second: bool, value: byte): Effect {
      if kind == Empty || busy > 0 then Ignore
      else if sequence == Program then StartProgram
      else if value == 0xf0 then ReadMode
      else if id then Ignore
      else
        match sequence
        case Ready => if first && value == 0xaa then Advance(Cycle1) else Reject
        case Cycle1 => if second && value == 0x55 then Advance(Cycle2) else Reject
        case Cycle2 =>
          if !first then Reject
          else if value == 0x90 then Identify
          else if value == 0xa0 then Advance(Program)
          else if value == 0x80 then Advance(EraseSetup)
          else Reject
        case EraseSetup => if first && value == 0xaa then Advance(EraseCycle1) else Reject
        case EraseCycle1 => if second && value == 0x55 then Advance(EraseCycle2) else Reject
        case EraseCycle2 => if first && value == 0x10 then StartErase else Reject
        case Program => StartProgram
    }

    /** `duration` is how many reads an operation started here will take. */
    function Apply(effect: Effect, physical: nat, value: byte, duration: nat): ChipState {
      match effect
      case Ignore => this
      case ReadMode => this.(id := false, sequence := Ready)
      case Identify => this.(id := true, sequence := Ready)
      case Advance(next) => this.(sequence := next)
      case StartProgram =>
        this.(pendingAddress := physical, pendingValue := value,
              busy := duration, programs := programs + 1, sequence := Ready)
      case StartErase =>
        this.(erasePending := true, pendingValue := 0xff,
              busy := duration, erases := erases + 1, sequence := Ready)
      case Reject =>
        this.(invalid := if sequence == Ready then invalid else invalid + 1, sequence := Ready)
    }

    function WriteEffect(cpu: address, value: byte): Effect
      requires |banks| == 4
    {
      Decode(FirstAddress(cpu), SecondAddress(cpu), value)
    }

    /** The chip after a bus write: the old bank is used for this bus cycle, then the register changes. */
    function AfterWrite(cpu: address, value: byte, duration: nat): (s: ChipState)
      requires |banks| == 4
      ensures s.kind == kind && s.memory == memory && s.banks == Latched(banks, cpu, value)
    {
      this.(banks := Latched(banks, cpu, value))
          .Apply(WriteEffect(cpu, value), Physical(kind, banks, cpu), value, duration)
    }

    predicate Starts(cpu: address, value: byte)
      requires |banks| == 4
    {
      WriteEffect(cpu, value).StartProgram? || WriteEffect(cpu, value).StartErase?
    }

    /** `after` is the array when the pending operation has completed. */
    ghost predicate Committed(after: seq<byte>, corrupt: bool) {
      && |after| == |memory|
      && if erasePending then
           forall k :: 0 <= k < |after| ==> after[k] == 0xff
         else
           && pendingAddress < |memory|
           && (forall k :: 0 <= k < |after| && k != pendingAddress ==> after[k] == memory[k])
           && (!corrupt ==> after[pendingAddress] == BitAnd(memory[pendingAddress], pendingValue))
    }

    /** What a read shows while an operation is running. */
    function Status(stuck: bool): byte {
      (if pendingValue < 0x80 then 0x80 else 0)
      + (if busy % 2 == 1 then 0x40 else 0)
      + (if IsSst(kind) || stuck then 0x20 else 0)
    }

    /** What a read shows when no operation is running. */
    function Output(cpu: address): byte
      requires Valid()
    {
      var p := Physical(kind, banks, cpu);
      if kind == Empty then 0xff
      else if !id then memory[p]
      else if p == 0 then Manufacturer(kind)
      else if p == 1 then Device(kind)
      else 0xff
    }
  }

  class Chip {
    const kind: Kind
    /** A stuck chip never finishes; a corrupting one may program anything. */
    const stuck: bool
    const corrupt: bool
    /** The most reads that an operation of this chip takes. */
    const slowest: nat

    var memory: seq<byte>
    var banks: seq<bank>
    var sequence: Sequence
    var busy: nat
    var programs: nat
    var erases: nat
    var invalid: nat
    var pendingAddress: nat
    var pendingValue: byte
    var id: bool
    var erasePending: bool

    constructor (kind: Kind, stuck: bool, corrupt: bool, slowest: nat, memory: seq<byte>, banks: seq<bank>)
      requires |memory| == MEMORY_SIZE && |banks| == 4
      requires slowest > 0
      ensures Valid() && View().Idle()
      ensures this.kind == kind && this.stuck == stuck && this.corrupt == corrupt && this.slowest == slowest
      ensures this.memory == memory && this.banks == banks
    {
      this.kind, this.stuck, this.corrupt, this.slowest := kind, stuck, corrupt, slowest;
      this.memory, this.banks, this.sequence := memory, banks, Ready;
      busy, programs, erases, invalid := 0, 0, 0, 0;
      pendingAddress, pendingValue := 0, 0xff;
      id, erasePending := false, false;
    }

    function View(): ChipState
      reads this
    {
      ChipState(kind, memory, banks, sequence, busy, programs, erases, invalid,
                pendingAddress, pendingValue, id, erasePending)
    }

    ghost predicate Valid()
      reads this
    {
      View().Valid() && slowest > 0
    }

    /** Neither stuck nor corrupting. */
    predicate Healthy() {
      !stuck && !corrupt
    }

    method Write(cpu: address, value: byte)
      requires Valid()
      modifies this
      ensures Valid()
      ensures View() == old(View()).AfterWrite(cpu, value, busy)
      ensures old(View()).Starts(cpu, value) ==> 1 <= busy <= slowest
    {
      var physical := Physical(kind, banks, cpu);
      var first, second := View().FirstAddress(cpu), View().SecondAddress(cpu);
      if IsMapper(cpu) {
        banks := banks[Window(cpu) := value % 64];
      }
      Accept(physical, first, second, value);
    }

    /** The writes that do not depend on the command addresses. */
    method Accept(physical: nat, first: bool, second: bool, value: byte)
      requires Valid() && physical < MEMORY_SIZE
      modifies this
      ensures Valid()
      ensures View() == old(View()).Apply(old(View()).Decode(first, second, value), physical, value, busy)
      ensures
        var effect := old(View()).Decode(first, second, value);
        effect.StartProgram? || effect.StartErase? ==> 1 <= busy <= slowest
    {
      if kind == Empty || busy > 0 {
        return;
      }
      if sequence == Program {
        var duration :| 1 <= duration <= slowest;
        pendingAddress, pendingValue := physical, value;
        busy, programs, sequence := duration, programs + 1, Ready;
        return;
      }
      if value == 0xf0 {
        id, sequence := false, Ready;
        return;
      }
      if id {
        return;
      }
      Recognize(physical, first, second, value);
    }

    /** The command state machine proper. */
    method Recognize(ghost physical: nat, first: bool, second: bool, value: byte)
      requires Valid()
      requires kind != Empty && busy == 0 && sequence != Program && value != 0xf0 && !id
      modifies this
      ensures Valid()
      ensures View() == old(View()).Apply(old(View()).Decode(first, second, value), physical, value, busy)
      ensures old(View()).Decode(first, second, value).StartErase? ==> 1 <= busy <= slowest
    {
      ghost var effect := View().Decode(first, second, value);
      match sequence {
        case Ready =>
          if first && value == 0xaa { sequence := Cycle1; }
        case Cycle1 =>
          if second && value == 0x55 { sequence := Cycle2; } else { invalid, sequence := invalid + 1, Ready; }
        case Cycle2 =>
          if first && value == 0x90 { id, sequence := true, Ready; }
          else if first && value == 0xa0 { sequence := Program; }
          else if first && value == 0x80 { sequence := EraseSetup; }
          else { invalid, sequence := invalid + 1, Ready; }
        case EraseSetup =>
          if first && value == 0xaa { sequence := EraseCycle1; } else { invalid, sequence := invalid + 1, Ready; }
        case EraseCycle1 =>
          if second && value == 0x55 { sequence := EraseCycle2; } else { invalid, sequence := invalid + 1, Ready; }
        case EraseCycle2 =>
          if first && value == 0x10 {
            var duration :| 1 <= duration <= slowest;
            erasePending, pendingValue := true, 0xff;
            busy, erases, sequence := duration, erases + 1, Ready;
          } else {
            invalid, sequence := invalid + 1, Ready;
          }
      }
    }

    method Read(cpu: address) returns (value: byte)
      requires Valid()
      modifies this
      ensures Valid()
      ensures kind == Empty || old(busy) == 0 ==>
        View() == old(View()) && value == (if kind == Empty then 0xff else View().Output(cpu))
      ensures kind != Empty && old(busy) > 0 && (stuck || old(busy) > 1) ==>
        && View() == old(View()).(busy := if stuck then old(busy) else old(busy) - 1)
        && value == View().Status(stuck)
      ensures kind != Empty && old(busy) == 1 && !stuck ==>
        && View() == old(View()).(busy := 0, erasePending := false, memory := memory)
        && old(View()).Committed(memory, corrupt)
        && (value < 0x80 <==> pendingValue < 0x80)
    {
      if kind == Empty {
        return 0xff;
      }
      var physical := Physical(kind, banks, cpu);
      if busy > 0 {
        if !stuck {
          busy := busy - 1;
          if busy == 0 {
            if erasePending {
              memory := seq(MEMORY_SIZE, _ => 0xff);
              erasePending := false;
            } else {
              var stored: byte := BitAnd(memory[pendingAddress], pendingValue);
              if corrupt {
                stored := *;
              }
              memory := memory[pendingAddress := stored];
            }
            // Only DQ7 is reliable in the read that completes the operation.
            value :| value < 0x80 <==> pendingValue < 0x80;
            return;
          }
        }
        return View().Status(stuck);
      }
      if id {
        if physical == 0 {
          return Manufacturer(kind);
        }
        if physical == 1 {
          return Device(kind);
        }
        return 0xff;
      }
      return memory[physical];
    }
  }
}
