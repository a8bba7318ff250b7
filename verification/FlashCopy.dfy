/**
 The copy loop and the whole run of the loader. Segment numbers wrap at the end of the chip, so
 that a file larger than the chip goes around it, in rounds.
 */
module FlashCopy {
  import opened Bytes
  import opened Wrappers
  import opened ChipModel
  import opened Flash

  // ---------- Rounds ----------

  /** How many segments a file takes. */
  function SegmentCount(size: nat): nat {
    (size + SEGMENT_SIZE - 1) / SEGMENT_SIZE
  }

  /** The file, filled up to whole segments. */
  function PaddedSize(file: seq<byte>): nat {
    SegmentCount(|file|) * SEGMENT_SIZE
  }

  /** The file position that goes to the start of the chip for the time after `round` times. */
  function RoundStart(kind: Kind, round: nat): nat {
    if kind == Amd010 then 0x20000 * round else MEMORY_SIZE * round
  }

  /** Array byte `k` when `round` rounds have been programmed, and the bytes below `offset` once more. */
  function Overlay(kind: Kind, file: seq<byte>, round: nat, offset: nat, k: nat): byte {
    if k < offset then At(file, RoundStart(kind, round) + k)
    else if k < Capacity(kind) && round > 0 then At(file, RoundStart(kind, round - 1) + k)
    else 0xff
  }

  ghost predicate Overlaid(kind: Kind, memory: seq<byte>, file: seq<byte>, round: nat, offset: nat) {
    && |memory| == MEMORY_SIZE && offset < Capacity(kind)
    && forall k :: 0 <= k < |memory| ==> memory[k] == Overlay(kind, file, round, offset, k)
  }

  /** One more segment. */
  lemma OverlaidNext(kind: Kind, w: seq<byte>, u: seq<byte>, file: seq<byte>, round: nat, offset: nat,
                     buffer: seq<byte>)
    requires Overlaid(kind, w, file, round, offset) && |u| == |w| && offset + SEGMENT_SIZE <= Capacity(kind)
    requires buffer == Padded(file, RoundStart(kind, round) + offset)
    requires forall j :: 0 <= j < SEGMENT_SIZE ==> u[offset + j] == buffer[j]
    requires forall k :: 0 <= k < |u| && !(offset <= k < offset + SEGMENT_SIZE) ==> u[k] == w[k]
    ensures
      var next := offset + SEGMENT_SIZE;
      if next < Capacity(kind) then Overlaid(kind, u, file, round, next) else Overlaid(kind, u, file, round + 1, 0)
  {
    forall k | 0 <= k < |u| ensures u[k] == Overlay(kind, file, round, offset + SEGMENT_SIZE, k) {
      if offset <= k < offset + SEGMENT_SIZE {
        assert u[offset + (k - offset)] == buffer[k - offset];
      }
    }
  }

  // ---------- The copy loop ----------

  /** `done` segments of the file have been programmed since `v`, which makes `total` bytes of it. */
  ghost predicate CopyProgress(v: ChipState, w: ChipState, file: seq<byte>, total: nat, segment: byte,
                               done: nat, round: nat) {
    && w.kind == v.kind
    && w.erases == v.erases && w.invalid == v.invalid && w.programs == v.programs + done * SEGMENT_SIZE
    && total == (if done * SEGMENT_SIZE < |file| then done * SEGMENT_SIZE else |file|)
    && (done > 0 ==> (done - 1) * SEGMENT_SIZE < |file|)
    && done * SEGMENT_SIZE == RoundStart(w.kind, round) + SegmentBase(w.kind, segment)
    && Overlaid(w.kind, w.memory, file, round, SegmentBase(w.kind, segment))
  }

  lemma CopyBegins(v: ChipState, file: seq<byte>)
    requires |v.memory| == MEMORY_SIZE && AllErased(v.memory)
    ensures CopyProgress(v, v, file, 0, 0, 0, 0)
  {
  }

  /** Segment numbers go around with the chip. */
  lemma NextSegment(kind: Kind, segment: byte)
    ensures
      var next := SegmentBase(kind, segment) + SEGMENT_SIZE;
      SegmentBase(kind, (segment + 1) % 256) == if next < Capacity(kind) then next else 0
  {
    var size, next := if kind == Amd010 then 16 else 64, (segment + 1) % 256;
    GoesAround(segment, next, size);
    BaseIs(kind, segment, size);
    BaseIs(kind, next, size);
  }

  lemma GoesAround(segment: byte, next: byte, size: nat)
    requires (size == 16 || size == 64) && next == if segment == 255 then 0 else segment + 1
    ensures next % size == if segment % size + 1 < size then segment % size + 1 else 0
  {
    var q, r := segment / size, segment % size;
    if segment == 255 {
      Remainder(255, size, if size == 16 then 15 else 3, size - 1);
    } else if r + 1 < size {
      Remainder(next, size, q, r + 1);
    } else {
      Remainder(next, size, q + 1, 0);
    }
  }

  lemma BaseIs(kind: Kind, segment: byte, size: nat)
    requires size == if kind == Amd010 then 16 else 64
    ensures SegmentBase(kind, segment) == segment % size * SEGMENT_SIZE
  {
    if kind == Amd010 {
      var n := segment % 64;
      Remainder(segment, 16, segment / 64 * 4 + n / 16, n % 16);
      SmallBase(n);
    }
  }

  lemma SmallBase(b: bank)
    ensures b * BANK_SIZE % 0x20000 == b % 16 * BANK_SIZE
  {
    Remainder(b * BANK_SIZE, 0x20000, b / 16, b % 16 * BANK_SIZE);
  }

  function NextRound(kind: Kind, segment: byte, round: nat): nat {
    if SegmentBase(kind, segment) + SEGMENT_SIZE < Capacity(kind) then round else round + 1
  }

  lemma CopyStep(v: ChipState, w: ChipState, u: ChipState, file: seq<byte>, total: nat, count: int,
                 segment: byte, done: nat, round: nat)
    requires CopyProgress(v, w, file, total, segment, done, round) && total < |file|
    requires count == if |file| - total < SEGMENT_SIZE then |file| - total else SEGMENT_SIZE
    requires Written(w, u, SegmentBase(w.kind, segment), Padded(file, total), SEGMENT_SIZE)
    ensures CopyProgress(v, u, file, total + count, (segment + 1) % 256, done + 1, NextRound(v.kind, segment, round))
  {
    NextSegment(w.kind, segment);
    OverlaidNext(w.kind, w.memory, u.memory, file, round, SegmentBase(w.kind, segment), Padded(file, total));
  }

  // ---------- What can be copied ----------

  /** Byte `j` of segment `k` can be programmed over the byte of the file that it is to replace. */
  predicate Rewritable(kind: Kind, file: seq<byte>, k: nat, j: nat) {
    var p := k * SEGMENT_SIZE + j;
    p >= Capacity(kind) ==> BitAnd(At(file, p - Capacity(kind)), At(file, p)) == At(file, p)
  }

  predicate SegmentRewritable(kind: Kind, file: seq<byte>, k: nat) {
    forall j :: 0 <= j < SEGMENT_SIZE ==> Rewritable(kind, file, k, j)
  }

  /** The positions in the file at which a segment begins, as far as there are any. */
  predicate BeginsSegment(file: seq<byte>, k: nat) {
    k * SEGMENT_SIZE < |file|
  }

  /** Where a file goes around the chip, it only clears bits. */
  ghost predicate AllRewritable(kind: Kind, file: seq<byte>) {
    forall k: nat :: BeginsSegment(file, k) ==> SegmentRewritable(kind, file, k)
  }

  /** No read that a complete copy of the file needs fails. */
  ghost predicate DiskOkay(diskFails: set<nat>, file: seq<byte>) {
    forall k: nat :: BeginsSegment(file, k) ==> k * SEGMENT_SIZE !in diskFails
  }

  predicate ReadSoFar(diskFails: set<nat>, done: nat) {
    forall k: nat :: k < done ==> k * SEGMENT_SIZE !in diskFails
  }

  predicate RewrittenSoFar(kind: Kind, file: seq<byte>, done: nat) {
    forall k: nat :: k < done ==> SegmentRewritable(kind, file, k)
  }

  /** A byte of the segment that is programmed next. */
  lemma NextByteRewritable(kind: Kind, memory: seq<byte>, file: seq<byte>, round: nat, offset: nat,
                           done: nat, j: nat)
    requires Overlaid(kind, memory, file, round, offset) && j < SEGMENT_SIZE
    requires offset + SEGMENT_SIZE <= Capacity(kind) && done * SEGMENT_SIZE == RoundStart(kind, round) + offset
    ensures
      var b := At(file, done * SEGMENT_SIZE + j);
      BitAnd(memory[offset + j], b) == b <==> Rewritable(kind, file, done, j)
  {
    BitAndErased(At(file, done * SEGMENT_SIZE + j));
    ByteBefore(kind, memory, file, round, offset, j);
  }

  /** The byte that is to be replaced. */
  lemma ByteBefore(kind: Kind, memory: seq<byte>, file: seq<byte>, round: nat, offset: nat, j: nat)
    requires Overlaid(kind, memory, file, round, offset) && offset + j < Capacity(kind)
    ensures
      var p := RoundStart(kind, round) + offset + j;
      memory[offset + j] == if p >= Capacity(kind) then At(file, p - Capacity(kind)) else 0xff
  {
    assert memory[offset + j] == Overlay(kind, file, round, offset, offset + j);
  }

  /** Programming the next segment works exactly if the file allows it. */
  lemma NextSegmentRewritable(v: ChipState, w: ChipState, file: seq<byte>, total: nat, segment: byte,
                              done: nat, round: nat)
    requires CopyProgress(v, w, file, total, segment, done, round) && total < |file|
    ensures Programmable(w.memory, SegmentBase(w.kind, segment), Padded(file, total), SEGMENT_SIZE)
       <==> SegmentRewritable(w.kind, file, done)
  {
    var offset, buffer := SegmentBase(w.kind, segment), Padded(file, total);
    forall j | 0 <= j < SEGMENT_SIZE
      ensures BitAnd(w.memory[offset + j], buffer[j]) == buffer[j]
         <==> Rewritable(w.kind, file, done, j)
    {
      NextByteRewritable(w.kind, w.memory, file, round, offset, done, j);
    }
  }

  lemma SmallIsRewritable(kind: Kind, file: seq<byte>)
    requires |file| <= Capacity(kind)
    ensures AllRewritable(kind, file)
  {
  }

  // ---------- The array afterwards ----------

  /** Every array byte is the last one of the file that goes there, or erased. */
  ghost predicate Filled(kind: Kind, memory: seq<byte>, file: seq<byte>) {
    && |memory| == MEMORY_SIZE
    && (forall p: nat :: p < PaddedSize(file) <= p + Capacity(kind) ==> memory[p % Capacity(kind)] == At(file, p))
    && (forall k :: 0 <= k < |memory| && (k >= PaddedSize(file) || k >= Capacity(kind)) ==> memory[k] == 0xff)
  }

  /** The array is the file followed by erased bytes. */
  ghost predicate Contains(memory: seq<byte>, file: seq<byte>) {
    && |file| <= |memory|
    && forall k :: 0 <= k < |memory| ==> memory[k] == At(file, k)
  }

  lemma FilledFits(kind: Kind, memory: seq<byte>, file: seq<byte>)
    requires Filled(kind, memory, file) && |file| <= Capacity(kind)
    ensures Contains(memory, file)
  {
    OneRound(kind, file);
    forall k | 0 <= k < |memory| ensures memory[k] == At(file, k) {
      FilledByte(kind, memory, file, k);
    }
  }

  lemma FilledByte(kind: Kind, memory: seq<byte>, file: seq<byte>, k: nat)
    requires Filled(kind, memory, file) && |file| <= PaddedSize(file) <= Capacity(kind) && k < |memory|
    ensures memory[k] == At(file, k)
  {
    if k < PaddedSize(file) {
      RoundOf(kind, 0, k);
      assert memory[k % Capacity(kind)] == At(file, k);
    }
  }

  /** Where a position of the file goes. */
  lemma RoundOf(kind: Kind, round: nat, p: nat)
    requires RoundStart(kind, round) <= p < RoundStart(kind, round) + Capacity(kind)
    ensures p % Capacity(kind) == p - RoundStart(kind, round)
  {
    Remainder(p, Capacity(kind), round, p - RoundStart(kind, round));
  }

  lemma OverlaidIsFilled(kind: Kind, memory: seq<byte>, file: seq<byte>, round: nat, offset: nat)
    requires Overlaid(kind, memory, file, round, offset) && PaddedSize(file) == RoundStart(kind, round) + offset
    ensures Filled(kind, memory, file)
  {
    forall p: nat | p < PaddedSize(file) <= p + Capacity(kind)
      ensures memory[p % Capacity(kind)] == At(file, p)
    {
      RoundOf(kind, if p >= RoundStart(kind, round) then round else round - 1, p);
    }
  }

  lemma CopyDone(v: ChipState, w: ChipState, file: seq<byte>, segment: byte, done: nat, round: nat)
    requires CopyProgress(v, w, file, |file|, segment, done, round)
    ensures done == SegmentCount(|file|)
    ensures Filled(w.kind, w.memory, file)
  {
    OverlaidIsFilled(w.kind, w.memory, file, round, SegmentBase(w.kind, segment));
  }

  /** The same before the file has been copied completely; the byte that comes next may have become anything. */
  ghost predicate FilledUpTo(kind: Kind, memory: seq<byte>, file: seq<byte>, round: nat, offset: nat) {
    && |memory| == MEMORY_SIZE && offset < Capacity(kind)
    && RoundStart(kind, round) + offset <= PaddedSize(file)
    && forall k :: 0 <= k < |memory| && (k == offset ==> RoundStart(kind, round) + offset == PaddedSize(file)) ==>
         memory[k] == Overlay(kind, file, round, offset, k)
  }

  ghost predicate PartlyFilled(kind: Kind, memory: seq<byte>, file: seq<byte>) {
    exists round: nat, offset: nat :: FilledUpTo(kind, memory, file, round, offset)
  }

  lemma ErasedIsPartlyFilled(kind: Kind, memory: seq<byte>, file: seq<byte>)
    requires |memory| == MEMORY_SIZE && AllErased(memory)
    ensures PartlyFilled(kind, memory, file)
  {
    assert FilledUpTo(kind, memory, file, 0, 0);
  }

  /** The array is erased, except for the file up to byte `n` and whatever byte `n` has become. */
  ghost predicate LoadedUpTo(memory: seq<byte>, file: seq<byte>, n: nat) {
    forall k :: 0 <= k < |memory| && k != n ==> memory[k] == if k < n then At(file, k) else 0xff
  }

  lemma PartlyFilledFits(kind: Kind, memory: seq<byte>, file: seq<byte>)
    requires PartlyFilled(kind, memory, file) && |file| <= Capacity(kind)
    ensures exists n: nat :: LoadedUpTo(memory, file, n)
  {
    var round: nat, offset: nat :| FilledUpTo(kind, memory, file, round, offset);
    OneRound(kind, file);
    FirstRound(kind, memory, file, round, offset);
  }

  lemma OneRound(kind: Kind, file: seq<byte>)
    requires |file| <= Capacity(kind)
    ensures |file| <= PaddedSize(file) <= Capacity(kind)
  {
  }

  lemma FirstRound(kind: Kind, memory: seq<byte>, file: seq<byte>, round: nat, offset: nat)
    requires FilledUpTo(kind, memory, file, round, offset) && |file| <= PaddedSize(file) <= Capacity(kind)
    ensures LoadedUpTo(memory, file, RoundStart(kind, round) + offset)
  {
    if round == 0 {
      assert forall k :: 0 <= k < |memory| && k != offset ==> memory[k] == Overlay(kind, file, 0, offset, k);
    } else {
      assert round == 1 && offset == 0;
      assert forall k :: 0 <= k < |memory| ==> memory[k] == Overlay(kind, file, 1, 0, k);
    }
  }

  /** Programming failed in segment `done`: everything before is right. */
  lemma CopyStopped(v: ChipState, w: ChipState, x: ChipState, u: ChipState, file: seq<byte>, total: nat,
                    segment: byte, done: nat, round: nat, i: nat)
    requires CopyProgress(v, w, file, total, segment, done, round) && total < |file| && i < SEGMENT_SIZE
    requires FailedAt(w, x, u, SegmentBase(w.kind, segment), Padded(file, total), i)
    ensures FilledUpTo(u.kind, u.memory, file, round, SegmentBase(w.kind, segment) + i)
  {
    SegmentBroken(w.kind, w.memory, x.memory, u.memory, file, round, SegmentBase(w.kind, segment),
                  Padded(file, total), i);
    InPaddedFile(file, total, done, i);
  }

  lemma InPaddedSize(file: seq<byte>, done: nat)
    requires done > 0 ==> (done - 1) * SEGMENT_SIZE < |file|
    ensures done * SEGMENT_SIZE <= PaddedSize(file)
  {
  }

  lemma InPaddedFile(file: seq<byte>, total: nat, done: nat, i: nat)
    requires total == done * SEGMENT_SIZE < |file| && i < SEGMENT_SIZE
    ensures done * SEGMENT_SIZE + i < PaddedSize(file)
  {
  }

  /** The first `i` bytes of a segment are right and the next one is not. */
  lemma SegmentBroken(kind: Kind, w: seq<byte>, x: seq<byte>, u: seq<byte>, file: seq<byte>, round: nat, offset: nat,
                      buffer: seq<byte>, i: nat)
    requires Overlaid(kind, w, file, round, offset) && |u| == |x| == |w| && i < SEGMENT_SIZE
    requires buffer == Padded(file, RoundStart(kind, round) + offset) && offset + SEGMENT_SIZE <= Capacity(kind)
    requires forall j :: 0 <= j < i ==> x[offset + j] == buffer[j]
    requires forall k :: 0 <= k < |x| && !(offset <= k < offset + i) ==> x[k] == w[k]
    requires forall k :: 0 <= k < |u| && k != offset + i ==> u[k] == x[k]
    ensures forall k :: 0 <= k < |u| && k != offset + i ==> u[k] == Overlay(kind, file, round, offset + i, k)
  {
    forall k | 0 <= k < |u| && k != offset + i ensures u[k] == Overlay(kind, file, round, offset + i, k) {
      if offset <= k < offset + i {
        assert x[offset + (k - offset)] == buffer[k - offset];
      }
    }
  }

  /** Whole segments only have been programmed. */
  lemma CopyPaused(v: ChipState, w: ChipState, file: seq<byte>, total: nat, segment: byte, done: nat, round: nat)
    requires CopyProgress(v, w, file, total, segment, done, round)
    ensures PartlyFilled(w.kind, w.memory, file)
  {
    InPaddedSize(file, done);
    assert FilledUpTo(w.kind, w.memory, file, round, SegmentBase(w.kind, segment));
  }

  // ---------- The whole run ----------

  /** The slot flag of the command line. */
  function SlotFlag(argv: seq<string>): (slot: Option<nat>)
    ensures slot.Some? ==> slot.value < 4
  {
    if argv == [] then None
    else if argv[0] == "/S0" || argv[0] == "/s0" then Some(0)
    else if argv[0] == "/S1" || argv[0] == "/s1" then Some(1)
    else if argv[0] == "/S2" || argv[0] == "/s2" then Some(2)
    else if argv[0] == "/S3" || argv[0] == "/s3" then Some(3)
    else None
  }

  /** The slot is the digit of the flag. */
  lemma SlotIsDigit(argv: seq<string>, k: nat)
    ensures SlotFlag(argv) == Some(k) <==>
      && argv != [] && |argv[0]| == 3 && argv[0][0] == '/' && (argv[0][1] == 'S' || argv[0][1] == 's')
      && '0' <= argv[0][2] <= '3' && k == argv[0][2] as int - '0' as int
  {
    if argv != [] && |argv[0]| == 3 {
      assert argv[0] == [argv[0][0], argv[0][1], argv[0][2]];
    }
  }

  /** The name is missing exactly when a slot flag is all there is. */
  lemma NameMissing(argv: seq<string>)
    requires argv != []
    ensures !NameGiven(argv) <==>
      && |argv| == 1 && |argv[0]| == 3 && argv[0][0] == '/' && (argv[0][1] == 'S' || argv[0][1] == 's')
      && '0' <= argv[0][2] <= '3'
  {
    if argv != [] && |argv[0]| == 3 {
      SlotIsDigit(argv, argv[0][2] as int - if '0' <= argv[0][2] then '0' as int else 0);
    }
    if SlotFlag(argv).Some? {
      SlotIsDigit(argv, SlotFlag(argv).value);
    }
  }

  /** The name follows the slot flag, if there is one. */
  predicate NameGiven(argv: seq<string>) {
    |argv| > if SlotFlag(argv).Some? then 1 else 0
  }

  /** The file of that name, if it can be opened. */
  function NamedFile(argv: seq<string>, disk: map<string, seq<byte>>): Option<seq<byte>> {
    var k := if SlotFlag(argv).Some? then 1 else 0;
    if k < |argv| && argv[k] in disk then Some(disk[argv[k]]) else None
  }

  datatype Outcome =
    | Usage
    | NotEnoughMemory
    | MissingName
    | NoFlash
    | CannotOpen
    | EraseFailed(slot: nat)
    | Finished(slot: nat, complete: bool)

  /** No array byte changed and no operation was run. */
  ghost predicate Spared(v: ChipState, w: ChipState) {
    && w.kind == v.kind && w.memory == v.memory
    && w.programs == v.programs && w.erases == v.erases && w.invalid == v.invalid
  }

  /** What a run reports complete: the chip now holds exactly the file, after one erasure and no aborted command. */
  ghost predicate Loaded(v: ChipState, w: ChipState, file: seq<byte>) {
    && w.Idle() && Filled(w.kind, w.memory, file)
    && w.erases == v.erases + 1 && w.invalid == v.invalid
    && w.programs == v.programs + SegmentCount(|file|) * SEGMENT_SIZE
  }

  /** An SST chip whose first two bytes look like the identification of an AMD chip. */
  predicate Impostor(v: ChipState) {
    IsSst(v.kind) && Mimics(v)
  }

  /** What a run, completed or not, may have done to the chip it worked on. */
  ghost predicate Attempted(v: ChipState, w: ChipState, file: seq<byte>) {
    && w.invalid == v.invalid
    && if Impostor(v) then Spared(v, w)
       else
         && w.erases == v.erases + 1
         && (w.memory == v.memory || PartlyFilled(v.kind, w.memory, file))
  }

  /** An AMD identification at the start of an otherwise erased SST chip makes it an impostor. */
  lemma ImpostorsExist() returns (v: ChipState)
    ensures v.Idle() && v.kind == Sst && v.memory[..2] == [0x01, 0xa4]
    ensures forall k :: 2 <= k < MEMORY_SIZE ==> v.memory[k] == 0xff
    ensures Impostor(v) && Detects(v, 0xf000) && !DetectsSst(v, 0xf000)
  {
    var memory := [0x01, 0xa4] + seq(MEMORY_SIZE - 2, _ => 0xff);
    v := ChipState(Sst, memory, [0, 0, 0, 0], Ready, 0, 0, 0, 0, 0, 0xff, false, false);
  }

  /** The slot a run worked on. */
  predicate WorkedOn(outcome: Outcome, slot: nat) {
    outcome == EraseFailed(slot) || (outcome.Finished? && outcome.slot == slot)
  }

  /** The slot the command line asks for, or the highest one with a supported chip. */
  ghost predicate Chosen(views: seq<ChipState>, stackPointer: nat, request: Option<nat>, slot: nat)
    requires |views| == 4
  {
    && slot < 4 && Detects(views[slot], stackPointer)
    && if request.Some? then slot == request.value
       else forall i :: slot < i < 4 ==> !Detects(views[i], stackPointer)
  }

  /** A slot has been chosen, with the command set of its chip, and the chips are as they were. */
  ghost predicate SlotChosen(before: seq<ChipState>, now: seq<ChipState>, stackPointer: nat,
                             request: Option<nat>, slot: nat, sst: bool)
    requires |before| == |now| == 4
  {
    && (forall i :: 0 <= i < 4 ==> Spared(before[i], now[i]))
    && (slot == 4 ==> NoneChosen(before, stackPointer, request))
    && (slot != 4 ==>
          && Chosen(before, stackPointer, request, slot) && Undisturbed(before[slot], now[slot])
          && (sst <==> DetectsSst(before[slot], stackPointer)))
  }

  lemma HighestIsChosen(before: seq<ChipState>, now: seq<ChipState>, stackPointer: nat, highest: nat, sst: bool)
    requires |before| == |now| == 4 && HighestDetected(before, stackPointer, 4, highest, sst)
    requires forall i :: 0 <= i < 4 ==> Undisturbed(before[i], now[i])
    ensures highest <= 4 && SlotChosen(before, now, stackPointer, None, highest, sst)
  {
  }

  lemma RequestIsChosen(before: seq<ChipState>, now: seq<ChipState>, stackPointer: nat,
                         slot: nat, found: bool, sst: bool)
    requires |before| == |now| == 4 && slot < 4 && Undisturbed(before[slot], now[slot])
    requires now == before[slot := now[slot]]
    requires (found <==> Detects(before[slot], stackPointer)) && (sst <==> DetectsSst(before[slot], stackPointer))
    ensures SlotChosen(before, now, stackPointer, Some(slot), if found then slot else 4, sst)
  {
  }

  ghost predicate NoneChosen(views: seq<ChipState>, stackPointer: nat, request: Option<nat>)
    requires |views| == 4
  {
    forall i :: 0 <= i < 4 && (request.Some? ==> i == request.value) ==> !Detects(views[i], stackPointer)
  }

  lemma ChosenIsOne(views: seq<ChipState>, stackPointer: nat, request: Option<nat>, slot: nat)
    requires |views| == 4 && Chosen(views, stackPointer, request, slot)
    ensures !NoneChosen(views, stackPointer, request)
  {
  }

  /** What the outcome of a run says about the chips in the four slots. */
  ghost predicate Reported(before: seq<ChipState>, after: seq<ChipState>, stackPointer: nat,
                           request: Option<nat>, file: Option<seq<byte>>, outcome: Outcome)
    requires |before| == |after| == 4
  {
    && (forall i :: 0 <= i < 4 && !WorkedOn(outcome, i) ==> Spared(before[i], after[i]))
    && (outcome.NoFlash? ==> NoneChosen(before, stackPointer, request))
    && (outcome.EraseFailed? || outcome.Finished? ==>
          && file.Some? && Chosen(before, stackPointer, request, outcome.slot)
          && Attempted(before[outcome.slot], after[outcome.slot], file.value)
          && (Impostor(before[outcome.slot]) ==> outcome.EraseFailed?)
          && (outcome.Finished? && outcome.complete ==>
                Loaded(before[outcome.slot], after[outcome.slot], file.value)))
  }

  /** The chosen chip can be worked on with the commands of its family, unless it is an impostor. */
  lemma ChosenReady(before: seq<ChipState>, now: seq<ChipState>, stackPointer: nat, request: Option<nat>,
                    slot: nat, sst: bool)
    requires |before| == |now| == 4 && slot < 4
    requires SlotChosen(before, now, stackPointer, request, slot, sst)
    ensures now[slot].Idle() && now[slot].kind == before[slot].kind != Empty
    ensures Mimics(now[slot]) == Mimics(before[slot])
    ensures sst <==> IsSst(now[slot].kind) && !Mimics(now[slot])
  {
  }

  /** Working on the chosen slot only. */
  lemma LoadReported(before: seq<ChipState>, now: seq<ChipState>, stackPointer: nat, request: Option<nat>,
                     slot: nat, sst: bool, file: seq<byte>, outcome: Outcome, u: ChipState)
    requires |before| == |now| == 4 && slot < 4
    requires SlotChosen(before, now, stackPointer, request, slot, sst)
    requires WorkedOn(outcome, slot) && Attempted(now[slot], u, file)
    requires Impostor(now[slot]) ==> outcome.EraseFailed?
    requires outcome == Finished(slot, true) ==> Loaded(now[slot], u, file)
    ensures Reported(before, now[slot := u], stackPointer, request, Some(file), outcome)
  {
  }
}
