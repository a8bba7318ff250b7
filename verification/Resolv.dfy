/** The retry timer of the DNS resolver and its table of names. */
module Resolv {
  import opened Bytes
  import opened Wrappers

  const RESOLV_ENTRIES := 4
  const MAX_RETRIES := 8
  /** The polls that a new name takes to fail when it is the only one. */
  const NEW_POLLS := 30

  datatype EntryState = Unused | New | Asking | Done | Error

  datatype Entry = Entry(state: EntryState, tmr: byte, retries: byte, seqno: byte, ipaddr: u32)

  // ---------- One entry ----------

  predicate Active(e: Entry) {
    e.state == New || e.state == Asking
  }

  predicate EntryInv(e: Entry) {
    e.state == Asking ==> 1 <= e.tmr && e.tmr <= (if e.retries == 0 then 1 else e.retries) && e.retries < MAX_RETRIES
  }

  /** A visit by the timer asks the question. */
  predicate Sends(e: Entry) {
    e.state == New || (e.state == Asking && e.tmr == 1 && e.retries + 1 != MAX_RETRIES)
  }

  /** A visit by the timer gives the name up. */
  predicate Fails(e: Entry) {
    e.state == Asking && e.tmr == 1 && e.retries + 1 == MAX_RETRIES
  }

  function Visited(e: Entry): Entry
    requires Active(e) && EntryInv(e)
  {
    if e.state == New then e.(state := Asking, tmr := 1, retries := 0)
    else if e.tmr > 1 then e.(tmr := e.tmr - 1)
    else if e.retries + 1 == MAX_RETRIES then e.(tmr := 0, retries := e.retries + 1, state := Error)
    else e.(tmr := e.retries + 1, retries := e.retries + 1)
  }

  function SumFrom(r: nat): nat
    decreases MAX_RETRIES - r
  {
    if r >= MAX_RETRIES then 0 else r + SumFrom(r + 1)
  }

  /** The visits that an entry needs to settle when no answer comes. */
  function Visits(e: Entry): nat {
    match e.state
    case New => NEW_POLLS
    case Asking => e.tmr + SumFrom(e.retries + 1)
    case _ => 0
  }

  /** The queries that it sends on the way. */
  function Queries(e: Entry): nat {
    match e.state
    case New => MAX_RETRIES
    case Asking => if e.retries < MAX_RETRIES then MAX_RETRIES - 1 - e.retries else 0
    case _ => 0
  }

  lemma SumFromOne()
    ensures SumFrom(1) == 28
  {
    assert SumFrom(5) == 18;
  }

  /** Every visit brings an entry exactly one visit closer; a query is one query less. */
  lemma VisitCounts(e: Entry)
    requires Active(e) && EntryInv(e)
    ensures EntryInv(Visited(e)) && Visits(Visited(e)) == Visits(e) - 1
    ensures Queries(Visited(e)) == Queries(e) - if Sends(e) then 1 else 0
    ensures Fails(e) <==> Visited(e).state == Error
    ensures 0 < Visits(e) <= NEW_POLLS
  {
    SumFromOne();
    if e.state == Asking {
      SumFromBound(if e.retries == 0 then 1 else e.retries);
    }
  }

  lemma {:induction false} SumFromBound(r: nat)
    requires r >= 1
    ensures SumFrom(r) <= SumFrom(1)
    decreases r
  {
    if r > 1 {
      SumFromBound(r - 1);
    }
  }

  // ---------- The table ----------

  /** `told` is what the program is told: the failed entries, with no address. */
  datatype PollResult = PollResult(names: seq<Entry>, sent: Option<nat>, told: seq<(nat, Option<u32>)>)

  ghost predicate TableInv(names: seq<Entry>) {
    forall i :: 0 <= i < |names| ==> EntryInv(names[i])
  }

  /** The poll from entry `i` on. It ends with the first query, since there is room for one packet only. */
  function Polled(names: seq<Entry>, i: nat): (r: PollResult)
    requires i <= |names| && TableInv(names)
    ensures |r.names| == |names|
    decreases |names| - i
  {
    if i == |names| then PollResult(names, None, [])
    else if !Active(names[i]) then Polled(names, i + 1)
    else
      VisitCounts(names[i]);
      var visited := names[i := Visited(names[i])];
      if Sends(names[i]) then PollResult(visited, Some(i), [])
      else
        var r := Polled(visited, i + 1);
        if Fails(names[i]) then r.(told := [(i, None)] + r.told) else r
  }

  /** An entry has been visited, or left alone. */
  predicate EntryPolled(e: Entry, e': Entry, sent: bool, failed: bool) {
    if e' == e then !sent && !failed
    else Active(e) && EntryInv(e) && e' == Visited(e) && sent == Sends(e) && failed == Fails(e)
  }

  ghost predicate FirstActive(names: seq<Entry>, i: nat, j: int) {
    i <= j < |names| && Active(names[j]) && forall k :: i <= k < j ==> !Active(names[k])
  }

  /** A poll visits some of the active entries, the first one among them. */
  lemma {:induction false} PolledEntries(names: seq<Entry>, i: nat)
    requires i <= |names| && TableInv(names)
    ensures
      var r := Polled(names, i);
      && (forall j :: 0 <= j < |names| ==> EntryPolled(names[j], r.names[j], r.sent == Some(j), (j, None) in r.told))
      && (forall j :: 0 <= j < i ==> r.names[j] == names[j])
      && (forall j :: FirstActive(names, i, j) ==> r.names[j] != names[j])
    decreases |names| - i
  {
    if i < |names| {
      if !Active(names[i]) {
        PolledEntries(names, i + 1);
        assert forall j :: FirstActive(names, i, j) ==> FirstActive(names, i + 1, j);
      } else {
        VisitCounts(names[i]);
        if !Sends(names[i]) {
          PolledEntries(names[i := Visited(names[i])], i + 1);
        }
      }
    }
  }

  /** A new name is due, and one whose timer runs out before its last try. */
  predicate Due(e: Entry) {
    e.state == New || (e.state == Asking && e.tmr == 1 && e.retries < 7)
  }

  /** `s` is the first entry from `i` on that is due, or the end of the table. */
  ghost predicate FirstDue(names: seq<Entry>, i: nat, s: nat) {
    && i <= s <= |names| && (s < |names| ==> Due(names[s]))
    && forall k :: i <= k < s ==> !Due(names[k])
  }

  /** The entries of a table after a poll that has reached entry `s`. */
  ghost predicate PolledUpTo(names: seq<Entry>, now: seq<Entry>, i: nat, s: nat)
    requires TableInv(names)
  {
    && |now| == |names|
    && forall j :: 0 <= j < |names| ==>
         now[j] == if i <= j <= s && Active(names[j]) then Visited(names[j]) else names[j]
  }

  /** The entries between `i` and `s` whose last try has run out, in order. */
  function GivenUp(names: seq<Entry>, i: nat, s: nat): seq<(nat, Option<u32>)>
    requires i <= s <= |names|
    decreases s - i
  {
    if i == s then []
    else (if names[i].state == Asking && names[i].tmr == 1 && names[i].retries == 7 then [(i, None)] else [])
         + GivenUp(names, i + 1, s)
  }

  /** A poll visits every active entry up to the first one that is due, which it sends for, and none after it. */
  lemma {:induction false} PollIsExact(names: seq<Entry>, i: nat, s: nat)
    requires i <= |names| && TableInv(names) && FirstDue(names, i, s)
    ensures
      var r := Polled(names, i);
      && r.sent == (if s < |names| then Some(s) else None)
      && PolledUpTo(names, r.names, i, s) && r.told == GivenUp(names, i, s)
    decreases |names| - i
  {
    if i < |names| {
      if !Active(names[i]) {
        PollIsExact(names, i + 1, s);
      } else {
        VisitCounts(names[i]);
        if !Sends(names[i]) {
          var visited := names[i := Visited(names[i])];
          PollIsExact(visited, i + 1, s);
          GivenUpSame(names, visited, i + 1, s);
          PolledUpToNext(names, visited, Polled(visited, i + 1).names, i, s);
        }
      }
    }
  }

  lemma PolledUpToNext(names: seq<Entry>, visited: seq<Entry>, now: seq<Entry>, i: nat, s: nat)
    requires i < |names| && i <= s && TableInv(names) && TableInv(visited) && Active(names[i])
    requires visited == names[i := Visited(names[i])] && PolledUpTo(visited, now, i + 1, s)
    ensures PolledUpTo(names, now, i, s)
  {
  }

  lemma {:induction false} GivenUpSame(names: seq<Entry>, now: seq<Entry>, i: nat, s: nat)
    requires i <= s <= |names| == |now| && forall j :: i <= j < s ==> now[j] == names[j]
    ensures GivenUp(now, i, s) == GivenUp(names, i, s)
    decreases s - i
  {
    if i < s {
      GivenUpSame(names, now, i + 1, s);
    }
  }

  lemma {:induction false} DueExists(names: seq<Entry>, i: nat) returns (s: nat)
    requires i <= |names|
    ensures FirstDue(names, i, s)
    decreases |names| - i
  {
    if i == |names| || Due(names[i]) {
      s := i;
    } else {
      s := DueExists(names, i + 1);
    }
  }

  // ---------- Runs without new names ----------

  /** The timer polls, or an answer with an error code and perhaps an address arrives for some entry. */
  datatype Step = Poll | Answer(id: u16, err: nat, address: Option<u32>)

  /** The entry that an answer settles: its number is the low byte of the identification. */
  function Answered(names: seq<Entry>, id: u16, err: nat, address: Option<u32>): (r: seq<Entry>)
    ensures |r| == |names|
  {
    var i := id % 256;
    if i >= |names| || names[i].state != Asking then names
    else if err != 0 then names[i := names[i].(state := Error)]
    else if address.None? then names[i := names[i].(state := Done)]
    else names[i := names[i].(state := Done, ipaddr := address.value)]
  }

  function Next(names: seq<Entry>, step: Step): (r: seq<Entry>)
    requires TableInv(names)
    ensures |r| == |names|
  {
    match step
    case Poll => Polled(names, 0).names
    case Answer(id, err, address) => Answered(names, id, err, address)
  }

  /** The query that a step sends. */
  function SentBy(names: seq<Entry>, step: Step): Option<nat>
    requires TableInv(names)
  {
    if step == Poll then Polled(names, 0).sent else None
  }

  lemma NextKeeps(names: seq<Entry>, step: Step)
    requires TableInv(names)
    ensures TableInv(Next(names, step))
  {
    if step == Poll {
      PolledEntries(names, 0);
      forall j | 0 <= j < |names| ensures EntryInv(Next(names, step)[j]) {
        if Active(names[j]) {
          VisitCounts(names[j]);
        }
      }
    }
  }

  /** The visits that the first `m` entries need together. */
  function TotalVisits(names: seq<Entry>, m: nat): nat
    requires m <= |names|
  {
    if m == 0 then 0 else TotalVisits(names, m - 1) + Visits(names[m - 1])
  }

  /** No entry needs more visits than before, and one of the first `m` fewer. */
  lemma {:induction false} FewerVisits(names: seq<Entry>, now: seq<Entry>, m: nat, k: nat)
    requires m <= |names| == |now|
    requires forall j :: 0 <= j < m ==> Visits(now[j]) <= Visits(names[j])
    ensures TotalVisits(now, m) <= TotalVisits(names, m)
    ensures k < m && Visits(now[k]) < Visits(names[k]) ==> TotalVisits(now, m) < TotalVisits(names, m)
  {
    if m > 0 {
      FewerVisits(names, now, m - 1, k);
    }
  }

  lemma {:induction false} SomeVisits(names: seq<Entry>, m: nat) returns (first: nat)
    requires m <= |names| && TableInv(names) && TotalVisits(names, m) > 0
    ensures first < m && FirstActive(names, 0, first)
  {
    if m > 0 && TotalVisits(names, m - 1) > 0 {
      first := SomeVisits(names, m - 1);
    } else {
      first := m - 1;
      NoVisits(names, m - 1);
    }
  }

  lemma {:induction false} NoVisits(names: seq<Entry>, m: nat)
    requires m <= |names| && TableInv(names) && TotalVisits(names, m) == 0
    ensures forall j :: 0 <= j < m ==> !Active(names[j])
  {
    if m > 0 {
      NoVisits(names, m - 1);
      if Active(names[m - 1]) {
        VisitCounts(names[m - 1]);
      }
    }
  }

  /** Each poll brings the first `m` entries closer to the end, whatever the entries after them do. */
  lemma PollProgress(names: seq<Entry>, m: nat)
    requires m <= |names| && TableInv(names) && TotalVisits(names, m) > 0
    ensures TotalVisits(Next(names, Poll), m) < TotalVisits(names, m)
  {
    var now := Next(names, Poll);
    var first := SomeVisits(names, m);
    PolledEntries(names, 0);
    forall j | 0 <= j < m
      ensures Visits(now[j]) <= Visits(names[j]) && (j == first ==> Visits(now[j]) < Visits(names[j]))
    {
      if now[j] != names[j] {
        VisitCounts(names[j]);
      }
    }
    FewerVisits(names, now, m, first);
  }

  lemma StepProgress(names: seq<Entry>, step: Step, m: nat)
    requires m <= |names| && TableInv(names)
    ensures TotalVisits(Next(names, step), m) <= TotalVisits(names, m)
  {
    if step == Poll && TotalVisits(names, m) > 0 {
      PollProgress(names, m);
    } else {
      var now := Next(names, step);
      PolledEntries(names, 0);
      forall j | 0 <= j < m ensures Visits(now[j]) <= Visits(names[j]) {
        if Active(names[j]) {
          VisitCounts(names[j]);
        }
      }
      FewerVisits(names, now, m, 0);
    }
  }

  function After(names: seq<Entry>, steps: seq<Step>): (r: seq<Entry>)
    requires TableInv(names)
    ensures |r| == |names|
    decreases |steps|
  {
    if steps == [] then names
    else
      NextKeeps(names, steps[0]);
      After(Next(names, steps[0]), steps[1..])
  }

  function Polls(steps: seq<Step>): (n: nat)
    ensures n <= |steps|
  {
    if steps == [] then 0 else (if steps[0] == Poll then 1 else 0) + Polls(steps[1..])
  }

  predicate OnlyPolls(steps: seq<Step>) {
    Polls(steps) == |steps|
  }

  /** How often the name in entry `i` is asked for. */
  function QueriesSent(names: seq<Entry>, steps: seq<Step>, i: nat): nat
    requires TableInv(names)
    decreases |steps|
  {
    if steps == [] then 0
    else
      NextKeeps(names, steps[0]);
      (if SentBy(names, steps[0]) == Some(i) then 1 else 0) + QueriesSent(Next(names, steps[0]), steps[1..], i)
  }

  lemma {:induction false} VisitsAfter(names: seq<Entry>, steps: seq<Step>, m: nat)
    requires m <= |names| && TableInv(names)
    ensures TableInv(After(names, steps))
    ensures
      var left := TotalVisits(After(names, steps), m);
      left == 0 || left + Polls(steps) <= TotalVisits(names, m)
    decreases |steps|
  {
    if steps != [] {
      NextKeeps(names, steps[0]);
      StepProgress(names, steps[0], m);
      if steps[0] == Poll && TotalVisits(names, m) > 0 {
        PollProgress(names, m);
      }
      VisitsAfter(Next(names, steps[0]), steps[1..], m);
    }
  }

  lemma {:induction false} TotalBound(names: seq<Entry>, m: nat)
    requires m <= |names| && TableInv(names)
    ensures TotalVisits(names, m) <= NEW_POLLS * m
  {
    if m > 0 {
      TotalBound(names, m - 1);
      if Active(names[m - 1]) {
        VisitCounts(names[m - 1]);
      }
    }
  }

  /**
   Without new names every name settles: entry `i` does so within the polls that it and the
   entries before it need together, although a query ends a poll and holds up the others.
   */
  lemma EveryNameSettles(names: seq<Entry>, steps: seq<Step>, i: nat)
    requires i < |names| && TableInv(names)
    requires Polls(steps) >= TotalVisits(names, i + 1) || Polls(steps) >= NEW_POLLS * (i + 1)
    ensures !Active(After(names, steps)[i])
  {
    TotalBound(names, i + 1);
    VisitsAfter(names, steps, i + 1);
    NoVisits(After(names, steps), i + 1);
  }

  /** What a step does to one entry: settled entries stay as they are, and queries are counted. */
  lemma EntryStep(names: seq<Entry>, step: Step, i: nat)
    requires i < |names| && TableInv(names)
    ensures
      var now, sent := Next(names, step)[i], if SentBy(names, step) == Some(i) then 1 else 0;
      && (!Active(names[i]) ==> now == names[i])
      && (step == Poll && Active(names[i]) ==> Active(now) || now.state == Error)
      && Queries(now) + sent <= Queries(names[i])
      && (step == Poll ==> Queries(now) + sent == Queries(names[i]))
  {
    PolledEntries(names, 0);
    if Active(names[i]) {
      VisitCounts(names[i]);
    }
  }

  lemma {:induction false} SettledStays(names: seq<Entry>, steps: seq<Step>, i: nat)
    requires i < |names| && TableInv(names) && !Active(names[i])
    ensures After(names, steps)[i] == names[i]
    decreases |steps|
  {
    if steps != [] {
      NextKeeps(names, steps[0]);
      EntryStep(names, steps[0], i);
      SettledStays(Next(names, steps[0]), steps[1..], i);
    }
  }

  /** With nothing but polls, a name that was active ends in error. */
  lemma {:induction false} UnansweredIsError(names: seq<Entry>, steps: seq<Step>, i: nat)
    requires i < |names| && TableInv(names) && Active(names[i]) && OnlyPolls(steps)
    ensures Active(After(names, steps)[i]) || After(names, steps)[i].state == Error
    decreases |steps|
  {
    if steps != [] {
      NextKeeps(names, steps[0]);
      EntryStep(names, steps[0], i);
      var now := Next(names, steps[0]);
      if Active(now[i]) {
        UnansweredIsError(now, steps[1..], i);
      } else {
        SettledStays(now, steps[1..], i);
      }
    }
  }

  /** Queries are conserved: with nothing but polls, those sent and those still to come make up those due. */
  lemma {:induction false} QueriesConserved(names: seq<Entry>, steps: seq<Step>, i: nat)
    requires i < |names| && TableInv(names)
    ensures
      var sent, left := QueriesSent(names, steps, i), Queries(After(names, steps)[i]);
      sent + left <= Queries(names[i]) && (OnlyPolls(steps) ==> sent + left == Queries(names[i]))
    decreases |steps|
  {
    if steps != [] {
      NextKeeps(names, steps[0]);
      EntryStep(names, steps[0], i);
      QueriesConserved(Next(names, steps[0]), steps[1..], i);
    }
  }

  /** A new name that nobody answers fails after exactly 8 queries, within 30 polls for it and each entry before it. */
  lemma NewNameFails(names: seq<Entry>, steps: seq<Step>, i: nat)
    requires i < |names| && TableInv(names) && names[i].state == New
    requires OnlyPolls(steps) && Polls(steps) >= NEW_POLLS * (i + 1)
    ensures After(names, steps)[i].state == Error && QueriesSent(names, steps, i) == MAX_RETRIES
  {
    EveryNameSettles(names, steps, i);
    UnansweredIsError(names, steps, i);
    QueriesConserved(names, steps, i);
  }

  /** The polls that end before they reach entry `i`, with the query of an entry before it. */
  function HeldUp(names: seq<Entry>, steps: seq<Step>, i: nat): (n: nat)
    requires TableInv(names)
    ensures n <= |steps|
    decreases |steps|
  {
    if steps == [] then 0
    else
      NextKeeps(names, steps[0]);
      var sent := SentBy(names, steps[0]);
      (if sent.Some? && sent.value < i then 1 else 0) + HeldUp(Next(names, steps[0]), steps[1..], i)
  }

  /** Every poll that is not held up before it brings an active entry one visit further. */
  lemma PollReaches(names: seq<Entry>, i: nat)
    requires i < |names| && TableInv(names)
    ensures
      var sent, now := Polled(names, 0).sent, Polled(names, 0).names;
      now[i] == if Active(names[i]) && !(sent.Some? && sent.value < i) then Visited(names[i]) else names[i]
  {
    var s := DueExists(names, 0);
    PollIsExact(names, 0, s);
  }

  function Less(a: nat, b: nat): nat { if a > b then a - b else 0 }

  /** Exactly how far entry `i` has come after any number of polls. */
  lemma {:induction false} VisitsExactly(names: seq<Entry>, steps: seq<Step>, i: nat)
    requires i < |names| && TableInv(names) && OnlyPolls(steps)
    ensures Visits(After(names, steps)[i]) == Less(Visits(names[i]), |steps| - HeldUp(names, steps, i))
    decreases |steps|
  {
    if steps != [] {
      NextKeeps(names, Poll);
      PollReaches(names, i);
      if Active(names[i]) {
        VisitCounts(names[i]);
      }
      VisitsExactly(Next(names, Poll), steps[1..], i);
    }
  }

  /** A name that nobody answers settles exactly when so many polls have not been held up before it. */
  lemma SettlesExactlyWhen(names: seq<Entry>, steps: seq<Step>, i: nat)
    requires i < |names| && TableInv(names) && OnlyPolls(steps)
    ensures !Active(After(names, steps)[i]) <==> |steps| - HeldUp(names, steps, i) >= Visits(names[i])
  {
    VisitsExactly(names, steps, i);
    VisitsAfter(names, steps, i + 1);
    var e := After(names, steps)[i];
    if Active(e) {
      VisitCounts(e);
    }
  }

  lemma {:induction false} NothingBeforeFirst(names: seq<Entry>, steps: seq<Step>)
    requires TableInv(names)
    ensures HeldUp(names, steps, 0) == 0
    decreases |steps|
  {
    if steps != [] {
      NextKeeps(names, steps[0]);
      NothingBeforeFirst(Next(names, steps[0]), steps[1..]);
    }
  }

  /** The first entry is never held up. */
  lemma FirstNameIsExact(names: seq<Entry>, steps: seq<Step>)
    requires |names| > 0 && TableInv(names) && OnlyPolls(steps) && |steps| <= Visits(names[0])
    ensures Visits(After(names, steps)[0]) == Visits(names[0]) - |steps|
  {
    VisitsExactly(names, steps, 0);
    NothingBeforeFirst(names, steps);
  }

  // ---------- Which entry a new name takes ----------

  /** How many queries have been made since the entry's, as far as the counter has not come around. */
  function Age(e: Entry, seqno: byte): int {
    seqno as int - e.seqno
  }

  /** Where a new name goes: the first unused entry, else the first of the greatest age, else entry 0. */
  ghost predicate SlotFor(names: seq<Entry>, seqno: byte, slot: nat) {
    && slot < |names|
    && if names[slot].state == Unused then forall j :: 0 <= j < slot ==> names[j].state != Unused
       else
         && (forall j :: 0 <= j < |names| ==> names[j].state != Unused)
         && (slot != 0 ==> Age(names[slot], seqno) > 0)
         && (forall j :: 0 <= j < slot ==> Age(names[j], seqno) < Age(names[slot], seqno))
         && (forall j :: slot < j < |names| ==>
               Age(names[j], seqno) <= 0 || Age(names[j], seqno) <= Age(names[slot], seqno))
  }

  lemma SlotIsUnique(names: seq<Entry>, seqno: byte, slot: nat, other: nat)
    requires SlotFor(names, seqno, slot) && SlotFor(names, seqno, other)
    ensures slot == other
  {
  }

  // ---------- The table over all queries ----------

  /**
   How the table was begun: the number of entries already taken when initialization marked the
   others as done. It counts as one when there were none, since the first two names then share
   entry 0, and as zero when all were taken or initialization was left out.
   */
  type start = k: nat | k < 4

  /** The entries 1 to 3 hold these three, in some order. */
  predicate Others(born: seq<int>, x: int, y: int, z: int)
    requires |born| == RESOLV_ENTRIES
  {
    || (born[1] == x && ((born[2] == y && born[3] == z) || (born[2] == z && born[3] == y)))
    || (born[1] == y && ((born[2] == x && born[3] == z) || (born[2] == z && born[3] == x)))
    || (born[1] == z && ((born[2] == x && born[3] == y) || (born[2] == y && born[3] == x)))
  }

  /** The first queries after initialization. */
  function Early(k: start, n: nat): (born: seq<int>)
    requires n <= 4
    ensures |born| == RESOLV_ENTRIES
  {
    match n
    case 0 => [-1, -1, -1, -1]
    case 1 => [0, -1, -1, -1]
    case 2 => if k == 1 then [1, -1, -1, -1] else [0, 1, -1, -1]
    case 3 => if k == 1 then [1, 2, -1, -1] else if k == 2 then [2, 1, -1, -1] else [0, 1, 2, -1]
    case _ =>
      if k == 1 then [1, 2, 3, -1] else if k == 2 then [2, 1, 3, -1] else if k == 3 then [3, 1, 2, -1] else [0, 1, 2, 3]
  }

  /** The four entries were taken by the last four queries. */
  predicate LastFour(born: seq<int>, k: start, n: nat)
    requires |born| == RESOLV_ENTRIES
  {
    && n - 4 <= born[0] < n && n - 4 <= born[1] < n && n - 4 <= born[2] < n && n - 4 <= born[3] < n
    && born[0] != born[1] && born[0] != born[2] && born[0] != born[3]
    && born[1] != born[2] && born[1] != born[3] && born[2] != born[3]
    && born[0] % 4 == k
  }

  /** After the counter has come around: entry 0 is taken again and again, with at most two exceptions. */
  predicate Around(born: seq<int>, k: start, n: nat)
    requires |born| == RESOLV_ENTRIES
  {
    if k == 0 then
      if n <= 511 then born[0] == n - 1 && Others(born, 253, 254, 255)
      else born[0] == (if n == 512 then 510 else n - 1) && Others(born, 511, 254, 255)
    else
      var x, y := if k == 1 then 254 else 253, if k == 3 then 254 else 255;
      if n <= 510 then born[0] == n - 1 && Others(born, 252, x, y)
      else if k == 1 || n <= 767 then born[0] == (if n == 511 then 509 else n - 1) && Others(born, 510, x, y)
      else born[0] == (if n == 768 then 766 else n - 1) && Others(born, 510, 767, y)
  }

  /** Every table that can be reached: `born[i]` is the query that took entry `i`, or -1, after `n` queries. */
  predicate Reached(born: seq<int>, k: start, n: nat)
    requires |born| == RESOLV_ENTRIES
  {
    if n <= 4 then born == Early(k, n)
    else if n <= 256 then LastFour(born, k, n)
    else Around(born, k, n)
  }

  function SeqnoOf(born: int): byte {
    if born < 0 then 0 else born % 256
  }

  /** The entries show when they were taken; those that never were are unused until initialization. */
  ghost predicate Labelled(names: seq<Entry>, born: seq<int>, initialized: bool) {
    && |names| == |born| == RESOLV_ENTRIES
    && forall i :: 0 <= i < RESOLV_ENTRIES ==>
         && names[i].seqno == SeqnoOf(born[i])
         && (names[i].state == Unused <==> born[i] < 0 && !initialized)
  }

  predicate StartedBy(k: start, n: nat, initialized: bool) {
    if initialized then n >= (if k == 0 then RESOLV_ENTRIES else if k == 1 then 0 else k) else k == 0
  }

  ghost predicate FilledBy(names: seq<Entry>, born: seq<int>, k: start, n: nat, initialized: bool) {
    Labelled(names, born, initialized) && StartedBy(k, n, initialized) && Reached(born, k, n)
  }

  // ---------- Which entry is next ----------

  /** Of these ages the first of the greatest is at `slot`; entry 0 if none is positive. */
  predicate FirstGreatest(a: int, b: int, c: int, d: int, slot: nat) {
    || (slot == 0 && (b <= 0 || b <= a) && (c <= 0 || c <= a) && (d <= 0 || d <= a))
    || (slot == 1 && b > 0 && a < b && (c <= 0 || c <= b) && (d <= 0 || d <= b))
    || (slot == 2 && c > 0 && a < c && b < c && (d <= 0 || d <= c))
    || (slot == 3 && d > 0 && a < d && b < d && c < d)
  }

  /** What the search finds among used entries. */
  lemma SlotByAge(names: seq<Entry>, seqno: byte, slot: nat)
    requires |names| == RESOLV_ENTRIES && SlotFor(names, seqno, slot) && names[slot].state != Unused
    ensures FirstGreatest(Age(names[0], seqno), Age(names[1], seqno), Age(names[2], seqno), Age(names[3], seqno), slot)
  {
  }

  lemma AgeEarly(e: Entry, born: int, n: byte)
    requires e.seqno == SeqnoOf(born) && born < 256
    ensures Age(e, n) == n - Taken(born)
  {
  }

  predicate Oldest(born: seq<int>, slot: nat)
    requires |born| == RESOLV_ENTRIES
  {
    slot < RESOLV_ENTRIES && forall j :: 0 <= j < RESOLV_ENTRIES ==> born[slot] <= born[j]
  }

  /** The queries that give up the oldest entry. */
  predicate GivesUpOldest(k: start, n: nat) {
    if k == 0 then n <= 256 || n == 511
    else k < n <= 255 || n == 510 || (k > 1 && n == 767) || (k == 1 && n == 0)
  }

  /** What one more query, which takes entry `slot`, makes of the table. */
  predicate Advances(born: seq<int>, k: start, n: nat, slot: nat)
    requires |born| == RESOLV_ENTRIES
  {
    && slot < RESOLV_ENTRIES
    && Reached(born[slot := n], k, n + 1)
    && (Oldest(born, slot) <==> GivesUpOldest(k, n))
  }

  lemma EarlyAdvances(k: start, n: nat, slot: nat)
    requires n <= 4 && (k > 1 ==> n >= k) && (k == 0 ==> n == 4)
    requires
      var b := Early(k, n);
      FirstGreatest(n - Taken(b[0]), n - Taken(b[1]), n - Taken(b[2]), n - Taken(b[3]), slot)
    ensures Advances(Early(k, n), k, n, slot)
  {
  }

  function Taken(born: int): nat {
    if born < 0 then 0 else born
  }

  lemma LastFourAdvances(born: seq<int>, k: start, n: nat, slot: nat)
    requires |born| == RESOLV_ENTRIES && 4 < n < 256 && LastFour(born, k, n)
    requires FirstGreatest(n - born[0], n - born[1], n - born[2], n - born[3], slot)
    ensures Advances(born, k, n, slot)
  {
  }

  lemma At256Advances(born: seq<int>, k: start)
    requires |born| == RESOLV_ENTRIES && LastFour(born, k, 256)
    ensures Advances(born, k, 256, 0)
  {
  }

  /** The counter when query `born` was made, for the first 768 queries. */
  function Low(born: int): int {
    if born < 256 then born else if born < 512 then born - 256 else born - 512
  }

  /** The counter when entry 0 was taken; `c` is the counter now. */
  function First(born: int, n: nat, c: byte): int {
    if born != n - 1 then Low(born) else if c == 0 then 255 else c - 1
  }

  predicate PicksAround(born: seq<int>, n: nat, c: byte, slot: nat)
    requires |born| == RESOLV_ENTRIES
  {
    FirstGreatest(c - First(born[0], n, c), c - Low(born[1]), c - Low(born[2]), c - Low(born[3]), slot)
  }

  lemma OnceAroundAdvances(born: seq<int>, k: start, n: nat, slot: nat)
    requires |born| == RESOLV_ENTRIES && 256 < n < 512 && Around(born, k, n)
    requires PicksAround(born, n, n - 256, slot)
    ensures Advances(born, k, n, slot)
  {
  }

  lemma TwiceAroundAdvances(born: seq<int>, k: start, n: nat, slot: nat)
    requires |born| == RESOLV_ENTRIES && 512 <= n < 768 && Around(born, k, n)
    requires PicksAround(born, n, n - 512, slot)
    ensures Advances(born, k, n, slot)
  {
  }

  lemma EverAfterAdvances(born: seq<int>, k: start, n: nat, c: byte, slot: nat)
    requires |born| == RESOLV_ENTRIES && 768 <= n && Around(born, k, n) && (n == 768 ==> c == 0)
    requires PicksAround(born, n, c, slot)
    ensures Advances(born, k, n, slot) && slot == 0
  {
  }

  lemma LowIs(born: nat)
    requires born < 768
    ensures SeqnoOf(born) == Low(born)
  {
    var p := if born < 256 then 0 else if born < 512 then 1 else 2;
    Remainder(born, 256, p, born - 256 * p);
  }

  lemma FirstIs(born: nat, n: nat)
    requires born == n - 1 || born < 768
    ensures SeqnoOf(born) == First(born, n, n % 256)
  {
    if born == n - 1 {
      var q, c := n / 256, n % 256;
      Remainder(born, 256, if c == 0 then q - 1 else q, if c == 0 then 255 else c - 1);
    } else {
      LowIs(born);
    }
  }

  lemma SlotAround(names: seq<Entry>, born: seq<int>, k: start, n: nat, initialized: bool, slot: nat)
    requires FilledBy(names, born, k, n, initialized) && n > 256 && SlotFor(names, n % 256, slot)
    ensures PicksAround(born, n, n % 256, slot)
  {
    SlotByAge(names, n % 256, slot);
    FirstIs(born[0], n);
    LowIs(born[1]);
    LowIs(born[2]);
    LowIs(born[3]);
  }

  lemma AroundAdvances(names: seq<Entry>, born: seq<int>, k: start, n: nat, initialized: bool, slot: nat)
    requires FilledBy(names, born, k, n, initialized) && n > 256 && SlotFor(names, n % 256, slot)
    ensures Advances(born, k, n, slot) && (n >= 768 ==> slot == 0)
  {
    SlotAround(names, born, k, n, initialized, slot);
    if n < 512 {
      Remainder(n, 256, 1, n - 256);
      OnceAroundAdvances(born, k, n, slot);
    } else if n < 768 {
      Remainder(n, 256, 2, n - 512);
      TwiceAroundAdvances(born, k, n, slot);
    } else {
      EverAfterAdvances(born, k, n, n % 256, slot);
    }
  }

  /** Before the counter comes around. */
  lemma FirstTimeAdvances(names: seq<Entry>, born: seq<int>, k: start, n: nat, initialized: bool, slot: nat)
    requires FilledBy(names, born, k, n, initialized) && n < 256 && (n >= 4 || initialized)
    requires SlotFor(names, n % 256, slot)
    ensures Advances(born, k, n, slot)
  {
    Remainder(n, 256, 0, n);
    AgesFirstTime(names, born, k, n, initialized, slot);
    if n <= 4 {
      EarlyAdvances(k, n, slot);
    } else {
      LastFourAdvances(born, k, n, slot);
    }
  }

  lemma AgesFirstTime(names: seq<Entry>, born: seq<int>, k: start, n: nat, initialized: bool, slot: nat)
    requires FilledBy(names, born, k, n, initialized) && n < 256 && (n >= 4 || initialized)
    requires SlotFor(names, n, slot)
    ensures FirstGreatest(n - Taken(born[0]), n - Taken(born[1]), n - Taken(born[2]), n - Taken(born[3]), slot)
  {
    SlotByAge(names, n, slot);
    AgeEarly(names[0], born[0], n);
    AgeEarly(names[1], born[1], n);
    AgeEarly(names[2], born[2], n);
    AgeEarly(names[3], born[3], n);
  }

  /** When the counter has just come around no age is positive. */
  lemma AllBefore(names: seq<Entry>, born: seq<int>, slot: nat)
    requires |names| == |born| == RESOLV_ENTRIES && SlotFor(names, 0, slot)
    requires forall i :: 0 <= i < RESOLV_ENTRIES ==>
      names[i].state != Unused && names[i].seqno == SeqnoOf(born[i]) && 252 <= born[i] < 256
    ensures slot == 0
  {
    LowIs(born[0]);
    LowIs(born[1]);
    LowIs(born[2]);
    LowIs(born[3]);
  }

  /** While there are unused entries they are taken in order. */
  lemma UnusedAdvances(names: seq<Entry>, born: seq<int>, n: nat, slot: nat)
    requires FilledBy(names, born, 0, n, false) && n < 4 && SlotFor(names, n % 256, slot)
    ensures Advances(born, 0, n, slot)
  {
    assert born == Early(0, n) && born[n] == born[3] == -1;
    assert names[n].state == names[3].state == Unused;
    assert slot == n;
  }

  /**
   A full table gives up its oldest entry exactly at the queries that `GivesUpOldest` lists, and
   from query 768 on entry 0 is the only one that is ever taken.
   */
  lemma OldestIsReplaced(names: seq<Entry>, born: seq<int>, k: start, n: nat, initialized: bool, slot: nat)
    requires FilledBy(names, born, k, n, initialized) && SlotFor(names, n % 256, slot)
    ensures Oldest(born, slot) <==> GivesUpOldest(k, n)
    ensures n >= 768 ==> slot == 0
    ensures Reached(born[slot := n], k, n + 1)
  {
    if n < 4 && !initialized {
      UnusedAdvances(names, born, n, slot);
    } else if n < 256 {
      FirstTimeAdvances(names, born, k, n, initialized, slot);
    } else if n == 256 {
      AllBefore(names, born, slot);
      At256Advances(born, k);
    } else {
      AroundAdvances(names, born, k, n, initialized, slot);
    }
  }

  /** Right after initialization, and for long after the counter has come around, it is the newest entry that goes. */
  lemma NewestIsReplaced(names: seq<Entry>, born: seq<int>, k: start, n: nat, initialized: bool, slot: nat)
    requires FilledBy(names, born, k, n, initialized) && SlotFor(names, n % 256, slot)
    requires (k == 1 && n == 1 && initialized) || 257 <= n < 510
    ensures slot == 0 && born[0] == n - 1
    ensures n == 1 ==> born[1] == born[2] == born[3] == -1
  {
    OldestIsReplaced(names, born, k, n, initialized, slot);
    if n == 1 {
      AgesFirstTime(names, born, k, n, initialized, slot);
    }
  }

  /** What the other entries hold after 768 queries stays there for ever. */
  lemma OthersStarve(names: seq<Entry>, born: seq<int>, k: start, n: nat, initialized: bool, slot: nat)
    requires FilledBy(names, born, k, n, initialized) && n > 768 && SlotFor(names, n % 256, slot)
    ensures slot == 0 && born[0] == n - 1
    ensures forall i :: 1 <= i < RESOLV_ENTRIES ==> born[i] < 768
  {
    OldestIsReplaced(names, born, k, n, initialized, slot);
  }

  /** Polls and answers neither move entries nor make them unused. */
  lemma StepKeepsLabels(names: seq<Entry>, step: Step, born: seq<int>, initialized: bool)
    requires Labelled(names, born, initialized) && TableInv(names)
    ensures Labelled(Next(names, step), born, initialized)
  {
    if step == Poll {
      PolledEntries(names, 0);
      forall i | 0 <= i < RESOLV_ENTRIES
        ensures Next(names, step)[i].seqno == names[i].seqno
        ensures Next(names, step)[i].state == Unused <==> names[i].state == Unused
      {
        var r := Polled(names, 0);
        assert EntryPolled(names[i], r.names[i], r.sent == Some(i), (i, None) in r.told);
      }
    }
  }

  /** A query takes an entry. */
  lemma QueryKeepsFilled(names: seq<Entry>, born: seq<int>, k: start, n: nat, initialized: bool, slot: nat)
    requires FilledBy(names, born, k, n, initialized) && TableInv(names) && SlotFor(names, n % 256, slot)
    ensures
      var now := names[slot := names[slot].(state := New, seqno := n % 256)];
      FilledBy(now, born[slot := n], k, n + 1, initialized) && TableInv(now)
    ensures (Oldest(born, slot) <==> GivesUpOldest(k, n)) && (n >= 768 ==> slot == 0)
  {
    OldestIsReplaced(names, born, k, n, initialized, slot);
    StartedNext(k, n, initialized);
    QueryKeepsLabels(names, born, initialized, slot, n);
  }

  lemma QueryKeepsLabels(names: seq<Entry>, born: seq<int>, initialized: bool, slot: nat, n: nat)
    requires Labelled(names, born, initialized) && slot < RESOLV_ENTRIES
    ensures Labelled(names[slot := names[slot].(state := New, seqno := n % 256)], born[slot := n], initialized)
  {
  }

  lemma StartedNext(k: start, n: nat, initialized: bool)
    requires StartedBy(k, n, initialized)
    ensures StartedBy(k, n + 1, initialized)
  {
  }

  lemma CounterNext(n: nat)
    ensures (n % 256 + 1) % 256 == (n + 1) % 256
  {
  }

  lemma InitKeepsFilled(names: seq<Entry>, now: seq<Entry>, born: seq<int>, k: start, n: nat, initialized: bool)
    requires FilledBy(names, born, k, n, initialized) && |now| == RESOLV_ENTRIES
    requires forall i :: 0 <= i < RESOLV_ENTRIES ==> now[i] == names[i].(state := Done)
    ensures FilledBy(now, born, Begun(k, n, initialized), n, true)
  {
  }

  /** Initialization makes a difference only the first time. */
  function Begun(k: start, n: nat, initialized: bool): start {
    if initialized then k else if n >= RESOLV_ENTRIES then 0 else if n == 0 then 1 else n
  }

  class Resolver {
    const names: array<Entry>
    var seqno: byte
    /** The entries that queries were sent for. */
    var sent: seq<nat>
    /** What the program was told: an entry and its address, or none if the name was not found. */
    var found: seq<(nat, Option<u32>)>

    ghost var born: seq<int>
    ghost var queries: nat
    ghost var begun: start
    ghost var initialized: bool

    ghost predicate Valid()
      reads this, names
    {
      && names.Length == RESOLV_ENTRIES && TableInv(names[..])
      && FilledBy(names[..], born, begun, queries, initialized)
      && seqno == queries % 256
    }

    /** The resolver as it is before `resolv_init`. */
    constructor ()
      ensures Valid() && fresh(names) && sent == [] && found == [] && queries == 0 && !initialized
      ensures forall i :: 0 <= i < RESOLV_ENTRIES ==> names[i].state == Unused
    {
      names := new Entry[RESOLV_ENTRIES](_ => Entry(Unused, 0, 0, 0, 0));
      seqno, sent, found := 0, [], [];
      born, queries, begun, initialized := [-1, -1, -1, -1], 0, 0, false;
    }

    /** Marks all entries as done. */
    method Init()
      requires Valid()
      modifies this`begun, this`initialized, names
      ensures Valid() && initialized
      ensures begun == Begun(old(begun), queries, old(initialized))
      ensures forall i :: 0 <= i < RESOLV_ENTRIES ==> names[i] == old(names[i]).(state := Done)
    {
      ghost var before := names[..];
      for i := 0 to RESOLV_ENTRIES
        modifies names
        invariant forall j :: 0 <= j < RESOLV_ENTRIES ==>
          names[j] == if j < i then old(names[j]).(state := Done) else old(names[j])
      {
        names[i] := names[i].(state := Done);
      }
      InitKeepsFilled(before, names[..], born, begun, queries, initialized);
      begun, initialized := Begun(begun, queries, initialized), true;
    }

    /** The poll of the timer. */
    method CheckEntries()
      requires Valid()
      modifies this`sent, this`found, names
      ensures Valid()
      ensures
        var r := Polled(old(names[..]), 0);
        && names[..] == r.names == Next(old(names[..]), Poll)
        && sent == old(sent) + (if r.sent.Some? then [r.sent.value] else [])
        && found == old(found) + r.told
      // Every active entry up to the first one that is due has been visited, and none after it.
      ensures exists s: nat ::
        && FirstDue(old(names[..]), 0, s) && PolledUpTo(old(names[..]), names[..], 0, s)
        && sent == old(sent) + (if s < RESOLV_ENTRIES then [s] else [])
        && found == old(found) + GivenUp(old(names[..]), 0, s)
    {
      ghost var s := DueExists(names[..], 0);
      PollIsExact(names[..], 0, s);
      NextKeeps(names[..], Poll);
      StepKeepsLabels(names[..], Poll, born, initialized);
      VisitEntries();
    }

    /** What the timer does to one active entry; the answer says whether a query is due. */
    method Visit(i: nat) returns (asks: bool)
      requires i < names.Length && Active(names[i]) && EntryInv(names[i])
      modifies this`found, names
      ensures names[..] == old(names[..])[i := Visited(old(names[i]))]
      ensures asks == Sends(old(names[i]))
      ensures found == old(found) + if Fails(old(names[i])) then [(i, None)] else []
    {
      if names[i].state == Asking {
        names[i] := names[i].(tmr := names[i].tmr - 1);
        if names[i].tmr == 0 {
          names[i] := names[i].(retries := names[i].retries + 1);
          if names[i].retries == MAX_RETRIES {
            names[i] := names[i].(state := Error);
            found := found + [(i, None)];
            return false;
          }
          names[i] := names[i].(tmr := names[i].retries);
        } else {
          return false;
        }
      } else {
        names[i] := names[i].(state := Asking, tmr := 1, retries := 0);
      }
      return true;
    }

    /** The loop over the entries, up to the first query. */
    method VisitEntries()
      requires names.Length == RESOLV_ENTRIES && TableInv(names[..])
      modifies this`sent, this`found, names
      ensures
        var r := Polled(old(names[..]), 0);
        && names[..] == r.names
        && sent == old(sent) + (if r.sent.Some? then [r.sent.value] else [])
        && found == old(found) + r.told
    {
      ghost var r := Polled(names[..], 0);
      for i := 0 to RESOLV_ENTRIES
        invariant TableInv(names[..]) && sent == old(sent)
        invariant
          var q := Polled(names[..], i);
          q.names == r.names && q.sent == r.sent && found + q.told == old(found) + r.told
      {
        if names[i].state == New || names[i].state == Asking {
          VisitCounts(names[i]);
          var asks := Visit(i);
          if asks {
            sent := sent + [i];
            return;
          }
        }
      }
    }

    /** An answer with an error code and the first address record in it, if there is one. */
    method NewData(id: u16, err: nat, address: Option<u32>)
      requires Valid()
      modifies this`found, names
      ensures Valid()
      ensures names[..] == Next(old(names[..]), Answer(id, err, address))
      // The entry is in error exactly after an answer with an error code, and else holds the address, if there is one.
      ensures
        var i, was := id % 256, old(names[..]);
        && (forall j :: 0 <= j < RESOLV_ENTRIES && j != i ==> names[j] == was[j])
        && (i < RESOLV_ENTRIES ==>
              if was[i].state != Asking then names[i] == was[i]
              else
                && names[i].state == (if err != 0 then Error else Done)
                && names[i].ipaddr == (if err == 0 && address.Some? then address.value else was[i].ipaddr)
                && names[i] == was[i].(state := names[i].state, ipaddr := names[i].ipaddr))
      ensures
        var i := id % 256;
        var settles := i < RESOLV_ENTRIES && old(names[..])[i].state == Asking;
        found == old(found) +
          if settles && err != 0 then [(i as nat, None)]
          else if settles && address.Some? then [(i as nat, address)]
          else []
    {
      NextKeeps(names[..], Answer(id, err, address));
      StepKeepsLabels(names[..], Answer(id, err, address), born, initialized);
      var i := id % 256;
      if i < RESOLV_ENTRIES && names[i].state == Asking {
        names[i] := names[i].(state := Done);
        if err != 0 {
          names[i] := names[i].(state := Error);
          found := found + [(i, None)];
          return;
        }
        if address.Some? {
          names[i] := names[i].(ipaddr := address.value);
          found := found + [(i, address)];
        }
      }
    }

    /** The entry for a new name. */
    method FindSlot() returns (slot: nat)
      requires names.Length == RESOLV_ENTRIES
      ensures SlotFor(names[..], seqno, slot)
    {
      var lseq, lseqi := 0, 0;
      for i := 0 to RESOLV_ENTRIES
        invariant 0 <= lseqi && (lseqi < i || lseqi == 0)
        invariant forall j :: 0 <= j < i ==> names[j].state != Unused && Age(names[j], seqno) <= lseq
        invariant if lseq == 0 then lseqi == 0 else lseqi < i && Age(names[lseqi], seqno) == lseq > 0
        invariant forall j :: 0 <= j < lseqi ==> Age(names[j], seqno) < lseq
      {
        if names[i].state == Unused {
          return i;
        }
        if Age(names[i], seqno) > lseq {
          lseq := Age(names[i], seqno);
          lseqi := i;
        }
      }
      return lseqi;
    }

    /** Queues a name, in place of another one if the table is full. */
    method Query() returns (slot: nat)
      requires Valid()
      modifies this`seqno, this`born, this`queries, names
      ensures Valid() && SlotFor(old(names[..]), old(seqno), slot)
      ensures names[..] == old(names[..])[slot := old(names[..])[slot].(state := New, seqno := old(seqno))]
      ensures queries == old(queries) + 1 && born == old(born)[slot := old(queries)]
      ensures Oldest(old(born), slot) <==> GivesUpOldest(begun, old(queries))
      ensures old(queries) >= 768 ==> slot == 0
    {
      slot := FindSlot();
      QueryKeepsFilled(names[..], born, begun, queries, initialized, slot);
      Fill(slot);
    }

    method Fill(slot: nat)
      requires names.Length == |born| == RESOLV_ENTRIES && slot < RESOLV_ENTRIES && seqno == queries % 256
      modifies this`seqno, this`born, this`queries, names
      ensures names[..] == old(names[..])[slot := old(names[..])[slot].(state := New, seqno := old(seqno))]
      ensures queries == old(queries) + 1 && born == old(born)[slot := old(queries)] && seqno == queries % 256
    {
      CounterNext(queries);
      names[slot] := names[slot].(state := New, seqno := seqno);
      seqno := (seqno + 1) % 256;
      born, queries := born[slot := queries], queries + 1;
    }
  }
}
