/**
 The reading side of protosockets. A protothread gives up control in the middle of a read and is
 called again with the next event; the point to continue at is kept in `resume`.
 */
module Psock {
  import opened Bytes
  import opened Wrappers
  import opened Tcp
  import opened TcpNet

  // ---------- Lines ----------

  /** The position of the first end marker, or the length if there is none. */
  function FirstMarker(data: seq<byte>, c: byte): (n: nat)
    ensures n <= |data|
  {
    if data == [] || data[0] == c then 0 else 1 + FirstMarker(data[1..], c)
  }

  predicate IsFirst(data: seq<byte>, c: byte, n: nat) {
    n <= |data| && c !in data[..n] && (n < |data| ==> data[n] == c)
  }

  lemma {:induction false} FirstMarkerFirst(data: seq<byte>, c: byte)
    ensures IsFirst(data, c, FirstMarker(data, c))
  {
    if data != [] && data[0] != c {
      FirstMarkerFirst(data[1..], c);
      var n := FirstMarker(data[1..], c);
      assert data[..n + 1] == [data[0]] + data[1..][..n];
    }
  }

  lemma {:induction false} FirstMarkerIs(data: seq<byte>, c: byte, n: nat)
    requires IsFirst(data, c, n)
    ensures FirstMarker(data, c) == n
  {
    if n > 0 {
      assert data[..n] == [data[0]] + data[1..][..n - 1];
      FirstMarkerIs(data[1..], c, n - 1);
    }
  }

  /** The complete lines of a stream, each with its end marker. */
  function Lines(data: seq<byte>, c: byte): seq<seq<byte>>
    decreases |data|
  {
    var n := FirstMarker(data, c);
    if n == |data| then [] else [data[..n + 1]] + Lines(data[n + 1..], c)
  }

  /** What follows the last complete line. */
  function Tail(data: seq<byte>, c: byte): seq<byte>
    decreases |data|
  {
    var n := FirstMarker(data, c);
    if n == |data| then data else Tail(data[n + 1..], c)
  }

  function Concat(parts: seq<seq<byte>>): seq<byte> {
    if parts == [] then [] else parts[0] + Concat(parts[1..])
  }

  predicate IsLine(line: seq<byte>, c: byte) {
    |line| > 0 && line[|line| - 1] == c && c !in line[..|line| - 1]
  }

  lemma FirstLine(data: seq<byte>, c: byte)
    requires FirstMarker(data, c) < |data|
    ensures IsLine(data[..FirstMarker(data, c) + 1], c)
  {
    FirstMarkerFirst(data, c);
    var n := FirstMarker(data, c);
    assert data[..n + 1][..n] == data[..n];
  }

  lemma ConcatFirst(part: seq<byte>, parts: seq<seq<byte>>)
    ensures Concat([part] + parts) == part + Concat(parts)
  {
    assert ([part] + parts)[1..] == parts;
  }

  lemma AppendTwice(a: seq<byte>, b: seq<byte>, c: seq<byte>)
    ensures a + b + c == a + (b + c)
  {
  }

  /** It splits at every marker and nowhere else. */
  lemma {:induction false} LinesEndAtMarkers(data: seq<byte>, c: byte)
    ensures forall i :: 0 <= i < |Lines(data, c)| ==> IsLine(Lines(data, c)[i], c)
    ensures c !in Tail(data, c)
    decreases |data|
  {
    var n := FirstMarker(data, c);
    if n < |data| {
      FirstLine(data, c);
      LinesEndAtMarkers(data[n + 1..], c);
    } else {
      FirstMarkerFirst(data, c);
      assert data[..n] == data;
    }
  }

  lemma FirstMarkerAfter(data: seq<byte>, c: byte, k: nat)
    requires k <= |data| && c !in data[..k]
    ensures FirstMarker(data, c) == k + FirstMarker(data[k..], c)
  {
    FirstMarkerFirst(data[k..], c);
    var n := FirstMarker(data[k..], c);
    assert data[..k + n] == data[..k] + data[k..][..n];
    FirstMarkerIs(data, c, k + n);
  }

  lemma FirstMarkerConcat(a: seq<byte>, b: seq<byte>, c: byte)
    ensures FirstMarker(a + b, c) == if c in a then FirstMarker(a, c) else |a| + FirstMarker(b, c)
    ensures c in a <==> FirstMarker(a, c) < |a|
  {
    FirstMarkerFirst(a, c);
    var n := FirstMarker(a, c);
    if n < |a| {
      assert (a + b)[..n] == a[..n];
      FirstMarkerIs(a + b, c, n);
    } else {
      assert a[..n] == a && (a + b)[..|a|] == a && (a + b)[|a|..] == b;
      FirstMarkerAfter(a + b, c, |a|);
    }
  }

  /** Data without a marker only makes the tail longer. */
  lemma {:induction false} LinesContinue(a: seq<byte>, b: seq<byte>, c: byte)
    requires c !in b
    ensures Lines(a + b, c) == Lines(a, c) && Tail(a + b, c) == Tail(a, c) + b
    decreases |a|
  {
    var m := FirstMarker(a, c);
    FirstMarkerConcat(a, b, c);
    if m < |a| {
      LinesContinue(a[m + 1..], b, c);
      assert (a + b)[..m + 1] == a[..m + 1];
      assert (a + b)[m + 1..] == a[m + 1..] + b;
    } else {
      FirstMarkerConcat(b, [], c);
    }
  }

  /** The first line and what follows it. */
  lemma LinesFirst(line: seq<byte>, rest: seq<byte>, c: byte)
    requires IsLine(line, c)
    ensures Lines(line + rest, c) == [line] + Lines(rest, c) && Tail(line + rest, c) == Tail(rest, c)
  {
    FirstMarkerIs(line, c, |line| - 1);
    FirstMarkerConcat(line, rest, c);
    assert (line + rest)[..|line|] == line && (line + rest)[|line|..] == rest;
  }

  /** Splitting loses nothing. */
  lemma {:induction false} LinesAreTheStream(data: seq<byte>, c: byte)
    ensures Concat(Lines(data, c)) + Tail(data, c) == data
    decreases |data|
  {
    var n := FirstMarker(data, c);
    if n < |data| {
      var line, rest := data[..n + 1], data[n + 1..];
      FirstLine(data, c);
      assert data == line + rest;
      LinesAreTheStream(rest, c);
      LinesFirst(line, rest, c);
      ConcatFirst(line, Lines(rest, c));
      AppendTwice(line, Concat(Lines(rest, c)), Tail(rest, c));
    }
  }

  /** Without a marker in front, data that ends with its only marker is one line. */
  lemma LinesOnly(a: seq<byte>, b: seq<byte>, c: byte)
    requires c !in a && IsLine(b, c)
    ensures Lines(a + b, c) == [a + b] && Tail(a + b, c) == []
  {
    assert (a + b)[..|a + b| - 1] == a + b[..|b| - 1];
    LinesFirst(a + b, [], c);
    assert a + b + [] == a + b;
  }

  /** Data that ends with its only marker completes the last line. */
  lemma {:induction false} LinesComplete(a: seq<byte>, b: seq<byte>, c: byte)
    requires IsLine(b, c)
    ensures Lines(a + b, c) == Lines(a, c) + [Tail(a, c) + b] && Tail(a + b, c) == []
    decreases |a|
  {
    var m := FirstMarker(a, c);
    FirstMarkerConcat(a, b, c);
    if m < |a| {
      var line, rest := a[..m + 1], a[m + 1..];
      FirstLine(a, c);
      LinesComplete(rest, b, c);
      LinesFirst(line, rest + b, c);
      assert a == line + rest;
      AppendTwice(line, rest, b);
    } else {
      LinesOnly(a, b, c);
    }
  }

  /** Lines that are complete stay as they are when the stream goes on. */
  lemma {:induction false} LinesGrow(a: seq<byte>, b: seq<byte>, c: byte)
    requires a <= b
    ensures Lines(a, c) <= Lines(b, c)
    decreases |b|
  {
    var m := FirstMarker(a, c);
    if m < |a| {
      FirstMarkerConcat(a, b[|a|..], c);
      assert a + b[|a|..] == b;
      assert b[..m + 1] == a[..m + 1];
      var a', b' := a[m + 1..], b[m + 1..];
      assert a' <= b';
      LinesGrow(a', b', c);
      assert Lines(a, c) == [a[..m + 1]] + Lines(a', c);
      assert Lines(b, c) == [a[..m + 1]] + Lines(b', c);
    } else {
      assert Lines(a, c) == [];
    }
  }

  function Truncated(line: seq<byte>, size: nat): (r: seq<byte>)
    ensures r <= line && (|r| == |line| <= size || |r| == size < |line|)
  {
    if |line| <= size then line else line[..size]
  }

  lemma DiscardedRest(s: seq<byte>, d: seq<byte>, n: nat, k: nat)
    requires n <= k <= |d|
    ensures Truncated(s + d[..k], |s| + n) == s + d[..n]
  {
  }

  lemma NoMarker(p: seq<byte>, done: seq<byte>, rest: seq<byte>, c: byte)
    requires p == done + rest && rest == [] && c !in done
    ensures p == done && FirstMarker(p, c) == |p|
  {
    FirstMarkerIs(p, c, |p|);
  }

  /** Reading on after `done` without a marker, with the bytes `d` at hand. */
  lemma ReadOn(done: seq<byte>, d: seq<byte>, c: byte)
    requires c !in done
    ensures
      var n, p := FirstMarker(d, c), done + d;
      if n < |d| then
        && FirstMarker(p, c) == |done| + n
        && p[..|done| + n + 1] == done + d[..n + 1] && p[|done| + n + 1..] == d[n + 1..]
      else c !in p
  {
    FirstMarkerConcat(done, d, c);
    FirstMarkerConcat(d, [], c);
  }

  /** What the buffer holds then, `used` bytes further on. */
  lemma TakenOn(s: seq<byte>, done: seq<byte>, d: seq<byte>, used: nat, size: nat)
    requires used <= |d|
    ensures Truncated(Truncated(s + done, size) + d[..used], size) == Truncated(s + (done + d)[..|done| + used], size)
  {
    TruncatedTwice(s + done, d[..used], size);
    assert (done + d)[..|done| + used] == done + d[..used];
    assert s + done + d[..used] == s + (done + d[..used]);
  }

  lemma TruncatedTwice(a: seq<byte>, b: seq<byte>, size: nat)
    ensures Truncated(Truncated(a, size) + b, size) == Truncated(a + b, size)
  {
  }

  /** `d` has been read up to the first marker and stored behind `s`, as far as it fits; `rest` is left. */
  predicate BufferedTo(d: seq<byte>, s: seq<byte>, c: byte, size: nat, found: bool, full: bool,
                       rest: seq<byte>, stored: seq<byte>)
  {
    var n := FirstMarker(d, c);
    var used := if n < |d| then n + 1 else n;
    && found == (n < |d|)
    && full == (|s| + used > size)
    && rest == d[used..]
    && stored == Truncated(s + d[..used], size)
  }

  lemma BufferedFound(d: seq<byte>, s: seq<byte>, c: byte, size: nat, k: nat)
    requires 0 < k <= |d| && FirstMarker(d, c) == k - 1 && |s| + k <= size
    ensures BufferedTo(d, s, c, size, true, false, d[k..], s + d[..k])
  {
  }

  lemma BufferedAll(d: seq<byte>, s: seq<byte>, c: byte, size: nat)
    requires c !in d && |s| + |d| <= size
    ensures BufferedTo(d, s, c, size, false, false, [], s + d)
  {
    FirstMarkerConcat(d, [], c);
    assert d[..|d|] == d;
  }

  lemma BufferedPast(d: seq<byte>, s: seq<byte>, c: byte, size: nat, k: nat)
    requires k < |d| && |s| + k == size && c !in d[..k]
    ensures
      var n := FirstMarker(d[k..], c);
      var found := n < |d| - k;
      BufferedTo(d, s, c, size, found, true, d[k..][if found then n + 1 else n..], s + d[..k])
  {
    FirstMarkerAfter(d, c, k);
    var n := FirstMarker(d[k..], c);
    DiscardedRest(s, d, k, if n < |d| - k then k + n + 1 else |d|);
  }

  /** What that means for a line begun with `s`, of which `done` has been read already. */
  lemma LineStepped(s: seq<byte>, done: seq<byte>, d: seq<byte>, c: byte, size: nat, found: bool, full: bool,
                    rest: seq<byte>, stored: seq<byte>)
    requires c !in done && BufferedTo(d, Truncated(s + done, size), c, size, found, full, rest, stored)
    ensures
      var p := done + d;
      var n := FirstMarker(p, c);
      if found then n < |p| && rest == p[n + 1..] && stored == Truncated(s + p[..n + 1], size)
      else rest == [] && c !in p && stored == Truncated(s + p, size)
  {
    var n := FirstMarker(d, c);
    ReadOn(done, d, c);
    TakenOn(s, done, d, if found then n + 1 else n, size);
    if !found {
      assert (done + d)[..|done| + n] == done + d;
    }
  }

  function AllTruncated(lines: seq<seq<byte>>, size: nat): seq<seq<byte>> {
    seq(|lines|, i requires 0 <= i < |lines| => Truncated(lines[i], size))
  }

  lemma TruncatedAppended(lines: seq<seq<byte>>, line: seq<byte>, size: nat)
    ensures AllTruncated(lines + [line], size) == AllTruncated(lines, size) + [Truncated(line, size)]
  {
  }

  /** A read that ends with `line` adds to the lines what splitting the stream adds. */
  lemma LineFinished(t: seq<byte>, line: seq<byte>, c: byte, size: nat)
    requires IsLine(line, c)
    ensures AllTruncated(Lines(t + line, c), size)
         == AllTruncated(Lines(t, c), size) + [Truncated(Truncated(Tail(t, c), size) + line, size)]
    ensures Tail(t + line, c) == []
  {
    LinesComplete(t, line, c);
    TruncatedAppended(Lines(t, c), Tail(t, c) + line, size);
    TruncatedTwice(Tail(t, c), line, size);
  }

  /** A read that does not end leaves the lines as they are. */
  lemma LineGoesOn(t: seq<byte>, p: seq<byte>, c: byte, size: nat)
    requires FirstMarker(p, c) >= |p|
    ensures Lines(t + p, c) == Lines(t, c)
    ensures Truncated(Tail(t + p, c), size) == Truncated(Truncated(Tail(t, c), size) + p, size)
  {
    FirstMarkerConcat(p, [], c);
    LinesContinue(t, p, c);
    TruncatedTwice(Tail(t, c), p, size);
  }

  // ---------- Blocks ----------

  /** The complete blocks of a stream. */
  function Blocks(data: seq<byte>, size: nat): seq<seq<byte>>
    requires size > 0
  {
    if |data| < size then [] else [data[..size]] + Blocks(data[size..], size)
  }

  function BlockTail(data: seq<byte>, size: nat): (r: seq<byte>)
    requires size > 0
    ensures |r| < size
  {
    if |data| < size then data else BlockTail(data[size..], size)
  }

  lemma {:induction false} BlocksAreTheStream(data: seq<byte>, size: nat)
    requires size > 0
    ensures Concat(Blocks(data, size)) + BlockTail(data, size) == data
    ensures forall i :: 0 <= i < |Blocks(data, size)| ==> |Blocks(data, size)[i]| == size
  {
    if |data| >= size {
      BlocksAreTheStream(data[size..], size);
      assert data == data[..size] + data[size..];
    }
  }

  /** More data fills the last block, or only makes the tail longer. */
  lemma {:induction false} BlocksAppend(a: seq<byte>, b: seq<byte>, size: nat)
    requires size > 0
    ensures
      var n := size - |BlockTail(a, size)|;
      if n <= |b| then
        Blocks(a + b[..n], size) == Blocks(a, size) + [BlockTail(a, size) + b[..n]] && BlockTail(a + b[..n], size) == []
      else Blocks(a + b, size) == Blocks(a, size) && BlockTail(a + b, size) == BlockTail(a, size) + b
    decreases |a|
  {
    var n := size - |BlockTail(a, size)|;
    var b' := if n <= |b| then b[..n] else b;
    if |a| >= size {
      BlocksAppend(a[size..], b, size);
      assert (a + b')[..size] == a[..size];
      assert (a + b')[size..] == a[size..] + b';
    } else if n <= |b| {
      assert (a + b')[..size] == a + b';
      assert (a + b')[size..] == [];
    }
  }

  // ---------- The protosocket ----------

  datatype SocketState = Unused | Read | BlockedNewData

  class Socket {
    const buf: array<byte>
    /** Where the next byte is stored and how many more fit. */
    var ptr: nat
    var left: nat
    var state: SocketState
    /** The bytes at the read pointer that have not been read yet. */
    var unread: seq<byte>
    /** The thread waits for new data in the middle of a read. */
    var resume: bool
    /** What the reads of the application have returned so far. */
    var results: seq<seq<byte>>
    /** Everything TCP has given to the application so far. */
    ghost var stream: seq<byte>

    constructor (buffer: array<byte>)
      ensures buf == buffer && Valid() && Between()
      ensures results == [] && stream == [] && !resume
    {
      buf := buffer;
      ptr, left := 0, buffer.Length;
      state, unread, resume := Unused, [], false;
      results, stream := [], [];
    }

    ghost predicate Valid()
      reads this
    {
      ptr + left == buf.Length
    }

    /** The filled part of the buffer. */
    function Stored(): seq<byte>
      requires Valid()
      reads this, buf
    {
      buf[..ptr]
    }

    /** The thread has given up control. */
    ghost predicate Between()
      reads this
    {
      buf.Length > 0 ==> unread == [] && state != Read
    }

    /** What is still to be read during this event. */
    ghost function Pending(event: AppEvent): seq<byte>
      reads this
    {
      if state == Read then unread else unread + Given(Some(event))
    }

    method BufSetup()
      modifies this`ptr, this`left
      ensures Valid() && ptr == 0
    {
      ptr, left := 0, buf.Length;
    }

    method NewData(event: AppEvent) returns (ready: bool)
      modifies this`state
      ensures ready == (unread != [] || (old(state) != Read && event.newdata))
      ensures state == if unread == [] && old(state) == Read then BlockedNewData else old(state)
    {
      if |unread| > 0 {
        return true;
      } else if state == Read {
        state := BlockedNewData;
        return false;
      } else if event.newdata {
        return true;
      } else {
        return false;
      }
    }

    /** Stores bytes, up to the end marker or until the buffer is full. */
    method Fill(c: byte) returns (found: bool)
      requires Valid()
      modifies this`ptr, this`left, this`unread, buf
      ensures Valid()
      ensures
        var d, k := old(unread), |old(unread)| - |unread|;
        && 0 <= k <= old(left) && unread == d[k..] && left == old(left) - k
        && Stored() == old(Stored()) + d[..k]
        && if found then k > 0 && FirstMarker(d, c) == k - 1 else c !in d[..k] && (left == 0 || unread == [])
    {
      ghost var d, s, k := unread, Stored(), 0;
      while left > 0 && |unread| > 0
        invariant Valid() && 0 <= k <= |d| && unread == d[k..] && left == old(left) - k
        invariant c !in d[..k] && Stored() == s + d[..k]
        decreases |unread|
      {
        var b := unread[0];
        buf[ptr] := b;
        unread, ptr, left := unread[1..], ptr + 1, left - 1;
        assert d[..k + 1] == d[..k] + [b];
        if b == c {
          FirstMarkerIs(d, c, k);
          return true;
        }
        k := k + 1;
      }
      return false;
    }

    /** Reads up to the end marker; what does not fit is read and thrown away. */
    method BufTo(c: byte) returns (found: bool, full: bool)
      requires Valid()
      modifies this`ptr, this`left, this`unread, buf
      ensures Valid()
      ensures BufferedTo(old(unread), old(Stored()), c, buf.Length, found, full, unread, Stored())
    {
      ghost var d, s := unread, Stored();
      found := Fill(c);
      ghost var k := |d| - |unread|;
      if found {
        BufferedFound(d, s, c, buf.Length, k);
        return true, false;
      }
      if |unread| == 0 {
        assert d[..k] == d;
        BufferedAll(d, s, c, buf.Length);
        return false, false;
      }
      BufferedPast(d, s, c, buf.Length, k);
      found := Discard(c);
      return found, true;
    }

    /** Throws bytes away, up to the end marker. */
    method Discard(c: byte) returns (found: bool)
      modifies this`unread
      ensures
        var n := FirstMarker(old(unread), c);
        && found == (n < |old(unread)|)
        && unread == old(unread)[if found then n + 1 else n..]
    {
      ghost var d, k := unread, 0;
      while |unread| > 0
        invariant 0 <= k <= |d| && unread == d[k..]
        invariant forall j :: 0 <= j < k ==> d[j] != c
        decreases |unread|
      {
        var b := unread[0];
        unread := unread[1..];
        k := k + 1;
        if b == c {
          FirstMarkerIs(d, c, k - 1);
          return true;
        }
      }
      FirstMarkerIs(d, c, |d|);
      return false;
    }

    /** Reads until the buffer is full. */
    method BufData() returns (full: bool)
      requires Valid()
      modifies this`ptr, this`left, this`unread, buf
      ensures Valid()
      ensures
        var used := Min(old(left), |old(unread)|);
        && full == (old(left) <= |old(unread)|)
        && unread == old(unread)[used..]
        && Stored() == old(Stored()) + old(unread)[..used]
    {
      if |unread| < left {
        MemCpy(|unread|);
        ptr, left, unread := ptr + |unread|, left - |unread|, [];
        return false;
      } else if |unread| == left {
        MemCpy(|unread|);
        ptr, left, unread := ptr + |unread|, 0, [];
        return true;
      } else {
        MemCpy(left);
        unread := unread[left..];
        ptr, left := ptr + left, 0;
        return true;
      }
    }

    method MemCpy(n: nat)
      requires Valid() && n <= left && n <= |unread|
      modifies buf
      ensures buf[..ptr + n] == old(buf[..ptr]) + unread[..n]
    {
      for j := 0 to n
        invariant buf[..ptr + j] == old(buf[..ptr]) + unread[..j]
      {
        buf[ptr + j] := unread[j];
      }
    }

    /** In the middle of an event: data at hand has been read in this event, and the wait is for more. */
    ghost predicate Within()
      reads this
    {
      (resume ==> unread == []) && (buf.Length > 0 && state != Read ==> unread == [])
    }

    /** What the read in progress has taken in. */
    ghost function Taken(): seq<byte>
      requires Valid()
      reads this, buf
    {
      if resume then Stored() else []
    }

    /** The wait for new data; goes on with what TCP has for this event. */
    method Await(event: AppEvent) returns (ready: bool)
      requires unread == []
      modifies this`state, this`unread, this`resume
      ensures resume && ready == (old(state) != Read && event.newdata)
      ensures if ready then state == Read && unread == event.data else unread == [] && state != Read
    {
      resume := true;
      ready := NewData(event);
      if ready {
        state, unread := Read, event.data;
      }
    }

    /**
     A line begun with `s` has taken in the bytes `done` of those pending, `p`, without a marker,
     or all up to the first marker.
     */
    ghost predicate LineProgress(event: AppEvent, c: byte, s: seq<byte>, p: seq<byte>, done: seq<byte>, found: bool)
      requires Valid()
      reads this, buf
    {
      buf.Length > 0 ==>
        if found then
          var n := FirstMarker(p, c);
          n < |p| && unread == p[n + 1..] && state == Read && Stored() == Truncated(s + p[..n + 1], buf.Length)
        else p == done + Pending(event) && c !in done && Stored() == Truncated(s + done, buf.Length)
    }

    /** Takes in what is at hand. */
    method LineStep(c: byte, event: AppEvent, ghost s: seq<byte>, ghost p: seq<byte>, ghost done: seq<byte>)
      returns (found: bool, ghost now: seq<byte>)
      requires Valid() && LineProgress(event, c, s, p, done, false) && (buf.Length > 0 ==> state == Read)
      modifies this`ptr, this`left, this`unread, buf
      ensures Valid() && LineProgress(event, c, s, p, now, found)
      ensures !found ==> unread == []
    {
      ghost var d, s0 := unread, Stored();
      now := done + d;
      assert buf.Length > 0 ==> p == now && s0 == Truncated(s + done, buf.Length) && c !in done;
      var full;
      found, full := BufTo(c);
      if buf.Length > 0 {
        LineStepped(s, done, d, c, buf.Length, found, full, unread, Stored());
      }
    }

    /** A line begun with `s` has been read from the pending bytes `p`, up to their first marker or to their end. */
    ghost predicate LineRead(c: byte, s: seq<byte>, p: seq<byte>, ended: bool)
      requires Valid()
      reads this, buf
    {
      var n := FirstMarker(p, c);
      && ended == (n < |p|)
      && Stored() == Truncated(s + (if ended then p[..n + 1] else p), buf.Length)
      && if ended then state == Read && unread == p[n + 1..] else resume && Between()
    }

    /** The loop of the thread. */
    method LineLoop(c: byte, event: AppEvent, ghost s: seq<byte>, ghost p: seq<byte>) returns (found: bool)
      requires Valid() && Within() && LineProgress(event, c, s, p, [], false)
      modifies this`ptr, this`left, this`state, this`unread, this`resume, buf
      ensures Valid() && (!found ==> Within() && Between())
      ensures buf.Length > 0 ==> LineRead(c, s, p, found)
    {
      ghost var done := [];
      var waiting := resume;
      found := false;
      while !found
        invariant Valid() && (!found ==> Within()) && (waiting ==> unread == [])
        invariant LineProgress(event, c, s, p, done, found)
        decreases !found, state != Read, |unread|
      {
        if waiting || |unread| == 0 {
          ghost var rest := Pending(event);
          var ready := Await(event);
          waiting := false;
          if !ready {
            if buf.Length > 0 {
              NoMarker(p, done, rest, c);
              assert Stored() == Truncated(s + p, buf.Length);
            }
            return false;
          }
          assert LineProgress(event, c, s, p, done, false);
        }
        found, done := LineStep(c, event, s, p, done);
      }
    }

    /**
     One call of the thread that reads a line. It ends when the line is complete, and otherwise
     waits for the next event. With a buffer of length zero it never ends but starts again.
     */
    method ReadTo(c: byte, event: AppEvent) returns (ended: bool)
      requires Valid() && Within()
      modifies this`ptr, this`left, this`state, this`unread, this`resume, buf
      ensures Valid() && Within() && (ended ==> !resume) && (!ended ==> Between())
      ensures if buf.Length == 0 then !ended else LineRead(c, old(Taken()), old(Pending(event)), ended)
    {
      ghost var p, s := Pending(event), Taken();
      if !resume {
        BufSetup();
      }
      var found := LineLoop(c, event, s, p);
      if !found {
        return false;
      }
      ghost var line := Stored();
      resume := false;
      assert Stored() == line;
      if ptr == 0 {
        assert buf.Length == 0;
        state := Unused;
        return false;
      }
      return true;
    }

    /** A block begun with `s` has been read from the pending bytes `p`, up to its size or as far as they go. */
    ghost predicate BlockRead(s: seq<byte>, p: seq<byte>, ended: bool)
      requires Valid()
      reads this, buf
    {
      var n := buf.Length - |s|;
      && 0 < n && ended == (n <= |p|)
      && Stored() == s + (if ended then p[..n] else p)
      && if ended then state == Read && unread == p[n..] else resume && Between()
    }

    /** A block begun with `s` has taken in the bytes `done` of those pending, `p`, or all that it can hold. */
    ghost predicate BlockProgress(event: AppEvent, s: seq<byte>, p: seq<byte>, done: seq<byte>, full: bool)
      requires Valid()
      reads this, buf
    {
      buf.Length > 0 ==>
        && |s| < buf.Length
        && if full then BlockRead(s, p, true)
           else p == done + Pending(event) && Stored() == s + done && |s + done| < buf.Length
    }

    method BlockStep(event: AppEvent, ghost s: seq<byte>, ghost p: seq<byte>, ghost done: seq<byte>)
      returns (full: bool, ghost now: seq<byte>)
      requires Valid() && BlockProgress(event, s, p, done, false) && (buf.Length > 0 ==> state == Read)
      modifies this`ptr, this`left, this`unread, buf
      ensures Valid() && BlockProgress(event, s, p, now, full)
      ensures !full ==> unread == []
    {
      ghost var d, n := unread, left;
      full := BufData();
      now := done + d;
      if buf.Length > 0 {
        assert |s + done| + n == buf.Length;
        if full {
          assert p[..|done| + n] == done + d[..n];
          assert s + done + d[..n] == s + (done + d[..n]);
        } else {
          assert s + done + d[..|d|] == s + (done + d);
        }
      }
    }

    method BlockLoop(event: AppEvent, ghost s: seq<byte>, ghost p: seq<byte>) returns (full: bool)
      requires Valid() && Within() && BlockProgress(event, s, p, [], false)
      modifies this`ptr, this`left, this`state, this`unread, this`resume, buf
      ensures Valid() && (!full ==> Within() && Between())
      ensures buf.Length > 0 ==> BlockRead(s, p, full)
    {
      ghost var done := [];
      var waiting := resume;
      full := false;
      while !full
        invariant Valid() && (!full ==> Within()) && (waiting ==> unread == [])
        invariant BlockProgress(event, s, p, done, full)
        decreases !full, state != Read, |unread|
      {
        if waiting || |unread| == 0 {
          ghost var rest := Pending(event);
          var ready := Await(event);
          waiting := false;
          if !ready {
            assert buf.Length > 0 ==> rest == [] && p == done;
            return false;
          }
          assert BlockProgress(event, s, p, done, false);
        }
        full, done := BlockStep(event, s, p, done);
      }
    }

    /** One call of the thread that reads a block. It ends when the buffer is full. */
    method ReadBuf(event: AppEvent) returns (ended: bool)
      requires Valid() && Within() && (buf.Length > 0 ==> |Taken()| < buf.Length)
      modifies this`ptr, this`left, this`state, this`unread, this`resume, buf
      ensures Valid() && Within() && (ended ==> !resume) && (!ended ==> Between())
      ensures if buf.Length == 0 then !ended else BlockRead(old(Taken()), old(Pending(event)), ended)
    {
      ghost var p, s := Pending(event), Taken();
      if !resume {
        BufSetup();
      }
      var full := BlockLoop(event, s, p);
      if !full {
        return false;
      }
      ghost var block := Stored();
      resume := false;
      assert Stored() == block;
      if ptr == 0 {
        assert buf.Length == 0;
        state := Unused;
        return false;
      }
      return true;
    }

    // ---------- Threads that only read ----------

    /** The lines read so far are those of the stream so far, each cut to the size of the buffer. */
    ghost predicate LinesInv(c: byte)
      requires Valid()
      reads this, buf
    {
      if buf.Length == 0 then results == []
      else
        && results == AllTruncated(Lines(stream, c), buf.Length)
        && Taken() == Truncated(Tail(stream, c), buf.Length)
    }

    /** With a buffer of length zero a restarted read can be left with bytes that the next event overwrites. */
    method Overwritten()
      modifies this`unread
      ensures |unread| == |old(unread)|
    {
      var n := |unread|;
      assert |unread| == n;
      var stale: seq<byte> :| |stale| == n;
      unread := stale;
    }

    /** The application takes the line over. */
    method KeepLine(c: byte, ghost p: seq<byte>)
      requires Valid() && buf.Length > 0 && !resume
      requires results == AllTruncated(Lines(stream, c), buf.Length)
      requires LineRead(c, Truncated(Tail(stream, c), buf.Length), p, true)
      modifies this`results, this`stream
      ensures LinesInv(c) && stream + unread == old(stream) + p && |unread| < |p|
    {
      ghost var n := FirstMarker(p, c);
      FirstLine(p, c);
      LineFinished(stream, p[..n + 1], c, buf.Length);
      assert p == p[..n + 1] + p[n + 1..];
      AppendTwice(stream, p[..n + 1], p[n + 1..]);
      stream := stream + p[..n + 1];
      results := results + [buf[..ptr]];
    }

    /** The line goes on with the next event. */
    ghost method AwaitLine(c: byte, p: seq<byte>)
      requires Valid() && buf.Length > 0
      requires results == AllTruncated(Lines(stream, c), buf.Length)
      requires LineRead(c, Truncated(Tail(stream, c), buf.Length), p, false)
      modifies this`stream
      ensures LinesInv(c) && stream == old(stream) + p
    {
      LineGoesOn(stream, p, c, buf.Length);
      stream := stream + p;
    }

    /** One read by a thread that reads lines; the event will have brought the stream to `goal`. */
    method NextLine(c: byte, event: AppEvent, ghost goal: seq<byte>) returns (ended: bool)
      requires Valid() && Within() && LinesInv(c)
      requires buf.Length > 0 ==> goal == stream + Pending(event)
      modifies this, buf
      ensures Valid() && Within() && LinesInv(c)
      ensures !ended ==> Between() && (buf.Length > 0 ==> goal == stream)
      ensures ended ==> buf.Length > 0 && goal == stream + Pending(event) && |Pending(event)| < |old(Pending(event))|
    {
      ghost var p := Pending(event);
      ended := ReadTo(c, event);
      if ended {
        KeepLine(c, p);
      } else if buf.Length > 0 {
        AwaitLine(c, p);
      }
    }

    /** What an event does to a thread that does nothing but read lines. */
    method ReadLines(c: byte, event: AppEvent)
      requires Valid() && Between() && (resume ==> unread == []) && LinesInv(c)
      modifies this, buf
      ensures Valid() && Between() && (resume ==> unread == []) && LinesInv(c)
      ensures stream == old(stream) + Given(Some(event))
    {
      Overwritten();
      ghost var goal := stream + Given(Some(event));
      var ended := NextLine(c, event, goal);
      while ended
        invariant Valid() && Within() && LinesInv(c)
        invariant if ended then buf.Length > 0 && goal == stream + Pending(event)
          else Between() && (buf.Length > 0 ==> goal == stream)
        decreases ended, |Pending(event)|
      {
        ended := NextLine(c, event, goal);
      }
      stream := goal;
    }

    /** The blocks read so far are those of the stream so far. */
    ghost predicate BlocksInv()
      requires Valid()
      reads this, buf
    {
      if buf.Length == 0 then results == []
      else results == Blocks(stream, buf.Length) && Taken() == BlockTail(stream, buf.Length)
    }

    /** The application takes the block over. */
    method KeepBlock(ghost p: seq<byte>)
      requires Valid() && buf.Length > 0 && !resume
      requires results == Blocks(stream, buf.Length) && BlockRead(BlockTail(stream, buf.Length), p, true)
      modifies this`results, this`stream
      ensures BlocksInv() && stream + unread == old(stream) + p && |unread| < |p|
    {
      ghost var n := buf.Length - |BlockTail(stream, buf.Length)|;
      BlocksAppend(stream, p, buf.Length);
      assert p == p[..n] + p[n..];
      stream := stream + p[..n];
      results := results + [buf[..ptr]];
    }

    /** The block goes on with the next event. */
    ghost method AwaitBlock(p: seq<byte>)
      requires Valid() && buf.Length > 0
      requires results == Blocks(stream, buf.Length) && BlockRead(BlockTail(stream, buf.Length), p, false)
      modifies this`stream
      ensures BlocksInv() && stream == old(stream) + p
    {
      BlocksAppend(stream, p, buf.Length);
      stream := stream + p;
    }

    /** One read by a thread that reads blocks; the event will have brought the stream to `goal`. */
    method NextBlock(event: AppEvent, ghost goal: seq<byte>) returns (ended: bool)
      requires Valid() && Within() && BlocksInv()
      requires buf.Length > 0 ==> goal == stream + Pending(event)
      modifies this, buf
      ensures Valid() && Within() && BlocksInv()
      ensures !ended ==> Between() && (buf.Length > 0 ==> goal == stream)
      ensures ended ==> buf.Length > 0 && goal == stream + Pending(event) && |Pending(event)| < |old(Pending(event))|
    {
      ghost var p := Pending(event);
      ended := ReadBuf(event);
      if ended {
        KeepBlock(p);
      } else if buf.Length > 0 {
        AwaitBlock(p);
      }
    }

    /** What an event does to a thread that does nothing but read blocks. */
    method ReadBlocks(event: AppEvent)
      requires Valid() && Between() && (resume ==> unread == []) && BlocksInv()
      modifies this, buf
      ensures Valid() && Between() && (resume ==> unread == []) && BlocksInv()
      ensures stream == old(stream) + Given(Some(event))
    {
      Overwritten();
      ghost var goal := stream + Given(Some(event));
      var ended := NextBlock(event, goal);
      while ended
        invariant Valid() && Within() && BlocksInv()
        invariant if ended then buf.Length > 0 && goal == stream + Pending(event)
          else Between() && (buf.Length > 0 ==> goal == stream)
        decreases ended, |Pending(event)|
      {
        ended := NextBlock(event, goal);
      }
      stream := goal;
    }
  }

  // ---------- Over the network ----------

  lemma TruncatedPrefix(a: seq<seq<byte>>, b: seq<seq<byte>>, size: nat)
    requires a <= b
    ensures AllTruncated(a, size) <= AllTruncated(b, size)
  {
  }

  /**
   A thread that reads lines at one end of a connection gets the first lines of what the other
   end has sent, however the network and the sender have cut it into segments.
   */
  lemma LinesAreDelivered(states: seq<Net>, c: byte, size: nat)
    requires Run(states) && forall g :: g in states ==> Small(g)
    ensures
      var g := states[|states| - 1];
      AllTruncated(Lines(g.b.delivered, c), size) <= AllTruncated(Lines(g.a.out, c), size)
  {
    DeliveryIsFaithful(states);
    var g := states[|states| - 1];
    LinesGrow(g.b.delivered, g.a.out, c);
    TruncatedPrefix(Lines(g.b.delivered, c), Lines(g.a.out, c), size);
  }
}
