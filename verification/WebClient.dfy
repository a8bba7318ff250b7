/**
 The sending side of the HTTP client: one request, cut into segments by the TCP engine. The
 client keeps no copy of it; it builds the request anew for every answer it gives.
 */
module WebClient {
  import opened Bytes
  import opened Tcp
  import opened UipOpt

  const WEBCLIENT_TIMEOUT := 100

  function Text(s: string): (b: seq<byte>)
    ensures |b| == |s|
  {
    seq(|s|, i requires 0 <= i < |s| => s[i] as int % 0x100)
  }

  const HTTP_GET: seq<byte> := Text("GET ")
  const HTTP_10: seq<byte> := Text("HTTP/1.0")
  const HTTP_CRNL: seq<byte> := Text("\r\n")
  const HTTP_HOST: seq<byte> := Text("host: ")
  const HTTP_USER_AGENT_FIELDS: seq<byte> :=
    Text("Connection: close\r\nUser-Agent: uIP/1.0 (; http://www.sics.se/~adam/uip/)\r\n\r\n")
  const ISO_SPACE: byte := 0x20

  function Request(file: seq<byte>, host: seq<byte>): seq<byte> {
    HTTP_GET + file + [ISO_SPACE] + HTTP_10 + HTTP_CRNL
    + HTTP_HOST + host + HTTP_CRNL + HTTP_USER_AGENT_FIELDS
  }

  lemma TextConcat(a: string, b: string, c: string, d: string, e: string, f: string)
    ensures Text(a + b + c + d + e + f) == Text(a) + Text(b) + Text(c) + Text(d) + Text(e) + Text(f)
  {
  }

  lemma TextPair(a: string, b: string)
    ensures Text(a + b) == Text(a) + Text(b)
  {
  }

  lemma Grouped(a: seq<byte>, b: seq<byte>, c: seq<byte>, d: seq<byte>, e: seq<byte>, f: seq<byte>, g: seq<byte>,
                h: seq<byte>, i: seq<byte>)
    ensures a + b + c + d + e + f + g + h + i == a + b + (c + d + e) + f + g + (h + i)
  {
  }

  const LAST_LINES := "Connection: close\r\nUser-Agent: uIP/1.0 (; http://www.sics.se/~adam/uip/)\r\n\r\n"

  /** The request as it is read. */
  lemma RequestReads(file: string, host: string)
    ensures Request(Text(file), Text(host))
         == Text("GET " + file + " HTTP/1.0\r\n" + "host: " + host + ("\r\n" + LAST_LINES))
  {
    Grouped(HTTP_GET, Text(file), [ISO_SPACE], HTTP_10, HTTP_CRNL, HTTP_HOST, Text(host), HTTP_CRNL,
            HTTP_USER_AGENT_FIELDS);
    TextConcat("GET ", file, " HTTP/1.0\r\n", "host: ", host, "\r\n" + LAST_LINES);
    TextPair("\r\n", LAST_LINES);
    assert Text(" HTTP/1.0\r\n") == [ISO_SPACE] + HTTP_10 + HTTP_CRNL;
  }

  datatype Phase = StatusLine | Headers | Data | Close

  /** What reading the response makes of the client: it may go on, be closed by its user, or abort. */
  datatype Parsed = Goes(phase: Phase) | Aborts

  /** `ptr` bytes of the request have been acknowledged and `left` bytes have not. */
  datatype Client = Client(phase: Phase, timer: byte, ptr: u16, left: u16)

  /** The bytes of the request that are due, and how many of them fit a segment. */
  function ChunkLen(w: Client, mss: u16): u16 {
    if w.left > mss then mss else w.left
  }

  function Silent(): AppReply {
    AppReply(Action.Continue, 0, seq(UIP_TCP_MSS, _ => 0))
  }

  predicate Quits(r: AppReply) {
    r == Silent().(action := Action.Abort)
  }

  /** The answer carries the due bytes of the request, at the front of its buffer. */
  predicate SendsChunk(w: Client, mss: u16, request: seq<byte>, r: AppReply) {
    && r.Valid() && r.action == Action.Continue
    && r.slen == ChunkLen(w, mss)
    && w.ptr + r.slen <= |request|
    && (r.slen <= UIP_TCP_MSS ==> r.buffer[..r.slen] == request[w.ptr..w.ptr + r.slen])
  }

  function Acked(w: Client, mss: u16): Client
    requires w.ptr + w.left < 0x1_0000
  {
    w.(ptr := w.ptr + ChunkLen(w, mss), left := w.left - ChunkLen(w, mss))
  }

  datatype Disposition = Nothing | Chunk | Quit

  /** The client after an event, when `mss` is the current segment size, and the kind of its answer. */
  function Handle(w: Client, event: AppEvent, mss: u16, parsed: Parsed): (Client, Disposition)
    requires w.ptr + w.left < 0x1_0000
  {
    if event.connected then (w.(timer := 0, phase := StatusLine), Chunk)
    else if w.phase.Close? then (w, Quit)
    else
      var w1 := if event.acked then Acked(w, mss).(timer := 0) else w;
      if event.newdata && parsed.Aborts? then (w1.(timer := 0), Quit)
      else if event.newdata then (w1.(timer := 0, phase := parsed.phase), Chunk)
      else if event.rexmit || event.acked then (w1, Chunk)
      else if event.poll then
        var timer := (w.timer + 1) % 256;
        (w.(timer := timer), if timer == WEBCLIENT_TIMEOUT then Quit else Nothing)
      else (w, Nothing)
  }

  predicate Answers(w: Client, event: AppEvent, mss: u16, parsed: Parsed, request: seq<byte>, w': Client, r: AppReply)
    requires w.ptr + w.left < 0x1_0000
  {
    var (after, disposition) := Handle(w, event, mss, parsed);
    && w' == after
    && match disposition
       case Nothing => r == Silent()
       case Chunk => SendsChunk(after, mss, request, r)
       case Quit => Quits(r)
  }

  /** The events that call for data, unless the connection is to be given up. */
  predicate CallsForData(w: Client, event: AppEvent, parsed: Parsed) {
    || event.connected
    || (w.phase != Phase.Close && (event.rexmit || event.acked || event.newdata)
        && !(event.newdata && parsed.Aborts?))
  }

  /** A segment of the request, from the first byte that has not been acknowledged on, is sent with each of them. */
  lemma DuePieceIsSent(w: Client, event: AppEvent, mss: u16, parsed: Parsed, request: seq<byte>,
                       w': Client, r: AppReply)
    requires w.ptr + w.left == |request| < 0x1_0000 && mss <= UIP_TCP_MSS
    requires CallsForData(w, event, parsed) && Answers(w, event, mss, parsed, request, w', r)
    ensures
      var done := if event.acked && !event.connected then Min(w.left, mss) else 0;
      var n := Min(w.left - done, mss);
      && w'.ptr == w.ptr + done && w'.left == w.left - done
      && r.Valid() && r.action == Action.Continue && r.slen == n
      && r.buffer[..n] == request[w'.ptr..w'.ptr + n]
  {
  }

  /** Without them the client only waits, and gives up with the 100th poll in a row. */
  lemma WaitingEnds(w: Client, event: AppEvent, mss: u16, parsed: Parsed, request: seq<byte>, w': Client, r: AppReply)
    requires w.ptr + w.left == |request| < 0x1_0000
    requires !CallsForData(w, event, parsed) && Answers(w, event, mss, parsed, request, w', r)
    ensures r.slen == 0 && r.action != Action.Close
    ensures r.action == Action.Abort <==>
      || w.phase == Phase.Close
      || (event.newdata && parsed.Aborts?)
      || (event.poll && w.timer == 99)
    ensures w.phase != Phase.Close && !event.newdata && event.poll ==> w'.timer == (w.timer + 1) % 256
  {
  }

  class WebClient {
    const file: seq<byte>
    const host: seq<byte>
    /** The data part of the packet buffer, where the engine takes what is to be sent. */
    const appData: array<byte>
    var phase: Phase
    var timer: byte
    var getRequestPtr: u16
    var getRequestLeft: u16

    constructor (file: seq<byte>, host: seq<byte>, appData: array<byte>)
      requires |file| < 100 && |host| < 40 && appData.Length == UIP_TCP_MSS
      ensures this.file == file && this.host == host && this.appData == appData
      ensures Valid() && View().ptr == 0 && View().left == |Request(file, host)|
    {
      this.file, this.host, this.appData := file, host, appData;
      timer := 0;
      phase, getRequestPtr, getRequestLeft := StatusLine, 0, 0;
      new;
      InitConnection();
    }

    function View(): Client
      reads this
    {
      Client(phase, timer, getRequestPtr, getRequestLeft)
    }

    /** Together, the acknowledged and the remaining bytes are the request. */
    ghost predicate Valid()
      reads this
    {
      && |file| < 100 && |host| < 40 && appData.Length == UIP_TCP_MSS
      && getRequestPtr + getRequestLeft == |Request(file, host)|
    }

    /** The length is predicted from the parts, without building the request. */
    method InitConnection()
      requires |file| < 100 && |host| < 40 && appData.Length == UIP_TCP_MSS
      modifies this`phase, this`getRequestLeft, this`getRequestPtr
      ensures Valid() && phase == StatusLine && getRequestPtr == 0
      ensures getRequestLeft == |Request(file, host)| < 0x100
    {
      phase := StatusLine;
      getRequestLeft := |HTTP_GET| + 1 + |HTTP_10| + |HTTP_CRNL| + |HTTP_HOST| + |HTTP_CRNL|
        + |HTTP_USER_AGENT_FIELDS| + |file| + |host|;
      getRequestPtr := 0;
    }

    method AckedBytes(mss: u16)
      requires getRequestPtr + getRequestLeft < 0x1_0000
      modifies this`getRequestPtr, this`getRequestLeft
      ensures View() == Acked(old(View()), mss)
    {
      if getRequestLeft > 0 {
        var len := if getRequestLeft > mss then mss else getRequestLeft;
        getRequestLeft := getRequestLeft - len;
        getRequestPtr := getRequestPtr + len;
      }
    }

    /** Copies a string into the packet buffer; the answer is the place after it. */
    method CopyString(dest: nat, src: seq<byte>) returns (next: nat)
      requires dest + |src| <= appData.Length
      modifies appData
      ensures next == dest + |src|
      ensures appData[..next] == old(appData[..dest]) + src
    {
      for j := 0 to |src|
        invariant appData[..dest + j] == old(appData[..dest]) + src[..j]
      {
        appData[dest + j] := src[j];
        assert appData[..dest + j + 1] == appData[..dest + j] + [src[j]];
      }
      next := dest + |src|;
    }

    /** Two more strings. */
    method CopyTwo(dest: nat, a: seq<byte>, b: seq<byte>) returns (next: nat)
      requires dest + |a| + |b| <= appData.Length
      modifies appData
      ensures next == dest + |a| + |b|
      ensures appData[..next] == old(appData[..dest]) + a + b
    {
      next := CopyString(dest, a);
      next := CopyString(next, b);
    }

    /** The request from the strings it is made of. */
    method BuildFrom(get: seq<byte>, version: seq<byte>, crnl: seq<byte>, hostField: seq<byte>, fields: seq<byte>)
      requires |get| + |file| + 1 + |version| + |crnl| + |hostField| + |host| + |crnl| + |fields| <= appData.Length
      modifies appData
      ensures
        var built := get + file + [ISO_SPACE] + version + crnl + hostField + host + crnl + fields;
        appData[..|built|] == built
    {
      var next := CopyTwo(0, get, file);
      assert appData[..next] == get + file;
      next := CopyTwo(next, [ISO_SPACE], version);
      assert appData[..next] == get + file + [ISO_SPACE] + version;
      next := CopyTwo(next, crnl, hostField);
      assert appData[..next] == get + file + [ISO_SPACE] + version + crnl + hostField;
      next := CopyTwo(next, host, crnl);
      next := CopyString(next, fields);
    }

    /** Builds the request in the packet buffer. */
    method BuildRequest()
      requires Valid()
      modifies appData
      ensures |Request(file, host)| <= appData.Length
      ensures appData[..|Request(file, host)|] == Request(file, host)
    {
      assert |HTTP_GET| + 1 + |HTTP_10| + |HTTP_CRNL| + |HTTP_HOST| + |HTTP_CRNL| + |HTTP_USER_AGENT_FIELDS| < 110;
      BuildFrom(HTTP_GET, HTTP_10, HTTP_CRNL, HTTP_HOST, HTTP_USER_AGENT_FIELDS);
    }

    /** Moves `len` bytes within the packet buffer to its front, unless they are there. */
    method UipSend(from: nat, len: nat)
      requires from + len <= appData.Length
      modifies appData
      ensures appData[..len] == old(appData[from..from + len])
    {
      if from != 0 {
        for j := 0 to len
          invariant forall k :: 0 <= k < j ==> appData[k] == old(appData[from + k])
          invariant forall k :: j <= k < appData.Length ==> appData[k] == old(appData[k])
        {
          appData[j] := appData[from + j];
        }
      }
    }

    /** Builds the request in the packet buffer and moves the due part to its front. */
    method SendData(mss: u16) returns (r: AppReply)
      requires Valid()
      modifies appData
      ensures SendsChunk(View(), mss, Request(file, host), r)
    {
      r := Silent();
      if getRequestLeft > 0 {
        BuildRequest();
        var len := if getRequestLeft > mss then mss else getRequestLeft;
        r := SendFrom(getRequestPtr, len, Request(file, host));
      }
    }

    /** Hands over a piece of the request that has been built. */
    method SendFrom(ptr: u16, len: u16, ghost request: seq<byte>) returns (r: AppReply)
      requires ptr + len <= |request| <= appData.Length == UIP_TCP_MSS && appData[..|request|] == request
      modifies appData
      ensures r.Valid() && r.action == Action.Continue && r.slen == len
      ensures r.buffer[..len] == request[ptr..ptr + len]
    {
      assert appData[ptr..ptr + len] == request[ptr..ptr + len] by {
        assert forall k :: ptr <= k < ptr + len ==> appData[k] == appData[..|request|][k] == request[k];
      }
      UipSend(ptr, len);
      r := AppReply(Action.Continue, len, appData[..]);
      assert r.buffer[..len] == appData[..len];
    }

    /** What the event does to the client; the answer is left to the caller. */
    method HandleEvent(event: AppEvent, mss: u16, parsed: Parsed) returns (disposition: Disposition)
      requires getRequestPtr + getRequestLeft < 0x1_0000
      modifies this`phase, this`timer, this`getRequestPtr, this`getRequestLeft
      ensures (View(), disposition) == Handle(old(View()), event, mss, parsed)
      ensures getRequestPtr + getRequestLeft == old(getRequestPtr + getRequestLeft)
    {
      if event.connected {
        timer := 0;
        phase := StatusLine;
        return Chunk;
      }
      if phase.Close? {
        return Quit;
      }
      if event.acked {
        timer := 0;
        AckedBytes(mss);
      }
      if event.newdata {
        timer := 0;
        if parsed.Aborts? {
          return Quit;
        }
        phase := parsed.phase;
      }
      if event.rexmit || event.newdata || event.acked {
        return Chunk;
      }
      if event.poll {
        timer := (timer + 1) % 256;
        if timer == WEBCLIENT_TIMEOUT {
          return Quit;
        }
      }
      return Nothing;
    }

    method AppCall(event: AppEvent, mss: u16, parsed: Parsed) returns (r: AppReply)
      requires Valid()
      modifies this`phase, this`timer, this`getRequestPtr, this`getRequestLeft, appData
      ensures Valid()
      ensures Answers(old(View()), event, mss, parsed, Request(file, host), View(), r)
      // What is repeated is what has not been acknowledged.
      ensures
        var w, request := old(View()), Request(file, host);
        event == QUIET.(rexmit := true) && w.phase != Phase.Close && mss <= UIP_TCP_MSS ==>
          && View() == w && r.action == Action.Continue && r.slen == Min(w.left, mss)
          && r.buffer[..r.slen] == request[w.ptr..w.ptr + r.slen]
    {
      var disposition := HandleEvent(event, mss, parsed);
      match disposition
      case Nothing => r := Silent();
      case Quit => r := Silent().(action := Action.Abort);
      case Chunk => r := SendData(mss);
    }
  }
}
