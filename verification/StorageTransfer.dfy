/** File transfers to a card: 512-byte requests from one processor, served in 256-byte exchanges by the other. */
module StorageTransfer {
  import opened Machine

  const IO_CHUNK: u32 := 512
  const PORT_CHUNK: u32 := 256
  const READY_ATTEMPTS: u32 := 128

  type s32 = x: int | -0x8000_0000 <= x < 0x8000_0000

  /** One poll for readiness: a failed exchange, not yet, or ready. */
  datatype Poll = PollFailed | NotReady | Ready

  /** Everything the card does in answer to one request. */
  datatype Answer = Answer(
    header: bool,            // the header exchange succeeds and is accepted
    polls: nat -> Poll,      // what each poll before a write finds
    exchange: nat -> bool,   // whether the data exchange starting at this offset succeeds
    payload: nat -> byte,    // the bytes a read sends
    footer: bool,            // the footer exchange succeeds
    count: s32)              // the count in the footer

  /** The link to the card: what the transport and the card do for the n-th request. */
  datatype Link = Link(present: bool, fd: int, transport: nat -> int, answers: nat -> Answer)

  /** The C conversion of an unsigned count to `int`. */
  function AsInt(n: nat): (r: int)
    requires n < TWO32
  {
    if n < 0x8000_0000 then n else n - 0x1_0000_0000
  }

  // ---------------------------------------------------------------- one request, on the I/O processor

  /** Do all data exchanges from `offset` to `size` succeed? */
  predicate Exchanged(a: Answer, offset: nat, size: nat)
    decreases size - offset
  {
    offset >= size || (a.exchange(offset) && Exchanged(a, offset + PORT_CHUNK, size))
  }

  /** The polls of a write, from poll `n` on: 0 when ready, else the error. */
  function Polled(a: Answer, n: nat): (r: int)
    ensures r == 0 || r == -3 || r == -4
    decreases READY_ATTEMPTS - n
  {
    if n >= READY_ATTEMPTS then -4
    else match a.polls(n)
      case PollFailed => -3
      case Ready => 0
      case NotReady => Polled(a, n + 1)
  }

  /** The answer to a read of `size` bytes: an error, or how many of the bytes sent count. */
  function ReadReply(a: Answer, fd: int, size: nat): (r: int)
    ensures r <= size
  {
    if size > IO_CHUNK || fd < 0 || fd > 255 then -1
    else if !a.header then -2
    else if !Exchanged(a, 0, size) then -3
    else if !a.footer then -4
    else if a.count < 0 then -5
    else Min(a.count, size)
  }

  function WriteReply(a: Answer, fd: int, size: nat): (r: int)
    ensures r <= size
  {
    if size > IO_CHUNK || fd < 0 || fd > 255 then -1
    else if !a.header then -2
    else if Polled(a, 0) != 0 then Polled(a, 0)
    else if !Exchanged(a, 0, size) then -5
    else if !a.footer then -6
    else if a.count < 0 then -7
    else Min(a.count, size)
  }

  method BackendRead(a: Answer, fd: int, data: array<byte>, size: u32) returns (result: int)
    requires data.Length == IO_CHUNK
    modifies data
    ensures result == ReadReply(a, fd, size)
    ensures result >= 0 ==> forall k :: 0 <= k < size ==> data[k] == a.payload(k)
  {
    if size > IO_CHUNK || fd < 0 || fd > 255 {
      return -1;
    }
    if !a.header {
      return -2;
    }
    var offset: u32 := 0;
    while offset < size
      invariant offset <= size && Exchanged(a, 0, size) == Exchanged(a, offset, size)
      invariant forall k :: 0 <= k < offset ==> data[k] == a.payload(k)
      decreases size - offset
    {
      var chunk: u32 := size - offset;
      if chunk > PORT_CHUNK {
        chunk := PORT_CHUNK;
      }
      if !a.exchange(offset) {
        return -3;
      }
      Receive(a, data, offset, chunk);
      offset := offset + chunk;
    }
    if !a.footer {
      return -4;
    }
    if a.count < 0 {
      return -5;
    }
    return if a.count > size then size else a.count;
  }

  /** One exchange puts the card's next bytes into the buffer. */
  method Receive(a: Answer, data: array<byte>, offset: nat, chunk: nat)
    requires offset + chunk <= data.Length
    modifies data
    ensures forall k :: 0 <= k < data.Length ==>
              data[k] == if offset <= k < offset + chunk then a.payload(k) else old(data[k])
  {
    forall k | offset <= k < offset + chunk {
      data[k] := a.payload(k);
    }
  }

  /** `data` is what the request carries; `sent` is what went over the wire. */
  method BackendWrite(a: Answer, fd: int, data: seq<byte>, size: u32) returns (result: int, ghost sent: seq<byte>)
    requires |data| == IO_CHUNK
    ensures result == WriteReply(a, fd, size)
    ensures result >= 0 ==> size <= IO_CHUNK && sent == data[..size]
  {
    sent := [];
    if size > IO_CHUNK || fd < 0 || fd > 255 {
      return -1, sent;
    }
    if !a.header {
      return -2, sent;
    }
    var attempts: u32 := 0;
    while attempts < READY_ATTEMPTS
      invariant attempts <= READY_ATTEMPTS && Polled(a, 0) == Polled(a, attempts)
      decreases READY_ATTEMPTS - attempts
    {
      var poll := a.polls(attempts);
      if poll.PollFailed? {
        return -3, sent;
      }
      if poll.Ready? {
        break;
      }
      attempts := attempts + 1;
    }
    if attempts == READY_ATTEMPTS {
      return -4, sent;
    }
    var offset: u32 := 0;
    while offset < size
      invariant offset <= size && Exchanged(a, 0, size) == Exchanged(a, offset, size)
      invariant sent == data[..offset]
      decreases size - offset
    {
      var chunk: u32 := size - offset;
      if chunk > PORT_CHUNK {
        chunk := PORT_CHUNK;
      }
      if !a.exchange(offset) {
        return -5, sent;
      }
      sent := sent + data[offset..offset + chunk];
      offset := offset + chunk;
    }
    if !a.footer {
      return -6, sent;
    }
    if a.count < 0 {
      return -7, sent;
    }
    return if a.count > size then size else a.count, sent;
  }

  // ---------------------------------------------------------------- a whole transfer

  /** The reply to the n-th request of a transfer: negative for an error, else the bytes read or accepted. */
  function Reply(link: Link, write: bool, n: nat, chunk: nat): (r: int)
    ensures r <= chunk
  {
    if link.transport(n) < 0 then link.transport(n)
    else if !link.present then -1
    else if write then WriteReply(link.answers(n), link.fd, chunk)
    else ReadReply(link.answers(n), link.fd, chunk)
  }

  function Chunk(left: nat): (chunk: nat) {
    Min(left, IO_CHUNK)
  }

  /** How many bytes a transfer of `left` bytes moves, from request `n` on: full chunks, then at most one short one. */
  function Moved(link: Link, write: bool, n: nat, left: nat): (done: nat)
    ensures done <= left
    decreases left
  {
    if left == 0 then 0 else
    var reply := Reply(link, write, n, Chunk(left));
    if reply <= 0 then 0
    else if reply < Chunk(left) then reply
    else reply + Moved(link, write, n + 1, left - reply)
  }

  /** The first `reply` bytes that the card sends for a request. */
  function Sent(link: Link, n: nat, reply: nat): (bytes: seq<byte>)
    ensures |bytes| == reply
  {
    seq<byte>(reply, k requires 0 <= k < reply => link.answers(n).payload(k))
  }

  /** The bytes a read transfer brings. */
  function Fetched(link: Link, n: nat, left: nat): (bytes: seq<byte>)
    ensures |bytes| == Moved(link, false, n, left)
    decreases left
  {
    if left == 0 then [] else
    var reply := Reply(link, false, n, Chunk(left));
    if reply <= 0 then []
    else if reply < Chunk(left) then Sent(link, n, reply)
    else Sent(link, n, reply) + Fetched(link, n + 1, left - reply)
  }

  /** What the caller is told: the error of a first request that failed, else how much was moved. */
  function Told(link: Link, write: bool, n: nat, size: nat): (r: int)
    requires size < TWO32
  {
    if size > 0 && Reply(link, write, n, Chunk(size)) < 0 then Reply(link, write, n, Chunk(size))
    else AsInt(Moved(link, write, n, size))
  }

  /** Between requests: `prefix` has arrived, and the rest is what the requests from `n` on will bring. */
  ghost predicate Halfway(link: Link, first: nat, n: nat, size: nat, prefix: seq<byte>) {
    && |prefix| <= size && Fetched(link, first, size) == prefix + Fetched(link, n, size - |prefix|)
    && (if prefix == [] then n == first else Reply(link, false, first, Chunk(size)) >= 0)
  }

  lemma FullChunk(link: Link, first: nat, n: nat, size: nat, prefix: seq<byte>, reply: nat)
    requires Halfway(link, first, n, size, prefix) && |prefix| < size
    requires reply == Reply(link, false, n, Chunk(size - |prefix|)) == Chunk(size - |prefix|)
    ensures Halfway(link, first, n + 1, size, prefix + Sent(link, n, reply))
  {
    var bytes, rest := Sent(link, n, reply), Fetched(link, n + 1, size - |prefix| - reply);
    assert prefix + (bytes + rest) == (prefix + bytes) + rest;
  }

  /** The same for a write, of which `done` bytes are acknowledged. */
  ghost predicate Midway(link: Link, first: nat, n: nat, size: nat, done: nat) {
    && done <= size && Moved(link, true, first, size) == done + Moved(link, true, n, size - done)
    && (if done == 0 then n == first else Reply(link, true, first, Chunk(size)) >= 0)
  }

  lemma FullWrite(link: Link, first: nat, n: nat, size: nat, done: nat, reply: nat)
    requires Midway(link, first, n, size, done) && done < size
    requires reply == Reply(link, true, n, Chunk(size - done)) == Chunk(size - done)
    ensures Midway(link, first, n + 1, size, done + reply)
  {
  }

  /** How the first request was answered, as far as a transfer of `moved` bytes that ended with `status` tells. */
  ghost predicate Heard(link: Link, write: bool, first: nat, size: nat, moved: nat, status: int) {
    if size == 0 then status >= 0
    else if moved == 0 && status < 0 then Reply(link, write, first, Chunk(size)) == status
    else Reply(link, write, first, Chunk(size)) >= 0
  }

  lemma ToldIs(link: Link, write: bool, first: nat, size: nat, moved: nat, status: int)
    requires size < TWO32 && moved == Moved(link, write, first, size) && Heard(link, write, first, size, moved, status)
    ensures Told(link, write, first, size) == if moved == 0 && status < 0 then status else AsInt(moved)
  {
  }

  /** One round of a read: a whole chunk and the transfer goes on; anything else ends it. */
  ghost predicate ReadRound(link: Link, first: nat, n: nat, size: nat, status: int, arrived: seq<byte>, full: bool) {
    match status >= 0 && full
    case true => Halfway(link, first, n, size, arrived)
    case false => Fetched(link, first, size) == arrived && Heard(link, false, first, size, |arrived|, status)
  }

  /** What request `n` of a read answers, and what has arrived after it. */
  ghost predicate ReadAnswer(link: Link, n: nat, size: nat, prefix: seq<byte>,
                             status: int, arrived: seq<byte>, full: bool)
  {
    && |prefix| < size
    && var reply := Reply(link, false, n, Chunk(size - |prefix|));
       && status == Min(reply, 0) && full == (reply >= Chunk(size - |prefix|))
       && arrived == if reply < 0 then prefix else prefix + Sent(link, n, reply)
  }

  lemma ReadRounds(link: Link, first: nat, n: nat, size: nat, prefix: seq<byte>,
                   status: int, arrived: seq<byte>, full: bool)
    requires Halfway(link, first, n, size, prefix) && ReadAnswer(link, n, size, prefix, status, arrived, full)
    ensures ReadRound(link, first, n + 1, size, status, arrived, full)
  {
    if status >= 0 && full {
      FullChunk(link, first, n, size, prefix, |arrived| - |prefix|);
    }
  }

  lemma ReadFinished(link: Link, first: nat, n: nat, size: nat, prefix: seq<byte>)
    requires Halfway(link, first, n, size, prefix) && |prefix| == size
    ensures Fetched(link, first, size) == prefix && Heard(link, false, first, size, size, 0)
  {
  }

  /** The same for a round of a write. */
  ghost predicate WriteRound(link: Link, first: nat, n: nat, size: nat, status: int, next: nat, full: bool) {
    if status >= 0 && full then Midway(link, first, n, size, next)
    else Moved(link, true, first, size) == next && Heard(link, true, first, size, next, status)
  }

  ghost predicate WriteAnswer(link: Link, n: nat, size: nat, done: nat, status: int, next: nat, full: bool) {
    && done < size
    && var reply := Reply(link, true, n, Chunk(size - done));
       && status == Min(reply, 0) && next == done + Max(reply, 0) && full == (reply >= Chunk(size - done))
  }

  lemma WriteRounds(link: Link, first: nat, n: nat, size: nat, done: nat, status: int, next: nat, full: bool)
    requires Midway(link, first, n, size, done) && WriteAnswer(link, n, size, done, status, next, full)
    ensures WriteRound(link, first, n + 1, size, status, next, full)
  {
    if status >= 0 && full {
      FullWrite(link, first, n, size, done, next - done);
    }
  }

  lemma WriteFinished(link: Link, first: nat, n: nat, size: nat, done: nat)
    requires Midway(link, first, n, size, done) && done == size
    ensures Moved(link, true, first, size) == done && Heard(link, true, first, size, done, 0)
  {
  }

  class Storage {
    const link: Link
    const requestData: array<byte>
    const replyData: array<byte>
    var bound: bool
    var requests: nat
    ghost var accepted: seq<byte>   // what the card has acknowledged of all writes

    ghost predicate Valid()
      reads this
    {
      replyData.Length == IO_CHUNK && requestData.Length == IO_CHUNK
    }

    constructor (link: Link, bound: bool)
      ensures Valid() && this.link == link && this.bound == bound && accepted == []
      ensures fresh(replyData) && fresh(requestData)
    {
      this.link, this.bound, requests := link, bound, 0;
      replyData := new byte[512];
      requestData := new byte[512];
      accepted := [];
    }

    method NextChunk(left: u32) returns (chunk: u32)
      ensures chunk == Chunk(left)
    {
      chunk := left;
      if chunk > IO_CHUNK {
        chunk := IO_CHUNK;
      }
    }

    /** One read request over the transport. */
    method RequestRead(chunk: u32) returns (result: int, dataSize: u32)
      requires Valid() && 0 < chunk <= IO_CHUNK
      modifies `requests, replyData
      ensures requests == old(requests) + 1
      ensures var reply := Reply(link, false, old(requests), chunk);
              if reply < 0 then result == reply else result == 0 && dataSize == reply
      ensures result == 0 ==> forall k :: 0 <= k < dataSize ==> replyData[k] == link.answers(old(requests)).payload(k)
    {
      var n := requests;
      requests := requests + 1;
      if link.transport(n) < 0 {
        return link.transport(n), 0;
      }
      if !link.present {
        return -1, 0;
      }
      result := BackendRead(link.answers(n), link.fd, replyData, chunk);
      if result >= 0 {
        return 0, result;
      }
      return result, 0;
    }

    /** One round of the read loop: a request for the next chunk, and its answer behind what has arrived. */
    method ReadChunk(buffer: array<byte>, done: u32, size: u32, ghost was: seq<byte>)
      returns (status: int, next: u32, full: bool)
      requires Valid() && buffer != replyData && done < size <= buffer.Length
      requires |was| == buffer.Length && buffer[done..] == was[done..]
      modifies `requests, replyData, buffer
      ensures requests == old(requests) + 1 && done <= next <= size && buffer[next..] == was[next..]
      ensures status >= 0 && full ==> done < next
      ensures ReadAnswer(link, old(requests), size, old(buffer[..done]), status, buffer[..next], full)
    {
      var chunk := NextChunk(size - done);
      ghost var n := requests;
      var dataSize: u32;
      status, dataSize := RequestRead(chunk);
      if status < 0 {
        return status, done, false;
      }
      CopyReply(buffer, done, dataSize, was, n);
      next := done + dataSize;
      full := dataSize >= chunk;
    }

    method Read(buffer: array?<byte>, size: u32) returns (result: int)
      requires Valid() && buffer != replyData
      requires buffer != null ==> size <= buffer.Length
      modifies `requests, replyData, buffer
      ensures Valid()
      ensures !bound || buffer == null ==> result == -1 && requests == old(requests)
      ensures !bound && buffer != null ==> buffer[..] == old(buffer[..])
      ensures bound && buffer != null ==> result == Told(link, false, old(requests), size)
      ensures bound && buffer != null ==> Overwritten(old(buffer[..]), buffer[..], Fetched(link, old(requests), size))
    {
      if !bound || buffer == null {
        return -1;
      }
      var status, done := ReadLoop(buffer, size);
      ToldIs(link, false, old(requests), size, done, status);
      return if status < 0 && done == 0 then status else AsInt(done);
    }

    /** The read loop: how it ended, and how much arrived. */
    method ReadLoop(buffer: array<byte>, size: u32) returns (status: int, done: u32)
      requires Valid() && buffer != replyData && size <= buffer.Length
      modifies `requests, replyData, buffer
      ensures done <= size && buffer[done..] == old(buffer[..])[done..]
      ensures Fetched(link, old(requests), size) == buffer[..done]
      ensures Heard(link, false, old(requests), size, done, status)
    {
      status, done := 0, 0;
      ghost var first, was := requests, buffer[..];
      while done < size
        invariant done <= size && buffer[done..] == was[done..]
        invariant Halfway(link, first, requests, size, buffer[..done])
        decreases size - done
      {
        var full;
        status, done, full := ReadOn(buffer, done, size, first, was);
        if status < 0 || !full {
          return;
        }
      }
      ReadFinished(link, first, requests, size, buffer[..done]);
      status := 0;
    }

    /** One round of the read loop, in a transfer that began at request `first`. */
    method ReadOn(buffer: array<byte>, done: u32, size: u32, ghost first: nat, ghost was: seq<byte>)
      returns (status: int, next: u32, full: bool)
      requires Valid() && buffer != replyData && done < size <= buffer.Length
      requires |was| == buffer.Length && buffer[done..] == was[done..]
      requires Halfway(link, first, requests, size, buffer[..done])
      modifies `requests, replyData, buffer
      ensures done <= next <= size && buffer[next..] == was[next..] && (status >= 0 && full ==> done < next)
      ensures ReadRound(link, first, requests, size, status, buffer[..next], full)
    {
      ghost var n, prefix := requests, buffer[..done];
      status, next, full := ReadChunk(buffer, done, size, was);
      ReadRounds(link, first, n, size, prefix, status, buffer[..next], full);
    }

    /** The loop that copies the reply behind what has arrived already. */
    method CopyReply(buffer: array<byte>, done: u32, dataSize: u32, ghost was: seq<byte>, ghost n: nat)
      requires Valid() && buffer != replyData && dataSize <= IO_CHUNK && done + dataSize <= buffer.Length
      requires forall k :: 0 <= k < dataSize ==> replyData[k] == link.answers(n).payload(k)
      requires |was| == buffer.Length && buffer[done..] == was[done..]
      modifies buffer
      ensures buffer[..done + dataSize] == old(buffer[..done]) + Sent(link, n, dataSize)
      ensures buffer[done + dataSize..] == was[done + dataSize..]
    {
      ghost var before, sent := buffer[..], Sent(link, n, dataSize);
      SameTail(before, was, done);
      var i: u32 := 0;
      while i < dataSize
        invariant i <= dataSize
        invariant forall k :: 0 <= k < dataSize ==> replyData[k] == sent[k]
        invariant forall k :: 0 <= k < buffer.Length ==>
                    buffer[k] == if k < done then before[k] else if k < done + i then sent[k - done] else was[k]
      {
        buffer[done + i] := replyData[i];
        i := i + 1;
      }
    }

    /** One write request over the transport, carrying the next chunk of the source. */
    method RequestWrite(source: array<byte>, done: u32, chunk: u32) returns (result: int, value: int)
      requires Valid() && source != requestData && 0 < chunk <= IO_CHUNK && done + chunk <= source.Length
      modifies `requests, requestData, `accepted
      ensures requests == old(requests) + 1
      ensures var reply := Reply(link, true, old(requests), chunk);
              && (if reply < 0 then result == reply else result == 0 && value == reply)
              && accepted == if reply < 0 then old(accepted) else old(accepted) + source[done..done + reply]
    {
      ghost var part := source[done..done + chunk];
      var i: u32 := 0;
      while i < chunk
        invariant i <= chunk && forall k :: 0 <= k < i ==> requestData[k] == part[k]
        modifies requestData
      {
        requestData[i] := source[done + i];
        i := i + 1;
      }
      var n := requests;
      requests := requests + 1;
      if link.transport(n) < 0 {
        return link.transport(n), 0;
      }
      if !link.present {
        return -1, 0;
      }
      ghost var sent;
      result, sent := BackendWrite(link.answers(n), link.fd, requestData[..], chunk);
      if result >= 0 {
        SameStart(requestData[..], part, chunk);
        accepted := accepted + sent[..result];
        SliceOfSlice(source[..], done, chunk, result);
        return 0, result;
      }
      return result, 0;
    }

    /** One round of the write loop: a request with the next chunk. */
    method WriteChunk(source: array<byte>, done: u32, size: u32) returns (status: int, next: u32, full: bool)
      requires Valid() && source != requestData && done < size <= source.Length
      modifies `requests, requestData, `accepted
      ensures requests == old(requests) + 1
      ensures WriteAnswer(link, old(requests), size, done, status, next, full)
      ensures done <= next <= size && (status >= 0 && full ==> done < next)
      ensures accepted == old(accepted) + source[done..next]
    {
      var chunk := NextChunk(size - done);
      var value: int;
      status, value := RequestWrite(source, done, chunk);
      if status < 0 {
        return status, done, false;
      }
      if value <= 0 {
        return 0, done, false;
      }
      next := done + value;
      full := value >= chunk;
    }

    method Write(source: array?<byte>, size: u32) returns (result: int)
      requires Valid() && source != requestData
      requires source != null ==> size <= source.Length
      modifies `requests, requestData, `accepted
      ensures Valid()
      ensures !bound || source == null ==> result == -1 && accepted == old(accepted) && requests == old(requests)
      ensures bound && source != null ==> result == Told(link, true, old(requests), size)
      ensures bound && source != null ==> accepted == old(accepted) + source[..Moved(link, true, old(requests), size)]
    {
      if !bound || source == null {
        return -1;
      }
      var status, done := WriteLoop(source, size);
      ToldIs(link, true, old(requests), size, done, status);
      return if status < 0 && done == 0 then status else AsInt(done);
    }

    /** The write loop: how it ended, and how much was acknowledged. */
    method WriteLoop(source: array<byte>, size: u32) returns (status: int, done: u32)
      requires Valid() && source != requestData && size <= source.Length
      modifies `requests, requestData, `accepted
      ensures done <= size && accepted == old(accepted) + source[..done]
      ensures Moved(link, true, old(requests), size) == done
      ensures Heard(link, true, old(requests), size, done, status)
    {
      status, done := 0, 0;
      ghost var first, before := requests, accepted;
      while done < size
        invariant done <= size && Midway(link, first, requests, size, done)
        invariant accepted == before + source[..done]
        decreases size - done
      {
        var full;
        status, done, full := WriteOn(source, done, size, first, before);
        if status < 0 || !full {
          return;
        }
      }
      WriteFinished(link, first, requests, size, done);
      status := 0;
    }

    /** One round of the write loop, in a transfer that began at request `first`. */
    method WriteOn(source: array<byte>, done: u32, size: u32, ghost first: nat, ghost before: seq<byte>)
      returns (status: int, next: u32, full: bool)
      requires Valid() && source != requestData && done < size <= source.Length
      requires Midway(link, first, requests, size, done) && accepted == before + source[..done]
      modifies `requests, requestData, `accepted
      ensures done <= next <= size && (status >= 0 && full ==> done < next)
      ensures accepted == before + source[..next]
      ensures WriteRound(link, first, requests, size, status, next, full)
    {
      ghost var n := requests;
      status, next, full := WriteChunk(source, done, size);
      Joined(before, source[..], done, next);
      WriteRounds(link, first, n, size, done, status, next, full);
    }

    lemma SameStart(data: seq<byte>, part: seq<byte>, n: nat)
      requires n <= |data| && |part| == n && forall k :: 0 <= k < n ==> data[k] == part[k]
      ensures data[..n] == part
    {
    }

    lemma SliceOfSlice(s: seq<byte>, from: nat, n: nat, m: nat)
      requires m <= n && from + n <= |s|
      ensures s[from..from + n][..m] == s[from..from + m]
    {
    }

    lemma Joined(before: seq<byte>, source: seq<byte>, i: nat, j: nat)
      requires i <= j <= |source|
      ensures before + source[..i] + source[i..j] == before + source[..j]
    {
    }
  }

  // ---------------------------------------------------------------- what the replies mean

  /** Both exchanges that a request of this size can need. */
  predicate BothExchanges(a: Answer, size: nat) {
    (size > 0 ==> a.exchange(0)) && (size > 256 ==> a.exchange(256))
  }

  lemma ExchangedMeans(a: Answer, size: nat)
    requires size <= 512
    ensures Exchanged(a, 0, size) <==> BothExchanges(a, size)
  {
    assert Exchanged(a, 512, size) && (size <= 256 ==> Exchanged(a, 256, size));
    assert Exchanged(a, 256, size) <==> (size > 256 ==> a.exchange(256));
  }

  /** A reply to a read: the footer's count, no more than asked for; or the error of the first thing that failed. */
  lemma ReadReplyMeans(a: Answer, fd: int, size: nat)
    ensures var r, fits := ReadReply(a, fd, size), size <= 512 && 0 <= fd <= 255;
            && (r == -1 <==> !fits)
            && (r == -2 <==> fits && !a.header)
            && (r == -3 <==> fits && a.header && !BothExchanges(a, size))
            && (r == -4 <==> fits && a.header && BothExchanges(a, size) && !a.footer)
            && (r == -5 <==> fits && a.header && BothExchanges(a, size) && a.footer && a.count < 0)
            && (r >= 0 ==> r == Min(a.count, size)) && r >= -5
  {
    if size <= 512 { ExchangedMeans(a, size); }
  }

  /** The card is ready at poll `n`, which is the first that does not find it busy. */
  predicate ReadyAt(a: Answer, n: nat) {
    n < 128 && a.polls(n).Ready? && forall k: nat :: k < n ==> a.polls(k).NotReady?
  }

  predicate FailsAt(a: Answer, n: nat) {
    n < 128 && a.polls(n).PollFailed? && forall k: nat :: k < n ==> a.polls(k).NotReady?
  }

  lemma {:induction false} PolledMeans(a: Answer, n: nat)
    requires n <= 128 && forall k: nat :: k < n ==> a.polls(k).NotReady?
    ensures Polled(a, n) == 0 <==> exists k: nat :: ReadyAt(a, k)
    ensures Polled(a, n) == -3 <==> exists k: nat :: FailsAt(a, k)
    ensures Polled(a, n) == -4 <==> forall k: nat :: k < 128 ==> a.polls(k).NotReady?
    decreases 128 - n
  {
    if n < 128 && a.polls(n).NotReady? {
      PolledMeans(a, n + 1);
    } else if n < 128 && a.polls(n).Ready? {
      assert ReadyAt(a, n);
    } else if n < 128 {
      assert FailsAt(a, n);
    }
  }

  /** A reply to a write: the same, with the polls for readiness in between. */
  lemma WriteReplyMeans(a: Answer, fd: int, size: nat)
    ensures var r, fits := WriteReply(a, fd, size), size <= 512 && 0 <= fd <= 255;
            var ready := exists k: nat :: ReadyAt(a, k);
            && (r == -1 <==> !fits)
            && (r == -2 <==> fits && !a.header)
            && (r == -3 <==> fits && a.header && exists k: nat :: FailsAt(a, k))
            && (r == -4 <==> fits && a.header && forall k: nat :: k < 128 ==> a.polls(k).NotReady?)
            && (r == -5 <==> fits && a.header && ready && !BothExchanges(a, size))
            && (r == -6 <==> fits && a.header && ready && BothExchanges(a, size) && !a.footer)
            && (r == -7 <==> fits && a.header && ready && BothExchanges(a, size) && a.footer && a.count < 0)
            && (r >= 0 ==> r == Min(a.count, size)) && r >= -7
  {
    if size <= 512 { ExchangedMeans(a, size); }
    PolledMeans(a, 0);
  }

  /** What the caller is told: how much was moved, unless nothing was and the first request failed. */
  lemma ToldMeans(link: Link, write: bool, n: nat, size: nat)
    requires size < 0x8000_0000
    ensures var first, told := Reply(link, write, n, Min(size, 512)), Told(link, write, n, size);
            && (told >= 0 ==> told == Moved(link, write, n, size))
            && (told < 0 <==> size > 0 && first < 0)
            && (told < 0 ==> told == first && Moved(link, write, n, size) == 0)
  {
  }

  /** The answer of a card that serves a file: no exchange fails, and it sends what the file has at the position. */
  predicate ServesAt(link: Link, n: nat, chunk: nat, file: seq<byte>, position: nat)
    requires position <= |file|
  {
    var a := link.answers(n);
    && link.transport(n) >= 0 && a.header && BothExchanges(a, chunk) && a.footer
    && a.count == Min(chunk, |file| - position)
    && forall k: nat :: k < a.count ==> a.payload(k) == file[position + k]
  }

  /** So for every request of a read of `left` bytes from `position`, up to the end of the file. */
  predicate Serves(link: Link, n: nat, left: nat, file: seq<byte>, position: nat)
    requires position <= |file|
    decreases left
  {
    left == 0 ||
    var chunk := Min(left, 512);
    && ServesAt(link, n, chunk, file, position)
    && (position + chunk <= |file| ==> Serves(link, n + 1, left - chunk, file, position + chunk))
  }

  type Replies = (nat, nat) -> int

  /** What a transfer of `left` bytes moves from request `n` on, told from the next reply. */
  ghost predicate MovesBy(reply: Replies, moved: Replies, n: nat, left: nat) {
    moved(n, left) ==
    if left == 0 || reply(n, Chunk(left)) <= 0 then 0
    else if reply(n, Chunk(left)) < Chunk(left) then reply(n, Chunk(left))
    else Chunk(left) + moved(n + 1, left - Chunk(left))
  }

  /** After j whole chunks, the reply to the next request is short, and it is the last. */
  ghost predicate StopsAfter(reply: Replies, moved: Replies, n: nat, left: nat, j: nat) {
    && IO_CHUNK * j < left
    && (forall i: nat :: n <= i < n + j ==> reply(i, IO_CHUNK) >= IO_CHUNK)
    && var last := reply(n + j, Chunk(left - IO_CHUNK * j));
       last < Chunk(left - IO_CHUNK * j) && moved(n, left) == IO_CHUNK * j + Max(last, 0)
  }

  lemma {:induction false} StopsFrom(reply: Replies, moved: Replies, n: nat, left: nat) returns (j: nat)
    requires moved(n, left) < left && forall n: nat, left: nat :: MovesBy(reply, moved, n, left)
    ensures StopsAfter(reply, moved, n, left, j)
    decreases left
  {
    assert MovesBy(reply, moved, n, left);
    if reply(n, Chunk(left)) < Chunk(left) {
      j := 0;
    } else {
      assert MovesBy(reply, moved, n + 1, left - Chunk(left));
      var rest := StopsFrom(reply, moved, n + 1, left - IO_CHUNK);
      j := rest + 1;
    }
  }

  function RepliesOf(link: Link, write: bool): (reply: Replies) {
    (n: nat, chunk: nat) => Reply(link, write, n, chunk)
  }

  function MovesOf(link: Link, write: bool): (moved: Replies) {
    (n: nat, left: nat) => Moved(link, write, n, left)
  }

  lemma LinkMoves(link: Link, write: bool, n: nat, left: nat)
    ensures MovesBy(RepliesOf(link, write), MovesOf(link, write), n, left)
  {
  }

  /** Where a transfer ends: after whole chunks, at the first request that fails or moves less than its chunk. */
  lemma StopsAtShortChunk(link: Link, write: bool, n: nat, left: nat) returns (j: nat)
    requires Moved(link, write, n, left) < left
    ensures IO_CHUNK * j < left
    ensures var chunk := Chunk(left - IO_CHUNK * j);
            var reply := Reply(link, write, n + j, chunk);
            reply < chunk && Moved(link, write, n, left) == IO_CHUNK * j + Max(reply, 0)
    ensures forall i :: n <= i < n + j ==> Reply(link, write, i, IO_CHUNK) == IO_CHUNK
  {
    var reply, moved := RepliesOf(link, write), MovesOf(link, write);
    forall n: nat, left: nat ensures MovesBy(reply, moved, n, left) {
      LinkMoves(link, write, n, left);
    }
    j := StopsFrom(reply, moved, n, left);
    forall i | n <= i < n + j ensures Reply(link, write, i, IO_CHUNK) == IO_CHUNK {
      assert reply(i, IO_CHUNK) >= IO_CHUNK;
    }
  }

  /** The card is a file: what it sends for each request made, from `n` on, is the file's bytes from its position on. */
  predicate SendsFile(link: Link, n: nat, left: nat, file: seq<byte>, position: nat)
    decreases left
  {
    left == 0 ||
    var reply := Reply(link, false, n, Chunk(left));
    reply <= 0 || (
      && position + reply <= |file|
      && Sent(link, n, reply) == file[position..position + reply]
      && (reply == Chunk(left) ==> SendsFile(link, n + 1, left - reply, file, position + reply)))
  }

  /** Does the card send all it has, up to the chunk asked for? */
  predicate SendsAll(link: Link, n: nat, left: nat, file: seq<byte>, position: nat)
    requires position <= |file|
    decreases left
  {
    left == 0 ||
    var reply := Reply(link, false, n, Chunk(left));
    && reply == Min(Chunk(left), |file| - position)
    && (reply == Chunk(left) ==> SendsAll(link, n + 1, left - reply, file, position + reply))
  }

  /** What the next request adds to a read of a file. */
  lemma NextPiece(link: Link, n: nat, left: nat, file: seq<byte>, position: nat, reply: int)
    requires left > 0 && SendsFile(link, n, left, file, position) && reply == Reply(link, false, n, Chunk(left))
    ensures reply <= 0 ==> Fetched(link, n, left) == []
    ensures reply > 0 ==> position + reply <= |file|
    ensures 0 < reply == Chunk(left) ==> SendsFile(link, n + 1, left - reply, file, position + reply)
    ensures 0 < reply < Chunk(left) ==> Fetched(link, n, left) == file[position..position + reply]
    ensures 0 < reply == Chunk(left) ==>
              Fetched(link, n, left) == file[position..position + reply] + Fetched(link, n + 1, left - reply)
  {
  }

  /** A read of a file is one contiguous piece of it, however the chunks fell. */
  lemma {:induction false} ReadIsContiguous(link: Link, n: nat, left: nat, file: seq<byte>, position: nat)
    requires position <= |file| && SendsFile(link, n, left, file, position)
    ensures IsPiece(file, position, Fetched(link, n, left))
    decreases left
  {
    if left > 0 {
      var reply := Reply(link, false, n, Chunk(left));
      NextPiece(link, n, left, file, position, reply);
      if 0 < reply == Chunk(left) {
        ReadIsContiguous(link, n + 1, left - reply, file, position + reply);
        PiecesMeet(file, position, position + reply, Fetched(link, n + 1, left - reply));
      }
    }
  }

  predicate IsPiece(file: seq<byte>, position: nat, got: seq<byte>) {
    position + |got| <= |file| && got == file[position..position + |got|]
  }

  lemma PiecesMeet(file: seq<byte>, i: nat, j: nat, got: seq<byte>)
    requires i <= j <= |file| && IsPiece(file, j, got)
    ensures IsPiece(file, i, file[i..j] + got)
  {
  }

  lemma {:induction false} MovesAll(link: Link, n: nat, left: nat, file: seq<byte>, position: nat)
    requires position <= |file| && SendsAll(link, n, left, file, position)
    ensures Moved(link, false, n, left) == Min(left, |file| - position)
    decreases left
  {
    if left > 0 {
      var reply := Reply(link, false, n, Chunk(left));
      if reply > 0 && reply == Chunk(left) {
        MovesAll(link, n + 1, left - reply, file, position + reply);
      }
    }
  }

  /** And from a card that sends all it has, it is the whole piece asked for, up to the end of the file. */
  lemma ReadIsComplete(link: Link, n: nat, left: nat, file: seq<byte>, position: nat)
    requires position <= |file| && SendsFile(link, n, left, file, position) && SendsAll(link, n, left, file, position)
    ensures Fetched(link, n, left) == file[position..Min(position + left, |file|)]
  {
    ReadIsContiguous(link, n, left, file, position);
    MovesAll(link, n, left, file, position);
  }

  lemma ServedReply(link: Link, n: nat, chunk: nat, file: seq<byte>, position: nat)
    requires position <= |file| && link.present && 0 <= link.fd <= 255 && chunk <= 512
    requires ServesAt(link, n, chunk, file, position)
    ensures var reply := Reply(link, false, n, chunk);
            reply == Min(chunk, |file| - position) && Sent(link, n, reply) == file[position..position + reply]
  {
    ReadReplyMeans(link.answers(n), link.fd, chunk);
  }

  lemma {:induction false} ServesSends(link: Link, n: nat, left: nat, file: seq<byte>, position: nat)
    requires position <= |file| && link.present && 0 <= link.fd <= 255 && Serves(link, n, left, file, position)
    ensures SendsFile(link, n, left, file, position) && SendsAll(link, n, left, file, position)
    decreases left
  {
    if left > 0 {
      var chunk := Chunk(left);
      ServedReply(link, n, chunk, file, position);
      if position + chunk <= |file| {
        ServesSends(link, n + 1, left - chunk, file, position + chunk);
      } else {
        SendsTheEnd(link, n, left, file, position);
      }
    }
  }

  /** At the end of the file the reply is short, and the rest of it is what the next requests, if any, find. */
  lemma SendsTheEnd(link: Link, n: nat, left: nat, file: seq<byte>, position: nat)
    requires position <= |file| && left > 0 && position + Chunk(left) > |file|
    requires Reply(link, false, n, Chunk(left)) == |file| - position
    requires Sent(link, n, |file| - position) == file[position..]
    ensures SendsFile(link, n, left, file, position) && SendsAll(link, n, left, file, position)
  {
  }

  /**
   A read from a card that serves a file, told by its own answers: exactly the piece asked for, up to the end of the
   file, and its length.
   */
  lemma ServedRead(link: Link, n: nat, size: nat, file: seq<byte>, position: nat)
    requires position <= |file| && link.present && 0 <= link.fd <= 255 && size < 0x8000_0000
    requires Serves(link, n, size, file, position)
    ensures Fetched(link, n, size) == file[position..Min(position + size, |file|)]
    ensures Told(link, false, n, size) == Min(size, |file| - position)
  {
    ServesSends(link, n, size, file, position);
    ReadIsComplete(link, n, size, file, position);
    MovesAll(link, n, size, file, position);
    ToldMeans(link, false, n, size);
    if size > 0 {
      ServedReply(link, n, Chunk(size), file, position);
    }
  }

  lemma SameTail(a: seq<byte>, b: seq<byte>, n: nat)
    requires n <= |a| == |b| && a[n..] == b[n..]
    ensures forall k :: n <= k < |a| ==> a[k] == b[k]
  {
    forall k | n <= k < |a| ensures a[k] == b[k] {
      assert a[n..][k - n] == b[n..][k - n];
    }
  }

  /** `bytes` replaced the beginning of the buffer; the rest is as it was. */
  ghost predicate Overwritten(before: seq<byte>, after: seq<byte>, bytes: seq<byte>) {
    && |bytes| <= |before| == |after|
    && after[..|bytes|] == bytes && after[|bytes|..] == before[|bytes|..]
  }
}
