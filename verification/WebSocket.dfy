/**
 The WebSocket limiter (src/frontend/websocket.rs): frames as bytes, what the
 limiter forwards, and what RFC 6455 sections 5.2, 5.4 and 5.5 call legal.
 */
module WebSocket {
  import opened Common

  const CHUNK: nat := 8 * 1_024

  // ---- Frame headers on the wire ----

  datatype Head = Head(fin: bool, opcode: nat, masked: bool, extended: nat, payload: nat)

  function BigEndian(bytes: seq<byte>): nat {
    if bytes == [] then 0 else BigEndian(bytes[..|bytes| - 1]) * 256 + bytes[|bytes| - 1]
  }

  /** How many bytes of extended payload length follow the two fixed bytes. */
  function ExtendedLength(marker: nat): nat {
    if marker == 126 then 2 else if marker == 127 then 8 else 0
  }

  /** The frame header at the start of `s`, up to its length field; None when `s` ends inside it. */
  function ReadHead(s: seq<byte>): Option<Head> {
    if |s| < 2 then None
    else
      var marker := s[1] % 128;
      var ext := ExtendedLength(marker);
      if |s| < 2 + ext then None
      else Some(Head(s[0] >= 128, s[0] % 16, s[1] >= 128, ext, if ext == 0 then marker else BigEndian(s[2..2 + ext])))
  }

  function HeaderSize(h: Head): nat {
    2 + h.extended + if h.masked then 4 else 0
  }

  function FrameSize(h: Head): nat {
    HeaderSize(h) + h.payload
  }

  // ---- The limiter's decision on one frame ----

  datatype Reason = OrphanContinuation | TooLarge | OverLimit | InterruptedMessage | BadControl

  /** `open` is the size so far of the message being fragmented. */
  datatype Verdict = Refuse(reason: Reason) | Forward(open: Option<nat>)

  function Judge(h: Head, open: Option<nat>, limit: nat): Verdict {
    if h.opcode == 0 then
      if open.None? then Refuse(OrphanContinuation)
      else if open.value + h.payload > USIZE_MAX then Refuse(TooLarge)
      else if open.value + h.payload > limit then Refuse(OverLimit)
      else Forward(if h.fin then None else Some(open.value + h.payload))
    else if h.opcode == 1 || h.opcode == 2 then
      if open.Some? then Refuse(InterruptedMessage)
      else if h.payload > limit then Refuse(OverLimit)
      else Forward(if h.fin then None else Some(h.payload))
    else if 8 <= h.opcode && h.fin && h.payload <= 125 then Forward(open)
    else Refuse(BadControl)
  }

  /** How the copy ends: at a frame boundary, inside a frame, or by refusing a frame. */
  datatype End = Closed | CutShort | Refused(reason: Reason)

  datatype Copy = Copy(forwarded: nat, end: End)

  /** How many bytes of `s` the limiter forwards, and how it ends. */
  function Scan(s: seq<byte>, open: Option<nat>, limit: nat): (r: Copy)
    ensures r.forwarded <= |s|
    decreases |s|
  {
    if s == [] then Copy(0, Closed)
    else
      var h := ReadHead(s);
      if h.None? then Copy(0, CutShort)
      else
        var v := Judge(h.value, open, limit);
        if v.Refuse? then Copy(0, Refused(v.reason))
        else if |s| < HeaderSize(h.value) then Copy(0, CutShort)
        else if |s| < FrameSize(h.value) then
          Copy(HeaderSize(h.value) + WholeChunks(|s| - HeaderSize(h.value)), CutShort)
        else
          var rest := Scan(s[FrameSize(h.value)..], v.open, limit);
          Copy(FrameSize(h.value) + rest.forwarded, rest.end)
  }

  /** What is forwarded of `n` bytes of a payload that ends early. */
  function WholeChunks(n: nat): (r: nat)
    ensures r <= n
  {
    n / CHUNK * CHUNK
  }

  lemma WholeChunksExact(n: nat)
    ensures WholeChunks(n) % 8_192 == 0 && WholeChunks(n) <= n < WholeChunks(n) + 8_192
  {
  }

  // ---- The reader and writer ----

  /** A reader that serves bytes buffered with the HTTP header before the live stream. */
  class PrefixedReader {
    var prefix: seq<byte>
    var offset: nat
    var inner: seq<byte>

    ghost predicate Valid()
      reads this
    {
      offset <= |prefix|
    }

    ghost function Rest(): seq<byte>
      reads this
      requires Valid()
    {
      prefix[offset..] + inner
    }

    constructor (prefix: seq<byte>, inner: seq<byte>)
      ensures Valid() && Rest() == prefix + inner
    {
      this.prefix, this.offset, this.inner := prefix, 0, inner;
    }

    /** One poll: any non-empty share of what is left, the prefix never mixed with the stream. */
    method PollRead(capacity: nat) returns (chunk: seq<byte>)
      requires Valid()
      modifies this
      ensures Valid() && old(Rest()) == chunk + Rest()
      ensures |chunk| <= capacity
      ensures capacity > 0 && old(Rest()) != [] ==> chunk != []
    {
      if offset < |prefix| {
        var take := Min(capacity, |prefix| - offset);
        chunk := prefix[offset..offset + take];
        offset := offset + take;
        assert old(prefix[offset..]) == chunk + prefix[offset..];
      } else {
        var take: nat :| take <= capacity && take <= |inner| && (capacity > 0 && inner != [] ==> take > 0);
        chunk := inner[..take];
        inner := inner[take..];
      }
    }

    /** Reads `n` bytes over as many polls as it takes; fails exactly when fewer are left. */
    method ReadExact(n: nat) returns (ok: bool, bytes: seq<byte>)
      requires Valid()
      modifies this
      ensures Valid() && ok == (n <= |old(Rest())|)
      ensures ok ==> |bytes| == n && old(Rest()) == bytes + Rest()
      ensures !ok ==> Rest() == []
    {
      bytes := [];
      while |bytes| < n
        invariant Valid() && |bytes| <= n && old(Rest()) == bytes + Rest()
        decreases n - |bytes|
      {
        var chunk := PollRead(n - |bytes|);
        if chunk == [] {
          ok := false;
          return;
        }
        assert bytes + (chunk + Rest()) == (bytes + chunk) + Rest();
        bytes := bytes + chunk;
      }
      ok := true;
    }
  }

  class Writer {
    var written: seq<byte>

    constructor ()
      ensures written == []
    {
      written := [];
    }

    method WriteAll(bytes: seq<byte>)
      modifies this
      ensures written == old(written) + bytes
    {
      written := written + bytes;
    }
  }

  // ---- The copy loop ----

  /** Taking `chunk` off what follows the first `i` bytes of `s`. */
  lemma Advance(s: seq<byte>, i: nat, chunk: seq<byte>, rest: seq<byte>)
    requires i <= |s| && s[i..] == chunk + rest
    ensures i + |chunk| <= |s| && s[..i] + chunk == s[..i + |chunk|] && s[i + |chunk|..] == rest
  {
    assert s == s[..i] + s[i..];
    assert s == (s[..i] + chunk) + rest;
  }

  lemma Concat(before: seq<byte>, a: seq<byte>, b: seq<byte>)
    ensures before + (a + b) == (before + a) + b
  {
  }

  lemma SlicesCompose(s: seq<byte>, i: nat, n: nat)
    requires i + n <= |s|
    ensures s[..i] + s[i..][..n] == s[..i + n] && s[i..][n..] == s[i + n..]
  {
  }

  /** Copies the payload in chunks; a chunk that cannot be filled is not written. */
  method CopyPayload(reader: PrefixedReader, writer: Writer, length: nat) returns (ok: bool, copied: nat)
    requires reader.Valid()
    modifies reader, writer
    ensures reader.Valid()
    ensures var s := old(reader.Rest());
            && ok == (length <= |s|)
            && copied == (if ok then length else WholeChunks(|s|))
            && writer.written == old(writer.written) + s[..copied]
            && (ok ==> reader.Rest() == s[length..])
  {
    var remaining := length;
    copied := 0;
    ghost var s := reader.Rest();
    while remaining > 0
      invariant reader.Valid() && 0 <= copied && 0 <= remaining && remaining + copied == length && copied <= |s|
      invariant reader.Rest() == s[copied..]
      invariant writer.written == old(writer.written) + s[..copied]
      invariant remaining > 0 ==> copied % CHUNK == 0
    {
      var take := Min(remaining, CHUNK);
      var filled, chunk := reader.ReadExact(take);
      if !filled {
        assert copied <= |s| < copied + CHUNK;
        WholeChunksOf(|s|, copied);
        ok := false;
        return;
      }
      Advance(s, copied, chunk, reader.Rest());
      Concat(old(writer.written), s[..copied], chunk);
      writer.WriteAll(chunk);
      copied := copied + take;
      remaining := remaining - take;
    }
    ok := true;
  }

  lemma WholeChunksOf(n: nat, done: nat)
    requires done % CHUNK == 0 && done <= n < done + CHUNK
    ensures WholeChunks(n) == done
  {
  }

  /** Reads a header up to its length field. */
  method ReadFrameHead(reader: PrefixedReader) returns (eof: bool, head: Option<Head>, header: seq<byte>)
    requires reader.Valid()
    modifies reader
    ensures reader.Valid() && head == ReadHead(old(reader.Rest()))
    ensures eof <==> old(reader.Rest()) == []
    ensures head.Some? ==> old(reader.Rest()) == header + reader.Rest() && |header| == 2 + head.value.extended
  {
    ghost var s := reader.Rest();
    var some, first := reader.ReadExact(1);
    if !some { return true, None, []; }
    var two, second := reader.ReadExact(1);
    if !two { return false, None, []; }
    header := first + second;
    assert s == header + reader.Rest();
    var marker := header[1] % 128;
    var extended := ExtendedLength(marker);
    var lengthOk, length := reader.ReadExact(extended);
    if !lengthOk { return false, None, []; }
    header := header + length;
    assert s == header + reader.Rest() && s[2..2 + extended] == length;
    head := Some(Head(header[0] >= 128, header[0] % 16, header[1] >= 128, extended,
                      if extended == 0 then marker else BigEndian(length)));
    eof := false;
  }

  lemma ScanStep(s: seq<byte>, open: Option<nat>, limit: nat, h: Head, next: Option<nat>)
    requires ReadHead(s) == Some(h) && Judge(h, open, limit) == Forward(next) && FrameSize(h) <= |s|
    ensures var rest := Scan(s[FrameSize(h)..], next, limit);
            Scan(s, open, limit) == Copy(FrameSize(h) + rest.forwarded, rest.end)
  {
  }

  /** The ways in which the copy ends at the frame at the start of `s`. */
  lemma ScanEnds(s: seq<byte>, open: Option<nat>, limit: nat)
    ensures s == [] ==> Scan(s, open, limit) == Copy(0, Closed)
    ensures s != [] && ReadHead(s).None? ==> Scan(s, open, limit) == Copy(0, CutShort)
    ensures s != [] && ReadHead(s).Some? ==>
              var h := ReadHead(s).value;
              var v := Judge(h, open, limit);
              && (v.Refuse? ==> Scan(s, open, limit) == Copy(0, Refused(v.reason)))
              && (v.Forward? && |s| < HeaderSize(h) ==> Scan(s, open, limit) == Copy(0, CutShort))
              && (v.Forward? && HeaderSize(h) <= |s| < FrameSize(h) ==>
                  Scan(s, open, limit) == Copy(HeaderSize(h) + WholeChunks(|s| - HeaderSize(h)), CutShort))
  {
  }

  lemma HeaderThenPayload(s: seq<byte>, header: seq<byte>, tail: seq<byte>, copied: nat)
    requires s == header + tail && copied <= |tail|
    ensures s[..|header| + copied] == header + tail[..copied] && s[|header| + copied..] == tail[copied..]
  {
  }

  /** One frame: either it is forwarded whole, or the copy ends here, `n` bytes of it forwarded. */
  method CopyFrame(reader: PrefixedReader, writer: Writer, open: Option<nat>, limit: nat)
    returns (done: Option<End>, next: Option<nat>, n: nat)
    requires reader.Valid()
    modifies reader, writer
    ensures reader.Valid()
    ensures n <= |old(reader.Rest())| && writer.written == old(writer.written) + old(reader.Rest())[..n]
    ensures done.Some? ==> Scan(old(reader.Rest()), open, limit) == Copy(n, done.value)
    ensures done.None? ==>
              var s := old(reader.Rest());
              && 0 < n && reader.Rest() == s[n..]
              && ReadHead(s).Some? && Judge(ReadHead(s).value, open, limit) == Forward(next)
              && n == FrameSize(ReadHead(s).value)
  {
    hide Scan, ReadHead, Judge;
    ghost var s := reader.Rest();
    n, next := 0, open;
    ScanEnds(s, open, limit);
    var eof, head, header := ReadFrameHead(reader);
    if eof { return Some(Closed), open, 0; }
    if head.None? { return Some(CutShort), open, 0; }
    var verdict := Judge(head.value, open, limit);
    if verdict.Refuse? { return Some(Refused(verdict.reason)), open, 0; }
    var maskOk, mask := reader.ReadExact(if head.value.masked then 4 else 0);
    if !maskOk { return Some(CutShort), open, 0; }
    ghost var tail := reader.Rest();
    Concat(header, mask, tail);
    header := header + mask;
    writer.WriteAll(header);
    var ok, copied := CopyPayload(reader, writer, head.value.payload);
    n := |header| + copied;
    HeaderThenPayload(s, header, tail, copied);
    Concat(old(writer.written), header, tail[..copied]);
    next := verdict.open;
    done := if ok then None else Some(CutShort);
  }

  /** What is written is exactly the prefix `Scan` describes, and `copied` is its length when the
      client closes between frames; the buffered prefix and the poll sizes make no difference. */
  method CopyFramesLimited(reader: PrefixedReader, writer: Writer, limit: nat) returns (copied: nat, end: End)
    requires reader.Valid()
    modifies reader, writer
    ensures Scan(old(reader.Rest()), None, limit) == Copy(copied, end)
    ensures writer.written == old(writer.written) + old(reader.Rest())[..copied]
  {
    hide Scan, ReadHead, Judge;
    ghost var s := reader.Rest();
    var open := None;
    copied := 0;
    assert s[0..] == s;
    while true
      invariant reader.Valid() && copied <= |s| && reader.Rest() == s[copied..]
      invariant writer.written == old(writer.written) + s[..copied]
      invariant Scan(s, None, limit)
                == Copy(copied + Scan(s[copied..], open, limit).forwarded, Scan(s[copied..], open, limit).end)
      decreases |s| - copied
    {
      ghost var rest := s[copied..];
      var done, next, n := CopyFrame(reader, writer, open, limit);
      SlicesCompose(s, copied, n);
      Concat(old(writer.written), s[..copied], rest[..n]);
      if done.Some? {
        return copied + n, done.value;
      }
      ScanStep(rest, open, limit, ReadHead(rest).value, next);
      copied := copied + n;
      open := next;
    }
  }
}
