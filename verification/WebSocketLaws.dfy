/** What the limiter's output always satisfies, and exactly which streams it lets through. */
module WebSocketLaws {
  import opened Common
  import opened WebSocket

  // ---- A reference reading of a byte stream, without limits ----

  function Size(h: Head, present: nat, open: Option<nat>): nat {
    present + if h.opcode == 0 && open.Some? then open.value else 0
  }

  function Unfinished(open: Option<nat>): seq<nat> {
    if open.Some? then [open.value] else []
  }

  /** The messages that end with a frame of which `present` payload bytes are there. */
  function Ended(h: Head, present: nat, open: Option<nat>): seq<nat> {
    if h.opcode >= 8 then []
    else (if h.opcode == 0 then [] else Unfinished(open)) + if h.fin then [Size(h, present, open)] else []
  }

  /** The message left open by the frame. */
  function OpenNext(h: Head, present: nat, open: Option<nat>): Option<nat> {
    if h.opcode >= 8 then open else if h.fin then None else Some(Size(h, present, open))
  }

  /** The payload sizes of the data messages in `s`, by RFC 6455 framing: control frames do not
      count, continuations extend the open message, and a cut frame counts what is present. */
  function MessageLoads(s: seq<byte>, open: Option<nat>): seq<nat>
    decreases |s|
  {
    var head := ReadHead(s);
    if head.None? || |s| < HeaderSize(head.value) then Unfinished(open)
    else
      var h := head.value;
      var present := Min(h.payload, |s| - HeaderSize(h));
      Ended(h, present, open) + MessageLoads(s[HeaderSize(h) + present..], OpenNext(h, present, open))
  }

  /** The size of the message left open after the whole frames of `s`. */
  function OpenAfter(s: seq<byte>, open: Option<nat>): Option<nat>
    decreases |s|
  {
    var head := ReadHead(s);
    if head.None? || |s| < FrameSize(head.value) then open
    else OpenAfter(s[FrameSize(head.value)..], OpenNext(head.value, head.value.payload, open))
  }

  predicate WholeFrames(s: seq<byte>)
    decreases |s|
  {
    s == [] ||
    var head := ReadHead(s);
    head.Some? && FrameSize(head.value) <= |s| && WholeFrames(s[FrameSize(head.value)..])
  }

  predicate AllWithin(loads: seq<nat>, limit: nat) {
    forall i :: 0 <= i < |loads| ==> loads[i] <= limit
  }

  lemma HeadOfPrefix(s: seq<byte>, n: nat)
    requires ReadHead(s).Some? && HeaderSize(ReadHead(s).value) <= n <= |s|
    ensures ReadHead(s[..n]) == ReadHead(s)
  {
    var ext := ExtendedLength(s[1] % 128);
    assert s[..n][2..2 + ext] == s[2..2 + ext];
  }

  lemma LoadsStep(t: seq<byte>, open: Option<nat>, h: Head)
    requires ReadHead(t) == Some(h) && HeaderSize(h) <= |t|
    ensures var present := Min(h.payload, |t| - HeaderSize(h));
            MessageLoads(t, open) == Ended(h, present, open) + MessageLoads(t[HeaderSize(h) + present..], OpenNext(h, present, open))
  {
    hide ReadHead, Ended, OpenNext, HeaderSize;
  }

  /** What the limiter lets through keeps every message within the limit, and it tracks the open one. */
  lemma JudgedWithin(h: Head, present: nat, open: Option<nat>, limit: nat, next: Option<nat>)
    requires Judge(h, open, limit) == Forward(next) && present <= h.payload
    ensures AllWithin(Ended(h, present, open), limit)
    ensures present == h.payload ==> OpenNext(h, present, open) == next
    ensures (open.Some? ==> open.value <= limit) ==> OpenNext(h, present, open).Some? ==> OpenNext(h, present, open).value <= limit
  {
  }

  lemma LoadsOfForwarded(t: seq<byte>, open: Option<nat>, limit: nat, h: Head, next: Option<nat>)
    requires ReadHead(t) == Some(h) && FrameSize(h) <= |t| && Judge(h, open, limit) == Forward(next)
    requires AllWithin(MessageLoads(t[FrameSize(h)..], next), limit)
    ensures AllWithin(MessageLoads(t, open), limit)
  {
    hide ReadHead, AllWithin, MessageLoads, Judge, Ended, OpenNext;
    LoadsStep(t, open, h);
    JudgedWithin(h, h.payload, open, limit, next);
    WithinConcat(Ended(h, h.payload, open), MessageLoads(t[FrameSize(h)..], next), limit);
  }

  lemma WithinConcat(first: seq<nat>, rest: seq<nat>, limit: nat)
    ensures AllWithin(first + rest, limit) <==> AllWithin(first, limit) && AllWithin(rest, limit)
  {
    if AllWithin(first + rest, limit) {
      assert forall i :: 0 <= i < |first| ==> first[i] == (first + rest)[i];
      assert forall i :: 0 <= i < |rest| ==> rest[i] == (first + rest)[|first| + i];
    }
  }

  lemma LoadsOfCut(t: seq<byte>, open: Option<nat>, limit: nat, h: Head, next: Option<nat>)
    requires ReadHead(t) == Some(h) && HeaderSize(h) <= |t| < FrameSize(h) && Judge(h, open, limit) == Forward(next)
    requires open.Some? ==> open.value <= limit
    ensures AllWithin(MessageLoads(t, open), limit)
  {
    hide ReadHead, AllWithin, MessageLoads, Judge, Ended, OpenNext;
    var present := |t| - HeaderSize(h);
    assert t[HeaderSize(h) + present..] == [];
    LoadsStep(t, open, h);
    JudgedWithin(h, present, open, limit, next);
    LoadsOfNothing(OpenNext(h, present, open), limit);
    WithinConcat(Ended(h, present, open), MessageLoads([], OpenNext(h, present, open)), limit);
  }

  /** Every data message in what is forwarded, its fragments summed, is within the limit, for every
      input. */
  lemma {:induction false} ForwardedWithinLimit(s: seq<byte>, open: Option<nat>, limit: nat)
    requires open.Some? ==> open.value <= limit
    ensures AllWithin(MessageLoads(s[..Scan(s, open, limit).forwarded], open), limit)
    decreases |s|
  {
    hide ReadHead, MessageLoads, AllWithin;
    var n := Scan(s, open, limit).forwarded;
    if n == 0 {
      assert s[..0] == [];
      LoadsOfNothing(open, limit);
      return;
    }
    var h := ReadHead(s).value;
    var next := Judge(h, open, limit).open;
    HeadOfPrefix(s, n);
    if FrameSize(h) <= |s| {
      var rest := s[FrameSize(h)..];
      ForwardedWithinLimit(rest, next, limit);
      assert s[..n][FrameSize(h)..] == rest[..n - FrameSize(h)];
      LoadsOfForwarded(s[..n], open, limit, h, next);
    } else {
      LoadsOfCut(s[..n], open, limit, h, next);
    }
  }

  lemma LoadsOfNothing(open: Option<nat>, limit: nat)
    requires open.Some? ==> open.value <= limit
    ensures AllWithin(MessageLoads([], open), limit)
  {
  }

  /** Why a frame is refused when a message of `open` bytes is open, or none: each frame has at most one reason. */
  predicate Explains(reason: Reason, h: Head, open: Option<nat>, limit: nat) {
    match reason
    case OrphanContinuation => h.opcode == 0 && open == None
    case TooLarge => h.opcode == 0 && open != None && open.value + h.payload >= 0x1_0000_0000_0000_0000
    case OverLimit =>
      if h.opcode == 0 then open != None && limit < open.value + h.payload < 0x1_0000_0000_0000_0000
      else h.opcode in {1, 2} && open == None && limit < h.payload
    case InterruptedMessage => h.opcode in {1, 2} && open != None
    case BadControl => h.opcode in {3, 4, 5, 6, 7} || (h.opcode >= 8 && (!h.fin || h.payload >= 126))
  }

  lemma ReasonExactly(h: Head, open: Option<nat>, limit: nat, reason: Reason)
    ensures Judge(h, open, limit) == Refuse(reason) <==> Explains(reason, h, open, limit)
  {
  }

  /** Nothing of a refused frame is forwarded: the forwarded bytes are whole frames, and the frame
      refused is the one that follows them, for the reason that the message they leave open gives. */
  lemma {:induction false} RefusedFrameIsWithheld(s: seq<byte>, open: Option<nat>, limit: nat)
    requires Scan(s, open, limit).end.Refused?
    ensures var n := Scan(s, open, limit).forwarded;
            && WholeFrames(s[..n]) && ReadHead(s[n..]).Some?
            && Explains(Scan(s, open, limit).end.reason, ReadHead(s[n..]).value, OpenAfter(s[..n], open), limit)
    decreases |s|
  {
    hide ReadHead, Scan, WholeFrames, OpenAfter, FrameSize, Judge, Explains;
    var n := Scan(s, open, limit).forwarded;
    RefusedOrForwarded(s, open, limit);
    var h := ReadHead(s).value;
    if Judge(h, open, limit).Refuse? {
      ReasonExactly(h, open, limit, Judge(h, open, limit).reason);
      assert s[0..] == s && s[..0] == [];
      OpenAfterNothing(open);
    } else {
      var next, rest := Judge(h, open, limit).open, s[FrameSize(h)..];
      RefusedFrameIsWithheld(rest, next, limit);
      PrefixSteps(s, n, h, open);
      JudgedWithin(h, h.payload, open, limit, next);
      assert s[n..] == rest[n - FrameSize(h)..];
    }
  }

  /** The two ways on from the frame at the start when a frame is refused in the end. */
  lemma RefusedOrForwarded(s: seq<byte>, open: Option<nat>, limit: nat)
    requires Scan(s, open, limit).end.Refused?
    ensures ReadHead(s).Some?
    ensures var h := ReadHead(s).value;
            match Judge(h, open, limit)
            case Refuse(reason) => Scan(s, open, limit) == Copy(0, Refused(reason))
            case Forward(next) =>
              && 0 < FrameSize(h) <= |s|
              && var rest := Scan(s[FrameSize(h)..], next, limit);
                 Scan(s, open, limit) == Copy(FrameSize(h) + rest.forwarded, rest.end)
  {
    hide ReadHead;
  }

  lemma PrefixSteps(s: seq<byte>, n: nat, h: Head, open: Option<nat>)
    requires ReadHead(s) == Some(h) && FrameSize(h) <= n <= |s|
    ensures var rest := s[FrameSize(h)..][..n - FrameSize(h)];
            && WholeFrames(s[..n]) == WholeFrames(rest)
            && OpenAfter(s[..n], open) == OpenAfter(rest, OpenNext(h, h.payload, open))
  {
    HeadOfPrefix(s, n);
    hide ReadHead;
    assert s[..n][FrameSize(h)..] == s[FrameSize(h)..][..n - FrameSize(h)];
  }

  lemma OpenAfterNothing(open: Option<nat>)
    ensures OpenAfter([], open) == open && WholeFrames([])
  {
  }

  /** When the client closes between frames, everything it sent was forwarded. */
  lemma {:induction false} ClosedForwardsAll(s: seq<byte>, open: Option<nat>, limit: nat)
    requires Scan(s, open, limit).end.Closed?
    ensures Scan(s, open, limit).forwarded == |s|
    decreases |s|
  {
    if s != [] {
      var h := ReadHead(s).value;
      ClosedForwardsAll(s[FrameSize(h)..], Judge(h, open, limit).open, limit);
    }
  }

  /** The frame at position `p` does not end before `s` does, and of its bytes `sent` were forwarded: nothing
      before the header with its mask is complete, then the header and the payload in whole pieces of 8 KiB. */
  predicate CutFrame(s: seq<byte>, p: nat, sent: nat)
    requires p <= |s|
  {
    && p < |s|
    && var head := ReadHead(s[p..]);
       if head.None? || |s| - p < HeaderSize(head.value) then sent == 0
       else
         && |s| - p < FrameSize(head.value)
         && HeaderSize(head.value) <= sent && (sent - HeaderSize(head.value)) % 8_192 == 0
         && sent <= |s| - p < sent + 8_192
  }

  /** When the client breaks off inside a frame, every frame before it was forwarded whole and of the last one
      all that fills whole pieces. */
  lemma {:induction false} CutForwards(s: seq<byte>, open: Option<nat>, limit: nat) returns (p: nat)
    requires Scan(s, open, limit).end.CutShort?
    ensures p <= Scan(s, open, limit).forwarded
    ensures WholeFrames(s[..p]) && CutFrame(s, p, Scan(s, open, limit).forwarded - p)
    decreases |s|
  {
    hide ReadHead, WholeFrames, OpenAfter, FrameSize, Scan;
    CutOrForwarded(s, open, limit);
    var head := ReadHead(s);
    p := 0;
    if head.Some? && FrameSize(head.value) <= |s| {
      var h := head.value;
      var next, rest := Judge(h, open, limit).open, s[FrameSize(h)..];
      var q := CutForwards(rest, next, limit);
      p := FrameSize(h) + q;
      PrefixSteps(s, p, h, open);
      assert s[p..] == rest[q..];
    } else {
      assert s[0..] == s && s[..0] == [];
      OpenAfterNothing(open);
    }
  }

  /** The two ways on from the frame at the start when the stream ends inside a frame. */
  lemma CutOrForwarded(s: seq<byte>, open: Option<nat>, limit: nat)
    requires Scan(s, open, limit).end.CutShort?
    ensures if ReadHead(s).Some? && FrameSize(ReadHead(s).value) <= |s| then
              var h := ReadHead(s).value;
              && Judge(h, open, limit).Forward? && 0 < FrameSize(h)
              && var rest := Scan(s[FrameSize(h)..], Judge(h, open, limit).open, limit);
                 Scan(s, open, limit) == Copy(FrameSize(h) + rest.forwarded, rest.end)
            else
              CutFrame(s, 0, Scan(s, open, limit).forwarded)
  {
    hide ReadHead, WholeChunks;
    assert s[0..] == s;
    if ReadHead(s).Some? && HeaderSize(ReadHead(s).value) <= |s| {
      WholeChunksExact(|s| - HeaderSize(ReadHead(s).value));
    }
  }

  // ---- Frames and their serialisation (RFC 6455 section 5.2) ----

  datatype Encoding = Seven | Sixteen | SixtyFour

  datatype Frame = Frame(fin: bool, rsv: nat, opcode: nat, encoding: Encoding, mask: Option<seq<byte>>, payload: seq<byte>)

  function Power256(k: nat): nat {
    if k == 0 then 1 else 256 * Power256(k - 1)
  }

  function ToBigEndian(n: nat, k: nat): (r: seq<byte>)
    ensures |r| == k
  {
    if k == 0 then [] else ToBigEndian(n / 256, k - 1) + [n % 256]
  }

  function ExtensionBytes(e: Encoding): nat {
    match e case Seven => 0 case Sixteen => 2 case SixtyFour => 8
  }

  predicate Encodable(f: Frame) {
    && f.rsv < 8 && f.opcode < 16
    && (f.mask.Some? ==> |f.mask.value| == 4)
    && match f.encoding
       case Seven => |f.payload| <= 125
       case _ => |f.payload| < Power256(ExtensionBytes(f.encoding))
  }

  function Marker(f: Frame): nat {
    match f.encoding case Seven => |f.payload| case Sixteen => 126 case SixtyFour => 127
  }

  function FirstByte(f: Frame): byte
    requires Encodable(f)
  {
    (if f.fin then 128 else 0) + f.rsv * 16 + f.opcode
  }

  function SecondByte(f: Frame): byte
    requires Encodable(f)
  {
    (if f.mask.Some? then 128 else 0) + Marker(f)
  }

  function Serialize(f: Frame): seq<byte>
    requires Encodable(f)
  {
    [FirstByte(f), SecondByte(f)]
    + ToBigEndian(|f.payload|, ExtensionBytes(f.encoding))
    + (if f.mask.Some? then f.mask.value else [])
    + f.payload
  }

  function SerializeAll(frames: seq<Frame>): seq<byte>
    requires forall i :: 0 <= i < |frames| ==> Encodable(frames[i])
  {
    if frames == [] then [] else Serialize(frames[0]) + SerializeAll(frames[1..])
  }

  function HeadOf(f: Frame): Head {
    Head(f.fin, f.opcode, f.mask.Some?, ExtensionBytes(f.encoding), |f.payload|)
  }

  lemma {:induction false} BigEndianInverse(n: nat, k: nat)
    requires n < Power256(k)
    ensures BigEndian(ToBigEndian(n, k)) == n
  {
    if k > 0 {
      BigEndianInverse(n / 256, k - 1);
      var r := ToBigEndian(n, k);
      assert r[..|r| - 1] == ToBigEndian(n / 256, k - 1);
    }
  }

  /** The header of a serialised frame reads back as that frame's, whatever follows. */
  lemma SerializedHead(f: Frame, tail: seq<byte>)
    requires Encodable(f)
    ensures ReadHead(Serialize(f) + tail) == Some(HeadOf(f))
    ensures |Serialize(f)| == FrameSize(HeadOf(f))
  {
    var s := Serialize(f) + tail;
    var k := ExtensionBytes(f.encoding);
    HeadBytes(f);
    MarkerOf(f);
    assert s[0] == FirstByte(f) && s[1] == SecondByte(f);
    assert s[2..2 + k] == ToBigEndian(|f.payload|, k);
    if k > 0 { BigEndianInverse(|f.payload|, k); }
    hide BigEndian, ToBigEndian, Power256, FirstByte, SecondByte, ExtendedLength;
  }

  lemma HeadBytes(f: Frame)
    requires Encodable(f)
    ensures (FirstByte(f) >= 128 <==> f.fin) && FirstByte(f) % 16 == f.opcode
    ensures (SecondByte(f) >= 128 <==> f.mask.Some?) && SecondByte(f) % 128 == Marker(f)
  {
    hide Power256;
    assert (128 + f.rsv * 16 + f.opcode) % 16 == f.opcode && (f.rsv * 16 + f.opcode) % 16 == f.opcode;
  }

  lemma MarkerOf(f: Frame)
    requires Encodable(f)
    ensures ExtendedLength(Marker(f)) == ExtensionBytes(f.encoding)
  {
    hide Power256;
  }

  // ---- Legality of a frame sequence, stated by whole messages (sections 5.4 and 5.5) ----

  predicate IsControl(f: Frame) {
    f.opcode >= 8
  }

  /** Continuations extend an open message, new messages start only when none is open, control
      frames are whole and short; `open` says whether a message is open. */
  predicate FragmentationLegal(frames: seq<Frame>, open: bool) {
    frames == [] ||
    var f := frames[0];
    if IsControl(f) then f.fin && |f.payload| <= 125 && FragmentationLegal(frames[1..], open)
    else
      && (if open then f.opcode == 0 else f.opcode == 1 || f.opcode == 2)
      && FragmentationLegal(frames[1..], !f.fin)
  }

  /** The total payload of each data message, the open one having `carried` so far. */
  function MessageTotals(frames: seq<Frame>, carried: nat): seq<nat> {
    if frames == [] then [carried]
    else if IsControl(frames[0]) then MessageTotals(frames[1..], carried)
    else if frames[0].fin then [carried + |frames[0].payload|] + MessageTotals(frames[1..], 0)
    else MessageTotals(frames[1..], carried + |frames[0].payload|)
  }

  lemma {:induction false} FirstTotalCarries(frames: seq<Frame>, carried: nat)
    ensures |MessageTotals(frames, carried)| > 0 && MessageTotals(frames, carried)[0] >= carried
  {
    if frames != [] {
      FirstTotalCarries(frames[1..], if IsControl(frames[0]) then carried else if frames[0].fin then 0 else carried + |frames[0].payload|);
    }
  }

  function Carried(open: Option<nat>): nat {
    if open.Some? then open.value else 0
  }

  lemma RefusedIsIllegal(frames: seq<Frame>, open: Option<nat>, limit: nat)
    requires frames != [] && limit <= USIZE_MAX
    requires Judge(HeadOf(frames[0]), open, limit).Refuse?
    ensures !(FragmentationLegal(frames, open.Some?) && AllWithin(MessageTotals(frames, Carried(open)), limit))
  {
    var f := frames[0];
    FirstTotalCarries(frames[1..], Carried(open) + |f.payload|);
    if !IsControl(f) && Carried(open) + |f.payload| > limit {
      assert MessageTotals(frames, Carried(open))[0] > limit;
    }
  }

  /** A serialised frame sequence is forwarded byte for byte exactly when its fragmentation is legal
      and every message is within the limit. */
  lemma {:induction false} ForwardedExactlyWhenLegal(frames: seq<Frame>, open: Option<nat>, limit: nat)
    requires forall i :: 0 <= i < |frames| ==> Encodable(frames[i])
    requires limit <= USIZE_MAX && Carried(open) <= limit
    ensures Scan(SerializeAll(frames), open, limit) == Copy(|SerializeAll(frames)|, Closed)
            <==> FragmentationLegal(frames, open.Some?) && AllWithin(MessageTotals(frames, Carried(open)), limit)
    decreases |frames|
  {
    hide Scan, ReadHead, Encodable, Serialize;
    ScanEnds(SerializeAll(frames), open, limit);
    if frames != [] {
      var f, s := frames[0], SerializeAll(frames);
      var h := HeadOf(f);
      SerializedHead(f, SerializeAll(frames[1..]));
      var v := Judge(h, open, limit);
      assert s == Serialize(f) + SerializeAll(frames[1..]);
      assert ReadHead(s) == Some(h);
      if v.Refuse? {
        RefusedIsIllegal(frames, open, limit);
      } else {
        ForwardedExactlyWhenLegal(frames[1..], v.open, limit);
        assert s[FrameSize(h)..] == SerializeAll(frames[1..]);
        WithinConcat([Carried(open) + |f.payload|], MessageTotals(frames[1..], 0), limit);
        ScanStep(s, open, limit, h, v.open);
      }
    }
  }
}
