/**
 The reader of the isolated browser's helper: a byte stream cut into frames,
 relayed to the browser except for downloads the transfer policy refused.
 */
module Tiles {
  type Byte = x: int | 0 <= x < 256

  const WORD := 0x1_0000_0000

  /** An unsigned big-endian number. */
  function BigEndian(bytes: seq<Byte>): nat
    decreases |bytes|
  {
    if bytes == [] then 0 else BigEndian(bytes[..|bytes| - 1]) * 256 + bytes[|bytes| - 1]
  }

  /** The same bits read as a signed 64-bit number. */
  function Signed64(n: nat): int { if n < 0x8000_0000_0000_0000 then n else n - 0x1_0000_0000_0000_0000 }

  datatype Frame = Frame(kind: Byte, payload: seq<Byte>)

  /** What a frame makes the reader send. */
  datatype Sent = Log(text: seq<Byte>) | Relayed(frame: Frame) | RefusalNotice

  const LOG: Byte := 3
  const BEGIN: Byte := 5
  const CHUNK: Byte := 6
  const END: Byte := 7

  // ---- framing ----

  datatype Taken = Short | Complete(frame: Frame, consumed: nat)

  function Length(buf: seq<Byte>): nat
    requires |buf| >= 5
  {
    BigEndian(buf[1..5])
  }

  /** The header and payload size, in the 32-bit arithmetic of `5 + len`. */
  function Need(len: nat): nat { (5 + len) % WORD }

  function Take(buf: seq<Byte>): Taken {
    if |buf| < 5 || |buf| < Need(Length(buf)) then Short
    else
      var end := if 5 + Length(buf) < |buf| then 5 + Length(buf) else |buf|;
      Complete(Frame(buf[0], buf[5..end]), Need(Length(buf)))
  }

  predicate Wraps(buf: seq<Byte>) { |buf| >= 5 && 5 + Length(buf) >= WORD }

  lemma TakeUnwrapped(buf: seq<Byte>)
    requires |buf| >= 5 && !Wraps(buf)
    ensures Take(buf) == if |buf| < 5 + Length(buf) then Short
      else Complete(Frame(buf[0], buf[5..5 + Length(buf)]), 5 + Length(buf))
  {}

  lemma TakeExtended(buf: seq<Byte>, more: seq<Byte>)
    requires Take(buf).Complete? && !Wraps(buf)
    ensures Take(buf + more) == Take(buf) && !Wraps(buf + more)
  {
    var grown := buf + more;
    assert grown[1..5] == buf[1..5];
    TakeUnwrapped(buf);
    TakeUnwrapped(grown);
    assert grown[5..5 + Length(buf)] == buf[5..5 + Length(buf)];
  }

  /**
   A frame the reader takes is the same whatever follows it exactly when its whole
   payload was there; only a length near 2^32, which wraps, lets it take less.
   */
  lemma FrameStableExactly(buf: seq<Byte>)
    requires Take(buf).Complete?
    ensures (forall more :: Take(buf + more) == Take(buf)) <==> |buf| >= 5 + Length(buf)
    ensures !Wraps(buf) ==> |buf| >= 5 + Length(buf)
  {
    var zero: Byte := 0;
    var grown := buf + [zero];
    assert grown[1..5] == buf[1..5];
    if |buf| >= 5 + Length(buf) {
      forall more ensures Take(buf + more) == Take(buf) {
        assert (buf + more)[1..5] == buf[1..5];
        assert (buf + more)[5..5 + Length(buf)] == buf[5..5 + Length(buf)];
      }
    } else {
      assert |Take(grown).frame.payload| == |buf| - 4;
      assert Take(buf + [zero]) != Take(buf);
    }
  }

  // ---- downloads ----

  /** May a download of this name and size go through? */
  type Policy = (seq<Byte>, int) -> bool

  predicate IsDownload(f: Frame) { f.kind in {BEGIN, CHUNK, END} && |f.payload| >= 4 }

  function DownloadId(f: Frame): nat
    requires IsDownload(f)
  {
    BigEndian(f.payload[..4])
  }

  /** Size and name announced by a begin frame; absent parts are 0 and empty. */
  function Announced(f: Frame): (seq<Byte>, int) {
    if |f.payload| < 14 then ([], 0)
    else
      var size := Signed64(BigEndian(f.payload[4..12]));
      var n := BigEndian(f.payload[12..14]);
      (if |f.payload| >= 14 + n then f.payload[14..14 + n] else [], size)
  }

  predicate Refused(allowed: Policy, f: Frame) {
    IsDownload(f) && f.kind == BEGIN && !allowed(Announced(f).0, Announced(f).1)
  }

  function Handle(allowed: Policy, f: Frame, blocked: set<nat>): (seq<Sent>, set<nat>) {
    if f.kind == LOG then ([Log(f.payload)], blocked)
    else if Refused(allowed, f) then ([RefusalNotice], blocked + {DownloadId(f)})
    else if IsDownload(f) && f.kind != BEGIN && DownloadId(f) in blocked then
      ([], if f.kind == END then blocked - {DownloadId(f)} else blocked)
    else ([Relayed(f)], blocked)
  }

  // ---- the reader ----

  /** `stuck`: a length that wraps to 0 is consumed for ever. */
  datatype Reader = Reader(sent: seq<Sent>, rbuf: seq<Byte>, blocked: set<nat>, stuck: bool)

  function Prefixed(sent: seq<Sent>, r: Reader): Reader { r.(sent := sent + r.sent) }

  /** Consume as many complete frames as are buffered. */
  function Drain(allowed: Policy, buf: seq<Byte>, blocked: set<nat>): Reader
    decreases |buf|
  {
    match Take(buf)
    case Short => Reader([], buf, blocked, false)
    case Complete(f, consumed) =>
      var (sent, next) := Handle(allowed, f, blocked);
      if consumed == 0 then Reader(sent, buf, next, true)
      else Prefixed(sent, Drain(allowed, buf[consumed..], next))
  }

  lemma DrainShort(allowed: Policy, buf: seq<Byte>, blocked: set<nat>)
    requires Take(buf).Short?
    ensures Drain(allowed, buf, blocked) == Reader([], buf, blocked, false)
  {}

  lemma DrainOne(allowed: Policy, buf: seq<Byte>, blocked: set<nat>)
    requires Take(buf).Complete?
    ensures var (sent, next) := Handle(allowed, Take(buf).frame, blocked); var consumed := Take(buf).consumed;
      Drain(allowed, buf, blocked) ==
        if consumed == 0 then Reader(sent, buf, next, true) else Prefixed(sent, Drain(allowed, buf[consumed..], next))
  {}

  lemma PrefixedTwice(a: seq<Sent>, b: seq<Sent>, r: Reader)
    ensures Prefixed(a, Prefixed(b, r)) == Prefixed(a + b, r)
    ensures Prefixed([], r) == r
  {}

  lemma TakeConsumes(buf: seq<Byte>)
    requires Take(buf).Complete?
    ensures Take(buf).consumed <= |buf|
  {}

  class TileReader {
    const allowed: Policy
    var rbuf: seq<Byte>
    var blocked: set<nat>

    constructor (allowed: Policy)
      ensures this.allowed == allowed && rbuf == [] && blocked == {}
    {
      this.allowed := allowed;
      rbuf, blocked := [], {};
    }

    /** One frame: logged, relayed, or held back with the rest of its download. */
    method Relay(frame: Frame) returns (sent: seq<Sent>)
      modifies `blocked
      ensures (sent, blocked) == Handle(allowed, frame, old(blocked))
    {
      if frame.kind == LOG { return [Log(frame.payload)]; }
      sent := [];
      var suppress := false;
      if IsDownload(frame) {
        var id := DownloadId(frame);
        if frame.kind == BEGIN {
          var (name, size) := Announced(frame);
          if !allowed(name, size) {
            blocked := blocked + {id};
            suppress := true;
            sent := [RefusalNotice];
          }
        } else if id in blocked {
          suppress := true;
          if frame.kind == END {
            blocked := blocked - {id};
          }
        }
      }
      if !suppress {
        sent := [Relayed(frame)];
      }
    }

    /** One read of the helper's output; `stuck` stands for a loop that never ends. */
    method Feed(chunk: seq<Byte>) returns (sent: seq<Sent>, stuck: bool)
      modifies this
      ensures Reader(sent, rbuf, blocked, stuck) == Drain(allowed, old(rbuf) + chunk, old(blocked))
    {
      hide Drain, Take, Handle, Prefixed;
      rbuf := rbuf + chunk;
      sent, stuck := [], false;
      ghost var goal := Drain(allowed, rbuf, blocked);
      PrefixedTwice([], [], goal);
      while Take(rbuf).Complete?
        invariant goal == Prefixed(sent, Drain(allowed, rbuf, blocked))
        decreases |rbuf|
      {
        var frame := Take(rbuf).frame;
        var consumed := Take(rbuf).consumed;
        DrainOne(allowed, rbuf, blocked);
        TakeConsumes(rbuf);
        var next := Relay(frame);
        if consumed == 0 {
          PrefixedIs(sent, next, rbuf, blocked, true);
          return sent + next, true;
        }
        rbuf := rbuf[consumed..];
        PrefixedTwice(sent, next, Drain(allowed, rbuf, blocked));
        sent := sent + next;
      }
      DrainShort(allowed, rbuf, blocked);
      PrefixedIs(sent, [], rbuf, blocked, false);
      assert sent + [] == sent;
    }
  }

  lemma PrefixedIs(a: seq<Sent>, b: seq<Sent>, rbuf: seq<Byte>, blocked: set<nat>, stuck: bool)
    ensures Prefixed(a, Reader(b, rbuf, blocked, stuck)) == Reader(a + b, rbuf, blocked, stuck)
  {}

  // ---- the whole stream at once ----

  /** Every frame reached in `buf` has a length that does not wrap. */
  ghost predicate Proper(buf: seq<Byte>)
    decreases |buf|
  {
    !Wraps(buf) && (Take(buf).Complete? ==> Proper(buf[Take(buf).consumed..]))
  }

  function Frames(buf: seq<Byte>): seq<Frame>
    decreases |buf|
  {
    match Take(buf)
    case Short => []
    case Complete(f, consumed) => if consumed == 0 then [f] else [f] + Frames(buf[consumed..])
  }

  /** All frames of a list, handled in order. */
  function HandleAll(allowed: Policy, frames: seq<Frame>, blocked: set<nat>): (seq<Sent>, set<nat>)
    decreases |frames|
  {
    if frames == [] then ([], blocked)
    else
      var (sent, next) := Handle(allowed, frames[0], blocked);
      var (more, last) := HandleAll(allowed, frames[1..], next);
      (sent + more, last)
  }

  lemma {:induction false} DrainHandlesFrames(allowed: Policy, buf: seq<Byte>, blocked: set<nat>)
    requires Proper(buf)
    ensures var d := Drain(allowed, buf, blocked);
      !d.stuck && (d.sent, d.blocked) == HandleAll(allowed, Frames(buf), blocked)
    decreases |buf|
  {
    hide Handle;
    var t := Take(buf);
    if t.Complete? {
      var next := Handle(allowed, t.frame, blocked).1;
      DrainHandlesFrames(allowed, buf[t.consumed..], next);
      assert Frames(buf)[1..] == Frames(buf[t.consumed..]);
    }
  }

  lemma TakeSize(buf: seq<Byte>)
    requires !Wraps(buf) && Take(buf).Complete?
    ensures 5 <= Take(buf).consumed <= |buf|
  {
    hide BigEndian;
  }

  lemma ProperHead(buf: seq<Byte>)
    requires Proper(buf)
    ensures !Wraps(buf)
    ensures Take(buf).Complete? ==> 5 <= Take(buf).consumed <= |buf| && Proper(buf[Take(buf).consumed..])
  {
    hide Take, Wraps;
    if Take(buf).Complete? { TakeSize(buf); }
  }

  lemma ProperPrefix(buf: seq<Byte>, more: seq<Byte>)
    requires Proper(buf + more) && Take(buf).Complete?
    ensures var n := Take(buf).consumed;
      && Take(buf + more) == Take(buf) && 5 <= n <= |buf|
      && (buf + more)[n..] == buf[n..] + more && Proper(buf[n..] + more)
  {
    ProperHead(buf + more);
    assert (buf + more)[1..5] == buf[1..5];
    TakeExtended(buf, more);
    assert (buf + more)[Take(buf).consumed..] == buf[Take(buf).consumed..] + more;
  }

  /** Draining what was left with what comes next is draining it all. */
  lemma {:induction false} DrainExtended(allowed: Policy, buf: seq<Byte>, more: seq<Byte>, blocked: set<nat>)
    requires Proper(buf + more)
    ensures var first := Drain(allowed, buf, blocked);
      && !first.stuck && Proper(first.rbuf + more)
      && Drain(allowed, buf + more, blocked) == Prefixed(first.sent, Drain(allowed, first.rbuf + more, first.blocked))
    decreases |buf|
  {
    hide Handle, Drain, Take, Prefixed, Proper;
    if Take(buf).Short? {
      DrainShort(allowed, buf, blocked);
      PrefixedTwice([], [], Drain(allowed, buf + more, blocked));
    } else {
      ProperPrefix(buf, more);
      var n := Take(buf).consumed;
      var (sent, next) := Handle(allowed, Take(buf).frame, blocked);
      DrainExtended(allowed, buf[n..], more, next);
      DrainOne(allowed, buf, blocked);
      DrainOne(allowed, buf + more, blocked);
      var rest := Drain(allowed, buf[n..], next);
      PrefixedFields(sent, rest);
      PrefixedTwice(sent, rest.sent, Drain(allowed, rest.rbuf + more, rest.blocked));
    }
  }

  lemma PrefixedFields(sent: seq<Sent>, r: Reader)
    ensures var p := Prefixed(sent, r);
      p.sent == sent + r.sent && p.rbuf == r.rbuf && p.blocked == r.blocked && p.stuck == r.stuck
  {}

  function Concat(chunks: seq<seq<Byte>>): seq<Byte>
    decreases |chunks|
  {
    if chunks == [] then [] else chunks[0] + Concat(chunks[1..])
  }

  /** The reader fed one chunk after another. */
  function FeedAll(allowed: Policy, rbuf: seq<Byte>, blocked: set<nat>, chunks: seq<seq<Byte>>): Reader
    decreases |chunks|
  {
    if chunks == [] then Reader([], rbuf, blocked, false)
    else
      var first := Drain(allowed, rbuf + chunks[0], blocked);
      if first.stuck then first
      else Prefixed(first.sent, FeedAll(allowed, first.rbuf, first.blocked, chunks[1..]))
  }

  lemma {:induction false} FeedAllIsDrain(allowed: Policy, rbuf: seq<Byte>, blocked: set<nat>, chunks: seq<seq<Byte>>)
    requires Proper(rbuf + Concat(chunks)) && Take(rbuf).Short?
    ensures FeedAll(allowed, rbuf, blocked, chunks) == Drain(allowed, rbuf + Concat(chunks), blocked)
    decreases |chunks|
  {
    if chunks == [] {
      assert rbuf + [] == rbuf;
    } else {
      var tail := Concat(chunks[1..]);
      assert rbuf + Concat(chunks) == (rbuf + chunks[0]) + tail;
      DrainExtended(allowed, rbuf + chunks[0], tail, blocked);
      DrainLeavesShort(allowed, rbuf + chunks[0], blocked);
      var first := Drain(allowed, rbuf + chunks[0], blocked);
      FeedAllIsDrain(allowed, first.rbuf, first.blocked, chunks[1..]);
    }
  }

  lemma {:induction false} DrainLeavesShort(allowed: Policy, buf: seq<Byte>, blocked: set<nat>)
    ensures var d := Drain(allowed, buf, blocked); !d.stuck ==> Take(d.rbuf).Short?
    decreases |buf|
  {
    var t := Take(buf);
    if t.Complete? && t.consumed != 0 {
      DrainLeavesShort(allowed, buf[t.consumed..], Handle(allowed, t.frame, blocked).1);
    }
  }

  /** However the stream is cut into reads, the browser gets what the frames of the whole stream give. */
  lemma CutsDoNotMatter(allowed: Policy, chunks: seq<seq<Byte>>)
    requires Proper(Concat(chunks))
    ensures var d := FeedAll(allowed, [], {}, chunks);
      && !d.stuck
      && (d.sent, d.blocked) == HandleAll(allowed, Frames(Concat(chunks)), {})
      && d.rbuf == Drain(allowed, Concat(chunks), {}).rbuf
  {
    assert [] + Concat(chunks) == Concat(chunks);
    FeedAllIsDrain(allowed, [], {}, chunks);
    DrainHandlesFrames(allowed, Concat(chunks), {});
  }

  // ---- what the helper writes ----

  function Word(n: nat): seq<Byte>
    requires n < WORD
  {
    [n / 0x100_0000, n / 0x1_0000 % 256, n / 0x100 % 256, n % 256]
  }

  lemma BigEndianWord(n: nat)
    requires n < WORD
    ensures BigEndian(Word(n)) == n
  {
    hide BigEndian;
    var b := Word(n);
    assert b[..3][..2] == b[..2] && b[..2][..1] == b[..1] && b[..1][..0] == [] && b[..4] == b;
    BigEndianStep(b, 0);
    BigEndianStep(b, 1);
    BigEndianStep(b, 2);
    BigEndianStep(b, 3);
    WordDigits(n);
  }

  lemma BigEndianStep(bytes: seq<Byte>, k: nat)
    requires k < |bytes|
    ensures BigEndian(bytes[..k + 1]) == BigEndian(bytes[..k]) * 256 + bytes[k]
    ensures BigEndian(bytes[..0]) == 0
  {
    assert bytes[..k + 1][..k] == bytes[..k];
  }

  lemma WordDigits(n: nat)
    requires n < WORD
    ensures ((n / 0x100_0000 * 256 + n / 0x1_0000 % 256) * 256 + n / 0x100 % 256) * 256 + n % 256 == n
  {
    assert n / 0x100_0000 * 256 + n / 0x1_0000 % 256 == n / 0x1_0000;
    assert n / 0x1_0000 * 256 + n / 0x100 % 256 == n / 0x100;
  }

  // ---- the announcement of a download ----

  /** The 64 bits of a size, its high word first; a negative one is written in two's complement. */
  ghost function SizeField(size: int): seq<Byte>
    requires -0x8000_0000_0000_0000 <= size < 0x8000_0000_0000_0000
  {
    var n: nat := if size < 0 then size + 0x1_0000_0000_0000_0000 else size;
    Word(n / WORD) + Word(n % WORD)
  }

  ghost function LengthField(n: nat): seq<Byte>
    requires n < 0x1_0000
  {
    [n / 256, n % 256]
  }

  lemma BigEndianLast(s: seq<Byte>)
    requires s != []
    ensures BigEndian(s) == BigEndian(s[..|s| - 1]) * 256 + s[|s| - 1]
    ensures BigEndian([]) == 0
  {}

  lemma AppendOne(a: seq<Byte>, b: seq<Byte>)
    requires b != []
    ensures BigEndian(a + b) == BigEndian(a + b[..|b| - 1]) * 256 + b[|b| - 1]
    ensures BigEndian(b) == BigEndian(b[..|b| - 1]) * 256 + b[|b| - 1]
  {
    assert (a + b)[..|a + b| - 1] == a + b[..|b| - 1];
  }

  /** A word after a number is one more digit of base 2^32. */
  lemma BigEndianAppend(a: seq<Byte>, b: seq<Byte>)
    requires |b| == 4
    ensures BigEndian(a + b) == BigEndian(a) * WORD + BigEndian(b)
  {
    hide BigEndian;
    AppendOne(a, b);
    AppendOne(a, b[..3]);
    AppendOne(a, b[..2]);
    AppendOne(a, b[..1]);
    assert b[..3][..2] == b[..2] && b[..2][..1] == b[..1] && b[..1][..0] == [];
    assert a + [] == a;
    BigEndianLast(b);
  }

  lemma SizeRead(size: int)
    requires -0x8000_0000_0000_0000 <= size < 0x8000_0000_0000_0000
    ensures |SizeField(size)| == 8 && Signed64(BigEndian(SizeField(size))) == size
  {
    hide BigEndian, Word;
    var n: nat := if size < 0 then size + 0x1_0000_0000_0000_0000 else size;
    WordLength(n / WORD);
    WordLength(n % WORD);
    BigEndianAppend(Word(n / WORD), Word(n % WORD));
    BigEndianWord(n / WORD);
    BigEndianWord(n % WORD);
    assert n / WORD * WORD + n % WORD == n;
  }

  lemma WordLength(n: nat)
    requires n < WORD
    ensures |Word(n)| == 4
  {}

  lemma LengthRead(n: nat)
    requires n < 0x1_0000
    ensures BigEndian(LengthField(n)) == n
  {
    var f := LengthField(n);
    assert f[..1][..0] == [];
    BigEndianLast(f);
    BigEndianLast(f[..1]);
    BigEndianLast([] + f[..1]);
  }

  /**
   A begin frame tells the number, the size and the name that were written into it, whatever follows
   them; a name cut short is read as empty, and a frame without size and name as nothing at all.
   */
  lemma AnnouncedExactly(kind: Byte, id: nat, size: int, name: seq<Byte>, rest: seq<Byte>)
    requires kind in {BEGIN, CHUNK, END} && id < WORD && |name| < 0x1_0000
    requires -0x8000_0000_0000_0000 <= size < 0x8000_0000_0000_0000
    ensures var head := Word(id) + SizeField(size) + LengthField(|name|); var f := Frame(kind, head + name + rest);
      IsDownload(f) && DownloadId(f) == id && Announced(f) == (name, size)
    ensures var head := Word(id) + SizeField(size) + LengthField(|name|);
      forall cut :: 0 <= cut < |name| ==> Announced(Frame(kind, head + name[..cut])) == ([], size)
    ensures forall more: seq<Byte> :: |more| < 10 ==>
      var f := Frame(kind, Word(id) + more); IsDownload(f) && DownloadId(f) == id && Announced(f) == ([], 0)
  {
    hide BigEndian, Word, SizeField, Signed64;
    WordLength(id);
    BigEndianWord(id);
    SizeRead(size);
    LengthRead(|name|);
    var head := Word(id) + SizeField(size) + LengthField(|name|);
    assert head[..4] == Word(id) && head[4..12] == SizeField(size) && head[12..14] == LengthField(|name|);
    forall text: seq<Byte>
      ensures var p := head + text;
        p[..4] == Word(id) && p[4..12] == SizeField(size) && p[12..14] == LengthField(|name|)
    {
    }
    assert (head + name + rest)[14..14 + |name|] == name;
    assert head + name + rest == head + (name + rest);
    forall more: seq<Byte> ensures (Word(id) + more)[..4] == Word(id) {
    }
  }

  ghost predicate Fits(f: Frame) { 5 + |f.payload| < WORD }

  ghost function Encode(f: Frame): seq<Byte>
    requires Fits(f)
  {
    [f.kind] + Word(|f.payload|) + f.payload
  }

  ghost function EncodeAll(frames: seq<Frame>): seq<Byte>
    requires forall f :: f in frames ==> Fits(f)
    decreases |frames|
  {
    if frames == [] then [] else Encode(frames[0]) + EncodeAll(frames[1..])
  }

  lemma TakeEncoded(f: Frame, more: seq<Byte>)
    requires Fits(f)
    ensures !Wraps(Encode(f) + more) && Take(Encode(f) + more) == Complete(f, |Encode(f)|)
    ensures (Encode(f) + more)[|Encode(f)|..] == more
  {
    var buf := Encode(f) + more;
    assert buf[1..5] == Word(|f.payload|);
    BigEndianWord(|f.payload|);
    TakeUnwrapped(buf);
    assert buf[5..5 + |f.payload|] == f.payload;
  }

  /** The frames of what the helper writes are the frames it wrote. */
  lemma {:induction false} FramesOfEncoded(frames: seq<Frame>)
    requires forall f :: f in frames ==> Fits(f)
    ensures Proper(EncodeAll(frames)) && Frames(EncodeAll(frames)) == frames
    decreases |frames|
  {
    hide Encode, Take, Wraps, Proper, Frames;
    if frames == [] {
      EmptyIsShort();
    } else {
      var rest := EncodeAll(frames[1..]);
      TakeEncoded(frames[0], rest);
      EncodedLength(frames[0]);
      FramesOfEncoded(frames[1..]);
      FirstFrame(Encode(frames[0]) + rest, frames[0], |Encode(frames[0])|, rest);
    }
  }

  lemma FirstFrame(buf: seq<Byte>, f: Frame, n: nat, rest: seq<Byte>)
    requires !Wraps(buf) && Take(buf) == Complete(f, n) && 5 <= n <= |buf| && buf[n..] == rest && Proper(rest)
    ensures Proper(buf) && Frames(buf) == [f] + Frames(rest)
  {
    hide Take, Wraps;
  }

  lemma EmptyIsShort()
    ensures Take([]).Short? && !Wraps([]) && Proper([]) && Frames([]) == []
  {}

  lemma EncodedLength(f: Frame)
    requires Fits(f)
    ensures |Encode(f)| == 5 + |f.payload|
  {}

  // ---- which downloads are suppressed ----

  /** A begin for `id` was refused, and no end of `id` came since. */
  ghost predicate RefusedSinceEnd(allowed: Policy, frames: seq<Frame>, n: nat, id: nat)
    requires n <= |frames|
  {
    exists i :: 0 <= i < n && RefusesDownload(allowed, frames[i], id)
      && forall j :: i < j < n ==> !EndsDownload(frames[j], id)
  }

  predicate RefusesDownload(allowed: Policy, f: Frame, id: nat) {
    Refused(allowed, f) && DownloadId(f) == id
  }

  predicate EndsDownload(f: Frame, id: nat) {
    IsDownload(f) && f.kind == END && DownloadId(f) == id
  }

  function BlockedAfter(allowed: Policy, frames: seq<Frame>, n: nat): set<nat>
    requires n <= |frames|
  {
    if n == 0 then {} else Handle(allowed, frames[n - 1], BlockedAfter(allowed, frames, n - 1)).1
  }

  lemma RefusedSinceEndStep(allowed: Policy, frames: seq<Frame>, n: nat, id: nat)
    requires n < |frames|
    ensures RefusedSinceEnd(allowed, frames, n + 1, id) <==>
      || RefusesDownload(allowed, frames[n], id)
      || (RefusedSinceEnd(allowed, frames, n, id) && !EndsDownload(frames[n], id))
  {
    hide RefusesDownload, EndsDownload;
    if RefusedSinceEnd(allowed, frames, n, id) && !EndsDownload(frames[n], id) {
      var i :| 0 <= i < n && RefusesDownload(allowed, frames[i], id)
        && forall j :: i < j < n ==> !EndsDownload(frames[j], id);
      assert forall j :: i < j < n + 1 ==> !EndsDownload(frames[j], id);
    }
  }

  lemma {:induction false} BlockedIsRefused(allowed: Policy, frames: seq<Frame>, n: nat, id: nat)
    requires n <= |frames|
    ensures id in BlockedAfter(allowed, frames, n) <==> RefusedSinceEnd(allowed, frames, n, id)
    decreases n
  {
    if n > 0 {
      BlockedIsRefused(allowed, frames, n - 1, id);
      RefusedSinceEndStep(allowed, frames, n - 1, id);
    }
  }

  /** What handling the whole list sends for its `n`th frame. */
  function SentFor(allowed: Policy, frames: seq<Frame>, n: nat): seq<Sent>
    requires n < |frames|
  {
    Handle(allowed, frames[n], BlockedAfter(allowed, frames, n)).0
  }

  function SentUpTo(allowed: Policy, frames: seq<Frame>, n: nat): seq<Sent>
    requires n <= |frames|
  {
    if n == 0 then [] else SentUpTo(allowed, frames, n - 1) + SentFor(allowed, frames, n - 1)
  }

  lemma {:induction false} HandleAllFrom(allowed: Policy, frames: seq<Frame>, n: nat)
    requires n <= |frames|
    ensures var (more, last) := HandleAll(allowed, frames[n..], BlockedAfter(allowed, frames, n));
      (SentUpTo(allowed, frames, n) + more, last) ==
        (SentUpTo(allowed, frames, |frames|), BlockedAfter(allowed, frames, |frames|))
    decreases |frames| - n
  {
    hide Handle;
    var blocked := BlockedAfter(allowed, frames, n);
    if n < |frames| {
      HandleAllFrom(allowed, frames, n + 1);
      assert frames[n..][1..] == frames[n + 1..];
      var step := Handle(allowed, frames[n], blocked);
      var more := HandleAll(allowed, frames[n + 1..], step.1).0;
      assert SentUpTo(allowed, frames, n) + (step.0 + more) == (SentUpTo(allowed, frames, n) + step.0) + more;
    } else {
      assert frames[n..] == [];
      assert SentUpTo(allowed, frames, n) + [] == SentUpTo(allowed, frames, n);
    }
  }

  lemma NothingYet(allowed: Policy, frames: seq<Frame>)
    ensures SentUpTo(allowed, frames, 0) == [] && BlockedAfter(allowed, frames, 0) == {} && frames[0..] == frames
  {}

  /** The output is, frame by frame, what each one sends after those before it. */
  lemma HandledFrameByFrame(allowed: Policy, frames: seq<Frame>)
    ensures HandleAll(allowed, frames, {}).0 == SentUpTo(allowed, frames, |frames|)
  {
    hide SentUpTo, BlockedAfter, HandleAll, Handle;
    HandleAllFrom(allowed, frames, 0);
    NothingYet(allowed, frames);
    assert [] + HandleAll(allowed, frames, {}).0 == HandleAll(allowed, frames, {}).0;
  }

  /**
   Exactly which frames are relayed: not logs, not refused begins, and not chunks
   or ends of a download refused since its last end.
   */
  lemma SuppressedExactly(allowed: Policy, frames: seq<Frame>, n: nat)
    requires n < |frames|
    ensures var f := frames[n];
      SentFor(allowed, frames, n) ==
        if f.kind == LOG then [Log(f.payload)]
        else if Refused(allowed, f) then [RefusalNotice]
        else if IsDownload(f) && f.kind != BEGIN && RefusedSinceEnd(allowed, frames, n, DownloadId(f)) then []
        else [Relayed(f)]
  {
    if IsDownload(frames[n]) {
      BlockedIsRefused(allowed, frames, n, DownloadId(frames[n]));
    }
  }
}
