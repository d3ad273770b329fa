/** Properties of the receiving side, and of the receiver reading what the
    sender wrote. */
module ReceiverProps {
  import opened Wire
  import opened Paths
  import opened Receiver

  /** A connection that the peer closes has read the whole stream; one that
      stops on a bad or blank header has read up to and including that
      header's newline and no further; a stream with no newline at all
      creates no file. */
  lemma {:induction false} ReceiveEnds(parse: HeaderReader, dir: Path, s: seq<byte>, files: Files)
    ensures var r := Receive(parse, dir, s, files);
            (r.ending == PeerClosed ==> r.consumed == |s|) &&
            (r.ending != PeerClosed ==> 0 < r.consumed && s[r.consumed - 1] == Newline) &&
            (Newline !in s ==> r == Outcome(files, PeerClosed, |s|))
    decreases |s|
  {
    FindNone(s, Newline, 0);
    assert s[0..] == s;
    match NextFrame(parse, dir, s)
    case Stop(_, _) =>
    case Save(p, body, used) =>
      ReceiveEnds(parse, dir, s[used..], files[p := body]);
  }

  /** `Receive` saves the next frame and carries on after it. */
  lemma ReceiveSaved(parse: HeaderReader, dir: Path, s: seq<byte>, files: Files,
                     path: Path, body: seq<byte>, used: nat)
    requires NextFrame(parse, dir, s) == Save(path, body, used)
    ensures used <= |s|
    ensures var r := Receive(parse, dir, s[used..], files[path := body]);
            Receive(parse, dir, s, files) == r.(consumed := used + r.consumed)
  {
  }

  /** A header line: it ends in its first newline. */
  predicate IsLine(line: seq<byte>) {
    |line| > 0 && line[|line| - 1] == Newline &&
    forall k :: 0 <= k < |line| - 1 ==> line[k] != Newline
  }

  /** Where the header line and the body sit in `line + rest`. */
  lemma LineIsFirst(line: seq<byte>, rest: seq<byte>, n: nat)
    requires IsLine(line) && n <= |rest|
    ensures Find(line + rest, Newline, 0) == |line| - 1
    ensures (line + rest)[..|line|] == line
    ensures |line + rest| - |line| == |rest|
    ensures (line + rest)[|line|..|line| + n] == rest[..n]
    ensures (line + rest)[|line| + n..] == rest[n..]
  {
    var s := line + rest;
    FindFirst(s, Newline, |line| - 1);
    assert s[..|line|] == line;
    assert s[|line|..|line| + n] == rest[..n];
    assert s[|line| + n..] == rest[n..];
  }

  /** After a complete header line, the handler acts on what it reads in
      that line and on nothing else of the stream before it. */
  lemma NextFrameLine(parse: HeaderReader, dir: Path, line: seq<byte>, rest: seq<byte>)
    requires IsLine(line)
    ensures NextFrame(parse, dir, line + rest) == Interpret(dir, line + rest, |line|, parse(line))
  {
    LineIsFirst(line, rest, 0);
  }

  /** An announced frame is saved whole, or up to the end of the stream. */
  lemma NextFrameAnnounced(parse: HeaderReader, dir: Path, line: seq<byte>, rest: seq<byte>,
                           name: seq<byte>, size: int)
    requires IsLine(line) && parse(line) == Announce(name, size)
    ensures var n := BodyLength(size, |rest|);
            NextFrame(parse, dir, line + rest) == Save(Join(dir, name), rest[..n], |line| + n)
  {
    LineIsFirst(line, rest, BodyLength(size, |rest|));
    NextFrameLine(parse, dir, line, rest);
  }

  /** One announced frame: the handler reads exactly the header line, then
      overwrites `join(dir, name)` with the next `size` bytes (fewer if the
      stream ends first, none if `size <= 0`), and goes on right after
      them; no other file is touched by this frame. */
  lemma ReceiveAnnounced(parse: HeaderReader, dir: Path, line: seq<byte>, rest: seq<byte>, files: Files,
                         name: seq<byte>, size: int)
    requires IsLine(line) && parse(line) == Announce(name, size)
    ensures var n := if size <= 0 then 0 else Min(size, |rest|);
            var r := Receive(parse, dir, rest[n..], files[Join(dir, name) := rest[..n]]);
            Receive(parse, dir, line + rest, files) == r.(consumed := |line| + n + r.consumed)
  {
    var s := line + rest;
    var n := BodyLength(size, |rest|);
    NextFrameAnnounced(parse, dir, line, rest, name, size);
    LineIsFirst(line, rest, n);
    ReceiveSaved(parse, dir, s, files, Join(dir, name), rest[..n], |line| + n);
  }

  /** A size of zero or below (`int()` takes a leading `-`) truncates the
      target to an empty file, and the next header follows at once. */
  lemma ReceiveNonPositive(parse: HeaderReader, dir: Path, line: seq<byte>, rest: seq<byte>, files: Files,
                           name: seq<byte>, size: int)
    requires IsLine(line) && parse(line) == Announce(name, size) && size <= 0
    ensures var r := Receive(parse, dir, rest, files[Join(dir, name) := []]);
            Receive(parse, dir, line + rest, files) == r.(consumed := |line| + r.consumed)
  {
    ReceiveAnnounced(parse, dir, line, rest, files, name, size);
    assert rest[..0] == [] && rest[0..] == rest;
  }

  /** A body cut short by the peer closing: the file keeps what arrived and
      the connection ends. */
  lemma ReceiveTruncated(parse: HeaderReader, dir: Path, line: seq<byte>, rest: seq<byte>, files: Files,
                         name: seq<byte>, size: int)
    requires IsLine(line) && parse(line) == Announce(name, size) && size > |rest|
    ensures Receive(parse, dir, line + rest, files) ==
            Outcome(files[Join(dir, name) := rest], PeerClosed, |line| + |rest|)
  {
    ReceiveAnnounced(parse, dir, line, rest, files, name, size);
    assert rest[..|rest|] == rest && rest[|rest|..] == [];
  }

  /** A blank or malformed header ends the connection right after its
      newline, and no file is created for it. */
  lemma ReceiveRefused(parse: HeaderReader, dir: Path, line: seq<byte>, rest: seq<byte>, files: Files)
    requires IsLine(line) && !parse(line).Announce?
    ensures Receive(parse, dir, line + rest, files) ==
            Outcome(files, if parse(line).Blank? then BlankHeader else BadHeader, |line|)
  {
    NextFrameLine(parse, dir, line, rest);
  }

  /** A header line with no `|` in it, such as `garbage\n`, ends the
      connection with an error. */
  lemma ReceiveNoSeparator(dir: Path, line: seq<byte>, rest: seq<byte>, files: Files)
    requires IsLine(line) && Bar !in line && exists k :: 0 <= k < |line| && !IsSpace(line[k])
    ensures Receive(ParseHeader, dir, line + rest, files) == Outcome(files, BadHeader, |line|)
  {
    ParseHeaderSpec(line);
    ReceiveRefused(ParseHeader, dir, line, rest, files);
  }

  /** Writing `p` and then overlaying `g` is overlaying the write and `g`. */
  lemma OverlayUpdate(f: Files, p: Path, v: seq<byte>, g: Files)
    ensures f[p := v] + g == f + (map[p := v] + g)
  {
  }

  /** The files a connection leaves behind are the files it started with,
      overwritten by the files it writes; those, and the way it ends, do not
      depend on what was there before. */
  lemma {:induction false} ReceiveOverlay(parse: HeaderReader, dir: Path, s: seq<byte>, files: Files)
    ensures var w := Receive(parse, dir, s, map[]);
            Receive(parse, dir, s, files) == w.(files := files + w.files)
    decreases |s|
  {
    match NextFrame(parse, dir, s)
    case Stop(_, _) =>
    case Save(p, body, used) =>
      var rest := s[used..];
      ReceiveSaved(parse, dir, s, files, p, body, used);
      ReceiveSaved(parse, dir, s, map[], p, body, used);
      ReceiveOverlay(parse, dir, rest, files[p := body]);
      ReceiveOverlay(parse, dir, rest, map[p := body]);
      var w := Receive(parse, dir, rest, map[]);
      OverlayUpdate(files, p, body, w.files);
  }

  /** What the sender puts on the wire is read back as the same file: its
      name, its size and its content, and the stream continues right after
      it. */
  lemma FrameRoundTrip(dir: Path, name: seq<byte>, content: seq<byte>, rest: seq<byte>,
                       files: Files)
    requires Sendable(name)
    ensures var r := Receive(ParseHeader, dir, rest, files[Join(dir, name) := content]);
            Receive(ParseHeader, dir, Frame(name, content) + rest, files) ==
            r.(consumed := |Frame(name, content)| + r.consumed)
  {
    var line := EncodeHeader(name, |content|);
    HeaderRoundTrip(name, |content|);
    HeaderIsLine(name, |content|);
    assert Frame(name, content) + rest == line + (content + rest);
    ReceiveAnnounced(ParseHeader, dir, line, content + rest, files, name, |content|);
    assert (content + rest)[..|content|] == content;
    assert (content + rest)[|content|..] == rest;
  }

  /** One file to send: the name the header carries and the bytes that follow. */
  datatype Transfer = Transfer(name: seq<byte>, content: seq<byte>)

  /** Several frames sent back to back on one connection. */
  function Frames(ts: seq<Transfer>): seq<byte> {
    if ts == [] then [] else Frame(ts[0].name, ts[0].content) + Frames(ts[1..])
  }

  /** The files after saving each transfer in turn; a later file with the
      same name replaces an earlier one. */
  function Deliver(dir: Path, files: Files, ts: seq<Transfer>): Files
    decreases |ts|
  {
    if ts == [] then files
    else Deliver(dir, files[Join(dir, ts[0].name) := ts[0].content], ts[1..])
  }

  /** Frames on one connection are saved strictly in order, each in full,
      and the connection then ends when the peer closes it. */
  lemma {:induction false} ReceiveFrames(dir: Path, ts: seq<Transfer>, files: Files)
    requires forall k :: 0 <= k < |ts| ==> Sendable(ts[k].name)
    ensures Receive(ParseHeader, dir, Frames(ts), files) ==
            Outcome(Deliver(dir, files, ts), PeerClosed, |Frames(ts)|)
    decreases |ts|
  {
    if ts != [] {
      var t := ts[0];
      FrameRoundTrip(dir, t.name, t.content, Frames(ts[1..]), files);
      ReceiveFrames(dir, ts[1..], files[Join(dir, t.name) := t.content]);
    }
  }
}
