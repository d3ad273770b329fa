/** What one inbound connection does to the save directory, as a function of
    the bytes the peer sends.  `handle_client` reads a header line, parses
    it, copies the announced number of body bytes into a file, and starts
    over; `Receive` states that loop frame by frame, without reference to how
    the network splits the stream into `recv` results.

    The loop is written for any reading of header lines (`parse`); the node
    itself uses `ParseHeader`.  Everything about framing below holds whatever
    the reading is, and what is particular to `ParseHeader` (the round trip
    with the sender) is proved in `Wire`. */
module Receiver {
  import opened Wire
  import opened Paths

  type Files = map<Path, seq<byte>>

  /** How a header line is read. */
  type HeaderReader = seq<byte> -> Header

  /** Largest read or write the node issues: `65536 * 4` bytes. */
  const ChunkSize: nat := 65536 * 4

  /** Why a connection's handler stops: the stream ended (before a complete
      header, or inside a body), a header was empty after `strip()` (the
      `break`), or a header failed `split('|')` or `int()` (an exception). */
  datatype Ending = PeerClosed | BlankHeader | BadHeader

  /** The files after the connection, why it ended, and how many bytes of
      the stream were read. */
  datatype Outcome = Outcome(files: Files, ending: Ending, consumed: nat)

  /** How many body bytes a frame announcing `size` gets from a stream with
      `available` bytes after its header. */
  function BodyLength(size: int, available: nat): (n: nat)
    ensures n <= available
    ensures size <= 0 ==> n == 0
    ensures size > 0 ==> n <= size && (n < size ==> n == available)
  {
    if size <= 0 then 0 else Min(size, available)
  }

  /** What the handler does with the next frame: stop (with the reason)
      after reading `used` bytes, or save `body` at `path` and go on after
      `used` bytes. */
  datatype Step = Stop(ending: Ending, used: nat) | Save(path: Path, body: seq<byte>, used: nat)

  /** What the handler does once it has read the header `s[..h]` and made
      `header` of it. */
  function Interpret(dir: Path, s: seq<byte>, h: nat, header: Header): (st: Step)
    requires 0 < h <= |s|
    ensures h <= st.used <= |s|
    ensures !header.Announce? ==> st.Stop? && st.used == h
    ensures header.Announce? ==>
              st.Save? && st.used <= h + (if header.size <= 0 then 0 else header.size) &&
              (st.used < h + header.size ==> st.used == |s|)
  {
    match header
    case Blank => Stop(BlankHeader, h)
    case Malformed => Stop(BadHeader, h)
    case Announce(name, size) =>
      var n := BodyLength(size, |s| - h);
      Save(Join(dir, name), s[h..h + n], h + n)
  }

  /** One pass of the outer loop of `handle_client`: scan to the first
      newline, read the header, copy the body. */
  function NextFrame(parse: HeaderReader, dir: Path, s: seq<byte>): (st: Step)
    ensures st.used <= |s|
    ensures st.Save? ==> 0 < st.used
  {
    var nl := Find(s, Newline, 0);
    if nl == |s| then Stop(PeerClosed, |s|)
    else Interpret(dir, s, nl + 1, parse(s[..nl + 1]))
  }

  /** The effect of `handle_client` on a connection that delivers `s` and
      then closes, with `files` the filesystem when it starts. */
  function Receive(parse: HeaderReader, dir: Path, s: seq<byte>, files: Files): (r: Outcome)
    ensures r.consumed <= |s|
    decreases |s|, 1
  {
    Continue(parse, dir, s, files, NextFrame(parse, dir, s))
  }

  /** The rest of the connection once the next frame is known to be `st`. */
  function Continue(parse: HeaderReader, dir: Path, s: seq<byte>, files: Files, st: Step): (r: Outcome)
    requires st.used <= |s| && (st.Save? ==> 0 < st.used)
    ensures r.consumed <= |s|
    decreases |s|, 0
  {
    match st
    case Stop(ending, used) => Outcome(files, ending, used)
    case Save(path, body, used) =>
      var r := Receive(parse, dir, s[used..], files[path := body]);
      r.(consumed := used + r.consumed)
  }
}
