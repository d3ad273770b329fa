/** The node itself: its save directory, the handler for one inbound
    connection, and the sender for one file. */
module Node {
  import opened Wire
  import opened Paths
  import opened Transport
  import opened Receiver
  import opened ReceiverProps

  /** The bytes of `chunks` one after the other. */
  function Concat(chunks: seq<seq<byte>>): seq<byte> {
    if chunks == [] then [] else Concat(chunks[..|chunks| - 1]) + chunks[|chunks| - 1]
  }

  /** `chunks` is what `while chunk := f.read(n)` yields: pieces of `n`
      bytes, the last one possibly shorter, none empty. */
  predicate Chunked(chunks: seq<seq<byte>>, n: nat) {
    (forall k :: 0 <= k < |chunks| ==> 0 < |chunks[k]| <= n) &&
    (forall k :: 0 <= k < |chunks| - 1 ==> |chunks[k]| == n)
  }

  /** The bytes of a non-empty list of pieces start with the first piece. */
  lemma {:induction false} ConcatCons(chunks: seq<seq<byte>>)
    requires chunks != []
    ensures Concat(chunks) == chunks[0] + Concat(chunks[1..])
    decreases |chunks|
  {
    if |chunks| > 1 {
      var init := chunks[..|chunks| - 1];
      ConcatCons(init);
      assert init[1..] == chunks[1..][..|chunks| - 2];
    }
  }

  /** Appending one more piece: it joins the bytes at the end, and keeps
      the pieces chunked when all before it are full. */
  lemma ChunkedSnoc(chunks: seq<seq<byte>>, c: seq<byte>, n: nat)
    requires Chunked(chunks, n) && 0 < |c| <= n
    requires chunks != [] ==> |chunks[|chunks| - 1]| == n
    ensures Concat(chunks + [c]) == Concat(chunks) + c
    ensures Chunked(chunks + [c], n)
  {
    assert (chunks + [c])[..|chunks|] == chunks;
  }

  /** Reads one header from `conn`, a byte at a time, until it holds a
      newline (`main.py`, the inner `while b"\n" not in header` loop).
      `complete` is false when the peer closed the stream first. */
  method ReadHeader(conn: Connection) returns (header: seq<byte>, complete: bool)
    requires conn.Valid() && !conn.closed
    modifies conn`pos
    ensures conn.Valid() && old(conn.pos) <= conn.pos
    ensures var s := conn.data[old(conn.pos)..];
            var nl := Find(s, Newline, 0);
            header == s[..conn.pos - old(conn.pos)] &&
            complete == (nl < |s|) &&
            conn.pos - old(conn.pos) == (if complete then nl + 1 else |s|)
  {
    ghost var start := conn.pos;
    ghost var s := conn.data[start..];
    header := [];
    while Newline !in header
      invariant conn.Valid() && start <= conn.pos
      invariant header == s[..conn.pos - start]
      invariant forall k :: 0 <= k < |header| - 1 ==> header[k] != Newline
      invariant Newline in header ==> header[|header| - 1] == Newline
      decreases |conn.data| - conn.pos
    {
      var part := conn.Recv(1);
      if part == [] {
        FindSpec(s, Newline, 0);
        assert s[..|s|] == s;
        return header, false;
      }
      header := header + part;
    }
    FindFirst(s, Newline, |header| - 1);
    complete := true;
  }

  /** Copies the body of one frame into the file at `path`, which is open
      for writing (`main.py`, the `while remaining > 0` loop): it asks for
      at most `min(65536 * 4, remaining)` bytes at a time, and stops when
      `size` bytes have arrived or the stream ends. */
  method CopyBody(conn: Connection, fs: FileSystem, path: Path, size: int)
    requires conn.Valid() && !conn.closed && path in fs.files
    modifies conn`pos, fs`files
    ensures conn.Valid()
    ensures var s := conn.data[old(conn.pos)..];
            var n := BodyLength(size, |s|);
            conn.pos == old(conn.pos) + n &&
            fs.files == old(fs.files)[path := old(fs.files)[path] + s[..n]]
  {
    ghost var start := conn.pos;
    ghost var s := conn.data[start..];
    ghost var before := fs.files;
    ghost var written: seq<byte> := [];
    assert before[path] + written == before[path];
    assert before[path := before[path]] == before;
    var remaining := size;
    while remaining > 0
      invariant conn.Valid() && start <= conn.pos
      invariant written == s[..conn.pos - start]
      invariant fs.files == before[path := before[path] + written]
      invariant remaining + (conn.pos - start) == size
      invariant size > 0 ==> remaining >= 0
      invariant size <= 0 ==> conn.pos == start
      decreases remaining
    {
      var data := conn.Recv(Min(ChunkSize, remaining));
      if data == [] {
        break;
      }
      assert s[..conn.pos - start] == written + data;
      fs.Append(path, data);
      assert before[path] + written + data == before[path] + (written + data);
      written := written + data;
      remaining := remaining - |data|;
    }
  }

  /** `with open(path, 'wb') as f:` and the copy of the body into it:
      the file at `path` is created empty, or truncated, and ends up holding
      the body; no other file changes. */
  method SaveBody(conn: Connection, fs: FileSystem, path: Path, size: int)
    requires conn.Valid() && !conn.closed
    modifies conn`pos, fs`files
    ensures conn.Valid()
    ensures var s := old(conn.data[conn.pos..]);
            var n := BodyLength(size, |s|);
            conn.pos == old(conn.pos) + n && fs.files == old(fs.files)[path := s[..n]]
  {
    fs.Create(path);
    CopyBody(conn, fs, path, size);
    assert [] + conn.data[old(conn.pos)..][..BodyLength(size, |conn.data| - old(conn.pos))] ==
           conn.data[old(conn.pos)..][..BodyLength(size, |conn.data| - old(conn.pos))];
  }

  /** One pass of the outer loop of `handle_client` (`main.py`): read a
      header, then stop on a blank or malformed one, or create the file it
      names in `dir` and copy its body.  What it reads, and the file it
      writes, are those of `NextFrame`; `parse` reads the header line (the
      node passes `ParseHeader`). */
  method ServeFrame(conn: Connection, fs: FileSystem, dir: Path, parse: HeaderReader)
    returns (stop: Option<Ending>)
    requires conn.Valid() && !conn.closed
    modifies conn`pos, fs`files
    ensures conn.Valid() && old(conn.pos) <= conn.pos
    ensures var st := NextFrame(parse, dir, old(conn.data[conn.pos..]));
            conn.pos == old(conn.pos) + st.used &&
            (st.Stop? ==> stop == Some(st.ending) && fs.files == old(fs.files)) &&
            (st.Save? ==> stop == None && fs.files == old(fs.files)[st.path := st.body])
  {
    ghost var s := conn.data[conn.pos..];
    var header, complete := ReadHeader(conn);
    if !complete {
      return Some(PeerClosed);
    }
    ghost var h := |header|;
    assert header == s[..h];
    var parsed := parse(header);
    assert NextFrame(parse, dir, s) == Interpret(dir, s, h, parsed);
    match parsed
    case Blank => stop := Some(BlankHeader);
    case Malformed => stop := Some(BadHeader);
    case Announce(name, size) =>
      assert conn.data[conn.pos..] == s[h..];
      SaveBody(conn, fs, Join(dir, name), size);
      assert s[h..][..BodyLength(size, |s| - h)] == s[h..h + BodyLength(size, |s| - h)];
      stop := None;
  }

  class P2PNode {
    var host: string
    var port: int
    var saveDirectory: Path

    /** `P2PNode(host, port, save_directory)`: a missing or empty save
        directory means the current working directory `cwd`. */
    constructor (host: string, port: int, saveDirectory: Option<Path>, cwd: Path)
      ensures this.host == host && this.port == port
      ensures this.saveDirectory ==
              if saveDirectory.Some? && saveDirectory.value != [] then saveDirectory.value else cwd
    {
      this.host := host;
      this.port := port;
      if saveDirectory.Some? && saveDirectory.value != [] {
        this.saveDirectory := saveDirectory.value;
      } else {
        this.saveDirectory := cwd;
      }
    }

    /** `set_save_directory(path)`: takes `path` only when it names an
        existing directory. */
    method SetSaveDirectory(path: Path, fs: FileSystem)
      modifies this`saveDirectory
      ensures saveDirectory == if fs.IsDir(path) then path else old(saveDirectory)
    {
      if fs.IsDir(path) {
        saveDirectory := path;
      }
    }

    /** `handle_client(conn)`: serves frames until the peer closes the
        stream or a header is blank or malformed, then closes the socket.
        Whatever sizes the network gives each `recv`, the files it leaves,
        how it ends and how far it reads are those of `Receive`. */
    method HandleClient(conn: Connection, fs: FileSystem) returns (ending: Ending)
      requires conn.Valid() && !conn.closed
      modifies conn, fs`files
      ensures conn.Valid() && conn.closed
      ensures var r := Receive(ParseHeader, saveDirectory, old(conn.data[conn.pos..]), old(fs.files));
              fs.files == r.files && ending == r.ending && conn.pos == old(conn.pos) + r.consumed
    {
      ghost var start := conn.pos;
      ghost var s0 := conn.data[start..];
      ghost var f0 := fs.files;
      var dir := saveDirectory;
      while true
        invariant conn.Valid() && !conn.closed && start <= conn.pos
        invariant var r := Receive(ParseHeader, dir, conn.data[conn.pos..], fs.files);
                  Receive(ParseHeader, dir, s0, f0) == r.(consumed := conn.pos - start + r.consumed)
        decreases |conn.data| - conn.pos
      {
        ghost var s := conn.data[conn.pos..];
        ghost var files := fs.files;
        ghost var st := NextFrame(ParseHeader, dir, s);
        var stop := ServeFrame(conn, fs, dir, ParseHeader);
        if stop.Some? {
          ending := stop.value;
          break;
        }
        ReceiveSaved(ParseHeader, dir, s, files, st.path, st.body, st.used);
        assert conn.data[conn.pos..] == s[st.used..];
      }
      conn.Close();
    }

    /** `send_file(path, ...)`: nothing happens unless `path` is a regular
        file; otherwise the node sends the header naming the file's base
        name and size, then the content in chunks of `65536 * 4` bytes.
        `sent` lists the buffers handed to `sendall`, in order. */
    method SendFile(fs: FileSystem, path: Path) returns (connected: bool, sent: seq<seq<byte>>)
      ensures connected == fs.IsFile(path)
      ensures !connected ==> sent == []
      ensures connected ==>
                |sent| >= 1 &&
                sent[0] == EncodeHeader(Basename(path), |fs.files[path]|) &&
                Concat(sent[1..]) == fs.files[path] &&
                Chunked(sent[1..], ChunkSize)
    {
      if !fs.IsFile(path) {
        return false, [];
      }
      connected := true;
      var content := fs.files[path];
      var chunks: seq<seq<byte>> := [];
      var offset := 0;
      while offset < |content|
        invariant 0 <= offset <= |content|
        invariant Concat(chunks) == content[..offset]
        invariant Chunked(chunks, ChunkSize)
        invariant chunks != [] && offset < |content| ==> |chunks[|chunks| - 1]| == ChunkSize
        decreases |content| - offset
      {
        var chunk := content[offset..offset + Min(ChunkSize, |content| - offset)];
        ChunkedSnoc(chunks, chunk, ChunkSize);
        assert content[..offset + |chunk|] == content[..offset] + chunk;
        chunks := chunks + [chunk];
        offset := offset + |chunk|;
      }
      assert content[..offset] == content;
      sent := [EncodeHeader(Basename(path), |content|)] + chunks;
      assert sent[1..] == chunks;
    }
  }

  /** What `send_file` puts on the wire, followed by anything else, is read
      by `handle_client` as the same file under the same base name, saved in
      the receiver's directory; the receiver then goes on right after it. */
  lemma {:induction false} SendThenReceive(dir: Path, name: Path, content: seq<byte>,
                                            sent: seq<seq<byte>>, rest: seq<byte>, files: Files)
    requires Sendable(name)
    requires |sent| >= 1 && sent[0] == EncodeHeader(name, |content|) && Concat(sent[1..]) == content
    ensures var r := Receive(ParseHeader, dir, rest, files[Join(dir, name) := content]);
            Receive(ParseHeader, dir, Concat(sent) + rest, files) ==
            r.(consumed := |Concat(sent)| + r.consumed)
  {
    ConcatCons(sent);
    FrameRoundTrip(dir, name, content, rest, files);
  }
}
