/** The two pieces of the outside world the node touches: the peer's byte
    stream, as seen through `socket.recv`, and the local filesystem, as seen
    through `open(..., 'wb')`, `write`, `os.path.isfile` and
    `os.path.isdir`. */
module Transport {
  import opened Wire
  import opened Paths

  /** An accepted connection.  `data` is everything the peer sends before it
      closes its end; `pos` counts the bytes `recv` has handed out so far. */
  class Connection {
    const data: seq<byte>
    var pos: nat
    var closed: bool

    ghost predicate Valid()
      reads this
    {
      pos <= |data|
    }

    constructor (data: seq<byte>)
      ensures Valid() && this.data == data && pos == 0 && !closed
    {
      this.data := data;
      pos := 0;
      closed := false;
    }

    /** `socket.recv(n)`: at end of stream it returns nothing; otherwise it
        returns the next 1 to `n` bytes, how many being the network's choice.
        Callers in the node always ask for at least one byte. */
    method Recv(n: nat) returns (chunk: seq<byte>)
      requires Valid() && !closed && n > 0
      modifies this`pos
      ensures Valid() && old(pos) <= pos
      ensures chunk == data[old(pos)..pos]
      ensures old(pos) == |data| ==> chunk == []
      ensures old(pos) < |data| ==> 1 <= |chunk| <= n
    {
      if pos == |data| {
        chunk := [];
      } else {
        var most := Min(n, |data| - pos);
        assert 1 <= most <= n && most <= |data| - pos;
        var k :| 1 <= k <= most;
        chunk := data[pos..pos + k];
        pos := pos + k;
      }
    }

    /** `socket.close()`: nothing more is read from the connection. */
    method Close()
      modifies this`closed
      ensures closed && pos == old(pos)
    {
      closed := true;
    }
  }

  /** The regular files (path to content) and the directories that exist. */
  class FileSystem {
    var files: map<Path, seq<byte>>
    var dirs: set<Path>

    constructor (files: map<Path, seq<byte>>, dirs: set<Path>)
      ensures this.files == files && this.dirs == dirs
    {
      this.files := files;
      this.dirs := dirs;
    }

    /** `os.path.isfile(p)`. */
    predicate IsFile(p: Path)
      reads this
    {
      p in files
    }

    /** `os.path.isdir(p)`. */
    predicate IsDir(p: Path)
      reads this
    {
      p in dirs
    }

    /** `open(p, 'wb')`: creates the file, or truncates the one already there. */
    method Create(p: Path)
      modifies this`files
      ensures files == old(files)[p := []]
    {
      files := files[p := []];
    }

    /** `f.write(chunk)` on a file opened for writing. */
    method Append(p: Path, chunk: seq<byte>)
      requires p in files
      modifies this`files
      ensures files == old(files)[p := old(files)[p] + chunk]
    {
      files := files[p := files[p] + chunk];
    }
  }
}
