/** The two buffers between a socket and the HTTP parsers: the stream that reads ahead and
    the line reader with a fixed and a growing part. Neither loses, repeats or reorders a
    byte, however the socket cuts the data. */
module ReadStack {
  import opened Text

  function Min(a: nat, b: nat): nat { if a <= b then a else b }

  /** The environment: bytes arrive in order, in portions of any size, and a call may fail. */
  class Socket {
    var incoming: string
    var failed: bool

    constructor (incoming: string)
      ensures this.incoming == incoming && !failed
    {
      this.incoming, this.failed := incoming, false;
    }

    /** `recv`: an error, the end of the data, or some of the bytes asked for. */
    method Recv(size: nat) returns (n: int, data: string)
      requires size > 0
      modifies this
      ensures n < 0 ==> incoming == old(incoming) && failed && data == ""
      ensures n >= 0 ==> n == |data| <= size && data + incoming == old(incoming) && failed == old(failed)
      ensures n == 0 ==> incoming == ""
      ensures old(failed) ==> failed
    {
      if * {
        failed := true;
        return -1, "";
      }
      if incoming == "" { return 0, ""; }
      var k: nat :| 1 <= k <= size && k <= |incoming|;
      data, incoming := incoming[..k], incoming[k..];
      n := k;
    }
  }

  const READ_BUFF_SIZE: nat := 4096

  class SocketStream {
    const sock: Socket
    const readBuff: array<char>
    var off: nat
    var contentSize: nat

    ghost predicate Valid()
      reads this
    {
      readBuff.Length == READ_BUFF_SIZE && off <= contentSize <= READ_BUFF_SIZE
    }

    /** The bytes not delivered yet: those read ahead, then those still in the socket. */
    ghost function Pending(): string
      requires Valid()
      reads this, readBuff, sock
    {
      readBuff[off..contentSize] + sock.incoming
    }

    constructor (sock: Socket)
      ensures Valid() && this.sock == sock && fresh(readBuff) && Pending() == sock.incoming
    {
      this.sock := sock;
      readBuff := new char[READ_BUFF_SIZE];
      off, contentSize := 0, 0;
      new;
      assert readBuff[0..0] == "";
    }

    /** The part of `read` that serves bytes read ahead. */
    method ReadAhead(size: nat) returns (n: int, data: string)
      requires Valid() && off < contentSize
      modifies this`off
      ensures Valid() && 0 <= n == |data| <= size && data + Pending() == old(Pending())
      ensures size > 0 ==> n > 0
    {
      var remaining := contentSize - off;
      var k := if size <= remaining then size else remaining;
      data := readBuff[off..off + k];
      assert readBuff[off..contentSize] == data + readBuff[off + k..contentSize];
      Assoc(data, readBuff[off + k..contentSize], sock.incoming);
      off := off + k;
      n := k;
    }

    /** The part of `read` that fills the buffer for a short request and serves from it. */
    method ReadThrough(size: nat) returns (n: int, data: string)
      requires Valid() && off >= contentSize && size < READ_BUFF_SIZE
      modifies this`off, this`contentSize, readBuff, sock
      ensures Valid()
      ensures n < 0 ==> Pending() == old(Pending()) && sock.failed
      ensures n >= 0 ==> n == |data| <= size && data + Pending() == old(Pending()) && sock.failed == old(sock.failed)
      ensures n == 0 && size > 0 ==> Pending() == ""
      ensures old(sock.failed) ==> sock.failed
    {
      off, contentSize := 0, 0;
      var got, bytes := sock.Recv(READ_BUFF_SIZE);
      if got <= 0 {
        return got, "";
      }
      forall k | 0 <= k < got { readBuff[k] := bytes[k]; }
      assert readBuff[..got] == bytes;
      if got <= size {
        return got, bytes;
      }
      assert bytes == bytes[..size] + readBuff[size..got];
      Assoc(bytes[..size], readBuff[size..got], sock.incoming);
      off, contentSize := size, got;
      return size, bytes[..size];
    }

    /** `read`: conservation of bytes over one call; zero means that no more will come. */
    method Read(size: nat) returns (n: int, data: string)
      requires Valid()
      modifies this, readBuff, sock
      ensures Valid()
      ensures n < 0 ==> Pending() == old(Pending()) && sock.failed
      ensures n >= 0 ==> n == |data| <= size && data + Pending() == old(Pending()) && sock.failed == old(sock.failed)
      ensures n == 0 && size > 0 ==> Pending() == ""
      ensures old(sock.failed) ==> sock.failed
    {
      if off < contentSize {
        n, data := ReadAhead(size);
        return;
      }
      if * {
        // The socket does not become readable in time.
        sock.failed := true;
        return -1, "";
      }
      if size < READ_BUFF_SIZE {
        n, data := ReadThrough(size);
      } else {
        off, contentSize := 0, 0;
        assert readBuff[0..0] == "" == old(readBuff[off..contentSize]);
        n, data := sock.Recv(size);
      }
    }

    /** Any sequence of requests, failed ones too: what was delivered and what is pending make up
        what was pending before. */
    method Reads(sizes: seq<nat>) returns (delivered: string)
      requires Valid()
      modifies this, readBuff, sock
      ensures Valid() && delivered + Pending() == old(Pending())
    {
      delivered := "";
      for i := 0 to |sizes|
        invariant Valid() && delivered + Pending() == old(Pending())
      {
        var n, data := Read(sizes[i]);
        if n >= 0 {
          Assoc(delivered, data, Pending());
          delivered := delivered + data;
        }
      }
    }
  }

  // ------------------------------------------------------------- lines

  /** Length of the first line with its LF, or of everything when there is none. */
  function LineLength(s: string): (n: nat)
    ensures n <= |s|
  {
    var i := Find(s, [LF]);
    if i == |s| then i else i + 1
  }

  function Line(s: string): string { s[..LineLength(s)] }
  function AfterLine(s: string): string { s[LineLength(s)..] }

  lemma LineEnds(a: string, rest: string)
    requires LF !in a
    ensures Line(a + [LF] + rest) == a + [LF] && AfterLine(a + [LF] + rest) == rest
  {
    FindChar(a, LF, rest);
  }

  lemma LastLine(a: string)
    requires LF !in a
    ensures Line(a) == a && AfterLine(a) == ""
  {
    AbsentChar(a, LF);
  }

  class StreamLineReader {
    const strm: SocketStream
    const fixedBuffer: array<char>
    var usedSize: nat
    var glowable: string

    ghost predicate Valid()
      reads this, fixedBuffer, strm
    {
      && strm.Valid() && fixedBuffer != strm.readBuff
      && 2 <= fixedBuffer.Length
      && usedSize < fixedBuffer.Length
      && (usedSize > 0 ==> fixedBuffer[usedSize] == NUL)
      && (glowable != "" ==> usedSize == fixedBuffer.Length - 1)
    }

    /** The line read last, whichever buffer holds it. */
    function Content(): string
      requires Valid()
      reads this, fixedBuffer, strm
    {
      if glowable == "" then fixedBuffer[..usedSize] else glowable
    }

    constructor (strm: SocketStream, size: nat)
      requires strm.Valid() && size >= 2
      ensures Valid() && this.strm == strm && fresh(fixedBuffer) && Content() == ""
    {
      this.strm := strm;
      fixedBuffer := new char[size];
      usedSize, glowable := 0, "";
    }

    method Append(c: char)
      requires Valid()
      modifies this, fixedBuffer
      ensures Valid() && Content() == old(Content()) + [c]
    {
      if usedSize < fixedBuffer.Length - 1 {
        fixedBuffer[usedSize] := c;
        usedSize := usedSize + 1;
        fixedBuffer[usedSize] := NUL;
        assert fixedBuffer[..usedSize] == old(fixedBuffer[..usedSize]) + [c];
      } else {
        if glowable == "" {
          assert fixedBuffer[usedSize] == NUL;
          glowable := fixedBuffer[..usedSize];
        }
        glowable := glowable + [c];
      }
    }

    /** One byte from the stream; the line read so far stays as it is. */
    method ReadByte() returns (n: int, byte: char)
      requires Valid()
      modifies strm, strm.readBuff, strm.sock
      ensures Valid() && Content() == old(Content())
      ensures n < 0 ==> strm.Pending() == old(strm.Pending()) && strm.sock.failed
      ensures n == 0 ==> strm.Pending() == old(strm.Pending()) == ""
      ensures n > 0 ==> [byte] + strm.Pending() == old(strm.Pending())
      ensures old(strm.sock.failed) ==> strm.sock.failed
    {
      var data;
      n, data := strm.Read(1);
      byte := if n > 0 then data[0] else NUL;
      assert n > 0 ==> data == [byte];
    }

    /** `getline`: without an error it reads exactly the bytes up to and including the next
        LF, or the rest of the data when there is none, and fails when there is no data. */
    method GetLine() returns (ok: bool)
      requires Valid()
      modifies this, fixedBuffer, strm, strm.readBuff, strm.sock
      ensures Valid() && Content() + strm.Pending() == old(strm.Pending())
      ensures ok ==> Content() == Line(old(strm.Pending())) && Content() != ""
      ensures !ok ==> strm.sock.failed || old(strm.Pending()) == ""
      ensures old(strm.sock.failed) ==> strm.sock.failed
    {
      hide Line, AfterLine, LineLength;
      usedSize := 0;
      glowable := "";
      ghost var all := strm.Pending();
      ghost var line := "";
      assert fixedBuffer[..0] == "";
      var i := 0;
      while true
        invariant i == |line|
        invariant Valid() && Content() == line && line + strm.Pending() == all
        invariant forall k | 0 <= k < |line| :: line[k] != LF
        invariant old(strm.sock.failed) ==> strm.sock.failed
        decreases |strm.Pending()|
      {
        var n, byte := ReadByte();
        if n < 0 {
          return false;
        } else if n == 0 {
          if i == 0 { return false; }
          LastLine(all);
          return true;
        }
        Append(byte);
        Assoc(line, [byte], strm.Pending());
        if byte == LF {
          LineEnds(line, strm.Pending());
          return true;
        }
        line := line + [byte];
        i := i + 1;
      }
    }
  }
}
