/** One file that pieces are written into while a reader follows what has become available. */
module Streams {
  import opened Options
  import opened Text

  // ----- The file

  /** seek and write: a gap before the data is filled with null bytes. */
  function WriteAt(f: string, pos: nat, data: string): (r: string)
    ensures data == "" ==> r == f
    ensures data != "" ==> |r| == if pos + |data| <= |f| then |f| else pos + |data|
    ensures forall i :: 0 <= i < |f| && (i < pos || pos + |data| <= i) ==> r[i] == f[i]
    ensures forall i :: 0 <= i < |data| ==> r[pos + i] == data[i]
  {
    if data == "" then f
    else if |f| <= pos then f + seq(pos - |f|, _ => '\0') + data
    else if |f| <= pos + |data| then f[..pos] + data
    else f[..pos] + data + f[pos + |data|..]
  }

  /** Data behind the end of the file leaves null bytes in between. */
  lemma GapIsNull(f: string, pos: nat, data: string, i: nat)
    requires data != "" && |f| <= i < pos
    ensures WriteAt(f, pos, data)[i] == '\0'
  {
  }

  /** s stands in the file at an offset, which may be beyond its end if there is nothing to stand there. */
  predicate Stands(f: string, pos: nat, s: string) {
    s == "" || At(f, pos, s)
  }

  /** What stands outside of the written range stays. */
  lemma WriteOutside(f: string, pos: nat, data: string, from: nat, s: string)
    requires Stands(f, from, s) && (from + |s| <= pos || pos + |data| <= from)
    ensures Stands(WriteAt(f, pos, data), from, s)
  {
    var r := WriteAt(f, pos, data);
    if s != "" {
      forall i | 0 <= i < |s| ensures r[from + i] == s[i] {
        assert f[from + i] == s[i];
      }
    }
  }

  lemma WriteKeepsPrefix(f: string, pos: nat, data: string, n: nat)
    requires n <= |f| && n <= pos
    ensures n <= |WriteAt(f, pos, data)| && WriteAt(f, pos, data)[..n] == f[..n]
  {
  }

  lemma WriteStands(f: string, pos: nat, data: string)
    requires data != ""
    ensures At(WriteAt(f, pos, data), pos, data)
  {
  }

  /** Data written where the last data ended continues it. */
  lemma WriteContinues(f: string, from: nat, s: string, data: string)
    requires Stands(f, from, s)
    ensures Stands(WriteAt(f, from + |s|, data), from, s + data)
  {
    if data == "" {
      assert s + data == s;
    } else {
      var r := WriteAt(f, from + |s|, data);
      WriteStands(f, from + |s|, data);
      WriteOutside(f, from + |s|, data, from, s);
      assert At(r, from, s) by {
        if s == "" { assert At(r, from, ""); }
      }
      AtConcat(r, from, s, data);
    }
  }

  class File {
    var data: string
    var closed: bool

    constructor ()
      ensures data == "" && !closed
    {
      data, closed := "", false;
    }
  }

  // ----- The writer of a piece

  class StreamToFile {
    const outFile: File
    const start: nat
    const length: Option<nat>
    var position: nat
    /** What the hasher was given. */
    var hashed: string

    constructor (outFile: File, start: nat, length: Option<nat>)
      ensures this.outFile == outFile && this.start == start && hashed == ""
      ensures this.length == if length.Some? then Some(start + length.value) else None
      ensures Ok()
    {
      this.outFile, this.start, position, hashed := outFile, start, start, "";
      this.length := if length.Some? then Some(start + length.value) else None;
    }

    /** What was hashed is what stands in the file where it was written, inside the range. */
    ghost predicate Ok()
      reads this`position, this`hashed, outFile`data
    {
      && position == start + |hashed| && Stands(outFile.data, start, hashed)
      && (length.Some? ==> position <= length.value)
    }

    /** What of the data is still inside the range. */
    function Clipped(data: string): (d: string)
      requires length.Some? ==> position <= length.value
      reads this
      ensures d <= data && (length.Some? ==> position + |d| <= length.value)
      ensures d == data || (length.Some? && position + |d| == length.value)
    {
      if length.Some? && position + |data| > length.value then data[..length.value - position] else data
    }

    /** Data inside the range is written and hashed. */
    method Write(d: string)
      requires Ok() && (length.Some? ==> position + |d| <= length.value)
      modifies this`position, this`hashed, outFile`data
      ensures Ok() && hashed == old(hashed) + d && outFile.data == WriteAt(old(outFile.data), old(position), d)
    {
      WriteContinues(outFile.data, start, hashed, d);
      outFile.data := WriteAt(outFile.data, position, d);
      hashed := hashed + d;
      position := position + |d|;
    }

    /** _gotData; an exception if the file was closed. */
    method GotData(data: string) returns (ok: bool)
      requires Ok()
      modifies this`position, this`hashed, outFile`data
      ensures Ok() && ok == !outFile.closed && old(hashed) <= hashed
      ensures !ok ==> outFile.data == old(outFile.data) && hashed == old(hashed)
      ensures ok ==> hashed == old(hashed) + old(Clipped(data))
      ensures ok ==> outFile.data == WriteAt(old(outFile.data), old(position), old(Clipped(data)))
    {
      if outFile.closed {
        return false;
      }
      var d := Clipped(data);
      Write(d);
      return true;
    }
  }

  // ----- The reader

  const CHUNK_SIZE: nat := 32 * 1024

  /** How much is read at an offset: a chunk, or what is available, or what the file has. */
  function Readable(available: nat, position: nat, length: nat): (n: nat)
    requires position <= available && position <= length
    ensures n <= CHUNK_SIZE && position + n <= available && position + n <= length
    ensures n == CHUNK_SIZE || position + n == available || position + n == length
  {
    var n := if available - position < CHUNK_SIZE then available - position else CHUNK_SIZE;
    if position + n < length then n else length - position
  }

  /** What a reader gets: data, the end, or the promise of one of them. */
  datatype Reading = Data(b: string) | End | Later

  class GrowingFileStream {
    const file: File
    var f: File?
    var deferred: bool
    var available: nat
    var position: nat
    var closed: bool
    var finished: bool
    var remove: bool
    /** What the reader has got so far, and whether it has been told that this is all. */
    ghost var received: string
    ghost var ended: bool

    constructor (file: File)
      requires !file.closed
      ensures Ok() && this.file == file && available == 0 && position == 0 && !finished && !closed && f == file
              && received == ""
      ensures !ended && !deferred
    {
      this.file, f := file, file;
      deferred, available, position, closed, finished, remove := false, 0, 0, false, false, false;
      received, ended := "", false;
    }

    /** What was received is what the file starts with, and it is never more than what is available. A reader
        that was told of the end has got all that was available, and nothing is written any more. */
    ghost predicate Ok()
      reads this, file
    {
      OkFor(file.data, file.closed)
    }

    /** The same of a file with these data, which is closed or not. */
    ghost predicate OkFor(data: string, shut: bool)
      reads this
    {
      && (f == null || f == file) && (f != null <==> !shut) && (deferred ==> f != null || closed)
      && (closed ==> f == null)
      && position <= available && position <= |data| && received == data[..position]
      && (f == null ==> closed || ended)
      && (ended && !closed ==> finished && f == null && shut && (position == available || position == |data|))
    }

    /** Other data with the same beginning. */
    lemma Extends(data: string, data': string, shut: bool)
      requires OkFor(data, shut) && (shut ==> data' == data)
      requires position <= |data'| && data'[..position] == data[..position]
      ensures OkFor(data', shut)
    {
    }

    /** How much is read next. */
    ghost function Next(): nat
      requires Ok()
      reads this, file
    {
      Readable(available, position, |file.data|)
    }

    /** How much a read can get. */
    function ReadSize(): int
      reads this
    {
      if available - position < CHUNK_SIZE then available - position else CHUNK_SIZE
    }

    /** seek and read; less than asked for at the end of the file. */
    method Fetch() returns (b: string)
      requires Ok() && f != null && ReadSize() >= 0
      modifies this`position, this`received
      ensures Ok() && received == old(received) + b && position == old(position) + |b| && |b| == old(Next())
    {
      var end := if position + ReadSize() < |file.data| then position + ReadSize() else |file.data|;
      b := file.data[position..end];
      assert file.data[..end] == file.data[..position] + b;
      position := end;
      received := received + b;
    }

    /** read, when no earlier read is pending. */
    method Read() returns (r: Reading)
      requires Ok() && !deferred
      modifies this`position, this`received, this`deferred, this`f, this`ended, file`closed
      ensures Ok() && available == old(available) && finished == old(finished) && closed == old(closed)
      ensures match r
              case Data(b) => b != "" && |b| == old(Next()) && received == old(received) + b && !deferred
              case End => received == old(received) && ended && !deferred && (old(f) == null || old(Next()) == 0)
              case Later => received == old(received) && deferred && !finished && old(Next()) == 0
    {
      if f == null {
        ended := true;
        return End;
      }
      var b := "";
      if ReadSize() > 0 {
        b := Fetch();
      }
      if b != "" {
        return Data(b);
      } else if finished {
        CloseFile();
        ended := true;
        return End;
      } else {
        deferred := true;
        return Later;
      }
    }

    /** close: the reader has had enough. A read may be pending, and stays so. */
    method Close()
      requires Ok()
      modifies this`closed, this`f, file`closed
      ensures Ok() && closed && f == null && file.closed
    {
      closed := true;
      CloseFile();
    }

    /** The reader has closed the file while a read was pending. */
    predicate Left()
      reads this`deferred, this`f
    {
      deferred && f == null
    }

    /** The read could be served, if the file had not been closed: the attempt to do so raises an exception. */
    predicate Lost()
      reads this`deferred, this`f, this`position, this`available
    {
      Left() && position < available
    }

    /** updateAvailable: more can be read, and a pending read gets it, unless the reader has closed the file. */
    method UpdateAvailable(newlyAvailable: nat) returns (raised: bool)
      requires Ok()
      modifies this`available, this`position, this`received, this`deferred
      ensures Ok() && old(received) <= received && raised == Lost()
      ensures Left() == old(Left()) && (Left() ==> position == old(position))
      ensures available == if finished then old(available) else old(available) + newlyAvailable
      ensures |received| == |old(received)|
              + if old(deferred) && !raised then Readable(available, old(position), |file.data|) else 0
      ensures deferred <==> old(deferred) && received == old(received)
    {
      if !finished {
        available := available + newlyAvailable;
      }
      if deferred && position < available {
        if f == null {
          return true;
        }
        var b := Fetch();
        if b != "" {
          deferred := false;
        }
      }
      return false;
    }

    /** allAvailable: nothing more will come; a pending read gets what there is, or the end. */
    method AllAvailable(remove: bool) returns (raised: bool)
      requires Ok()
      modifies this`finished, this`remove, this`position, this`received, this`deferred, this`f, this`ended, file`closed
      ensures Ok() && finished && available == old(available) && old(received) <= received
      ensures raised == old(Lost()) == Lost() && deferred == raised
      ensures |received| == |old(received)| + if old(deferred) && !raised then old(Next()) else 0
      ensures ended <==> old(ended) || (!raised && old(deferred) && old(Next()) == 0)
      ensures closed == old(closed) && (file.closed ==> old(file.closed) || f == null)
    {
      finished := true;
      this.remove := remove;
      if deferred {
        var b := "";
        if position < available {
          if f == null {
            return true;
          }
          b := Fetch();
        }
        if b == "" {
          CloseFile();
          ended := true;
        }
        deferred := false;
      }
      if closed {
        CloseFile();
      }
      return false;
    }

    /** _close. */
    method CloseFile()
      modifies this`f, file`closed
      requires f == null || f == file
      ensures f == null && (file.closed <==> old(file.closed) || old(f) != null)
    {
      if f != null {
        f.closed := true;
        f := null;
      }
    }
  }
}
