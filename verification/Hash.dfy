/** Hashing a file as it arrives: its own hash and the SHA1 hashes of its pieces. */
module Hash {
  import opened Options
  import opened Chunks

  // ----- The batch form

  /** How many pieces are complete for good when this many bytes are known: a last full piece may still
      turn out to be the last of all. */
  function Closed(size: nat): (k: nat)
    ensures k * PIECE_SIZE <= size && (size > 0 ==> k * PIECE_SIZE < size) && size <= (k + 1) * PIECE_SIZE
  {
    if size == 0 then 0 else (size - 1) / PIECE_SIZE
  }

  lemma ClosedIs(size: nat, k: nat)
    requires k * PIECE_SIZE <= size <= (k + 1) * PIECE_SIZE && (k > 0 ==> k * PIECE_SIZE < size)
    ensures k == Closed(size)
  {
  }

  /** The bytes of piece i. */
  function Piece(data: string, i: nat): string
    requires i * PIECE_SIZE <= |data|
  {
    if (i + 1) * PIECE_SIZE <= |data| then data[i * PIECE_SIZE..(i + 1) * PIECE_SIZE] else data[i * PIECE_SIZE..]
  }

  function PieceHashes(data: string, sha1: string -> string, k: nat): (r: seq<string>)
    requires k == 0 || (k - 1) * PIECE_SIZE <= |data|
    ensures |r| == k
  {
    seq(k, i requires 0 <= i < k && i * PIECE_SIZE <= |data| => sha1(Piece(data, i)))
  }

  /** The piece hashes of a whole file: none if the file's own hash serves for its one piece. */
  function Pieces(data: string, sha1: string -> string, shared: bool): seq<string> {
    if shared && |data| <= PIECE_SIZE then [] else PieceHashes(data, sha1, Closed(|data|) + 1)
  }

  /** One hash for each piece, unless that of the file serves. */
  lemma PiecesAre(data: string, sha1: string -> string, shared: bool)
    ensures Pieces(data, sha1, shared) == [] <==> shared && |data| <= PIECE_SIZE
    ensures Pieces(data, sha1, shared) != [] ==>
              && |Pieces(data, sha1, shared)| == Closed(|data|) + 1
              && forall i :: 0 <= i <= Closed(|data|) ==>
                   i * PIECE_SIZE <= |data| && Pieces(data, sha1, shared)[i] == sha1(Piece(data, i))
  {
  }

  /** The pieces are cut from the file without gap or overlap. */
  function Joined(data: string, k: nat): string
    requires k == 0 || (k - 1) * PIECE_SIZE <= |data|
  {
    if k == 0 then "" else Joined(data, k - 1) + Piece(data, k - 1)
  }

  lemma {:induction false} JoinedPrefix(data: string, k: nat)
    requires k == 0 || (k - 1) * PIECE_SIZE <= |data|
    ensures Joined(data, k) == if k * PIECE_SIZE <= |data| then data[..k * PIECE_SIZE] else data
  {
    if k > 0 {
      JoinedPrefix(data, k - 1);
    }
  }

  /** The pieces make up the file, each is of full size but the last, and none of a file that is not
      empty is empty. */
  lemma PiecesCover(data: string)
    ensures Joined(data, Closed(|data|) + 1) == data
    ensures forall i :: 0 <= i < Closed(|data|) ==> |Piece(data, i)| == PIECE_SIZE
    ensures |data| > 0 ==> 0 < |Piece(data, Closed(|data|))| <= PIECE_SIZE
  {
    JoinedPrefix(data, Closed(|data|) + 1);
    if (Closed(|data|) + 1) * PIECE_SIZE == |data| { assert data[..|data|] == data; }
  }

  // ----- The streaming form

  /** A hasher of the library: what it answers depends on the bytes it was given, not on how. */
  class Hasher {
    const h: string -> string
    var data: string

    constructor (h: string -> string)
      ensures this.h == h && data == ""
    {
      this.h, data := h, "";
    }

    method Update(more: string)
      modifies this
      ensures data == old(data) + more
    {
      data := data + more;
    }

    function Digest(): string
      reads this
    {
      h(data)
    }
  }

  datatype Outcome = Accepted | Ignored | AlreadyDone | NotInitialized

  class HashObject {
    /** The hash of files, and the hash of pieces, which may be the same. */
    const fileFunction: string -> string
    const sha1: string -> string
    const shared: bool
    var expHash: Option<string>
    var expSize: int
    var fileHasher: Hasher?
    var pieceHasher: Hasher?
    var fileHash: Option<string>
    var pieceHash: seq<string>
    var pieceSize: int
    var size: int
    var done: bool
    var result: Option<bool>
    /** The bytes accepted since the last call of new. */
    ghost var data: string

    constructor (fileFunction: string -> string, sha1: string -> string, shared: bool, digest: Option<string>)
      requires shared ==> fileFunction == sha1
      ensures Valid() && done && fileHasher == null && result == None && expHash == None && fileHash == digest
      ensures this.fileFunction == fileFunction && this.sha1 == sha1 && this.shared == shared
    {
      this.fileFunction, this.sha1, this.shared := fileFunction, sha1, shared;
      expHash, expSize, fileHasher, pieceHasher := None, 0, null, null;
      fileHash, pieceHash, pieceSize, size, done, result := digest, [], 0, 0, true, None;
      data := "";
    }

    ghost predicate Valid()
      reads this, fileHasher, pieceHasher
    {
      && (shared ==> fileFunction == sha1)
      && (done && fileHasher != null ==> Digested())
      && (!done ==> Hashing())
    }

    /** While data comes in. */
    ghost predicate Hashing()
      reads this, fileHasher, pieceHasher
    {
      && !done && result == None && fileHash == None && Midway(data, "")
      && (pieceHasher == null <==> shared && |data| <= PIECE_SIZE)
    }

    /** All bytes but the rest have been hashed. */
    ghost predicate Midway(total: string, rest: string)
      reads this`fileHasher, this`pieceHasher, this`pieceHash, this`pieceSize, this`size, fileHasher, pieceHasher
    {
      && fileHasher != null && fileHasher.h == fileFunction && fileHasher.data + rest == total
         && size == |fileHasher.data|
      && (if pieceHasher == null then shared && pieceHash == [] && size <= PIECE_SIZE
          else pieceHasher != fileHasher && pieceHasher.h == sha1
               && Closing(total, size, |pieceHash|, pieceHash, pieceHasher.data, pieceSize, sha1))
    }

    /** After digest. */
    ghost predicate Digested()
      reads this
    {
      && fileHash == Some(fileFunction(data)) && size == |data|
      && pieceHash == Pieces(data, sha1, shared)
    }

    /** new. */
    method New(force: bool)
      requires Valid()
      modifies this
      ensures Valid() && expHash == old(expHash) && expSize == old(expSize)
      ensures if old(result).None? || force then !done && data == "" && result == None && fresh(fileHasher)
                && (pieceHasher == null || fresh(pieceHasher))
              else done == old(done) && data == old(data) && result == old(result) && fileHash == old(fileHash)
    {
      if result.None? || force {
        Restart();
      }
    }

    method Restart()
      requires shared ==> fileFunction == sha1
      modifies this
      ensures Valid() && expHash == old(expHash) && expSize == old(expSize)
      ensures !done && data == "" && result == None && fresh(fileHasher) && (pieceHasher == null || fresh(pieceHasher))
    {
      result, done := None, false;
      fileHasher := new Hasher(fileFunction);
      if shared {
        pieceHasher := null;
      } else {
        pieceHasher := new Hasher(sha1);
        pieceSize := 0;
      }
      fileHash, pieceHash, size := None, [], 0;
      data := "";
    }

    /** update: whatever the chunks, what is known of the data is the same. */
    method Update(more: string) returns (outcome: Outcome)
      requires Valid()
      modifies this, fileHasher, pieceHasher
      ensures Valid() && result == old(result) && done == old(done) && expHash == old(expHash)
              && expSize == old(expSize)
      ensures outcome == if old(result).Some? then Ignored else if old(done) then AlreadyDone else Accepted
      ensures data == if outcome.Accepted? then old(data) + more else old(data)
      ensures fileHasher == old(fileHasher) && (pieceHasher == null || pieceHasher == old(pieceHasher)
              || fresh(pieceHasher))
    {
      if result.Some? {
        return Ignored;
      }
      if done {
        return AlreadyDone;
      }
      if fileHasher == null {
        return NotInitialized;
      }
      ghost var total := data + more;
      if pieceHasher != null {
        ClosingMore(data, more, size, |pieceHash|, pieceHash, pieceHasher.data, pieceSize, sha1);
      }
      assert Midway(total, more);
      var rest := FillPieces(total, more);
      Finish(total, rest);
      data := total;
      return Accepted;
    }

    /** The pieces that the data fills are hashed. */
    method FillPieces(ghost total: string, more: string) returns (rest: string)
      requires Midway(total, more) && (shared ==> fileFunction == sha1)
      modifies this`pieceHasher, this`pieceHash, this`pieceSize, this`size, fileHasher, pieceHasher
      ensures Midway(total, rest) && (pieceHasher == null || pieceHasher == old(pieceHasher) || fresh(pieceHasher))
      ensures if pieceHasher == null then size + |rest| <= PIECE_SIZE else pieceSize + |rest| <= PIECE_SIZE
      ensures pieceHasher == null ==> shared
      ensures shared && pieceHasher != null ==> old(pieceHasher) != null || |total| > PIECE_SIZE
    {
      rest := more;
      if pieceHasher == null && size + |rest| > PIECE_SIZE {
        rest := FirstPiece(total, rest);
      }
      if pieceHasher != null {
        while pieceSize + |rest| > PIECE_SIZE
          invariant pieceHasher != null && Midway(total, rest)
          invariant pieceHasher == old(pieceHasher) || fresh(pieceHasher)
          decreases |rest| + pieceSize
        {
          rest := ClosePiece(total, rest);
        }
      }
    }

    /** The first piece of a file is full: its hash is that of the file so far. */
    method FirstPiece(ghost total: string, more: string) returns (rest: string)
      requires Midway(total, more) && pieceHasher == null && size + |more| > PIECE_SIZE && fileFunction == sha1
      modifies this`pieceHasher, this`pieceHash, this`pieceSize, this`size, fileHasher
      ensures Midway(total, rest) && pieceHasher != null && fresh(pieceHasher) && |total| > PIECE_SIZE
    {
      var n := PIECE_SIZE - size;
      assert more == more[..n] + more[n..];
      fileHasher.Update(more[..n]);
      rest := more[n..];
      size := PIECE_SIZE;
      pieceSize := 0;
      assert fileHasher.data == Piece(total, 0);
      pieceHash := pieceHash + [fileHasher.Digest()];
      pieceHasher := new Hasher(sha1);
    }

    /** One more piece is full. */
    method ClosePiece(ghost total: string, more: string) returns (rest: string)
      requires Midway(total, more) && pieceHasher != null && pieceSize + |more| > PIECE_SIZE
      modifies this`pieceHasher, this`pieceHash, this`pieceSize, this`size, fileHasher, pieceHasher
      ensures Midway(total, rest) && pieceHasher != null && fresh(pieceHasher)
      ensures |rest| + pieceSize < |more| + old(pieceSize)
    {
      var n := PIECE_SIZE - pieceSize;
      assert more == more[..n] + more[n..];
      ghost var k := |pieceHash|;
      ClosingFull(total, more, fileHasher.data, k, pieceHash, pieceHasher.data, pieceSize, sha1);
      pieceHasher.Update(more[..n]);
      pieceHash := pieceHash + [pieceHasher.Digest()];
      pieceHasher := new Hasher(sha1);
      fileHasher.Update(more[..n]);
      rest := more[n..];
      size := size + n;
      pieceSize := 0;
    }

    /** What is left goes to the open piece. */
    method Finish(ghost total: string, rest: string)
      requires Midway(total, rest)
      requires if pieceHasher == null then size + |rest| <= PIECE_SIZE else pieceSize + |rest| <= PIECE_SIZE
      modifies this`pieceSize, this`size, fileHasher, pieceHasher
      ensures Midway(total, "")
    {
      if pieceHasher != null {
        ClosingRest(total, rest, fileHasher.data, |pieceHash|, pieceHash, pieceHasher.data, pieceSize, sha1);
        pieceHasher.Update(rest);
        pieceSize := pieceSize + |rest|;
      }
      fileHasher.Update(rest);
      size := size + |rest|;
    }

    /** digest: None before any hashing; a second call adds nothing. */
    method Digest() returns (hash: Option<string>)
      requires Valid()
      modifies this
      ensures Valid() && hash == fileHash && data == old(data) && result == old(result)
      ensures expHash == old(expHash) && expSize == old(expSize)
      ensures old(fileHash).Some? ==> fileHash == old(fileHash) && pieceHash == old(pieceHash)
      ensures old(!done) ==> done && Digested()
    {
      if fileHash.Some? || fileHasher == null {
        return fileHash;
      }
      Hashed();
      fileHash := Some(fileHasher.Digest());
      done := true;
      if pieceHasher != null {
        pieceHash := pieceHash + [pieceHasher.Digest()];
      }
      return fileHash;
    }

    /** What the hashers have, when no data is left to hash. */
    lemma Hashed()
      requires Hashing()
      ensures fileHasher.h == fileFunction && fileHasher.data == data && size == |data|
      ensures Pieces(data, sha1, shared) == pieceHash + if pieceHasher == null then [] else [pieceHasher.Digest()]
    {
      assert data + "" == data;
      if pieceHasher != null {
        PiecesDone(data, |pieceHash|, pieceHash, pieceHasher.data, pieceSize, sha1);
      }
    }

    /** _hashInThread: a file read in chunks of any sizes is hashed as it is in one. */
    method HashFile(chunks: seq<string>)
      requires Valid()
      modifies this
      ensures Valid() && Digested() && data == Bytes(chunks)
    {
      New(true);
      for i := 0 to |chunks|
        invariant Valid() && !done && data == Bytes(chunks[..i])
        invariant fresh(fileHasher) && (pieceHasher == null || fresh(pieceHasher))
      {
        var outcome := Update(chunks[i]);
        BytesNext(chunks, i);
      }
      assert chunks[..|chunks|] == chunks;
      var hash := Digest();
    }

    /** pieceDigests. */
    method PieceDigests() returns (hashes: seq<string>)
      requires Valid()
      modifies this
      ensures Valid() && hashes == pieceHash && data == old(data)
      ensures old(!done) ==> hashes == Pieces(data, sha1, shared)
    {
      var hash := Digest();
      hashes := pieceHash;
    }

    /** verify: whether the data has the expected hash and size; None if that is not known. */
    method Verify() returns (ok: Option<bool>)
      requires Valid()
      modifies this
      ensures Valid() && ok == result && data == old(data)
      ensures old(!done) && expHash.Some? ==> ok == Some(fileFunction(data) == expHash.value && |data| == expSize)
      ensures old(result).Some? || expHash.None? ==> ok == old(result)
    {
      var hash := Digest();
      if result.None? && fileHash.Some? && expHash.Some? {
        result := Some(fileHash == expHash && size == expSize);
      }
      return result;
    }
  }

  /** The first k pieces of the total are closed, and a hasher has the bytes of the next so far. */
  ghost predicate Closing(total: string, size: int, k: nat, hashes: seq<string>, open: string, pieceSize: int,
                          sha1: string -> string) {
    && k * PIECE_SIZE <= size <= (k + 1) * PIECE_SIZE && size <= |total| && (k > 0 ==> k * PIECE_SIZE < |total|)
    && pieceSize == size - k * PIECE_SIZE && open == total[k * PIECE_SIZE..size]
    && |hashes| == k && forall i :: 0 <= i < k ==> (i + 1) * PIECE_SIZE <= |total| && hashes[i] == sha1(Piece(total, i))
  }

  lemma ClosingMore(total: string, more: string, size: int, k: nat, hashes: seq<string>, open: string,
                    pieceSize: int, sha1: string -> string)
    requires Closing(total, size, k, hashes, open, pieceSize, sha1)
    ensures Closing(total + more, size, k, hashes, open, pieceSize, sha1)
  {
    forall i | 0 <= i < k ensures Piece(total + more, i) == Piece(total, i) {
      assert (i + 1) * PIECE_SIZE <= |total|;
    }
    assert (total + more)[k * PIECE_SIZE..size] == total[k * PIECE_SIZE..size];
  }

  lemma PiecesDone(data: string, k: nat, hashes: seq<string>, open: string, pieceSize: int, sha1: string -> string)
    requires Closing(data, |data|, k, hashes, open, pieceSize, sha1)
    ensures k == Closed(|data|) && PieceHashes(data, sha1, k + 1) == hashes + [sha1(open)]
  {
    ClosedIs(|data|, k);
    assert open == Piece(data, k);
  }

  lemma ClosingFull(total: string, more: string, before: string, k: nat, hashes: seq<string>, open: string,
                    pieceSize: int, sha1: string -> string)
    requires before + more == total && pieceSize + |more| > PIECE_SIZE
    requires Closing(total, |before|, k, hashes, open, pieceSize, sha1)
    ensures var n := PIECE_SIZE - pieceSize;
            Closing(total, |before| + n, k + 1, hashes + [sha1(open + more[..n])], "", 0, sha1)
  {
    var n := PIECE_SIZE - pieceSize;
    var from := k * PIECE_SIZE;
    assert |before| == from + pieceSize && |before| + n == from + PIECE_SIZE == (k + 1) * PIECE_SIZE;
    assert open == before[from..];
    assert open + more[..n] == total[from..|before| + n];
    assert open + more[..n] == Piece(total, k);
  }

  lemma ClosingRest(total: string, rest: string, before: string, k: nat, hashes: seq<string>, open: string,
                    pieceSize: int, sha1: string -> string)
    requires before + rest == total && pieceSize + |rest| <= PIECE_SIZE
    requires Closing(total, |before|, k, hashes, open, pieceSize, sha1)
    ensures Closing(total, |total|, k, hashes, open + rest, pieceSize + |rest|, sha1)
  {
  }
}
