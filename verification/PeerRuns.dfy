/** A download from a single peer that has the file. */
module PeerRuns {
  import opened Options
  import opened Chunks
  import opened KTableSpec
  import opened Streams
  import opened Pieces
  import opened PeerManager

  /** The first p pieces are complete, those up to another are taken, and the rest is missing. */
  function Progress(n: nat, p: nat, taken: nat, site: string): (r: seq<Status>)
    ensures |r| == n
    ensures forall i :: 0 <= i < n ==> r[i] == if i < p then Complete else if i < taken then Taken(site) else Missing
  {
    seq(n, i => if i < p then Complete else if i < taken then Taken(site) else Missing)
  }

  /** The pieces that the peer has: all but the last are full. */
  ghost predicate Whole(contents: seq<string>) {
    && |contents| >= 1 && (forall p :: 0 <= p < |contents| ==> |contents[p]| <= PIECE_SIZE)
    && forall p :: 0 <= p < |contents| - 1 ==> |contents[p]| == PIECE_SIZE
  }

  /** These are the pieces that are wanted. */
  ghost predicate Wanted(d: FileDownload, contents: seq<string>) {
    && Whole(contents) && |contents| == |d.pieces| && d.minPeers == 0
    && forall p :: 0 <= p < |contents| ==> d.pieceDigest(contents[p]) == d.pieces[p]
  }

  /** The first p pieces were accepted as they are, and nothing was written behind them. */
  ghost predicate Got(d: FileDownload, contents: seq<string>, p: nat)
    reads d`accepted, d`farthest
  {
    && p <= |contents| && (forall q :: 0 <= q < p ==> q in d.accepted && d.accepted[q] == contents[q])
    && d.farthest <= |Bytes(contents[..p])|
  }

  /** The peer is being asked for piece p. */
  ghost predicate AsksFor(d: FileDownload, contents: seq<string>, site: string, p: nat)
    reads d, d.file, d.stream, d.WriterSet()`position, d.WriterSet()`hashed
  {
    && d.Valid() && Wanted(d, contents) && p < |contents| && Got(d, contents, p)
    && d.completePieces == Progress(|contents|, p, p + 1, site) && d.sitelist == [] && d.outstanding == 1
    && d.nextFinish == p && d.writers == map[] && !d.file.closed && d.Going()
  }

  // ----- Rounds

  lemma RoundEnds(d: Desk, piece: nat)
    requires d.waiting >= 4 || d.sites == [] || piece >= |d.complete|
    ensures Round(d, piece) == d
  {
  }

  /** The answer for a piece has come, and the peer is asked for the next one, if there is one. */
  lemma NextAsked(d: Desk, n: nat, p: nat, site: string)
    requires p < n && d.complete == Progress(n, p, p + 1, site) && d.sites == [site] && d.waiting == 0
    ensures Round(d, p).complete == Progress(n, p, p + 2, site)
    ensures p + 1 < n ==> Round(d, p).sites == [] && Round(d, p).waiting == 1
    ensures p + 1 == n ==> Round(d, p).sites == [site] && Round(d, p).waiting == 0
  {
    assert Round(d, p) == Round(d, p + 1);
    if p + 1 < n {
      var r := AskedOf(d, p + 1);
      assert r.complete == Progress(n, p, p + 2, site);
      RoundEnds(r, p + 2);
    } else {
      RoundEnds(d, p + 1);
      assert d.complete == Progress(n, p, p + 2, site);
    }
  }

  lemma OneSorted(site: string, rank: string -> nat)
    ensures SortBy([site], rank, 1) == [site]
  {
    assert SortBy([site], rank, 0) == [];
  }

  lemma NoneSorted(rank: string -> nat)
    ensures SortBy([], rank, 0) == []
  {
  }

  lemma FirstIsAsked(d: Desk, n: nat, site: string)
    requires n >= 1 && d.complete == Progress(n, 0, 0, site) && d.sites == [site] && d.waiting == 0
    ensures Round(d, 0).complete == Progress(n, 0, 1, site) && Round(d, 0).sites == [] && Round(d, 0).waiting == 1
  {
    var r := AskedOf(d, 0);
    assert r.complete == Progress(n, 0, 1, site);
    RoundEnds(r, 1);
  }

  // ----- One piece after the other

  /** The body of piece p is coming in. */
  ghost predicate Writes(d: FileDownload, contents: seq<string>, site: string, p: nat, data: string)
    reads d, d.file, d.stream, d.WriterSet()`position, d.WriterSet()`hashed
  {
    && d.Valid() && Wanted(d, contents) && p < |contents|
    && d.completePieces == Progress(|contents|, p, p + 2, site)
    && d.sitelist == (if p + 1 < |contents| then [] else [site])
    && d.outstanding == (if p + 1 < |contents| then 1 else 0)
    && d.nextFinish == p && d.writers.Keys == {p} && d.writers[p].s.hashed == data && d.writers[p].site == site
    && !d.writers[p].whole && !d.file.closed && d.stream != null && !d.stream.finished
  }

  method Start(d: FileDownload, contents: seq<string>, site: string, rank: string -> nat)
    requires d.Valid() && d.Going() && Wanted(d, contents) && d.stream == null && d.nextFinish == 0 && d.farthest == 0
    requires d.completePieces == Progress(|contents|, 0, 0, site) && d.sitelist == [site] && d.outstanding == 0
    requires d.writers == map[] && !d.file.closed
    modifies d`addedMirror, d`errors, d`completePieces, d`outstanding, d`asked, d`sitelist, d`defer_, d.file`closed
    ensures AsksFor(d, contents, site, 0)
  {
    OneSorted(site, rank);
    FirstIsAsked(d.DeskOf().(sites := [site]), |contents|, site);
    d.Start(rank);
  }

  method Headers(d: FileDownload, contents: seq<string>, site: string, p: nat, rank: string -> nat)
    requires AsksFor(d, contents, site, p)
    modifies d, d.stream, d.file`closed
    ensures Writes(d, contents, site, p, "") && Got(d, contents, p)
    ensures d.stream == old(d.stream) || fresh(d.stream)
    ensures fresh(d.writers[p].s)
  {
    d.OneAttempt(p);
    ghost var desk := Answered(d.DeskOf(), Body(false), p, site, d.minPeers, d.mirror);
    OneSorted(site, rank);
    NextAsked(desk, |contents|, p, site);
    var raised := d.GetPiece(206, p, site, rank);
  }

  lemma PieceFits(d: FileDownload, contents: seq<string>, site: string, p: nat)
    requires Writes(d, contents, site, p, "")
    ensures var s := d.writers[p].s;
            s.Clipped(contents[p]) == contents[p] && s.position == p * PIECE_SIZE
                && s.hashed + contents[p] == contents[p]
  {
    assert d.WriterOk(p);
    assert (p + 1) * PIECE_SIZE == p * PIECE_SIZE + PIECE_SIZE;
  }

  lemma BytesBefore(contents: seq<string>, p: nat)
    requires Whole(contents) && p < |contents|
    ensures |Bytes(contents[..p])| == p * PIECE_SIZE && |Bytes(contents[..p + 1])| == p * PIECE_SIZE + |contents[p]|
  {
    LengthOfFull(contents, p);
    BytesNext(contents, p);
  }

  method Contents(d: FileDownload, contents: seq<string>, site: string, p: nat)
    requires Writes(d, contents, site, p, "") && Got(d, contents, p)
    modifies d.writers[p].s`position, d.writers[p].s`hashed, d.file`data, d`farthest
    ensures Writes(d, contents, site, p, contents[p]) && d.accepted == old(d.accepted)
    ensures d.stream == old(d.stream) && d.writers == old(d.writers)
    ensures d.farthest <= |Bytes(contents[..p + 1])|
  {
    PieceFits(d, contents, site, p);
    BytesBefore(contents, p);
    var ok := d.Data(p, contents[p]);
  }

  /** The piece is accepted. The download goes on with the next, or is complete. */
  method PieceComes(d: FileDownload, contents: seq<string>, site: string, p: nat, rank: string -> nat)
    requires p < |contents| && Writes(d, contents, site, p, contents[p])
    requires d.farthest <= |Bytes(contents[..p + 1])|
    requires forall q :: 0 <= q < p ==> q in d.accepted && d.accepted[q] == contents[q]
    modifies d`completePieces, d`outstanding, d`asked, d`writers, d`accepted, d`errors, d`sitelist,
             d`nextFinish, d`told, d`defer_, d.stream, d.file`closed
    ensures d.file.data == old(d.file.data) && d.stream == old(d.stream)
    ensures p + 1 < |contents| ==> AsksFor(d, contents, site, p + 1)
    ensures p + 1 == |contents| ==> AllCome(d, contents)
  {
    ghost var desk := Bodied(d.DeskOf(), true, p, site);
    OneSorted(site, rank);
    NoneSorted(rank);
    OneComplete(|contents|, p, site);
    NothingAsked(desk);
    assert d.Good(p);
    var raised := d.GotPiece(p, rank);
    NextCounted(d, |contents|, p, site);
    Onward(d, contents, site, p);
  }

  /** With a piece more, the next one is asked for, or the download is complete. */
  lemma Onward(d: FileDownload, contents: seq<string>, site: string, p: nat)
    requires d.Valid() && Wanted(d, contents) && p < |contents| && Got(d, contents, p + 1) && d.nextFinish == p + 1
    requires d.completePieces == Progress(|contents|, p + 1, p + 2, site) && d.writers == map[]
    requires p + 1 < |contents| ==> d.sitelist == [] && d.outstanding == 1
    requires p + 1 == |contents| ==> d.outstanding == 0
    requires d.stream != null && d.stream.finished == d.Ending() && (d.file.closed ==> d.Over())
    ensures p + 1 < |contents| ==> AsksFor(d, contents, site, p + 1)
    ensures p + 1 == |contents| ==> AllCome(d, contents)
  {
  }

  lemma OneComplete(n: nat, p: nat, site: string)
    requires p < n
    ensures Progress(n, p, p + 2, site)[p := Complete] == Progress(n, p + 1, p + 2, site)
  {
  }

  /** Nothing is asked of nobody, nor if nothing is missing. */
  lemma NothingAsked(d: Desk)
    requires d.sites == [] || Missing !in d.complete
    ensures forall x: nat :: Round(d, x) == d
  {
    forall x: nat ensures Round(d, x) == d {
      NothingAskedFrom(d, x);
    }
  }

  lemma {:induction false} NothingAskedFrom(d: Desk, x: nat)
    requires d.sites == [] || Missing !in d.complete
    ensures Round(d, x) == d
    decreases if x < |d.complete| then |d.complete| - x else 0
  {
    if x < |d.complete| {
      assert d.complete[x] in d.complete;
      NothingAskedFrom(d, x + 1);
    }
  }

  lemma NextCounted(d: FileDownload, n: nat, p: nat, site: string)
    requires d.Booked() && d.Current() && p < n && d.completePieces == Progress(n, p + 1, p + 2, site)
    requires d.nextFinish >= p
    ensures d.nextFinish == p + 1
  {
    if p + 1 < n {
      assert BookOf(d.completePieces, d.asked, d.writers.Keys, d.accepted.Keys, d.nextFinish, p + 1);
    }
  }

  ghost predicate AllCome(d: FileDownload, contents: seq<string>)
    reads d, d.file, d.stream, d.WriterSet()`position, d.WriterSet()`hashed
  {
    && d.Valid() && Wanted(d, contents) && Got(d, contents, |contents|) && d.nextFinish == |contents|
    && d.stream != null && d.stream.finished && !d.UnderWay()
  }

  /** The headers and the contents of a piece come. */
  method Piece(d: FileDownload, contents: seq<string>, site: string, p: nat, rank: string -> nat)
    requires AsksFor(d, contents, site, p)
    modifies d, d.stream, d.file
    ensures d.stream == old(d.stream) || fresh(d.stream)
    ensures p + 1 < |contents| ==> AsksFor(d, contents, site, p + 1)
    ensures p + 1 == |contents| ==> AllCome(d, contents)
  {
    Headers(d, contents, site, p, rank);
    Contents(d, contents, site, p);
    PieceComes(d, contents, site, p, rank);
  }

  /** The pieces come one after the other. */
  method EachPiece(d: FileDownload, contents: seq<string>, site: string, rank: string -> nat)
    requires AsksFor(d, contents, site, 0) && d.stream == null
    modifies d, d.file
    ensures AllCome(d, contents)
  {
    Piece(d, contents, site, 0, rank);
    for p := 1 to |contents|
      invariant fresh(d.stream)
      invariant p < |contents| ==> AsksFor(d, contents, site, p)
      invariant p == |contents| ==> AllCome(d, contents)
    {
      Piece(d, contents, site, p, rank);
    }
  }

  lemma AllThere(d: FileDownload, contents: seq<string>)
    requires AllCome(d, contents)
    ensures d.AcceptedData() == contents && d.file.data == Bytes(contents)
  {
    assert d.AcceptedData() == contents;
    assert contents[..|contents|] == contents;
    d.FileIsAcceptedIff();
  }

  /** A single peer that has the file, of any number of pieces, is enough: a download from it is complete when each
      piece was asked for and answered once, in order, and the file is what the peer has. */
  method FetchAll(contents: seq<string>, digests: seq<string>, site: string, pieceDigest: string -> string,
                  fileDigest: string -> string, rank: string -> nat) returns (d: FileDownload)
    requires Whole(contents) && |digests| == |contents|
    requires forall p :: 0 <= p < |contents| ==> pieceDigest(contents[p]) == digests[p]
    ensures d.Valid() && d.pieces == digests && d.nextFinish == |digests| && d.AcceptedData() == contents
    ensures d.file.data == Bytes(contents) && d.Over() && !d.UnderWay()
  {
    d := new FileDownload(digests, [site], pieceDigest, fileDigest, 0, None);
    assert d.completePieces == Progress(|contents|, 0, 0, site);
    Start(d, contents, site, rank);
    EachPiece(d, contents, site, rank);
    AllThere(d, contents);
  }
}
