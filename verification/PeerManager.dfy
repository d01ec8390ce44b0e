/** Downloading the pieces of one file from several peers at once, while it is being read. */
module PeerManager {
  import opened Options
  import opened Chunks
  import opened Text
  import opened KTableSpec
  import opened Streams
  import opened Pieces

  /** A body that is being written: as part of a file, or as a whole file. */
  datatype Writer = Writer(s: StreamToFile, site: string, whole: bool)

  /** What an answer with a code is good for, if the file has n pieces. */
  datatype Use = NotThere | Wrong | Body(whole: bool)

  function UseOf(code: int, n: nat): Use {
    if code == 404 then NotThere
    else if (n > 1 && code != 206) || (code != 200 && code != 206) then Wrong
    else Body(code == 200)
  }

  /** Who is asked for what: the pieces, the sites left to ask and how many requests wait for an answer,
      whether the mirror was considered, and the errors of each site. */
  datatype Desk = Desk(
    complete: seq<Status>, sites: seq<string>, waiting: int, added: bool, errors: map<string, nat>)

  /** The errors of a site, with one more. */
  function ErrorsMore(errors: map<string, nat>, site: string): map<string, nat> {
    errors[site := (if site in errors then errors[site] else 0) + 1]
  }

  function With(complete: seq<Status>, piece: nat, status: Status): seq<Status> {
    if piece < |complete| then complete[piece := status] else complete
  }

  /** After addMirror: the mirror is used, once, if there are few peers. */
  function WithMirror(d: Desk, minPeers: nat, mirror: Option<string>): Desk {
    if d.added || |d.sites| + d.waiting >= minPeers then d
    else if mirror.None? then d.(added := true)
    else d.(added := true, sites := d.sites + [mirror.value], errors := d.errors[mirror.value := 0])
  }

  /** A site can be asked again, or the mirror may have to help. */
  function Returned(d: Desk, again: Option<string>, minPeers: nat, mirror: Option<string>): Desk {
    if again.Some? then d.(sites := d.sites + [again.value]) else WithMirror(d, minPeers, mirror)
  }

  /** After an error of a site, which is dropped after three in a row. */
  function Erred(d: Desk, site: string, minPeers: nat, mirror: Option<string>): Desk {
    var e := d.(errors := ErrorsMore(d.errors, site));
    Returned(e, if e.errors[site] < 3 then Some(site) else None, minPeers, mirror)
  }

  /** After an answer: a piece that it does not bring is missing again, and a site without the file is not
      asked any more. */
  function Answered(d: Desk, use: Use, piece: nat, site: string, minPeers: nat, mirror: Option<string>): Desk {
    match use
    case NotThere => Returned(Rejected(d, piece), None, minPeers, mirror)
    case Wrong => Erred(Rejected(d, piece), site, minPeers, mirror)
    case Body(_) => Returned(Heard(d), Some(site), minPeers, mirror)
  }

  /** A request less waits for its answer. */
  function Heard(d: Desk): Desk {
    d.(waiting := d.waiting - 1)
  }

  /** The answer is of no use: the piece is missing again. */
  function Rejected(d: Desk, piece: nat): Desk {
    Heard(d).(complete := With(d.complete, piece, Missing))
  }

  /** The mirror is there once, and only if there are few peers; it starts without errors. */
  predicate MirrorCame(d: Desk, r: Desk, minPeers: nat, mirror: Option<string>) {
    && r.complete == d.complete && r.waiting == d.waiting
    && (d.added || |d.sites| + d.waiting >= minPeers ==> r == d)
    && (!d.added && |d.sites| + d.waiting < minPeers ==>
          && r.added
          && r.sites == d.sites + (if mirror.Some? then [mirror.value] else [])
          && r.errors == if mirror.Some? then d.errors[mirror.value := 0] else d.errors)
  }

  function ErrorsOf(d: Desk, site: string): nat {
    if site in d.errors then d.errors[site] else 0
  }

  /** What an answer with a code leads to, if the file has n pieces. In any case a request less waits. A part of the
      file is good for any number of pieces, the whole file only for one: then the piece stays taken, and the site
      can be asked again. A site that does not have the file is gone, and any other answer is an error of the site,
      which is gone with the third; then the piece is missing again, and if the site is gone the mirror may have to
      help. */
  lemma AnswerIs(code: int, n: nat, d: Desk, piece: nat, site: string, minPeers: nat, mirror: Option<string>)
    requires piece < |d.complete|
    ensures var r := Answered(d, UseOf(code, n), piece, site, minPeers, mirror);
            var free := d.(waiting := d.waiting - 1, complete := d.complete[piece := Missing]);
            var erred := free.(errors := d.errors[site := ErrorsOf(d, site) + 1]);
            && (code == 206 || (code == 200 && n <= 1) ==>
                  r == d.(waiting := d.waiting - 1, sites := d.sites + [site]))
            && (code == 404 ==> MirrorCame(free, r, minPeers, mirror))
            && (code != 206 && code != 404 && (code != 200 || n > 1) && ErrorsOf(d, site) < 2 ==>
                  r == erred.(sites := d.sites + [site]))
            && (code != 206 && code != 404 && (code != 200 || n > 1) && ErrorsOf(d, site) >= 2 ==>
                  MirrorCame(erred, r, minPeers, mirror))
  {
  }

  /** A request without an answer counts as an error as well, and so does a body that broke off or has the wrong
      hash, but then the site can be asked again already. With a piece the errors of its site are forgotten. */
  lemma ErrorIs(d: Desk, piece: nat, site: string, minPeers: nat, mirror: Option<string>)
    requires piece < |d.complete|
    ensures var r := Answered(d, Wrong, piece, site, minPeers, mirror);
            var erred := d.(waiting := d.waiting - 1, complete := d.complete[piece := Missing],
                            errors := d.errors[site := ErrorsOf(d, site) + 1]);
            && (ErrorsOf(d, site) < 2 ==> r == erred.(sites := d.sites + [site]))
            && (ErrorsOf(d, site) >= 2 ==> MirrorCame(erred, r, minPeers, mirror))
    ensures Bodied(d, false, piece, site)
            == d.(complete := d.complete[piece := Missing], errors := d.errors[site := ErrorsOf(d, site) + 1])
    ensures Bodied(d, true, piece, site) == d.(complete := d.complete[piece := Complete], errors := d.errors[site := 0])
  {
  }

  /** After a body: its piece is complete, or missing again with an error more of the site. */
  function Bodied(d: Desk, good: bool, piece: nat, site: string): Desk {
    if good then d.(complete := With(d.complete, piece, Complete), errors := d.errors[site := 0])
    else d.(complete := With(d.complete, piece, Missing), errors := ErrorsMore(d.errors, site))
  }

  /** The site that is asked for a piece is the last of the list. */
  function AskedOf(d: Desk, piece: nat): Desk
    requires piece < |d.complete| && d.sites != []
  {
    var last := |d.sites| - 1;
    d.(complete := d.complete[piece := Taken(d.sites[last])], sites := d.sites[..last], waiting := d.waiting + 1)
  }

  /** The loop of getPieces from a piece on: at most four requests wait for an answer. */
  function Round(d: Desk, piece: nat): Desk
    decreases if piece < |d.complete| then |d.complete| - piece else 0
  {
    if d.waiting >= 4 || d.sites == [] || piece >= |d.complete| then d
    else Round(if d.complete[piece].Missing? then AskedOf(d, piece) else d, piece + 1)
  }

  /** The next pieces are asked for, of the sites in the order of their rank, the highest first. */
  function NextRound(d: Desk, next: nat, rank: string -> nat): Desk {
    Round(d.(sites := SortBy(d.sites, rank, |d.sites|)), next)
  }

  /** The round goes from a piece up to another, where four requests wait, no site is left, or no piece. */
  ghost predicate Rounded(d: Desk, r: Desk, next: nat, stop: nat) {
    && AskedFor(d.complete, r.complete, d.sites, r.sites, next, stop)
    && r.waiting == d.waiting + MissingIn(d.complete, next, stop) && (r.waiting <= 4 || r.waiting == d.waiting)
    && (r.waiting >= 4 || r.sites == [] || stop == |r.complete|)
    && r.added == d.added && r.errors == d.errors
  }

  /** Each missing piece between two is asked for, in order, of the next site from the end of the list, and
      nothing else changes. */
  lemma RoundIs(d: Desk, next: nat) returns (stop: nat)
    requires next <= |d.complete|
    ensures Rounded(d, Round(d, next), next, stop)
  {
    stop := RoundFrom(d, d, next, next);
  }

  /** Nobody has a higher rank than those after him in the list, and the list has the same sites. */
  ghost predicate Ranked(sites: seq<string>, ranked: seq<string>, rank: string -> nat) {
    && multiset(ranked) == multiset(sites)
    && forall i, j :: 0 <= i < j < |ranked| ==> rank(ranked[i]) <= rank(ranked[j])
  }

  /** In the next round the sites of the highest rank are asked, each once. */
  lemma NextRoundIs(d: Desk, next: nat, rank: string -> nat) returns (ranked: seq<string>, stop: nat)
    requires next <= |d.complete|
    ensures Ranked(d.sites, ranked, rank) && Rounded(d.(sites := ranked), NextRound(d, next, rank), next, stop)
  {
    ranked := SortBy(d.sites, rank, |d.sites|);
    SortRanks(d.sites, rank, |d.sites|);
    assert d.sites[..|d.sites|] == d.sites;
    stop := RoundIs(d.(sites := ranked), next);
  }

  lemma {:induction false} SortRanks(sites: seq<string>, rank: string -> nat, k: nat)
    requires k <= |sites|
    ensures Ranked(sites[..k], SortBy(sites, rank, k), rank)
  {
    if k == 0 {
      NoneRanked(sites[..k], SortBy(sites, rank, k), rank);
    } else {
      SortRanks(sites, rank, k - 1);
      assert sites[..k] == sites[..k - 1] + [sites[k - 1]];
      OneMoreRanked(sites[..k - 1], SortBy(sites, rank, k - 1), sites[k - 1], rank, sites[..k], SortBy(sites, rank, k));
    }
  }

  lemma NoneRanked(sites: seq<string>, r: seq<string>, rank: string -> nat)
    requires sites == [] && r == []
    ensures Ranked(sites, r, rank)
  {
  }

  lemma OneMoreRanked(sites: seq<string>, sorted: seq<string>, x: string, rank: string -> nat, all: seq<string>,
                      r: seq<string>)
    requires Ranked(sites, sorted, rank) && r == InsertAt(sorted, KeyPosition(sorted, x, rank, 0), x)
    requires all == sites + [x]
    ensures Ranked(all, r, rank)
  {
    InsertRanked(sites, sorted, x, KeyPosition(sorted, x, rank, 0), rank, r);
  }

  lemma InsertRanked(sites: seq<string>, sorted: seq<string>, x: string, p: nat, rank: string -> nat, r: seq<string>)
    requires Ranked(sites, sorted, rank) && p <= |sorted| && r == InsertAt(sorted, p, x)
    requires (forall k :: 0 <= k < p ==> rank(sorted[k]) <= rank(x)) && (p < |sorted| ==> rank(x) < rank(sorted[p]))
    ensures Ranked(sites + [x], r, rank)
  {
    InsertKeeps(sorted, p, x);
    forall k | p <= k < |sorted| ensures rank(x) <= rank(sorted[k]) {
      assert k == p || rank(sorted[p]) <= rank(sorted[k]);
    }
    forall a, b | 0 <= a < b < |r| ensures rank(r[a]) <= rank(r[b]) {
      assert a < p ==> r[a] == sorted[a];
      assert b > p ==> r[b] == sorted[b - 1];
      assert a > p ==> r[a] == sorted[a - 1];
      assert b < p ==> r[b] == sorted[b];
    }
  }

  lemma InsertKeeps(s: seq<string>, p: nat, x: string)
    requires p <= |s|
    ensures multiset(InsertAt(s, p, x)) == multiset(s + [x])
  {
    assert s == s[..p] + s[p..];
  }

  lemma {:induction false} RoundFrom(d: Desk, now: Desk, next: nat, piece: nat) returns (stop: nat)
    requires AskedFor(d.complete, now.complete, d.sites, now.sites, next, piece)
    requires now.waiting == d.waiting + MissingIn(d.complete, next, piece)
             && (now.waiting <= 4 || now.waiting == d.waiting)
    requires now.added == d.added && now.errors == d.errors
    ensures Rounded(d, Round(now, piece), next, stop)
    decreases |d.complete| - piece
  {
    if now.waiting >= 4 || now.sites == [] || piece >= |now.complete| {
      stop := piece;
    } else {
      AskedMore(d.complete, now.complete, d.sites, now.sites, next, piece);
      stop := RoundFrom(d, if now.complete[piece].Missing? then AskedOf(now, piece) else now, next, piece + 1);
    }
  }

  /** One writer more. */
  ghost predicate OneMore(before: map<nat, Writer>, after: map<nat, Writer>, piece: nat, site: string, whole: bool) {
    && piece in after && after == before[piece := after[piece]]
    && after[piece].site == site && after[piece].whole == whole
  }

  /** The writers after an answer. */
  ghost predicate TakenUp(before: map<nat, Writer>, after: map<nat, Writer>, use: Use, piece: nat, site: string) {
    if use.Body? then OneMore(before, after, piece, site, use.whole) else after == before
  }

  function AcceptedAfter(good: bool, accepted: map<nat, string>, piece: nat, data: string): map<nat, string> {
    if good then accepted[piece := data] else accepted
  }

  class FileDownload {
    const pieces: seq<string>
    const pieceDigest: string -> string
    const fileDigest: string -> string
    const minPeers: nat
    const mirror: Option<string>
    const file: File
    var stream: GrowingFileStream?
    var defer_: bool
    var completePieces: seq<Status>
    var sitelist: seq<string>
    var errors: map<string, nat>
    var outstanding: int
    var nextFinish: nat
    var addedMirror: bool
    var writers: map<nat, Writer>
    /** The requests that wait for an answer, and the data that pieces were accepted with. */
    ghost var asked: set<nat>
    ghost var accepted: map<nat, string>
    /** The farthest that any attempt has written, and how many pieces the reader was told of. */
    ghost var farthest: nat
    ghost var told: nat

    /** A download, with the hashes of the pieces and the sites of the peers, before its start. */
    constructor (pieces: seq<string>, sites: seq<string>, pieceDigest: string -> string, fileDigest: string -> string,
                 minPeers: nat, mirror: Option<string>)
      requires |pieces| >= 1
      ensures Valid() && Going() && nextFinish == 0 && accepted == map[] && writers == map[] && asked == {}
      ensures this.pieces == pieces && this.pieceDigest == pieceDigest && this.fileDigest == fileDigest
      ensures this.minPeers == minPeers && this.mirror == mirror && sitelist == sites && errors == map[] && !addedMirror
      ensures fresh(file) && file.data == "" && !file.closed && stream == null && farthest == 0
      ensures forall p :: 0 <= p < |pieces| ==> completePieces[p].Missing?
    {
      this.pieces, this.pieceDigest, this.fileDigest := pieces, pieceDigest, fileDigest;
      this.minPeers, this.mirror := minPeers, mirror;
      file := new File();
      stream, defer_ := null, true;
      completePieces := seq(|pieces|, _ => Missing);
      sitelist, errors, outstanding, nextFinish, addedMirror := sites, map[], 0, 0, false;
      writers, asked, accepted, farthest, told := map[], {}, map[], 0, 0;
    }

    ghost function WriterSet(): set<StreamToFile>
      reads this`writers
    {
      set p | p in writers :: writers[p].s
    }

    ghost predicate Valid()
      reads this, file, stream, WriterSet()`position, WriterSet()`hashed
    {
      Booked() && (Current() || Broken()) && Written() && Followed() && GivenUp()
    }

    ghost predicate Booked()
      reads this`completePieces, this`asked, this`writers, this`accepted, this`nextFinish, this`outstanding
    {
      && |completePieces| == |pieces| >= 1
      && Books(completePieces, asked, writers.Keys, accepted.Keys, nextFinish)
      && outstanding == |asked|
    }

    /** The first pieces that are complete have been counted. */
    predicate Current()
      reads this`completePieces, this`nextFinish
    {
      nextFinish < |completePieces| ==> !completePieces[nextFinish].Complete?
    }

    /** What each writer has written stands in its piece, and so does what each complete piece was accepted with. */
    ghost predicate Written()
      reads this`writers, this`accepted, this`farthest, file`data, WriterSet()`position,
            WriterSet()`hashed
    {
      && (forall p :: p in writers ==> WriterOk(p))
      && (forall p :: p in accepted ==> AcceptedOk(p))
      && |file.data| == farthest
    }

    ghost predicate WriterOk(p: nat)
      requires p in writers
      reads this`writers, file`data, writers[p].s`position, writers[p].s`hashed
    {
      var s := writers[p].s;
      && s.outFile == file && s.Ok() && s.start == p * PIECE_SIZE && StandsIn(file.data, p, s.hashed, |pieces|)
      && (if writers[p].whole then |pieces| == 1 && s.length.None? else s.length == Some((p + 1) * PIECE_SIZE))
    }

    ghost predicate AcceptedOk(p: nat)
      requires p in accepted
      reads this`accepted, file`data
    {
      StandsIn(file.data, p, accepted[p], |pieces|) && Matches(p, accepted[p])
    }

    /** The data has the expected hash, if one is known. */
    predicate Matches(p: nat, data: string)
      requires p < |pieces|
    {
      pieces[p] == "" || pieceDigest(data) == pieces[p] || (|pieces| == 1 && fileDigest(data) == pieces[p])
    }

    /** The reader is never told of more than the complete pieces at the start of the file, and of all of them
        until it is told that there will be no more. */
    ghost predicate Followed()
      reads this`defer_, this`stream, this`writers, this`accepted, this`asked, this`nextFinish, this`told, file, stream
    {
      && (defer_ ==> stream == null)
      && (stream == null ==> writers.Keys == {} && accepted.Keys == {} && !file.closed && (!defer_ ==> asked == {}))
      && told <= nextFinish && (stream == null ==> told == 0)
      && (stream != null ==>
            && stream.file == file && stream.Ok()
            && stream.available == told * PIECE_SIZE
            && (!stream.finished ==> told == nextFinish))
    }

    /** The reader has closed the file while a read was pending that could be served: every call of the stream
        raises an exception. */
    predicate Broken()
      reads this`stream, stream
    {
      stream != null && stream.Lost()
    }

    /** If a reader that has not closed the file was told of the end before the last piece, no site is left
        for a piece that is missing. */
    ghost predicate GivenUp()
      reads this`stream, this`told, this`sitelist, this`asked, this`completePieces, stream
    {
      Early() ==> sitelist == [] && asked == {} && Missing in completePieces
    }

    ghost predicate Early()
      reads this`stream, this`told, stream
    {
      stream != null && stream.finished && !stream.closed && told < |pieces|
    }

    /** The download has not failed before its first answer. */
    predicate Going()
      reads this`stream, this`defer_
    {
      stream != null || defer_
    }

    /** The download is waiting for an answer or a body. */
    ghost predicate UnderWay()
      reads this`asked, this`writers
    {
      asked != {} || writers.Keys != {}
    }

    /** The reader was told that there will be no more, or never got anything to read. */
    ghost predicate Over()
      reads this`stream, this`defer_, stream
    {
      if stream != null then stream.finished else !defer_
    }

    // ----- Asking peers

    function DeskOf(): Desk
      reads this`completePieces, this`sitelist, this`outstanding, this`addedMirror, this`errors
    {
      Desk(completePieces, sitelist, outstanding, addedMirror, errors)
    }

    /** addMirror. */
    method AddMirror()
      modifies this`addedMirror, this`errors, this`sitelist
      ensures DeskOf() == WithMirror(old(DeskOf()), minPeers, mirror)
    {
      if !addedMirror && |sitelist| + outstanding < minPeers {
        addedMirror := true;
        if mirror.Some? {
          errors := errors[mirror.value := 0];
          sitelist := sitelist + [mirror.value];
        }
      }
    }

    /** startDownload. */
    method Start(rank: string -> nat)
      requires Valid() && Going() && stream == null
      modifies this`addedMirror, this`errors, this`completePieces, this`outstanding, this`asked, this`sitelist,
               this`defer_, file`closed
      ensures Valid() && (UnderWay() || Over()) && file.data == old(file.data)
              && (file.closed ==> old(file.closed) || Over())
      ensures Continued(false, WithMirror(old(DeskOf()), minPeers, mirror), rank, old(Over()), old(defer_))
    {
      AddMirror();
      var raised := GetPieces(rank);
      assert !raised;
    }

    /** A request for a piece is sent to a site. */
    method Ask(piece: nat, site: string)
      requires Booked() && piece < |completePieces| && completePieces[piece].Missing?
      modifies this`completePieces, this`outstanding, this`asked
      ensures Booked() && outstanding == old(outstanding) + 1
              && completePieces == old(completePieces)[piece := Taken(site)]
    {
      BooksAsk(completePieces, asked, writers.Keys, accepted.Keys, nextFinish, piece, site);
      completePieces := completePieces[piece := Taken(site)];
      asked := asked + {piece};
      outstanding := outstanding + 1;
    }

    /** The loop of getPieces: requests for the missing pieces in order, each to the last site of the list. */
    method AskPeers()
      requires Booked()
      modifies this`completePieces, this`outstanding, this`asked, this`sitelist
      ensures Booked() && DeskOf() == Round(old(DeskOf()), nextFinish)
    {
      var piece := nextFinish;
      while outstanding < 4 && sitelist != [] && piece < |completePieces|
        invariant Booked() && Round(old(DeskOf()), nextFinish) == Round(DeskOf(), piece)
        decreases |completePieces| - piece
      {
        if completePieces[piece].Missing? {
          var site := sitelist[|sitelist| - 1];
          sitelist := sitelist[..|sitelist| - 1];
          Ask(piece, site);
        }
        piece := piece + 1;
      }
    }

    /** getPieces: ask for the next pieces, and end the download when it is complete, has failed or was aborted. */
    method GetPieces(rank: string -> nat) returns (raised: bool)
      requires Valid() && Going()
      modifies this`completePieces, this`outstanding, this`asked, this`sitelist, this`defer_, stream, file`closed
      ensures Valid() && (UnderWay() || Over()) && raised == Broken() == old(Broken()) && file.data == old(file.data)
              && (file.closed ==> old(file.closed) || Over())
      ensures nextFinish == old(nextFinish) && accepted == old(accepted) && writers == old(writers)
      ensures stream == old(stream)
      ensures stream != null ==>
                old(stream.received) <= stream.received && stream.closed == old(stream.closed)
                && stream.available == old(stream.available)
      ensures Continued(old(file.closed), old(DeskOf()), rank, old(Over()), old(defer_))
    {
      if file.closed {
        raised := TellEnd();
      } else {
        Proceed(rank);
        raised := false;
      }
    }

    /** The reader is told that there will be no more: it has closed the file itself, or nothing is left to
        ask for, or nobody. */
    method TellEnd() returns (raised: bool)
      requires Written() && Followed() && GivenUp() && stream != null
      requires file.closed || nextFinish == |pieces| || (sitelist == [] && asked == {} && Missing in completePieces)
      modifies stream, file`closed
      ensures Written() && Followed() && GivenUp() && Over() && raised == Broken() == old(Broken())
      ensures old(stream.received) <= stream.received && stream.closed == old(stream.closed)
      ensures stream.available == old(stream.available)
    {
      raised := stream.AllAvailable(true);
    }

    method Proceed(rank: string -> nat)
      requires Valid() && Current() && Going() && !file.closed
      modifies this`completePieces, this`outstanding, this`asked, this`sitelist, this`defer_, stream, file`closed
      ensures Valid() && (UnderWay() || Over())
      ensures (file.closed ==> Over()) && !Broken()
      ensures stream != null ==>
                old(stream.received) <= stream.received && stream.closed == old(stream.closed)
                && stream.available == old(stream.available)
      ensures DeskOf() == NextRound(old(DeskOf()), nextFinish, rank) && EndsIff(old(Over()), old(defer_))
    {
      AskRanked(rank);
      EndIfOver();
    }

    /** Requests to the peers of the highest rank. */
    method AskRanked(rank: string -> nat)
      requires Booked() && Current() && GivenUp()
      modifies this`completePieces, this`outstanding, this`asked, this`sitelist
      ensures Booked() && Current() && GivenUp() && (UnderWay() || Ending())
      ensures DeskOf() == NextRound(old(DeskOf()), nextFinish, rank)
    {
      ghost var d := DeskOf().(sites := SortBy(sitelist, rank, |sitelist|));
      sitelist := SortBy(sitelist, rank, |sitelist|);
      AskPeers();
      SomethingLeft(d);
    }

    /** Nothing is asked for, and all is complete or no site is left for a missing piece. */
    predicate Ending()
      reads this`outstanding, this`nextFinish, this`completePieces, this`sitelist
    {
      outstanding <= 0 && (nextFinish >= |completePieces| || Failed())
    }

    predicate Failed()
      reads this`outstanding, this`completePieces, this`sitelist
    {
      outstanding <= 0 && sitelist == [] && Missing in completePieces
    }

    /** The download ends when it is complete, or has failed: before its first answer, or later. */
    predicate EndsIff(over: bool, before: bool)
      reads this`stream, this`defer_, this`outstanding, this`nextFinish, this`completePieces, this`sitelist, stream
    {
      && defer_ == (before && !Failed())
      && (if stream == null then defer_ == before || Failed() else stream.finished == (over || Ending()))
    }

    /** What getPieces makes of a state of the download: nothing but its end if the reader has closed the file,
        else the next round. */
    predicate Continued(shut: bool, d: Desk, rank: string -> nat, over: bool, before: bool)
      reads this`completePieces, this`sitelist, this`outstanding, this`addedMirror, this`errors, this`nextFinish,
            this`stream, this`defer_, stream
    {
      if shut then DeskOf() == d else DeskOf() == NextRound(d, nextFinish, rank) && EndsIff(over, before)
    }

    /** When all requests were made that could be, something is under way unless the download ends. */
    lemma SomethingLeft(d: Desk)
      requires Booked() && nextFinish <= |d.complete| && DeskOf() == Round(d, nextFinish)
      requires nextFinish < |d.complete| ==> !d.complete[nextFinish].Complete?
      ensures Current() && (UnderWay() || Ending())
    {
      var stop := RoundIs(d, nextFinish);
      if nextFinish < |d.complete| {
        assert completePieces[nextFinish] == AskedAs(d.complete, d.sites, nextFinish, stop, nextFinish);
      }
      if nextFinish < |completePieces| {
        assert BookOf(completePieces, asked, writers.Keys, accepted.Keys, nextFinish, nextFinish);
        assert completePieces[nextFinish] in completePieces;
      }
    }

    /** The end of a download that is complete, or has nobody left to ask. */
    method EndIfOver()
      requires Valid() && Current() && Going() && !file.closed
      modifies this`defer_, stream, file`closed
      ensures Valid() && EndsIff(old(Over()), old(defer_)) && (file.closed ==> Over())
      ensures (Ending() ==> Over()) && !Broken()
      ensures stream != null ==>
                old(stream.received) <= stream.received && stream.closed == old(stream.closed)
                && stream.available == old(stream.available)
    {
      if outstanding <= 0 && nextFinish >= |completePieces| {
        CompleteMeansAnswered();
        var raised := TellEnd();
        assert !raised;
      }
      if outstanding <= 0 && sitelist == [] && Missing in completePieces {
        if defer_ {
          defer_ := false;
        } else {
          var raised := TellEnd();
          assert !raised;
        }
      }
    }

    /** All pieces are complete only after an answer, so that there is a reader to tell. */
    lemma CompleteMeansAnswered()
      requires Booked() && Followed() && nextFinish >= |completePieces|
      ensures stream != null
    {
      assert BookOf(completePieces, asked, writers.Keys, accepted.Keys, nextFinish, 0);
    }

    // ----- Answers

    /** An attempt has ended without a piece, while it waited for the answer or while it wrote. */
    method Drop(piece: nat, waiting: bool)
      requires Booked() && Written() && (if waiting then piece in asked else piece in writers)
      modifies this`completePieces, this`outstanding, this`asked, this`writers
      ensures Booked() && Written() && asked == old(asked) - {piece} && writers == old(writers) - {piece}
      ensures piece < |completePieces| && completePieces == old(completePieces)[piece := Missing]
      ensures outstanding == old(outstanding) - if waiting then 1 else 0
    {
      BooksDrop(completePieces, asked, writers.Keys, accepted.Keys, nextFinish, piece);
      assert BookOf(completePieces, asked, writers.Keys, accepted.Keys, nextFinish, piece);
      completePieces := completePieces[piece := Missing];
      if waiting {
        outstanding := outstanding - 1;
      }
      asked := asked - {piece};
      ForgetWriter(piece);
    }

    /** The writer of a piece has ended. */
    method ForgetWriter(piece: nat)
      requires Written()
      modifies this`writers
      ensures Written() && writers == old(writers) - {piece} && writers.Keys == old(writers).Keys - {piece}
    {
      writers := writers - {piece};
    }

    /** The answer with a piece has come: its body is written to the file. */
    method StartWriting(piece: nat, site: string, whole: bool)
      requires Valid() && stream != null && piece in asked && (whole ==> |pieces| == 1)
      modifies this`outstanding, this`asked, this`writers
      ensures Valid() && asked == old(asked) - {piece} && DeskOf() == Heard(old(DeskOf()))
      ensures OneMore(old(writers), writers, piece, site, whole) && NewWriter(piece)
    {
      NotBoth(piece);
      BookWriter(piece);
      AddWriter(piece, site, whole);
    }

    /** The writer of the piece is new, and has written nothing yet. */
    twostate predicate NewWriter(piece: nat)
      requires piece in writers
      reads this`writers, writers[piece].s
    {
      fresh(writers[piece].s) && writers[piece].s.hashed == ""
    }

    /** The piece has got its answer, and is about to have its writer. */
    method BookWriter(piece: nat)
      requires Booked() && piece in asked
      modifies this`outstanding, this`asked
      ensures asked == old(asked) - {piece} && outstanding == |asked| && DeskOf() == Heard(old(DeskOf()))
      ensures |completePieces| == |pieces| >= 1
      ensures Books(completePieces, asked, writers.Keys + {piece}, accepted.Keys, nextFinish)
    {
      BooksWrite(completePieces, asked, writers.Keys, accepted.Keys, nextFinish, piece);
      outstanding := outstanding - 1;
      asked := asked - {piece};
    }

    method AddWriter(piece: nat, site: string, whole: bool)
      requires Written() && piece < |pieces| && (whole ==> |pieces| == 1) && piece !in writers
      requires Followed() && GivenUp() && (Current() || Broken()) && stream != null
      modifies this`writers
      ensures Written() && Followed() && GivenUp() && (Current() || Broken())
      ensures OneMore(old(writers), writers, piece, site, whole) && NewWriter(piece)
      ensures writers.Keys == old(writers).Keys + {piece}
    {
      var s: StreamToFile;
      if whole {
        s := new StreamToFile(file, 0, None);
      } else {
        s := new StreamToFile(file, piece * PIECE_SIZE, Some(PIECE_SIZE));
      }
      writers := writers[piece := Writer(s, site, whole)];
    }

    /** After three errors in a row a site is dropped. */
    method CountError(site: string) returns (again: Option<string>)
      requires Valid()
      modifies this`errors
      ensures Valid() && errors == ErrorsMore(old(errors), site)
      ensures again == if errors[site] < 3 then Some(site) else None
    {
      var count := (if site in errors then errors[site] else 0) + 1;
      errors := errors[site := count];
      return if count < 3 then Some(site) else None;
    }

    method Return(site: Option<string>)
      requires Valid() && !Early()
      modifies this`sitelist, this`addedMirror, this`errors
      ensures Valid() && DeskOf() == Returned(old(DeskOf()), site, minPeers, mirror)
    {
      if site.Some? {
        sitelist := sitelist + [site.value];
      } else {
        AddMirror();
      }
    }

    /** The first good answer: the reader gets the file as it grows. */
    method StartReader()
      requires Followed() && Going() && nextFinish <= |completePieces| && Booked()
      modifies this`defer_, this`stream
      ensures Followed() && stream != null && !defer_ && (old(stream) != null ==> stream == old(stream))
      ensures old(stream) == null ==> fresh(stream) && stream.received == "" && !stream.finished
    {
      if defer_ {
        NothingFinished();
        defer_ := false;
        stream := new GrowingFileStream(file);
      }
    }

    lemma NothingFinished()
      requires Booked() && Followed() && stream == null
      ensures nextFinish == 0
    {
      assert BookOf(completePieces, asked, writers.Keys, accepted.Keys, nextFinish, 0);
    }

    /** _getPiece: the headers of the answer. */
    method GetPiece(code: int, piece: nat, site: string, rank: string -> nat) returns (raised: bool)
      requires Valid() && piece in asked
      modifies this, stream, file`closed
      ensures Valid() && (UnderWay() || Over()) && raised == Broken() && (file.closed ==> old(file.closed) || Over())
      ensures file.data == old(file.data) && accepted == old(accepted) && nextFinish == old(nextFinish)
      ensures if old(stream) == null then stream == null || fresh(stream)
              else stream == old(stream) && old(stream.received) <= stream.received
      ensures TakenUp(old(writers), writers, UseOf(code, |pieces|), piece, site)
      ensures UseOf(code, |pieces|).Body? ==> NewWriter(piece)
      ensures code == 206 ==> OneMore(old(writers), writers, piece, site, false) && NewWriter(piece)
      ensures code == 200 && |pieces| == 1 ==> OneMore(old(writers), writers, piece, site, true) && NewWriter(piece)
      ensures code != 206 && (code != 200 || |pieces| > 1) ==> writers == old(writers)
      ensures Continued(old(file.closed), Answered(old(DeskOf()), UseOf(code, |pieces|), piece, site, minPeers, mirror),
                        rank, old(Over()), old(defer_) && !UseOf(code, |pieces|).Body?)
    {
      TakeAnswer(UseOf(code, |pieces|), piece, site);
      raised := GetPieces(rank);
    }

    /** What is made of an answer before the next pieces are asked for. */
    method TakeAnswer(use: Use, piece: nat, site: string)
      requires Valid() && piece in asked && (use.Body? && use.whole ==> |pieces| == 1)
      modifies this`completePieces, this`outstanding, this`asked, this`writers, this`errors, this`defer_, this`stream,
               this`sitelist, this`addedMirror
      ensures Valid() && Going() && Over() == old(Over()) && defer_ == (old(defer_) && !use.Body?)
      ensures stream == old(stream) || (old(stream) == null && fresh(stream))
      ensures DeskOf() == Answered(old(DeskOf()), use, piece, site, minPeers, mirror)
      ensures TakenUp(old(writers), writers, use, piece, site) && (use.Body? ==> NewWriter(piece))
    {
      match use
      case NotThere => TakeRefusal(piece, site);
      case Wrong => TakeError(piece, site);
      case Body(whole) => TakeBody(piece, site, whole);
    }

    method TakeRefusal(piece: nat, site: string)
      requires Valid() && piece in asked
      modifies this`completePieces, this`outstanding, this`asked, this`writers, this`errors, this`sitelist,
               this`addedMirror
      ensures Valid() && writers == old(writers)
      ensures DeskOf() == Answered(old(DeskOf()), NotThere, piece, site, minPeers, mirror)
    {
      Reject(piece);
      Return(None);
    }

    method TakeBody(piece: nat, site: string, whole: bool)
      requires Valid() && piece in asked && (whole ==> |pieces| == 1)
      modifies this`outstanding, this`asked, this`writers, this`defer_, this`stream, this`sitelist, this`addedMirror,
               this`errors
      ensures Valid() && Going() && Over() == old(Over()) && !defer_
      ensures stream == old(stream) || (old(stream) == null && fresh(stream))
      ensures DeskOf() == Answered(old(DeskOf()), Body(whole), piece, site, minPeers, mirror)
      ensures OneMore(old(writers), writers, piece, site, whole) && NewWriter(piece)
    {
      AcceptAnswer(piece, site, whole);
      Return(Some(site));
    }

    /** The answer is of no use: the piece is missing again. */
    method Reject(piece: nat)
      requires Valid() && piece in asked
      modifies this`completePieces, this`outstanding, this`asked, this`writers
      ensures Valid() && !Early() && Going() && asked == old(asked) - {piece} && writers == old(writers)
      ensures DeskOf() == Rejected(old(DeskOf()), piece)
    {
      NotBoth(piece);
      Drop(piece, true);
    }

    method AcceptAnswer(piece: nat, site: string, whole: bool)
      requires Valid() && piece in asked && (whole ==> |pieces| == 1)
      modifies this`outstanding, this`asked, this`writers, this`defer_, this`stream
      ensures Valid() && !Early() && Going() && asked == old(asked) - {piece} && DeskOf() == Heard(old(DeskOf()))
      ensures OneMore(old(writers), writers, piece, site, whole) && NewWriter(piece)
      ensures !defer_ && Over() == old(Over()) && (stream == old(stream) || (old(stream) == null && fresh(stream)))
    {
      StartReader();
      StartWriting(piece, site, whole);
    }

    lemma NotBoth(piece: nat)
      requires Booked() && piece in asked
      ensures piece !in writers && piece < |pieces| && writers - {piece} == writers
    {
      assert BookOf(completePieces, asked, writers.Keys, accepted.Keys, nextFinish, piece);
    }

    /** _getError: there is no answer. The piece is missing again, and the site has an error more. */
    method GetError(piece: nat, site: string, rank: string -> nat) returns (raised: bool)
      requires Valid() && piece in asked
      modifies this, stream, file`closed
      ensures Valid() && (UnderWay() || Over()) && raised == Broken() && (file.closed ==> old(file.closed) || Over())
      ensures file.data == old(file.data) && accepted == old(accepted) && nextFinish == old(nextFinish)
      ensures stream == old(stream) && (stream != null ==> old(stream.received) <= stream.received)
      ensures writers == old(writers)
      ensures Continued(old(file.closed), Answered(old(DeskOf()), Wrong, piece, site, minPeers, mirror), rank,
                        old(Over()), old(defer_))
    {
      TakeError(piece, site);
      raised := GetPieces(rank);
    }

    method TakeError(piece: nat, site: string)
      requires Valid() && piece in asked
      modifies this`completePieces, this`outstanding, this`asked, this`writers, this`errors, this`sitelist,
               this`addedMirror
      ensures Valid() && Going() && writers == old(writers)
      ensures DeskOf() == Answered(old(DeskOf()), Wrong, piece, site, minPeers, mirror)
    {
      Reject(piece);
      var again := CountError(site);
      Return(again);
    }

    // ----- Bodies

    /** A part of a body comes in: it is written where it belongs, as far as it belongs to the piece. What the
        reader may have seen, the complete pieces at the start of the file, is not touched. */
    method Data(piece: nat, data: string) returns (ok: bool)
      requires Valid() && piece in writers
      modifies writers[piece].s`position, writers[piece].s`hashed, file`data, this`farthest
      ensures Valid() && ok == !file.closed
      ensures forall n: nat :: n <= |old(file.data)| && n <= nextFinish * PIECE_SIZE ==>
              SamePrefix(old(file.data), file.data, n)
      ensures ok ==> var s := writers[piece].s; var part := old(s.Clipped(data));
                && s.hashed == old(s.hashed) + part && file.data == WriteAt(old(file.data), old(s.position), part)
                && (part != "" && old(s.position) + |part| > old(farthest) ==> farthest == old(s.position) + |part|)
                && (part == "" || old(s.position) + |part| <= old(farthest) ==> farthest == old(farthest))
      ensures !ok ==> && writers[piece].s.hashed == old(writers[piece].s.hashed) && file.data == old(file.data)
                      && farthest == old(farthest)
    {
      NotBelow(piece);
      ok := PutBehind(piece, data);
    }

    method PutBehind(piece: nat, data: string) returns (ok: bool)
      requires Written() && Followed() && piece in writers && piece < |pieces| && piece !in accepted
      requires nextFinish * PIECE_SIZE <= piece * PIECE_SIZE
      modifies writers[piece].s`position, writers[piece].s`hashed, file`data, this`farthest
      ensures Written() && Followed() && ok == !file.closed && writers[piece].s.Ok() && old(writers[piece].s.Ok())
      ensures forall n: nat :: n <= |old(file.data)| && n <= nextFinish * PIECE_SIZE ==>
              SamePrefix(old(file.data), file.data, n)
      ensures var s := writers[piece].s; var part := if ok then old(s.Clipped(data)) else "";
              s.hashed == old(s.hashed) + part && file.data == WriteAt(old(file.data), old(s.position), part)
    {
      assert WriterOk(piece);
      ghost var f, pos := file.data, writers[piece].s.position;
      ghost var part := if file.closed then "" else writers[piece].s.Clipped(data);
      ok := Put(piece, data);
      PrefixKept(f, file.data, pos, part);
      PrefixKeptAt(f, file.data, pos, part, stream.position);
      stream.Extends(f, file.data, file.closed);
    }

    /** The data is written, and what stands in the other pieces stays. */
    method Put(piece: nat, data: string) returns (ok: bool)
      requires Written() && piece in writers && piece < |pieces| && piece !in accepted
      modifies writers[piece].s`position, writers[piece].s`hashed, file`data, this`farthest
      ensures Written() && ok == !file.closed && writers[piece].s.Ok() && old(writers[piece].s.Ok())
      ensures var s := writers[piece].s; var part := if ok then old(s.Clipped(data)) else "";
              s.hashed == old(s.hashed) + part && file.data == WriteAt(old(file.data), old(s.position), part)
    {
      assert WriterOk(piece);
      OthersStand(file.data, writers[piece].s.position, writers[piece].s.Clipped(data), piece, |pieces|);
      ok := writers[piece].s.GotData(data);
      farthest := |file.data|;
    }

    /** The hash that the body of a writer has. */
    function DigestOf(w: Writer): string
      reads w.s`hashed
    {
      if w.whole then fileDigest(w.s.hashed) else pieceDigest(w.s.hashed)
    }

    predicate Good(piece: nat)
      requires piece < |pieces| && piece in writers
      reads this`writers, writers[piece].s`hashed
    {
      pieces[piece] == "" || DigestOf(writers[piece]) == pieces[piece]
    }

    /** _gotPiece: the body is complete; the piece is accepted if it has the expected hash, else it is missing
        again. If the reader has closed the file while it waited for this piece, an exception is raised before
        the next pieces are asked for, and then it may be that nothing is under way and nothing is over. */
    method GotPiece(piece: nat, rank: string -> nat) returns (raised: bool)
      requires Valid() && piece in writers && piece < |pieces|
      modifies this`completePieces, this`outstanding, this`asked, this`writers, this`accepted, this`errors,
               this`sitelist,
               this`nextFinish, this`told, this`defer_, stream, file`closed
      ensures Valid() && raised == Broken() && (file.closed ==> old(file.closed) || Over())
      ensures raised == (old(stream.Left()) && old(stream.position) < stream.available)
      ensures !old(stream.finished) ==> told == nextFinish
      ensures raised && nextFinish > old(nextFinish) ==> Over() == old(Over())
      ensures !raised || nextFinish == old(nextFinish) ==> UnderWay() || Over()
      ensures file.data == old(file.data) && stream == old(stream) && old(stream.received) <= stream.received
      ensures nextFinish >= old(nextFinish) && writers == old(writers) - {piece}
      ensures accepted == AcceptedAfter(old(Good(piece)), old(accepted), piece, old(writers[piece].s.hashed))
      ensures Continued(old(file.closed), Bodied(old(DeskOf()), old(Good(piece)), piece, old(writers)[piece].site),
              rank,
                        old(Over()), old(defer_))
    {
      ghost var left, position, next, over := stream.Left(), stream.position, nextFinish, Over();
      raised := Judge(piece);
      raised := GoOn(raised, rank, left, position, next, over);
    }

    /** getPieces, unless an exception was raised when the reader was told. */
    method GoOn(before: bool, rank: string -> nat, ghost left: bool, ghost position: nat, ghost next: nat,
                ghost over: bool) returns (raised: bool)
      requires Valid() && Told(before, left, position, next) && nextFinish >= next && Over() == over
      modifies this`completePieces, this`outstanding, this`asked, this`sitelist, this`defer_, stream, file`closed
      ensures Valid() && raised == Broken() == (left && position < stream.available)
      ensures raised && nextFinish > next ==> Over() == over
      ensures !raised || nextFinish == next ==> UnderWay() || Over()
      ensures !old(stream.finished) ==> told == nextFinish
      ensures file.data == old(file.data) && (file.closed ==> old(file.closed) || Over())
      ensures stream == old(stream) && old(stream.received) <= stream.received && nextFinish == old(nextFinish)
      ensures accepted == old(accepted) && writers == old(writers)
      ensures Continued(old(file.closed), old(DeskOf()), rank, over, old(defer_))
    {
      if before {
        return true;
      }
      raised := GetPieces(rank);
    }

    /** A piece with the wrong hash is missing again; another one is complete. */
    method Judge(piece: nat) returns (raised: bool)
      requires Valid() && piece in writers && piece < |pieces|
      modifies this`completePieces, this`outstanding, this`asked, this`writers, this`accepted, this`errors,
               this`nextFinish, this`told, stream
      ensures Valid() && nextFinish >= old(nextFinish)
              && Told(raised, old(stream.Left()), old(stream.position), old(nextFinish))
      ensures stream.finished == old(stream.finished) && writers == old(writers) - {piece}
      ensures stream == old(stream) && old(stream.received) <= stream.received && file.data == old(file.data)
      ensures DeskOf() == Bodied(old(DeskOf()), old(Good(piece)), piece, old(writers)[piece].site)
      ensures accepted == AcceptedAfter(old(Good(piece)), old(accepted), piece, old(writers[piece].s.hashed))
    {
      var digest := DigestOf(writers[piece]);
      if pieces[piece] != "" && digest != pieces[piece] {
        BreakOff(piece);
        raised := false;
      } else {
        raised := Finish(piece);
      }
    }

    /** What telling the reader keeps: whether it has closed the file while a read was pending, and then where
        it was. An exception is raised if it was told of a piece in vain. */
    predicate Told(raised: bool, left: bool, position: nat, next: nat)
      reads this`stream, this`nextFinish, stream
    {
      && stream != null && stream.Left() == left && (left ==> stream.position == position)
      && raised == (Broken() && nextFinish > next)
    }

    /** A piece with the right hash is complete. */
    method Finish(piece: nat) returns (raised: bool)
      requires Valid() && piece in writers && piece < |pieces| && Good(piece)
      modifies this`completePieces, this`writers, this`accepted, this`errors, this`nextFinish, this`told, stream
      ensures Valid() && nextFinish >= old(nextFinish) && old(stream.received) <= stream.received
      ensures Told(raised, old(stream.Left()), old(stream.position), old(nextFinish))
      ensures stream.finished == old(stream.finished) && writers == old(writers) - {piece}
      ensures DeskOf() == Bodied(old(DeskOf()), true, piece, old(writers)[piece].site)
      ensures accepted == old(accepted)[piece := old(writers[piece].s.hashed)]
    {
      errors := errors[writers[piece].site := 0];
      raised := Advance(piece);
    }

    method Advance(piece: nat) returns (raised: bool)
      requires Valid() && piece in writers && piece < |pieces| && Good(piece)
      modifies this`completePieces, this`writers, this`accepted, this`nextFinish, this`told, stream
      ensures Valid() && nextFinish >= old(nextFinish) && old(stream.received) <= stream.received
      ensures Told(raised, old(stream.Left()), old(stream.position), old(nextFinish))
      ensures stream.finished == old(stream.finished) && writers == old(writers) - {piece}
      ensures completePieces == With(old(completePieces), piece, Complete)
      ensures accepted == old(accepted)[piece := old(writers[piece].s.hashed)]
    {
      ghost var data := writers[piece].s.hashed;
      assert WriterOk(piece);
      Accept(piece, data);
      raised := TellReader();
    }

    /** _gotError: the body broke off; the piece is missing again. */
    method GotError(piece: nat, rank: string -> nat) returns (raised: bool)
      requires Valid() && piece in writers
      modifies this`completePieces, this`outstanding, this`asked, this`writers, this`errors, this`sitelist, this`defer_,
               stream, file`closed
      ensures Valid() && (UnderWay() || Over()) && raised == Broken() && (file.closed ==> old(file.closed) || Over())
      ensures file.data == old(file.data) && stream == old(stream) && old(stream.received) <= stream.received
      ensures accepted == old(accepted) && nextFinish == old(nextFinish) && writers == old(writers) - {piece}
      ensures Continued(old(file.closed), Bodied(old(DeskOf()), false, piece, old(writers)[piece].site), rank,
                        old(Over()), old(defer_))
    {
      BreakOff(piece);
      raised := GetPieces(rank);
    }

    method BreakOff(piece: nat)
      requires Valid() && piece in writers
      modifies this`completePieces, this`outstanding, this`asked, this`writers, this`errors
      ensures Valid() && stream != null && writers == old(writers) - {piece}
      ensures file.data == old(file.data) && stream == old(stream) && stream.received == old(stream.received)
      ensures DeskOf() == Bodied(old(DeskOf()), false, piece, old(writers)[piece].site)
    {
      var again := CountError(writers[piece].site);
      Stop(piece);
    }

    /** A body is given up; what it has written stays until the piece is written again. */
    method Stop(piece: nat)
      requires Valid() && piece in writers
      modifies this`completePieces, this`outstanding, this`asked, this`writers
      ensures Valid() && stream != null && asked == old(asked) && writers == old(writers) - {piece}
      ensures outstanding == old(outstanding)
      ensures piece < |completePieces| && completePieces == old(completePieces)[piece := Missing]
    {
      assert BookOf(completePieces, asked, writers.Keys, accepted.Keys, nextFinish, piece);
      Drop(piece, false);
      assert asked == old(asked) && completePieces[piece] in completePieces;
    }

    /** A piece is complete. */
    method Accept(piece: nat, ghost data: string)
      requires Valid() && piece in writers && piece < |pieces| && Matches(piece, data)
      requires StandsIn(file.data, piece, data, |pieces|)
      modifies this`completePieces, this`writers, this`accepted
      ensures Booked() && Written() && Followed() && GivenUp() && stream != null
              && accepted == old(accepted)[piece := data]
      ensures writers == old(writers) - {piece} && completePieces == old(completePieces)[piece := Complete]
    {
      MarkComplete(piece);
      ForgetWriter(piece);
      NoteAccepted(piece, data);
    }

    /** The piece counts as complete, and is about to lose its writer. */
    method MarkComplete(piece: nat)
      requires Valid() && piece in writers
      modifies this`completePieces
      ensures Written() && Followed() && GivenUp() && stream != null && piece < |completePieces| == |pieces|
      ensures Books(completePieces, asked, writers.Keys - {piece}, accepted.Keys + {piece}, nextFinish)
      ensures outstanding == |asked| && completePieces == old(completePieces)[piece := Complete]
    {
      BooksDone(completePieces, asked, writers.Keys, accepted.Keys, nextFinish, piece);
      MissingStays(completePieces, asked, writers.Keys, accepted.Keys, nextFinish, piece);
      completePieces := completePieces[piece := Complete];
    }

    method NoteAccepted(piece: nat, ghost data: string)
      requires Written() && piece < |pieces| && Matches(piece, data) && StandsIn(file.data, piece, data, |pieces|)
      requires Followed() && GivenUp() && stream != null
      modifies this`accepted
      ensures Written() && accepted == old(accepted)[piece := data] && accepted.Keys == old(accepted).Keys + {piece}
      ensures Followed() && GivenUp()
    {
      accepted := accepted[piece := data];
    }

    /** The reader is told of the pieces that are now complete from the start of the file on. */
    method TellReader() returns (raised: bool)
      requires Booked() && Written() && Followed() && GivenUp() && stream != null
      modifies this`nextFinish, this`told, stream
      ensures Valid() && nextFinish >= old(nextFinish) && old(stream.received) <= stream.received
      ensures Told(raised, old(stream.Left()), old(stream.position), old(nextFinish))
              && stream.finished == old(stream.finished)
    {
      while nextFinish < |completePieces| && completePieces[nextFinish].Complete?
        invariant Booked() && Followed() && GivenUp() && nextFinish >= old(nextFinish)
        invariant stream.finished == old(stream.finished) && old(stream.received) <= stream.received
        invariant Told(false, old(stream.Left()), old(stream.position), old(nextFinish))
        decreases |completePieces| - nextFinish
      {
        BooksNext(completePieces, asked, writers.Keys, accepted.Keys, nextFinish);
        raised := TellOne();
        if raised {
          return;
        }
      }
      return false;
    }

    /** The reader is told of one more piece. */
    method TellOne() returns (raised: bool)
      requires Followed() && GivenUp() && stream != null
      modifies this`nextFinish, this`told, stream
      ensures Followed() && GivenUp() && nextFinish == old(nextFinish) + 1
      ensures Told(raised, old(stream.Left()), old(stream.position), old(nextFinish))
      ensures stream.finished == old(stream.finished) && old(stream.received) <= stream.received
    {
      nextFinish := nextFinish + 1;
      if !stream.finished {
        told := nextFinish;
      }
      raised := stream.UpdateAvailable(PIECE_SIZE);
    }

    // ----- The reader

    /** The reader reads. */
    method Read() returns (r: Reading)
      requires Valid() && stream != null && !stream.deferred
      modifies stream, file`closed
      ensures Valid() && old(stream.received) <= stream.received && file.data == old(file.data)
      ensures r.Data? ==> r.b != "" && stream.received == old(stream.received) + r.b
      ensures (r.End? ==> stream.ended) && (r.Later? <==> stream.deferred)
      ensures stream.finished == old(stream.finished) && stream.closed == old(stream.closed)
    {
      r := stream.Read();
    }

    /** The reader has had enough. */
    method CloseReader()
      requires Valid() && stream != null
      modifies stream, file`closed
      ensures Valid() && file.closed && stream.closed && stream.deferred == old(stream.deferred)
      ensures stream.received == old(stream.received) && stream.finished == old(stream.finished)
      ensures file.data == old(file.data)
    {
      stream.Close();
    }

    // ----- What every run keeps

    /** At most one attempt at a piece is under way, and none at a complete one. */
    lemma OneAttempt(piece: nat)
      requires Valid()
      ensures piece in asked ==> piece !in writers && piece !in accepted
      ensures piece in writers ==> piece !in accepted && piece >= nextFinish
      ensures piece < nextFinish ==> piece in accepted
      ensures piece in asked || piece in writers <==> piece < |pieces| && completePieces[piece].Taken?
      ensures piece in accepted <==> piece < |pieces| && completePieces[piece].Complete?
    {
      if piece < |pieces| { assert BookOf(completePieces, asked, writers.Keys, accepted.Keys, nextFinish, piece); }
    }

    /** What the reader has got is how the file starts, and all of it belongs to pieces that were accepted:
        each stands in the file with the data that had the expected hash, if one is known. */
    lemma ReaderFollows(piece: nat)
      requires Valid() && stream != null
      ensures stream.received <= file.data && |stream.received| <= nextFinish * PIECE_SIZE
      ensures piece < nextFinish ==>
                && piece in accepted && Matches(piece, accepted[piece])
                && Stands(file.data, piece * PIECE_SIZE, accepted[piece])
    {
      OneAttempt(piece);
    }

    /** A reader that was told of the end, and has not closed the file itself, has got as many bytes as the
        pieces it was told of can have, or all there are: the whole file exactly if that is enough. */
    lemma ReaderEnds()
      requires Valid() && stream != null && stream.ended && !stream.closed
      ensures file.closed && told <= nextFinish
      ensures stream.received == file.data[..if told * PIECE_SIZE < |file.data| then told * PIECE_SIZE else |file.data|]
      ensures stream.received == file.data <==> |file.data| <= told * PIECE_SIZE
      ensures nextFinish == |pieces| ==>
                told == |pieces| && (stream.received == file.data <==> |file.data| <= |pieces| * PIECE_SIZE)
    {
      if nextFinish == |pieces| {
        NoneMissing();
      }
    }

    lemma NoneMissing()
      requires Booked() && nextFinish == |pieces|
      ensures Missing !in completePieces
    {
      forall p: nat | p < |completePieces| ensures completePieces[p].Complete? {
        assert BookOf(completePieces, asked, writers.Keys, accepted.Keys, nextFinish, p);
      }
    }

    /** The data that the pieces were accepted with. */
    ghost function AcceptedData(): (r: seq<string>)
      reads this`accepted
    {
      var data := accepted;
      seq(|pieces|, p requires 0 <= p < |pieces| => if p in data then data[p] else "")
    }

    /** When all pieces are complete, the file is what was accepted, in order, exactly if every accepted piece
        before the last that is not empty is full, and no attempt has written beyond the accepted data. */
    lemma FileIsAcceptedIff()
      requires Valid() && nextFinish == |pieces|
      ensures file.data == Bytes(AcceptedData()) <==>
                FullBeforeLast(AcceptedData()) && farthest <= |Bytes(AcceptedData())|
    {
      var acc := AcceptedData();
      forall p | 0 <= p < |acc| ensures StandsIn(file.data, p, acc[p], |acc|) {
        OneAttempt(p);
        assert AcceptedOk(p);
      }
      InOrderIff(file.data, acc);
    }

    lemma NotBelow(piece: nat)
      requires Booked() && piece in writers
      ensures nextFinish <= piece < |pieces| && nextFinish * PIECE_SIZE <= piece * PIECE_SIZE && piece !in accepted
    {
      assert BookOf(completePieces, asked, writers.Keys, accepted.Keys, nextFinish, piece);
    }
  }

  // ----- A file that is not what was accepted

  /** One piece, which two sites are there for, is being asked for. */
  ghost predicate OneAsked(d: FileDownload, written: string)
    reads d, d.file, d.stream, d.WriterSet()
  {
    && d.Valid() && 0 in d.asked && |d.completePieces| == 1 && d.completePieces[0].Taken? && d.outstanding == 1
    && |d.sitelist| == 1 && d.mirror == None && d.nextFinish == 0 && !d.Over() && !d.file.closed
       && d.file.data == written
  }

  lemma RoundOfOne(d: Desk)
    requires |d.complete| == 1 && |d.sites| == 2 && d.waiting == 0
    ensures Round(d, 0) == if d.complete[0].Missing? then AskedOf(d, 0) else d
  {
    assert Round(d, 1) == d;
  }

  method Begin(d: FileDownload, rank: string -> nat)
    requires d.Valid() && d.Going() && d.stream == null && d.completePieces == [Missing] && d.nextFinish == 0
    requires |d.sitelist| == 2 && d.mirror == None && d.outstanding == 0 && d.writers == map[]
    modifies d, d.file`closed
    ensures OneAsked(d, old(d.file.data))
  {
    d.Start(rank);
    RoundOfOne(WithMirror(old(d.DeskOf()), d.minPeers, d.mirror).(sites := SortBy(old(d.sitelist), rank, 2)));
    assert BookOf(d.completePieces, d.asked, d.writers.Keys, d.accepted.Keys, d.nextFinish, 0);
  }

  /** Its body has come in. */
  ghost predicate OneReceived(d: FileDownload, data: string, whole: bool)
    reads d, d.file, d.stream, d.WriterSet()
  {
    && d.Valid() && 0 in d.writers && d.writers[0].whole == whole && d.writers[0].s.hashed == data
       && |d.completePieces| == 1
    && d.completePieces[0].Taken? && |d.sitelist| == 2 && d.outstanding == 0 && d.mirror == None && d.nextFinish == 0
    && !d.Over() && !d.file.closed
  }

  /** The answer comes, and its body. */
  method Attempt(d: FileDownload, rank: string -> nat, data: string, whole: bool)
    requires OneAsked(d, d.file.data) && (!whole ==> |data| <= PIECE_SIZE)
    modifies d, d.stream, d.file
    ensures OneReceived(d, data, whole) && d.accepted == old(d.accepted)
    ensures d.stream == old(d.stream) || fresh(d.stream)
    ensures d.file.data == WriteAt(old(d.file.data), 0, data)
  {
    Headers(d, rank, whole);
    BodyOf(d, data, whole);
  }

  method BodyOf(d: FileDownload, data: string, whole: bool)
    requires OneReceived(d, "", whole) && (!whole ==> |data| <= PIECE_SIZE)
    modifies d.writers[0].s`position, d.writers[0].s`hashed, d.file`data, d`farthest
    ensures OneReceived(d, data, whole) && d.file.data == WriteAt(old(d.file.data), 0, data)
  {
    Fits(d, data, whole);
    var ok := d.Data(0, data);
  }

  /** None of the body is cut off. */
  lemma Fits(d: FileDownload, data: string, whole: bool)
    requires OneReceived(d, "", whole) && (!whole ==> |data| <= PIECE_SIZE)
    ensures var s := d.writers[0].s; s.Clipped(data) == data && s.position == 0 && s.hashed + data == data
  {
    assert d.WriterOk(0);
  }

  method Headers(d: FileDownload, rank: string -> nat, whole: bool)
    requires OneAsked(d, d.file.data)
    modifies d, d.stream, d.file`closed
    ensures OneReceived(d, "", whole) && fresh(d.writers[0].s) && d.accepted == old(d.accepted)
    ensures d.stream == old(d.stream) || fresh(d.stream)
    ensures d.file.data == old(d.file.data)
  {
    var site := d.completePieces[0].site;
    ghost var desk := Answered(d.DeskOf(), Body(whole), 0, site, d.minPeers, d.mirror);
    var raised := d.GetPiece(if whole then 200 else 206, 0, site, rank);
    RoundOfOne(desk.(sites := SortBy(desk.sites, rank, 2)));
  }

  /** The body has the wrong hash: the piece is asked for again. */
  method Again(d: FileDownload, rank: string -> nat, data: string)
    requires OneReceived(d, data, false) && d.pieces[0] != "" && d.pieceDigest(data) != d.pieces[0]
    modifies d, d.stream, d.file`closed
    ensures OneAsked(d, old(d.file.data)) && d.stream == old(d.stream) && d.accepted == old(d.accepted)
  {
    ghost var desk := Bodied(d.DeskOf(), false, 0, d.writers[0].site);
    assert !d.Good(0);
    var raised := d.GotPiece(0, rank);
    RoundOfOne(desk.(sites := SortBy(desk.sites, rank, 2)));
    assert BookOf(d.completePieces, d.asked, d.writers.Keys, d.accepted.Keys, d.nextFinish, 0);
  }

  /** The body has the right hash: the download is complete. */
  method Finish(d: FileDownload, rank: string -> nat, data: string, whole: bool)
    requires OneReceived(d, data, whole) && (if whole then d.fileDigest(data) else d.pieceDigest(data)) == d.pieces[0]
    modifies d, d.stream, d.file`closed
    ensures d.Valid() && d.nextFinish == 1 && d.accepted == old(d.accepted)[0 := data]
            && d.file.data == old(d.file.data)
    ensures d.stream != null && d.stream.finished && d.told <= 1
  {
    ghost var desk := Bodied(d.DeskOf(), true, 0, d.writers[0].site);
    assert d.Good(0);
    var raised := d.GotPiece(0, rank);
    RoundOfOne(desk.(sites := SortBy(desk.sites, rank, 2)));
    assert BookOf(d.completePieces, d.asked, d.writers.Keys, d.accepted.Keys, d.nextFinish, 0);
  }

  /** Two attempts, of which the first is rejected. */
  method TwoAttempts(d: FileDownload, rank: string -> nat, bad: string, good: string)
    requires OneAsked(d, d.file.data) && |bad| <= PIECE_SIZE && |good| <= PIECE_SIZE
    requires d.pieces[0] != "" && d.pieceDigest(bad) != d.pieces[0] && d.pieceDigest(good) == d.pieces[0]
    modifies d, d.stream, d.file
    ensures d.Valid() && d.nextFinish == 1 && d.accepted == old(d.accepted)[0 := good]
    ensures d.file.data == WriteAt(WriteAt(old(d.file.data), 0, bad), 0, good)
  {
    Attempt(d, rank, bad, false);
    Again(d, rank, bad);
    Attempt(d, rank, good, false);
    Finish(d, rank, good, false);
  }

  lemma Leftover()
    ensures WriteAt(WriteAt("", 0, "abc"), 0, "xy") == "xyc" && "xyc" != Bytes(["xy"])
  {
    OneChunk("xy");
  }

  /** A run with one attempt that is rejected: what it wrote stays behind the data that is accepted, which
      is shorter. */
  method StaleTail() returns (d: FileDownload)
    ensures d.Valid() && d.nextFinish == |d.pieces| == 1 && d.pieceDigest("xy") == d.pieces[0]
    ensures d.AcceptedData() == ["xy"] && d.file.data == "xyc" && d.file.data != Bytes(d.AcceptedData())
  {
    var digest := (s: string) => if s == "xy" then "right" else "wrong";
    var rank := (s: string) => 0;
    assert "right" != "wrong" && "abc" != "xy";
    d := new FileDownload(["right"], ["a", "b"], digest, digest, 0, None);
    assert d.completePieces == [Missing];
    Begin(d, rank);
    TwoAttempts(d, rank, "abc", "xy");
    Leftover();
  }

  /** One attempt at the whole file. */
  method WholeAttempt(d: FileDownload, rank: string -> nat, data: string)
    requires OneAsked(d, "") && d.file.data == "" && d.fileDigest(data) == d.pieces[0]
    modifies d, d.stream, d.file
    ensures d.Valid() && d.nextFinish == 1 && d.accepted == old(d.accepted)[0 := data] && d.file.data == data
    ensures d.stream != null && d.stream.finished && d.told * PIECE_SIZE <= PIECE_SIZE
  {
    Attempt(d, rank, data, true);
    Finish(d, rank, data, true);
    WrittenAlone(data);
    OneAtMost(d.told);
  }

  lemma OneAtMost(n: nat)
    requires n <= 1
    ensures n * PIECE_SIZE <= PIECE_SIZE
  {
  }

  /** A file without known pieces that is longer than one piece: all of it is fetched and accepted, but the
      reader is told of one piece only, and never gets the rest. */
  method CutOff() returns (d: FileDownload)
    ensures d.Valid() && d.nextFinish == |d.pieces| == 1 && d.stream != null && d.stream.finished
    ensures d.AcceptedData() == [d.file.data] && d.told * PIECE_SIZE <= PIECE_SIZE < |d.file.data|
  {
    var data := seq(PIECE_SIZE + 1, _ => 'a');
    var digest, other := (s: string) => "right", (s: string) => "wrong";
    var rank := (s: string) => 0;
    d := new FileDownload(["right"], ["a", "b"], other, digest, 0, None);
    assert d.completePieces == [Missing];
    Begin(d, rank);
    WholeAttempt(d, rank, data);
  }

  lemma WrittenAlone(data: string)
    ensures WriteAt("", 0, data) == data
  {
  }

  // ----- A download that neither goes on nor ends

  /** The reader waits for the first piece, and asks for it if it has not. */
  method Wait(d: FileDownload, data: string)
    requires OneReceived(d, data, false)
    modifies d.stream, d.file`closed
    ensures OneReceived(d, data, false) && d.stream.deferred && d.stream.received == ""
  {
    if !d.stream.deferred {
      var r := d.Read();
    }
  }

  /** The reader has left while it waited for the only piece, whose body has come in. */
  ghost predicate OneLeft(d: FileDownload, data: string)
    reads d, d.file, d.stream, d.WriterSet()
  {
    && d.Valid() && 0 in d.writers && !d.writers[0].whole && d.writers[0].s.hashed == data && |d.completePieces| == 1
    && d.outstanding == 0 && d.nextFinish == 0 && d.file.closed && d.stream != null
    && d.stream.Left() && d.stream.received == "" && !d.stream.finished
  }

  method Leave(d: FileDownload, data: string)
    requires OneReceived(d, data, false) && d.stream.deferred && d.stream.received == ""
    modifies d.stream, d.file`closed
    ensures OneLeft(d, data)
  {
    d.CloseReader();
  }

  /** Then the piece comes: the exception keeps the download from its end, and no request is left. */
  method FinishInVain(d: FileDownload, rank: string -> nat, data: string)
    requires OneLeft(d, data) && d.pieceDigest(data) == d.pieces[0]
    modifies d, d.stream, d.file`closed
    ensures d.Valid() && d.Broken() && !d.UnderWay() && !d.Over() && d.nextFinish == 1
  {
    assert d.Good(0);
    var raised := d.GotPiece(0, rank);
    assert d.completePieces[0].Complete?;
  }

  /** A run to such a state. */
  method LostReader() returns (d: FileDownload)
    ensures d.Valid() && d.nextFinish == |d.pieces| == 1
    ensures d.Broken() && !d.UnderWay() && !d.Over()
  {
    var digest := (s: string) => "right";
    var rank := (s: string) => 0;
    d := new FileDownload(["right"], ["a", "b"], digest, digest, 0, None);
    assert d.completePieces == [Missing];
    Begin(d, rank);
    Attempt(d, rank, "abc", false);
    Wait(d, "abc");
    Leave(d, "abc");
    FinishInVain(d, rank, "abc");
  }

  predicate SamePrefix(f: string, g: string, n: nat) {
    n <= |f| && n <= |g| && f[..n] == g[..n]
  }

  /** What a write beyond an offset leaves of the file before it. */
  lemma PrefixKept(f: string, g: string, pos: nat, data: string)
    requires g == WriteAt(f, pos, data)
    ensures forall n: nat :: n <= |f| && n <= pos ==> SamePrefix(f, g, n)
  {
    forall n: nat | n <= |f| && n <= pos ensures SamePrefix(f, g, n) {
      PrefixKeptAt(f, g, pos, data, n);
    }
  }

  lemma PrefixKeptAt(f: string, g: string, pos: nat, data: string, n: nat)
    requires g == WriteAt(f, pos, data) && n <= |f| && n <= pos
    ensures SamePrefix(f, g, n)
  {
    WriteKeepsPrefix(f, pos, data, n);
  }
}
