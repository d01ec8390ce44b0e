/** Answering a request in one datagram, and understanding the answer on the other side. */
module Krpc {
  import opened Options
  import opened Text
  import opened Bencode
  import opened BencodeRuns
  import opened Fitting

  const UDP_PACKET_LIMIT: nat := 1472
  const KRPC_ERROR_SERVER_ERROR: int := 201
  const KRPC_ERROR_RESPONSE_TOO_LONG: int := 206

  const TID := "t"
  const REQ := "q"
  const RSP := "r"
  const TYP := "y"
  const ARG := "a"
  const ERR := "e"
  const VALUES := "values"

  // ----- Messages

  /** The answer to a request: a response or an error, under the name of its type. */
  function Answer(tid: string, typ: string, response: Value): Value {
    Dict(map[TID := Str(tid), TYP := Str(typ), typ := response])
  }

  function ErrorAnswer(tid: string, code: int, text: string): Value {
    Answer(tid, ERR, List([Int(code), Str(text)]))
  }

  /** verifyMessage: what a message must have to be processed. */
  predicate Verified(msg: Value) {
    && msg.Dict?
    && TYP in msg.entries
    && (var typ := msg.entries[TYP];
        if typ == Str(REQ) then
          REQ in msg.entries && msg.entries[REQ].Str? && ARG in msg.entries && msg.entries[ARG].Dict?
        else if typ == Str(RSP) then
          RSP in msg.entries && msg.entries[RSP].Dict?
        else if typ == Str(ERR) then
          && ERR in msg.entries && msg.entries[ERR].List? && |msg.entries[ERR].items| == 2
          && msg.entries[ERR].items[0].Int? && msg.entries[ERR].items[1].Str?
        else true)
    && TID in msg.entries && msg.entries[TID].Str? && |msg.entries[TID].s| == 20
  }

  /** What datagramReceived makes of a datagram. */
  datatype Received =
    | Dropped
    | Request(tid: string, name: string, args: map<string, Value>)
    | Response(tid: string, values: map<string, Value>)
    | Error(tid: string, code: int, text: string)
    | Unknown(tid: string)

  function Classify(msg: Value): Received
    requires Verified(msg)
  {
    var m := msg.entries;
    var tid := m[TID].s;
    if m[TYP] == Str(REQ) then Request(tid, m[REQ].s, m[ARG].entries)
    else if m[TYP] == Str(RSP) then Response(tid, m[RSP].entries)
    else if m[TYP] == Str(ERR) then Error(tid, m[ERR].items[0].n, m[ERR].items[1].s)
    else Unknown(tid)
  }

  function Receive(decode: string -> Option<Value>, data: string): Received {
    match decode(data)
    case None => Dropped
    case Some(msg) => if Verified(msg) then Classify(msg) else Dropped
  }

  /** Whatever is not dropped was decoded, and has a transaction number of 20 bytes. */
  lemma ReceivedIs(decode: string -> Option<Value>, data: string)
    ensures match Receive(decode, data)
            case Dropped => true
            case Request(tid, _, _) => decode(data).Some? && |tid| == 20
            case Response(tid, _) => decode(data).Some? && |tid| == 20
            case Error(tid, _, _) => decode(data).Some? && |tid| == 20
            case Unknown(tid) => decode(data).Some? && |tid| == 20
  {
  }

  /** A request is received as what it is. */
  lemma RequestReceived(decode: string -> Option<Value>, data: string, tid: string, name: string,
                        args: map<string, Value>)
    requires |tid| == 20
    requires decode(data) == Some(Dict(map[TID := Str(tid), TYP := Str(REQ), REQ := Str(name), ARG := Dict(args)]))
    ensures Receive(decode, data) == Request(tid, name, args)
  {
    var m := map[TID := Str(tid), TYP := Str(REQ), REQ := Str(name), ARG := Dict(args)];
    assert TID[0] != TYP[0] && TID[0] != REQ[0] && TID[0] != ARG[0] && TYP[0] != REQ[0] && TYP[0] != ARG[0]
           && REQ[0] != ARG[0];
    assert m[TID] == Str(tid) && m[TYP] == Str(REQ) && m[REQ] == Str(name) && m[ARG] == Dict(args);
  }

  /** An answer holds what it was made of. */
  lemma AnswerEntries(tid: string, typ: string, response: Value)
    requires typ == RSP || typ == ERR
    ensures var m := Answer(tid, typ, response).entries;
            m.Keys == {TID, TYP, typ} && m[TID] == Str(tid) && m[TYP] == Str(typ) && m[typ] == response
    ensures RSP != ERR && RSP != REQ && ERR != REQ
  {
    assert TID[0] != TYP[0] && TID[0] != typ[0] && TYP[0] != typ[0];
    assert RSP[0] != ERR[0] && RSP[0] != REQ[0] && ERR[0] != REQ[0];
  }

  // ----- The length of a shortened answer

  lemma EncodedLength(v: Value)
    ensures |Encode(v)| >= 2
  {
    if v.Str? { DigitsRead(|v.s|); }
  }

  function Sizes(values: seq<Value>): (sizes: seq<nat>)
    ensures |sizes| == |values| && forall i :: 0 <= i < |values| ==> sizes[i] == |Encode(values[i])|
  {
    seq(|values|, i requires 0 <= i < |values| => |Encode(values[i])|)
  }

  lemma SizesAreSizeable(values: seq<Value>)
    ensures Sizeable(Sizes(values))
  {
    forall i | 0 <= i < |values| ensures Sizes(values)[i] >= 2 {
      EncodedLength(values[i]);
    }
  }

  lemma ItemLength(v: Value, i: nat)
    requires v.List? && i < |v.items|
    ensures |EncodeItems(v, i)| == |Encode(v.items[i])| + |EncodeItems(v, i + 1)|
  {
  }

  predicate SizesOf(sizes: seq<nat>, v: Value) {
    v.List? && |v.items| <= |sizes| && forall j :: 0 <= j < |v.items| ==> sizes[j] == |Encode(v.items[j])|
  }

  /** The items before i and the encoding of those from i on have this length together. */
  predicate SumIs(sizes: seq<nat>, v: Value, i: nat, n: nat)
    requires SizesOf(sizes, v) && i <= |v.items|
  {
    PrefixLength(sizes, i) + |EncodeItems(v, i)| == n
  }

  lemma NextSum(sizes: seq<nat>, v: Value, i: nat, n: nat)
    requires SizesOf(sizes, v) && i < |v.items| && SumIs(sizes, v, i, n)
    ensures SumIs(sizes, v, i + 1, n)
  {
    ItemLength(v, i);
  }

  lemma {:induction false} LastSum(sizes: seq<nat>, v: Value, i: nat, n: nat)
    requires SizesOf(sizes, v) && i <= |v.items| && SumIs(sizes, v, i, n)
    ensures SumIs(sizes, v, |v.items|, n)
    decreases |v.items| - i
  {
    if i < |v.items| {
      NextSum(sizes, v, i, n);
      LastSum(sizes, v, i + 1, n);
    }
  }

  lemma ListLength(sizes: seq<nat>, v: Value)
    requires SizesOf(sizes, v)
    ensures |Encode(v)| == PrefixLength(sizes, |v.items|)
  {
    LastSum(sizes, v, 0, |Encode(v)|);
  }

  lemma PrefixIsEncoded(values: seq<Value>, k: nat)
    requires k <= |values|
    ensures |Encode(List(values[..k]))| == PrefixLength(Sizes(values), k)
    ensures |Encode(List(values))| == PrefixLength(Sizes(values), |values|)
  {
    ListLength(Sizes(values), List(values[..k]));
    ListLength(Sizes(values), List(values));
  }

  lemma EntryLength(v: Value, keys: seq<string>, i: nat)
    requires KeysOf(v, keys) && i < |keys|
    ensures |EncodeEntries(v, keys, i)|
            == |EncodeString(keys[i])| + |Encode(v.entries[keys[i]])| + |EncodeEntries(v, keys, i + 1)|
  {
  }

  lemma {:induction false} EntriesLength(v: Value, k: string, w: Value, v': Value, keys: seq<string>, p: nat, i: nat)
    requires KeysOf(v, keys) && StrictlySorted(keys) && p < |keys| && keys[p] == k && i <= |keys|
    requires v' == Dict(v.entries[k := w])
    ensures KeysOf(v', keys)
    ensures |EncodeEntries(v', keys, i)|
            == |EncodeEntries(v, keys, i)| + (if i <= p then |Encode(w)| - |Encode(v.entries[k])| else 0)
    decreases |keys| - i
  {
    if i < |keys| {
      EntriesLength(v, k, w, v', keys, p, i + 1);
      EntryLength(v, keys, i);
      EntryLength(v', keys, i);
      assert keys[i] == k <==> i == p by { LessIrreflexive(k); }
      assert i != p ==> v'.entries[keys[i]] == v.entries[keys[i]];
    }
  }

  /** Replacing the value of one entry changes the length by the difference of the two. */
  lemma LengthWith(v: Value, k: string, w: Value)
    requires v.Dict? && k in v.entries
    ensures |Encode(Dict(v.entries[k := w]))| == |Encode(v)| + |Encode(w)| - |Encode(v.entries[k])|
  {
    var keys := SortedKeys(v.entries.Keys);
    assert v.entries[k := w].Keys == v.entries.Keys;
    assert k in keys;
    var p :| 0 <= p < |keys| && keys[p] == k;
    EntriesLength(v, k, w, Dict(v.entries[k := w]), keys, p, 0);
  }

  // ----- The answer that is sent

  /** What is left out of the answer without its values. */
  function Shortened(response: Value, k: nat): Value
    requires HasList(response) && k <= |response.entries[VALUES].items|
  {
    Dict(response.entries[VALUES := List(response.entries[VALUES].items[..k])])
  }

  /** An answer's length goes with the length of its response. */
  lemma AnswerLength(tid: string, typ: string, response: Value, other: Value)
    requires typ == RSP || typ == ERR
    ensures |Encode(Answer(tid, typ, other))| + |Encode(response)| == |Encode(Answer(tid, typ, response))|
            + |Encode(other)|
  {
    var whole := Answer(tid, typ, response);
    AnswerWith(tid, typ, response, other);
    LengthWith(whole, typ, other);
  }

  lemma AnswerWith(tid: string, typ: string, response: Value, other: Value)
    requires typ == RSP || typ == ERR
    ensures var m := Answer(tid, typ, response).entries;
            typ in m && m[typ] == response && m[typ := other] == Answer(tid, typ, other).entries
  {
    AnswerEntries(tid, typ, response);
    AnswerEntries(tid, typ, other);
  }

  /** And with the length of its values. */
  lemma ShortenedLength(tid: string, typ: string, response: Value, k: nat)
    requires HasList(response) && k <= |response.entries[VALUES].items| && (typ == RSP || typ == ERR)
    ensures var values := response.entries[VALUES].items;
            |Encode(Answer(tid, typ, Shortened(response, k)))| + PrefixLength(Sizes(values), |values|)
            == |Encode(Answer(tid, typ, response))| + PrefixLength(Sizes(values), k)
  {
    var values := response.entries[VALUES].items;
    PrefixIsEncoded(values, k);
    LengthWith(response, VALUES, List(values[..k]));
    AnswerLength(tid, typ, response, Shortened(response, k));
  }

  /** No response, or an empty one, is an empty dictionary. */
  function Given(response: Option<Value>): Value {
    match response
    case None => Dict(map[])
    case Some(v) => if (v.List? || v.Tuple?) && v.items == [] then Dict(map[]) else v
  }

  /** What a handler may return, and what an error is reported as. */
  predicate Answerable(response: Value) {
    (response.Dict? && (VALUES in response.entries ==> response.entries[VALUES].List?)) || response.List?
  }

  predicate HasList(response: Value) {
    response.Dict? && VALUES in response.entries && response.entries[VALUES].List?
  }

  /** 'values' in response: for a list, whether the string is one of its items. */
  predicate HasValues(response: Value) {
    (response.Dict? && VALUES in response.entries) || (response.List? && Str(VALUES) in response.items)
  }

  /** The exceptions that shortening can meet. */
  datatype Trouble = AssertionFailed | DivisionByZero | NotADictionary

  function ServerError(tid: string, why: string): Value {
    ErrorAnswer(tid, KRPC_ERROR_SERVER_ERROR, "unknown error sending response: " + why)
  }

  function TooLong(tid: string, length: nat): Value {
    ErrorAnswer(tid, KRPC_ERROR_RESPONSE_TOO_LONG, "response was " + Digits(length) + " bytes")
  }

  /** The room for values in an answer that is too long. */
  function Room(tid: string, typ: string, response: Value): int
    requires HasList(response)
  {
    |Encode(response.entries[VALUES])| - (|Encode(Answer(tid, typ, response))| - UDP_PACKET_LIMIT)
  }

  /** What is sent with the first k values, the most that fit. */
  function Fitted(tid: string, typ: string, response: Value, str: Trouble -> string, max: int, k: nat): Value
    requires HasList(response) && k <= |response.entries[VALUES].items|
  {
    var values := response.entries[VALUES].items;
    if max > 0 && values == [] then ServerError(tid, str(DivisionByZero))
    else if k == 0 || PrefixLength(Sizes(values), k) == max then ServerError(tid, str(AssertionFailed))
    else Answer(tid, typ, Shortened(response, k))
  }

  /** What is sent: the whole answer if it fits, or with as many values as fit; an error if there are
      no values to leave out, if not one fits, and if those that fit fill the packet to the last byte. */
  function Reply(tid: string, typ: string, response: Value, str: Trouble -> string): Value
    requires Answerable(response)
  {
    var whole := Answer(tid, typ, response);
    if |Encode(whole)| <= UDP_PACKET_LIMIT then whole
    else if !HasValues(response) then TooLong(tid, |Encode(whole)|)
    else if response.List? then ServerError(tid, str(NotADictionary))
    else
      var values := response.entries[VALUES].items;
      var max := Room(tid, typ, response);
      Fitted(tid, typ, response, str, max, LongestPrefix(Sizes(values), max, |values|))
  }

  // ----- Sending

  /** An answer with values that is too long. */
  method Shorten(tid: string, typ: string, response: Value, estimate: (nat, nat, nat) -> int, str: Trouble -> string)
    returns (out: Value)
    requires HasList(response) && (typ == RSP || typ == ERR) && Estimator(estimate)
    requires |Encode(Answer(tid, typ, response))| > UDP_PACKET_LIMIT
    ensures var values, max := response.entries[VALUES].items, Room(tid, typ, response);
            out == Fitted(tid, typ, response, str, max, LongestPrefix(Sizes(values), max, |values|))
  {
    var values := response.entries[VALUES].items;
    var max := |Encode(List(values))| - (|Encode(Answer(tid, typ, response))| - UDP_PACKET_LIMIT);
    PrefixIsEncoded(values, 0);
    SizesAreSizeable(values);
    if max <= 0 {
      NoRoom(Sizes(values), max);
      return ServerError(tid, str(AssertionFailed));
    }
    if |values| == 0 {
      return ServerError(tid, str(DivisionByZero));
    }
    var num := CountFitting(Sizes(values), max, estimate);
    if num <= 0 {
      return ServerError(tid, str(AssertionFailed));
    }
    out := SendFirst(tid, typ, response, num, max, str);
  }

  /** The answer with the first values, which must not fill the packet. */
  method SendFirst(tid: string, typ: string, response: Value, num: nat, ghost max: int, str: Trouble -> string)
    returns (out: Value)
    requires HasList(response) && 0 < num <= |response.entries[VALUES].items| && (typ == RSP || typ == ERR)
    requires max == Room(tid, typ, response) && PrefixLength(Sizes(response.entries[VALUES].items), num) <= max
    ensures out == Fitted(tid, typ, response, str, max, num)
  {
    ShortenedLength(tid, typ, response, num);
    PrefixIsEncoded(response.entries[VALUES].items, 0);
    out := Answer(tid, typ, Shortened(response, num));
    if |Encode(out)| >= UDP_PACKET_LIMIT {
      return ServerError(tid, str(AssertionFailed));
    }
  }

  /** _sendResponse: the datagram written to the transport. */
  method SendResponse(tid: string, typ: string, response: Option<Value>, estimate: (nat, nat, nat) -> int,
                      str: Trouble -> string)
    returns (out: string)
    requires Answerable(Given(response)) && (typ == RSP || typ == ERR) && Estimator(estimate)
    ensures out == Encode(Reply(tid, typ, Given(response), str))
    ensures var whole := Encode(Answer(tid, typ, Given(response))); |whole| <= UDP_PACKET_LIMIT ==> out == whole
  {
    var given := Given(response);
    var msg := Answer(tid, typ, given);
    out := EncodeText(msg);
    if |out| > UDP_PACKET_LIMIT {
      if given.Dict? && VALUES in given.entries {
        msg := Shorten(tid, typ, given, estimate, str);
      } else if HasValues(given) {
        msg := ServerError(tid, str(NotADictionary));
      } else {
        msg := TooLong(tid, |out|);
      }
      out := EncodeText(msg);
    }
  }

  // ----- What every answer keeps

  function Pow10(k: nat): nat {
    if k == 0 then 1 else 10 * Pow10(k - 1)
  }

  lemma {:induction false} DigitsCount(n: nat, k: nat)
    requires k >= 1 && n < Pow10(k)
    ensures |Digits(n)| <= k
  {
    if n >= 10 {
      assert k > 1 by { assert Pow10(1) == 10; }
      DigitsCount(n / 10, k - 1);
    }
  }

  lemma AnswerKeys(typ: string)
    requires typ == RSP || typ == ERR
    ensures SortedKeys({TID, TYP, typ}) == [typ, TID, TYP]
  {
    var keys := [typ, TID, TYP];
    assert Less(typ, TID) && Less(TID, TYP) && Less(typ, TYP);
    SortedUnique(keys, {TID, TYP, typ});
  }

  lemma {:induction false} AnswerEncoded(tid: string, typ: string, response: Value)
    requires typ == RSP || typ == ERR
    ensures Encode(Answer(tid, typ, response))
            == "d" + (EncodeString(typ) + Encode(response)
                   + (EncodeString(TID) + EncodeString(tid) + (EncodeString(TYP) + EncodeString(typ) + ""))) + "e"
  {
    AnswerKeys(typ);
    var v := Answer(tid, typ, response);
    var keys := [typ, TID, TYP];
    assert v.entries.Keys == {TID, TYP, typ};
    assert EncodeEntries(v, keys, 3) == "";
    assert EncodeEntries(v, keys, 2) == EncodeString(TYP) + EncodeString(typ) + EncodeEntries(v, keys, 3);
    assert EncodeEntries(v, keys, 1) == EncodeString(TID) + EncodeString(tid) + EncodeEntries(v, keys, 2);
    assert EncodeEntries(v, keys, 0) == EncodeString(typ) + Encode(response) + EncodeEntries(v, keys, 1);
  }

  lemma ErrorItems(code: int, text: string)
    requires 100 <= code <= 999
    ensures |Encode(List([Int(code), Str(text)]))| == 8 + |Digits(|text|)| + |text|
  {
    var error := List([Int(code), Str(text)]);
    assert EncodeItems(error, 2) == "";
    assert EncodeItems(error, 1) == EncodeString(text) + EncodeItems(error, 2);
    assert EncodeItems(error, 0) == EncodeInt(code) + EncodeItems(error, 1);
    assert Digits(code / 100) == [DigitOf(code / 100)];
    assert Digits(code / 10) == Digits(code / 10 / 10) + [DigitOf(code / 10 % 10)];
    assert |Digits(code)| == 3;
  }

  /** The size of an error packet depends on the text of the error alone. */
  lemma ErrorLength(tid: string, code: int, text: string)
    requires |tid| == 20 && 100 <= code <= 999
    ensures |Encode(ErrorAnswer(tid, code, text))| == 45 + |Digits(|text|)| + |text|
  {
    var error := List([Int(code), Str(text)]);
    AnswerEncoded(tid, ERR, error);
    ErrorItems(code, text);
    assert |Digits(20)| == 2 && |Digits(1)| == 1;
  }

  /** Every answer fits in a datagram, if the texts of errors are not longer themselves. */
  lemma EveryAnswerFits(tid: string, typ: string, response: Value, str: Trouble -> string)
    requires |tid| == 20 && Answerable(response) && (typ == RSP || typ == ERR)
    requires forall t :: |str(t)| <= 1390
    requires |Digits(|Encode(Answer(tid, typ, response))|)| <= 1400
    ensures |Encode(Reply(tid, typ, response, str))| <= UDP_PACKET_LIMIT
  {
    var n := |Encode(Answer(tid, typ, response))|;
    var text := "response was " + Digits(n) + " bytes";
    SmallError(tid, KRPC_ERROR_RESPONSE_TOO_LONG, text);
    forall t ensures |Encode(ServerError(tid, str(t)))| <= UDP_PACKET_LIMIT {
      SmallError(tid, KRPC_ERROR_SERVER_ERROR, "unknown error sending response: " + str(t));
    }
    if n > UDP_PACKET_LIMIT && HasList(response) {
      var values, max := response.entries[VALUES].items, Room(tid, typ, response);
      PrefixIsEncoded(values, 0);
      ShortenedLength(tid, typ, response, LongestPrefix(Sizes(values), max, |values|));
    }
  }

  lemma SmallError(tid: string, code: int, text: string)
    requires |tid| == 20 && 100 <= code <= 999 && |text| <= 1423
    ensures |Encode(ErrorAnswer(tid, code, text))| <= UDP_PACKET_LIMIT
  {
    ErrorLength(tid, code, text);
    assert Pow10(4) == 10000;
    DigitsCount(|text|, 4);
  }

  /** The values fill their room to the last byte when the answer fills the packet. */
  lemma RoomIsPacket(tid: string, typ: string, response: Value, k: nat)
    requires HasList(response) && k <= |response.entries[VALUES].items| && (typ == RSP || typ == ERR)
    ensures |Encode(Answer(tid, typ, Shortened(response, k)))| - UDP_PACKET_LIMIT
            == PrefixLength(Sizes(response.entries[VALUES].items), k) - Room(tid, typ, response)
  {
    ShortenedLength(tid, typ, response, k);
    PrefixIsEncoded(response.entries[VALUES].items, 0);
  }

  /** The answer with the first k values is not too long. */
  predicate FitsWith(tid: string, typ: string, response: Value, k: nat)
    requires HasList(response) && k <= |response.entries[VALUES].items|
  {
    |Encode(Answer(tid, typ, Shortened(response, k)))| <= UDP_PACKET_LIMIT
  }

  /** Exactly the answers with one to k values are not too long. */
  predicate MostThatFit(tid: string, typ: string, response: Value, k: nat)
    requires HasList(response)
  {
    && k <= |response.entries[VALUES].items|
    && forall j: nat :: 0 < j <= |response.entries[VALUES].items| ==> (FitsWith(tid, typ, response, j) <==> j <= k)
  }

  /** There is a greatest number of values that fit, and it is what the search for the longest prefix finds. */
  lemma MostFound(tid: string, typ: string, response: Value)
    requires HasList(response) && (typ == RSP || typ == ERR)
    ensures var sizes, max := Sizes(response.entries[VALUES].items), Room(tid, typ, response);
            MostThatFit(tid, typ, response, LongestPrefix(sizes, max, |sizes|))
  {
    var sizes, max := Sizes(response.entries[VALUES].items), Room(tid, typ, response);
    var k := LongestPrefix(sizes, max, |sizes|);
    forall j: nat | 0 < j <= |sizes| ensures FitsWith(tid, typ, response, j) <==> j <= k {
      FitsIff(tid, typ, response, j);
    }
  }

  lemma FitsIff(tid: string, typ: string, response: Value, j: nat)
    requires HasList(response) && (typ == RSP || typ == ERR) && 0 < j <= |response.entries[VALUES].items|
    ensures var sizes, max := Sizes(response.entries[VALUES].items), Room(tid, typ, response);
            FitsWith(tid, typ, response, j) <==> j <= LongestPrefix(sizes, max, |sizes|)
  {
    var sizes, max := Sizes(response.entries[VALUES].items), Room(tid, typ, response);
    RoomIsPacket(tid, typ, response, j);
    SizesAreSizeable(response.entries[VALUES].items);
    PrefixFitsIff(sizes, max, j);
  }

  lemma OneMost(tid: string, typ: string, response: Value, j: nat, k: nat)
    requires HasList(response) && MostThatFit(tid, typ, response, j) && MostThatFit(tid, typ, response, k)
    ensures j == k
  {
    if j > 0 { assert FitsWith(tid, typ, response, j) <==> j <= k; }
    if k > 0 { assert FitsWith(tid, typ, response, k) <==> k <= j; }
  }

  /** What is sent but for values that are left out: an answer that is not too long as it is, and of one that
      is too long an error, whose code says whether there were values to leave out. */
  lemma ReplyIs(tid: string, typ: string, response: Value, str: Trouble -> string)
    requires Answerable(response) && (typ == RSP || typ == ERR)
    ensures var n := |Encode(Answer(tid, typ, response))|; var r := Reply(tid, typ, response, str);
            && (n <= UDP_PACKET_LIMIT ==> r == Answer(tid, typ, response))
            && (n > UDP_PACKET_LIMIT && !HasValues(response) ==>
                  r == ErrorAnswer(tid, 206, "response was " + Digits(n) + " bytes"))
            && (n > UDP_PACKET_LIMIT && HasValues(response) && response.List? ==>
                  r == ErrorAnswer(tid, 201, "unknown error sending response: " + str(NotADictionary)))
  {
  }

  /** Of an answer with values that is too long the most values that fit are sent, unless none fits or they
      fill the packet to the last byte; then an error is sent. */
  lemma MostAreSent(tid: string, typ: string, response: Value, str: Trouble -> string, k: nat)
    requires HasList(response) && (typ == RSP || typ == ERR) && MostThatFit(tid, typ, response, k)
    requires |Encode(Answer(tid, typ, response))| > UDP_PACKET_LIMIT
    ensures var shortened := Answer(tid, typ, Shortened(response, k));
            && (k > 0 && |Encode(shortened)| != UDP_PACKET_LIMIT ==> Reply(tid, typ, response, str) == shortened)
            && (k == 0 || |Encode(shortened)| == UDP_PACKET_LIMIT ==>
                  exists t :: Reply(tid, typ, response, str) == ServerError(tid, str(t)))
  {
    var values, max := response.entries[VALUES].items, Room(tid, typ, response);
    MostFound(tid, typ, response);
    OneMost(tid, typ, response, k, LongestPrefix(Sizes(values), max, |values|));
    RoomIsPacket(tid, typ, response, k);
    ReplyIsFitted(tid, typ, response, str);
    if k == 0 || PrefixLength(Sizes(values), k) == max {
      var t := if max > 0 && values == [] then DivisionByZero else AssertionFailed;
      assert Reply(tid, typ, response, str) == ServerError(tid, str(t));
    }
  }

  lemma ReplyIsFitted(tid: string, typ: string, response: Value, str: Trouble -> string)
    requires HasList(response) && |Encode(Answer(tid, typ, response))| > UDP_PACKET_LIMIT
    ensures var sizes, max := Sizes(response.entries[VALUES].items), Room(tid, typ, response);
            Reply(tid, typ, response, str) == Fitted(tid, typ, response, str, max, LongestPrefix(sizes, max, |sizes|))
  {
  }

  /** Of an answer that is too long, values are sent exactly if the first value fits and no number of
      values fills the packet to the last byte; otherwise the other side gets an error instead, even
      though a value less would have left room. */
  lemma ValuesSentIff(tid: string, response: Value, str: Trouble -> string)
    requires HasList(response) && |Encode(Answer(tid, RSP, response))| > UDP_PACKET_LIMIT
    ensures var sizes, max := Sizes(response.entries[VALUES].items), Room(tid, RSP, response);
            Reply(tid, RSP, response, str).entries[TYP] == Str(RSP) <==>
            |sizes| > 0 && PrefixLength(sizes, 1) <= max && forall k :: 0 < k <= |sizes| ==>
                PrefixLength(sizes, k) != max
  {
    var sizes, max := Sizes(response.entries[VALUES].items), Room(tid, RSP, response);
    SizesAreSizeable(response.entries[VALUES].items);
    RoomLeftIff(sizes, max);
    ReplyIsFitted(tid, RSP, response, str);
    FittedType(tid, response, str, max, LongestPrefix(sizes, max, |sizes|));
  }

  /** Values are sent, not an error. */
  lemma FittedType(tid: string, response: Value, str: Trouble -> string, max: int, k: nat)
    requires HasList(response) && k <= |response.entries[VALUES].items|
    ensures Fitted(tid, RSP, response, str, max, k).entries[TYP] == Str(RSP) <==>
            k > 0 && PrefixLength(Sizes(response.entries[VALUES].items), k) != max
  {
    AnswerEntries(tid, RSP, Shortened(response, k));
    forall t ensures ServerError(tid, str(t)).entries[TYP] == Str(ERR) {
      ServerErrorType(tid, str(t));
    }
  }

  lemma ServerErrorType(tid: string, why: string)
    ensures ServerError(tid, why).entries[TYP] == Str(ERR) && RSP != ERR
  {
    AnswerEntries(tid, ERR, List([Int(KRPC_ERROR_SERVER_ERROR), Str("unknown error sending response: " + why)]));
  }

  /** Two values, of which the first fills the packet to the last byte. */
  function Brimful(): Value {
    Dict(map[VALUES := List([Str(seq(1418, _ => 'x')), Str("")])])
  }

  lemma BrimfulSizes()
    ensures |Encode(Brimful().entries[VALUES].items[0])| == 1423 && |Encode(Brimful().entries[VALUES].items[1])| == 2
    ensures PrefixLength(Sizes(Brimful().entries[VALUES].items), 1) == 1425
    ensures PrefixLength(Sizes(Brimful().entries[VALUES].items), 2) == 1427
  {
    assert |Digits(14)| == |Digits(1)| + 1 && |Digits(141)| == |Digits(14)| + 1 && |Digits(1418)| == |Digits(141)| + 1;
    var sizes := Sizes(Brimful().entries[VALUES].items);
    assert PrefixLength(sizes, 1) == PrefixLength(sizes, 0) + sizes[0];
    assert PrefixLength(sizes, 2) == PrefixLength(sizes, 1) + sizes[1];
  }

  lemma BrimfulLength(tid: string)
    requires |tid| == 20
    ensures |Encode(Answer(tid, RSP, Brimful()))| == 1474
  {
    var v := Brimful();
    BrimfulSizes();
    PrefixIsEncoded(v.entries[VALUES].items, 2);
    assert StrictlySorted([VALUES]);
    SortedUnique([VALUES], v.entries.Keys);
    assert EncodeEntries(v, [VALUES], 1) == "";
    EntryLength(v, [VALUES], 0);
    assert |EncodeString(VALUES)| == 8;
    AnswerEncoded(tid, RSP, v);
    assert |Digits(20)| == 2 && |Digits(1)| == 1;
  }

  /** With these values the answer with the first value is as long as a packet may be, and yet an error is sent. */
  lemma BrimfulRefused(tid: string, str: Trouble -> string)
    requires |tid| == 20
    ensures |Encode(Answer(tid, RSP, Shortened(Brimful(), 1)))| == UDP_PACKET_LIMIT
    ensures Reply(tid, RSP, Brimful(), str).entries[TYP] == Str(ERR)
  {
    var values := Brimful().entries[VALUES].items;
    BrimfulSizes();
    BrimfulLength(tid);
    PrefixIsEncoded(values, 2);
    ShortenedLength(tid, RSP, Brimful(), 1);
    ValuesSentIff(tid, Brimful(), str);
    ReplyIsFitted(tid, RSP, Brimful(), str);
    FittedType(tid, Brimful(), str, Room(tid, RSP, Brimful()),
        LongestPrefix(Sizes(values), Room(tid, RSP, Brimful()), 2));
    forall t ensures ServerError(tid, str(t)).entries[TYP] == Str(ERR) {
      ServerErrorType(tid, str(t));
    }
  }

  // ----- What the other side understands

  lemma NormalAnswer(tid: string, typ: string, response: Value)
    requires typ == RSP || typ == ERR
    ensures Normal(Answer(tid, typ, response)) == Answer(tid, typ, Normal(response))
  {
  }

  lemma AnswerClassified(tid: string, response: Value)
    requires |tid| == 20 && response.Dict?
    ensures Verified(Answer(tid, RSP, response)) && Classify(Answer(tid, RSP, response))
            == Response(tid, response.entries)
  {
    AnswerEntries(tid, RSP, response);
  }

  lemma ErrorClassified(tid: string, code: int, text: string)
    requires |tid| == 20
    ensures Verified(ErrorAnswer(tid, code, text)) && Classify(ErrorAnswer(tid, code, text)) == Error(tid, code, text)
  {
    AnswerEntries(tid, ERR, List([Int(code), Str(text)]));
  }

  /** An answer arrives as what it is. */
  lemma AnswerReceived(decode: string -> Option<Value>, tid: string, response: Value)
    requires IsBdecode(decode) && |tid| == 20 && response.Dict?
    ensures Receive(decode, Encode(Answer(tid, RSP, response))) == Response(tid, Normal(response).entries)
  {
    NormalAnswer(tid, RSP, response);
    Undone(decode, Answer(tid, RSP, response));
    AnswerClassified(tid, Normal(response));
  }

  lemma NormalError(code: int, text: string)
    ensures Normal(List([Int(code), Str(text)])) == List([Int(code), Str(text)])
  {
  }

  lemma ErrorReceived(decode: string -> Option<Value>, tid: string, code: int, text: string)
    requires IsBdecode(decode) && |tid| == 20
    ensures Receive(decode, Encode(ErrorAnswer(tid, code, text))) == Error(tid, code, text)
  {
    NormalAnswer(tid, ERR, List([Int(code), Str(text)]));
    NormalError(code, text);
    Undone(decode, ErrorAnswer(tid, code, text));
    ErrorClassified(tid, code, text);
  }

  /** The entries that arrive of a response with a list of values, of which the first k are sent. */
  ghost predicate Arrives(response: Value, k: nat, got: map<string, Value>)
    requires HasList(response) && k <= |response.entries[VALUES].items|
  {
    && got.Keys == response.entries.Keys
    && (forall name :: name in got && name != VALUES ==> got[name] == Normal(response.entries[name]))
    && got[VALUES] == Normal(List(response.entries[VALUES].items[..k]))
  }

  /** A response that is not too long arrives as it is. Of one that is too long there arrive all other entries
      and the most values that fit, one at least, or an error, whose code says whether it had values. */
  ghost predicate Understood(tid: string, response: Value, got: Received)
    requires response.Dict? && Answerable(response)
  {
    if |Encode(Answer(tid, RSP, response))| <= UDP_PACKET_LIMIT then got == Response(tid, Normal(response).entries)
    else if VALUES !in response.entries then got.Error? && got.tid == tid && got.code == 206
    else
      || (got.Error? && got.tid == tid && got.code == 201)
      || (got.Response? && got.tid == tid && exists k: nat :: k > 0 && MostThatFit(tid, RSP, response, k)
                                                              && Arrives(response, k, got.values))
  }

  lemma ShortenedArrives(decode: string -> Option<Value>, tid: string, response: Value, k: nat)
    requires IsBdecode(decode) && |tid| == 20 && HasList(response) && k <= |response.entries[VALUES].items|
    ensures var got := Receive(decode, Encode(Answer(tid, RSP, Shortened(response, k))));
            got.Response? && got.tid == tid && Arrives(response, k, got.values)
  {
    AnswerReceived(decode, tid, Shortened(response, k));
  }

  /** Whatever is answered to a request with a proper transaction number, the node that sent the request
      receives for this transaction what is understood of the response. */
  lemma ReplyUnderstood(decode: string -> Option<Value>, tid: string, response: Value, str: Trouble -> string)
    requires IsBdecode(decode) && |tid| == 20 && response.Dict? && Answerable(response)
    ensures Understood(tid, response, Receive(decode, Encode(Reply(tid, RSP, response, str))))
  {
    var n := |Encode(Answer(tid, RSP, response))|;
    ReplyIs(tid, RSP, response, str);
    if n <= UDP_PACKET_LIMIT {
      AnswerReceived(decode, tid, response);
    } else if HasList(response) {
      LongUnderstood(decode, tid, response, str);
    } else {
      ErrorReceived(decode, tid, 206, "response was " + Digits(n) + " bytes");
    }
  }

  lemma LongUnderstood(decode: string -> Option<Value>, tid: string, response: Value, str: Trouble -> string)
    requires IsBdecode(decode) && |tid| == 20 && HasList(response)
    requires |Encode(Answer(tid, RSP, response))| > UDP_PACKET_LIMIT
    ensures Understood(tid, response, Receive(decode, Encode(Reply(tid, RSP, response, str))))
  {
    var values := response.entries[VALUES].items;
    var k := LongestPrefix(Sizes(values), Room(tid, RSP, response), |values|);
    MostFound(tid, RSP, response);
    MostAreSent(tid, RSP, response, str, k);
    forall t {
      ErrorReceived(decode, tid, 201, "unknown error sending response: " + str(t));
    }
    ShortenedArrives(decode, tid, response, k);
  }
}
