/** The decoder as it runs: offsets that may go back, and whatever int() takes for a number. */
module BencodeRuns {
  import opened Options
  import opened Text
  import opened Bencode

  // ----- Python's strings

  /** x[f] */
  function ByteAt(x: string, f: int): Option<char> {
    if 0 <= f < |x| then Some(x[f]) else if -|x| <= f < 0 then Some(x[|x| + f]) else None
  }

  /** Where an offset of a slice or a search lies. */
  function Bound(x: string, i: int): (b: nat)
    ensures b <= |x|
  {
    if i > |x| then |x| else if i >= 0 then i else if |x| + i > 0 then |x| + i else 0
  }

  /** x[i:j] */
  function SliceOf(x: string, i: int, j: int): string {
    if Bound(x, i) <= Bound(x, j) then x[Bound(x, i)..Bound(x, j)] else ""
  }

  /** x.index(c, f) */
  function Index(x: string, c: char, f: int): Option<nat> {
    if f > |x| || IndexOf(x, c, Bound(x, f)) == |x| then None else Some(IndexOf(x, c, Bound(x, f)))
  }

  // ----- The decoders

  /** What int(), or else long(), reads, or None for their ValueError. */
  type Ints = string -> Option<int>

  /** They read decimal numbers. Nothing is presumed of other strings, some of which they read as well. */
  ghost predicate ReadsDecimals(ints: Ints) {
    forall s :: ParseInt(s).Some? ==> ints(s) == ParseInt(s)
  }

  /** What a decoder does: it raises, or returns a value and the offset to read next, or has not returned yet. */
  datatype Ran<+T> = Raised | Running | Returned(value: T, next: int)

  function RunInt(ints: Ints, x: string, f: int): Ran<int> {
    var newf := Index(x, 'e', f + 1);
    if newf.None? then Raised
    else
      var n := ints(SliceOf(x, f + 1, newf.value));
      if n.None? || ByteAt(x, f + 1).None? then Raised
      else if ByteAt(x, f + 1) == Some('-') then
        if ByteAt(x, f + 2) == Some('0') || ByteAt(x, f + 2).None? then Raised else Returned(n.value, newf.value + 1)
      else if ByteAt(x, f + 1) == Some('0') && newf.value != f + 2 then Raised
      else Returned(n.value, newf.value + 1)
  }

  function RunString(ints: Ints, x: string, f: int): Ran<string> {
    var colon := Index(x, ':', f);
    if colon.None? then Raised else Cut(ints(SliceOf(x, f, colon.value)), x, f, colon.value)
  }

  /** The string behind a colon. */
  function Cut(n: Option<int>, x: string, f: int, colon: nat): Ran<string> {
    if n.None? || ByteAt(x, f).None? || (ByteAt(x, f) == Some('0') && colon != f + 1) then Raised
    else Returned(SliceOf(x, colon + 1, colon + 1 + n.value), colon + 1 + n.value)
  }

  /** decode_func for the byte at an offset. The fuel counts the calls and the turns of loops. */
  function RunValue(ints: Ints, x: string, f: int, fuel: nat): Ran<Value>
    decreases fuel, 1
  {
    var c := ByteAt(x, f);
    if c == Some('l') then
      match RunItems(ints, x, f + 1, fuel)
      case Returned(items, next) => Returned(List(items), next)
      case Raised => Raised
      case Running => Running
    else if c == Some('d') then
      match RunEntries(ints, x, f + 1, None, fuel)
      case Returned(entries, next) => Returned(Dict(entries), next)
      case Raised => Raised
      case Running => Running
    else if c == Some('i') then
      match RunInt(ints, x, f)
      case Returned(n, next) => Returned(Int(n), next)
      case Raised => Raised
      case Running => Running
    else if c.Some? && IsDigit(c.value) then
      match RunString(ints, x, f)
      case Returned(s, next) => Returned(Str(s), next)
      case Raised => Raised
      case Running => Running
    else Raised
  }

  /** The loop of decode_list from an offset on. */
  function RunItems(ints: Ints, x: string, f: int, fuel: nat): Ran<seq<Value>>
    decreases fuel, 0
  {
    if fuel == 0 then Running
    else if ByteAt(x, f).None? then Raised
    else if ByteAt(x, f) == Some('e') then Returned([], f + 1)
    else
      match RunValue(ints, x, f, fuel - 1)
      case Raised => Raised
      case Running => Running
      case Returned(v, next) =>
        match RunItems(ints, x, next, fuel - 1)
        case Raised => Raised
        case Running => Running
        case Returned(rest, end) => Returned([v] + rest, end)
  }

  /** The loop of decode_dict from an offset on. */
  function RunEntries(ints: Ints, x: string, f: int, last: Option<string>, fuel: nat): Ran<map<string, Value>>
    decreases fuel, 0
  {
    if fuel == 0 then Running
    else if ByteAt(x, f).None? then Raised
    else if ByteAt(x, f) == Some('e') then Returned(map[], f + 1)
    else
      match RunString(ints, x, f)
      case Raised => Raised
      case Running => Running
      case Returned(k, at) =>
        if !After(last, k) then Raised
        else
          match RunValue(ints, x, at, fuel - 1)
          case Raised => Raised
          case Running => Running
          case Returned(v, next) =>
            match RunEntries(ints, x, next, Some(k), fuel - 1)
            case Raised => Raised
            case Running => Running
            case Returned(rest, end) => Returned(rest[k := v], end)
  }

  /** bdecode returns a value. */
  ghost predicate Accepts(ints: Ints, x: string, sloppy: bool, v: Value) {
    exists fuel: nat :: Accepted(RunValue(ints, x, 0, fuel), |x|, sloppy, v)
  }

  predicate Accepted(r: Ran<Value>, length: nat, sloppy: bool, v: Value) {
    r.Returned? && r.value == v && (sloppy || r.next == length)
  }

  // ----- Numbers that are written plainly

  /** What a decoder does as the plain reading says, as far as that goes. */
  predicate Follows<T(==)>(r: Ran<T>, p: Parsed<T>, ints: Ints) {
    match p
    case Got(v, next) => r == Returned(v, next)
    case Bad(Refused) => r == Raised
    case Bad(Odd(s)) => ints(s).None? ==> r == Raised
  }

  lemma IntFollows(ints: Ints, x: string, f: nat)
    requires ReadsDecimals(ints) && f < |x|
    ensures Follows(RunInt(ints, x, f), DecodeInt(x, f), ints)
  {
    var newf := IndexOf(x, 'e', f + 1);
    if newf < |x| {
      var s := x[f + 1..newf];
      assert SliceOf(x, f + 1, newf) == s;
      if ParseInt(s).Some? {
        assert ints(s) == ParseInt(s) && s[0] == x[f + 1];
        assert |s| > 1 ==> s[1] == x[f + 2];
      }
    }
  }

  lemma StringFollows(ints: Ints, x: string, f: nat)
    requires ReadsDecimals(ints) && f < |x|
    ensures Follows(RunString(ints, x, f), DecodeString(x, f), ints)
  {
    var colon := IndexOf(x, ':', f);
    if colon < |x| {
      var s := x[f..colon];
      LexemeRuns(ints, x, f, colon, s);
      if |s| > 0 && AllDigits(s) {
        LengthRead(ints, s);
        CutPlainly(x, f, colon, Number(s, |s|));
        LexemeRead(x, f, colon, s);
        PlainFollows(RunString(ints, x, f), DecodeString(x, f), ints, x[f] == '0' && colon != f + 1,
                     Slice(x, colon + 1, Number(s, |s|)), colon + 1 + Number(s, |s|));
      } else {
        OddLexeme(x, f, colon, s);
      }
    } else {
      NoColon(ints, x, f);
    }
  }

  lemma CutPlainly(x: string, f: nat, colon: nat, n: nat)
    requires f <= colon < |x|
    ensures Cut(Some(n), x, f, colon) ==
              if x[f] == '0' && colon != f + 1 then Raised else Returned(Slice(x, colon + 1, n), colon + 1 + n)
  {
    SliceWithin(x, colon + 1, n);
  }

  lemma PlainFollows(r: Ran<string>, p: Parsed<string>, ints: Ints, refused: bool, s: string, next: nat)
    requires r == if refused then Raised else Returned(s, next)
    requires p == if refused then Bad(Refused) else Got(s, next)
    ensures Follows(r, p, ints)
  {
  }

  lemma OddLexeme(x: string, f: nat, colon: nat, s: string)
    requires f < |x| && colon == IndexOf(x, ':', f) && colon < |x| && s == x[f..colon] && !(|s| > 0 && AllDigits(s))
    ensures DecodeString(x, f) == Bad(Odd(s))
  {
  }

  lemma NoColon(ints: Ints, x: string, f: nat)
    requires f < |x| && IndexOf(x, ':', f) == |x|
    ensures DecodeString(x, f) == Bad(Refused) && RunString(ints, x, f) == Raised
  {
  }

  lemma LexemeRuns(ints: Ints, x: string, f: nat, colon: nat, s: string)
    requires f < |x| && colon == IndexOf(x, ':', f) && colon < |x| && s == x[f..colon]
    ensures RunString(ints, x, f) == Cut(ints(s), x, f, colon)
  {
    IndexInside(x, ':', f);
    SliceInside(x, f, colon);
  }

  lemma SliceInside(x: string, i: nat, j: nat)
    requires i <= j <= |x|
    ensures SliceOf(x, i, j) == x[i..j]
  {
  }

  lemma IndexInside(x: string, c: char, f: nat)
    requires f <= |x| && IndexOf(x, c, f) < |x|
    ensures Index(x, c, f) == Some(IndexOf(x, c, f))
  {
  }

  lemma LexemeRead(x: string, f: nat, colon: nat, s: string)
    requires f < |x| && colon == IndexOf(x, ':', f) && colon < |x| && s == x[f..colon] && |s| > 0 && AllDigits(s)
    ensures DecodeString(x, f) ==
              if x[f] == '0' && colon != f + 1 then Bad(Refused)
              else Got(Slice(x, colon + 1, Number(s, |s|)), colon + 1 + Number(s, |s|))
  {
  }

  lemma LengthRead(ints: Ints, s: string)
    requires ReadsDecimals(ints) && |s| > 0 && AllDigits(s)
    ensures ints(s) == Some(Number(s, |s|))
  {
    assert ParseInt(s) == Some(Number(s, |s|));
  }

  lemma SliceWithin(x: string, i: nat, n: nat)
    requires i <= |x|
    ensures SliceOf(x, i, i + n) == Slice(x, i, n)
  {
    assert x[i..] == x[i..|x|];
  }

  /** It does what the plain reading says, and with enough fuel it is done. */
  predicate Keeps<T(==)>(r: Ran<T>, p: Parsed<T>, ints: Ints, enough: bool) {
    if r == Running then enough ==> p.Bad? && p.why.Odd? else Follows(r, p, ints)
  }

  lemma {:induction false} ValueFollows(ints: Ints, x: string, f: nat, fuel: nat)
    requires ReadsDecimals(ints)
    ensures Keeps(RunValue(ints, x, f, fuel), DecodeValue(x, f), ints, fuel >= Left(x, f))
    decreases fuel, 1
  {
    if f < |x| && x[f] == 'l' {
      ItemsFollow(ints, x, f + 1, fuel);
      ListFollows(ints, x, f, fuel);
    } else if f < |x| && x[f] == 'd' {
      EntriesFollow(ints, x, f + 1, None, fuel);
      DictionaryFollows(ints, x, f, fuel);
    } else {
      SimpleFollows(ints, x, f, fuel);
    }
  }

  lemma ListFollows(ints: Ints, x: string, f: nat, fuel: nat)
    requires f < |x| && x[f] == 'l'
    requires Keeps(RunItems(ints, x, f + 1, fuel), DecodeItems(x, f + 1), ints, fuel > Left(x, f + 1))
    ensures Keeps(RunValue(ints, x, f, fuel), DecodeValue(x, f), ints, fuel >= Left(x, f))
  {
  }

  lemma DictionaryFollows(ints: Ints, x: string, f: nat, fuel: nat)
    requires f < |x| && x[f] == 'd'
    requires Keeps(RunEntries(ints, x, f + 1, None, fuel), DecodeEntries(x, f + 1, None), ints, fuel > Left(x, f + 1))
    ensures Keeps(RunValue(ints, x, f, fuel), DecodeValue(x, f), ints, fuel >= Left(x, f))
  {
  }

  lemma SimpleFollows(ints: Ints, x: string, f: nat, fuel: nat)
    requires ReadsDecimals(ints) && (f < |x| ==> x[f] != 'l' && x[f] != 'd')
    ensures Keeps(RunValue(ints, x, f, fuel), DecodeValue(x, f), ints, fuel >= Left(x, f))
  {
    if f < |x| && x[f] == 'i' {
      IntFollows(ints, x, f);
    } else if f < |x| && IsDigit(x[f]) {
      StringFollows(ints, x, f);
    }
  }

  lemma {:induction false} ItemsFollow(ints: Ints, x: string, f: nat, fuel: nat)
    requires ReadsDecimals(ints)
    ensures Keeps(RunItems(ints, x, f, fuel), DecodeItems(x, f), ints, fuel > Left(x, f))
    decreases fuel, 0
  {
    if fuel > 0 && f < |x| && x[f] != 'e' {
      ValueFollows(ints, x, f, fuel - 1);
      if DecodeValue(x, f).Got? {
        ItemsFollow(ints, x, DecodeValue(x, f).next, fuel - 1);
      }
      ItemFollows(ints, x, f, fuel);
    } else {
      ItemsEnd(ints, x, f, fuel);
    }
  }

  /** One turn of the loop of decode_list. */
  lemma ItemFollows(ints: Ints, x: string, f: nat, fuel: nat)
    requires fuel > 0 && f < |x| && x[f] != 'e'
    requires var r, p := RunValue(ints, x, f, fuel - 1), DecodeValue(x, f);
             && Keeps(r, p, ints, fuel - 1 >= Left(x, f))
             && (p.Got? ==> Keeps(RunItems(ints, x, p.next, fuel - 1), DecodeItems(x, p.next), ints,
                                  fuel - 1 > Left(x, p.next)))
    ensures Keeps(RunItems(ints, x, f, fuel), DecodeItems(x, f), ints, fuel > Left(x, f))
  {
  }

  lemma ItemsEnd(ints: Ints, x: string, f: nat, fuel: nat)
    requires fuel == 0 || f >= |x| || x[f] == 'e'
    ensures Keeps(RunItems(ints, x, f, fuel), DecodeItems(x, f), ints, fuel > Left(x, f))
  {
  }

  lemma {:induction false} EntriesFollow(ints: Ints, x: string, f: nat, last: Option<string>, fuel: nat)
    requires ReadsDecimals(ints)
    ensures Keeps(RunEntries(ints, x, f, last, fuel), DecodeEntries(x, f, last), ints, fuel > Left(x, f))
    decreases fuel, 0
  {
    if fuel == 0 || f >= |x| || x[f] == 'e' {
      EntriesEnd(ints, x, f, last, fuel);
    } else {
      var k := DecodeString(x, f);
      if k.Got? && After(last, k.value) {
        KeyFollows(ints, x, f, last, k.value, k.next, fuel);
      } else {
        NoKeyFollows(ints, x, f, last, fuel);
      }
    }
  }

  lemma {:induction false} KeyFollows(ints: Ints, x: string, f: nat, last: Option<string>, k: string, at: nat,
                                      fuel: nat)
    requires ReadsDecimals(ints) && fuel > 0 && f < |x| && x[f] != 'e' && f < at
    requires DecodeString(x, f) == Got(k, at) && After(last, k)
    ensures RestKeeps(ints, x, f, last, fuel)
    decreases fuel - 1, 4
  {
    TurnFollows(ints, x, at, k, fuel - 1);
    if DecodeValue(x, at).Got? {
      EntryFollows(ints, x, f, last, k, at, fuel, DecodeValue(x, at).next);
    } else {
      NoValueFollows(ints, x, f, last, k, at, fuel);
    }
  }

  /** A value and what comes after it. */
  lemma {:induction false} TurnFollows(ints: Ints, x: string, at: nat, k: string, fuel: nat)
    requires ReadsDecimals(ints)
    ensures FirstKeeps(ints, x, at, fuel)
    ensures DecodeValue(x, at).Got? ==> RestKeeps(ints, x, DecodeValue(x, at).next, Some(k), fuel)
    decreases fuel, 3
  {
    FirstFollows(ints, x, at, fuel);
    if DecodeValue(x, at).Got? {
      RestFollows(ints, x, DecodeValue(x, at).next, Some(k), fuel);
    }
  }

  predicate FirstKeeps(ints: Ints, x: string, f: nat, fuel: nat) {
    Keeps(RunValue(ints, x, f, fuel), DecodeValue(x, f), ints, fuel >= Left(x, f))
  }

  lemma {:induction false} FirstFollows(ints: Ints, x: string, f: nat, fuel: nat)
    requires ReadsDecimals(ints)
    ensures FirstKeeps(ints, x, f, fuel)
    decreases fuel, 2
  {
    ValueFollows(ints, x, f, fuel);
  }

  lemma {:induction false} RestFollows(ints: Ints, x: string, f: nat, last: Option<string>, fuel: nat)
    requires ReadsDecimals(ints)
    ensures RestKeeps(ints, x, f, last, fuel)
    decreases fuel, 1
  {
    EntriesFollow(ints, x, f, last, fuel);
  }

  predicate RestKeeps(ints: Ints, x: string, f: nat, last: Option<string>, fuel: nat) {
    Keeps(RunEntries(ints, x, f, last, fuel), DecodeEntries(x, f, last), ints, fuel > Left(x, f))
  }

  /** One turn of the loop of decode_dict. */
  lemma EntryFollows(ints: Ints, x: string, f: nat, last: Option<string>, k: string, at: nat, fuel: nat, next: nat)
    requires ReadsDecimals(ints) && fuel > 0 && f < |x| && x[f] != 'e' && f < at
    requires DecodeString(x, f) == Got(k, at) && After(last, k)
    requires DecodeValue(x, at).Got? && DecodeValue(x, at).next == next
    requires FirstKeeps(ints, x, at, fuel - 1) && RestKeeps(ints, x, next, Some(k), fuel - 1)
    ensures RestKeeps(ints, x, f, last, fuel)
  {
    StringFollows(ints, x, f);
  }

  lemma NoValueFollows(ints: Ints, x: string, f: nat, last: Option<string>, k: string, at: nat, fuel: nat)
    requires ReadsDecimals(ints) && fuel > 0 && f < |x| && x[f] != 'e' && f < at
    requires DecodeString(x, f) == Got(k, at) && After(last, k) && DecodeValue(x, at).Bad?
    requires FirstKeeps(ints, x, at, fuel - 1)
    ensures RestKeeps(ints, x, f, last, fuel)
  {
    StringFollows(ints, x, f);
  }

  lemma NoKeyFollows(ints: Ints, x: string, f: nat, last: Option<string>, fuel: nat)
    requires fuel > 0 && f < |x| && x[f] != 'e' && ReadsDecimals(ints)
    requires !(DecodeString(x, f).Got? && After(last, DecodeString(x, f).value))
    ensures Keeps(RunEntries(ints, x, f, last, fuel), DecodeEntries(x, f, last), ints, fuel > Left(x, f))
  {
    StringFollows(ints, x, f);
  }

  lemma EntriesEnd(ints: Ints, x: string, f: nat, last: Option<string>, fuel: nat)
    requires fuel == 0 || f >= |x| || x[f] == 'e'
    ensures Keeps(RunEntries(ints, x, f, last, fuel), DecodeEntries(x, f, last), ints, fuel > Left(x, f))
  {
  }

  // ----- What is accepted

  /** Data without odd numbers: what the plain reading makes of it is accepted, and nothing else. */
  lemma AcceptsPlain(ints: Ints, x: string, sloppy: bool, v: Value)
    requires ReadsDecimals(ints) && !ReadOddly(x)
    ensures Accepts(ints, x, sloppy, v) <==> Bdecode(x, sloppy) == Some(v)
  {
    ValueFollows(ints, x, 0, |x|);
    if Bdecode(x, sloppy) == Some(v) {
      assert Accepted(RunValue(ints, x, 0, |x|), |x|, sloppy, v);
    }
    if Accepts(ints, x, sloppy, v) {
      var fuel: nat :| Accepted(RunValue(ints, x, 0, fuel), |x|, sloppy, v);
      ValueFollows(ints, x, 0, fuel);
    }
  }

  lemma EncodingIsPlain(x: string, v: Value)
    requires At(x, 0, Encode(v))
    ensures !ReadOddly(x)
  {
    ValueAt(x, 0, v);
  }

  /** Each value is read from its own encoding, and from data with an odd number only otherwise. */
  lemma Canonical(ints: Ints, x: string, v: Value)
    requires ReadsDecimals(ints)
    ensures Accepts(ints, x, false, v) && !ReadOddly(x) <==> x == Encode(v) && v == Normal(v)
  {
    PlainCanonical(x, v);
    if x == Encode(v) {
      AtIsSlice(x, 0, Encode(v));
      EncodingIsPlain(x, v);
    }
    if !ReadOddly(x) {
      AcceptsPlain(ints, x, false, v);
    }
  }

  /** What is accepted is the encoding of what is returned exactly if no number in it is odd. */
  lemma EncodingIff(ints: Ints, x: string, v: Value)
    requires ReadsDecimals(ints) && Accepts(ints, x, false, v)
    ensures x == Encode(v) <==> !ReadOddly(x)
  {
    Canonical(ints, x, v);
    if x == Encode(v) {
      AtIsSlice(x, 0, Encode(v));
      EncodingIsPlain(x, v);
    }
  }

  /** The odd number of accepted data is one that int() reads; if it reads decimal numbers only, it is a
      length with a minus sign. */
  lemma OddNumber(ints: Ints, x: string, sloppy: bool, v: Value)
    requires ReadsDecimals(ints) && Accepts(ints, x, sloppy, v) && ReadOddly(x)
    ensures var s := DecodeValue(x, 0).why.number; ints(s).Some? && (ints(s) == ParseInt(s) ==> |s| > 1 && s[0] == '-')
  {
    var fuel: nat :| Accepted(RunValue(ints, x, 0, fuel), |x|, sloppy, v);
    ValueFollows(ints, x, 0, fuel);
    OddIsSigned(x, 0);
  }

  lemma {:induction false} OddIsSigned(x: string, f: nat)
    requires DecodeValue(x, f).Bad? && DecodeValue(x, f).why.Odd?
    ensures var s := DecodeValue(x, f).why.number; ParseInt(s).Some? ==> |s| > 1 && s[0] == '-'
    decreases Left(x, f), 0
  {
    if x[f] == 'l' {
      OddItem(x, f + 1);
    } else if x[f] == 'd' {
      OddEntry(x, f + 1, None);
    }
  }

  lemma {:induction false} OddItem(x: string, f: nat)
    requires DecodeItems(x, f).Bad? && DecodeItems(x, f).why.Odd?
    ensures var s := DecodeItems(x, f).why.number; ParseInt(s).Some? ==> |s| > 1 && s[0] == '-'
    decreases Left(x, f), 1
  {
    var v := DecodeValue(x, f);
    if v.Bad? { OddIsSigned(x, f); } else { OddItem(x, v.next); }
  }

  lemma {:induction false} OddEntry(x: string, f: nat, last: Option<string>)
    requires DecodeEntries(x, f, last).Bad? && DecodeEntries(x, f, last).why.Odd?
    ensures var s := DecodeEntries(x, f, last).why.number; ParseInt(s).Some? ==> |s| > 1 && s[0] == '-'
    decreases Left(x, f), 1
  {
    var k := DecodeString(x, f);
    if k.Got? {
      var v := DecodeValue(x, k.next);
      if v.Bad? { OddIsSigned(x, k.next); } else { OddEntry(x, v.next, Some(k.value)); }
    }
  }

  /** A sloppy caller accepts of data without odd numbers besides: an encoding with anything after it, and a
      string cut short. */
  lemma SloppyAccepts(ints: Ints, x: string, v: Value)
    requires ReadsDecimals(ints)
    ensures Accepts(ints, x, true, v) && !ReadOddly(x) <==>
              || (v == Normal(v) && At(x, 0, Encode(v)))
              || (v.Str? && exists n: nat :: n > |v.s| && x == Digits(n) + ":" + v.s)
  {
    PlainSloppy(x, v);
    if Bdecode(x, true) == Some(v) {
      assert !ReadOddly(x);
    }
    if !ReadOddly(x) {
      AcceptsPlain(ints, x, true, v);
    }
  }

  /** A function that is bdecode, with some int(): None stands for its error, and for not returning. */
  ghost predicate IsBdecode(decode: string -> Option<Value>) {
    exists ints: Ints :: ReadsDecimals(ints) && Decides(decode, ints)
  }

  ghost predicate Decides(decode: string -> Option<Value>, ints: Ints) {
    forall x, v :: decode(x) == Some(v) <==> Accepts(ints, x, false, v)
  }

  /** Whatever int() reads besides decimal numbers, bdecode undoes bencode. */
  lemma Undone(decode: string -> Option<Value>, v: Value)
    requires IsBdecode(decode)
    ensures decode(Encode(v)) == Some(Normal(v))
  {
    var ints: Ints :| ReadsDecimals(ints) && Decides(decode, ints);
    AtIsSlice(Encode(v), 0, Encode(v));
    EncodingIsPlain(Encode(v), v);
    RoundTrip(v, "", false);
    assert Encode(v) + "" == Encode(v);
    AcceptsPlain(ints, Encode(v), false, Normal(v));
  }

  // ----- Odd numbers

  /** A key length of minus two: the value after it is read from inside the number. */
  lemma OddAccepted(ints: Ints)
    requires ReadsDecimals(ints)
    ensures var x, v := "d-2:abe", Dict(map["" := Str("ab")]);
            Accepts(ints, x, false, v) && ReadOddly(x) && DecodeValue(x, 0) == Bad(Odd("-2")) && Encode(v) == "d0:2:abe"
  {
    var x, v := "d-2:abe", Dict(map["" := Str("ab")]);
    OddKey(ints, x);
    OddEntries(ints, x);
    assert Accepted(RunValue(ints, x, 0, 2), |x|, false, v);
    OddEncoded(v);
  }

  /** The key is empty and ends before it has begun. */
  lemma OddKey(ints: Ints, x: string)
    requires ReadsDecimals(ints) && x == "d-2:abe"
    ensures RunString(ints, x, 1) == Returned("", 2) && RunString(ints, x, 2) == Returned("ab", 6)
    ensures DecodeString(x, 1) == Bad(Odd("-2"))
  {
    IndexIs(x, ':', 1, 3);
    IndexIs(x, ':', 2, 3);
    assert SliceOf(x, 1, 3) == "-2" && SliceOf(x, 2, 3) == "2" && x[1..3] == "-2";
    assert "-2"[1..] == "2" && Number("2", 1) == 10 * Number("2", 0) + 2;
    assert ints("-2") == ParseInt("-2") && ints("2") == ParseInt("2");
    assert SliceOf(x, 4, 2) == "" && SliceOf(x, 4, 6) == "ab";
  }

  lemma OddEntries(ints: Ints, x: string)
    requires x == "d-2:abe" && RunString(ints, x, 1) == Returned("", 2) && RunString(ints, x, 2) == Returned("ab", 6)
    ensures RunEntries(ints, x, 1, None, 2) == Returned(map["" := Str("ab")], 7)
  {
    assert RunValue(ints, x, 2, 1) == Returned(Str("ab"), 6);
    assert RunEntries(ints, x, 6, Some(""), 1) == Returned(map[], 7);
  }

  lemma OddEncoded(v: Value)
    requires v == Dict(map["" := Str("ab")])
    ensures Encode(v) == "d0:2:abe"
  {
    assert StrictlySorted([""]);
    SortedUnique([""], v.entries.Keys);
    assert EncodeString("") == "0:" && EncodeString("ab") == "2:ab";
    assert EncodeEntries(v, [""], 1) == "";
    assert EncodeEntries(v, [""], 0) == "0:" + "2:ab" + "";
  }

  /** A key length of minus four: the same dictionary is begun again and again. */
  lemma {:induction false} OddEndless(ints: Ints, fuel: nat)
    requires ReadsDecimals(ints)
    ensures RunValue(ints, "d-4:", 0, fuel) == Running
  {
    if fuel > 0 {
      OddEndless(ints, fuel - 1);
      BackAtStart(ints, "d-4:");
    }
  }

  lemma BackAtStart(ints: Ints, x: string)
    requires ReadsDecimals(ints) && x == "d-4:"
    ensures RunString(ints, x, 1) == Returned("", 0)
  {
    IndexIs(x, ':', 1, 3);
    assert SliceOf(x, 1, 3) == "-4" && "-4"[1..] == "4" && Number("4", 1) == 10 * Number("4", 0) + 4;
    assert ints("-4") == ParseInt("-4");
    assert SliceOf(x, 4, 0) == "";
  }
}
