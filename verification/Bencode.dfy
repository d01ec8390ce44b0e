/** Bencoding: writing values as bytes and reading them back. */
module Bencode {
  import opened Options
  import opened Text
  import opened Chunks

  /** The values of the program that have an encoding. */
  datatype Value =
    | Int(n: int)
    | Bool(b: bool)
    | Str(s: string)
    | List(items: seq<Value>)
    | Tuple(items: seq<Value>)
    | Dict(entries: map<string, Value>)

  /** What is left of a value on the other side: booleans are integers, tuples are lists. */
  function Normal(v: Value): Value {
    match v
    case Int(_) => v
    case Bool(b) => Int(if b then 1 else 0)
    case Str(_) => v
    case List(items) => List(seq(|items|, i requires 0 <= i < |items| => Normal(items[i])))
    case Tuple(items) => List(seq(|items|, i requires 0 <= i < |items| => Normal(items[i])))
    case Dict(entries) => Dict(map k | k in entries :: Normal(entries[k]))
  }

  // ----- Writing

  function EncodeInt(n: int): string {
    "i" + IntText(n) + "e"
  }

  function EncodeString(s: string): string {
    Digits(|s|) + ":" + s
  }

  function Encode(v: Value): (x: string)
    decreases v, 1, 0
  {
    match v
    case Int(n) => EncodeInt(n)
    case Bool(b) => EncodeInt(if b then 1 else 0)
    case Str(s) => EncodeString(s)
    case List(items) => "l" + EncodeItems(v, 0) + "e"
    case Tuple(items) => "l" + EncodeItems(v, 0) + "e"
    case Dict(entries) => "d" + EncodeEntries(v, SortedKeys(entries.Keys), 0) + "e"
  }

  predicate Sequence(v: Value) { v.List? || v.Tuple? }

  /** The items of a list from position i on. */
  function EncodeItems(v: Value, i: nat): string
    requires Sequence(v) && i <= |v.items|
    decreases v, 0, |v.items| - i
  {
    if i == |v.items| then "" else Encode(v.items[i]) + EncodeItems(v, i + 1)
  }

  predicate KeysOf(v: Value, keys: seq<string>) {
    v.Dict? && forall k :: k in keys ==> k in v.entries
  }

  /** The entries of a dictionary, in the order of a list of its keys from position i on. */
  function EncodeEntries(v: Value, keys: seq<string>, i: nat): string
    requires KeysOf(v, keys) && i <= |keys|
    decreases v, 0, |keys| - i
  {
    if i == |keys| then ""
    else EncodeString(keys[i]) + Encode(v.entries[keys[i]]) + EncodeEntries(v, keys, i + 1)
  }

  /** Encodings as they are written out. */
  lemma WrittenOut()
    ensures Encode(Int(4)) == "i4e" && Encode(Int(0)) == "i0e" && Encode(Int(-10)) == "i-10e"
    ensures Encode(Bool(true)) == "i1e" && Encode(Bool(false)) == "i0e"
    ensures Encode(Str("")) == "0:" && Encode(Str("abc")) == "3:abc" && Encode(Str("1234567890")) == "10:1234567890"
  {
    DigitsWrittenOut();
  }

  lemma DigitsWrittenOut()
    ensures Digits(0) == "0" && Digits(1) == "1" && Digits(2) == "2" && Digits(3) == "3" && Digits(4) == "4"
    ensures Digits(10) == "10"
  {
  }

  lemma ListsWrittenOut()
    ensures Encode(List([])) == Encode(Tuple([])) == "le" && Encode(List([Int(1), Int(2)])) == "li1ei2ee"
    ensures Encode(Tuple([Str("asd"), Str("xy")])) == "l3:asd2:xye"
  {
    var v, w := List([Int(1), Int(2)]), Tuple([Str("asd"), Str("xy")]);
    DigitsWrittenOut();
    assert EncodeItems(v, 2) == "" && EncodeItems(v, 1) == "i2e" && EncodeItems(v, 0) == "i1ei2e";
    assert EncodeItems(w, 2) == "" && EncodeItems(w, 1) == "2:xy" && EncodeItems(w, 0) == "3:asd2:xy";
  }

  lemma DictionaryWrittenOut()
    ensures Encode(Dict(map[])) == "de"
    ensures Encode(Dict(map["b" := Int(2), "a" := Str("x")])) == "d1:a1:x1:bi2ee"
  {
    var v := Dict(map["b" := Int(2), "a" := Str("x")]);
    KeysInOrder(v.entries);
    TwoEntries(v, ["a", "b"]);
  }

  lemma KeysInOrder(m: map<string, Value>)
    requires m == map["b" := Int(2), "a" := Str("x")]
    ensures SortedKeys(m.Keys) == ["a", "b"] && m["a"] == Str("x") && m["b"] == Int(2)
  {
    assert "a"[0] != "b"[0];
    assert m.Keys == {"a", "b"} && Less("a", "b");
    SortedUnique(["a", "b"], {"a", "b"});
  }

  lemma TwoEntries(v: Value, keys: seq<string>)
    requires keys == ["a", "b"] && KeysOf(v, keys) && v.entries["a"] == Str("x") && v.entries["b"] == Int(2)
    ensures EncodeEntries(v, keys, 0) == "1:a1:x1:bi2e"
  {
    DigitsWrittenOut();
    assert EncodeEntries(v, keys, 2) == "";
    assert EncodeEntries(v, keys, 1) == EncodeString("b") + Encode(Int(2)) + EncodeEntries(v, keys, 2);
    assert EncodeEntries(v, keys, 0) == EncodeString("a") + Encode(Str("x")) + EncodeEntries(v, keys, 1);
  }

  // ----- Reading

  /** Why a reading ends early: an exception, which bdecode turns into its one error; or a number that is
      not written plainly, which this reading does not take further. */
  datatype Stop = Refused | Odd(number: string)

  /** A value read and the offset to read next, which is past the end of the data after a truncated string. */
  datatype Parsed<+T> = Bad(why: Stop) | Got(value: T, next: nat)

  function DecodeInt(x: string, f: nat): (r: Parsed<int>)
    requires f < |x|
    ensures r.Got? ==> f + 2 < r.next <= |x|
  {
    var newf := IndexOf(x, 'e', f + 1);
    if newf == |x| then Bad(Refused)
    else
      var n := ParseInt(x[f + 1..newf]);
      if n.None? then Bad(Odd(x[f + 1..newf]))
      else if x[f + 1] == '-' then
        if x[f + 2] == '0' then Bad(Refused) else Got(n.value, newf + 1)
      else if x[f + 1] == '0' && newf != f + 2 then Bad(Refused)
      else Got(n.value, newf + 1)
  }

  /** x[i:j], which stops at the end of the data. */
  function Slice(x: string, i: nat, n: nat): string
    requires i <= |x|
  {
    if i + n <= |x| then x[i..i + n] else x[i..]
  }

  function DecodeString(x: string, f: nat): (r: Parsed<string>)
    requires f < |x|
    ensures r.Got? ==> f + 1 < r.next
  {
    var colon := IndexOf(x, ':', f);
    if colon == |x| then Bad(Refused)
    else
      var digits := x[f..colon];
      if |digits| == 0 || !AllDigits(digits) then Bad(Odd(digits))
      else if x[f] == '0' && colon != f + 1 then Bad(Refused)
      else
        var n := Number(digits, |digits|);
        Got(Slice(x, colon + 1, n), colon + 1 + n)
  }

  function Left(x: string, f: nat): nat {
    if f < |x| then |x| - f else 0
  }

  /** What decode_func finds under the byte at an offset. */
  function DecodeValue(x: string, f: nat): (r: Parsed<Value>)
    ensures r.Got? ==> f < |x| && f + 1 < r.next
    decreases Left(x, f), 0
  {
    if f >= |x| then Bad(Refused)
    else if x[f] == 'l' then
      match DecodeItems(x, f + 1)
      case Bad(why) => Bad(why)
      case Got(items, next) => Got(List(items), next)
    else if x[f] == 'd' then
      match DecodeEntries(x, f + 1, None)
      case Bad(why) => Bad(why)
      case Got(entries, next) => Got(Dict(entries), next)
    else if x[f] == 'i' then
      match DecodeInt(x, f)
      case Bad(why) => Bad(why)
      case Got(n, next) => Got(Int(n), next)
    else if IsDigit(x[f]) then
      match DecodeString(x, f)
      case Bad(why) => Bad(why)
      case Got(s, next) => Got(Str(s), next)
    else Bad(Refused)
  }

  /** The items of a list from an offset on, to its end. */
  function DecodeItems(x: string, f: nat): (r: Parsed<seq<Value>>)
    ensures r.Got? ==> f < r.next <= |x|
    decreases Left(x, f), 1
  {
    if f >= |x| then Bad(Refused)
    else if x[f] == 'e' then Got([], f + 1)
    else
      match DecodeValue(x, f)
      case Bad(why) => Bad(why)
      case Got(v, next) =>
        match DecodeItems(x, next)
        case Bad(why) => Bad(why)
        case Got(rest, end) => Got([v] + rest, end)
  }

  predicate After(last: Option<string>, k: string) {
    last.Some? ==> Less(last.value, k)
  }

  /** The entries of a dictionary from an offset on, to its end, all after the last key read. */
  function DecodeEntries(x: string, f: nat, last: Option<string>): (r: Parsed<map<string, Value>>)
    ensures r.Got? ==> f < r.next <= |x|
    decreases Left(x, f), 1
  {
    if f >= |x| then Bad(Refused)
    else if x[f] == 'e' then Got(map[], f + 1)
    else
      match DecodeString(x, f)
      case Bad(why) => Bad(why)
      case Got(k, at) =>
        if !After(last, k) then Bad(Refused)
        else
          match DecodeValue(x, at)
          case Bad(why) => Bad(why)
          case Got(v, next) =>
            match DecodeEntries(x, next, Some(k))
            case Bad(why) => Bad(why)
            case Got(rest, end) => Got(rest[k := v], end)
  }

  /** The value of data in which every number is written plainly: all of the data has to be used, unless
      the caller is sloppy. */
  function Bdecode(x: string, sloppy: bool): Option<Value> {
    match DecodeValue(x, 0)
    case Bad(_) => None
    case Got(v, next) => if sloppy || next == |x| then Some(v) else None
  }

  /** Some number that is read is not written plainly: an integer that is no decimal number, or a length
      that is not written in digits alone. */
  predicate ReadOddly(x: string) {
    DecodeValue(x, 0).Bad? && DecodeValue(x, 0).why.Odd?
  }

  // ----- An encoding is read back wherever it stands

  lemma IndexIs(x: string, c: char, f: nat, i: nat)
    requires f <= i < |x| && x[i] == c && forall j :: f <= j < i ==> x[j] != c
    ensures IndexOf(x, c, f) == i
  {
  }

  lemma IntAt(x: string, f: nat, n: int)
    requires At(x, f, EncodeInt(n))
    ensures DecodeInt(x, f) == Got(n, f + |EncodeInt(n)|)
  {
    var s := IntText(n);
    IntTextRead(n);
    AtConcat(x, f, "i" + s, "e");
    AtConcat(x, f, "i", s);
    AtIsSlice(x, f + 1, s);
    AtByte(x, f + 1 + |s|, "e");
    IndexIs(x, 'e', f + 1, f + 1 + |s|);
  }

  lemma StringAt(x: string, f: nat, s: string)
    requires At(x, f, EncodeString(s))
    ensures DecodeString(x, f) == Got(s, f + |EncodeString(s)|)
  {
    var d := Digits(|s|);
    DigitsRead(|s|);
    AtConcat(x, f, d + ":", s);
    AtConcat(x, f, d, ":");
    LengthAt(x, f, d, s);
  }

  /** Digits and a colon are read as the length of what follows. */
  lemma LengthAt(x: string, f: nat, d: string, s: string)
    requires At(x, f, d) && At(x, f + |d|, ":") && At(x, f + |d| + 1, s) && Plain(d) && Number(d, |d|) == |s|
    ensures DecodeString(x, f) == Got(s, f + |d| + 1 + |s|)
  {
    AtIsSlice(x, f, d);
    AtIsSlice(x, f + |d| + 1, s);
    ColonAfter(x, f, d);
    LengthRead(x, f, d, |s|);
  }

  lemma ColonAfter(x: string, f: nat, d: string)
    requires At(x, f, d) && At(x, f + |d|, ":") && AllDigits(d)
    ensures f + |d| < |x| && IndexOf(x, ':', f) == f + |d|
  {
    AtByte(x, f + |d|, ":");
    forall j | f <= j < f + |d| ensures x[j] != ':' { assert x[j] == d[j - f]; }
    IndexIs(x, ':', f, f + |d|);
  }

  lemma LengthRead(x: string, f: nat, d: string, n: nat)
    requires f + |d| < |x| && IndexOf(x, ':', f) == f + |d| && x[f..f + |d|] == d && Plain(d) && Number(d, |d|) == n
    ensures DecodeString(x, f) == Got(Slice(x, f + |d| + 1, n), f + |d| + 1 + n)
  {
    assert x[f] == d[0];
  }

  /** Nothing that starts a value ends a list. */
  lemma FirstByte(v: Value)
    ensures |Encode(v)| > 0 && Encode(v)[0] != 'e'
    ensures Sequence(v) ==> Encode(v)[0] == 'l'
    ensures v.Dict? ==> Encode(v)[0] == 'd'
  {
    if v.Str? { DigitsRead(|v.s|); }
  }

  ghost function NormalItems(v: Value, i: nat): seq<Value>
    requires Sequence(v) && i <= |v.items|
  {
    Normal(v).items[i..]
  }

  ghost function NormalEntries(v: Value, keys: seq<string>, i: nat): map<string, Value>
    requires KeysOf(v, keys) && i <= |keys|
    decreases |keys| - i
  {
    if i == |keys| then map[] else NormalEntries(v, keys, i + 1)[keys[i] := Normal(v.entries[keys[i]])]
  }

  lemma {:induction false} NormalEntriesAll(v: Value, keys: seq<string>, i: nat)
    requires KeysOf(v, keys) && i <= |keys|
    ensures forall k :: k in NormalEntries(v, keys, i) <==> k in keys[i..]
    ensures forall k :: k in NormalEntries(v, keys, i) ==>
              k in v.entries && NormalEntries(v, keys, i)[k] == Normal(v.entries[k])
    decreases |keys| - i
  {
    if i < |keys| {
      NormalEntriesAll(v, keys, i + 1);
      assert keys[i..] == [keys[i]] + keys[i + 1..];
    }
  }

  /** Reading the encoding of a value, followed by anything, stops exactly at its end. */
  lemma {:induction false} ValueAt(x: string, f: nat, v: Value)
    requires At(x, f, Encode(v))
    ensures DecodeValue(x, f) == Got(Normal(v), f + |Encode(v)|)
    decreases v, 2
  {
    FirstByte(v);
    AtByte(x, f, Encode(v));
    match v
    case Int(n) => IntAt(x, f, n);
    case Bool(b) => IntAt(x, f, if b then 1 else 0);
    case Str(s) =>
      DigitsRead(|s|);
      StringAt(x, f, s);
    case List(_) => SequenceAt(x, f, v);
    case Tuple(_) => SequenceAt(x, f, v);
    case Dict(_) => DictionaryAt(x, f, v);
  }

  lemma {:induction false} DictionaryAt(x: string, f: nat, v: Value)
    requires v.Dict? && At(x, f, Encode(v)) && f < |x| && x[f] == 'd'
    ensures DecodeValue(x, f) == Got(Normal(v), f + |Encode(v)|)
    decreases v, 1
  {
    var keys := SortedKeys(v.entries.Keys);
    var inner := EncodeEntries(v, keys, 0) + "e";
    AtConcat(x, f, "d", inner);
    assert "d" + inner == Encode(v);
    EntriesAt(x, f + 1, v, keys, 0);
    NormalEntriesAll(v, keys, 0);
    assert keys[0..] == keys;
    assert NormalEntries(v, keys, 0) == Normal(v).entries;
  }

  lemma {:induction false} SequenceAt(x: string, f: nat, v: Value)
    requires Sequence(v) && At(x, f, Encode(v)) && f < |x| && x[f] == 'l'
    ensures DecodeValue(x, f) == Got(Normal(v), f + |Encode(v)|)
    decreases v, 1
  {
    AtConcat(x, f, "l", EncodeItems(v, 0) + "e");
    assert "l" + (EncodeItems(v, 0) + "e") == Encode(v);
    ItemsAt(x, f + 1, v, 0);
    assert NormalItems(v, 0) == Normal(v).items;
  }

  lemma ItemsSplit(v: Value, i: nat)
    requires Sequence(v) && i < |v.items|
    ensures EncodeItems(v, i) + "e" == Encode(v.items[i]) + (EncodeItems(v, i + 1) + "e")
    ensures NormalItems(v, i) == [Normal(v.items[i])] + NormalItems(v, i + 1)
  {
  }

  lemma ItemRead(x: string, f: nat, v: Value, next: nat, rest: seq<Value>, end: nat)
    requires f < |x| && x[f] != 'e' && DecodeValue(x, f) == Got(v, next) && DecodeItems(x, next) == Got(rest, end)
    ensures DecodeItems(x, f) == Got([v] + rest, end)
  {
  }

  /** The items of v from position i on are read at an offset. */
  ghost predicate ItemsRead(x: string, f: nat, v: Value, i: nat)
    requires Sequence(v) && i <= |v.items|
  {
    DecodeItems(x, f) == Got(NormalItems(v, i), f + |EncodeItems(v, i)| + 1)
  }

  lemma LastItem(x: string, f: nat, v: Value)
    requires Sequence(v) && At(x, f, EncodeItems(v, |v.items|) + "e")
    ensures ItemsRead(x, f, v, |v.items|)
  {
    assert EncodeItems(v, |v.items|) + "e" == "e";
    assert NormalItems(v, |v.items|) == [];
    AtByte(x, f, "e");
  }

  /** Where the parts of an item stand. */
  lemma ItemAt(x: string, f: nat, v: Value, i: nat) returns (next: nat)
    requires Sequence(v) && i < |v.items| && At(x, f, EncodeItems(v, i) + "e")
    ensures f < |x| && x[f] != 'e' && At(x, f, Encode(v.items[i])) && next == f + |Encode(v.items[i])|
    ensures At(x, next, EncodeItems(v, i + 1) + "e")
    ensures next + |EncodeItems(v, i + 1)| == f + |EncodeItems(v, i)|
  {
    ItemsSplit(v, i);
    FirstByte(v.items[i]);
    FirstPart(x, f, Encode(v.items[i]), EncodeItems(v, i + 1) + "e");
    next := f + |Encode(v.items[i])|;
  }

  lemma FirstPart(x: string, f: nat, a: string, b: string)
    requires At(x, f, a + b) && |a| > 0
    ensures At(x, f, a) && At(x, f + |a|, b) && f < |x| && x[f] == a[0]
  {
    AtConcat(x, f, a, b);
    AtByte(x, f, a);
  }

  lemma ItemThenItems(x: string, f: nat, v: Value, i: nat, next: nat)
    requires Sequence(v) && i < |v.items| && f < |x| && x[f] != 'e'
    requires DecodeValue(x, f) == Got(Normal(v.items[i]), next) && ItemsRead(x, next, v, i + 1)
    requires next + |EncodeItems(v, i + 1)| == f + |EncodeItems(v, i)|
    ensures ItemsRead(x, f, v, i)
  {
    ItemsSplit(v, i);
    ItemRead(x, f, Normal(v.items[i]), next, NormalItems(v, i + 1), next + |EncodeItems(v, i + 1)| + 1);
  }

  lemma {:induction false} ItemsAt(x: string, f: nat, v: Value, i: nat)
    requires Sequence(v) && i <= |v.items| && At(x, f, EncodeItems(v, i) + "e")
    ensures ItemsRead(x, f, v, i)
    decreases v, 0, |v.items| - i
  {
    if i == |v.items| {
      LastItem(x, f, v);
    } else {
      var next := ItemAt(x, f, v, i);
      ValueAt(x, f, v.items[i]);
      ItemsAt(x, next, v, i + 1);
      ItemThenItems(x, f, v, i, next);
    }
  }

  lemma EntriesSplit(v: Value, keys: seq<string>, i: nat)
    requires KeysOf(v, keys) && i < |keys|
    ensures EncodeEntries(v, keys, i) + "e"
            == EncodeString(keys[i]) + (Encode(v.entries[keys[i]]) + (EncodeEntries(v, keys, i + 1) + "e"))
    ensures NormalEntries(v, keys, i) == NormalEntries(v, keys, i + 1)[keys[i] := Normal(v.entries[keys[i]])]
  {
  }

  lemma EntryRead(x: string, f: nat, last: Option<string>, k: string, at: nat, v: Value, next: nat,
                  rest: map<string, Value>, end: nat)
    requires f < |x| && x[f] != 'e' && DecodeString(x, f) == Got(k, at) && After(last, k)
    requires DecodeValue(x, at) == Got(v, next) && DecodeEntries(x, next, Some(k)) == Got(rest, end)
    ensures DecodeEntries(x, f, last) == Got(rest[k := v], end)
  {
  }

  /** Where the parts of an entry stand. */
  lemma EntryAt(x: string, f: nat, v: Value, keys: seq<string>, i: nat) returns (at: nat, next: nat)
    requires KeysOf(v, keys) && i < |keys| && At(x, f, EncodeEntries(v, keys, i) + "e")
    ensures f < |x| && x[f] != 'e' && At(x, f, EncodeString(keys[i])) && at == f + |EncodeString(keys[i])|
    ensures At(x, at, Encode(v.entries[keys[i]])) && next == at + |Encode(v.entries[keys[i]])|
    ensures At(x, next, EncodeEntries(v, keys, i + 1) + "e")
    ensures next + |EncodeEntries(v, keys, i + 1)| == f + |EncodeEntries(v, keys, i)|
  {
    var a, b, c := EncodeString(keys[i]), Encode(v.entries[keys[i]]), EncodeEntries(v, keys, i + 1) + "e";
    at := f + |a|;
    next := at + |b|;
    EntriesSplit(v, keys, i);
    AtConcat(x, f, a, b + c);
    AtConcat(x, at, b, c);
    StringFirst(keys[i]);
    AtByte(x, f, a);
  }

  function LastOf(keys: seq<string>, i: nat): Option<string>
    requires i <= |keys|
  {
    if i == 0 then None else Some(keys[i - 1])
  }

  /** The entries of v from key number i on are read at an offset. */
  ghost predicate EntriesRead(x: string, f: nat, v: Value, keys: seq<string>, i: nat)
    requires KeysOf(v, keys) && i <= |keys|
  {
    DecodeEntries(x, f, LastOf(keys, i)) == Got(NormalEntries(v, keys, i), f + |EncodeEntries(v, keys, i)| + 1)
  }

  lemma LastEntry(x: string, f: nat, v: Value, keys: seq<string>)
    requires KeysOf(v, keys) && At(x, f, EncodeEntries(v, keys, |keys|) + "e")
    ensures EntriesRead(x, f, v, keys, |keys|)
  {
    assert EncodeEntries(v, keys, |keys|) + "e" == "e";
    AtByte(x, f, "e");
  }

  lemma EntryThenEntries(x: string, f: nat, v: Value, keys: seq<string>, i: nat, at: nat, next: nat)
    requires KeysOf(v, keys) && StrictlySorted(keys) && i < |keys| && f < |x| && x[f] != 'e'
    requires DecodeString(x, f) == Got(keys[i], at) && DecodeValue(x, at) == Got(Normal(v.entries[keys[i]]), next)
    requires EntriesRead(x, next, v, keys, i + 1)
    requires next + |EncodeEntries(v, keys, i + 1)| == f + |EncodeEntries(v, keys, i)|
    ensures EntriesRead(x, f, v, keys, i)
  {
    EntriesSplit(v, keys, i);
    EntryRead(x, f, LastOf(keys, i), keys[i], at, Normal(v.entries[keys[i]]), next,
              NormalEntries(v, keys, i + 1), next + |EncodeEntries(v, keys, i + 1)| + 1);
  }

  lemma {:induction false} EntriesAt(x: string, f: nat, v: Value, keys: seq<string>, i: nat)
    requires KeysOf(v, keys) && StrictlySorted(keys) && i <= |keys| && At(x, f, EncodeEntries(v, keys, i) + "e")
    ensures EntriesRead(x, f, v, keys, i)
    decreases v, 0, |keys| - i
  {
    if i == |keys| {
      LastEntry(x, f, v, keys);
    } else {
      var at, next := EntryAt(x, f, v, keys, i);
      StringAt(x, f, keys[i]);
      ValueAt(x, at, v.entries[keys[i]]);
      EntriesAt(x, next, v, keys, i + 1);
      EntryThenEntries(x, f, v, keys, i, at, next);
    }
  }

  lemma StringFirst(s: string)
    ensures |EncodeString(s)| > 0 && EncodeString(s)[0] != 'e'
  {
    DigitsRead(|s|);
  }

  // ----- What is read is what was written

  lemma IntCanonical(x: string, f: nat)
    requires f < |x| && x[f] == 'i' && DecodeInt(x, f).Got?
    ensures At(x, f, EncodeInt(DecodeInt(x, f).value)) && DecodeInt(x, f).next == f + |EncodeInt(DecodeInt(x, f).value)|
  {
    var newf := IndexOf(x, 'e', f + 1);
    var s := x[f + 1..newf];
    assert s[0] == x[f + 1];
    assert |s| > 1 ==> s[1] == x[f + 2];
    IntTextWritten(s);
    AtConcat(x, f, "i" + s, "e");
    AtConcat(x, f, "i", s);
  }

  lemma StringCanonical(x: string, f: nat)
    requires f < |x| && DecodeString(x, f).Got? && DecodeString(x, f).next <= |x|
    ensures At(x, f, EncodeString(DecodeString(x, f).value))
            && DecodeString(x, f).next == f + |EncodeString(DecodeString(x, f).value)|
  {
    var colon := IndexOf(x, ':', f);
    var digits := x[f..colon];
    assert digits[0] == x[f];
    NumberWrites(digits, |digits|);
    assert digits[..|digits|] == digits;
    var s := DecodeString(x, f).value;
    assert Digits(|s|) == digits;
    AtIsSlice(x, colon + 1, s);
    AtConcat(x, f, digits + ":", s);
    AtConcat(x, f, digits, ":");
  }

  /** A value read in full stands in the data as its own encoding. */
  lemma {:induction false} ValueCanonical(x: string, f: nat)
    requires DecodeValue(x, f).Got? && DecodeValue(x, f).next <= |x|
    ensures At(x, f, Encode(DecodeValue(x, f).value)) && DecodeValue(x, f).next == f + |Encode(DecodeValue(x, f).value)|
    decreases Left(x, f), 0
  {
    var v := DecodeValue(x, f).value;
    if x[f] == 'l' {
      ItemsCanonical(x, f + 1, v, 0);
      ListOpened(x, f, v);
    } else if x[f] == 'd' {
      var keys := EntriesCanonical(x, f + 1, None);
      DictionaryOpened(x, f, v, keys);
    } else if x[f] == 'i' {
      IntCanonical(x, f);
    } else {
      StringCanonical(x, f);
    }
  }

  lemma ListOpened(x: string, f: nat, v: Value)
    requires v.List? && f < |x| && x[f] == 'l' && At(x, f + 1, EncodeItems(v, 0) + "e")
    ensures At(x, f, Encode(v)) && |Encode(v)| == |EncodeItems(v, 0)| + 2
  {
    AtConcat(x, f, "l", EncodeItems(v, 0) + "e");
    assert "l" + (EncodeItems(v, 0) + "e") == Encode(v);
  }

  lemma DictionaryOpened(x: string, f: nat, v: Value, keys: seq<string>)
    requires v.Dict? && f < |x| && x[f] == 'd' && StrictlySorted(keys) && forall k :: k in keys <==> k in v.entries
    requires At(x, f + 1, EncodeEntries(v, keys, 0) + "e")
    ensures At(x, f, Encode(v)) && |Encode(v)| == |EncodeEntries(v, keys, 0)| + 2
  {
    SortedUnique(keys, v.entries.Keys);
    AtConcat(x, f, "d", EncodeEntries(v, keys, 0) + "e");
    assert "d" + (EncodeEntries(v, keys, 0) + "e") == Encode(v);
  }

  lemma {:induction false} ItemsCanonical(x: string, f: nat, v: Value, i: nat)
    requires v.List? && i <= |v.items| && DecodeItems(x, f).Got? && DecodeItems(x, f).value == v.items[i..]
    ensures At(x, f, EncodeItems(v, i) + "e") && DecodeItems(x, f).next == f + |EncodeItems(v, i)| + 1
    decreases Left(x, f), 1
  {
    if x[f] == 'e' {
      assert EncodeItems(v, i) + "e" == "e";
    } else {
      var Got(w, next) := DecodeValue(x, f);
      assert v.items[i] == w;
      assert v.items[i + 1..] == v.items[i..][1..];
      ItemsEndInside(x, next);
      ValueCanonical(x, f);
      ItemsCanonical(x, next, v, i + 1);
      AtConcat(x, f, Encode(w), EncodeItems(v, i + 1) + "e");
      assert EncodeItems(v, i) + "e" == Encode(w) + (EncodeItems(v, i + 1) + "e");
    }
  }

  lemma ItemsEndInside(x: string, f: nat)
    requires DecodeItems(x, f).Got?
    ensures f < |x|
  {
  }

  /** The same entries after a first one. */
  lemma {:induction false} EntriesShift(v: Value, keys: seq<string>, i: nat, v': Value, keys': seq<string>)
    requires KeysOf(v, keys) && KeysOf(v', keys') && |keys'| == |keys| + 1 && i <= |keys|
    requires forall j :: i <= j < |keys| ==> keys'[j + 1] == keys[j] && v'.entries[keys[j]] == v.entries[keys[j]]
    ensures EncodeEntries(v', keys', i + 1) == EncodeEntries(v, keys, i)
    decreases |keys| - i
  {
    if i < |keys| {
      EntriesShift(v, keys, i + 1, v', keys');
    }
  }

  lemma {:induction false} EntriesCanonical(x: string, f: nat, last: Option<string>) returns (keys: seq<string>)
    requires DecodeEntries(x, f, last).Got?
    ensures StrictlySorted(keys) && forall k :: k in keys ==> After(last, k)
    ensures var Got(m, next) := DecodeEntries(x, f, last);
            && (forall k :: k in keys <==> k in m)
            && At(x, f, EncodeEntries(Dict(m), keys, 0) + "e")
            && next == f + |EncodeEntries(Dict(m), keys, 0)| + 1
    decreases Left(x, f), 1
  {
    if x[f] == 'e' {
      keys := [];
      assert EncodeEntries(Dict(map[]), keys, 0) + "e" == "e";
    } else {
      var Got(k, at) := DecodeString(x, f);
      var Got(v, next) := DecodeValue(x, at);
      var Got(rest, end) := DecodeEntries(x, next, Some(k));
      StringCanonical(x, f);
      ValueCanonical(x, at);
      var tail := EntriesCanonical(x, next, Some(k));
      keys := [k] + tail;
      KeysExtended(k, tail, last);
      EntriesExtended(x, f, k, at, v, next, rest, tail);
      EntryRead(x, f, last, k, at, v, next, rest, end);
    }
  }

  lemma KeysExtended(k: string, tail: seq<string>, last: Option<string>)
    requires StrictlySorted(tail) && (forall l :: l in tail ==> Less(k, l)) && After(last, k)
    ensures StrictlySorted([k] + tail) && (forall l :: l in [k] + tail ==> After(last, l)) && k !in tail
  {
    var keys := [k] + tail;
    forall i, j | 0 <= i < j < |keys| ensures Less(keys[i], keys[j]) {
      assert keys[j] == tail[j - 1] && tail[j - 1] in tail;
      if i > 0 { assert keys[i] == tail[i - 1]; }
    }
    forall l | l in keys ensures After(last, l) {
      if last.Some? && l != k { LessTransitive(last.value, k, l); }
    }
    LessIrreflexive(k);
  }

  lemma EntriesExtended(x: string, f: nat, k: string, at: nat, v: Value, next: nat, rest: map<string, Value>,
                        tail: seq<string>)
    requires (forall l :: l in tail <==> l in rest) && k !in tail
    requires At(x, f, EncodeString(k)) && at == f + |EncodeString(k)|
    requires At(x, at, Encode(v)) && next == at + |Encode(v)|
    requires At(x, next, EncodeEntries(Dict(rest), tail, 0) + "e")
    ensures var d, keys := Dict(rest[k := v]), [k] + tail;
            && KeysOf(d, keys)
            && (forall l :: l in keys <==> l in d.entries)
            && At(x, f, EncodeEntries(d, keys, 0) + "e")
            && f + |EncodeEntries(d, keys, 0)| == next + |EncodeEntries(Dict(rest), tail, 0)|
  {
    var a, b, c := EncodeString(k), Encode(v), EncodeEntries(Dict(rest), tail, 0) + "e";
    AtConcat(x, at, b, c);
    AtConcat(x, f, a, b + c);
    EntriesPrepended(k, v, rest, tail);
  }

  lemma EntriesPrepended(k: string, v: Value, rest: map<string, Value>, tail: seq<string>)
    requires (forall l :: l in tail <==> l in rest) && k !in tail
    ensures var d, keys := Dict(rest[k := v]), [k] + tail;
            && KeysOf(d, keys)
            && EncodeEntries(d, keys, 0) + "e" == EncodeString(k)
               + (Encode(v) + (EncodeEntries(Dict(rest), tail, 0) + "e"))
  {
    var d, keys := Dict(rest[k := v]), [k] + tail;
    forall j | 0 <= j < |tail| ensures keys[j + 1] == tail[j] && d.entries[tail[j]] == rest[tail[j]] {
      assert tail[j] in tail;
    }
    EntriesShift(Dict(rest), tail, 0, d, keys);
    EntriesSplit(d, keys, 0);
  }

  // ----- The two directions together

  /** bdecode undoes bencode, whatever follows the encoding if the caller is sloppy. */
  lemma RoundTrip(v: Value, suffix: string, sloppy: bool)
    ensures Bdecode(Encode(v) + suffix, sloppy) == if sloppy || suffix == "" then Some(Normal(v)) else None
  {
    AtConcat(Encode(v) + suffix, 0, Encode(v), suffix);
    AtIsSlice(Encode(v) + suffix, 0, Encode(v) + suffix);
    ValueAt(Encode(v) + suffix, 0, v);
  }

  /** No encoding is a proper prefix of another, and an encoding stands for one value. */
  lemma PrefixFree(v: Value, w: Value, s: string, t: string)
    requires Encode(v) + s == Encode(w) + t
    ensures Normal(v) == Normal(w) && Encode(v) == Encode(w) && s == t
  {
    RoundTrip(v, s, true);
    RoundTrip(w, t, true);
    var x := Encode(v) + s;
    AtIsSlice(x, 0, Encode(v));
    AtIsSlice(x, 0, Encode(w));
    ValueAt(x, 0, v);
    ValueAt(x, 0, w);
    assert x[|Encode(v)|..] == s && x[|Encode(w)|..] == t;
    assert x[..|Encode(v)|] == Encode(v) && x[..|Encode(w)|] == Encode(w);
  }

  /** Of data in which every number is written plainly, exactly the encodings are accepted. */
  lemma PlainCanonical(x: string, v: Value)
    ensures Bdecode(x, false) == Some(v) <==> x == Encode(v) && v == Normal(v)
  {
    if Bdecode(x, false) == Some(v) {
      ValueCanonical(x, 0);
      AtIsSlice(x, 0, Encode(v));
      assert x[0..|x|] == x;
      RoundTrip(v, "", false);
      assert Encode(v) + "" == Encode(v);
    }
    if x == Encode(v) && v == Normal(v) {
      RoundTrip(v, "", false);
      assert Encode(v) + "" == Encode(v);
    }
  }

  /** A sloppy caller accepts besides: an encoding with anything after it, and a string cut short. */
  lemma PlainSloppy(x: string, v: Value)
    ensures Bdecode(x, true) == Some(v) <==>
              || (v == Normal(v) && At(x, 0, Encode(v)))
              || (v.Str? && exists n: nat :: n > |v.s| && x == Digits(n) + ":" + v.s)
  {
    if Bdecode(x, true) == Some(v) {
      if DecodeValue(x, 0).next <= |x| {
        ValueCanonical(x, 0);
        ValueAt(x, 0, v);
      } else {
        CutShort(x);
      }
    }
    if v == Normal(v) && At(x, 0, Encode(v)) {
      ValueAt(x, 0, v);
    }
    if v.Str? {
      forall n: nat | n > |v.s| && x == Digits(n) + ":" + v.s ensures Bdecode(x, true) == Some(v) {
        CutShortRead(x, n, v.s);
      }
    }
  }

  /** Only a string at the top reaches beyond the data. */
  lemma CutShort(x: string)
    requires DecodeValue(x, 0).Got? && DecodeValue(x, 0).next > |x|
    ensures var v := DecodeValue(x, 0).value;
            v.Str? && exists n: nat :: n > |v.s| && x == Digits(n) + ":" + v.s
  {
    var colon := IndexOf(x, ':', 0);
    var digits := x[0..colon];
    assert digits[0] == x[0];
    NumberWrites(digits, |digits|);
    assert digits[..|digits|] == digits;
    var n := Number(digits, |digits|);
    var s := DecodeValue(x, 0).value.s;
    assert x == digits + ":" + s;
    assert n > |s|;
  }

  lemma CutShortRead(x: string, n: nat, s: string)
    requires n > |s| && x == Digits(n) + ":" + s
    ensures Bdecode(x, true) == Some(Str(s))
  {
    var d := Digits(n);
    DigitsRead(n);
    assert x[0] == d[0] && x[|d|] == ':';
    assert forall j :: 0 <= j < |d| ==> x[j] == d[j];
    IndexIs(x, ':', 0, |d|);
    assert x[0..|d|] == d;
    assert x[|d| + 1..] == s;
  }

  // ----- The loops

  /** decode_list after its 'l': a value at a time until the 'e'. */
  method DecodeList(x: string, start: nat) returns (r: Parsed<seq<Value>>)
    ensures r == DecodeItems(x, start)
  {
    var items: seq<Value>, f: nat := [], start;
    ContinuedEnds([], DecodeItems(x, start), 0);
    while f < |x| && x[f] != 'e'
      invariant DecodeItems(x, start) == Continued(items, DecodeItems(x, f))
      decreases Left(x, f)
    {
      var v := DecodeValue(x, f);
      if v.Bad? {
        return Bad(v.why);
      }
      ItemTaken(x, f, items, v.value, v.next);
      items, f := items + [v.value], v.next;
    }
    if f >= |x| {
      return Bad(Refused);
    }
    ContinuedEnds(items, Bad(Refused), f + 1);
    return Got(items, f + 1);
  }

  function Continued(items: seq<Value>, r: Parsed<seq<Value>>): Parsed<seq<Value>> {
    if r.Bad? then r else Got(items + r.value, r.next)
  }

  lemma ContinuedEnds(items: seq<Value>, r: Parsed<seq<Value>>, f: nat)
    ensures Continued([], r) == r
    ensures Continued(items, Got([], f)) == Got(items, f)
  {
    if r.Got? { assert [] + r.value == r.value; }
    assert items + [] == items;
  }

  lemma ItemTaken(x: string, f: nat, items: seq<Value>, v: Value, next: nat)
    requires f < |x| && x[f] != 'e' && DecodeValue(x, f) == Got(v, next)
    ensures Continued(items, DecodeItems(x, f)) == Continued(items + [v], DecodeItems(x, next))
  {
    var rest := DecodeItems(x, next);
    if rest.Got? {
      assert items + ([v] + rest.value) == items + [v] + rest.value;
    }
  }

  /** decode_dict after its 'd': a key and a value at a time until the 'e'. */
  method DecodeDict(x: string, start: nat) returns (r: Parsed<map<string, Value>>)
    ensures r == DecodeEntries(x, start, None)
  {
    var entries: map<string, Value>, f: nat, lastkey: Option<string> := map[], start, None;
    JoinedEnds(map[], DecodeEntries(x, start, None), 0);
    while f < |x| && x[f] != 'e'
      invariant DecodeEntries(x, start, None) == Joined(entries, DecodeEntries(x, f, lastkey))
      decreases Left(x, f)
    {
      var k := DecodeString(x, f);
      if k.Bad? {
        return Bad(k.why);
      }
      if !After(lastkey, k.value) {
        return Bad(Refused);
      }
      var v := DecodeValue(x, k.next);
      if v.Bad? {
        return Bad(v.why);
      }
      EntryTaken(x, f, lastkey, entries, k.value, k.next, v.value, v.next);
      entries, f, lastkey := entries[k.value := v.value], v.next, Some(k.value);
    }
    if f >= |x| {
      return Bad(Refused);
    }
    JoinedEnds(entries, Bad(Refused), f + 1);
    return Got(entries, f + 1);
  }

  function Joined(entries: map<string, Value>, r: Parsed<map<string, Value>>): Parsed<map<string, Value>> {
    if r.Bad? then r else Got(entries + r.value, r.next)
  }

  lemma JoinedEnds(entries: map<string, Value>, r: Parsed<map<string, Value>>, f: nat)
    ensures Joined(map[], r) == r
    ensures Joined(entries, Got(map[], f)) == Got(entries, f)
  {
    if r.Got? { assert map[] + r.value == r.value; }
    assert entries + map[] == entries;
  }

  lemma EntryTaken(x: string, f: nat, last: Option<string>, entries: map<string, Value>, k: string, at: nat,
                   v: Value, next: nat)
    requires f < |x| && x[f] != 'e' && DecodeString(x, f) == Got(k, at) && After(last, k)
             && DecodeValue(x, at) == Got(v, next)
    ensures Joined(entries, DecodeEntries(x, f, last)) == Joined(entries[k := v], DecodeEntries(x, next, Some(k)))
  {
    var rest := DecodeEntries(x, next, Some(k));
    if rest.Got? {
      var keys := EntriesCanonical(x, next, Some(k));
      LessIrreflexive(k);
      assert k !in rest.value;
      assert entries + rest.value[k := v] == entries[k := v] + rest.value;
    }
  }

  lemma JoinPieces(r: seq<string>, a: string, b: string, c: string)
    ensures Bytes(r + [a]) == Bytes(r) + a
    ensures Bytes(r + [a, b, c]) == Bytes(r) + (a + b + c)
  {
    OneChunk(a);
    BytesAppend(r, [a]);
    BytesAppend(r, [a, b, c]);
    assert [a, b, c][1..] == [b, c] && [b, c][1..] == [c];
    OneChunk(c);
    assert a + (b + c) == a + b + c;
  }

  /** The function that encode_func names for a value: it appends to the pieces. */
  method EncodeInto(v: Value, r: seq<string>) returns (r': seq<string>)
    ensures Bytes(r') == Bytes(r) + Encode(v)
    decreases v, 2
  {
    match v
    case Int(n) =>
      JoinPieces(r, "i", IntText(n), "e");
      r' := r + ["i", IntText(n), "e"];
    case Bool(b) =>
      var n := if b then 1 else 0;
      JoinPieces(r, "i", IntText(n), "e");
      r' := r + ["i", IntText(n), "e"];
    case Str(s) =>
      JoinPieces(r, Digits(|s|), ":", s);
      r' := r + [Digits(|s|), ":", s];
    case List(_) => r' := EncodeSequence(v, r);
    case Tuple(_) => r' := EncodeSequence(v, r);
    case Dict(_) => r' := EncodeDict(v, r);
  }

  method EncodeItem(v: Value, i: nat, r: seq<string>, ghost goal: string) returns (r': seq<string>)
    requires Sequence(v) && i < |v.items| && Bytes(r) + EncodeItems(v, i) == goal
    ensures Bytes(r') + EncodeItems(v, i + 1) == goal
    decreases v, 0
  {
    r' := EncodeInto(v.items[i], r);
    Associate(Bytes(r), Encode(v.items[i]), EncodeItems(v, i + 1));
  }

  lemma Associate(a: string, b: string, c: string)
    ensures a + (b + c) == a + b + c
  {
  }

  lemma Enclosed(v: Value, a: string, b: string, keys: seq<string>)
    ensures Sequence(v) && b == EncodeItems(v, 0) ==> a + "l" + b + "e" == a + Encode(v)
    ensures v.Dict? && keys == SortedKeys(v.entries.Keys) && b == EncodeEntries(v, keys, 0) ==>
            a + "d" + b + "e" == a + Encode(v)
  {
    assert a + "l" + b + "e" == a + ("l" + b + "e");
    assert a + "d" + b + "e" == a + ("d" + b + "e");
  }

  method EncodeSequence(v: Value, r: seq<string>) returns (r': seq<string>)
    requires Sequence(v)
    ensures Bytes(r') == Bytes(r) + Encode(v)
    decreases v, 1
  {
    ghost var goal := Bytes(r) + "l" + EncodeItems(v, 0);
    JoinPieces(r, "l", "", "");
    r' := r + ["l"];
    for i := 0 to |v.items|
      invariant Bytes(r') + EncodeItems(v, i) == goal
    {
      r' := EncodeItem(v, i, r', goal);
    }
    JoinPieces(r', "e", "", "");
    Enclosed(v, Bytes(r), EncodeItems(v, 0), []);
    r' := r' + ["e"];
  }

  method EncodeEntry(v: Value, keys: seq<string>, i: nat, r: seq<string>, ghost goal: string) returns (r': seq<string>)
    requires KeysOf(v, keys) && i < |keys| && Bytes(r) + EncodeEntries(v, keys, i) == goal
    ensures Bytes(r') + EncodeEntries(v, keys, i + 1) == goal
    decreases v, 0
  {
    var k := keys[i];
    JoinPieces(r, Digits(|k|), ":", k);
    r' := EncodeInto(v.entries[k], r + [Digits(|k|), ":", k]);
    Associate(Bytes(r), EncodeString(k) + Encode(v.entries[k]), EncodeEntries(v, keys, i + 1));
    Associate(Bytes(r), EncodeString(k), Encode(v.entries[k]));
  }

  method EncodeDict(v: Value, r: seq<string>) returns (r': seq<string>)
    requires v.Dict?
    ensures Bytes(r') == Bytes(r) + Encode(v)
    decreases v, 1
  {
    var keys := SortedKeys(v.entries.Keys);
    ghost var goal := Bytes(r) + "d" + EncodeEntries(v, keys, 0);
    JoinPieces(r, "d", "", "");
    r' := r + ["d"];
    for i := 0 to |keys|
      invariant Bytes(r') + EncodeEntries(v, keys, i) == goal
    {
      r' := EncodeEntry(v, keys, i, r', goal);
    }
    JoinPieces(r', "e", "", "");
    Enclosed(v, Bytes(r), EncodeEntries(v, keys, 0), keys);
    r' := r' + ["e"];
  }

  /** bencode. */
  method EncodeText(v: Value) returns (x: string)
    ensures x == Encode(v) && Bdecode(x, false) == Some(Normal(v))
  {
    var r := EncodeInto(v, []);
    x := Bytes(r);
    RoundTrip(v, "", false);
    assert Encode(v) + "" == Encode(v);
  }
}
