/**
  The bencode printer and parser (section "bencoding" of BEP 3), with the
  parser's behaviour on any input, well formed or not.
 */
module Bencode {
  import opened Bytes
  import Utf8
  import opened Wrappers

  type Key = seq<byte>
  type Text = seq<Utf8.Scalar>

  /** The Python values bencode takes; a dict has either byte keys or str keys. */
  datatype Value =
    | Int(n: int)
    | Bool(b: bool)
    | Str(text: Text)
    | Raw(bytes: seq<byte>)
    | List(items: seq<Value>)
    | Dict(pairs: map<Key, Value>)
    | StrDict(strPairs: map<Text, Value>)

  const DICT_DELIM: byte := 100
  const END_DELIM: byte := 101
  const INT_DELIM: byte := 105
  const LIST_DELIM: byte := 108
  const BYTE_SEP: byte := 58
  const MINUS: byte := 45
  const PLUS: byte := 43
  const UNDERSCORE: byte := 95
  const ZERO: byte := 48

  predicate IsDigit(c: byte) { ZERO <= c <= 57 }

  // ---------------------------------------------------------------- numbers

  /** str(n) for n >= 0. */
  function DecimalNat(n: nat): (r: seq<byte>)
    ensures r != [] && forall i :: 0 <= i < |r| ==> IsDigit(r[i])
    ensures r[0] == ZERO ==> n == 0 && |r| == 1
  {
    if n < 10 then [ZERO + n] else DecimalNat(n / 10) + [ZERO + n % 10]
  }

  function Decimal(n: int): seq<byte> {
    if n < 0 then [MINUS] + DecimalNat(-n) else DecimalNat(n)
  }

  predicate IsSpace(c: byte) { 9 <= c <= 13 || c == 32 }

  function StripLeft(t: seq<byte>): seq<byte>
    decreases |t|
  {
    if t != [] && IsSpace(t[0]) then StripLeft(t[1..]) else t
  }

  function StripRight(t: seq<byte>): seq<byte>
    decreases |t|
  {
    if t != [] && IsSpace(t[|t| - 1]) then StripRight(t[..|t| - 1]) else t
  }

  /** Decimal digits, single underscores allowed between them. */
  function ParseDigits(t: seq<byte>): Option<nat>
    decreases |t|
  {
    if t == [] || !IsDigit(t[|t| - 1]) then None
    else
      var n := |t| - 1;
      var d: nat := t[n] - ZERO;
      if n == 0 then Some(d)
      else
        match ParseDigits(if t[n - 1] == UNDERSCORE then t[..n - 1] else t[..n])
        case None => None
        case Some(m) => Some(10 * m + d)
  }

  /** Python's int(bytes): surrounding white space, a sign, digits; None where it raises ValueError. */
  function PyInt(t: seq<byte>): Option<int> {
    var u := StripRight(StripLeft(t));
    if u == [] then None
    else if u[0] == MINUS || u[0] == PLUS then
      match ParseDigits(u[1..])
      case None => None
      case Some(m) => var n: int := m; Some(if u[0] == MINUS then -n else n)
    else
      match ParseDigits(u)
      case None => None
      case Some(m) => Some(m)
  }

  lemma {:induction false} ParseDecimalNat(n: nat)
    ensures ParseDigits(DecimalNat(n)) == Some(n)
  {
    if n >= 10 {
      ParseDecimalNat(n / 10);
      var t := DecimalNat(n);
      assert t[..|t| - 1] == DecimalNat(n / 10);
    }
  }

  lemma PyIntDecimal(n: int)
    ensures PyInt(Decimal(n)) == Some(n)
  {
    ParseDecimalNat(if n < 0 then -n else n);
    var t := Decimal(n);
    assert !IsSpace(t[0]) && !IsSpace(t[|t| - 1]);
    assert n < 0 ==> t[1..] == DecimalNat(-n);
  }

  // ---------------------------------------------------------------- encoding

  function EncodeBytes(b: seq<byte>): seq<byte> {
    Decimal(|b|) + [BYTE_SEP] + b
  }

  function EncodeInt(n: int): seq<byte> {
    [INT_DELIM] + Decimal(n) + [END_DELIM]
  }

  ghost function SortedKeys(pairs: map<Key, Value>): (r: seq<Key>)
    ensures Utf8.Ascending(r) && forall k: Key :: k in r <==> k in pairs
  {
    var r := Utf8.Sorted(pairs.Keys);
    assert forall i :: 0 <= i < |r| ==> r[i] in r && r[i] in pairs.Keys;
    r
  }

  ghost function SortedTexts(pairs: map<Text, Value>): (r: seq<Text>)
    ensures Utf8.Ascending(r) && forall k: Text :: k in r <==> k in pairs
  {
    var r := Utf8.Sorted(pairs.Keys);
    assert forall i :: 0 <= i < |r| ==> r[i] in r && r[i] in pairs.Keys;
    r
  }

  /** What bencode prints; dictionaries in sorted key order. */
  ghost function Encode(v: Value): seq<byte>
    decreases v, 0
  {
    match v
    case Int(n) => EncodeInt(n)
    case Bool(b) => EncodeInt(if b then 1 else 0)
    case Str(text) => EncodeBytes(Utf8.Encode(text))
    case Raw(bytes) => EncodeBytes(bytes)
    case List(items) => [LIST_DELIM] + EncodeItems(items) + [END_DELIM]
    case Dict(pairs) => [DICT_DELIM] + EncodePairs(v, SortedKeys(pairs)) + [END_DELIM]
    case StrDict(pairs) => [DICT_DELIM] + EncodeStrPairs(v, SortedTexts(pairs)) + [END_DELIM]
  }

  ghost function EncodeItems(items: seq<Value>): seq<byte>
    decreases items, 1
  {
    if items == [] then [] else Encode(items[0]) + EncodeItems(items[1..])
  }

  ghost function EncodePairs(v: Value, keys: seq<Key>): seq<byte>
    requires v.Dict? && forall k :: k in keys ==> k in v.pairs
    decreases v, 0, |keys|
  {
    if keys == [] then []
    else EncodeBytes(keys[0]) + Encode(v.pairs[keys[0]]) + EncodePairs(v, keys[1..])
  }

  ghost function EncodeStrPairs(v: Value, keys: seq<Text>): seq<byte>
    requires v.StrDict? && forall k :: k in keys ==> k in v.strPairs
    decreases v, 0, |keys|
  {
    if keys == [] then []
    else EncodeBytes(Utf8.Encode(keys[0])) + Encode(v.strPairs[keys[0]]) + EncodeStrPairs(v, keys[1..])
  }

  // ---------------------------------------------------------------- what a value decodes to

  /** Decoding knows ints, byte strings, lists and byte-keyed dicts: bools become ints and text its UTF-8. */
  ghost function Image(v: Value): Value
    decreases v, 0
  {
    match v
    case Int(n) => v
    case Bool(b) => Int(if b then 1 else 0)
    case Str(text) => Raw(Utf8.Encode(text))
    case Raw(bytes) => v
    case List(items) => List(ImageItems(items))
    case Dict(pairs) => Dict(ImagePairs(v, SortedKeys(pairs)))
    case StrDict(pairs) => Dict(ImageStrPairs(v, SortedTexts(pairs)))
  }

  ghost function ImageItems(items: seq<Value>): (r: seq<Value>)
    ensures |r| == |items|
    decreases items, 1
  {
    if items == [] then [] else [Image(items[0])] + ImageItems(items[1..])
  }

  ghost function ImagePairs(v: Value, keys: seq<Key>): map<Key, Value>
    requires v.Dict? && forall k :: k in keys ==> k in v.pairs
    decreases v, 0, |keys|
  {
    if keys == [] then map[] else map[keys[0] := Image(v.pairs[keys[0]])] + ImagePairs(v, keys[1..])
  }

  ghost function ImageStrPairs(v: Value, keys: seq<Text>): map<Key, Value>
    requires v.StrDict? && forall k :: k in keys ==> k in v.strPairs
    decreases v, 0, |keys|
  {
    if keys == [] then map[]
    else map[Utf8.Encode(keys[0]) := Image(v.strPairs[keys[0]])] + ImageStrPairs(v, keys[1..])
  }

  lemma {:induction false} ImagePairsAre(v: Value, keys: seq<Key>)
    requires v.Dict? && forall k :: k in keys ==> k in v.pairs
    ensures forall k :: k in ImagePairs(v, keys) <==> k in keys
    ensures forall k :: k in keys ==> ImagePairs(v, keys)[k] == Image(v.pairs[k])
    decreases |keys|
  {
    if keys != [] {
      ImagePairsAre(v, keys[1..]);
      assert keys == [keys[0]] + keys[1..];
    }
  }

  lemma {:induction false} ImageStrPairsAre(v: Value, keys: seq<Text>)
    requires v.StrDict? && forall k :: k in keys ==> k in v.strPairs
    ensures forall b :: b in ImageStrPairs(v, keys) <==> exists k :: k in keys && b == Utf8.Encode(k)
    ensures forall k :: k in keys ==> ImageStrPairs(v, keys)[Utf8.Encode(k)] == Image(v.strPairs[k])
    decreases |keys|
  {
    hide Utf8.Encode, Image;
    if keys != [] {
      ImageStrPairsAre(v, keys[1..]);
      var m := ImageStrPairs(v, keys);
      assert keys == [keys[0]] + keys[1..];
      forall b
        ensures b in m <==> exists k :: k in keys && b == Utf8.Encode(k)
      {
        if b in m && b != Utf8.Encode(keys[0]) {
          var k :| k in keys[1..] && b == Utf8.Encode(k);
          assert k in keys;
        }
        if k :| k in keys && b == Utf8.Encode(k) {
          assert k == keys[0] || k in keys[1..];
        }
      }
      forall k | k in keys
        ensures m[Utf8.Encode(k)] == Image(v.strPairs[k])
      {
        if k in keys[1..] {
          assert Utf8.Encode(k) in ImageStrPairs(v, keys[1..]);
        } else {
          assert k == keys[0];
          if Utf8.Encode(k) in ImageStrPairs(v, keys[1..]) {
            var j :| j in keys[1..] && Utf8.Encode(k) == Utf8.Encode(j);
            Utf8.EncodeInjective(k, j);
          }
        }
      }
    }
  }

  /** No bool and no text anywhere inside. */
  ghost predicate Plain(v: Value) {
    match v
    case Int(_) => true
    case Raw(_) => true
    case List(items) => forall i :: 0 <= i < |items| ==> Plain(items[i])
    case Dict(pairs) => forall k :: k in pairs ==> Plain(pairs[k])
    case _ => false
  }

  lemma {:induction false} PlainImage(v: Value)
    requires Plain(v)
    ensures Image(v) == v
    decreases v, 0
  {
    match v
    case List(items) => PlainItems(items);
    case Dict(pairs) =>
      ImagePairsAre(v, SortedKeys(pairs));
      var m := ImagePairs(v, SortedKeys(pairs));
      forall k | k in pairs
        ensures k in m && m[k] == pairs[k]
      {
        PlainImage(pairs[k]);
      }
      assert m == pairs;
    case _ =>
  }

  lemma {:induction false} PlainItems(items: seq<Value>)
    requires forall i :: 0 <= i < |items| ==> Plain(items[i])
    ensures ImageItems(items) == items
    decreases items, 1
  {
    if items != [] {
      PlainImage(items[0]);
      PlainItems(items[1..]);
    }
  }

  // ---------------------------------------------------------------- decoding

  /** Python's clamping of a slice bound. */
  function Clamp(i: int, n: nat): (r: nat)
    ensures r <= n
  {
    if i < 0 then Max(i + n, 0) else Min(i, n)
  }

  /** x[a:b] for any integers, negative ones counting from the end. */
  function PySlice(x: seq<byte>, a: int, b: int): seq<byte> {
    if Clamp(a, |x|) < Clamp(b, |x|) then x[Clamp(a, |x|)..Clamp(b, |x|)] else []
  }

  /** x[f : f + 1] */
  function At(x: seq<byte>, f: int): seq<byte> { PySlice(x, f, f + 1) }

  function FirstIndex(x: seq<byte>, c: byte, i: nat): (r: Option<nat>)
    requires i <= |x|
    ensures r.Some? ==> i <= r.value < |x| && x[r.value] == c
    decreases |x| - i
  {
    if i == |x| then None else if x[i] == c then Some(i) else FirstIndex(x, c, i + 1)
  }

  /** x.index(c, f), None where it raises ValueError. */
  function Index(x: seq<byte>, c: byte, f: int): Option<nat> {
    if f > |x| then None else FirstIndex(x, c, Clamp(f, |x|))
  }

  /** The parser's result: a value and the next cursor, an exception, or a run that needs more steps. */
  datatype Outcome = Done(value: Value, next: int) | Failed | BadKey | OutOfFuel

  function DecodeInt(x: seq<byte>, f0: int): Outcome {
    var f := f0 + 1;
    match Index(x, END_DELIM, f)
    case None => Failed
    case Some(newf) =>
      match PyInt(PySlice(x, f, newf))
      case None => Failed
      case Some(n) =>
        if At(x, f) == [MINUS] && At(x, f + 1) == [ZERO] then Failed
        else if At(x, f) == [ZERO] && newf != f + 1 then Failed
        else Done(Int(n), newf + 1)
  }

  function DecodeString(x: seq<byte>, f: int): Option<(seq<byte>, int)> {
    match Index(x, BYTE_SEP, f)
    case None => None
    case Some(colon) =>
      match PyInt(PySlice(x, f, colon))
      case None => None
      case Some(n) =>
        if At(x, f) == [ZERO] && colon != f + 1 then None
        else Some((PySlice(x, colon + 1, colon + 1 + n), colon + 1 + n))
  }

  /**
    decode_func[x[f]](x, f). A strict parser insists that reading a dictionary
    key moves the cursor forward; the program's does not. Each call and each loop
    pass uses up fuel, so that a run that never ends can be told.
   */
  function DecodeAt(x: seq<byte>, f: int, strict: bool, fuel: nat): Outcome
    decreases fuel
  {
    if fuel == 0 then OutOfFuel
    else if At(x, f) == [LIST_DELIM] then DecodeListFrom(x, f + 1, [], strict, fuel - 1)
    else if At(x, f) == [DICT_DELIM] then DecodeDictFrom(x, f + 1, map[], strict, fuel - 1)
    else if At(x, f) == [INT_DELIM] then DecodeInt(x, f)
    else if At(x, f) != [] && IsDigit(At(x, f)[0]) then
      match DecodeString(x, f)
      case None => Failed
      case Some((b, next)) => Done(Raw(b), next)
    else Failed
  }

  function DecodeListFrom(x: seq<byte>, f: int, r: seq<Value>, strict: bool, fuel: nat): Outcome
    decreases fuel
  {
    if At(x, f) == [END_DELIM] then Done(List(r), f + 1)
    else if fuel == 0 then OutOfFuel
    else
      var o := DecodeAt(x, f, strict, fuel - 1);
      if o.Done? then DecodeListFrom(x, o.next, r + [o.value], strict, fuel - 1) else o
  }

  function DecodeDictFrom(x: seq<byte>, f: int, r: map<Key, Value>, strict: bool, fuel: nat): Outcome
    decreases fuel
  {
    if At(x, f) == [END_DELIM] then Done(Dict(r), f + 1)
    else if fuel == 0 then OutOfFuel
    else
      match DecodeString(x, f)
      case None => Failed
      case Some((k, next)) =>
        if strict && next <= f then BadKey else
        var o := DecodeAt(x, next, strict, fuel - 1);
        if o.Done? then DecodeDictFrom(x, o.next, r[k := o.value], strict, fuel - 1) else o
  }

  // ---------------------------------------------------------------- round trip

  /** e stands in x at position f. */
  ghost predicate HasAt(x: seq<byte>, f: int, e: seq<byte>) {
    0 <= f && f + |e| <= |x| && x[f..f + |e|] == e
  }

  lemma HasParts(x: seq<byte>, f: int, a: seq<byte>, b: seq<byte>)
    requires HasAt(x, f, a + b)
    ensures HasAt(x, f, a) && HasAt(x, f + |a|, b)
  {
    assert x[f..f + |a|] == (a + b)[..|a|] == a;
    assert x[f + |a|..f + |a| + |b|] == (a + b)[|a|..] == b;
  }

  lemma HasThreeParts(x: seq<byte>, f: int, a: seq<byte>, b: seq<byte>, c: seq<byte>)
    requires HasAt(x, f, a + b + c)
    ensures HasAt(x, f, a) && HasAt(x, f + |a|, b) && HasAt(x, f + |a| + |b|, c)
  {
    HasParts(x, f, a + b, c);
    hide HasAt;
    HasParts(x, f, a, b);
  }

  lemma AtHas(x: seq<byte>, f: int, e: seq<byte>)
    requires HasAt(x, f, e) && e != []
    ensures At(x, f) == [e[0]]
  {
    assert x[f] == x[f..f + |e|][0];
  }

  lemma {:induction false} FirstIndexAt(x: seq<byte>, c: byte, i: nat, j: nat)
    requires i <= j < |x| && x[j] == c && forall k :: i <= k < j ==> x[k] != c
    ensures FirstIndex(x, c, i) == Some(j)
    decreases j - i
  {
    if i < j {
      FirstIndexAt(x, c, i + 1, j);
    }
  }

  /** Text without c, then c: index finds that c and the slice up to it is the text. */
  lemma IndexAfter(x: seq<byte>, f: int, text: seq<byte>, c: byte)
    requires HasAt(x, f, text + [c]) && c !in text
    ensures Index(x, c, f) == Some(f + |text|)
    ensures PySlice(x, f, f + |text|) == text
  {
    HasParts(x, f, text, [c]);
    var j := f + |text|;
    assert x[j] == x[j..j + 1][0] == c;
    forall k | f <= k < j
      ensures x[k] != c
    {
      assert x[k] == x[f..j][k - f] == text[k - f];
      assert text[k - f] in text;
    }
    FirstIndexAt(x, c, f, j);
  }

  lemma DecimalChars(n: int)
    ensures BYTE_SEP !in Decimal(n) && END_DELIM !in Decimal(n)
    ensures Decimal(n) != []
    ensures Decimal(n)[0] == ZERO ==> |Decimal(n)| == 1
    ensures n >= 0 ==> IsDigit(Decimal(n)[0])
    ensures Decimal(n)[0] == MINUS ==> |Decimal(n)| > 1 && Decimal(n)[1] != ZERO
  {
  }

  /** The sign and leading-zero tests let every printed number through. */
  lemma SignTests(n: int, x: seq<byte>, f: int)
    requires HasAt(x, f, Decimal(n) + [END_DELIM])
    ensures !(At(x, f) == [MINUS] && At(x, f + 1) == [ZERO])
    ensures At(x, f) == [ZERO] ==> |Decimal(n)| == 1
  {
    var text := Decimal(n);
    DecimalChars(n);
    AtHas(x, f, text + [END_DELIM]);
    if text[0] == MINUS {
      assert text + [END_DELIM] == [MINUS] + (text[1..] + [END_DELIM]);
      HasParts(x, f, [MINUS], text[1..] + [END_DELIM]);
      AtHas(x, f + 1, text[1..] + [END_DELIM]);
    }
  }

  lemma IntDecodes(n: int, x: seq<byte>, f: int)
    requires HasAt(x, f, EncodeInt(n))
    ensures DecodeInt(x, f) == Done(Int(n), f + |EncodeInt(n)|)
  {
    hide PyInt, PySlice, Decimal, Index, HasAt;
    var text := Decimal(n);
    assert EncodeInt(n) == [INT_DELIM] + (text + [END_DELIM]);
    HasParts(x, f, [INT_DELIM], text + [END_DELIM]);
    DecimalChars(n);
    PyIntDecimal(n);
    IndexAfter(x, f + 1, text, END_DELIM);
    SignTests(n, x, f + 1);
  }

  lemma SliceHas(x: seq<byte>, f: int, e: seq<byte>)
    requires HasAt(x, f, e)
    ensures PySlice(x, f, f + |e|) == e
  {
  }

  lemma BytesDecode(b: seq<byte>, x: seq<byte>, f: int)
    requires HasAt(x, f, EncodeBytes(b))
    ensures DecodeString(x, f) == Some((b, f + |EncodeBytes(b)|)) && |EncodeBytes(b)| > 0
    ensures At(x, f) != [] && IsDigit(At(x, f)[0])
  {
    hide PyInt, PySlice, Decimal, Index, HasAt, At;
    var text := Decimal(|b|);
    HasParts(x, f, text + [BYTE_SEP], b);
    DecimalChars(|b|);
    PyIntDecimal(|b|);
    IndexAfter(x, f, text, BYTE_SEP);
    AtHas(x, f, text + [BYTE_SEP]);
    SliceHas(x, f + |text| + 1, b);
  }

  /** A list, at the parser's entry: the marker and then the items. */
  lemma EnterList(x: seq<byte>, f: int, strict: bool, fuel: nat, body: seq<byte>)
    requires HasAt(x, f, [LIST_DELIM] + body) && fuel > 0
    ensures HasAt(x, f + 1, body)
    ensures DecodeAt(x, f, strict, fuel) == DecodeListFrom(x, f + 1, [], strict, fuel - 1)
  {
    HasParts(x, f, [LIST_DELIM], body);
    AtHas(x, f, [LIST_DELIM]);
  }

  lemma EnterDict(x: seq<byte>, f: int, strict: bool, fuel: nat, body: seq<byte>)
    requires HasAt(x, f, [DICT_DELIM] + body) && fuel > 0
    ensures HasAt(x, f + 1, body)
    ensures DecodeAt(x, f, strict, fuel) == DecodeDictFrom(x, f + 1, map[], strict, fuel - 1)
  {
    HasParts(x, f, [DICT_DELIM], body);
    AtHas(x, f, [DICT_DELIM]);
  }

  lemma EnterInt(n: int, x: seq<byte>, f: int, strict: bool, fuel: nat)
    requires HasAt(x, f, EncodeInt(n)) && fuel > 0
    ensures DecodeAt(x, f, strict, fuel) == Done(Int(n), f + |EncodeInt(n)|)
  {
    hide Decimal, DecodeInt, HasAt;
    AtHas(x, f, EncodeInt(n));
    IntDecodes(n, x, f);
  }

  lemma EnterBytes(b: seq<byte>, x: seq<byte>, f: int, strict: bool, fuel: nat)
    requires HasAt(x, f, EncodeBytes(b)) && fuel > 0
    ensures DecodeAt(x, f, strict, fuel) == Done(Raw(b), f + |EncodeBytes(b)|)
  {
    hide DecodeString, HasAt, EncodeBytes;
    BytesDecode(b, x, f);
  }

  /** Encodings have at least two bytes and never start with the end marker. */
  lemma FirstByte(v: Value)
    ensures |Encode(v)| >= 2 && Encode(v)[0] != END_DELIM
  {
    match v
    case Str(text) => DecimalChars(|Utf8.Encode(text)|);
    case Raw(bytes) => DecimalChars(|bytes|);
    case _ =>
  }

  /** Wherever an encoding stands, the parser reads the value and stops right behind it. */
  lemma {:induction false} ValueDecodes(v: Value, x: seq<byte>, f: int, strict: bool, fuel: nat)
    requires HasAt(x, f, Encode(v)) && fuel >= |Encode(v)|
    ensures DecodeAt(x, f, strict, fuel) == Done(Image(v), f + |Encode(v)|)
    decreases v, 3
  {
    hide HasAt, DecodeAt, EncodeInt, EncodeBytes;
    FirstByte(v);
    match v
    case Int(n) => EnterInt(n, x, f, strict, fuel);
    case Bool(b) => EnterInt(if b then 1 else 0, x, f, strict, fuel);
    case Str(text) => EnterBytes(Utf8.Encode(text), x, f, strict, fuel);
    case Raw(bytes) => EnterBytes(bytes, x, f, strict, fuel);
    case List(items) => ListDecodes(v, x, f, strict, fuel);
    case Dict(pairs) => DictDecodes(v, x, f, strict, fuel);
    case StrDict(pairs) => StrDictDecodes(v, x, f, strict, fuel);
  }

  lemma {:induction false} ListDecodes(v: Value, x: seq<byte>, f: int, strict: bool, fuel: nat)
    requires v.List? && HasAt(x, f, Encode(v)) && fuel >= |Encode(v)|
    ensures DecodeAt(x, f, strict, fuel) == Done(Image(v), f + |Encode(v)|)
    decreases v, 2
  {
    hide HasAt, DecodeAt, DecodeListFrom;
    var body := EncodeItems(v.items) + [END_DELIM];
    assert Encode(v) == [LIST_DELIM] + body;
    EnterList(x, f, strict, fuel, body);
    ItemsDecode(v.items, [], x, f + 1, strict, fuel - 1);
    assert [] + ImageItems(v.items) == ImageItems(v.items);
  }

  lemma {:induction false} DictDecodes(v: Value, x: seq<byte>, f: int, strict: bool, fuel: nat)
    requires v.Dict? && HasAt(x, f, Encode(v)) && fuel >= |Encode(v)|
    ensures DecodeAt(x, f, strict, fuel) == Done(Image(v), f + |Encode(v)|)
    decreases v, 2
  {
    hide HasAt, DecodeAt, DecodeDictFrom;
    var keys := SortedKeys(v.pairs);
    var body := EncodePairs(v, keys) + [END_DELIM];
    assert Encode(v) == [DICT_DELIM] + body;
    EnterDict(x, f, strict, fuel, body);
    PairsDecode(v, keys, map[], x, f + 1, strict, fuel - 1);
    assert map[] + ImagePairs(v, keys) == ImagePairs(v, keys);
  }

  lemma {:induction false} StrDictDecodes(v: Value, x: seq<byte>, f: int, strict: bool, fuel: nat)
    requires v.StrDict? && HasAt(x, f, Encode(v)) && fuel >= |Encode(v)|
    ensures DecodeAt(x, f, strict, fuel) == Done(Image(v), f + |Encode(v)|)
    decreases v, 2
  {
    hide HasAt, DecodeAt, DecodeDictFrom;
    var keys := SortedTexts(v.strPairs);
    var body := EncodeStrPairs(v, keys) + [END_DELIM];
    assert Encode(v) == [DICT_DELIM] + body;
    EnterDict(x, f, strict, fuel, body);
    StrPairsDecode(v, keys, map[], x, f + 1, strict, fuel - 1);
    assert map[] + ImageStrPairs(v, keys) == ImageStrPairs(v, keys);
  }

  lemma ListEnds(x: seq<byte>, f: int, r: seq<Value>, strict: bool, fuel: nat)
    requires HasAt(x, f, [END_DELIM])
    ensures DecodeListFrom(x, f, r, strict, fuel) == Done(List(r), f + 1)
  {
    AtHas(x, f, [END_DELIM]);
  }

  lemma DictEnds(x: seq<byte>, f: int, r: map<Key, Value>, strict: bool, fuel: nat)
    requires HasAt(x, f, [END_DELIM])
    ensures DecodeDictFrom(x, f, r, strict, fuel) == Done(Dict(r), f + 1)
  {
    AtHas(x, f, [END_DELIM]);
  }

  /** One pass of the list loop over an encoded item. */
  lemma {:induction false} ItemDecodes(v: Value, rest: seq<byte>, r: seq<Value>, x: seq<byte>, f: int,
                                       strict: bool, fuel: nat)
    requires HasAt(x, f, Encode(v) + rest) && fuel > |Encode(v)|
    ensures var next := f + |Encode(v)|;
      && HasAt(x, next, rest)
      && DecodeListFrom(x, f, r, strict, fuel) == DecodeListFrom(x, next, r + [Image(v)], strict, fuel - 1)
    decreases v, 4
  {
    hide HasAt, DecodeAt, Encode, Image;
    HasParts(x, f, Encode(v), rest);
    FirstByte(v);
    AtHas(x, f, Encode(v));
    ValueDecodes(v, x, f, strict, fuel - 1);
  }

  lemma {:induction false} ItemsDecode(items: seq<Value>, r: seq<Value>, x: seq<byte>, f: int, strict: bool, fuel: nat)
    requires HasAt(x, f, EncodeItems(items) + [END_DELIM]) && fuel > |EncodeItems(items)|
    ensures DecodeListFrom(x, f, r, strict, fuel)
         == Done(List(r + ImageItems(items)), f + |EncodeItems(items)| + 1)
    decreases items, 5
  {
    hide HasAt, DecodeListFrom, Encode, Image;
    if items == [] {
      assert EncodeItems(items) + [END_DELIM] == [END_DELIM];
      ListEnds(x, f, r, strict, fuel);
      assert r + [] == r;
    } else {
      var e, rest := Encode(items[0]), EncodeItems(items[1..]) + [END_DELIM];
      assert EncodeItems(items) + [END_DELIM] == e + rest;
      FirstByte(items[0]);
      ItemDecodes(items[0], rest, r, x, f, strict, fuel);
      ItemsDecode(items[1..], r + [Image(items[0])], x, f + |e|, strict, fuel - 1);
      assert r + [Image(items[0])] + ImageItems(items[1..]) == r + ImageItems(items);
    }
  }

  /** One pass of the dictionary loop over an encoded pair. */
  lemma {:induction false} PairDecodes(key: Key, v: Value, rest: seq<byte>, r: map<Key, Value>, x: seq<byte>, f: int,
                                       strict: bool, fuel: nat)
    requires HasAt(x, f, EncodeBytes(key) + Encode(v) + rest) && fuel > |Encode(v)|
    ensures var next := f + |EncodeBytes(key)| + |Encode(v)|;
      && HasAt(x, next, rest)
      && DecodeDictFrom(x, f, r, strict, fuel) == DecodeDictFrom(x, next, r[key := Image(v)], strict, fuel - 1)
    decreases v, 4
  {
    hide *;
    var k, e := EncodeBytes(key), Encode(v);
    HasThreeParts(x, f, k, e, rest);
    BytesDecode(key, x, f);
    ValueDecodes(v, x, f + |k|, strict, fuel - 1);
    DictPass(x, f, r, strict, fuel, key, f + |k|, Image(v), f + |k| + |e|);
  }

  /** One pass of the dictionary loop. */
  lemma DictPass(x: seq<byte>, f: int, r: map<Key, Value>, strict: bool, fuel: nat,
                 key: Key, at: int, value: Value, next: int)
    requires At(x, f) != [] && IsDigit(At(x, f)[0]) && fuel > 0
    requires DecodeString(x, f) == Some((key, at)) && at > f && DecodeAt(x, at, strict, fuel - 1) == Done(value, next)
    ensures DecodeDictFrom(x, f, r, strict, fuel) == DecodeDictFrom(x, next, r[key := value], strict, fuel - 1)
  {
    hide DecodeAt, DecodeString, At;
  }

  lemma UpdateThenMerge(r: map<Key, Value>, k: Key, item: Value, m: map<Key, Value>)
    ensures r[k := item] + m == r + (map[k := item] + m)
  {
  }

  lemma {:induction false} PairsDecode(v: Value, keys: seq<Key>, r: map<Key, Value>, x: seq<byte>, f: int,
                                       strict: bool, fuel: nat)
    requires v.Dict? && forall k :: k in keys ==> k in v.pairs
    requires HasAt(x, f, EncodePairs(v, keys) + [END_DELIM]) && fuel > |EncodePairs(v, keys)|
    ensures DecodeDictFrom(x, f, r, strict, fuel)
         == Done(Dict(r + ImagePairs(v, keys)), f + |EncodePairs(v, keys)| + 1)
    decreases v, 0, |keys|
  {
    hide HasAt, Encode, Image, EncodeBytes, DecodeDictFrom;
    if keys == [] {
      assert EncodePairs(v, keys) + [END_DELIM] == [END_DELIM];
      DictEnds(x, f, r, strict, fuel);
      assert r + map[] == r;
    } else {
      var item := v.pairs[keys[0]];
      var k, e, rest := EncodeBytes(keys[0]), Encode(item), EncodePairs(v, keys[1..]) + [END_DELIM];
      Associative(k + e, EncodePairs(v, keys[1..]), [END_DELIM]);
      assert EncodePairs(v, keys) == k + e + EncodePairs(v, keys[1..]);
      FirstByte(item);
      PairDecodes(keys[0], item, rest, r, x, f, strict, fuel);
      PairsDecode(v, keys[1..], r[keys[0] := Image(item)], x, f + |k| + |e|, strict, fuel - 1);
      UpdateThenMerge(r, keys[0], Image(item), ImagePairs(v, keys[1..]));
    }
  }

  lemma {:induction false} StrPairsDecode(v: Value, keys: seq<Text>, r: map<Key, Value>, x: seq<byte>, f: int,
                                          strict: bool, fuel: nat)
    requires v.StrDict? && forall k :: k in keys ==> k in v.strPairs
    requires HasAt(x, f, EncodeStrPairs(v, keys) + [END_DELIM]) && fuel > |EncodeStrPairs(v, keys)|
    ensures DecodeDictFrom(x, f, r, strict, fuel)
         == Done(Dict(r + ImageStrPairs(v, keys)), f + |EncodeStrPairs(v, keys)| + 1)
    decreases v, 0, |keys|
  {
    hide HasAt, Encode, Image, EncodeBytes, DecodeDictFrom;
    if keys == [] {
      assert EncodeStrPairs(v, keys) + [END_DELIM] == [END_DELIM];
      DictEnds(x, f, r, strict, fuel);
      assert r + map[] == r;
    } else {
      var key, item := Utf8.Encode(keys[0]), v.strPairs[keys[0]];
      var k, e, rest := EncodeBytes(key), Encode(item), EncodeStrPairs(v, keys[1..]) + [END_DELIM];
      Associative(k + e, EncodeStrPairs(v, keys[1..]), [END_DELIM]);
      assert EncodeStrPairs(v, keys) == k + e + EncodeStrPairs(v, keys[1..]);
      FirstByte(item);
      PairDecodes(key, item, rest, r, x, f, strict, fuel);
      StrPairsDecode(v, keys[1..], r[key := Image(item)], x, f + |k| + |e|, strict, fuel - 1);
      UpdateThenMerge(r, key, Image(item), ImageStrPairs(v, keys[1..]));
    }
  }

  /** Decoding inside any surroundings returns the value and the position behind it. */
  lemma DecodeEncode(p: seq<byte>, v: Value, s: seq<byte>, fuel: nat)
    requires fuel >= |Encode(v)|
    ensures DecodeAt(p + Encode(v) + s, |p|, false, fuel) == Done(Image(v), |p| + |Encode(v)|)
  {
    var x := p + Encode(v) + s;
    assert x[|p|..|p| + |Encode(v)|] == Encode(v);
    ValueDecodes(v, x, |p|, false, fuel);
  }

  /** For ints, byte strings, lists and byte-keyed dicts the value comes back itself. */
  lemma PlainRoundTrip(p: seq<byte>, v: Value, s: seq<byte>, fuel: nat)
    requires Plain(v) && fuel >= |Encode(v)|
    ensures DecodeAt(p + Encode(v) + s, |p|, false, fuel) == Done(v, |p| + |Encode(v)|)
  {
    DecodeEncode(p, v, s, fuel);
    PlainImage(v);
  }

  /** No encoding is the beginning of another value's encoding. */
  lemma PrefixFree(v: Value, w: Value)
    requires Encode(v) <= Encode(w)
    ensures Image(v) == Image(w) && Encode(v) == Encode(w)
  {
    var x := Encode(w);
    assert HasAt(x, 0, Encode(v)) && HasAt(x, 0, x);
    ValueDecodes(v, x, 0, false, |x|);
    ValueDecodes(w, x, 0, false, |x|);
    assert x[..|x|] == x;
  }

  // ---------------------------------------------------------------- text keys

  ghost function RawKeys(keys: seq<Text>): (r: seq<Key>)
    ensures |r| == |keys| && forall i :: 0 <= i < |keys| ==> r[i] == Utf8.Encode(keys[i])
  {
    seq(|keys|, i requires 0 <= i < |keys| => Utf8.Encode(keys[i]))
  }

  /** Sorting str keys by code point puts the raw keys in strictly ascending order, the order of the standard. */
  lemma RawKeysAscend(v: Value)
    requires v.StrDict?
    ensures Utf8.Ascending(RawKeys(SortedTexts(v.strPairs)))
    ensures Image(v).Dict? && RawKeys(SortedTexts(v.strPairs)) == SortedKeys(Image(v).pairs)
  {
    var keys := SortedTexts(v.strPairs);
    var pairs := Image(v).pairs;
    assert pairs == ImageStrPairs(v, keys);
    hide Image, ImageStrPairs, Utf8.Encode, SortedTexts;
    RawAscending(keys);
    ImageStrPairsAre(v, keys);
    RawKeysAre(keys, pairs.Keys);
    Utf8.SortedUnique(RawKeys(keys), pairs.Keys);
  }

  lemma RawAscending(keys: seq<Text>)
    requires Utf8.Ascending(keys)
    ensures Utf8.Ascending(RawKeys(keys))
  {
    hide Utf8.Encode, Utf8.Less;
    var raw := RawKeys(keys);
    forall i, j | 0 <= i < j < |raw|
      ensures Utf8.Less(raw[i], raw[j])
    {
      Utf8.EncodeKeepsOrder(keys[i], keys[j]);
    }
  }

  lemma RawKeysAre(keys: seq<Text>, raw: set<Key>)
    requires forall b :: b in raw <==> exists k :: k in keys && b == Utf8.Encode(k)
    ensures forall b: seq<int> :: b in RawKeys(keys) <==> b in raw
  {
    hide Utf8.Encode;
    forall b: seq<int>
      ensures b in RawKeys(keys) <==> b in raw
    {
      if b in RawKeys(keys) {
        var i :| 0 <= i < |keys| && RawKeys(keys)[i] == b;
        assert keys[i] in keys;
      }
      if b in raw {
        var k :| k in keys && b == Utf8.Encode(k);
        var i :| 0 <= i < |keys| && keys[i] == k;
        assert RawKeys(keys)[i] == b;
      }
    }
  }

  /** Text prints as its UTF-8 bytes and bools as ints, dictionaries included: v and its image print alike. */
  lemma {:induction false} EncodeImage(v: Value)
    ensures Encode(Image(v)) == Encode(v)
    decreases v, 3
  {
    match v
    case List(items) => EncodeImageItems(items);
    case Dict(pairs) =>
      var keys := SortedKeys(pairs);
      ImagePairsAre(v, keys);
      assert Image(v).pairs.Keys == pairs.Keys;
      EncodeImagePairs(v, keys);
    case StrDict(pairs) =>
      RawKeysAscend(v);
      ImageStrPairsAre(v, SortedTexts(pairs));
      EncodeImageStrPairs(v, SortedTexts(pairs), RawKeys(SortedTexts(pairs)));
    case _ =>
  }

  lemma {:induction false} EncodeImageItems(items: seq<Value>)
    ensures EncodeItems(ImageItems(items)) == EncodeItems(items)
    decreases items, 5
  {
    if items != [] {
      EncodeImage(items[0]);
      EncodeImageItems(items[1..]);
      assert ImageItems(items)[1..] == ImageItems(items[1..]);
    }
  }

  lemma {:induction false} EncodeImagePairs(v: Value, keys: seq<Key>)
    requires v.Dict? && (forall k :: k in keys ==> k in v.pairs) && Image(v).Dict?
    requires forall k :: k in keys ==> k in Image(v).pairs && Image(v).pairs[k] == Image(v.pairs[k])
    ensures EncodePairs(Image(v), keys) == EncodePairs(v, keys)
    decreases v, 2, |keys|
  {
    hide Image;
    if keys != [] {
      EncodeImage(v.pairs[keys[0]]);
      EncodeImagePairs(v, keys[1..]);
    }
  }

  lemma {:induction false} EncodeImageStrPairs(v: Value, keys: seq<Text>, raw: seq<Key>)
    requires v.StrDict? && (forall k :: k in keys ==> k in v.strPairs) && Image(v).Dict? && raw == RawKeys(keys)
    requires forall k :: k in keys ==>
      Utf8.Encode(k) in Image(v).pairs && Image(v).pairs[Utf8.Encode(k)] == Image(v.strPairs[k])
    requires forall k :: k in raw ==> k in Image(v).pairs
    ensures EncodePairs(Image(v), raw) == EncodeStrPairs(v, keys)
    decreases v, 2, |keys|
  {
    hide Image;
    if keys != [] {
      EncodeImage(v.strPairs[keys[0]]);
      assert raw[1..] == RawKeys(keys[1..]);
      EncodeImageStrPairs(v, keys[1..], raw[1..]);
    }
  }

  // ---------------------------------------------------------------- what comes back, by UTF-8

  /**
    v comes back as w: text as the bytes that are its UTF-8, a text-keyed dict
    with such bytes for keys, bools as 0 and 1, everything else unchanged.
   */
  ghost predicate ReadsAs(v: Value, w: Value)
    decreases v, 1
  {
    match v
    case Int(n) => w == Int(n)
    case Bool(b) => w == Int(if b then 1 else 0)
    case Str(text) => w.Raw? && Utf8.Decode(w.bytes) == Some(text)
    case Raw(bytes) => w == Raw(bytes)
    case List(items) => w.List? && |w.items| == |items| && forall i :: 0 <= i < |items| ==> ReadsAs(items[i], w.items[i])
    case Dict(pairs) => w.Dict? && w.pairs.Keys == pairs.Keys && forall k :: k in pairs ==> ReadsAs(pairs[k], w.pairs[k])
    case StrDict(pairs) => w.Dict? && PairsReadAs(v, w.pairs)
  }

  ghost predicate PairsReadAs(v: Value, m: map<Key, Value>)
    requires v.StrDict?
    decreases v, 0, 1
  {
    && (forall b :: b in m ==> KeyReadsAs(v, m, b))
    && forall k :: k in v.strPairs ==> exists b :: b in m && Utf8.Decode(b) == Some(k)
  }

  ghost predicate KeyReadsAs(v: Value, m: map<Key, Value>, b: Key)
    requires v.StrDict? && b in m
    decreases v, 0, 0
  {
    var k := Utf8.Decode(b);
    k.Some? && k.value in v.strPairs && ReadsAs(v.strPairs[k.value], m[b])
  }

  lemma {:induction false} ImageItemsAt(items: seq<Value>, i: nat)
    requires i < |items|
    ensures ImageItems(items)[i] == Image(items[i])
    decreases |items|
  {
    hide Image;
    if i > 0 {
      ImageItemsAt(items[1..], i - 1);
    }
  }

  /** Every value has one decoded form, and that is what it reads as. */
  lemma {:induction false} ReadsAsIff(v: Value, w: Value)
    ensures ReadsAs(v, w) <==> w == Image(v)
    decreases v
  {
    match v
    case Str(text) =>
      if w.Raw? {
        Utf8.DecodesIffEncoded(w.bytes, text);
      }
    case List(items) => ListReadsAsIff(v, w);
    case Dict(pairs) => DictReadsAsIff(v, w);
    case StrDict(pairs) => StrDictReadsAsIff(v, w);
    case _ =>
  }

  lemma {:induction false} ListReadsAsIff(v: Value, w: Value)
    requires v.List?
    ensures ReadsAs(v, w) <==> w == Image(v)
    decreases v, 0
  {
    var r := ImageItems(v.items);
    assert Image(v) == List(r);
    if w.List? && |w.items| == |v.items| {
      forall i | 0 <= i < |v.items|
        ensures r[i] == Image(v.items[i])
        ensures ReadsAs(v.items[i], w.items[i]) <==> w.items[i] == Image(v.items[i])
      {
        ImageItemsAt(v.items, i);
        ReadsAsIff(v.items[i], w.items[i]);
      }
      hide Image;
      assert w.items == r <==> forall i :: 0 <= i < |r| ==> w.items[i] == r[i];
    }
  }

  lemma {:induction false} DictReadsAsIff(v: Value, w: Value)
    requires v.Dict?
    ensures ReadsAs(v, w) <==> w == Image(v)
    decreases v, 0
  {
    ImagePairsAre(v, SortedKeys(v.pairs));
    var m := ImagePairs(v, SortedKeys(v.pairs));
    assert Image(v) == Dict(m) && m.Keys == v.pairs.Keys;
    if w.Dict? && w.pairs.Keys == v.pairs.Keys {
      forall k | k in v.pairs
        ensures ReadsAs(v.pairs[k], w.pairs[k]) <==> w.pairs[k] == m[k]
      {
        ReadsAsIff(v.pairs[k], w.pairs[k]);
      }
      hide Image, ImagePairs;
      assert w.pairs == m <==> forall k :: k in m ==> w.pairs[k] == m[k];
    }
  }

  /** Which raw keys a text-keyed dict's decoded form has, and with which values. */
  ghost predicate RawPairsAre(v: Value, m: map<Key, Value>)
    requires v.StrDict?
  {
    && (forall k :: k in v.strPairs ==> Utf8.Encode(k) in m && m[Utf8.Encode(k)] == Image(v.strPairs[k]))
    && forall b :: b in m ==> exists k :: k in v.strPairs && b == Utf8.Encode(k)
  }

  lemma ImageIsRawPairs(v: Value)
    requires v.StrDict?
    ensures Image(v).Dict? && RawPairsAre(v, Image(v).pairs)
  {
    var keys := SortedTexts(v.strPairs);
    ImageStrPairsAre(v, keys);
    var m := ImageStrPairs(v, keys);
    assert Image(v) == Dict(m) && forall k :: k in keys <==> k in v.strPairs;
    hide Image, ImageStrPairs, Utf8.Encode, SortedTexts;
    forall k | k in v.strPairs
      ensures Utf8.Encode(k) in m && m[Utf8.Encode(k)] == Image(v.strPairs[k])
    {
      assert k in keys;
    }
    forall b | b in m
      ensures exists k :: k in v.strPairs && b == Utf8.Encode(k)
    {
      var k :| k in keys && b == Utf8.Encode(k);
      assert k in v.strPairs;
    }
  }

  lemma {:induction false} KeyHasRawPair(v: Value, pairs: map<Key, Value>, m: map<Key, Value>, b: Key)
    requires v.StrDict? && RawPairsAre(v, m) && b in pairs && PairsReadAs(v, pairs)
    ensures b in m && pairs[b] == m[b]
    decreases v, 0, 0
  {
    assert KeyReadsAs(v, pairs, b);
    hide ReadsAs, PairsReadAs, Image, Utf8.Encode, Utf8.Decode;
    var k := Utf8.Decode(b).value;
    Utf8.DecodesIffEncoded(b, k);
    assert k in v.strPairs && Utf8.Encode(k) in m;
    ReadsAsIff(v.strPairs[k], pairs[b]);
  }

  lemma RawPairHasKey(v: Value, pairs: map<Key, Value>, m: map<Key, Value>, b: Key)
    requires v.StrDict? && RawPairsAre(v, m) && b in m && PairsReadAs(v, pairs)
    ensures b in pairs
  {
    hide ReadsAs, Image, Utf8.Encode, Utf8.Decode, KeyReadsAs;
    var k :| k in v.strPairs && b == Utf8.Encode(k);
    var c :| c in pairs && Utf8.Decode(c) == Some(k);
    Utf8.DecodesIffEncoded(c, k);
  }

  lemma {:induction false} RawPairsAreAll(v: Value, pairs: map<Key, Value>, m: map<Key, Value>)
    requires v.StrDict? && RawPairsAre(v, m) && PairsReadAs(v, pairs)
    ensures pairs == m
    decreases v, 0, 1
  {
    hide *;
    forall b | b in pairs
      ensures b in m && pairs[b] == m[b]
    {
      KeyHasRawPair(v, pairs, m, b);
    }
    forall b | b in m
      ensures b in pairs
    {
      RawPairHasKey(v, pairs, m, b);
    }
  }

  lemma RawPairsRead(v: Value, m: map<Key, Value>)
    requires v.StrDict? && RawPairsAre(v, m)
    requires forall k :: k in v.strPairs ==> ReadsAs(v.strPairs[k], Image(v.strPairs[k]))
    ensures PairsReadAs(v, m)
  {
    hide ReadsAs, Image, Utf8.Encode, Utf8.Decode;
    forall b | b in m
      ensures KeyReadsAs(v, m, b)
    {
      var k :| k in v.strPairs && b == Utf8.Encode(k);
      Utf8.DecodesIffEncoded(b, k);
    }
    forall k | k in v.strPairs
      ensures exists b :: b in m && Utf8.Decode(b) == Some(k)
    {
      Utf8.DecodesIffEncoded(Utf8.Encode(k), k);
    }
  }

  lemma {:induction false} StrDictReadsAsIff(v: Value, w: Value)
    requires v.StrDict?
    ensures ReadsAs(v, w) <==> w == Image(v)
    decreases v, 0
  {
    ImageIsRawPairs(v);
    assert ReadsAs(v, w) <==> w.Dict? && PairsReadAs(v, w.pairs);
    hide RawPairsAre, Image, ReadsAs, PairsReadAs;
    if w.Dict? && PairsReadAs(v, w.pairs) {
      RawPairsAreAll(v, w.pairs, Image(v).pairs);
    }
    if w == Image(v) {
      forall k | k in v.strPairs
        ensures ReadsAs(v.strPairs[k], Image(v.strPairs[k]))
      {
        ReadsAsIff(v.strPairs[k], Image(v.strPairs[k]));
      }
      RawPairsRead(v, w.pairs);
    }
  }

  /** What bencode prints is read back, to the last byte, as what the value reads as. */
  lemma PrintedReadsBack(v: Value, fuel: nat)
    requires fuel >= |Encode(v)|
    ensures var o := DecodeAt(Encode(v), 0, false, fuel);
      o.Done? && o.next == |Encode(v)| && ReadsAs(v, o.value)
  {
    hide Encode, Image, DecodeAt, ReadsAs;
    assert [] + Encode(v) + [] == Encode(v);
    DecodeEncode([], v, [], fuel);
    ReadsAsIff(v, Image(v));
  }

  /** A value prints as what it reads as does: text as its UTF-8, in values and in keys. */
  lemma ReadsAsPrintsAlike(v: Value, w: Value)
    requires ReadsAs(v, w)
    ensures Encode(v) == Encode(w)
  {
    ReadsAsIff(v, w);
    EncodeImage(v);
  }

  // ---------------------------------------------------------------- the examples of BEP 3

  /** The bytes of an ASCII string. */
  ghost function Ascii(s: string): seq<byte>
    requires forall i :: 0 <= i < |s| ==> s[i] < 128 as char
  {
    seq(|s|, i requires 0 <= i < |s| => s[i] as int)
  }

  lemma NumeralExamples()
    ensures Decimal(3) == Ascii("3") && Decimal(4) == Ascii("4") && Decimal(10) == Ascii("10") && Decimal(-3) == Ascii("-3")
    ensures Decimal(0) == Ascii("0") && Decimal(1) == Ascii("1")
  {
    assert DecimalNat(3) == [51] && DecimalNat(1) == [49];
    assert DecimalNat(10) == DecimalNat(1) + [48];
  }

  /** A string is its length, a colon and its bytes; an int stands between i and e. */
  lemma PrintExamples()
    ensures Encode(Raw(Ascii("spam"))) == Ascii("4:spam") && Encode(Raw([])) == Ascii("0:")
    ensures Encode(Int(3)) == Ascii("i3e") && Encode(Int(-3)) == Ascii("i-3e") && Encode(Int(10)) == Ascii("i10e")
    ensures Encode(Bool(true)) == Ascii("i1e") && Encode(Bool(false)) == Ascii("i0e")
  {
    NumeralExamples();
    hide Decimal;
    assert Ascii("4:spam") == Ascii("4") + [58] + Ascii("spam") && |Ascii("spam")| == 4;
  }

  /** Text prints as its UTF-8 bytes. */
  lemma TextExample()
    ensures Encode(Str([0x65E5])) == Ascii("3:") + [0xE6, 0x97, 0xA5]
  {
    NumeralExamples();
    hide Decimal;
    assert [0x65E5][1..] == [] && Utf8.EncodeScalar(0x65E5) == [0xE6, 0x97, 0xA5];
    assert Utf8.Encode([0x65E5]) == [0xE6, 0x97, 0xA5];
  }

  /** A list prints its items one after the other between l and e. */
  lemma ListExample()
    ensures Encode(List([Raw(Ascii("spam")), Int(3)])) == Ascii("l4:spami3ee")
  {
    PrintExamples();
    var spam, three := Raw(Ascii("spam")), Int(3);
    var items, rest, none: seq<Value> := [spam, three], [three], [];
    assert items[1..] == rest && rest[1..] == none;
    assert EncodeItems(rest) == Encode(three) + EncodeItems(none);
    assert EncodeItems(items) == Encode(spam) + EncodeItems(rest);
    hide EncodeItems, EncodeBytes, EncodeInt;
    assert Ascii("l4:spami3ee") == [LIST_DELIM] + (Ascii("4:spam") + (Ascii("i3e") + [])) + [END_DELIM];
  }

  lemma OneKey(k: Key, v: Value)
    ensures SortedKeys(map[k := v]) == [k]
  {
    Utf8.SortedUnique([k], {k});
    assert map[k := v].Keys == {k};
  }

  lemma OnePair(k: Key, v: Value)
    ensures Encode(Dict(map[k := v])) == [DICT_DELIM] + (EncodeBytes(k) + Encode(v)) + [END_DELIM]
  {
    var d := Dict(map[k := v]);
    var keys, none: seq<Key> := [k], [];
    OneKey(k, v);
    assert keys[1..] == none;
    assert EncodePairs(d, keys) == EncodeBytes(k) + Encode(v) + EncodePairs(d, none);
    hide EncodeBytes, SortedKeys;
    assert EncodeBytes(k) + Encode(v) + [] == EncodeBytes(k) + Encode(v);
  }

  lemma ThreeBytes(b: seq<byte>)
    requires |b| == 3
    ensures EncodeBytes(b) == [51, 58, b[0], b[1], b[2]]
  {
    assert DecimalNat(3) == [51];
  }

  /** A dictionary prints its keys as strings, each with its value, between d and e. */
  lemma DictExample()
    ensures Encode(Dict(map[Ascii("cow") := Raw(Ascii("moo"))])) == Ascii("d3:cow3:mooe")
  {
    var cow, moo := Ascii("cow"), Ascii("moo");
    CowBytes();
    hide Ascii;
    OnePair(cow, Raw(moo));
    ThreeBytes(cow);
    ThreeBytes(moo);
    assert Encode(Raw(moo)) == EncodeBytes(moo);
  }

  lemma CowBytes()
    ensures Ascii("cow") == [99, 111, 119] && Ascii("moo") == [109, 111, 111]
    ensures Ascii("d3:cow3:mooe") == [100] + ([51, 58, 99, 111, 119] + [51, 58, 109, 111, 111]) + [101]
  {
  }

  // ---------------------------------------------------------------- which numbers are accepted

  ghost predicate Spaces(t: seq<byte>) {
    forall i :: 0 <= i < |t| ==> t[i] in [9, 10, 11, 12, 13, 32]
  }

  /** Digits, and underscores that each stand between two digits. */
  ghost predicate Digits(t: seq<byte>) {
    t != [] && forall i :: 0 <= i < |t| ==> DigitOrSeparator(t, i)
  }

  ghost predicate DigitOrSeparator(t: seq<byte>, i: int)
    requires 0 <= i < |t|
  {
    48 <= t[i] <= 57 || (t[i] == 95 && 0 < i < |t| - 1 && t[i - 1] != 95 && t[i + 1] != 95)
  }

  /** The decimal number the digits stand for. */
  ghost function Worth(t: seq<byte>): int {
    if t == [] then 0
    else
      var n, digit: int := |t| - 1, t[|t| - 1];
      if digit == 95 then Worth(t[..n]) else 10 * Worth(t[..n]) + (digit - 48)
  }

  /** White space, at most one sign, digits, white space. */
  ghost predicate IsNumeral(t: seq<byte>, a: seq<byte>, sign: seq<byte>, digits: seq<byte>, b: seq<byte>, n: int) {
    && t == a + (sign + digits) + b && Spaces(a) && Spaces(b) && Digits(digits)
    && ((sign in [[], [43]] && n == Worth(digits)) || (sign == [45] && n == -Worth(digits)))
  }

  ghost predicate Numeral(t: seq<byte>, n: int) {
    exists a, sign, digits, b :: IsNumeral(t, a, sign, digits, b, n)
  }

  lemma DigitsSnoc(t: seq<byte>)
    requires t != []
    ensures var n := |t| - 1;
      Digits(t) <==> 48 <= t[n] <= 57 && (n == 0 || Digits(if t[n - 1] == 95 then t[..n - 1] else t[..n]))
  {
    var n := |t| - 1;
    if n > 0 {
      var m := if t[n - 1] == 95 then n - 1 else n;
      var front := t[..m];
      if Digits(front) && 48 <= t[n] <= 57 {
        assert DigitOrSeparator(front, m - 1);
        forall i | 0 <= i < |t|
          ensures DigitOrSeparator(t, i)
        {
          if i < m {
            assert DigitOrSeparator(front, i);
          }
        }
      }
      if Digits(t) {
        assert DigitOrSeparator(t, n) && DigitOrSeparator(t, n - 1) && DigitOrSeparator(t, 0);
        forall i | 0 <= i < m
          ensures DigitOrSeparator(front, i)
        {
          assert DigitOrSeparator(t, i);
        }
      }
    } else {
      assert Digits(t) ==> DigitOrSeparator(t, 0);
    }
  }

  lemma {:induction false} ParseDigitsIff(t: seq<byte>)
    ensures ParseDigits(t).Some? <==> Digits(t)
    ensures ParseDigits(t).Some? ==> ParseDigits(t).value == Worth(t)
    decreases |t|
  {
    if t != [] {
      var n := |t| - 1;
      DigitsSnoc(t);
      if n > 0 {
        var front := if t[n - 1] == 95 then t[..n - 1] else t[..n];
        ParseDigitsIff(front);
        assert t[n - 1] == 95 ==> t[..n][..n - 1] == front && Worth(t[..n]) == Worth(front);
      } else {
        assert t[..n] == [];
      }
    }
  }

  lemma {:induction false} StripLeftOf(a: seq<byte>, u: seq<byte>)
    requires Spaces(a) && (u == [] || !Spaces(u[..1]))
    ensures StripLeft(a + u) == u
    decreases |a|
  {
    if a == [] {
      assert a + u == u;
      assert u != [] ==> u[..1] == [u[0]];
    } else {
      assert (a + u)[1..] == a[1..] + u;
      StripLeftOf(a[1..], u);
    }
  }

  lemma {:induction false} StripRightOf(u: seq<byte>, b: seq<byte>)
    requires Spaces(b) && (u == [] || !Spaces(u[|u| - 1..]))
    ensures StripRight(u + b) == u
    decreases |b|
  {
    if b == [] {
      assert u + b == u;
      assert u != [] ==> u[|u| - 1..] == [u[|u| - 1]];
    } else {
      assert (u + b)[..|u| + |b| - 1] == u + b[..|b| - 1];
      StripRightOf(u, b[..|b| - 1]);
    }
  }

  lemma {:induction false} StripLeftSplits(t: seq<byte>) returns (a: seq<byte>)
    ensures t == a + StripLeft(t) && Spaces(a)
    decreases |t|
  {
    if t != [] && IsSpace(t[0]) {
      var rest := StripLeftSplits(t[1..]);
      a := [t[0]] + rest;
      assert t == [t[0]] + t[1..];
    } else {
      a := [];
    }
  }

  lemma {:induction false} StripRightSplits(t: seq<byte>) returns (b: seq<byte>)
    ensures t == StripRight(t) + b && Spaces(b)
    decreases |t|
  {
    if t != [] && IsSpace(t[|t| - 1]) {
      var rest := StripRightSplits(t[..|t| - 1]);
      b := rest + [t[|t| - 1]];
      assert t == t[..|t| - 1] + [t[|t| - 1]];
    } else {
      b := [];
    }
  }

  /** int() accepts exactly the numerals, and returns what they are worth. */
  lemma PyIntIff(t: seq<byte>, n: int)
    ensures PyInt(t) == Some(n) <==> Numeral(t, n)
  {
    if PyInt(t) == Some(n) {
      ParsedIsNumeral(t, n);
    }
    if Numeral(t, n) {
      hide PyInt;
      var a, sign, digits, b :| IsNumeral(t, a, sign, digits, b, n);
      NumeralParses(t, a, sign, digits, b, n);
    }
  }

  lemma ParsedIsNumeral(t: seq<byte>, n: int)
    requires PyInt(t) == Some(n)
    ensures Numeral(t, n)
  {
    var a := StripLeftSplits(t);
    var b := StripRightSplits(StripLeft(t));
    var u := StripRight(StripLeft(t));
    hide StripLeft, StripRight, Digits, ParseDigits, Spaces, Worth;
    ParseDigitsIff(u);
    ParseDigitsIff(u[1..]);
    Associative(a, u, b);
    if u[0] == MINUS || u[0] == PLUS {
      assert u == [u[0]] + u[1..];
      assert IsNumeral(t, a, [u[0]], u[1..], b, n);
    } else {
      assert u == [] + u;
      assert IsNumeral(t, a, [], u, b, n);
    }
  }

  lemma NumeralParses(t: seq<byte>, a: seq<byte>, sign: seq<byte>, digits: seq<byte>, b: seq<byte>, n: int)
    requires IsNumeral(t, a, sign, digits, b, n)
    ensures PyInt(t) == Some(n)
  {
    var u := sign + digits;
    NoSpaceAround(sign, digits);
    assert (u + b)[..1] == u[..1];
    Associative(a, u, b);
    StripLeftOf(a, u + b);
    StripRightOf(u, b);
    ParseDigitsIff(digits);
    hide StripLeft, StripRight, ParseDigits, Digits, Spaces, Worth;
    if sign == [] {
      assert u == digits;
    } else {
      assert u[1..] == digits;
    }
  }

  lemma NoSpaceAround(sign: seq<byte>, digits: seq<byte>)
    requires sign in [[], [43], [45]] && Digits(digits)
    ensures var u := sign + digits;
      && u != [] && !Spaces(u[..1]) && !Spaces(u[|u| - 1..])
      && (sign == [] ==> 48 <= u[0] <= 57) && (sign != [] ==> u[0] == sign[0])
  {
    var u := sign + digits;
    assert DigitOrSeparator(digits, 0) && DigitOrSeparator(digits, |digits| - 1);
    assert u[..1] == [u[0]] && u[|u| - 1..] == [u[|u| - 1]];
    assert u[|u| - 1] == digits[|digits| - 1];
    assert [u[0]][0] == u[0] && [u[|u| - 1]][0] == u[|u| - 1];
  }

  /** "-0" and what follows it, and "0" with anything behind it. */
  ghost predicate Refused(t: seq<byte>) {
    (|t| >= 2 && t[0] == 45 && t[1] == 48) || (|t| >= 2 && t[0] == 48)
  }

  /** Between i and the next e: the numerals that do not begin with "-0", nor with "0" unless that is all. */
  lemma IntAcceptedIff(x: seq<byte>, f: int, t: seq<byte>, n: int)
    requires HasAt(x, f, [105] + (t + [101])) && 101 !in t
    ensures DecodeInt(x, f) == Done(Int(n), f + |t| + 2) <==> Numeral(t, n) && !Refused(t)
    ensures DecodeInt(x, f) == Failed || exists m :: DecodeInt(x, f) == Done(Int(m), f + |t| + 2)
  {
    hide PyInt, Numeral, Index, PySlice;
    HasParts(x, f, [105], t + [101]);
    IndexAfter(x, f + 1, t, END_DELIM);
    PyIntIff(t, n);
    AtText(x, f + 1, t, 101);
  }

  /** The first two characters the parser looks at. */
  lemma AtText(x: seq<byte>, f: int, t: seq<byte>, c: byte)
    requires HasAt(x, f, t + [c])
    ensures At(x, f) == [(t + [c])[0]]
    ensures t != [] ==> At(x, f + 1) == [(t + [c])[1]]
  {
    AtHas(x, f, t + [c]);
    if t != [] {
      assert t + [c] == [t[0]] + (t[1..] + [c]);
      HasParts(x, f, [t[0]], t[1..] + [c]);
      AtHas(x, f + 1, t[1..] + [c]);
    }
  }

  /** What decode_string does once the colon is found. */
  lemma StringAt(x: seq<byte>, f: int, t: seq<byte>)
    requires HasAt(x, f, t + [58]) && 58 !in t
    ensures match PyInt(t)
      case None => DecodeString(x, f) == None
      case Some(n) =>
        var at := f + |t| + 1;
        if At(x, f) == [ZERO] && |t| != 1 then DecodeString(x, f) == None
        else DecodeString(x, f) == Some((PySlice(x, at, at + n), at + n))
  {
    hide PyInt, Index, At;
    IndexAfter(x, f, t, BYTE_SEP);
    hide PySlice, HasAt;
  }

  /** Before the colon: the numerals that do not begin with "0" unless that is all; then come that many bytes, if there are as many. */
  lemma StringAcceptedIff(x: seq<byte>, f: int, t: seq<byte>, n: int)
    requires HasAt(x, f, t + [58]) && 58 !in t
    ensures (DecodeString(x, f).Some? && DecodeString(x, f).value.1 == f + |t| + 1 + n)
      <==> Numeral(t, n) && !(|t| >= 2 && t[0] == 48)
    ensures DecodeString(x, f).Some? && Numeral(t, n) && n >= 0 ==>
      DecodeString(x, f).value.0 == x[f + |t| + 1..Min(f + |t| + 1 + n, |x|)]
  {
    StringAt(x, f, t);
    PyIntIff(t, n);
    AtText(x, f, t, 58);
    NoNumeralIsEmpty(t);
    if n >= 0 {
      SliceForward(x, f + |t| + 1, n);
    }
    hide PyInt, Numeral, Index, DecodeString, PySlice, At;
  }

  lemma NoNumeralIsEmpty(t: seq<byte>)
    ensures PyInt(t).Some? ==> t != []
  {
  }

  lemma SliceForward(x: seq<byte>, at: int, n: nat)
    requires 0 <= at <= |x|
    ensures PySlice(x, at, at + n) == x[at..Min(at + n, |x|)]
  {
  }

  // ---------------------------------------------------------------- any input

  lemma {:induction false} DigitsStart(t: seq<byte>)
    requires t != [] && IsDigit(t[0])
    ensures PyInt(t).Some? ==> PyInt(t).value >= 0
  {
    StripRightKeeps(t);
  }

  lemma {:induction false} StripRightKeeps(t: seq<byte>)
    requires t != [] && IsDigit(t[0])
    ensures StripRight(t) != [] && StripRight(t)[0] == t[0]
    decreases |t|
  {
    if IsSpace(t[|t| - 1]) {
      StripRightKeeps(t[..|t| - 1]);
    }
  }

  /** A string whose length starts with a digit moves the cursor forward. */
  lemma StringAdvances(x: seq<byte>, f: int)
    requires 0 <= f && At(x, f) != [] && IsDigit(At(x, f)[0])
    ensures DecodeString(x, f).Some? ==> DecodeString(x, f).value.1 > f
  {
    var colon := Index(x, BYTE_SEP, f);
    if colon.Some? && colon.value > f {
      assert PySlice(x, f, colon.value)[0] == x[f];
      DigitsStart(PySlice(x, f, colon.value));
    }
  }

  lemma IntAdvances(x: seq<byte>, f: int)
    requires 0 <= f
    ensures DecodeInt(x, f).Done? ==> DecodeInt(x, f).next > f
  {
  }

  function Left(x: seq<byte>, f: int): nat { if f < |x| then |x| - f else 0 }

  /** The strict parser always comes to an end within two steps per byte, and moves the cursor forward. */
  lemma {:induction false} StrictEnds(x: seq<byte>, f: int, fuel: nat)
    requires 0 <= f && fuel > 2 * Left(x, f)
    ensures DecodeAt(x, f, true, fuel) != OutOfFuel
    ensures DecodeAt(x, f, true, fuel).Done? ==> DecodeAt(x, f, true, fuel).next > f
    decreases fuel
  {
    hide DecodeInt, DecodeString, PySlice;
    EmptyAtEnd(x, f);
    if At(x, f) == [LIST_DELIM] {
      StrictListEnds(x, f + 1, [], fuel - 1);
    } else if At(x, f) == [DICT_DELIM] {
      StrictDictEnds(x, f + 1, map[], fuel - 1);
    } else if At(x, f) == [INT_DELIM] {
      IntAdvances(x, f);
      IntNeverOutOfFuel(x, f);
    } else if At(x, f) != [] && IsDigit(At(x, f)[0]) {
      StringAdvances(x, f);
    }
  }

  lemma EmptyAtEnd(x: seq<byte>, f: int)
    requires 0 <= f
    ensures At(x, f) == [] <==> f >= |x|
  {
  }

  lemma IntNeverOutOfFuel(x: seq<byte>, f: int)
    ensures DecodeInt(x, f).Done? || DecodeInt(x, f).Failed?
  {
  }

  lemma {:induction false} StrictListEnds(x: seq<byte>, f: int, r: seq<Value>, fuel: nat)
    requires 0 <= f && fuel > 2 * Left(x, f) + 1
    ensures DecodeListFrom(x, f, r, true, fuel) != OutOfFuel
    ensures DecodeListFrom(x, f, r, true, fuel).Done? ==> DecodeListFrom(x, f, r, true, fuel).next > f
    decreases fuel
  {
    hide PySlice, DecodeAt;
    if At(x, f) != [END_DELIM] {
      StrictEnds(x, f, fuel - 1);
      var o := DecodeAt(x, f, true, fuel - 1);
      EmptyAtEnd(x, f);
      if o.Done? {
        NothingAtEnd(x, f, fuel - 1);
        StrictListEnds(x, o.next, r + [o.value], fuel - 1);
      }
    }
  }

  lemma NothingAtEnd(x: seq<byte>, f: int, fuel: nat)
    requires 0 <= f && DecodeAt(x, f, true, fuel).Done?
    ensures f < |x|
  {
    EmptyAtEnd(x, f);
  }

  lemma NoStringAtEnd(x: seq<byte>, f: int)
    ensures f >= |x| ==> DecodeString(x, f) == None
  {
  }

  lemma {:induction false} StrictDictEnds(x: seq<byte>, f: int, r: map<Key, Value>, fuel: nat)
    requires 0 <= f && fuel > 2 * Left(x, f) + 1
    ensures DecodeDictFrom(x, f, r, true, fuel) != OutOfFuel
    ensures DecodeDictFrom(x, f, r, true, fuel).Done? ==> DecodeDictFrom(x, f, r, true, fuel).next > f
    decreases fuel
  {
    hide PySlice, DecodeAt, DecodeString;
    if At(x, f) != [END_DELIM] {
      NoStringAtEnd(x, f);
      var key := DecodeString(x, f);
      if key.Some? && key.value.1 > f {
        StrictEnds(x, key.value.1, fuel - 1);
        var o := DecodeAt(x, key.value.1, true, fuel - 1);
        if o.Done? {
          StrictDictEnds(x, o.next, r[key.value.0 := o.value], fuel - 1);
        }
      }
    }
  }

  /** Where every dictionary key met moves the cursor forward, the program's parser does what the strict one does. */
  lemma {:induction false} AgreesWithStrict(x: seq<byte>, f: int, fuel: nat)
    requires DecodeAt(x, f, true, fuel) != BadKey
    ensures DecodeAt(x, f, false, fuel) == DecodeAt(x, f, true, fuel)
    decreases fuel
  {
    hide DecodeInt, DecodeString, PySlice;
    if fuel > 0 {
      if At(x, f) == [LIST_DELIM] {
        ListAgrees(x, f + 1, [], fuel - 1);
      } else if At(x, f) == [DICT_DELIM] {
        DictAgrees(x, f + 1, map[], fuel - 1);
      }
    }
  }

  lemma {:induction false} ListAgrees(x: seq<byte>, f: int, r: seq<Value>, fuel: nat)
    requires DecodeListFrom(x, f, r, true, fuel) != BadKey
    ensures DecodeListFrom(x, f, r, false, fuel) == DecodeListFrom(x, f, r, true, fuel)
    decreases fuel
  {
    hide PySlice, DecodeAt;
    if At(x, f) != [END_DELIM] && fuel > 0 {
      AgreesWithStrict(x, f, fuel - 1);
      var o := DecodeAt(x, f, true, fuel - 1);
      if o.Done? {
        ListAgrees(x, o.next, r + [o.value], fuel - 1);
      }
    }
  }

  lemma {:induction false} DictAgrees(x: seq<byte>, f: int, r: map<Key, Value>, fuel: nat)
    requires DecodeDictFrom(x, f, r, true, fuel) != BadKey
    ensures DecodeDictFrom(x, f, r, false, fuel) == DecodeDictFrom(x, f, r, true, fuel)
    decreases fuel
  {
    hide PySlice, DecodeAt, DecodeString;
    if At(x, f) != [END_DELIM] && fuel > 0 {
      var key := DecodeString(x, f);
      if key.Some? {
        AgreesWithStrict(x, key.value.1, fuel - 1);
        var o := DecodeAt(x, key.value.1, true, fuel - 1);
        if o.Done? {
          DictAgrees(x, o.next, r[key.value.0 := o.value], fuel - 1);
        }
      }
    }
  }

  /** The program's parser ends, within two steps per byte, unless it meets a key that does not move the cursor forward. */
  lemma EndsUnlessKeyGoesBack(x: seq<byte>, f: int, n: nat)
    requires 0 <= f && n > 2 * Left(x, f) && DecodeAt(x, f, true, n) != BadKey
    ensures DecodeAt(x, f, false, n) != OutOfFuel
    ensures DecodeAt(x, f, false, n).Done? ==> DecodeAt(x, f, false, n).next > f
  {
    StrictEnds(x, f, n);
    AgreesWithStrict(x, f, n);
  }

  /** Every dictionary key the program's parser meets starts with a digit, as the standard has it. */
  ghost predicate DigitKeys(x: seq<byte>, f: int, fuel: nat)
    decreases fuel
  {
    if fuel == 0 then true
    else if At(x, f) == [LIST_DELIM] then DigitKeysInList(x, f + 1, fuel - 1)
    else At(x, f) == [DICT_DELIM] ==> DigitKeysInDict(x, f + 1, fuel - 1)
  }

  ghost predicate DigitKeysInList(x: seq<byte>, f: int, fuel: nat)
    decreases fuel
  {
    At(x, f) != [END_DELIM] && fuel > 0 ==>
      && DigitKeys(x, f, fuel - 1)
      && var o := DecodeAt(x, f, false, fuel - 1);
         o.Done? ==> DigitKeysInList(x, o.next, fuel - 1)
  }

  ghost predicate DigitKeysInDict(x: seq<byte>, f: int, fuel: nat)
    decreases fuel
  {
    At(x, f) != [END_DELIM] && fuel > 0 && DecodeString(x, f).Some? ==>
      && At(x, f) != [] && IsDigit(At(x, f)[0])
      && var next := DecodeString(x, f).value.1;
         var o := DecodeAt(x, next, false, fuel - 1);
         DigitKeys(x, next, fuel - 1) && (o.Done? ==> DigitKeysInDict(x, o.next, fuel - 1))
  }

  /** Then no key is refused, and the cursor moves forward. */
  lemma {:induction false} DigitKeysAdvance(x: seq<byte>, f: int, fuel: nat)
    requires 0 <= f && DigitKeys(x, f, fuel)
    ensures DecodeAt(x, f, true, fuel) != BadKey
    ensures DecodeAt(x, f, true, fuel).Done? ==> DecodeAt(x, f, true, fuel).next > f
    decreases fuel
  {
    hide DecodeInt, DecodeString, PySlice;
    if fuel > 0 {
      if At(x, f) == [LIST_DELIM] {
        DigitKeysInListAdvance(x, f + 1, [], fuel - 1);
      } else if At(x, f) == [DICT_DELIM] {
        DigitKeysInDictAdvance(x, f + 1, map[], fuel - 1);
      } else if At(x, f) == [INT_DELIM] {
        IntAdvances(x, f);
        IntNeverOutOfFuel(x, f);
      } else if At(x, f) != [] && IsDigit(At(x, f)[0]) {
        StringAdvances(x, f);
      }
    }
  }

  lemma {:induction false} DigitKeysInListAdvance(x: seq<byte>, f: int, r: seq<Value>, fuel: nat)
    requires 0 <= f && DigitKeysInList(x, f, fuel)
    ensures DecodeListFrom(x, f, r, true, fuel) != BadKey
    ensures DecodeListFrom(x, f, r, true, fuel).Done? ==> DecodeListFrom(x, f, r, true, fuel).next > f
    decreases fuel
  {
    hide PySlice, DecodeAt, DigitKeys;
    if At(x, f) != [END_DELIM] && fuel > 0 {
      DigitKeysAdvance(x, f, fuel - 1);
      AgreesWithStrict(x, f, fuel - 1);
      var o := DecodeAt(x, f, true, fuel - 1);
      if o.Done? {
        DigitKeysInListAdvance(x, o.next, r + [o.value], fuel - 1);
      }
    }
  }

  lemma {:induction false} DigitKeysInDictAdvance(x: seq<byte>, f: int, r: map<Key, Value>, fuel: nat)
    requires 0 <= f && DigitKeysInDict(x, f, fuel)
    ensures DecodeDictFrom(x, f, r, true, fuel) != BadKey
    ensures DecodeDictFrom(x, f, r, true, fuel).Done? ==> DecodeDictFrom(x, f, r, true, fuel).next > f
    decreases fuel
  {
    hide PySlice, DecodeAt, DecodeString, DigitKeys;
    if At(x, f) != [END_DELIM] && fuel > 0 {
      var key := DecodeString(x, f);
      if key.Some? {
        StringAdvances(x, f);
        DigitKeysAdvance(x, key.value.1, fuel - 1);
        AgreesWithStrict(x, key.value.1, fuel - 1);
        var o := DecodeAt(x, key.value.1, true, fuel - 1);
        if o.Done? {
          DigitKeysInDictAdvance(x, o.next, r[key.value.0 := o.value], fuel - 1);
        }
      }
    }
  }

  /** The program's parser ends on every input all of whose dictionary keys start with a digit. */
  lemma DigitKeysEnd(x: seq<byte>, f: int, n: nat)
    requires 0 <= f && n > 2 * Left(x, f) && DigitKeys(x, f, n)
    ensures DecodeAt(x, f, false, n) != OutOfFuel && DecodeAt(x, f, false, n) != BadKey
    ensures DecodeAt(x, f, false, n).Done? ==> DecodeAt(x, f, false, n).next > f
  {
    DigitKeysAdvance(x, f, n);
    EndsUnlessKeyGoesBack(x, f, n);
    AgreesWithStrict(x, f, n);
  }

  /** d-9: -- a key that moves the cursor back without making the program's parser go on forever. */
  const BACKWARD: seq<byte> := [100, 45, 57, 58]

  /** Going back does not by itself mean going on forever. */
  lemma BackwardKeyCanEnd()
    ensures DecodeAt(BACKWARD, 0, true, 9) == BadKey && DecodeAt(BACKWARD, 0, false, 9) == Failed
  {
    var x := BACKWARD;
    PyIntDecimal(-9);
    assert DecimalNat(9) == [57] && Decimal(-9) == [45] + [57] == [45, 57];
    FirstIndexAt(x, BYTE_SEP, 1, 3);
    hide PyInt;
    assert x[0] == 100 && x[1] == 45;
    assert PySlice(x, 1, 3) == [45, 57] && At(x, 1) == [45] && At(x, 0) == [DICT_DELIM];
    assert At(x, -5) == [];
    assert DecodeString(x, 1).Some? && DecodeString(x, 1).value.1 == -5;
    hide DecodeString, At, BACKWARD;
    assert DecodeAt(x, -5, false, 7) == Failed;
    assert DecodeDictFrom(x, 1, map[], false, 8) == Failed;
    assert DecodeDictFrom(x, 1, map[], true, 8) == BadKey;
  }

  /** d1:ai1e-6: -- after its one pair the key "-6:" moves the cursor back onto the value. */
  const LOOPING: seq<byte> := [100, 49, 58, 97, 105, 49, 101, 45, 54, 58]

  lemma LoopingInts()
    ensures PyInt([49]) == Some(1) && PyInt([45, 54]) == Some(-6)
  {
    PyIntDecimal(1);
    PyIntDecimal(-6);
    assert DecimalNat(6) == [54];
    assert Decimal(1) == [49] && Decimal(-6) == [45] + [54] == [45, 54];
  }

  lemma LoopingBytes()
    ensures At(LOOPING, 0) == [DICT_DELIM] && At(LOOPING, 1) == [49] && At(LOOPING, 4) == [INT_DELIM] && At(LOOPING, 7) == [MINUS]
  {
    var x := LOOPING;
    assert x[0] == 100 && x[1] == 49 && x[4] == 105 && x[7] == 45;
  }

  lemma LoopingPasses()
    ensures DecodeString(LOOPING, 1) == Some(([97], 4))
    ensures DecodeString(LOOPING, 7) == Some(([], 4))
    ensures DecodeInt(LOOPING, 4) == Done(Int(1), 7)
  {
    hide PyInt;
    LoopingInts();
    var x := LOOPING;
    FirstIndexAt(x, BYTE_SEP, 1, 2);
    FirstIndexAt(x, BYTE_SEP, 7, 9);
    FirstIndexAt(x, END_DELIM, 5, 6);
    assert PySlice(x, 1, 2) == [49] && PySlice(x, 7, 9) == [45, 54] && PySlice(x, 5, 6) == [49];
    assert PySlice(x, 3, 4) == [97] && PySlice(x, 10, 4) == [];
    assert At(x, 1) == [49] && At(x, 7) == [45] && At(x, 5) == [49];
  }

  lemma {:induction false} LoopingDict(r: map<Key, Value>, fuel: nat)
    ensures DecodeDictFrom(LOOPING, 7, r, false, fuel) == OutOfFuel
    decreases fuel
  {
    LoopingPasses();
    LoopingBytes();
    var x := LOOPING;
    hide DecodeInt, DecodeString, At, LOOPING;
    if fuel > 0 {
      var o := DecodeAt(x, 4, false, fuel - 1);
      if o.Done? {
        assert o == Done(Int(1), 7);
        LoopingDict(r[[] := o.value], fuel - 1);
      }
    }
  }

  /** The first pass of the dictionary loop reads the pair a: 1. */
  lemma LoopingFirst(strict: bool, fuel: nat)
    requires fuel > 1
    ensures DecodeDictFrom(LOOPING, 1, map[], strict, fuel)
         == DecodeDictFrom(LOOPING, 7, map[[97] := Int(1)], strict, fuel - 1)
  {
    LoopingPasses();
    LoopingBytes();
    hide DecodeInt, DecodeString, At, LOOPING;
    assert DecodeAt(LOOPING, 4, strict, fuel - 1) == Done(Int(1), 7);
    assert map[][[97] := Int(1)] == map[[97] := Int(1)];
  }

  /** The parser's cursor progress needs keys that move it forward: on this input it never ends. */
  lemma NegativeKeyNeverEnds(fuel: nat)
    ensures DecodeAt(LOOPING, 0, false, fuel) == OutOfFuel
    ensures fuel > 2 ==> DecodeAt(LOOPING, 0, true, fuel) == BadKey
  {
    LoopingPasses();
    LoopingBytes();
    hide DecodeInt, DecodeString, At, LOOPING;
    if fuel > 2 {
      LoopingFirst(false, fuel - 1);
      LoopingFirst(true, fuel - 1);
      LoopingDict(map[[97] := Int(1)], fuel - 2);
    }
  }

  /** More fuel never changes an answer. */
  lemma {:induction false} FuelMonotone(x: seq<byte>, f: int, strict: bool, fuel: nat)
    requires DecodeAt(x, f, strict, fuel) != OutOfFuel
    ensures DecodeAt(x, f, strict, fuel + 1) == DecodeAt(x, f, strict, fuel)
    decreases fuel
  {
    hide DecodeInt, DecodeString, PySlice;
    if At(x, f) == [LIST_DELIM] {
      ListFuelMonotone(x, f + 1, [], strict, fuel - 1);
    } else if At(x, f) == [DICT_DELIM] {
      DictFuelMonotone(x, f + 1, map[], strict, fuel - 1);
    }
  }

  lemma {:induction false} ListFuelMonotone(x: seq<byte>, f: int, r: seq<Value>, strict: bool, fuel: nat)
    requires DecodeListFrom(x, f, r, strict, fuel) != OutOfFuel
    ensures DecodeListFrom(x, f, r, strict, fuel + 1) == DecodeListFrom(x, f, r, strict, fuel)
    decreases fuel
  {
    hide PySlice, DecodeAt;
    if At(x, f) != [END_DELIM] {
      FuelMonotone(x, f, strict, fuel - 1);
      var o := DecodeAt(x, f, strict, fuel - 1);
      if o.Done? {
        ListFuelMonotone(x, o.next, r + [o.value], strict, fuel - 1);
      }
    }
  }

  lemma {:induction false} DictFuelMonotone(x: seq<byte>, f: int, r: map<Key, Value>, strict: bool, fuel: nat)
    requires DecodeDictFrom(x, f, r, strict, fuel) != OutOfFuel
    ensures DecodeDictFrom(x, f, r, strict, fuel + 1) == DecodeDictFrom(x, f, r, strict, fuel)
    decreases fuel
  {
    hide PySlice, DecodeAt, DecodeString;
    if At(x, f) != [END_DELIM] {
      var key := DecodeString(x, f);
      if key.Some? && !(strict && key.value.1 <= f) {
        FuelMonotone(x, key.value.1, strict, fuel - 1);
        var o := DecodeAt(x, key.value.1, strict, fuel - 1);
        if o.Done? {
          DictFuelMonotone(x, o.next, r[key.value.0 := o.value], strict, fuel - 1);
        }
      }
    }
  }

  // ---------------------------------------------------------------- the loops

  /** The list of chunks that all encode functions append to. */
  class Chunks {
    var items: seq<seq<byte>>

    constructor ()
      ensures items == []
    {
      items := [];
    }

    method Append(chunk: seq<byte>)
      modifies this
      ensures items == old(items) + [chunk]
    {
      items := items + [chunk];
    }
  }

  /** b''.join(items) */
  function Joined(items: seq<seq<byte>>): seq<byte> {
    if items == [] then [] else Joined(items[..|items| - 1]) + items[|items| - 1]
  }

  lemma JoinedSnoc(items: seq<seq<byte>>, chunk: seq<byte>)
    ensures Joined(items + [chunk]) == Joined(items) + chunk
  {
    assert (items + [chunk])[..|items|] == items;
  }

  method Emit(chunk: seq<byte>, r: Chunks)
    modifies r
    ensures Joined(r.items) == Joined(old(r.items)) + chunk
  {
    JoinedSnoc(r.items, chunk);
    r.Append(chunk);
  }

  method EmitBytes(b: seq<byte>, r: Chunks)
    modifies r
    ensures Joined(r.items) == Joined(old(r.items)) + EncodeBytes(b)
  {
    ghost var before := Joined(r.items);
    Emit(Decimal(|b|), r);
    Emit([BYTE_SEP], r);
    Emit(b, r);
    assert before + Decimal(|b|) + [BYTE_SEP] + b == before + EncodeBytes(b);
  }

  method EmitInt(n: int, r: Chunks)
    modifies r
    ensures Joined(r.items) == Joined(old(r.items)) + EncodeInt(n)
  {
    ghost var before := Joined(r.items);
    Emit([INT_DELIM], r);
    Emit(Decimal(n), r);
    Emit([END_DELIM], r);
    assert before + [INT_DELIM] + Decimal(n) + [END_DELIM] == before + EncodeInt(n);
  }

  /** encode_func[type(v)](v, r): append the chunks of v. */
  method EncodeValue(v: Value, r: Chunks)
    modifies r
    ensures Joined(r.items) == Joined(old(r.items)) + Encode(v)
    decreases v, 1
  {
    match v
    case Int(n) => EmitInt(n, r);
    case Bool(b) => EmitInt(if b then 1 else 0, r);
    case Str(text) => EmitBytes(Utf8.Encode(text), r);
    case Raw(bytes) => EmitBytes(bytes, r);
    case List(items) => EncodeList(v, r);
    case Dict(pairs) => EncodeDict(v, r);
    case StrDict(pairs) => EncodeStrDict(v, r);
  }

  lemma PairsStep(v: Value, keys: seq<Key>, i: nat, done: seq<byte>)
    requires v.Dict? && (forall k :: k in keys ==> k in v.pairs) && i < |keys|
    ensures done + EncodeBytes(keys[i]) + Encode(v.pairs[keys[i]]) + EncodePairs(v, keys[i + 1..])
         == done + EncodePairs(v, keys[i..])
  {
    hide Encode, EncodeBytes;
    assert keys[i..][1..] == keys[i + 1..];
    var k, e, rest := EncodeBytes(keys[i]), Encode(v.pairs[keys[i]]), EncodePairs(v, keys[i + 1..]);
    Associative(done + k, e, rest);
    Associative(done, k, e + rest);
    Associative(k, e, rest);
  }

  lemma StrPairsStep(v: Value, keys: seq<Text>, i: nat, done: seq<byte>)
    requires v.StrDict? && (forall k :: k in keys ==> k in v.strPairs) && i < |keys|
    ensures done + EncodeBytes(Utf8.Encode(keys[i])) + Encode(v.strPairs[keys[i]]) + EncodeStrPairs(v, keys[i + 1..])
         == done + EncodeStrPairs(v, keys[i..])
  {
    hide Encode, EncodeBytes;
    assert keys[i..][1..] == keys[i + 1..];
    var k, e, rest := EncodeBytes(Utf8.Encode(keys[i])), Encode(v.strPairs[keys[i]]), EncodeStrPairs(v, keys[i + 1..]);
    Associative(done + k, e, rest);
    Associative(done, k, e + rest);
    Associative(k, e, rest);
  }

  /** What the markers around a container's body make of the output. */
  lemma Enclosed(v: Value, before: seq<byte>, body: seq<byte>)
    requires
      || (v.List? && body == EncodeItems(v.items))
      || (v.Dict? && body == EncodePairs(v, SortedKeys(v.pairs)))
      || (v.StrDict? && body == EncodeStrPairs(v, SortedTexts(v.strPairs)))
    ensures before + [if v.List? then LIST_DELIM else DICT_DELIM] + body + [END_DELIM] == before + Encode(v)
  {
    hide EncodeItems, EncodePairs, EncodeStrPairs;
    var open := [if v.List? then LIST_DELIM else DICT_DELIM];
    assert Encode(v) == open + body + [END_DELIM];
    Associative(before, open, body);
    Associative(before, open + body, [END_DELIM]);
  }

  method EncodeList(v: Value, r: Chunks)
    requires v.List?
    modifies r
    ensures Joined(r.items) == Joined(old(r.items)) + Encode(v)
    decreases v, 0
  {
    hide Joined, Encode;
    ghost var before := Joined(r.items);
    Emit([LIST_DELIM], r);
    ghost var start := Joined(r.items);
    var i := 0;
    assert v.items[0..] == v.items;
    while i < |v.items|
      invariant 0 <= i <= |v.items|
      invariant Joined(r.items) + EncodeItems(v.items[i..]) == start + EncodeItems(v.items)
    {
      EncodeValue(v.items[i], r);
      i := i + 1;
    }
    assert Joined(r.items) + [] == Joined(r.items);
    Emit([END_DELIM], r);
    Enclosed(v, before, EncodeItems(v.items));
  }

  method EncodeDict(v: Value, r: Chunks)
    requires v.Dict?
    modifies r
    ensures Joined(r.items) == Joined(old(r.items)) + Encode(v)
    decreases v, 0
  {
    hide Joined, Encode, EncodeBytes;
    ghost var before := Joined(r.items);
    Emit([DICT_DELIM], r);
    ghost var start := Joined(r.items);
    var keys := SortKeys(v.pairs);
    var i := 0;
    assert keys[0..] == keys;
    while i < |keys|
      invariant 0 <= i <= |keys|
      invariant Joined(r.items) + EncodePairs(v, keys[i..]) == start + EncodePairs(v, keys)
    {
      PairsStep(v, keys, i, Joined(r.items));
      EmitBytes(keys[i], r);
      EncodeValue(v.pairs[keys[i]], r);
      i := i + 1;
    }
    assert Joined(r.items) + [] == Joined(r.items);
    Emit([END_DELIM], r);
    Enclosed(v, before, EncodePairs(v, keys));
  }

  method EncodeStrDict(v: Value, r: Chunks)
    requires v.StrDict?
    modifies r
    ensures Joined(r.items) == Joined(old(r.items)) + Encode(v)
    decreases v, 0
  {
    hide Joined, Encode, EncodeBytes;
    ghost var before := Joined(r.items);
    Emit([DICT_DELIM], r);
    ghost var start := Joined(r.items);
    var keys := SortTexts(v.strPairs);
    var i := 0;
    assert keys[0..] == keys;
    while i < |keys|
      invariant 0 <= i <= |keys|
      invariant Joined(r.items) + EncodeStrPairs(v, keys[i..]) == start + EncodeStrPairs(v, keys)
    {
      StrPairsStep(v, keys, i, Joined(r.items));
      EmitBytes(Utf8.Encode(keys[i]), r);
      EncodeValue(v.strPairs[keys[i]], r);
      i := i + 1;
    }
    assert Joined(r.items) + [] == Joined(r.items);
    Emit([END_DELIM], r);
    Enclosed(v, before, EncodeStrPairs(v, keys));
  }

  method SortKeys(pairs: map<Key, Value>) returns (keys: seq<Key>)
    ensures keys == SortedKeys(pairs)
  {
    var sorted := Utf8.SortSet(pairs.Keys);
    assert sorted == SortedKeys(pairs);
    keys := sorted;
  }

  method SortTexts(pairs: map<Text, Value>) returns (keys: seq<Text>)
    ensures keys == SortedTexts(pairs)
  {
    var sorted := Utf8.SortSet(pairs.Keys);
    assert sorted == SortedTexts(pairs);
    keys := sorted;
  }

  /** bencode: the printed bytes are read back, all of them, as what the value reads as. */
  method Bencode(v: Value) returns (bytes: seq<byte>)
    ensures bytes == Encode(v)
    ensures forall fuel: nat :: fuel >= |bytes| ==>
      var o := DecodeAt(bytes, 0, false, fuel);
      o.Done? && o.next == |bytes| && ReadsAs(v, o.value)
  {
    hide Encode, DecodeAt, ReadsAs;
    var r := new Chunks();
    EncodeValue(v, r);
    bytes := Joined(r.items);
    assert bytes == Encode(v);
    forall fuel: nat | fuel >= |bytes|
      ensures var o := DecodeAt(bytes, 0, false, fuel);
        o.Done? && o.next == |bytes| && ReadsAs(v, o.value)
    {
      PrintedReadsBack(v, fuel);
    }
  }

  /** decode_func[x[f]](x, f) as the program runs it, for as many steps as there is fuel. */
  method DecodeValue(x: seq<byte>, f: int, fuel: nat) returns (o: Outcome)
    ensures o == DecodeAt(x, f, false, fuel)
    decreases fuel
  {
    hide PySlice, DecodeInt, DecodeString, DecodeListFrom, DecodeDictFrom;
    if fuel == 0 {
      return OutOfFuel;
    }
    var marker := At(x, f);
    if marker == [LIST_DELIM] {
      o := DecodeList(x, f, fuel - 1);
    } else if marker == [DICT_DELIM] {
      o := DecodeDict(x, f, fuel - 1);
    } else if marker == [INT_DELIM] {
      o := DecodeInt(x, f);
    } else if marker != [] && IsDigit(marker[0]) {
      var s := DecodeString(x, f);
      o := if s.Some? then Done(Raw(s.value.0), s.value.1) else Failed;
    } else {
      o := Failed;
    }
  }

  method DecodeList(x: seq<byte>, f0: int, fuel0: nat) returns (o: Outcome)
    ensures o == DecodeListFrom(x, f0 + 1, [], false, fuel0)
    decreases fuel0
  {
    hide PySlice, DecodeAt;
    var r, f, fuel: nat := [], f0 + 1, fuel0;
    while At(x, f) != [END_DELIM]
      invariant fuel <= fuel0
      invariant DecodeListFrom(x, f, r, false, fuel) == DecodeListFrom(x, f0 + 1, [], false, fuel0)
      decreases fuel
    {
      if fuel == 0 {
        return OutOfFuel;
      }
      o := DecodeValue(x, f, fuel - 1);
      if !o.Done? {
        return;
      }
      r, f, fuel := r + [o.value], o.next, fuel - 1;
    }
    o := Done(List(r), f + 1);
  }

  method DecodeDict(x: seq<byte>, f0: int, fuel0: nat) returns (o: Outcome)
    ensures o == DecodeDictFrom(x, f0 + 1, map[], false, fuel0)
    decreases fuel0
  {
    hide PySlice, DecodeAt, DecodeString;
    var r: map<Key, Value>, f, fuel: nat := map[], f0 + 1, fuel0;
    while At(x, f) != [END_DELIM]
      invariant fuel <= fuel0
      invariant DecodeDictFrom(x, f, r, false, fuel) == DecodeDictFrom(x, f0 + 1, map[], false, fuel0)
      decreases fuel
    {
      if fuel == 0 {
        return OutOfFuel;
      }
      var key := DecodeString(x, f);
      if key == None {
        return Failed;
      }
      o := DecodeValue(x, key.value.1, fuel - 1);
      if !o.Done? {
        return;
      }
      r, f, fuel := r[key.value.0 := o.value], o.next, fuel - 1;
    }
    o := Done(Dict(r), f + 1);
  }

  /** bdecode: the value at position 0, whatever follows it; None where BTFailure is raised. */
  method Bdecode(x: seq<byte>, fuel: nat) returns (v: Option<Value>, ended: bool)
    ensures ended <==> DecodeAt(x, 0, false, fuel) != OutOfFuel
    ensures v.Some? <==> DecodeAt(x, 0, false, fuel).Done?
    ensures v.Some? ==> v.value == DecodeAt(x, 0, false, fuel).value
  {
    var o := DecodeValue(x, 0, fuel);
    ended := o != OutOfFuel;
    v := if o.Done? then Some(o.value) else None;
  }
}
