/**
  The writer of binary message catalogs, against a reader of the format the
  GNU gettext manual gives under "The Format of GNU MO Files".
 */
module MoFile {
  import opened Bytes
  import Utf8
  import opened Wrappers

  type Text = seq<Utf8.Scalar>
  type Catalog = map<Text, Text>

  const MAGIC: nat := 0x950412DE
  const HEADER_SIZE: nat := 28

  // ---------------------------------------------------------------- words

  ghost predicate Fits(words: seq<nat>, limit: nat) {
    forall i :: 0 <= i < |words| ==> words[i] < limit
  }

  const UNSIGNED: nat := 0x1_0000_0000
  const SIGNED: nat := 0x8000_0000

  /** A 32-bit word, least significant byte first. */
  function Word(n: nat): (r: seq<byte>)
    requires n < UNSIGNED
    ensures |r| == 4
  {
    [n % 256, n / 256 % 256, n / 65536 % 256, n / 16777216]
  }

  function ReadWord(b: seq<byte>, at: nat): nat
    requires at + 4 <= |b|
  {
    var b0: int, b1: int, b2: int, b3: int := b[at], b[at + 1], b[at + 2], b[at + 3];
    b0 + 256 * b1 + 65536 * b2 + 16777216 * b3
  }

  lemma ReadOne(n: nat)
    requires n < UNSIGNED
    ensures ReadWord(Word(n), 0) == n
  {
    assert n / 65536 == n / 256 / 256 && n / 16777216 == n / 65536 / 256;
  }

  function Words(words: seq<nat>): (r: seq<byte>)
    requires Fits(words, UNSIGNED)
    ensures |r| == 4 * |words|
  {
    if words == [] then [] else Word(words[0]) + Words(words[1..])
  }

  lemma {:induction false} WordsConcat(a: seq<nat>, b: seq<nat>)
    requires Fits(a, UNSIGNED) && Fits(b, UNSIGNED)
    ensures Fits(a + b, UNSIGNED) && Words(a + b) == Words(a) + Words(b)
    decreases |a|
  {
    hide Word;
    if a == [] {
      assert a + b == b;
    } else {
      WordsConcat(a[1..], b);
      assert (a + b)[1..] == a[1..] + b;
      assert Words(a) + Words(b) == Word(a[0]) + (Words(a[1..]) + Words(b));
    }
  }

  /** Word i of a run of words, whatever follows it. */
  lemma {:induction false} ReadWords(words: seq<nat>, rest: seq<byte>, i: nat)
    requires Fits(words, UNSIGNED) && i < |words|
    ensures ReadWord(Words(words) + rest, 4 * i) == words[i]
    decreases |words|
  {
    var b := Words(words) + rest;
    var tail := Words(words[1..]) + rest;
    assert b == Word(words[0]) + tail;
    if i == 0 {
      ReadOne(words[0]);
    } else {
      ReadWords(words[1..], rest, i - 1);
      assert b[4 * i..4 * i + 4] == tail[4 * (i - 1)..4 * (i - 1) + 4];
    }
  }

  // ---------------------------------------------------------------- the file

  /** Each text followed by NUL. */
  function Joined(texts: seq<Text>): Text {
    if texts == [] then [] else Joined(texts[..|texts| - 1]) + texts[|texts| - 1] + [0]
  }

  /** Size in the file and position from the start of the region. */
  function Size(text: Text): nat { |Utf8.Encode(text)| }

  function Before(texts: seq<Text>, i: nat): nat
    requires i <= |texts|
  {
    Size(Joined(texts[..i]))
  }

  /** The index table of texts whose region is recorded to begin at `start`. */
  ghost function Index(texts: seq<Text>, start: nat): (r: seq<nat>)
    ensures |r| == 2 * |texts|
  {
    if texts == [] then []
    else
      var n := |texts| - 1;
      Index(texts[..n], start) + [Size(texts[n]), Before(texts, n) + start]
  }

  function KeyStart(n: nat): nat { HEADER_SIZE + 16 * n }

  /** valuestart: the keys are counted in characters, not in bytes. */
  function RecordedValueStart(keys: seq<Text>): nat { KeyStart(|keys|) + |Joined(keys)| }

  /** Where the values are put. */
  function ValueStart(keys: seq<Text>): nat { KeyStart(|keys|) + Size(Joined(keys)) }

  ghost function Tables(keys: seq<Text>, values: seq<Text>): (r: seq<nat>)
    requires |keys| == |values|
    ensures |r| == 4 * |keys|
  {
    Index(keys, KeyStart(|keys|)) + Index(values, RecordedValueStart(keys))
  }

  function Header(n: nat): seq<nat> { [MAGIC, 0, n, HEADER_SIZE, HEADER_SIZE + 8 * n, 0, 0] }

  ghost function Image(keys: seq<Text>, values: seq<Text>): seq<byte>
    requires |keys| == |values| && Fits(Header(|keys|) + Tables(keys, values), UNSIGNED)
  {
    Words(Header(|keys|) + Tables(keys, values)) + (Utf8.Encode(Joined(keys)) + Utf8.Encode(Joined(values)))
  }

  ghost function Keys(messages: Catalog): (r: seq<Text>)
    ensures Utf8.Ascending(r) && forall k: Text :: k in r <==> k in messages
  {
    var r := Utf8.Sorted(messages.Keys);
    assert forall i :: 0 <= i < |r| ==> r[i] in r && r[i] in messages.Keys;
    r
  }

  ghost function Values(messages: Catalog, keys: seq<Text>): (r: seq<Text>)
    requires forall k :: k in keys ==> k in messages
    ensures |r| == |keys|
  {
    seq(|keys|, i requires 0 <= i < |keys| => messages[keys[i]])
  }

  // ---------------------------------------------------------------- writing

  method SortKeys(messages: Catalog) returns (keys: seq<Text>)
    ensures keys == Keys(messages)
  {
    var sorted := Utf8.SortSet(messages.Keys);
    assert sorted == Keys(messages);
    keys := sorted;
  }

  datatype Offsets = Offsets(o1: nat, l1: nat, o2: nat, l2: nat)

  function OffsetsOf(keys: seq<Text>, values: seq<Text>, i: nat): Offsets
    requires i < |keys| == |values|
  {
    Offsets(Before(keys, i), Size(keys[i]), Before(values, i), Size(values[i]))
  }

  ghost predicate AllFit(messages: Catalog) {
    Fits(Tables(Keys(messages), Values(messages, Keys(messages))), SIGNED)
  }

  /** array.array('i', words).tobytes(): raises OverflowError unless every number is below 2^31. */
  method Pack(words: seq<nat>) returns (r: Option<seq<byte>>)
    ensures r.Some? <==> Fits(words, 0x8000_0000)
    ensures Fits(words, 0x8000_0000) ==> r == Some(Words(words))
  {
    var bytes: seq<byte> := [];
    var i := 0;
    assert words[..0] == [];
    while i < |words|
      invariant 0 <= i <= |words|
      invariant Fits(words[..i], SIGNED) && bytes == Words(words[..i])
    {
      if words[i] >= SIGNED {
        return None;
      }
      assert words[..i + 1] == words[..i] + [words[i]];
      WordsConcat(words[..i], [words[i]]);
      assert Words([words[i]]) == Word(words[i]);
      bytes := bytes + Word(words[i]);
      i := i + 1;
    }
    assert words[..i] == words;
    return Some(bytes);
  }

  /** The first loop: the offsets within the two regions, and the regions. */
  method Collect(messages: Catalog, keys: seq<Text>) returns (offsets: seq<Offsets>, ids: Text, strs: Text)
    requires forall k :: k in keys ==> k in messages
    ensures ids == Joined(keys) && strs == Joined(Values(messages, keys)) && |offsets| == |keys|
    ensures forall j :: 0 <= j < |keys| ==> offsets[j] == OffsetsOf(keys, Values(messages, keys), j)
  {
    hide Utf8.Encode, Joined;
    ghost var values := Values(messages, keys);
    offsets, ids, strs := [], [], [];
    var i := 0;
    JoinedEmpty(keys);
    JoinedEmpty(values);
    while i < |keys|
      invariant 0 <= i <= |keys| && |offsets| == i
      invariant ids == Joined(keys[..i]) && strs == Joined(values[..i])
      invariant forall j :: 0 <= j < i ==> offsets[j] == OffsetsOf(keys, values, j)
    {
      var id := keys[i];
      assert id in keys;
      JoinedSnoc(keys, i);
      JoinedSnoc(values, i);
      offsets := offsets + [Offsets(|Utf8.Encode(ids)|, |Utf8.Encode(id)|, |Utf8.Encode(strs)|, |Utf8.Encode(messages[id])|)];
      ids := ids + id + [0];
      strs := strs + messages[id] + [0];
      i := i + 1;
    }
    assert keys[..i] == keys && values[..i] == values;
  }

  /** The second loop: the two index tables, sizes before offsets. */
  method IndexTables(offsets: seq<Offsets>, keyStart: nat, valueStart: nat, ghost keys: seq<Text>, ghost values: seq<Text>)
    returns (tables: seq<nat>)
    requires |offsets| == |keys| == |values|
    requires forall j :: 0 <= j < |keys| ==> offsets[j] == OffsetsOf(keys, values, j)
    ensures tables == Index(keys, keyStart) + Index(values, valueStart)
  {
    hide Index, Size, Before;
    var koffsets: seq<nat>, voffsets: seq<nat> := [], [];
    var i := 0;
    IndexEmpty(keys, keyStart);
    IndexEmpty(values, valueStart);
    while i < |offsets|
      invariant 0 <= i <= |offsets|
      invariant koffsets == Index(keys[..i], keyStart) && voffsets == Index(values[..i], valueStart)
    {
      IndexSnoc(keys, i, keyStart);
      IndexSnoc(values, i, valueStart);
      koffsets := koffsets + [offsets[i].l1, offsets[i].o1 + keyStart];
      voffsets := voffsets + [offsets[i].l2, offsets[i].o2 + valueStart];
      i := i + 1;
    }
    assert keys[..i] == keys && values[..i] == values;
    tables := koffsets + voffsets;
  }

  /** generate(); None where packing the offsets overflows. */
  method Generate(messages: Catalog) returns (output: Option<seq<byte>>)
    ensures output.Some? <==> AllFit(messages)
    ensures AllFit(messages) ==>
      var keys := Keys(messages);
      Fits(Header(|keys|) + Tables(keys, Values(messages, keys)), UNSIGNED)
      && output == Some(Image(keys, Values(messages, keys)))
  {
    hide Utf8.Ascending, Utf8.Encode, Joined, Words, Index, Fits;
    var keys := SortKeys(messages);
    ghost var values := Values(messages, keys);
    var offsets, ids, strs := Collect(messages, keys);
    var keyStart := 7 * 4 + 16 * |keys|;
    var valueStart := keyStart + |ids|;
    var tables := IndexTables(offsets, keyStart, valueStart, keys, values);
    var packed := Pack(tables);
    if packed.None? {
      return None;
    }
    HeaderFits(keys, values);
    WordsConcat(Header(|keys|), tables);
    var bytes := Words(Header(|keys|)) + packed.value + Utf8.Encode(ids) + Utf8.Encode(strs);
    assert bytes == Words(Header(|keys|)) + packed.value + (Utf8.Encode(ids) + Utf8.Encode(strs));
    return Some(bytes);
  }

  lemma JoinedEmpty(texts: seq<Text>)
    ensures Joined(texts[..0]) == []
  {
  }

  lemma JoinedSnoc(texts: seq<Text>, i: nat)
    requires i < |texts|
    ensures Joined(texts[..i + 1]) == Joined(texts[..i]) + texts[i] + [0]
  {
    assert texts[..i + 1][..i] == texts[..i];
  }

  lemma IndexEmpty(texts: seq<Text>, start: nat)
    ensures Index(texts[..0], start) == []
  {
  }

  lemma IndexSnoc(texts: seq<Text>, i: nat, start: nat)
    requires i < |texts|
    ensures Index(texts[..i + 1], start) == Index(texts[..i], start) + [Size(texts[i]), Before(texts, i) + start]
  {
    assert texts[..i + 1][..i] == texts[..i];
  }

  /** The header's numbers are smaller than the offset of the first key. */
  lemma HeaderFits(keys: seq<Text>, values: seq<Text>)
    requires |keys| == |values| && Fits(Tables(keys, values), SIGNED)
    ensures Fits(Header(|keys|), UNSIGNED) && Fits(Tables(keys, values), UNSIGNED) && Fits(Header(|keys|) + Tables(keys, values), UNSIGNED)
  {
    var n := |keys|;
    if n > 0 {
      IndexAt(keys, KeyStart(n), 0);
      assert Tables(keys, values)[1] == Index(keys, KeyStart(n))[1];
    }
    assert n < SIGNED && HEADER_SIZE + 8 * n < SIGNED;
  }

  // ---------------------------------------------------------------- reading

  /** String i of the table at `table`: its length and offset, then the bytes up to a NUL. */
  function ReadString(file: seq<byte>, table: nat, i: nat): Option<seq<byte>> {
    if table + 8 * i + 8 > |file| then None
    else
      var length, offset := ReadWord(file, table + 8 * i), ReadWord(file, table + 8 * i + 4);
      if offset + length < |file| && file[offset + length] == 0 then Some(file[offset..offset + length]) else None
  }

  /** The first n entries as a map from raw key to raw translation. */
  function ReadEntries(file: seq<byte>, keyTable: nat, valueTable: nat, n: nat): Option<map<seq<byte>, seq<byte>>> {
    if n == 0 then Some(map[])
    else
      match (ReadEntries(file, keyTable, valueTable, n - 1), ReadString(file, keyTable, n - 1), ReadString(file, valueTable, n - 1))
      case (Some(m), Some(key), Some(value)) => Some(m[key := value])
      case _ => None
  }

  function Read(file: seq<byte>): Option<map<seq<byte>, seq<byte>>> {
    if |file| < 28 || ReadWord(file, 0) != 0x950412DE || ReadWord(file, 4) != 0 then None
    else ReadEntries(file, ReadWord(file, 12), ReadWord(file, 16), ReadWord(file, 8))
  }

  // ---------------------------------------------------------------- what is written is read

  lemma {:induction false} IndexAt(texts: seq<Text>, start: nat, i: nat)
    requires i < |texts|
    ensures Index(texts, start)[2 * i] == Size(texts[i]) && Index(texts, start)[2 * i + 1] == Before(texts, i) + start
    decreases |texts|
  {
    var n := |texts| - 1;
    if i < n {
      IndexAt(texts[..n], start, i);
      assert texts[..n][..i] == texts[..i];
    }
  }

  lemma EncodeNul()
    ensures Utf8.Encode([0]) == [0] && Utf8.Encode([]) == []
  {
  }

  /** The file has these bytes at this place, and then NUL. */
  predicate IsAt(file: seq<byte>, at: nat, raw: seq<byte>) {
    at + |raw| < |file| && file[at..at + |raw|] == raw && file[at + |raw|] == 0
  }

  /** Text i of a region is its encoding, then NUL, and then comes text i + 1. */
  lemma {:induction false} JoinedAt(texts: seq<Text>, i: nat)
    requires i < |texts|
    ensures IsAt(Utf8.Encode(Joined(texts)), Before(texts, i), Utf8.Encode(texts[i]))
    ensures Before(texts, i + 1) == Before(texts, i) + Size(texts[i]) + 1
    decreases |texts|
  {
    hide Utf8.Encode;
    var n := |texts| - 1;
    var front, last := texts[..n], texts[n];
    EncodeNul();
    Utf8.EncodeConcat(Joined(front) + last, [0]);
    Utf8.EncodeConcat(Joined(front), last);
    assert texts[..n + 1] == texts;
    if i < n {
      JoinedAt(front, i);
      assert front[..i] == texts[..i] && front[..i + 1] == texts[..i + 1];
    }
  }

  /** The words of the file. */
  lemma WordAt(keys: seq<Text>, values: seq<Text>, i: nat)
    requires |keys| == |values| && Fits(Header(|keys|) + Tables(keys, values), UNSIGNED) && i < 7 + 4 * |keys|
    ensures |Image(keys, values)| >= KeyStart(|keys|)
    ensures ReadWord(Image(keys, values), 4 * i) == (Header(|keys|) + Tables(keys, values))[i]
  {
    ReadWords(Header(|keys|) + Tables(keys, values), Utf8.Encode(Joined(keys)) + Utf8.Encode(Joined(values)), i);
  }

  /** The header of the file. */
  lemma HeaderReads(keys: seq<Text>, values: seq<Text>)
    requires |keys| == |values| && Fits(Header(|keys|) + Tables(keys, values), UNSIGNED)
    ensures var f := Image(keys, values);
      && |f| >= KeyStart(|keys|) && ReadWord(f, 0) == MAGIC && ReadWord(f, 4) == 0 && ReadWord(f, 8) == |keys|
      && ReadWord(f, 12) == HEADER_SIZE && ReadWord(f, 16) == HEADER_SIZE + 8 * |keys|
  {
    hide Fits, Image, ReadWord, Tables;
    WordAt(keys, values, 0);
    WordAt(keys, values, 1);
    WordAt(keys, values, 2);
    WordAt(keys, values, 3);
    WordAt(keys, values, 4);
  }

  /** The index entries of key i and value i: size, then offset. */
  lemma EntriesRead(keys: seq<Text>, values: seq<Text>, i: nat)
    requires |keys| == |values| && Fits(Header(|keys|) + Tables(keys, values), UNSIGNED) && i < |keys|
    ensures var f, kt, vt := Image(keys, values), HEADER_SIZE + 8 * i, HEADER_SIZE + 8 * |keys| + 8 * i;
      && |f| >= KeyStart(|keys|)
      && ReadWord(f, kt) == Size(keys[i]) && ReadWord(f, kt + 4) == KeyStart(|keys|) + Before(keys, i)
      && ReadWord(f, vt) == Size(values[i]) && ReadWord(f, vt + 4) == RecordedValueStart(keys) + Before(values, i)
  {
    hide Fits, Image, ReadWord, Index, Size, Before;
    var n := |keys|;
    WordAt(keys, values, 7 + 2 * i);
    WordAt(keys, values, 7 + 2 * i + 1);
    WordAt(keys, values, 7 + 2 * n + 2 * i);
    WordAt(keys, values, 7 + 2 * n + 2 * i + 1);
    IndexAt(keys, KeyStart(n), i);
    IndexAt(values, RecordedValueStart(keys), i);
    assert 4 * (7 + 2 * i) == HEADER_SIZE + 8 * i;
    assert 4 * (7 + 2 * i + 1) == HEADER_SIZE + 8 * i + 4;
    assert 4 * (7 + 2 * n + 2 * i) == HEADER_SIZE + 8 * n + 8 * i;
    assert 4 * (7 + 2 * n + 2 * i + 1) == HEADER_SIZE + 8 * n + 8 * i + 4;
  }

  /** Text i lies where the file's layout puts it, inside the file and followed by NUL. */
  lemma PlacedAt(keys: seq<Text>, values: seq<Text>, i: nat)
    requires |keys| == |values| && Fits(Header(|keys|) + Tables(keys, values), UNSIGNED) && i < |keys|
    ensures IsAt(Image(keys, values), KeyStart(|keys|) + Before(keys, i), Utf8.Encode(keys[i]))
    ensures IsAt(Image(keys, values), ValueStart(keys) + Before(values, i), Utf8.Encode(values[i]))
  {
    hide Words, Tables, Joined, Utf8.Encode, Fits, Before, IsAt;
    var words := Words(Header(|keys|) + Tables(keys, values));
    var ids, strs := Utf8.Encode(Joined(keys)), Utf8.Encode(Joined(values));
    Associative(words, ids, strs);
    assert words + ids + strs + [] == words + ids + strs;
    RegionAt(words, keys, strs, i);
    RegionAt(words + ids, values, [], i);
  }

  lemma RegionAt(p: seq<byte>, texts: seq<Text>, rest: seq<byte>, i: nat)
    requires i < |texts|
    ensures IsAt(p + Utf8.Encode(Joined(texts)) + rest, |p| + Before(texts, i), Utf8.Encode(texts[i]))
  {
    hide Utf8.Encode, Before, Joined, IsAt;
    JoinedAt(texts, i);
    IsAtWithin(p, Utf8.Encode(Joined(texts)), rest, Before(texts, i), Utf8.Encode(texts[i]));
  }

  lemma IsAtWithin(p: seq<byte>, s: seq<byte>, rest: seq<byte>, at: nat, raw: seq<byte>)
    requires IsAt(s, at, raw)
    ensures IsAt(p + s + rest, |p| + at, raw)
  {
    assert (p + s + rest)[|p| + at..|p| + at + |raw|] == s[at..at + |raw|];
  }

  /** Every key is read back. */
  lemma KeyReads(keys: seq<Text>, values: seq<Text>, i: nat)
    requires |keys| == |values| && Fits(Header(|keys|) + Tables(keys, values), UNSIGNED) && i < |keys|
    ensures ReadString(Image(keys, values), HEADER_SIZE, i) == Some(Utf8.Encode(keys[i]))
    ensures Utf8.Decode(ReadString(Image(keys, values), HEADER_SIZE, i).value) == Some(keys[i])
  {
    hide Fits, Image, ReadWord, Utf8.Encode, Utf8.Decode, Tables;
    Utf8.DecodesIffEncoded(Utf8.Encode(keys[i]), keys[i]);
    EntriesRead(keys, values, i);
    PlacedAt(keys, values, i);
  }

  // ---------------------------------------------------------------- where valuestart goes wrong

  predicate IsAscii(text: Text) { forall i :: 0 <= i < |text| ==> text[i] < 0x80 }

  lemma {:induction false} SizeIsLengthIff(text: Text)
    ensures |text| <= Size(text)
    ensures |text| == Size(text) <==> IsAscii(text)
    decreases |text|
  {
    if text != [] {
      SizeIsLengthIff(text[1..]);
      assert IsAscii(text) <==> text[0] < 0x80 && IsAscii(text[1..]) by {
        assert text == [text[0]] + text[1..];
      }
    }
  }

  lemma {:induction false} JoinedIsAscii(texts: seq<Text>)
    ensures IsAscii(Joined(texts)) <==> forall i :: 0 <= i < |texts| ==> IsAscii(texts[i])
    decreases |texts|
  {
    if texts != [] {
      var n := |texts| - 1;
      JoinedIsAscii(texts[..n]);
      AsciiConcat(Joined(texts[..n]), texts[n]);
      AsciiConcat(Joined(texts[..n]) + texts[n], [0]);
      hide IsAscii;
      assert texts == texts[..n] + [texts[n]];
    }
  }

  lemma AsciiConcat(a: Text, b: Text)
    ensures IsAscii(a + b) <==> IsAscii(a) && IsAscii(b)
  {
    assert forall i :: 0 <= i < |a| ==> (a + b)[i] == a[i];
    assert forall i :: 0 <= i < |b| ==> (a + b)[|a| + i] == b[i];
  }

  /** The recorded offset of a value is where the value is exactly when all keys are ASCII; else it is too small. */
  lemma ValueOffsetRightIff(keys: seq<Text>, values: seq<Text>, i: nat)
    requires |keys| == |values| && Fits(Header(|keys|) + Tables(keys, values), UNSIGNED) && i < |keys|
    ensures |Image(keys, values)| >= KeyStart(|keys|)
    ensures var recorded := ReadWord(Image(keys, values), HEADER_SIZE + 8 * |keys| + 8 * i + 4);
      && recorded <= ValueStart(keys) + Before(values, i)
      && (recorded == ValueStart(keys) + Before(values, i) <==> forall j :: 0 <= j < |keys| ==> IsAscii(keys[j]))
  {
    hide Fits, Image, ReadWord, Size, Before, Joined;
    EntriesRead(keys, values, i);
    SizeIsLengthIff(Joined(keys));
    JoinedIsAscii(keys);
  }

  /** With ASCII keys throughout every translation is read back. */
  lemma ValueReads(keys: seq<Text>, values: seq<Text>, i: nat)
    requires |keys| == |values| && Fits(Header(|keys|) + Tables(keys, values), UNSIGNED) && i < |keys|
    requires forall j :: 0 <= j < |keys| ==> IsAscii(keys[j])
    ensures ReadString(Image(keys, values), HEADER_SIZE + 8 * |keys|, i) == Some(Utf8.Encode(values[i]))
    ensures Utf8.Decode(ReadString(Image(keys, values), HEADER_SIZE + 8 * |keys|, i).value) == Some(values[i])
  {
    hide Fits, Image, ReadWord, Utf8.Encode, Utf8.Decode, Tables, Before;
    Utf8.DecodesIffEncoded(Utf8.Encode(values[i]), values[i]);
    EntriesRead(keys, values, i);
    PlacedAt(keys, values, i);
    SizeIsLengthIff(Joined(keys));
    JoinedIsAscii(keys);
  }

  /** With the message é translated as x, the translation cannot be read. */
  lemma NonAsciiKeyLosesValue() returns (keys: seq<Text>, values: seq<Text>)
    ensures |keys| == |values| == 1 && Fits(Header(1) + Tables(keys, values), UNSIGNED)
    ensures ReadString(Image(keys, values), HEADER_SIZE + 8, 0) == None
  {
    var key: Text, value: Text := [0xE9], [0x78];
    keys, values := [key], [value];
    OneText(key);
    OneText(value);
    TwoAndOneByte();
    OneEntry(keys, values);
    assert KeyStart(1) == 44 && RecordedValueStart(keys) == 46 && ValueStart(keys) == 47;
    hide *;
    EntriesRead(keys, values, 0);
    PlacedAt(keys, values, 0);
    OneTooEarly(Image(keys, values));
  }

  lemma OneText(text: Text)
    ensures Joined([text]) == text + [0] && Before([text], 0) == 0
    ensures Size(Joined([text])) == Size(text) + 1
  {
    EncodeNul();
    Utf8.EncodeConcat(text, [0]);
    assert [text][..0] == [] && Joined([]) == [];
    hide Utf8.Encode;
    assert Joined([text]) == [] + text + [0] == text + [0];
  }

  lemma OneEntry(keys: seq<Text>, values: seq<Text>)
    requires |keys| == |values| == 1 && RecordedValueStart(keys) == 46
    requires Size(keys[0]) == 2 && Size(values[0]) == 1 && Before(keys, 0) == 0 && Before(values, 0) == 0
    ensures Fits(Header(1) + Tables(keys, values), UNSIGNED)
  {
    IndexAt(keys, KeyStart(1), 0);
    IndexAt(values, RecordedValueStart(keys), 0);
    hide Index, Size, Before;
    assert Tables(keys, values) == [2, 44, 1, 46];
  }

  lemma TwoAndOneByte()
    ensures Utf8.Encode([0xE9]) == [0xC3, 0xA9] && Utf8.Encode([0x78]) == [0x78]
    ensures Size([0xE9]) == 2 && Size([0x78]) == 1
  {
    assert Utf8.EncodeScalar(0xE9) == [0xC3, 0xA9];
    assert [0xE9][1..] == [] && [0x78][1..] == [];
  }

  /** A one-byte string recorded at 46 that lies at 47. */
  lemma OneTooEarly(file: seq<byte>)
    requires |file| >= 44 && ReadWord(file, 36) == 1 && ReadWord(file, 40) == 46 && IsAt(file, 47, [0x78])
    ensures ReadString(file, HEADER_SIZE + 8, 0) == None
  {
    hide ReadWord;
  }

  // ---------------------------------------------------------------- the whole catalog

  /** The translations by raw key. */
  ghost function RawCatalog(messages: Catalog, keys: seq<Text>): map<seq<byte>, seq<byte>>
    requires forall k :: k in keys ==> k in messages
  {
    if keys == [] then map[]
    else
      var n := |keys| - 1;
      RawCatalog(messages, keys[..n])[Utf8.Encode(keys[n]) := Utf8.Encode(messages[keys[n]])]
  }

  /** Each key of the catalog has its own translation there, and nothing else is there. */
  lemma {:induction false} RawCatalogHas(messages: Catalog, keys: seq<Text>, raw: seq<byte>)
    requires forall k :: k in keys ==> k in messages
    ensures raw in RawCatalog(messages, keys) <==> exists k :: k in keys && Utf8.Encode(k) == raw
    ensures forall k :: k in keys && Utf8.Encode(k) == raw ==>
      raw in RawCatalog(messages, keys) && RawCatalog(messages, keys)[raw] == Utf8.Encode(messages[k])
    decreases |keys|
  {
    hide Utf8.Encode;
    if keys != [] {
      var n := |keys| - 1;
      assert keys == keys[..n] + [keys[n]];
      RawCatalogHas(messages, keys[..n], raw);
      assert keys[n] in keys && forall k :: k in keys[..n] ==> k in keys;
      forall k | k in keys && Utf8.Encode(k) == raw
        ensures RawCatalog(messages, keys)[raw] == Utf8.Encode(messages[k])
      {
        if Utf8.Encode(keys[n]) == raw {
          Utf8.EncodeInjective(k, keys[n]);
        }
      }
    }
  }

  lemma {:induction false} EntriesReadBack(messages: Catalog, keys: seq<Text>, n: nat)
    requires forall k :: k in keys ==> k in messages
    requires Fits(Header(|keys|) + Tables(keys, Values(messages, keys)), UNSIGNED) && n <= |keys|
    requires forall j :: 0 <= j < |keys| ==> IsAscii(keys[j])
    ensures ReadEntries(Image(keys, Values(messages, keys)), HEADER_SIZE, HEADER_SIZE + 8 * |keys|, n)
         == Some(RawCatalog(messages, keys[..n]))
    decreases n
  {
    hide Fits, Image, ReadString, Utf8.Encode, IsAscii, Tables;
    if n > 0 {
      EntriesReadBack(messages, keys, n - 1);
      KeyReads(keys, Values(messages, keys), n - 1);
      ValueReads(keys, Values(messages, keys), n - 1);
      assert keys[..n][..n - 1] == keys[..n - 1];
    }
  }

  /** A catalog with ASCII keys is read back whole. */
  lemma CatalogReadsBack(messages: Catalog)
    requires AllFit(messages)
    requires forall k :: k in messages ==> IsAscii(k)
    ensures Fits(Header(|Keys(messages)|) + Tables(Keys(messages), Values(messages, Keys(messages))), UNSIGNED)
    ensures Read(Image(Keys(messages), Values(messages, Keys(messages)))) == Some(RawCatalog(messages, Keys(messages)))
  {
    hide Image, ReadWord, ReadEntries, Utf8.Encode, IsAscii, Tables, Utf8.Ascending;
    var keys := Keys(messages);
    HeaderFits(keys, Values(messages, keys));
    HeaderReads(keys, Values(messages, keys));
    assert forall j :: 0 <= j < |keys| ==> keys[j] in keys;
    EntriesReadBack(messages, keys, |keys|);
    assert keys[..|keys|] == keys;
  }

  /** The pairs of a catalog as a reader has them: every key and translation in UTF-8, and no other. */
  ghost predicate IsRawFormOf(raw: map<seq<byte>, seq<byte>>, messages: Catalog) {
    && (forall b :: b in raw ==>
          var k := Utf8.Decode(b);
          k.Some? && k.value in messages && Utf8.Decode(raw[b]) == Some(messages[k.value]))
    && forall k :: k in messages ==> exists b :: b in raw && Utf8.Decode(b) == Some(k)
  }

  lemma RawCatalogIsRawForm(messages: Catalog)
    ensures IsRawFormOf(RawCatalog(messages, Keys(messages)), messages)
  {
    hide Utf8.Encode, Utf8.Decode, RawCatalog, Utf8.Ascending;
    var keys := Keys(messages);
    var raw := RawCatalog(messages, keys);
    forall b | b in raw
      ensures var k := Utf8.Decode(b);
        k.Some? && k.value in messages && Utf8.Decode(raw[b]) == Some(messages[k.value])
    {
      RawCatalogHas(messages, keys, b);
      var k :| k in keys && Utf8.Encode(k) == b;
      Utf8.DecodesIffEncoded(b, k);
      Utf8.DecodesIffEncoded(raw[b], messages[k]);
    }
    forall k | k in messages
      ensures exists b :: b in raw && Utf8.Decode(b) == Some(k)
    {
      RawCatalogHas(messages, keys, Utf8.Encode(k));
      Utf8.DecodesIffEncoded(Utf8.Encode(k), k);
    }
  }

  /** The texts a reader of the file gets are those of the catalog, if its keys are ASCII. */
  lemma CatalogTextsReadBack(messages: Catalog)
    requires AllFit(messages)
    requires forall k :: k in messages ==> IsAscii(k)
    ensures Fits(Header(|Keys(messages)|) + Tables(Keys(messages), Values(messages, Keys(messages))), UNSIGNED)
    ensures var raw := Read(Image(Keys(messages), Values(messages, Keys(messages))));
      raw.Some? && IsRawFormOf(raw.value, messages)
  {
    hide *;
    CatalogReadsBack(messages);
    RawCatalogIsRawForm(messages);
  }

  lemma MagicWords()
    ensures Fits([MAGIC, 0], UNSIGNED) && Words([MAGIC, 0]) == [0xDE, 0x12, 0x04, 0x95, 0, 0, 0, 0]
  {
    assert [MAGIC, 0][1..] == [0] && [0][1..] == [];
    assert Word(MAGIC) == [0xDE, 0x12, 0x04, 0x95] && Word(0) == [0, 0, 0, 0];
    hide Word;
    assert Words([0]) == Word(0) + Words([]);
    assert Words([MAGIC, 0]) == Word(MAGIC) + Words([0]);
  }

  /** The file begins with the magic number and revision 0, least significant bytes first. */
  lemma FirstBytes(keys: seq<Text>, values: seq<Text>)
    requires |keys| == |values| && Fits(Header(|keys|) + Tables(keys, values), UNSIGNED)
    ensures [0xDE, 0x12, 0x04, 0x95, 0, 0, 0, 0] <= Image(keys, values)
  {
    var words := Header(|keys|) + Tables(keys, values);
    var rest := words[2..];
    assert words == [MAGIC, 0] + rest;
    hide Tables, Utf8.Encode, Words, Header;
    WordsConcat([MAGIC, 0], rest);
    MagicWords();
  }

  /** The keys of the file are in strictly ascending byte order, as a binary search over them needs. */
  lemma RawKeysAscend(messages: Catalog, i: nat, j: nat)
    requires i < j < |Keys(messages)|
    ensures Utf8.Less(Utf8.Encode(Keys(messages)[i]), Utf8.Encode(Keys(messages)[j]))
  {
    Utf8.EncodeKeepsOrder(Keys(messages)[i], Keys(messages)[j]);
  }

  /** The strings fill the file behind the tables: each begins where the one before it ends. */
  lemma RegionsTile(keys: seq<Text>, values: seq<Text>)
    requires |keys| == |values| && Fits(Header(|keys|) + Tables(keys, values), UNSIGNED)
    ensures forall i :: 0 <= i < |keys| ==> Before(keys, i) + Size(keys[i]) + 1 == Before(keys, i + 1)
    ensures forall i :: 0 <= i < |keys| ==> Before(values, i) + Size(values[i]) + 1 == Before(values, i + 1)
    ensures Before(keys, 0) == Before(values, 0) == 0
    ensures KeyStart(|keys|) + Before(keys, |keys|) == ValueStart(keys)
    ensures ValueStart(keys) + Before(values, |keys|) == |Image(keys, values)|
  {
    EncodeNul();
    assert Joined(keys[..0]) == [] && Joined(values[..0]) == [];
    hide Utf8.Encode, Tables, Words;
    forall i | 0 <= i < |keys|
      ensures Before(keys, i) + Size(keys[i]) + 1 == Before(keys, i + 1)
      ensures Before(values, i) + Size(values[i]) + 1 == Before(values, i + 1)
    {
      JoinedAt(keys, i);
      JoinedAt(values, i);
    }
    assert keys[..|keys|] == keys && values[..|keys|] == values;
  }
}
