/** The capability word as MessagePack values: what the reader accepts and the writer writes, marker by marker. */
module CapabilityMessages {
  import opened Base
  import opened ByteOrder
  import opened CapabilityWord
  import opened MsgpackValues
  import opened Parsing
  import opened Utf8
  import Msgpack

  // ---------------------------------------------------------------------------------------------
  // Headers
  // ---------------------------------------------------------------------------------------------

  lemma {:induction false} ReadsForms(l: Layout, b: Bytes)
    requires b != [] && !(0 <= b[0] as int - l.base as int <= l.small) && l.forms.Form? && l.forms.wider.Form?
    ensures ReadLen(l, b) ==
            if b[0] == l.forms.marker then ReadBe(b, l.forms.width)
            else if b[0] == l.forms.wider.marker then ReadBe(b, l.forms.wider.width)
            else ReadForm(l.forms.wider.wider, b)
  {
    assert ReadForm(l.forms, b) == if b[0] == l.forms.marker then ReadBe(b, l.forms.width)
                                   else ReadForm(l.forms.wider, b);
  }

  /** The lengths of strings that the reader reads, by their first byte. */
  lemma StrLens(b: Bytes)
    requires b != []
    ensures ReadLen(STR_LAYOUT, b) ==
            if 0xa0 <= b[0] <= 0xbf then Some(Read(b[0] as nat - 0xa0, 1))
            else if b[0] == 0xd9 then ReadBe(b, 1)
            else if b[0] == 0xda then ReadBe(b, 2)
            else if b[0] == 0xdb then ReadBe(b, 4)
            else None
  {
    if !(0xa0 <= b[0] <= 0xbf) {
      ReadsForms(STR_LAYOUT, b);
    }
  }

  /** The lengths of maps that the reader reads, by their first byte. */
  lemma MapLens(b: Bytes)
    requires b != []
    ensures ReadLen(MAP_LAYOUT, b) ==
            if 0x80 <= b[0] <= 0x8f then Some(Read(b[0] as nat - 0x80, 1))
            else if b[0] == 0xde then ReadBe(b, 2)
            else if b[0] == 0xdf then ReadBe(b, 4)
            else None
  {
    if !(0x80 <= b[0] <= 0x8f) {
      ReadsForms(MAP_LAYOUT, b);
    }
  }

  lemma FieldIsRead(marker: byte, form: Form, n: nat)
    requires form != Fix && LenFits(form, n, 0)
    ensures ReadBe([marker] + Field(form, n), Width(form)) == Some(Read(n, 1 + Width(form)))
  {
    FieldIs(form, n);
    assert ([marker] + Field(form, n))[1..1 + Width(form)] == Field(form, n);
  }

  lemma StrHeadIsRead(form: Form, n: nat)
    requires LenFits(form, n, 31)
    ensures ReadLen(STR_LAYOUT, StrHead(form, n)) == Some(Read(n, |StrHead(form, n)|))
  {
    StrLens(StrHead(form, n));
    if form != Fix {
      FieldIs(form, n);
      FieldIsRead(StrHead(form, n)[0], form, n);
    }
  }

  lemma ReadStrHead(head: Bytes, n: nat) returns (form: Form)
    requires ReadLen(STR_LAYOUT, head) == Some(Read(n, |head|))
    ensures LenFits(form, n, 31) && head == StrHead(form, n)
  {
    StrLens(head);
    if 0xa0 <= head[0] <= 0xbf {
      form := Fix;
    } else {
      form := FormAt(head[0] as nat - 0xd9);
      var k := FieldOf(head, form);
      assert head[1..1 + Width(form)] == head[1..];
    }
  }

  lemma MapHeadIsRead(form: Form, n: nat)
    requires form != Field8 && LenFits(form, n, 15)
    ensures ReadLen(MAP_LAYOUT, MapHead(form, n)) == Some(Read(n, |MapHead(form, n)|))
  {
    MapLens(MapHead(form, n));
    if form != Fix {
      FieldIs(form, n);
      FieldIsRead(MapHead(form, n)[0], form, n);
    }
  }

  lemma ReadMapHead(head: Bytes, n: nat) returns (form: Form)
    requires ReadLen(MAP_LAYOUT, head) == Some(Read(n, |head|))
    ensures form != Field8 && LenFits(form, n, 15) && head == MapHead(form, n)
  {
    MapLens(head);
    if 0x80 <= head[0] <= 0x8f {
      form := Fix;
    } else {
      form := if head[0] == 0xde then Field16 else Field32;
      var k := FieldOf(head, form);
      assert head[1..1 + Width(form)] == head[1..];
    }
  }

  // ---------------------------------------------------------------------------------------------
  // Values
  // ---------------------------------------------------------------------------------------------

  lemma EncodingIsOneValue(m: Msg)
    requires Valid(m) && Depth(m) <= 64
    ensures OneValue(Encoding(m))
  {
    EncodingIsChecked(m, []);
    assert Encoding(m) + [] == Encoding(m);
  }

  lemma OneValueIsEncoding(b: Bytes) returns (m: Msg)
    requires OneValue(b)
    ensures Valid(m) && Depth(m) <= 64 && Encoding(m) == b
  {
    m := AcceptedIsEncoding(b);
    assert b[..|b|] == b;
  }

  /** No other value begins with the marker of `true`. */
  lemma OnlyTrueIsTrue(m: Msg)
    requires Valid(m)
    ensures Encoding(m) == [0xc3] <==> m == Boolean(true)
  {
    match m {
      case Array(form, items) => assert Encoding(m)[0] == ArrayHead(form, |items|)[0];
      case Map(form, entries) => assert Encoding(m)[0] == MapHead(form, |entries|)[0];
      case Str(form, text) => assert Encoding(m)[0] == StrHead(form, |text|)[0];
      case Bin(form, data) => assert Encoding(m)[0] == BinHead(form, |data|)[0];
      case Ext(form, _, data) => assert Encoding(m)[0] == ExtHead(form, |data|)[0];
      case Number(kind, _) => assert Encoding(m)[0] == NumberMarker(kind);
      case _ =>
    }
  }

  // ---------------------------------------------------------------------------------------------
  // Entries
  // ---------------------------------------------------------------------------------------------

  /** A UTF-8 string as key, and any value within the bound of its own. */
  ghost predicate WordEntry(e: MsgpackValues.Entry) {
    PairValid(e) && e.key.Str? && ValidUtf8(e.key.text) && Depth(e.value) <= 64
  }

  function TrueText(e: MsgpackValues.Entry): set<Bytes> {
    if e.key.Str? && e.value == Boolean(true) then {e.key.text} else {}
  }

  lemma EntryToMsg(e: CapabilityWord.Entry) returns (m: MsgpackValues.Entry)
    requires GoodEntry(e)
    ensures WordEntry(m) && PairBytes(m) == EntryBytes(e) && TrueText(m) == TrueKey(e)
  {
    var form := ReadStrHead(e.head, |e.key|);
    var v := OneValueIsEncoding(e.value);
    OnlyTrueIsTrue(v);
    m := MsgpackValues.Entry(Str(form, e.key), v);
  }

  lemma EntryFromMsg(m: MsgpackValues.Entry) returns (e: CapabilityWord.Entry)
    requires WordEntry(m)
    ensures GoodEntry(e) && EntryBytes(e) == PairBytes(m) && TrueKey(e) == TrueText(m)
  {
    assert Valid(m.key);
    StrHeadIsRead(m.key.form, |m.key.text|);
    EncodingIsOneValue(m.value);
    OnlyTrueIsTrue(m.value);
    e := CapabilityWord.Entry(StrHead(m.key.form, |m.key.text|), m.key.text, Encoding(m.value));
  }

  ghost predicate WordEntries(ms: seq<MsgpackValues.Entry>) {
    forall m :: m in ms ==> WordEntry(m)
  }

  lemma {:induction false} EntriesToMsgs(es: seq<CapabilityWord.Entry>) returns (ms: seq<MsgpackValues.Entry>)
    requires forall e :: e in es ==> GoodEntry(e)
    ensures |ms| == |es| && WordEntries(ms) && AllPairsValid(ms)
    ensures AllPairBytes(ms) == Concat(EntryBytes, es) && Collect(TrueText, ms) == Collect(TrueKey, es)
  {
    if es == [] {
      ms := [];
    } else {
      var m := EntryToMsg(es[0]);
      var rest := EntriesToMsgs(es[1..]);
      ms := [m] + rest;
      assert ms[1..] == rest;
    }
  }

  lemma {:induction false} EntriesFromMsgs(ms: seq<MsgpackValues.Entry>) returns (es: seq<CapabilityWord.Entry>)
    requires WordEntries(ms) && AllPairsValid(ms)
    ensures |es| == |ms| && forall e :: e in es ==> GoodEntry(e)
    ensures Concat(EntryBytes, es) == AllPairBytes(ms) && Collect(TrueKey, es) == Collect(TrueText, ms)
  {
    if ms == [] {
      es := [];
    } else {
      var e := EntryFromMsg(ms[0]);
      var rest := EntriesFromMsgs(ms[1..]);
      es := [e] + rest;
      assert es[1..] == rest;
    }
  }

  // ---------------------------------------------------------------------------------------------
  // The reader
  // ---------------------------------------------------------------------------------------------

  /** One value, and a map from UTF-8 strings to values. */
  ghost predicate IsWordOf(first: Msg, word: Msg) {
    && Valid(first) && Depth(first) <= 64
    && Valid(word) && word.Map? && WordEntries(word.entries)
  }

  ghost predicate MapsToTrue(ms: seq<MsgpackValues.Entry>, k: Bytes) {
    exists e :: e in ms && e.key.Str? && e.key.text == k && e.value == Boolean(true)
  }

  /** The bytes begin with the two values; `keys` are the keys that map to `true`. */
  ghost predicate Reads(bytes: Bytes, first: Msg, word: Msg, keys: set<Bytes>, len: nat) {
    && IsWordOf(first, word) && len <= |bytes| && bytes[..len] == Encoding(first) + Encoding(word)
    && forall k :: k in keys <==> MapsToTrue(word.entries, k)
  }

  lemma KeysAreTrueTexts(ms: seq<MsgpackValues.Entry>, keys: set<Bytes>)
    requires WordEntries(ms)
    ensures Collect(TrueText, ms) == keys <==> forall k :: k in keys <==> MapsToTrue(ms, k)
  {
    forall k ensures k in Collect(TrueText, ms) <==> MapsToTrue(ms, k) {
      CollectIs(TrueText, ms, k);
    }
  }

  lemma WordAsMessages(bytes: Bytes) returns (first: Msg, word: Msg)
    requires ReadWord(bytes).Some?
    ensures Reads(bytes, first, word, ReadWord(bytes).value.value, ReadWord(bytes).value.len)
  {
    var f, head, es := WordOf(bytes);
    first := OneValueIsEncoding(f);
    var form := ReadMapHead(head, |es|);
    var ms := EntriesToMsgs(es);
    word := Map(form, ms);
    KeysAreTrueTexts(ms, ReadWord(bytes).value.value);
  }

  lemma MessagesAreRead(bytes: Bytes, first: Msg, word: Msg, keys: set<Bytes>, len: nat)
    requires Reads(bytes, first, word, keys, len)
    ensures ReadWord(bytes) == Some(Read(keys, len))
  {
    EncodingIsOneValue(first);
    MapHeadIsRead(word.form, |word.entries|);
    var es := EntriesFromMsgs(word.entries);
    KeysAreTrueTexts(word.entries, keys);
    var head := MapHead(word.form, |word.entries|);
    assert IsWord(bytes, Encoding(first), head, es, keys, len);
    AcceptedExactlyTheWords(bytes, keys, len);
  }

  /**
   The reader accepts exactly the bytes that begin with one value nesting at most 64 deep and a map from UTF-8
   strings to such values, in any of their encodings, and declares exactly the keys that map to `true`.
   */
  lemma ReadsExactlyTheMessages(bytes: Bytes, keys: set<Bytes>, len: nat)
    ensures ReadWord(bytes) == Some(Read(keys, len)) <==> exists first, word :: Reads(bytes, first, word, keys, len)
  {
    if ReadWord(bytes) == Some(Read(keys, len)) {
      var first, word := WordAsMessages(bytes);
    }
    forall first, word | Reads(bytes, first, word, keys, len) ensures ReadWord(bytes) == Some(Read(keys, len)) {
      MessagesAreRead(bytes, first, word, keys, len);
    }
  }

  /**
   There is no word if there is no information, if it is empty, or if it is one value and nothing else; what
   follows a value and is not a word, and what does not begin with a value, is malformed.
   */
  lemma StatusByMessages(info: Option<Bytes>)
    ensures Classify(info) == NoWord <==>
            info.None? || info.value == [] || exists m :: Valid(m) && Depth(m) <= 64 && Encoding(m) == info.value
    ensures Classify(info).GoodWord? <==>
            info.Some? && exists first, word, keys, len :: Reads(info.value, first, word, keys, len)
  {
    if info.Some? {
      var b := info.value;
      if OneValue(b) {
        var m := OneValueIsEncoding(b);
      }
      forall m | Valid(m) && Depth(m) <= 64 && Encoding(m) == b ensures OneValue(b) {
        EncodingIsOneValue(m);
      }
      if ReadWord(b).Some? {
        var first, word := WordAsMessages(b);
      }
      forall first, word, keys, len | Reads(b, first, word, keys, len) ensures ReadWord(b).Some? {
        MessagesAreRead(b, first, word, keys, len);
      }
    }
  }

  // ---------------------------------------------------------------------------------------------
  // The writer
  // ---------------------------------------------------------------------------------------------

  function StrForm(n: nat): Form {
    if n <= 31 then Fix else if n <= 0xff then Field8 else if n <= 0xffff then Field16 else Field32
  }

  function MapForm(n: nat): Form {
    if n <= 15 then Fix else if n <= 0xffff then Field16 else Field32
  }

  /** The keys in order, each mapped to `true`, every length in its narrowest form. */
  function TrueEntriesOf(keys: seq<Bytes>): seq<MsgpackValues.Entry> {
    if keys == [] then []
    else [MsgpackValues.Entry(Str(StrForm(|keys[0]|), keys[0]), Boolean(true))] + TrueEntriesOf(keys[1..])
  }

  lemma Written8(n: nat)
    requires n < 0x100
    ensures ToBe(n, 1) == [n as byte]
  {
  }

  lemma Written16(n: nat)
    requires n < 0x1_0000
    ensures ToBe(n, 2) == [(n / 0x100) as byte, (n % 0x100) as byte]
  {
    Written8(n / 0x100);
  }

  lemma Written32(n: nat)
    requires n < 0x1_0000_0000
    ensures ToBe(n, 4) == Field(Field32, n)
  {
    var m := n / 0x100;
    Written16(m / 0x100);
    assert m / 0x100 == n / 0x1_0000 && m / 0x100 / 0x100 == n / 0x100_0000;
    assert ToBe(m, 3) == ToBe(m / 0x100, 2) + [(m % 0x100) as byte];
  }

  lemma WrittenField(form: Form, n: nat)
    requires form != Fix && LenFits(form, n, 0)
    ensures ToBe(n, Width(form)) == Field(form, n)
  {
    match form {
      case Field8 => Written8(n);
      case Field16 => Written16(n);
      case Field32 => Written32(n);
    }
  }

  lemma StrLenIsWritten(n: nat)
    requires n <= U32_MAX
    ensures LenFits(StrForm(n), n, 31) && WriteLen(STR_LAYOUT, n) == StrHead(StrForm(n), n)
  {
    StrHeaderForms(n);
    if StrForm(n) != Fix {
      WrittenField(StrForm(n), n);
    }
  }

  lemma MapLenIsWritten(n: nat)
    requires n <= U32_MAX
    ensures MapForm(n) != Field8 && LenFits(MapForm(n), n, 15) && WriteLen(MAP_LAYOUT, n) == MapHead(MapForm(n), n)
  {
    MapHeaderForms(n);
    if MapForm(n) != Fix {
      WrittenField(MapForm(n), n);
    }
  }

  lemma {:induction false} EntriesAreWritten(keys: seq<Bytes>)
    requires forall k :: k in keys ==> |k| <= U32_MAX
    ensures |TrueEntriesOf(keys)| == |keys| && AllPairsValid(TrueEntriesOf(keys))
    ensures Concat(EntryBytes, TrueEntries(keys)) == AllPairBytes(TrueEntriesOf(keys))
  {
    if keys != [] {
      var k, rest := keys[0], TrueEntriesOf(keys[1..]);
      var e := MsgpackValues.Entry(Str(StrForm(|k|), k), Boolean(true));
      EntriesAreWritten(keys[1..]);
      StrLenIsWritten(|k|);
      assert TrueEntries(keys)[1..] == TrueEntries(keys[1..]);
      assert TrueEntriesOf(keys) == [e] + rest && ([e] + rest)[1..] == rest;
      assert Valid(e.key) && PairBytes(e) == EntryBytes(TrueEntry(k));
    }
  }

  /** The writer writes one map: the keys without repetition in ascending order, each mapped to `true`. */
  lemma WordIsWritten(keys: seq<Str>)
    requires Writable(keys) && keys != []
    ensures var sorted := SortedUnique(keys);
            var word := Map(MapForm(|sorted|), TrueEntriesOf(sorted));
            Valid(word) && WordBytes(keys) == Encoding(word)
  {
    var sorted := SortedUnique(keys);
    NoKeysNoWord(keys);
    forall k | k in sorted ensures |k| <= U32_MAX {
      assert k in Elements(sorted);
    }
    MapLenIsWritten(|sorted|);
    EntriesAreWritten(sorted);
  }
}
