/**
 The capability word: a MessagePack map of string keys to `true` appended to a coin's protocol
 information, its writer, and the reader that declares nothing unless the word is well formed.
 */
module CapabilityWord {
  import opened Base
  import opened ByteOrder
  import Msgpack
  import opened Parsing
  import opened Utf8

  const MARKER_TRUE: byte := 0xc3

  /** A string is its UTF-8 bytes. */
  type Str = s: Bytes | ValidUtf8(s) witness []

  // ---------------------------------------------------------------------------------------------
  // Layout of the word
  // ---------------------------------------------------------------------------------------------

  function ToBe(n: nat, width: nat): Bytes {
    if width == 0 then [] else ToBe(n / 256, width - 1) + [(n % 256) as byte]
  }

  function Pow256(n: nat): nat {
    if n == 0 then 1 else 256 * Pow256(n - 1)
  }

  /** The forms of a length: a marker and a field of `width` bytes, the narrowest first. */
  datatype Forms = NoForm | Form(marker: byte, width: nat, wider: Forms)

  /** Lengths up to `small` are part of the marker itself. */
  datatype Layout = Layout(base: byte, small: nat, forms: Forms)

  const MAP_LAYOUT := Layout(0x80, 0x0f, Form(0xde, 2, Form(0xdf, 4, NoForm)))
  const STR_LAYOUT := Layout(0xa0, 0x1f, Form(0xd9, 1, Form(0xda, 2, Form(0xdb, 4, NoForm))))

  /** The header in the narrowest form that fits; the widest one is clamped. */
  function WriteForm(f: Forms, n: nat): (h: Bytes)
    ensures f.Form? ==> h != []
  {
    if f.NoForm? then []
    else if n < Pow256(f.width) || f.wider.NoForm? then [f.marker] + ToBe(Min(n, Max(Pow256(f.width) - 1, 0)), f.width)
    else WriteForm(f.wider, n)
  }

  function WriteLen(l: Layout, n: nat): (h: Bytes)
    requires l.base as nat + l.small <= 0xff
    ensures l.forms.Form? ==> h != []
  {
    if n <= l.small then [(l.base as nat + n) as byte] else WriteForm(l.forms, n)
  }

  /** The header of a key, the key, and the bytes of its value. */
  datatype Entry = Entry(head: Bytes, key: Bytes, value: Bytes)

  function EntryBytes(e: Entry): Bytes {
    e.head + e.key + e.value
  }

  /** The bytes of a map with any header and any entries. */
  function MapBytes(head: Bytes, es: seq<Entry>): Bytes {
    head + Concat(EntryBytes, es)
  }

  function TrueEntry(key: Bytes): Entry {
    Entry(WriteLen(STR_LAYOUT, |key|), key, [MARKER_TRUE])
  }

  function TrueEntries(keys: seq<Bytes>): (es: seq<Entry>)
    ensures |es| == |keys| && forall i :: 0 <= i < |keys| ==> es[i] == TrueEntry(keys[i])
  {
    seq(|keys|, i requires 0 <= i < |keys| => TrueEntry(keys[i]))
  }

  /** What the writer appends for `keys`. */
  function WordBytes(keys: seq<Bytes>): Bytes {
    var sorted := SortedUnique(keys);
    if sorted == [] then [] else MapBytes(WriteLen(MAP_LAYOUT, |sorted|), TrueEntries(sorted))
  }

  // ---------------------------------------------------------------------------------------------
  // The writer
  // ---------------------------------------------------------------------------------------------

  class Buffer {
    var data: Bytes

    constructor (first: Bytes)
      ensures data == first
    {
      data := first;
    }

    method Push(b: byte)
      modifies this
      ensures data == old(data) + [b]
    {
      data := data + [b];
    }

    method Extend(bs: Bytes)
      modifies this
      ensures data == old(data) + bs
    {
      data := data + bs;
    }

    method PushMapHeader(len: nat)
      modifies this
      ensures data == old(data) + WriteLen(MAP_LAYOUT, len)
    {
      MapHeaderForms(len);
      if len <= 0x0f {
        Push((0x80 + len) as byte);
      } else if len <= 0xffff {
        Push(0xde);
        Extend(ToBe(len, 2));
      } else {
        Push(0xdf);
        Extend(ToBe(Min(len, U32_MAX), 4));
      }
    }

    method PushStrHeader(len: nat)
      modifies this
      ensures data == old(data) + WriteLen(STR_LAYOUT, len)
    {
      StrHeaderForms(len);
      if len <= 0x1f {
        Push((0xa0 + len) as byte);
      } else if len <= 0xff {
        Push(0xd9);
        Push(len as byte);
        assert ToBe(len, 1) == [len as byte];
      } else if len <= 0xffff {
        Push(0xda);
        Extend(ToBe(len, 2));
      } else {
        Push(0xdb);
        Extend(ToBe(Min(len, U32_MAX), 4));
      }
    }

    method PushStr(s: Bytes)
      modifies this
      ensures data == old(data) + WriteLen(STR_LAYOUT, |s|) + s
    {
      PushStrHeader(|s|);
      Extend(s);
    }
  }

  /** The layouts spelled out. */
  lemma MapHeaderForms(n: nat)
    ensures WriteLen(MAP_LAYOUT, n) ==
            if n <= 0x0f then [(0x80 + n) as byte]
            else if n <= 0xffff then [0xde] + ToBe(n, 2)
            else [0xdf] + ToBe(Min(n, U32_MAX), 4)
  {
    assert Pow256(2) == 0x1_0000 && Pow256(4) == 0x1_0000_0000;
    var f := MAP_LAYOUT.forms;
    assert n > 0xffff ==> WriteForm(f, n) == WriteForm(f.wider, n);
  }

  lemma StrHeaderForms(n: nat)
    ensures WriteLen(STR_LAYOUT, n) ==
            if n <= 0x1f then [(0xa0 + n) as byte]
            else if n <= 0xff then [0xd9] + ToBe(n, 1)
            else if n <= 0xffff then [0xda] + ToBe(n, 2)
            else [0xdb] + ToBe(Min(n, U32_MAX), 4)
  {
    assert Pow256(1) == 0x100 && Pow256(2) == 0x1_0000 && Pow256(4) == 0x1_0000_0000;
    var f := STR_LAYOUT.forms;
    assert n > 0xff ==> WriteForm(f, n) == WriteForm(f.wider, n);
    assert n > 0xffff ==> WriteForm(f.wider, n) == WriteForm(f.wider.wider, n);
  }

  lemma Regroup(a: Bytes, b: Bytes, c: Bytes, d: Bytes, e: Bytes)
    ensures a + b + c + d + e == a + (b + (c + d + e))
  {
  }

  method PushKeys(buffer: Buffer, keys: seq<Bytes>)
    modifies buffer
    ensures buffer.data == old(buffer.data) + Concat(EntryBytes, TrueEntries(keys))
  {
    ghost var before, es := buffer.data, TrueEntries(keys);
    for i := 0 to |keys|
      invariant buffer.data == before + Concat(EntryBytes, es[..i])
    {
      ConcatSnoc(EntryBytes, es[..i], es[i]);
      assert es[..i + 1] == es[..i] + [es[i]];
      buffer.PushStr(keys[i]);
      buffer.Push(MARKER_TRUE);
      Regroup(before, Concat(EntryBytes, es[..i]), WriteLen(STR_LAYOUT, |keys[i]|), keys[i], [MARKER_TRUE]);
    }
    assert es[..|keys|] == es;
  }

  method AppendCapabilityWord(firstValue: Bytes, keys: seq<Str>) returns (out: Bytes)
    ensures out == firstValue + WordBytes(keys)
  {
    var sorted := SortedUnique(keys);
    if sorted == [] {
      return firstValue;
    }
    var buffer := new Buffer(firstValue);
    buffer.PushMapHeader(|sorted|);
    PushKeys(buffer, sorted);
    assert buffer.data == firstValue + MapBytes(WriteLen(MAP_LAYOUT, |sorted|), TrueEntries(sorted));
    out := buffer.data;
  }

  // ---------------------------------------------------------------------------------------------
  // The reader
  // ---------------------------------------------------------------------------------------------

  function ReadBe(b: Bytes, width: nat): Option<Read<nat>>
    requires b != []
  {
    if |b| < 1 + width then None else Some(Read(Msgpack.BigEndian(b[1..1 + width]), 1 + width))
  }

  function ReadForm(f: Forms, b: Bytes): (r: Option<Read<nat>>)
    requires b != []
    ensures r.Some? ==> 1 <= r.value.len <= |b|
  {
    if f.NoForm? then None
    else if b[0] == f.marker then ReadBe(b, f.width)
    else ReadForm(f.wider, b)
  }

  function ReadLen(l: Layout, b: Bytes): (r: Option<Read<nat>>)
    ensures r.Some? ==> 1 <= r.value.len <= |b|
  {
    if b == [] then None
    else if 0 <= b[0] as int - l.base as int <= l.small then Some(Read((b[0] - l.base) as nat, 1))
    else ReadForm(l.forms, b)
  }

  /** The entry count, accepted only if the remaining bytes can hold that many entries. */
  function ReadMapHeader(b: Bytes): (r: Option<Read<nat>>)
    ensures r.Some? ==> 1 <= r.value.len <= |b|
  {
    var r := ReadLen(MAP_LAYOUT, b);
    if r.Some? && r.value.value * 2 <= |b| - r.value.len then r else None
  }

  function ReadStr(b: Bytes): (r: Option<Read<Bytes>>)
    ensures r.Some? ==> 1 <= r.value.len <= |b|
  {
    var r := ReadLen(STR_LAYOUT, b);
    if r.None? || r.value.value > |b| - r.value.len then None
    else
      var end := r.value.len + r.value.value;
      var key := b[r.value.len..end];
      if ValidUtf8(key) then Some(Read(key, end)) else None
  }

  /** The length of the complete value at the start, within the bounds of a peer's value. */
  function SkipValue(b: Bytes): (n: Option<nat>)
    ensures n.Some? ==> 1 <= n.value <= |b|
  {
    var v := Msgpack.Value(b, 0);
    if v.Err? then None else Some(v.value.len)
  }

  /** One entry: its key when the value is `true`, nothing otherwise. */
  function ReadEntry(b: Bytes): (r: Option<Read<set<Bytes>>>)
    ensures r.Some? ==> 2 <= r.value.len <= |b|
  {
    var r := ReadStr(b);
    if r.None? || r.value.len == |b| then None
    else
      var Read(key, at) := r.value;
      if b[at] == MARKER_TRUE then Some(Read({key}, at + 1))
      else
        var n := SkipValue(b[at..]);
        if n.None? then None else Some(Read({}, at + n.value))
  }

  /** The map at the start of `b`. */
  function ReadMap(b: Bytes): (r: Option<Read<set<Bytes>>>)
    ensures r.Some? ==> 1 <= r.value.len <= |b|
  {
    Counted(ReadMapHeader, ReadEntry, b)
  }

  /** The map after the first value. */
  function ReadWord(bytes: Bytes): (r: Option<Read<set<Bytes>>>)
    ensures r.Some? ==> SkipValue(bytes).Some? && SkipValue(bytes).value < r.value.len <= |bytes|
  {
    AfterFirst(SkipValue, ReadMap, bytes)
  }

  /** The reader as a cursor over the bytes. */
  method ReadWordByCursor(bytes: Bytes) returns (r: Option<set<Bytes>>)
    ensures r == KeysOf(ReadWord(bytes))
  {
    var first := Msgpack.Walk(bytes);
    if first.Err? {
      return None;
    }
    r := CountedByCursor(ReadMapHeader, ReadEntry, bytes, first.value.len);
  }

  function Declared(info: Option<Bytes>): set<Bytes> {
    if info.Some? && ReadWord(info.value).Some? then ReadWord(info.value).value.value else {}
  }

  datatype WordStatus = NoWord | Malformed | GoodWord(declared: set<Bytes>)

  function Classify(info: Option<Bytes>): WordStatus {
    if info.None? || info.value == [] then NoWord
    else
      var end := SkipValue(info.value);
      if end.None? then Malformed
      else if end.value >= |info.value| then NoWord
      else
        var word := ReadWord(info.value);
        if word.Some? then GoodWord(word.value.value) else Malformed
  }

  /** The status is a good word exactly when the reader finds one, and says what the reader declares. */
  lemma ClassifierAgreesWithReader(info: Option<Bytes>, d: set<Bytes>)
    ensures Classify(info) == GoodWord(d) <==>
            info.Some? && ReadWord(info.value).Some? && ReadWord(info.value).value.value == d
    ensures !Classify(info).GoodWord? ==> Declared(info) == {}
    ensures Classify(info) == GoodWord(d) ==> Declared(info) == d
  {
  }

  // ---------------------------------------------------------------------------------------------
  // Reading what was written
  // ---------------------------------------------------------------------------------------------

  lemma {:induction false} BigEndianOfToBe(n: nat, width: nat)
    requires n < Pow256(width)
    ensures |ToBe(n, width)| == width && Msgpack.BigEndian(ToBe(n, width)) == n
  {
    if width > 0 {
      BigEndianOfToBe(n / 256, width - 1);
      var b := ToBe(n, width);
      assert b[..width - 1] == ToBe(n / 256, width - 1);
    }
  }

  lemma FieldIsRead(marker: byte, n: nat, width: nat, rest: Bytes)
    requires n < Pow256(width)
    ensures ReadBe([marker] + ToBe(n, width) + rest, width) == Some(Read(n, 1 + width))
  {
    BigEndianOfToBe(n, width);
    var b := [marker] + ToBe(n, width) + rest;
    assert b[1..1 + width] == ToBe(n, width);
  }

  /** The markers of the wider forms differ from each other and from the small lengths. */
  ghost predicate MarkersDiffer(f: Forms, marker: byte) {
    f.Form? ==> f.marker != marker && MarkersDiffer(f.wider, marker)
  }

  ghost predicate MarkersDistinct(f: Forms) {
    f.Form? ==> MarkersDiffer(f.wider, f.marker) && MarkersDistinct(f.wider)
  }

  ghost predicate OutsideSmall(f: Forms, l: Layout) {
    f.Form? ==> !(0 <= f.marker as int - l.base as int <= l.small) && OutsideSmall(f.wider, l)
  }

  function Widest(f: Forms): nat {
    if f.NoForm? then 0 else if f.wider.NoForm? then Pow256(f.width) else Widest(f.wider)
  }

  ghost predicate Sound(l: Layout) {
    l.base as nat + l.small <= 0xff && l.forms.Form? && MarkersDistinct(l.forms) && OutsideSmall(l.forms, l)
  }

  lemma {:induction false} SkipsForm(f: Forms, marker: byte, b: Bytes, n: nat)
    requires f.Form? && MarkersDiffer(f, marker)
    ensures WriteForm(f, n)[0] != marker
  {
    if f.wider.Form? {
      SkipsForm(f.wider, marker, b, n);
    }
  }

  lemma {:induction false} FormIsRead(f: Forms, n: nat, rest: Bytes)
    requires f.Form? && MarkersDistinct(f) && n < Widest(f)
    ensures ReadForm(f, WriteForm(f, n) + rest) == Some(Read(n, |WriteForm(f, n)|))
  {
    if n < Pow256(f.width) {
      assert Min(n, Max(Pow256(f.width) - 1, 0)) == n;
      FieldIsRead(f.marker, n, f.width, rest);
      BigEndianOfToBe(n, f.width);
    } else {
      FormIsRead(f.wider, n, rest);
      SkipsForm(f.wider, f.marker, rest, n);
    }
  }

  lemma {:induction false} FormIsNotSmall(f: Forms, l: Layout, n: nat)
    requires f.Form? && OutsideSmall(f, l)
    ensures !(0 <= WriteForm(f, n)[0] as int - l.base as int <= l.small)
  {
    if f.wider.Form? {
      FormIsNotSmall(f.wider, l, n);
    }
  }

  /** A length is read back from the form it was written in. */
  lemma LenIsRead(l: Layout, n: nat, rest: Bytes)
    requires Sound(l) && n < Widest(l.forms)
    ensures ReadLen(l, WriteLen(l, n) + rest) == Some(Read(n, |WriteLen(l, n)|))
  {
    if n > l.small {
      FormIsRead(l.forms, n, rest);
      FormIsNotSmall(l.forms, l, n);
    }
  }

  lemma LayoutsAreSound()
    ensures Sound(MAP_LAYOUT) && Widest(MAP_LAYOUT.forms) == U32_MAX + 1
    ensures Sound(STR_LAYOUT) && Widest(STR_LAYOUT.forms) == U32_MAX + 1
  {
  }

  lemma FieldStable(b: Bytes, ext: Bytes, width: nat)
    requires b != [] && ReadBe(b, width).Some?
    ensures ReadBe(b + ext, width) == ReadBe(b, width)
  {
    assert (b + ext)[1..1 + width] == b[1..1 + width];
  }

  lemma {:induction false} FormStable(f: Forms, b: Bytes, ext: Bytes)
    requires b != [] && ReadForm(f, b).Some?
    ensures ReadForm(f, b + ext) == ReadForm(f, b)
  {
    if b[0] == f.marker {
      FieldStable(b, ext, f.width);
    } else {
      FormStable(f.wider, b, ext);
    }
  }

  lemma LenStable(l: Layout, b: Bytes, ext: Bytes)
    requires ReadLen(l, b).Some?
    ensures ReadLen(l, b + ext) == ReadLen(l, b)
  {
    if !(0 <= b[0] as int - l.base as int <= l.small) {
      FormStable(l.forms, b, ext);
    }
  }

  lemma StrAt(b: Bytes, at: nat, key: Bytes)
    requires ReadLen(STR_LAYOUT, b) == Some(Read(|key|, at)) && ValidUtf8(key)
    requires at + |key| <= |b| && b[at..at + |key|] == key
    ensures ReadStr(b) == Some(Read(key, at + |key|))
  {
  }

  lemma Split3(a: Bytes, b: Bytes, c: Bytes)
    ensures a + b + c == a + (b + c) && (a + b + c)[|a|..|a| + |b|] == b
  {
  }

  /** A header for the key, in any form, and then the key. */
  lemma StrIsRead(head: Bytes, key: Bytes, rest: Bytes)
    requires ReadLen(STR_LAYOUT, head) == Some(Read(|key|, |head|)) && ValidUtf8(key)
    ensures ReadStr(head + key + rest) == Some(Read(key, |head| + |key|))
  {
    Split3(head, key, rest);
    LenStable(STR_LAYOUT, head, key + rest);
    StrAt(head + key + rest, |head|, key);
  }

  /** `true` is a value of its own, so a value that begins with its marker is nothing but `true`. */
  lemma TrueIsOneByte(b: Bytes)
    requires b != [] && b[0] == MARKER_TRUE
    ensures SkipValue(b) == Some(1)
  {
  }

  lemma SkipIsStable(b: Bytes, ext: Bytes)
    requires SkipValue(b).Some?
    ensures SkipValue(b + ext) == SkipValue(b)
  {
    Msgpack.ValueStable(b, ext, 0);
  }

  /** Bytes that are exactly one value within the bounds. */
  predicate OneValue(b: Bytes) {
    SkipValue(b) == Some(|b|)
  }

  /** The header, in any of its forms, gives the length of the key; the value is any value within the bounds. */
  ghost predicate GoodEntry(e: Entry) {
    ReadLen(STR_LAYOUT, e.head) == Some(Read(|e.key|, |e.head|)) && ValidUtf8(e.key) && OneValue(e.value)
  }

  /** The header, in any of its forms, gives the number of entries. */
  ghost predicate GoodMap(head: Bytes, es: seq<Entry>) {
    ReadLen(MAP_LAYOUT, head) == Some(Read(|es|, |head|)) && forall e :: e in es ==> GoodEntry(e)
  }

  function TrueKey(e: Entry): set<Bytes> {
    if e.value == [MARKER_TRUE] then {e.key} else {}
  }

  lemma EntryIsRead(e: Entry)
    requires GoodEntry(e)
    ensures |EntryBytes(e)| >= 2 && Reads(ReadEntry, EntryBytes(e), TrueKey(e))
  {
    forall tail ensures ReadEntry(EntryBytes(e) + tail) == Some(Read(TrueKey(e), |EntryBytes(e)|)) {
      var b := EntryBytes(e) + tail;
      var at := |e.head| + |e.key|;
      assert b == e.head + e.key + (e.value + tail);
      StrIsRead(e.head, e.key, e.value + tail);
      assert b[at] == e.value[0];
      if e.value[0] == MARKER_TRUE {
        TrueIsOneByte(e.value);
        assert e.value == [MARKER_TRUE];
      } else {
        assert b[at..] == e.value + tail;
        SkipIsStable(e.value, tail);
      }
    }
  }

  lemma CountIsRead(head: Bytes, n: nat, rest: Bytes)
    requires ReadLen(MAP_LAYOUT, head) == Some(Read(n, |head|)) && 2 * n <= |rest|
    ensures ReadMapHeader(head + rest) == Some(Read(n, |head|))
  {
    LenStable(MAP_LAYOUT, head, rest);
  }

  /** A map with any values is read as the set of its keys whose value is `true`. */
  lemma MapIsRead(head: Bytes, es: seq<Entry>)
    requires GoodMap(head, es)
    ensures Reads(ReadMap, MapBytes(head, es), Collect(TrueKey, es))
  {
    forall e | e in es ensures |EntryBytes(e)| >= 2 && Reads(ReadEntry, EntryBytes(e), TrueKey(e)) {
      EntryIsRead(e);
    }
    ConcatIsLong(EntryBytes, es);
    forall tail ensures ReadMapHeader(head + (Concat(EntryBytes, es) + tail)) == Some(Read(|es|, |head|)) {
      CountIsRead(head, |es|, Concat(EntryBytes, es) + tail);
    }
    CountedReads(ReadMapHeader, ReadEntry, head, EntryBytes, TrueKey, es);
  }

  lemma SkippingIsStable()
    ensures SkipperStable(SkipValue)
  {
    forall b, ext | SkipValue(b).Some? ensures SkipValue(b + ext) == SkipValue(b) {
      SkipIsStable(b, ext);
    }
  }

  /**
   After any complete first value, a map with headers of any form and any values declares exactly its keys
   whose value is `true`, and what follows the map is ignored.
   */
  lemma DeclaresTheTrueKeys(first: Bytes, head: Bytes, es: seq<Entry>, rest: Bytes, k: Bytes)
    requires OneValue(first) && GoodMap(head, es)
    ensures ReadWord(first + MapBytes(head, es) + rest) ==
            Some(Read(Collect(TrueKey, es), |first + MapBytes(head, es)|))
    ensures k in Declared(Some(first + MapBytes(head, es) + rest)) <==>
            exists e :: e in es && e.key == k && e.value == [MARKER_TRUE]
  {
    MapIsRead(head, es);
    SkippingIsStable();
    AfterFirstReads(SkipValue, ReadMap, first, MapBytes(head, es), Collect(TrueKey, es), rest);
    CollectIs(TrueKey, es, k);
  }

  // ---------------------------------------------------------------------------------------------
  // What the reader accepts
  // ---------------------------------------------------------------------------------------------

  lemma {:induction false} FormIsItsOwn(f: Forms, b: Bytes)
    requires b != [] && ReadForm(f, b).Some?
    ensures ReadForm(f, b[..ReadForm(f, b).value.len]) == ReadForm(f, b)
  {
    if b[0] == f.marker {
      assert b[..1 + f.width][1..1 + f.width] == b[1..1 + f.width];
    } else {
      FormIsItsOwn(f.wider, b);
    }
  }

  lemma LenIsItsOwn(l: Layout, b: Bytes)
    requires ReadLen(l, b).Some?
    ensures ReadLen(l, b[..ReadLen(l, b).value.len]) == ReadLen(l, b)
  {
    if !(0 <= b[0] as int - l.base as int <= l.small) {
      FormIsItsOwn(l.forms, b);
    }
  }

  lemma ValueIsItsOwn(b: Bytes)
    requires SkipValue(b).Some?
    ensures OneValue(b[..SkipValue(b).value])
  {
    var t := Msgpack.CheckedValueIsTree(b, 0);
    Msgpack.EncodedTreeIsChecked(t, [], 0);
    assert Msgpack.Encode(t) + [] == Msgpack.Encode(t);
  }

  /** An entry is a string and a complete value, which begins with the marker of `true` if it is `true`. */
  lemma EntryParts(b: Bytes)
    requires ReadEntry(b).Some?
    ensures ReadStr(b).Some? && ReadStr(b).value.len < |b|
    ensures var Read(key, at) := ReadStr(b).value;
            && SkipValue(b[at..]).Some?
            && ReadEntry(b).value == Read(if b[at] == MARKER_TRUE then {key} else {}, at + SkipValue(b[at..]).value)
  {
    var at := ReadStr(b).value.len;
    if b[at] == MARKER_TRUE {
      TrueIsOneByte(b[at..]);
    }
  }

  lemma StrParts(b: Bytes) returns (head: Bytes)
    requires ReadStr(b).Some?
    ensures var Read(key, at) := ReadStr(b).value;
            ReadLen(STR_LAYOUT, head) == Some(Read(|key|, |head|)) && ValidUtf8(key) && head + key == b[..at]
  {
    LenIsItsOwn(STR_LAYOUT, b);
    head := b[..ReadLen(STR_LAYOUT, b).value.len];
  }

  /** The entry that the reader has read. */
  lemma EntryOf(b: Bytes) returns (e: Entry)
    requires ReadEntry(b).Some?
    ensures GoodEntry(e) && EntryBytes(e) == b[..ReadEntry(b).value.len] && TrueKey(e) == ReadEntry(b).value.value
  {
    EntryParts(b);
    var Read(key, at) := ReadStr(b).value;
    var tail := b[at..];
    var head := StrParts(b);
    var n := SkipValue(tail).value;
    ValueIsItsOwn(tail);
    e := Entry(head, key, tail[..n]);
    assert b[..at] + tail[..n] == b[..at + n];
    assert tail[..n][0] == b[at];
    if b[at] == MARKER_TRUE {
      TrueIsOneByte(tail);
    }
  }

  lemma MapOf(b: Bytes) returns (head: Bytes, es: seq<Entry>)
    requires ReadMap(b).Some?
    ensures GoodMap(head, es) && MapBytes(head, es) == b[..ReadMap(b).value.len]
    ensures Collect(TrueKey, es) == ReadMap(b).value.value
  {
    forall c | ReadEntry(c).Some? ensures exists e :: Gives(EntryBytes, TrueKey, GoodEntry, e, c, ReadEntry(c).value) {
      var e := EntryOf(c);
      assert Gives(EntryBytes, TrueKey, GoodEntry, e, c, ReadEntry(c).value);
    }
    es := CountedOf(ReadMapHeader, ReadEntry, EntryBytes, TrueKey, GoodEntry, b);
    head := b[..ReadMapHeader(b).value.len];
    LenIsItsOwn(MAP_LAYOUT, b);
  }

  /** The bytes begin with one value and a map whose keys with the value `true` are `keys`; together they take `len`. */
  ghost predicate IsWord(bytes: Bytes, first: Bytes, head: Bytes, es: seq<Entry>, keys: set<Bytes>, len: nat) {
    && len <= |bytes| && bytes[..len] == first + MapBytes(head, es)
    && OneValue(first) && GoodMap(head, es) && Collect(TrueKey, es) == keys
  }

  lemma WordOf(bytes: Bytes) returns (first: Bytes, head: Bytes, es: seq<Entry>)
    requires ReadWord(bytes).Some?
    ensures IsWord(bytes, first, head, es, ReadWord(bytes).value.value, ReadWord(bytes).value.len)
  {
    var at := SkipValue(bytes).value;
    ValueIsItsOwn(bytes);
    head, es := MapOf(bytes[at..]);
    first := bytes[..at];
    var n := ReadMap(bytes[at..]).value.len;
    assert bytes[..at] + bytes[at..][..n] == bytes[..at + n];
  }

  /**
   The reader accepts exactly the bytes that begin with one complete value and a map of UTF-8 strings to
   complete values, with lengths in any of their forms; it declares the keys whose value is `true`.
   */
  lemma AcceptedExactlyTheWords(bytes: Bytes, keys: set<Bytes>, len: nat)
    ensures ReadWord(bytes) == Some(Read(keys, len)) <==>
            exists first, head, es :: IsWord(bytes, first, head, es, keys, len)
  {
    if ReadWord(bytes) == Some(Read(keys, len)) {
      var first, head, es := WordOf(bytes);
    }
    forall first, head, es | IsWord(bytes, first, head, es, keys, len)
      ensures ReadWord(bytes) == Some(Read(keys, len))
    {
      assert bytes == first + MapBytes(head, es) + bytes[len..];
      DeclaresTheTrueKeys(first, head, es, bytes[len..], []);
    }
  }

  // ---------------------------------------------------------------------------------------------
  // What the writer writes
  // ---------------------------------------------------------------------------------------------

  /** The limits of the layout: a count and lengths of 32 bits. */
  ghost predicate Writable(keys: seq<Str>) {
    |SortedUnique(keys)| <= U32_MAX && forall k :: k in keys ==> |k| <= U32_MAX
  }

  lemma WrittenLen(l: Layout, n: nat)
    requires Sound(l) && n < Widest(l.forms)
    ensures ReadLen(l, WriteLen(l, n)) == Some(Read(n, |WriteLen(l, n)|))
  {
    LenIsRead(l, n, []);
    assert WriteLen(l, n) + [] == WriteLen(l, n);
  }

  lemma WrittenEntryIsGood(key: Bytes)
    requires |key| <= U32_MAX && ValidUtf8(key)
    ensures GoodEntry(TrueEntry(key)) && TrueKey(TrueEntry(key)) == {key}
  {
    LayoutsAreSound();
    WrittenLen(STR_LAYOUT, |key|);
    TrueIsOneByte([MARKER_TRUE]);
  }

  lemma WrittenMapIsGood(keys: seq<Str>)
    requires Writable(keys)
    ensures var sorted := SortedUnique(keys); GoodMap(WriteLen(MAP_LAYOUT, |sorted|), TrueEntries(sorted))
  {
    var sorted := SortedUnique(keys);
    LayoutsAreSound();
    WrittenLen(MAP_LAYOUT, |sorted|);
    forall e | e in TrueEntries(sorted) ensures GoodEntry(e) {
      assert e.key in Elements(sorted);
      WrittenEntryIsGood(e.key);
    }
  }

  lemma WrittenKeys(keys: seq<Bytes>)
    ensures Collect(TrueKey, TrueEntries(keys)) == Elements(keys)
  {
    var es := TrueEntries(keys);
    forall k ensures k in Collect(TrueKey, es) <==> k in Elements(keys) {
      CollectIs(TrueKey, es, k);
      if k in Elements(keys) {
        var i :| 0 <= i < |keys| && keys[i] == k;
        assert es[i] in es && k in TrueKey(es[i]);
      }
    }
  }

  lemma NoKeysNoWord(keys: seq<Str>)
    ensures SortedUnique(keys) == [] <==> keys == []
  {
  }

  lemma WordIsRead(first: Bytes, keys: seq<Str>)
    requires OneValue(first) && Writable(keys) && keys != []
    ensures ReadWord(first + WordBytes(keys)) == Some(Read(Elements(keys), |first + WordBytes(keys)|))
  {
    NoKeysNoWord(keys);
    WrittenMapIsGood(keys);
    var sorted := SortedUnique(keys);
    WrittenKeys(sorted);
    DeclaresTheTrueKeys(first, WriteLen(MAP_LAYOUT, |sorted|), TrueEntries(sorted), [], []);
    assert first + WordBytes(keys) + [] == first + WordBytes(keys);
  }

  lemma NothingFollows(first: Bytes)
    requires OneValue(first)
    ensures ReadWord(first).None?
  {
  }

  /** The reader returns exactly the set of keys written; the first value's bytes stay in front, unchanged. */
  lemma RoundTrip(first: Bytes, keys: seq<Str>)
    requires OneValue(first) && Writable(keys)
    ensures Declared(Some(first + WordBytes(keys))) == Elements(keys)
  {
    if keys == [] {
      assert first + WordBytes(keys) == first;
      NothingFollows(first);
    } else {
      WordIsRead(first, keys);
    }
  }

  /** The word is canonical: equal key sets give equal bytes and different ones different bytes. */
  lemma WordIsCanonical(first: Bytes, keys: seq<Str>, keys': seq<Str>)
    requires OneValue(first) && Writable(keys) && Writable(keys')
    ensures first + WordBytes(keys) == first + WordBytes(keys') <==> Elements(keys) == Elements(keys')
  {
    if Elements(keys) == Elements(keys') {
      SortedUniqueBySet(keys, keys');
    } else {
      RoundTrip(first, keys);
      RoundTrip(first, keys');
    }
  }

  // ---------------------------------------------------------------------------------------------
  // Truncated words
  // ---------------------------------------------------------------------------------------------

  lemma StrStable(b: Bytes, ext: Bytes)
    requires ReadStr(b).Some?
    ensures ReadStr(b + ext) == ReadStr(b)
  {
    LenStable(STR_LAYOUT, b, ext);
    var at, end := ReadLen(STR_LAYOUT, b).value.len, ReadStr(b).value.len;
    assert (b + ext)[at..end] == b[at..end];
  }

  lemma EntryStable(b: Bytes, ext: Bytes)
    requires ReadEntry(b).Some?
    ensures ReadEntry(b + ext) == ReadEntry(b)
  {
    StrStable(b, ext);
    var at := ReadStr(b).value.len;
    assert (b + ext)[at] == b[at];
    if b[at] != MARKER_TRUE {
      assert (b + ext)[at..] == b[at..] + ext;
      SkipIsStable(b[at..], ext);
    }
  }

  lemma MapStable(b: Bytes, ext: Bytes)
    requires ReadMap(b).Some?
    ensures ReadMap(b + ext) == ReadMap(b)
  {
    forall c, e | ReadMapHeader(c).Some? ensures ReadMapHeader(c + e) == ReadMapHeader(c) {
      LenStable(MAP_LAYOUT, c, e);
    }
    forall c, e | ReadEntry(c).Some? ensures ReadEntry(c + e) == ReadEntry(c) {
      EntryStable(c, e);
    }
    CountedStable(ReadMapHeader, ReadEntry, b, ext);
  }

  /** What the reader has accepted it accepts with more bytes after it, with the same outcome. */
  lemma WordStable(bytes: Bytes, ext: Bytes)
    requires ReadWord(bytes).Some?
    ensures ReadWord(bytes + ext) == ReadWord(bytes)
  {
    SkippingIsStable();
    forall b, e | ReadMap(b).Some? ensures ReadMap(b + e) == ReadMap(b) {
      MapStable(b, e);
    }
    AfterFirstStable(SkipValue, ReadMap, bytes, ext);
  }

  /** Cut anywhere below its own length, an accepted word is rejected and declares nothing. */
  lemma CutWordIsRejected(bytes: Bytes, cut: nat)
    requires ReadWord(bytes).Some? && cut < ReadWord(bytes).value.len
    ensures ReadWord(bytes[..cut]).None? && Declared(Some(bytes[..cut])) == {}
  {
    assert bytes == bytes[..cut] + bytes[cut..];
    if ReadWord(bytes[..cut]).Some? {
      WordStable(bytes[..cut], bytes[cut..]);
    }
  }

  /** Cut anywhere, a written word declares nothing. */
  lemma TruncationDeclaresNothing(first: Bytes, keys: seq<Str>, cut: nat)
    requires OneValue(first) && Writable(keys) && keys != []
    requires cut < |first + WordBytes(keys)|
    ensures ReadWord((first + WordBytes(keys))[..cut]).None?
    ensures Declared(Some((first + WordBytes(keys))[..cut])) == {}
  {
    WordIsRead(first, keys);
    CutWordIsRejected(first + WordBytes(keys), cut);
  }
}
