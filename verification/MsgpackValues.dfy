/**
 MessagePack values and their encodings, every marker and every form of a length written out, and what the
 bounds check makes of them: it accepts exactly the encodings that nest at most 64 deep.
 */
module MsgpackValues {
  import opened Base
  import opened Msgpack

  /** How a length is written: in the marker, or in a field of one, two or four bytes after it. */
  datatype Form = Fix | Field8 | Field16 | Field32

  datatype NumberKind = Float32 | Float64 | UInt8 | UInt16 | UInt32 | UInt64 | Int8 | Int16 | Int32 | Int64

  datatype Msg =
    | Nil
    | Boolean(truth: bool)
    | SmallInt(n: int)
    | Number(kind: NumberKind, bits: Bytes)
    | Str(form: Form, text: Bytes)
    | Bin(form: Form, data: Bytes)
    | Ext(form: Form, tag: byte, data: Bytes)
    | Array(form: Form, items: seq<Msg>)
    | Map(form: Form, entries: seq<Entry>)

  datatype Entry = Entry(key: Msg, value: Msg)

  // ---------------------------------------------------------------------------------------------
  // Encodings
  // ---------------------------------------------------------------------------------------------

  /** Lengths up to `fix` can be part of the marker. */
  predicate LenFits(form: Form, n: nat, fix: nat) {
    match form
    case Fix => n <= fix
    case Field8 => n <= 0xff
    case Field16 => n <= 0xffff
    case Field32 => n <= 0xffff_ffff
  }

  function Field(form: Form, n: nat): Bytes
    requires form != Fix && LenFits(form, n, 0)
  {
    match form
    case Field8 => [n as byte]
    case Field16 => [(n / 0x100) as byte, (n % 0x100) as byte]
    case Field32 =>
      [(n / 0x100_0000) as byte, (n / 0x1_0000 % 0x100) as byte, (n / 0x100 % 0x100) as byte, (n % 0x100) as byte]
  }

  function NumberMarker(kind: NumberKind): byte {
    match kind
    case Float32 => 0xca
    case Float64 => 0xcb
    case UInt8 => 0xcc
    case UInt16 => 0xcd
    case UInt32 => 0xce
    case UInt64 => 0xcf
    case Int8 => 0xd0
    case Int16 => 0xd1
    case Int32 => 0xd2
    case Int64 => 0xd3
  }

  function NumberWidth(kind: NumberKind): nat {
    match kind
    case UInt8 => 1
    case Int8 => 1
    case UInt16 => 2
    case Int16 => 2
    case Float32 => 4
    case UInt32 => 4
    case Int32 => 4
    case Float64 => 8
    case UInt64 => 8
    case Int64 => 8
  }

  function StrHead(form: Form, n: nat): Bytes
    requires LenFits(form, n, 31)
  {
    match form
    case Fix => [(0xa0 + n) as byte]
    case Field8 => [0xd9] + Field(form, n)
    case Field16 => [0xda] + Field(form, n)
    case Field32 => [0xdb] + Field(form, n)
  }

  function BinHead(form: Form, n: nat): Bytes
    requires form != Fix && LenFits(form, n, 0)
  {
    match form
    case Field8 => [0xc4] + Field(form, n)
    case Field16 => [0xc5] + Field(form, n)
    case Field32 => [0xc6] + Field(form, n)
  }

  predicate ExtFits(form: Form, n: nat) {
    if form == Fix then n == 1 || n == 2 || n == 4 || n == 8 || n == 16 else LenFits(form, n, 0)
  }

  function ExtHead(form: Form, n: nat): Bytes
    requires ExtFits(form, n)
  {
    match form
    case Fix =>
      if n == 1 then [0xd4] else if n == 2 then [0xd5] else if n == 4 then [0xd6] else if n == 8 then [0xd7] else [0xd8]
    case Field8 => [0xc7] + Field(form, n)
    case Field16 => [0xc8] + Field(form, n)
    case Field32 => [0xc9] + Field(form, n)
  }

  function ArrayHead(form: Form, n: nat): Bytes
    requires form != Field8 && LenFits(form, n, 15)
  {
    match form
    case Fix => [(0x90 + n) as byte]
    case Field16 => [0xdc] + Field(form, n)
    case Field32 => [0xdd] + Field(form, n)
  }

  function MapHead(form: Form, n: nat): Bytes
    requires form != Field8 && LenFits(form, n, 15)
  {
    match form
    case Fix => [(0x80 + n) as byte]
    case Field16 => [0xde] + Field(form, n)
    case Field32 => [0xdf] + Field(form, n)
  }

  /** The lengths fit the forms they are written in. */
  predicate Valid(m: Msg)
    decreases m, 0
  {
    match m
    case Nil => true
    case Boolean(_) => true
    case SmallInt(n) => -32 <= n <= 127
    case Number(kind, bits) => |bits| == NumberWidth(kind)
    case Str(form, text) => LenFits(form, |text|, 31)
    case Bin(form, data) => form != Fix && LenFits(form, |data|, 0)
    case Ext(form, _, data) => ExtFits(form, |data|)
    case Array(form, items) => form != Field8 && LenFits(form, |items|, 15) && AllValid(items)
    case Map(form, entries) => form != Field8 && LenFits(form, |entries|, 15) && AllPairsValid(entries)
  }

  predicate AllValid(ms: seq<Msg>)
    decreases ms, 1
  {
    ms == [] || (Valid(ms[0]) && AllValid(ms[1..]))
  }

  predicate AllPairsValid(es: seq<Entry>)
    decreases es, 1
  {
    es == [] || (PairValid(es[0]) && AllPairsValid(es[1..]))
  }

  predicate PairValid(e: Entry)
    decreases e, 0
  {
    Valid(e.key) && Valid(e.value)
  }

  /** The bytes of a value. */
  function Encoding(m: Msg): Bytes
    requires Valid(m)
    decreases m, 0
  {
    match m
    case Nil => [0xc0]
    case Boolean(truth) => [if truth then 0xc3 else 0xc2]
    case SmallInt(n) => [(if n < 0 then 0x100 + n else n) as byte]
    case Number(kind, bits) => [NumberMarker(kind)] + bits
    case Str(form, text) => StrHead(form, |text|) + text
    case Bin(form, data) => BinHead(form, |data|) + data
    case Ext(form, tag, data) => ExtHead(form, |data|) + ([tag] + data)
    case Array(form, items) => ArrayHead(form, |items|) + AllBytes(items)
    case Map(form, entries) => MapHead(form, |entries|) + AllPairBytes(entries)
  }

  function AllBytes(ms: seq<Msg>): Bytes
    requires AllValid(ms)
    decreases ms, 1
  {
    if ms == [] then [] else Encoding(ms[0]) + AllBytes(ms[1..])
  }

  /** A map is its keys and values in turn. */
  function AllPairBytes(es: seq<Entry>): Bytes
    requires AllPairsValid(es)
    decreases es, 1
  {
    if es == [] then [] else PairBytes(es[0]) + AllPairBytes(es[1..])
  }

  function PairBytes(e: Entry): Bytes
    requires PairValid(e)
    decreases e, 0
  {
    Encoding(e.key) + Encoding(e.value)
  }

  /** The number of arrays and maps on the deepest path. */
  function Depth(m: Msg): nat
    decreases m, 0
  {
    match m
    case Array(_, items) => 1 + AllDepth(items)
    case Map(_, entries) => 1 + AllPairDepth(entries)
    case _ => 0
  }

  function AllDepth(ms: seq<Msg>): nat
    decreases ms, 1
  {
    if ms == [] then 0 else Max(Depth(ms[0]), AllDepth(ms[1..]))
  }

  function AllPairDepth(es: seq<Entry>): nat
    decreases es, 1
  {
    if es == [] then 0 else Max(PairDepth(es[0]), AllPairDepth(es[1..]))
  }

  function PairDepth(e: Entry): nat
    decreases e, 0
  {
    Max(Depth(e.key), Depth(e.value))
  }

  // ---------------------------------------------------------------------------------------------
  // The marker table
  // ---------------------------------------------------------------------------------------------

  lemma PassesFamily(f: Families, first: nat, m: nat)
    requires first <= m && f.Family? && m > f.last
    ensures Lookup(f, first, m) == Lookup(f.rest, f.last + 1, m)
  {
  }

  /** What the table says of the markers up to 0xc3. */
  lemma LowMarkers(marker: byte)
    ensures var m := marker as nat;
            && (m <= 0x7f ==> MarkerOf(marker) == Fixed(Skip(0)))
            && (0x80 <= m <= 0x8f ==> MarkerOf(marker) == Fixed(Container((m - 0x80) * 2)))
            && (0x90 <= m <= 0x9f ==> MarkerOf(marker) == Fixed(Container(m - 0x90)))
            && (0xa0 <= m <= 0xbf ==> MarkerOf(marker) == Fixed(Skip(m - 0xa0)))
            && (m == 0xc1 ==> MarkerOf(marker) == Unused)
            && (m == 0xc0 || m == 0xc2 || m == 0xc3 ==> MarkerOf(marker) == Fixed(Skip(0)))
            && (m > 0xc3 ==> MarkerOf(marker) == Lookup(FAMILIES.rest.rest.rest.rest.rest.rest.rest, 0xc4, m))
  {
    var m := marker as nat;
    var f := FAMILIES;
    if m > 0x7f { PassesFamily(f, 0x00, m); }
    if m > 0x8f { PassesFamily(f.rest, 0x80, m); }
    if m > 0x9f { PassesFamily(f.rest.rest, 0x90, m); }
    if m > 0xbf { PassesFamily(f.rest.rest.rest, 0xa0, m); }
    if m > 0xc0 { PassesFamily(f.rest.rest.rest.rest, 0xc0, m); }
    if m > 0xc1 { PassesFamily(f.rest.rest.rest.rest.rest, 0xc1, m); }
    if m > 0xc3 { PassesFamily(f.rest.rest.rest.rest.rest.rest, 0xc2, m); }
  }

  /** What the table says of the markers from 0xc4 to 0xd3. */
  lemma MiddleMarkers(marker: byte)
    requires marker > 0xc3
    ensures var m := marker as nat;
            && (0xc4 <= m <= 0xc6 ==> MarkerOf(marker) == Sized(Pow2(m - 0xc4), 0))
            && (0xc7 <= m <= 0xc9 ==> MarkerOf(marker) == Sized(Pow2(m - 0xc7), 1))
            && (0xca <= m <= 0xcb ==> MarkerOf(marker) == Fixed(Skip(4 * Pow2(m - 0xca))))
            && (0xcc <= m <= 0xcf ==> MarkerOf(marker) == Fixed(Skip(Pow2(m - 0xcc))))
            && (0xd0 <= m <= 0xd3 ==> MarkerOf(marker) == Fixed(Skip(Pow2(m - 0xd0))))
            && (m > 0xd3 ==>
                  MarkerOf(marker) ==
                  Lookup(FAMILIES.rest.rest.rest.rest.rest.rest.rest.rest.rest.rest.rest.rest, 0xd4, m))
  {
    LowMarkers(marker);
    var m := marker as nat;
    var f := FAMILIES.rest.rest.rest.rest.rest.rest.rest;
    if m > 0xc6 { PassesFamily(f, 0xc4, m); }
    if m > 0xc9 { PassesFamily(f.rest, 0xc7, m); }
    if m > 0xcb { PassesFamily(f.rest.rest, 0xca, m); }
    if m > 0xcf { PassesFamily(f.rest.rest.rest, 0xcc, m); }
    if m > 0xd3 { PassesFamily(f.rest.rest.rest.rest, 0xd0, m); }
  }

  /** What the table says of the markers from 0xd4 on. */
  lemma HighMarkers(marker: byte)
    requires marker > 0xd3
    ensures var m := marker as nat;
            && (0xd4 <= m <= 0xd8 ==> MarkerOf(marker) == Fixed(Skip(1 + Pow2(m - 0xd4))))
            && (0xd9 <= m <= 0xdb ==> MarkerOf(marker) == Sized(Pow2(m - 0xd9), 0))
            && (0xdc <= m <= 0xdd ==> MarkerOf(marker) == Counted(2 * Pow2(m - 0xdc), 1))
            && (0xde <= m <= 0xdf ==> MarkerOf(marker) == Counted(2 * Pow2(m - 0xde), 2))
            && (m >= 0xe0 ==> MarkerOf(marker) == Fixed(Skip(0)))
  {
    MiddleMarkers(marker);
    var m := marker as nat;
    var f := FAMILIES.rest.rest.rest.rest.rest.rest.rest.rest.rest.rest.rest.rest;
    if m > 0xd8 { PassesFamily(f, 0xd4, m); }
    if m > 0xdb { PassesFamily(f.rest, 0xd9, m); }
    if m > 0xdd { PassesFamily(f.rest.rest, 0xdc, m); }
    if m > 0xdf { PassesFamily(f.rest.rest.rest, 0xde, m); }
  }

  lemma Doublings()
    ensures Pow2(0) == 1 && Pow2(1) == 2 && Pow2(2) == 4 && Pow2(3) == 8 && Pow2(4) == 16
  {
  }

  // ---------------------------------------------------------------------------------------------
  // Headers
  // ---------------------------------------------------------------------------------------------

  function Width(form: Form): nat {
    match form
    case Fix => 0
    case Field8 => 1
    case Field16 => 2
    case Field32 => 4
  }

  lemma BigEndianOf1(a: byte)
    ensures BigEndian([a]) == a as nat
  {
  }

  lemma BigEndianOf2(a: byte, b: byte)
    ensures BigEndian([a, b]) == a as nat * 0x100 + b as nat
  {
    BigEndianOf1(a);
    assert [a, b][..1] == [a];
  }

  lemma BigEndianOf4(a: byte, b: byte, c: byte, d: byte)
    ensures BigEndian([a, b, c, d]) == a as nat * 0x100_0000 + b as nat * 0x1_0000 + c as nat * 0x100 + d as nat
  {
    BigEndianOf2(a, b);
    assert [a, b, c][..2] == [a, b] && [a, b, c, d][..3] == [a, b, c];
    assert BigEndian([a, b, c]) == BigEndian([a, b]) * 256 + c as nat;
  }

  lemma Composed(n: nat)
    requires n <= 0xffff_ffff
    ensures n / 0x100_0000 * 0x100_0000 + n / 0x1_0000 % 0x100 * 0x1_0000 + n / 0x100 % 0x100 * 0x100 + n % 0x100 == n
  {
    assert n / 0x1_0000 == n / 0x100_0000 * 0x100 + n / 0x1_0000 % 0x100;
    assert n / 0x100 == n / 0x1_0000 * 0x100 + n / 0x100 % 0x100;
  }

  lemma FieldIs(form: Form, n: nat)
    requires form != Fix && LenFits(form, n, 0)
    ensures |Field(form, n)| == Width(form) && BigEndian(Field(form, n)) == n
  {
    var f := Field(form, n);
    match form {
      case Field8 => BigEndianOf1(f[0]);
      case Field16 => BigEndianOf2(f[0], f[1]);
      case Field32 =>
        BigEndianOf4(f[0], f[1], f[2], f[3]);
        Composed(n);
    }
  }

  lemma Digits(a: nat, b: nat, c: nat, d: nat)
    requires a < 0x100 && b < 0x100 && c < 0x100 && d < 0x100
    ensures var n := a * 0x100_0000 + b * 0x1_0000 + c * 0x100 + d;
            && n <= 0xffff_ffff && n / 0x100_0000 == a && n / 0x1_0000 % 0x100 == b
            && n / 0x100 % 0x100 == c && n % 0x100 == d
  {
    var n := a * 0x100_0000 + b * 0x1_0000 + c * 0x100 + d;
    assert n / 0x1_0000 == a * 0x100 + b;
    assert n / 0x100 == a * 0x1_0000 + b * 0x100 + c;
  }

  lemma FieldBack(form: Form, f: Bytes)
    requires form != Fix && |f| == Width(form)
    ensures LenFits(form, BigEndian(f), 0) && Field(form, BigEndian(f)) == f
  {
    match form {
      case Field8 =>
        assert f == [f[0]];
        BigEndianOf1(f[0]);
      case Field16 =>
        assert f == [f[0], f[1]];
        BigEndianOf2(f[0], f[1]);
      case Field32 =>
        assert f == [f[0], f[1], f[2], f[3]];
        BigEndianOf4(f[0], f[1], f[2], f[3]);
        Digits(f[0] as nat, f[1] as nat, f[2] as nat, f[3] as nat);
    }
  }

  ghost predicate Announces(head: Bytes, item: Item) {
    head != [] && Header(head) == Ok(Head(item, |head|))
  }

  lemma FieldHead(marker: byte, form: Form, n: nat, k: nat)
    requires form != Fix && LenFits(form, n, 0)
    ensures MarkerOf(marker) == Sized(Width(form), k) ==> Announces([marker] + Field(form, n), Skip(n + k))
    ensures MarkerOf(marker) == Counted(Width(form), k) ==> Announces([marker] + Field(form, n), Container(n * k))
  {
    FieldIs(form, n);
    var head := [marker] + Field(form, n);
    assert head[0] == marker && head[1..1 + Width(form)] == Field(form, n);
  }

  lemma StrHeadIs(form: Form, n: nat)
    requires LenFits(form, n, 31)
    ensures Announces(StrHead(form, n), Skip(n))
  {
    Doublings();
    if form == Fix {
      LowMarkers((0xa0 + n) as byte);
    } else {
      HighMarkers(StrHead(form, n)[0]);
      FieldHead(StrHead(form, n)[0], form, n, 0);
    }
  }

  lemma BinHeadIs(form: Form, n: nat)
    requires form != Fix && LenFits(form, n, 0)
    ensures Announces(BinHead(form, n), Skip(n))
  {
    Doublings();
    MiddleMarkers(BinHead(form, n)[0]);
    FieldHead(BinHead(form, n)[0], form, n, 0);
  }

  lemma ExtHeadIs(form: Form, n: nat)
    requires ExtFits(form, n)
    ensures Announces(ExtHead(form, n), Skip(n + 1))
  {
    Doublings();
    if form == Fix {
      HighMarkers(ExtHead(form, n)[0]);
    } else {
      MiddleMarkers(ExtHead(form, n)[0]);
      FieldHead(ExtHead(form, n)[0], form, n, 1);
    }
  }

  lemma ArrayHeadIs(form: Form, n: nat)
    requires form != Field8 && LenFits(form, n, 15)
    ensures Announces(ArrayHead(form, n), Container(n))
  {
    Doublings();
    if form == Fix {
      LowMarkers((0x90 + n) as byte);
    } else {
      HighMarkers(ArrayHead(form, n)[0]);
      FieldHead(ArrayHead(form, n)[0], form, n, 1);
    }
  }

  lemma MapHeadIs(form: Form, n: nat)
    requires form != Field8 && LenFits(form, n, 15)
    ensures Announces(MapHead(form, n), Container(n * 2))
  {
    Doublings();
    if form == Fix {
      LowMarkers((0x80 + n) as byte);
    } else {
      HighMarkers(MapHead(form, n)[0]);
      FieldHead(MapHead(form, n)[0], form, n, 2);
    }
  }

  lemma NumberHeadIs(kind: NumberKind)
    ensures Announces([NumberMarker(kind)], Skip(NumberWidth(kind)))
  {
    Doublings();
    MiddleMarkers(NumberMarker(kind));
  }

  lemma SmallIntHeadIs(n: int)
    requires -32 <= n <= 127
    ensures Announces([(if n < 0 then 0x100 + n else n) as byte], Skip(0))
  {
    if n < 0 {
      HighMarkers((0x100 + n) as byte);
    } else {
      LowMarkers(n as byte);
    }
  }

  // ---------------------------------------------------------------------------------------------
  // From values to trees
  // ---------------------------------------------------------------------------------------------

  predicate IsContainer(m: Msg) {
    m.Array? || m.Map?
  }

  /** The header and the data of a value that is no container. */
  lemma LeafOf(m: Msg) returns (t: Tree)
    requires Valid(m) && !IsContainer(m)
    ensures t.Leaf? && WellFormed(t) && Encode(t) == Encoding(m)
  {
    match m {
      case Nil =>
        LowMarkers(0xc0);
        t := Leaf([0xc0], []);
      case Boolean(truth) =>
        LowMarkers(0xc2);
        LowMarkers(0xc3);
        t := Leaf([if truth then 0xc3 else 0xc2], []);
      case SmallInt(n) =>
        SmallIntHeadIs(n);
        t := Leaf([(if n < 0 then 0x100 + n else n) as byte], []);
      case Number(kind, bits) =>
        NumberHeadIs(kind);
        t := Leaf([NumberMarker(kind)], bits);
      case Str(form, text) =>
        StrHeadIs(form, |text|);
        t := Leaf(StrHead(form, |text|), text);
      case Bin(form, data) =>
        BinHeadIs(form, |data|);
        t := Leaf(BinHead(form, |data|), data);
      case Ext(form, tag, data) =>
        ExtHeadIs(form, |data|);
        t := Leaf(ExtHead(form, |data|), [tag] + data);
    }
  }

  ghost predicate AllWellFormed(ts: seq<Tree>) {
    forall t :: t in ts ==> WellFormed(t)
  }

  lemma {:induction false} TreeOf(m: Msg) returns (t: Tree)
    requires Valid(m)
    ensures WellFormed(t) && Encode(t) == Encoding(m) && Nesting(t) == Depth(m)
    decreases m, 0
  {
    match m {
      case Array(form, items) =>
        var ts := TreesOf(items);
        ArrayHeadIs(form, |items|);
        t := Node(ArrayHead(form, |items|), ts);
      case Map(form, entries) =>
        var ts := PairTreesOf(entries);
        MapHeadIs(form, |entries|);
        t := Node(MapHead(form, |entries|), ts);
      case _ =>
        t := LeafOf(m);
    }
  }

  lemma {:induction false} TreesOf(ms: seq<Msg>) returns (ts: seq<Tree>)
    requires AllValid(ms)
    ensures |ts| == |ms| && AllWellFormed(ts) && EncodeAll(ts) == AllBytes(ms) && NestingAll(ts) == AllDepth(ms)
    decreases ms, 1
  {
    if ms == [] {
      ts := [];
    } else {
      var t := TreeOf(ms[0]);
      var rest := TreesOf(ms[1..]);
      ts := [t] + rest;
      assert ts[1..] == rest;
    }
  }

  lemma {:induction false} PairTreesOf(es: seq<Entry>) returns (ts: seq<Tree>)
    requires AllPairsValid(es)
    ensures |ts| == |es| * 2 && AllWellFormed(ts)
    ensures EncodeAll(ts) == AllPairBytes(es) && NestingAll(ts) == AllPairDepth(es)
    decreases es, 1
  {
    if es == [] {
      ts := [];
    } else {
      var k, v := PairTreeOf(es[0]);
      var rest := PairTreesOf(es[1..]);
      ts := [k, v] + rest;
      assert ts[1..] == [v] + rest && ts[1..][1..] == rest;
      assert Encode(k) + (Encode(v) + EncodeAll(rest)) == Encode(k) + Encode(v) + EncodeAll(rest);
    }
  }

  lemma {:induction false} PairTreeOf(e: Entry) returns (k: Tree, v: Tree)
    requires PairValid(e)
    ensures WellFormed(k) && WellFormed(v) && Encode(k) + Encode(v) == PairBytes(e)
    ensures Max(Nesting(k), Nesting(v)) == PairDepth(e)
    decreases e, 0
  {
    k := TreeOf(e.key);
    v := TreeOf(e.value);
  }

  // ---------------------------------------------------------------------------------------------
  // From trees to values
  // ---------------------------------------------------------------------------------------------

  /** A header with a field is the marker and that field. */
  lemma FieldOf(head: Bytes, form: Form) returns (n: nat)
    requires form != Fix && |head| == 1 + Width(form)
    ensures n == BigEndian(head[1..]) && LenFits(form, n, 0) && head == [head[0]] + Field(form, n)
  {
    n := BigEndian(head[1..]);
    FieldBack(form, head[1..]);
  }

  lemma LowLeaf(head: Bytes, payload: Bytes) returns (m: Msg)
    requires Announces(head, Skip(|payload|)) && head[0] <= 0xc3
    ensures Valid(m) && !IsContainer(m) && Encoding(m) == head + payload
  {
    LowMarkers(head[0]);
    assert head == [head[0]];
    if head[0] <= 0x7f {
      m := SmallInt(head[0] as int);
    } else if head[0] <= 0xbf {
      m := Str(Fix, payload);
    } else if head[0] == 0xc0 {
      m := Nil;
    } else {
      m := Boolean(head[0] == 0xc3);
    }
  }

  /** The value whose length is in a field after its marker. */
  lemma SizedLeaf(head: Bytes, payload: Bytes, form: Form, extra: nat) returns (n: nat)
    requires Announces(head, Skip(|payload|)) && form != Fix && MarkerOf(head[0]) == Sized(Width(form), extra)
    ensures |payload| == n + extra && LenFits(form, n, 0) && head == [head[0]] + Field(form, n)
  {
    n := FieldOf(head, form);
    assert head[1..1 + Width(form)] == head[1..];
  }

  function FormAt(i: nat): Form {
    if i == 0 then Field8 else if i == 1 then Field16 else Field32
  }

  lemma MiddleLeaf(head: Bytes, payload: Bytes) returns (m: Msg)
    requires Announces(head, Skip(|payload|)) && 0xc3 < head[0] <= 0xd3
    ensures Valid(m) && !IsContainer(m) && Encoding(m) == head + payload
  {
    MiddleMarkers(head[0]);
    Doublings();
    if head[0] <= 0xc6 {
      var form := FormAt(head[0] as nat - 0xc4);
      var n := SizedLeaf(head, payload, form, 0);
      m := Bin(form, payload);
    } else if head[0] <= 0xc9 {
      var form := FormAt(head[0] as nat - 0xc7);
      var n := SizedLeaf(head, payload, form, 1);
      m := Ext(form, payload[0], payload[1..]);
      assert [payload[0]] + payload[1..] == payload;
    } else {
      m := NumberLeaf(head, payload);
    }
  }

  lemma NumberLeaf(head: Bytes, payload: Bytes) returns (m: Msg)
    requires Announces(head, Skip(|payload|)) && 0xc9 < head[0] <= 0xd3
    ensures Valid(m) && !IsContainer(m) && Encoding(m) == head + payload
  {
    m := Number(KindOf(head[0]), payload);
    NumberHeadIs(KindOf(head[0]));
    assert NumberMarker(KindOf(head[0])) == head[0];
    MiddleMarkers(head[0]);
    assert head == [head[0]];
  }

  function KindOf(marker: byte): NumberKind {
    match marker
    case 0xca => Float32
    case 0xcb => Float64
    case 0xcc => UInt8
    case 0xcd => UInt16
    case 0xce => UInt32
    case 0xcf => UInt64
    case 0xd0 => Int8
    case 0xd1 => Int16
    case 0xd2 => Int32
    case _ => Int64
  }

  lemma HighLeaf(head: Bytes, payload: Bytes) returns (m: Msg)
    requires Announces(head, Skip(|payload|)) && head[0] > 0xd3
    ensures Valid(m) && !IsContainer(m) && Encoding(m) == head + payload
  {
    HighMarkers(head[0]);
    Doublings();
    if head[0] <= 0xd8 {
      assert head == [head[0]] && [payload[0]] + payload[1..] == payload;
      m := Ext(Fix, payload[0], payload[1..]);
    } else if head[0] <= 0xdb {
      var form := FormAt(head[0] as nat - 0xd9);
      var n := SizedLeaf(head, payload, form, 0);
      m := Str(form, payload);
    } else {
      assert head[0] >= 0xe0 && head == [head[0]];
      m := SmallInt(head[0] as int - 0x100);
    }
  }

  lemma LeafMsg(head: Bytes, payload: Bytes) returns (m: Msg)
    requires Announces(head, Skip(|payload|))
    ensures Valid(m) && !IsContainer(m) && Encoding(m) == head + payload
  {
    if head[0] <= 0xc3 {
      m := LowLeaf(head, payload);
    } else if head[0] <= 0xd3 {
      m := MiddleLeaf(head, payload);
    } else {
      m := HighLeaf(head, payload);
    }
  }

  /** The header of a container is that of an array, or that of a map with half as many entries. */
  lemma ContainerHead(head: Bytes, k: nat) returns (isMap: bool, form: Form, n: nat)
    requires Announces(head, Container(k))
    ensures form != Field8 && LenFits(form, n, 15)
    ensures isMap ==> k == n * 2 && head == MapHead(form, n)
    ensures !isMap ==> k == n && head == ArrayHead(form, n)
  {
    Doublings();
    LowMarkers(head[0]);
    if head[0] <= 0x9f {
      assert head == [head[0]];
      isMap, form, n := head[0] <= 0x8f, Fix, head[0] as nat % 0x10;
    } else {
      if head[0] > 0xc3 { MiddleMarkers(head[0]); }
      if head[0] > 0xd3 { HighMarkers(head[0]); }
      isMap := head[0] >= 0xde;
      form := if head[0] == 0xdc || head[0] == 0xde then Field16 else Field32;
      n := FieldOf(head, form);
      assert head[1..1 + Width(form)] == head[1..];
    }
  }

  lemma {:induction false} MsgOf(t: Tree) returns (m: Msg)
    requires WellFormed(t)
    ensures Valid(m) && Encoding(m) == Encode(t) && Depth(m) == Nesting(t)
    decreases t, 0
  {
    match t {
      case Leaf(head, payload) =>
        m := LeafMsg(head, payload);
      case Node(head, children) =>
        var isMap, form, n := ContainerHead(head, |children|);
        if isMap {
          var entries := EntriesOf(children);
          m := Map(form, entries);
          MapIsNode(head, children, form, entries);
        } else {
          var items := MsgsOf(children);
          m := Array(form, items);
          ArrayIsNode(head, children, form, items);
        }
    }
  }

  lemma ArrayIsNode(head: Bytes, children: seq<Tree>, form: Form, items: seq<Msg>)
    requires form != Field8 && LenFits(form, |items|, 15) && head == ArrayHead(form, |items|)
    requires AllValid(items) && AllBytes(items) == EncodeAll(children) && AllDepth(items) == NestingAll(children)
    ensures Valid(Array(form, items)) && Encoding(Array(form, items)) == Encode(Node(head, children))
    ensures Depth(Array(form, items)) == Nesting(Node(head, children))
  {
  }

  lemma MapIsNode(head: Bytes, children: seq<Tree>, form: Form, es: seq<Entry>)
    requires form != Field8 && LenFits(form, |es|, 15) && head == MapHead(form, |es|)
    requires AllPairsValid(es) && AllPairBytes(es) == EncodeAll(children) && AllPairDepth(es) == NestingAll(children)
    ensures Valid(Map(form, es)) && Encoding(Map(form, es)) == Encode(Node(head, children))
    ensures Depth(Map(form, es)) == Nesting(Node(head, children))
  {
  }

  lemma {:induction false} MsgsOf(ts: seq<Tree>) returns (ms: seq<Msg>)
    requires AllWellFormed(ts)
    ensures |ms| == |ts| && AllValid(ms) && AllBytes(ms) == EncodeAll(ts) && AllDepth(ms) == NestingAll(ts)
    decreases ts, 1
  {
    if ts == [] {
      ms := [];
    } else {
      var m := MsgOf(ts[0]);
      var rest := MsgsOf(ts[1..]);
      ms := [m] + rest;
      assert ms[1..] == rest;
    }
  }

  lemma {:induction false} EntriesOf(ts: seq<Tree>) returns (es: seq<Entry>)
    requires AllWellFormed(ts) && |ts| % 2 == 0
    ensures |es| * 2 == |ts| && AllPairsValid(es)
    ensures AllPairBytes(es) == EncodeAll(ts) && AllPairDepth(es) == NestingAll(ts)
    decreases ts, 1
  {
    if ts == [] {
      es := [];
    } else {
      var k := MsgOf(ts[0]);
      var v := MsgOf(ts[1]);
      var rest := EntriesOf(ts[2..]);
      es := [Entry(k, v)] + rest;
      assert es[1..] == rest && ts[1..][1..] == ts[2..];
      assert Encode(ts[0]) + (Encode(ts[1]) + EncodeAll(ts[2..])) == Encode(ts[0]) + Encode(ts[1]) + EncodeAll(ts[2..]);
    }
  }

  // ---------------------------------------------------------------------------------------------
  // What the check accepts
  // ---------------------------------------------------------------------------------------------

  /** An encoded value is walked to its end if it nests at most 64 deep, and is too deep otherwise. */
  lemma EncodingIsChecked(m: Msg, rest: Bytes)
    requires Valid(m)
    ensures Msgpack.Value(Encoding(m) + rest, 0) ==
            if Depth(m) <= 64 then Ok(Parsed(|Encoding(m)|, Depth(m))) else Err(TooDeep)
  {
    var t := TreeOf(m);
    EncodedTreeIsChecked(t, rest, 0);
  }

  lemma AnnouncedTurn(head: Bytes, item: Item, rest: Bytes, depth: nat)
    requires Announces(head, item)
    ensures TurnAt(head + rest, depth) == TurnBy(Head(item, |head|), |head| + |rest|, depth)
  {
    HeaderStable(head, rest);
  }

  /** A length or a count beyond the bytes that follow is truncated at once, whatever those bytes are. */
  lemma BeyondTheBytesIsTruncated(form: Form, n: nat, rest: Bytes, depth: nat)
    requires depth < 64 && LenFits(form, n, 15)
    ensures n > |rest| ==> Msgpack.Value(StrHead(form, n) + rest, depth) == Err(Truncated)
    ensures form != Fix && n > |rest| ==> Msgpack.Value(BinHead(form, n) + rest, depth) == Err(Truncated)
    ensures form != Fix && n + 1 > |rest| ==> Msgpack.Value(ExtHead(form, n) + rest, depth) == Err(Truncated)
    ensures form != Field8 && n > |rest| ==> Msgpack.Value(ArrayHead(form, n) + rest, depth) == Err(Truncated)
    ensures form != Field8 && n * 2 > |rest| ==> Msgpack.Value(MapHead(form, n) + rest, depth) == Err(Truncated)
  {
    StrHeadIs(form, n);
    AnnouncedTurn(StrHead(form, n), Skip(n), rest, depth);
    if form != Fix {
      BinHeadIs(form, n);
      AnnouncedTurn(BinHead(form, n), Skip(n), rest, depth);
      ExtHeadIs(form, n);
      AnnouncedTurn(ExtHead(form, n), Skip(n + 1), rest, depth);
    }
    if form != Field8 {
      ArrayHeadIs(form, n);
      AnnouncedTurn(ArrayHead(form, n), Container(n), rest, depth);
      MapHeadIs(form, n);
      AnnouncedTurn(MapHead(form, n), Container(n * 2), rest, depth);
    }
  }

  /** The header of an array or a map inside 64 others is too deep, whatever it announces and whatever follows. */
  lemma DeepHeaderIsTooDeep(form: Form, n: nat, rest: Bytes)
    requires form != Field8 && LenFits(form, n, 15)
    ensures Msgpack.Value(ArrayHead(form, n) + rest, 64) == Err(TooDeep)
    ensures Msgpack.Value(MapHead(form, n) + rest, 64) == Err(TooDeep)
  {
    ArrayHeadIs(form, n);
    AnnouncedTurn(ArrayHead(form, n), Container(n), rest, 64);
    MapHeadIs(form, n);
    AnnouncedTurn(MapHead(form, n), Container(n * 2), rest, 64);
  }

  /** The marker that MessagePack does not assign is named as such. */
  lemma ReservedIsNamed(rest: Bytes)
    ensures Msgpack.Value([0xc1] + rest, 0) == Err(Reserved)
  {
    LowMarkers(0xc1);
  }

  lemma EncodingIsAccepted(b: Bytes, len: nat, m: Msg)
    requires Valid(m) && len <= |b| && Encoding(m) == b[..len] && Depth(m) <= 64
    ensures Msgpack.Value(b, 0) == Ok(Parsed(len, Depth(m)))
  {
    assert b == b[..len] + b[len..];
    EncodingIsChecked(m, b[len..]);
  }

  lemma AcceptedIsEncoding(b: Bytes) returns (m: Msg)
    requires Msgpack.Value(b, 0).Ok?
    ensures Valid(m) && Encoding(m) == b[..Msgpack.Value(b, 0).value.len]
    ensures Depth(m) == Msgpack.Value(b, 0).value.deepest <= 64
  {
    var t := CheckedValueIsTree(b, 0);
    m := MsgOf(t);
    EncodingIsAccepted(b, Msgpack.Value(b, 0).value.len, m);
  }

  /** The check accepts exactly the bytes that begin with the encoding of a value nesting at most 64 deep. */
  lemma AcceptedExactlyTheValues(b: Bytes, len: nat, depth: nat)
    ensures Msgpack.Value(b, 0) == Ok(Parsed(len, depth)) <==>
            len <= |b| && exists m :: Valid(m) && Encoding(m) == b[..len] && Depth(m) == depth <= 64
  {
    if Msgpack.Value(b, 0) == Ok(Parsed(len, depth)) {
      var m := AcceptedIsEncoding(b);
    }
    if len <= |b| {
      forall m | Valid(m) && Encoding(m) == b[..len] && Depth(m) == depth <= 64
        ensures Msgpack.Value(b, 0) == Ok(Parsed(len, depth))
      {
        EncodingIsAccepted(b, len, m);
      }
    }
  }
}
