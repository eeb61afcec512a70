/**
 The bounds check of a MessagePack value received from a peer: a recursive grammar of the accepted
 values, and the iterative walk with a fixed array of counters that the program runs.
 */
module Msgpack {
  import opened Base

  const MAX_PEER_NESTING: nat := 64

  datatype BoundsError = TooDeep | Truncated | Reserved

  datatype Result<+T> = Ok(value: T) | Err(error: BoundsError)

  /** What follows a header: bytes of data, or child values (a map counts two per entry). */
  datatype Item = Skip(len: nat) | Container(children: nat)

  datatype Head = Head(item: Item, len: nat)

  /** A complete value: how many bytes it takes and how deep the containers in it reach. */
  datatype Parsed = Parsed(len: nat, deepest: nat)

  function BigEndian(b: Bytes): nat {
    if b == [] then 0 else BigEndian(b[..|b| - 1]) * 256 + b[|b| - 1] as nat
  }

  /** How a marker byte is continued: a fixed item, a length field and extra bytes before the data, or a count. */
  datatype Marker = Fixed(item: Item) | Sized(width: nat, extra: nat) | Counted(width: nat, perEntry: nat) | Unused

  /** The marker families in ascending order; `at` takes the position of a marker in its family. */
  datatype Families = NoMore | Family(last: nat, at: nat -> Marker, rest: Families)

  const FAMILIES: Families :=
    Family(0x7f, (i: nat) => Fixed(Skip(0)),              // positive fixint
    Family(0x8f, (i: nat) => Fixed(Container(i * 2)),     // fixmap
    Family(0x9f, (i: nat) => Fixed(Container(i)),         // fixarray
    Family(0xbf, (i: nat) => Fixed(Skip(i)),              // fixstr
    Family(0xc0, (i: nat) => Fixed(Skip(0)),              // nil
    Family(0xc1, (i: nat) => Unused,                      // reserved
    Family(0xc3, (i: nat) => Fixed(Skip(0)),              // false, true
    Family(0xc6, (i: nat) => Sized(Pow2(i), 0),           // bin8, bin16, bin32
    Family(0xc9, (i: nat) => Sized(Pow2(i), 1),           // ext8, ext16, ext32: a type byte before the data
    Family(0xcb, (i: nat) => Fixed(Skip(4 * Pow2(i))),    // float32, float64
    Family(0xcf, (i: nat) => Fixed(Skip(Pow2(i))),        // uint8 to uint64
    Family(0xd3, (i: nat) => Fixed(Skip(Pow2(i))),        // int8 to int64
    Family(0xd8, (i: nat) => Fixed(Skip(1 + Pow2(i))),    // fixext1 to fixext16: a type byte and the data
    Family(0xdb, (i: nat) => Sized(Pow2(i), 0),           // str8, str16, str32
    Family(0xdd, (i: nat) => Counted(2 * Pow2(i), 1),     // array16, array32
    Family(0xdf, (i: nat) => Counted(2 * Pow2(i), 2),     // map16, map32
    Family(0xff, (i: nat) => Fixed(Skip(0)),              // negative fixint
    NoMore)))))))))))))))))

  function Lookup(f: Families, first: nat, m: nat): Marker
    requires first <= m
  {
    if f.NoMore? then Unused
    else if m <= f.last then f.at(m - first)
    else Lookup(f.rest, f.last + 1, m)
  }

  function MarkerOf(m: byte): Marker {
    Lookup(FAMILIES, 0, m as nat)
  }

  function HeaderBy(k: Marker, b: Bytes): (r: Result<Head>)
    requires b != []
    ensures r.Ok? ==> 1 <= r.value.len <= |b|
  {
    match k
    case Fixed(item) => Ok(Head(item, 1))
    case Sized(width, extra) =>
      if |b| < 1 + width then Err(Truncated) else Ok(Head(Skip(BigEndian(b[1..1 + width]) + extra), 1 + width))
    case Counted(width, perEntry) =>
      if |b| < 1 + width then Err(Truncated) else Ok(Head(Container(BigEndian(b[1..1 + width]) * perEntry), 1 + width))
    case Unused => Err(Reserved)
  }

  /** The header at the start of `b`. */
  function Header(b: Bytes): (r: Result<Head>)
    requires b != []
    ensures r.Ok? ==> 1 <= r.value.len <= |b|
  {
    HeaderBy(MarkerOf(b[0]), b)
  }

  // ---------------------------------------------------------------------------------------------
  // The check as a recursive descent
  // ---------------------------------------------------------------------------------------------

  /** What a header leads to: a failure, that many children one level deeper, or a complete value. */
  datatype Turn = Stop(error: BoundsError) | Open(children: nat, len: nat) | Complete(len: nat, deepest: nat)

  function TurnBy(head: Head, present: nat, depth: nat): Turn
    requires head.len <= present
  {
    match head.item
    case Skip(len) => if len > present - head.len then Stop(Truncated) else Complete(head.len + len, 0)
    case Container(n) =>
      if depth >= MAX_PEER_NESTING then Stop(TooDeep)
      else if n > present - head.len then Stop(Truncated)
      else if n > 0 then Open(n, head.len)
      else Complete(head.len, depth + 1)
  }

  function TurnAt(b: Bytes, depth: nat): (t: Turn)
    ensures t.Open? ==> 1 <= t.len <= |b| && 0 < t.children <= |b| - t.len && depth < MAX_PEER_NESTING
    ensures t.Complete? ==> 1 <= t.len <= |b|
  {
    if b == [] then Stop(Truncated)
    else if Header(b).Err? then Stop(Header(b).error)
    else TurnBy(Header(b).value, |b|, depth)
  }

  /** The value at the start of `b`, which stands inside `depth` containers. */
  function Value(b: Bytes, depth: nat): (r: Result<Parsed>)
    ensures r.Ok? ==> 1 <= r.value.len <= |b|
    decreases |b|, 0, 0
  {
    match TurnAt(b, depth)
    case Stop(e) => Err(e)
    case Complete(len, deepest) => Ok(Parsed(len, deepest))
    case Open(n, at) =>
      match Values(b[at..], n, depth + 1)
      case Err(e) => Err(e)
      case Ok(p) => Ok(Parsed(at + p.len, Max(depth + 1, p.deepest)))
  }

  /** `n` values in a row. */
  function Values(b: Bytes, n: nat, depth: nat): (r: Result<Parsed>)
    ensures r.Ok? ==> n <= r.value.len <= |b|
    decreases |b|, 1, n
  {
    if n == 0 then Ok(Parsed(0, 0))
    else match Value(b, depth)
      case Err(e) => Err(e)
      case Ok(p) =>
        match Values(b[p.len..], n - 1, depth)
        case Err(e) => Err(e)
        case Ok(q) => Ok(Parsed(p.len + q.len, Max(p.deepest, q.deepest)))
  }

  // ---------------------------------------------------------------------------------------------
  // More bytes do not change a verdict
  // ---------------------------------------------------------------------------------------------

  lemma HeaderByStable(k: Marker, b: Bytes, ext: Bytes)
    requires b != [] && HeaderBy(k, b) != Err(Truncated)
    ensures HeaderBy(k, b + ext) == HeaderBy(k, b)
  {
    if k.Sized? || k.Counted? {
      assert (b + ext)[1..1 + k.width] == b[1..1 + k.width];
    }
  }

  lemma HeaderStable(b: Bytes, ext: Bytes)
    requires b != [] && Header(b) != Err(Truncated)
    ensures Header(b + ext) == Header(b)
  {
    HeaderByStable(MarkerOf(b[0]), b, ext);
  }

  lemma TurnStable(b: Bytes, ext: Bytes, depth: nat)
    requires TurnAt(b, depth) != Stop(Truncated)
    ensures TurnAt(b + ext, depth) == TurnAt(b, depth)
  {
    HeaderStable(b, ext);
  }

  /** Any verdict but "truncated" is final: it does not depend on the bytes that follow. */
  lemma {:induction false} ValueStable(b: Bytes, ext: Bytes, depth: nat)
    requires Value(b, depth) != Err(Truncated)
    ensures Value(b + ext, depth) == Value(b, depth)
    decreases |b|, 0, 0
  {
    TurnStable(b, ext, depth);
    var turn := TurnAt(b, depth);
    if turn.Open? {
      assert (b + ext)[turn.len..] == b[turn.len..] + ext;
      ValuesStable(b[turn.len..], ext, turn.children, depth + 1);
    }
  }

  lemma ValuesSame(b: Bytes, c: Bytes, n: nat, depth: nat)
    requires n > 0 && Value(b, depth) == Value(c, depth)
    requires Value(b, depth).Ok? ==>
               var at := Value(b, depth).value.len; Values(b[at..], n - 1, depth) == Values(c[at..], n - 1, depth)
    ensures Values(b, n, depth) == Values(c, n, depth)
  {
  }

  lemma {:induction false} ValuesStable(b: Bytes, ext: Bytes, n: nat, depth: nat)
    requires Values(b, n, depth) != Err(Truncated)
    ensures Values(b + ext, n, depth) == Values(b, n, depth)
    decreases |b|, 1, n
  {
    if n > 0 {
      ValueStable(b, ext, depth);
      if Value(b, depth).Ok? {
        var at := Value(b, depth).value.len;
        ValuesStable(b[at..], ext, n - 1, depth);
        assert (b + ext)[at..] == b[at..] + ext;
      }
      ValuesSame(b, b + ext, n, depth);
    }
  }

  /** Every strict prefix of an accepted value is rejected, and as truncated. */
  lemma PrefixIsTruncated(b: Bytes, cut: nat)
    requires Value(b, 0).Ok? && cut < Value(b, 0).value.len
    ensures Value(b[..cut], 0) == Err(Truncated)
  {
    assert b == b[..cut] + b[cut..];
    if Value(b[..cut], 0) != Err(Truncated) {
      ValueStable(b[..cut], b[cut..], 0);
    }
  }

  // ---------------------------------------------------------------------------------------------
  // The accepted values are the encodings of trees
  // ---------------------------------------------------------------------------------------------

  datatype Tree = Leaf(head: Bytes, payload: Bytes) | Node(head: Bytes, children: seq<Tree>)

  /** The header announces exactly the payload, or exactly the children, that follow it. */
  predicate WellFormed(t: Tree) {
    && t.head != [] && Header(t.head).Ok? && Header(t.head).value.len == |t.head|
    && match t
       case Leaf(head, payload) => Header(head).value.item == Skip(|payload|)
       case Node(head, children) =>
         && Header(head).value.item == Container(|children|)
         && forall c :: c in children ==> WellFormed(c)
  }

  function Encode(t: Tree): Bytes
    decreases t, 0
  {
    match t
    case Leaf(head, payload) => head + payload
    case Node(head, children) => head + EncodeAll(children)
  }

  function EncodeAll(ts: seq<Tree>): Bytes
    decreases ts, 1
  {
    if ts == [] then [] else Encode(ts[0]) + EncodeAll(ts[1..])
  }

  /** The number of containers on the deepest path. */
  function Nesting(t: Tree): nat
    decreases t, 0
  {
    match t
    case Leaf(_, _) => 0
    case Node(_, children) => 1 + NestingAll(children)
  }

  function NestingAll(ts: seq<Tree>): nat
    decreases ts, 1
  {
    if ts == [] then 0 else Max(Nesting(ts[0]), NestingAll(ts[1..]))
  }

  lemma {:induction false} EncodeAllIsLong(ts: seq<Tree>)
    requires forall t :: t in ts ==> WellFormed(t)
    ensures |EncodeAll(ts)| >= |ts|
    decreases ts
  {
    if ts != [] {
      assert ts[0] in ts && |Encode(ts[0])| >= 1;
      EncodeAllIsLong(ts[1..]);
    }
  }

  function DeepestOf(depth: nat, nesting: nat): nat {
    if nesting == 0 then 0 else depth + nesting
  }

  /** The header of an encoded tree is followed by its payload or its children. */
  lemma EncodedTurn(t: Tree, rest: Bytes, depth: nat)
    requires WellFormed(t) && depth <= MAX_PEER_NESTING
    ensures TurnAt(Encode(t) + rest, depth) ==
            if t.Leaf? then Complete(|Encode(t)|, 0)
            else if depth == MAX_PEER_NESTING then Stop(TooDeep)
            else if t.children == [] then Complete(|t.head|, depth + 1)
            else Open(|t.children|, |t.head|)
  {
    var tail := if t.Leaf? then t.payload + rest else EncodeAll(t.children) + rest;
    assert Encode(t) + rest == t.head + tail;
    HeaderStable(t.head, tail);
    if t.Node? {
      EncodeAllIsLong(t.children);
    }
  }

  /** An encoded tree is walked to its exact end if it nests within the bound, and is too deep otherwise. */
  lemma {:induction false} EncodedTreeIsChecked(t: Tree, rest: Bytes, depth: nat)
    requires WellFormed(t) && depth <= MAX_PEER_NESTING
    ensures Value(Encode(t) + rest, depth) ==
            if depth + Nesting(t) <= MAX_PEER_NESTING then Ok(Parsed(|Encode(t)|, DeepestOf(depth, Nesting(t))))
            else Err(TooDeep)
    decreases t, 0
  {
    EncodedTurn(t, rest, depth);
    if t.Node? && depth < MAX_PEER_NESTING && t.children != [] {
      assert (Encode(t) + rest)[|t.head|..] == EncodeAll(t.children) + rest;
      EncodedTreesAreChecked(t.children, rest, depth + 1);
    }
  }

  lemma {:induction false} EncodedTreesAreChecked(ts: seq<Tree>, rest: Bytes, depth: nat)
    requires (forall t :: t in ts ==> WellFormed(t)) && depth <= MAX_PEER_NESTING
    ensures Values(EncodeAll(ts) + rest, |ts|, depth) ==
            if depth + NestingAll(ts) <= MAX_PEER_NESTING
            then Ok(Parsed(|EncodeAll(ts)|, DeepestOf(depth, NestingAll(ts)))) else Err(TooDeep)
    decreases ts, 1
  {
    if ts != [] {
      var first := Encode(ts[0]);
      assert EncodeAll(ts) + rest == first + (EncodeAll(ts[1..]) + rest);
      EncodedTreeIsChecked(ts[0], EncodeAll(ts[1..]) + rest, depth);
      assert (EncodeAll(ts) + rest)[|first|..] == EncodeAll(ts[1..]) + rest;
      EncodedTreesAreChecked(ts[1..], rest, depth);
    }
  }

  lemma HeaderIsItsOwn(b: Bytes)
    requires b != [] && Header(b).Ok?
    ensures Header(b[..Header(b).value.len]) == Header(b)
  {
    var n := Header(b).value.len;
    assert b[..n][1..n] == b[1..n];
  }

  /** The tree of a value whose header is followed by `ts`, or by plain data when it is no container. */
  lemma HeadedTree(b: Bytes, depth: nat, end: nat, ts: seq<Tree>) returns (t: Tree)
    requires b != [] && Header(b).Ok? && Header(b).value.len <= end <= |b|
    requires match Header(b).value.item
             case Skip(len) => end == Header(b).value.len + len && ts == []
             case Container(n) => n == |ts| && EncodeAll(ts) == b[Header(b).value.len..end]
    requires forall c :: c in ts ==> WellFormed(c)
    ensures WellFormed(t) && Encode(t) == b[..end]
    ensures Nesting(t) == if Header(b).value.item.Skip? then 0 else 1 + NestingAll(ts)
  {
    var at := Header(b).value.len;
    HeaderIsItsOwn(b);
    t := if Header(b).value.item.Skip? then Leaf(b[..at], b[at..end]) else Node(b[..at], ts);
    assert b[..at] + b[at..end] == b[..end];
  }

  /** Every accepted value is the encoding of a tree that nests within the bound. */
  lemma {:induction false} CheckedValueIsTree(b: Bytes, depth: nat) returns (t: Tree)
    requires Value(b, depth).Ok? && depth <= MAX_PEER_NESTING
    ensures WellFormed(t) && Encode(t) == b[..Value(b, depth).value.len] && depth + Nesting(t) <= MAX_PEER_NESTING
    decreases |b|, 0, 0
  {
    var turn := TurnAt(b, depth);
    if turn.Open? {
      var rest := b[turn.len..];
      var ts := CheckedValuesAreTrees(rest, turn.children, depth + 1);
      var k := Values(rest, turn.children, depth + 1).value.len;
      assert rest[..k] == b[turn.len..turn.len + k];
      t := HeadedTree(b, depth, turn.len + k, ts);
    } else {
      t := HeadedTree(b, depth, turn.len, []);
    }
  }

  lemma {:induction false} CheckedValuesAreTrees(b: Bytes, n: nat, depth: nat) returns (ts: seq<Tree>)
    requires Values(b, n, depth).Ok? && depth <= MAX_PEER_NESTING
    ensures |ts| == n && (forall t :: t in ts ==> WellFormed(t))
    ensures EncodeAll(ts) == b[..Values(b, n, depth).value.len] && depth + NestingAll(ts) <= MAX_PEER_NESTING
    decreases |b|, 1, n
  {
    if n == 0 {
      ts := [];
    } else {
      var t := CheckedValueIsTree(b, depth);
      var at := Value(b, depth).value.len;
      var rest := CheckedValuesAreTrees(b[at..], n - 1, depth);
      ts := [t] + rest;
      assert ts[1..] == rest;
      var k := Values(b[at..], n - 1, depth).value.len;
      assert b[..at] + b[at..][..k] == b[..at + k];
    }
  }

  lemma TreeIsAccepted(b: Bytes, len: nat, t: Tree)
    requires len <= |b| && WellFormed(t) && Encode(t) == b[..len] && Nesting(t) <= MAX_PEER_NESTING
    ensures Value(b, 0).Ok? && Value(b, 0).value.len == len
  {
    EncodedTreeIsChecked(t, b[len..], 0);
    assert b == b[..len] + b[len..];
  }

  /** The check accepts exactly the bytes that begin with a well-formed value nesting at most 64 deep. */
  lemma AcceptedExactlyTheTrees(b: Bytes, len: nat)
    requires len <= |b|
    ensures (Value(b, 0).Ok? && Value(b, 0).value.len == len) <==>
            exists t :: WellFormed(t) && Encode(t) == b[..len] && Nesting(t) <= MAX_PEER_NESTING
  {
    if Value(b, 0).Ok? && Value(b, 0).value.len == len {
      var t := CheckedValueIsTree(b, 0);
    }
    forall t | WellFormed(t) && Encode(t) == b[..len] && Nesting(t) <= MAX_PEER_NESTING
      ensures Value(b, 0).Ok? && Value(b, 0).value.len == len
    {
      TreeIsAccepted(b, len, t);
    }
  }

  // ---------------------------------------------------------------------------------------------
  // The walk
  // ---------------------------------------------------------------------------------------------

  /** The rest of the check once a value is complete, `left` counting that value at every open level. */
  ghost function AfterValue(b: Bytes, left: seq<nat>, done: Parsed): Result<Parsed>
    decreases |left|, 0
  {
    if left == [] then Ok(done)
    else Then(b, Values(b, SatSub(left[|left| - 1], 1), |left|), left[..|left| - 1], done)
  }

  /** The rest of the check once the bytes of `r` have been read at the front of `b`. */
  ghost function Then(b: Bytes, r: Result<Parsed>, left: seq<nat>, done: Parsed): Result<Parsed>
    requires r.Ok? ==> r.value.len <= |b|
    decreases |left|, 1
  {
    if r.Err? then r
    else AfterValue(b[r.value.len..], left, Parsed(done.len + r.value.len, Max(done.deepest, r.value.deepest)))
  }

  /** The rest of the check when a value is about to be read inside the open levels. */
  ghost function BeforeValue(b: Bytes, left: seq<nat>, done: Parsed): Result<Parsed>
  {
    Then(b, Value(b, |left|), left, done)
  }

  /** One more value is read before the rest of the values of a level. */
  lemma ValuesThen(b: Bytes, n: nat, left: seq<nat>, done: Parsed)
    requires n > 0
    ensures BeforeValue(b, left + [n], done) == Then(b, Values(b, n, |left| + 1), left, done)
  {
    var depth := |left| + 1;
    var inner := left + [n];
    assert inner[..|left|] == left;
    if Value(b, depth).Ok? {
      var p := Value(b, depth).value;
      var d := Parsed(done.len + p.len, Max(done.deepest, p.deepest));
      assert BeforeValue(b, inner, done) == AfterValue(b[p.len..], inner, d);
      assert AfterValue(b[p.len..], inner, d) == Then(b[p.len..], Values(b[p.len..], n - 1, depth), left, d);
      if Values(b[p.len..], n - 1, depth).Ok? {
        var q := Values(b[p.len..], n - 1, depth).value;
        assert b[p.len..][q.len..] == b[p.len + q.len..];
        assert Values(b, n, depth) == Ok(Parsed(p.len + q.len, Max(p.deepest, q.deepest)));
      }
    }
  }

  /** The value just completed was not the last child of the innermost level. */
  lemma MoreChildren(b: Bytes, left: seq<nat>, done: Parsed)
    requires left != [] && left[|left| - 1] > 1
    ensures AfterValue(b, left, done) == BeforeValue(b, left[|left| - 1 := left[|left| - 1] - 1], done)
  {
    var outer, n := left[..|left| - 1], left[|left| - 1] - 1;
    assert left[|left| - 1 := n] == outer + [n];
    ValuesThen(b, n, outer, done);
  }

  lemma LastChild(b: Bytes, left: seq<nat>, done: Parsed)
    requires left != [] && left[|left| - 1] == 1
    ensures AfterValue(b, left, done) == AfterValue(b, left[..|left| - 1], done)
  {
  }

  /** A container with children opens a level. */
  lemma TurnOpens(b: Bytes, left: seq<nat>, done: Parsed)
    requires TurnAt(b, |left|).Open?
    ensures var t := TurnAt(b, |left|);
            BeforeValue(b, left, done) ==
            BeforeValue(b[t.len..], left + [t.children], Parsed(done.len + t.len, Max(done.deepest, |left| + 1)))
  {
    var Open(n, at) := TurnAt(b, |left|);
    var c := b[at..];
    ValuesThen(c, n, left, Parsed(done.len + at, Max(done.deepest, |left| + 1)));
    if Values(c, n, |left| + 1).Ok? {
      var p := Values(c, n, |left| + 1).value;
      assert c[p.len..] == b[at + p.len..];
      assert Value(b, |left|) == Ok(Parsed(at + p.len, Max(|left| + 1, p.deepest)));
    }
  }

  lemma TurnEnds(b: Bytes, left: seq<nat>, done: Parsed)
    requires !TurnAt(b, |left|).Open?
    ensures var t := TurnAt(b, |left|);
            BeforeValue(b, left, done) ==
            if t.Stop? then Err(t.error)
            else AfterValue(b[t.len..], left, Parsed(done.len + t.len, Max(done.deepest, t.deepest)))
  {
  }

  /** Closes every level whose last child has just been completed; `closed` says that no level is left. */
  method CloseLevels(ghost b: Bytes, remaining: array<nat>, open: nat, ghost done: Parsed)
    returns (open': nat, closed: bool)
    requires open <= remaining.Length && forall i :: 0 <= i < open ==> remaining[i] >= 1
    modifies remaining
    ensures open' <= open && forall i :: 0 <= i < open' ==> remaining[i] >= 1
    ensures closed ==> AfterValue(b, old(remaining[..open]), done) == Ok(done)
    ensures !closed ==> AfterValue(b, old(remaining[..open]), done) == BeforeValue(b, remaining[..open'], done)
  {
    open' := open;
    while true
      invariant open' <= open && forall i :: 0 <= i < open' ==> remaining[i] >= 1
      invariant AfterValue(b, old(remaining[..open]), done) == AfterValue(b, remaining[..open'], done)
      decreases open'
    {
      if open' == 0 {
        return 0, true;
      }
      ghost var left := remaining[..open'];
      remaining[open' - 1] := remaining[open' - 1] - 1;
      if remaining[open' - 1] > 0 {
        MoreChildren(b, left, done);
        assert remaining[..open'] == left[open' - 1 := left[open' - 1] - 1];
        return open', false;
      }
      LastChild(b, left, done);
      assert remaining[..open' - 1] == left[..open' - 1];
      open' := open' - 1;
    }
  }

  /** Opens a level for the children of a container. */
  method OpenLevel(ghost b: Bytes, remaining: array<nat>, open: nat, children: nat, ghost done: Parsed)
    requires open < remaining.Length && TurnAt(b, open).Open? && children == TurnAt(b, open).children
    requires forall i :: 0 <= i < open ==> remaining[i] >= 1
    modifies remaining
    ensures forall i :: 0 <= i < open + 1 ==> remaining[i] >= 1
    ensures var len := TurnAt(b, open).len;
            BeforeValue(b, old(remaining[..open]), done) ==
            BeforeValue(b[len..], remaining[..open + 1], Parsed(done.len + len, Max(done.deepest, open + 1)))
  {
    TurnOpens(b, remaining[..open], done);
    remaining[open] := children;
    assert remaining[..open + 1] == old(remaining[..open]) + [children];
  }

  /** Completes a value and closes the levels it was the last child of. */
  method CompleteValue(ghost b: Bytes, remaining: array<nat>, open: nat, ghost done: Parsed)
    returns (open': nat, closed: bool)
    requires open <= remaining.Length && TurnAt(b, open).Complete?
    requires forall i :: 0 <= i < open ==> remaining[i] >= 1
    modifies remaining
    ensures open' <= open && forall i :: 0 <= i < open' ==> remaining[i] >= 1
    ensures var Complete(len, nested) := TurnAt(b, open);
            var done' := Parsed(done.len + len, Max(done.deepest, nested));
            BeforeValue(b, old(remaining[..open]), done) ==
            if closed then Ok(done') else BeforeValue(b[len..], remaining[..open'], done')
  {
    TurnEnds(b, remaining[..open], done);
    ghost var Complete(len, nested) := TurnAt(b, open);
    open', closed := CloseLevels(b[len..], remaining, open, Parsed(done.len + len, Max(done.deepest, nested)));
  }

  /** One turn: a verdict, or a later position from which the rest of the check is the same. */
  method Advance(bytes: Bytes, remaining: array<nat>, pos: nat, open: nat, deepest: nat)
    returns (verdict: Option<Result<Parsed>>, pos': nat, open': nat, deepest': nat)
    requires pos <= |bytes| && open <= remaining.Length == MAX_PEER_NESTING
    requires forall i :: 0 <= i < open ==> remaining[i] >= 1
    modifies remaining
    ensures verdict.Some? ==> verdict.value == BeforeValue(bytes[pos..], old(remaining[..open]), Parsed(pos, deepest))
    ensures verdict.None? ==>
              && pos < pos' <= |bytes| && open' <= MAX_PEER_NESTING
              && (forall i :: 0 <= i < open' ==> remaining[i] >= 1)
              && BeforeValue(bytes[pos..], old(remaining[..open]), Parsed(pos, deepest)) ==
                 BeforeValue(bytes[pos'..], remaining[..open'], Parsed(pos', deepest'))
  {
    var b, turn := bytes[pos..], TurnAt(bytes[pos..], open);
    pos', open', deepest' := pos, open, deepest;
    if turn.Stop? {
      TurnEnds(b, remaining[..open], Parsed(pos, deepest));
      return Some(Err(turn.error)), pos', open', deepest';
    }
    pos' := pos + turn.len;
    assert b[turn.len..] == bytes[pos'..];
    if turn.Open? {
      OpenLevel(b, remaining, open, turn.children, Parsed(pos, deepest));
      open', deepest' := open + 1, Max(deepest, open + 1);
      verdict := None;
    } else {
      var closed;
      open', closed := CompleteValue(b, remaining, open, Parsed(pos, deepest));
      deepest' := Max(deepest, turn.deepest);
      verdict := if closed then Some(Ok(Parsed(pos', deepest'))) else None;
    }
  }

  /** The iterative walk gives the verdict of the recursive descent, error for error. */
  method Walk(bytes: Bytes) returns (r: Result<Parsed>)
    ensures r == Value(bytes, 0)
  {
    var remaining := new nat[MAX_PEER_NESTING];
    var open: nat, deepest: nat, pos: nat := 0, 0, 0;
    ghost var verdict := Value(bytes, 0);
    assert bytes[0..] == bytes && remaining[..0] == [];
    assert BeforeValue(bytes, [], Parsed(0, 0)) == verdict;
    while true
      invariant open <= MAX_PEER_NESTING && pos <= |bytes| && forall i :: 0 <= i < open ==> remaining[i] >= 1
      invariant verdict == BeforeValue(bytes[pos..], remaining[..open], Parsed(pos, deepest))
      decreases |bytes| - pos
    {
      var done;
      done, pos, open, deepest := Advance(bytes, remaining, pos, open, deepest);
      if done.Some? {
        return done.value;
      }
    }
  }
}
