/** Readers of byte strings and how they combine: repetition, counted repetition, and a reader after a skipped value. */
module Parsing {
  import opened Base

  /** Something read from the front of some bytes and how many bytes it took. */
  datatype Read<+T> = Read(value: T, len: nat)

  /** A reader of a set of keys. */
  type Parser = Bytes -> Option<Read<set<Bytes>>>

  ghost predicate WithinInput(p: Parser) {
    forall b :: p(b).Some? ==> p(b).value.len <= |b|
  }

  /** What `p` has read, it reads the same with more bytes after it. */
  ghost predicate Stable(p: Parser) {
    forall b, ext :: p(b).Some? ==> p(b + ext) == p(b)
  }

  /** `p` reads exactly `item`, whatever follows, and yields `keys`. */
  ghost predicate Reads(p: Parser, item: Bytes, keys: set<Bytes>) {
    forall tail :: p(item + tail) == Some(Read(keys, |item|))
  }

  function Shifted(n: nat, r: Option<Read<set<Bytes>>>): Option<Read<set<Bytes>>> {
    if r.None? then None else Some(Read(r.value.value, n + r.value.len))
  }

  function KeysOf(r: Option<Read<set<Bytes>>>): Option<set<Bytes>> {
    if r.None? then None else Some(r.value.value)
  }

  // ---------------------------------------------------------------------------------------------
  // Repetition
  // ---------------------------------------------------------------------------------------------

  /** `n` times the reader `p`, collecting what it yields. */
  function Repeat(p: Parser, b: Bytes, n: nat): (r: Option<Read<set<Bytes>>>)
    requires WithinInput(p)
    ensures r.Some? ==> r.value.len <= |b|
    decreases n
  {
    if n == 0 then Some(Read({}, 0))
    else if p(b).None? then None
    else
      var Read(keys, at) := p(b).value;
      var rest := Repeat(p, b[at..], n - 1);
      if rest.None? then None else Some(Read(keys + rest.value.value, at + rest.value.len))
  }

  function Concat<E>(encode: E -> Bytes, es: seq<E>): Bytes {
    if es == [] then [] else encode(es[0]) + Concat(encode, es[1..])
  }

  function Collect<E>(keys: E -> set<Bytes>, es: seq<E>): set<Bytes> {
    if es == [] then {} else keys(es[0]) + Collect(keys, es[1..])
  }

  lemma {:induction false} ConcatSnoc<E>(encode: E -> Bytes, es: seq<E>, e: E)
    ensures Concat(encode, es + [e]) == Concat(encode, es) + encode(e)
  {
    if es == [] {
      assert es + [e] == [e] && [e][1..] == [];
    } else {
      assert (es + [e])[1..] == es[1..] + [e];
      ConcatSnoc(encode, es[1..], e);
    }
  }

  lemma {:induction false} CollectIs<E>(keys: E -> set<Bytes>, es: seq<E>, k: Bytes)
    ensures k in Collect(keys, es) <==> exists e :: e in es && k in keys(e)
  {
    if es != [] {
      assert es == [es[0]] + es[1..];
      CollectIs(keys, es[1..], k);
    }
  }

  lemma {:induction false} ConcatIsLong<E>(encode: E -> Bytes, es: seq<E>)
    requires forall e :: e in es ==> |encode(e)| >= 2
    ensures |Concat(encode, es)| >= 2 * |es|
  {
    if es != [] {
      assert es[0] in es;
      ConcatIsLong(encode, es[1..]);
    }
  }

  ghost predicate ReadsEach<E>(p: Parser, encode: E -> Bytes, keys: E -> set<Bytes>, es: seq<E>) {
    forall i :: 0 <= i < |es| ==> Reads(p, encode(es[i]), keys(es[i]))
  }

  lemma ConcatSplits<E>(encode: E -> Bytes, es: seq<E>, tail: Bytes)
    requires es != []
    ensures Concat(encode, es) + tail == encode(es[0]) + (Concat(encode, es[1..]) + tail)
  {
  }

  lemma ReadsIs(p: Parser, item: Bytes, keys: set<Bytes>, tail: Bytes)
    requires Reads(p, item, keys)
    ensures p(item + tail) == Some(Read(keys, |item|))
  {
  }

  lemma RepeatCons(p: Parser, item: Bytes, rest: Bytes, n: nat)
    requires WithinInput(p) && n > 0 && p(item + rest).Some? && p(item + rest).value.len == |item|
    ensures Repeat(p, item + rest, n) ==
            var r := Repeat(p, rest, n - 1);
            if r.None? then None else Some(Read(p(item + rest).value.value + r.value.value, |item| + r.value.len))
  {
  }

  /** A reader of single items reads a row of them. */
  lemma {:induction false} RepeatReads<E>(p: Parser, encode: E -> Bytes, keys: E -> set<Bytes>, es: seq<E>, tail: Bytes)
    requires WithinInput(p) && ReadsEach(p, encode, keys, es)
    ensures Repeat(p, Concat(encode, es) + tail, |es|) == Some(Read(Collect(keys, es), |Concat(encode, es)|))
  {
    if es != [] {
      var item, rest := encode(es[0]), Concat(encode, es[1..]) + tail;
      ConcatSplits(encode, es, tail);
      ReadsIs(p, item, keys(es[0]), rest);
      RepeatReads(p, encode, keys, es[1..], tail);
      RepeatCons(p, item, rest, |es|);
    }
  }

  /** `e` is a good item, encoded by the bytes that were read, and yields the keys that were read. */
  ghost predicate Gives<E>(encode: E -> Bytes, keys: E -> set<Bytes>, good: E -> bool, e: E, b: Bytes,
                           r: Read<set<Bytes>>) {
    r.len <= |b| && good(e) && encode(e) == b[..r.len] && keys(e) == r.value
  }

  /** Whatever `p` reads is the encoding of a good item, of which it yields the keys. */
  ghost predicate Recovers<E(!new)>(p: Parser, encode: E -> Bytes, keys: E -> set<Bytes>, good: E -> bool) {
    forall b :: p(b).Some? ==> exists e :: Gives(encode, keys, good, e, b, p(b).value)
  }

  lemma ConsItem<E>(encode: E -> Bytes, keys: E -> set<Bytes>, e: E, es: seq<E>)
    ensures Concat(encode, [e] + es) == encode(e) + Concat(encode, es)
    ensures Collect(keys, [e] + es) == keys(e) + Collect(keys, es)
  {
    assert ([e] + es)[1..] == es;
  }

  lemma RepeatParts(p: Parser, b: Bytes, n: nat)
    requires WithinInput(p) && n > 0 && Repeat(p, b, n).Some?
    ensures p(b).Some? && Repeat(p, b[p(b).value.len..], n - 1).Some?
    ensures var at, rest := p(b).value.len, Repeat(p, b[p(b).value.len..], n - 1).value;
            && Repeat(p, b, n) == Some(Read(p(b).value.value + rest.value, at + rest.len))
            && b[..at + rest.len] == b[..at] + b[at..][..rest.len]
  {
  }

  lemma ItemOf<E(!new)>(p: Parser, encode: E -> Bytes, keys: E -> set<Bytes>, good: E -> bool, b: Bytes) returns (e: E)
    requires Recovers(p, encode, keys, good) && p(b).Some?
    ensures Gives(encode, keys, good, e, b, p(b).value)
  {
    e :| Gives(encode, keys, good, e, b, p(b).value);
  }

  /** The items that a reader of single items has read. */
  lemma {:induction false} RepeatOf<E(!new)>(p: Parser, encode: E -> Bytes, keys: E -> set<Bytes>, good: E -> bool,
                                             b: Bytes, n: nat) returns (es: seq<E>)
    requires WithinInput(p) && Recovers(p, encode, keys, good) && Repeat(p, b, n).Some?
    ensures |es| == n && (forall e :: e in es ==> good(e))
    ensures Concat(encode, es) == b[..Repeat(p, b, n).value.len] && Collect(keys, es) == Repeat(p, b, n).value.value
    decreases n
  {
    if n == 0 {
      es := [];
    } else {
      RepeatParts(p, b, n);
      var e := ItemOf(p, encode, keys, good, b);
      var rest := RepeatOf(p, encode, keys, good, b[p(b).value.len..], n - 1);
      es := [e] + rest;
      ConsItem(encode, keys, e, rest);
    }
  }

  lemma {:induction false} RepeatStable(p: Parser, b: Bytes, ext: Bytes, n: nat)
    requires WithinInput(p) && Stable(p) && Repeat(p, b, n).Some?
    ensures Repeat(p, b + ext, n) == Repeat(p, b, n)
    decreases n
  {
    if n > 0 {
      var at := p(b).value.len;
      assert p(b + ext) == p(b);
      assert (b + ext)[at..] == b[at..] + ext;
      RepeatStable(p, b[at..], ext, n - 1);
    }
  }

  /** What is still to be read at `pos`, together with `keys`, makes up `all`. */
  ghost predicate CursorAt(p: Parser, bytes: Bytes, pos: nat, left: nat, keys: set<Bytes>,
                           all: Option<Read<set<Bytes>>>)
    requires WithinInput(p)
  {
    && pos <= |bytes|
    && var rest := Repeat(p, bytes[pos..], left);
       all.Some? == rest.Some? && (all.Some? ==> all.value.value == keys + rest.value.value)
  }

  lemma CursorMoves(p: Parser, bytes: Bytes, pos: nat, left: nat, keys: set<Bytes>, all: Option<Read<set<Bytes>>>)
    requires WithinInput(p) && left > 0 && CursorAt(p, bytes, pos, left, keys, all)
    ensures var e := p(bytes[pos..]);
            if e.None? then all.None? else CursorAt(p, bytes, pos + e.value.len, left - 1, keys + e.value.value, all)
  {
  }

  /** Repetition by a cursor that moves over the bytes and stops at the first failure. */
  method RepeatByCursor(p: Parser, bytes: Bytes, start: nat, n: nat) returns (r: Option<set<Bytes>>)
    requires WithinInput(p) && start <= |bytes|
    ensures r == KeysOf(Repeat(p, bytes[start..], n))
  {
    ghost var all := Repeat(p, bytes[start..], n);
    var pos: nat, keys: set<Bytes> := start, {};
    for i := 0 to n
      invariant CursorAt(p, bytes, pos, n - i, keys, all)
    {
      CursorMoves(p, bytes, pos, n - i, keys, all);
      var e := p(bytes[pos..]);
      if e.None? {
        return None;
      }
      pos, keys := pos + e.value.len, keys + e.value.value;
    }
    r := Some(keys);
  }

  // ---------------------------------------------------------------------------------------------
  // A header that counts, and a reader after a value
  // ---------------------------------------------------------------------------------------------

  /** A header and the length it takes. */
  type Header = Bytes -> Option<Read<nat>>

  ghost predicate HeaderWithin(h: Header) {
    forall b :: h(b).Some? ==> 1 <= h(b).value.len <= |b|
  }

  ghost predicate HeaderStable(h: Header) {
    forall b, ext :: h(b).Some? ==> h(b + ext) == h(b)
  }

  /** As often as the header says, the reader `p` after it. */
  function Counted(h: Header, p: Parser, b: Bytes): (r: Option<Read<set<Bytes>>>)
    requires HeaderWithin(h) && WithinInput(p)
    ensures r.Some? ==> 1 <= r.value.len <= |b|
  {
    if h(b).None? then None else Shifted(h(b).value.len, Repeat(p, b[h(b).value.len..], h(b).value.value))
  }

  method CountedByCursor(h: Header, p: Parser, bytes: Bytes, start: nat) returns (r: Option<set<Bytes>>)
    requires HeaderWithin(h) && WithinInput(p) && start <= |bytes|
    ensures r == KeysOf(Counted(h, p, bytes[start..]))
  {
    var header := h(bytes[start..]);
    if header.None? {
      return None;
    }
    assert bytes[start..][header.value.len..] == bytes[start + header.value.len..];
    r := RepeatByCursor(p, bytes, start + header.value.len, header.value.value);
  }

  lemma CountedReads<E>(h: Header, p: Parser, head: Bytes, encode: E -> Bytes, keys: E -> set<Bytes>, es: seq<E>)
    requires HeaderWithin(h) && WithinInput(p) && ReadsEach(p, encode, keys, es)
    requires forall tail :: h(head + (Concat(encode, es) + tail)) == Some(Read(|es|, |head|))
    ensures forall tail ::
              Counted(h, p, head + Concat(encode, es) + tail) ==
              Some(Read(Collect(keys, es), |head + Concat(encode, es)|))
  {
    var body := Concat(encode, es);
    forall tail ensures Counted(h, p, head + body + tail) == Some(Read(Collect(keys, es), |head + body|)) {
      assert head + body + tail == head + (body + tail);
      assert (head + (body + tail))[|head|..] == body + tail;
      RepeatReads(p, encode, keys, es, tail);
    }
  }

  /** The items that a reader with a count has read. */
  lemma CountedOf<E(!new)>(h: Header, p: Parser, encode: E -> Bytes, keys: E -> set<Bytes>, good: E -> bool, b: Bytes)
    returns (es: seq<E>)
    requires HeaderWithin(h) && WithinInput(p) && Recovers(p, encode, keys, good) && Counted(h, p, b).Some?
    ensures h(b).Some? && |es| == h(b).value.value && (forall e :: e in es ==> good(e))
    ensures b[..h(b).value.len] + Concat(encode, es) == b[..Counted(h, p, b).value.len]
    ensures Collect(keys, es) == Counted(h, p, b).value.value
  {
    var Read(n, at) := h(b).value;
    es := RepeatOf(p, encode, keys, good, b[at..], n);
    var k := Repeat(p, b[at..], n).value.len;
    assert b[..at] + b[at..][..k] == b[..at + k];
  }

  lemma CountedStable(h: Header, p: Parser, b: Bytes, ext: Bytes)
    requires HeaderWithin(h) && HeaderStable(h) && WithinInput(p) && Stable(p) && Counted(h, p, b).Some?
    ensures Counted(h, p, b + ext) == Counted(h, p, b)
  {
    assert h(b + ext) == h(b);
    var at := h(b).value.len;
    assert (b + ext)[at..] == b[at..] + ext;
    RepeatStable(p, b[at..], ext, h(b).value.value);
  }

  /** The length of a complete value at the front, if there is one. */
  type Skipper = Bytes -> Option<nat>

  ghost predicate SkipperWithin(s: Skipper) {
    forall b :: s(b).Some? ==> s(b).value <= |b|
  }

  ghost predicate SkipperStable(s: Skipper) {
    forall b, ext :: s(b).Some? ==> s(b + ext) == s(b)
  }

  /** The reader `p` after one complete value. */
  function AfterFirst(s: Skipper, p: Parser, b: Bytes): (r: Option<Read<set<Bytes>>>)
    requires SkipperWithin(s) && WithinInput(p)
    ensures r.Some? ==> s(b).Some? && s(b).value <= r.value.len <= |b|
  {
    if s(b).None? then None else Shifted(s(b).value, p(b[s(b).value..]))
  }

  lemma AfterFirstReads(s: Skipper, p: Parser, first: Bytes, item: Bytes, keys: set<Bytes>, tail: Bytes)
    requires SkipperWithin(s) && SkipperStable(s) && WithinInput(p)
    requires s(first) == Some(|first|) && Reads(p, item, keys)
    ensures AfterFirst(s, p, first + item + tail) == Some(Read(keys, |first + item|))
  {
    assert first + item + tail == first + (item + tail);
    assert s(first + (item + tail)) == s(first);
    assert (first + (item + tail))[|first|..] == item + tail;
    assert p(item + tail) == Some(Read(keys, |item|));
  }

  lemma AfterFirstStable(s: Skipper, p: Parser, b: Bytes, ext: Bytes)
    requires SkipperWithin(s) && SkipperStable(s) && WithinInput(p) && Stable(p) && AfterFirst(s, p, b).Some?
    ensures AfterFirst(s, p, b + ext) == AfterFirst(s, p, b)
  {
    assert s(b + ext) == s(b);
    var at := s(b).value;
    assert (b + ext)[at..] == b[at..] + ext;
    assert p(b[at..] + ext) == p(b[at..]);
  }
}
