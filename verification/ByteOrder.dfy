/** Byte strings in ascending order without repetition, as a sorted set or `sort` then `dedup` leaves them. */
module ByteOrder {
  import opened Base

  predicate Less(a: Bytes, b: Bytes) {
    b != [] && (a == [] || a[0] < b[0] || (a[0] == b[0] && Less(a[1..], b[1..])))
  }

  /** Up to `i` the strings are the same; there `a` ends or has the smaller byte. */
  ghost predicate Differ(a: Bytes, b: Bytes, i: nat) {
    i <= |a| && i < |b| && a[..i] == b[..i] && (i == |a| || a[i] < b[i])
  }

  /** The order of a dictionary: the first difference decides, and a prefix comes before what it begins. */
  lemma {:induction false} LessIsLexicographic(a: Bytes, b: Bytes)
    ensures Less(a, b) <==> exists i: nat :: Differ(a, b, i)
  {
    if a == [] && b != [] {
      assert Differ(a, b, 0);
    } else if a != [] && b != [] {
      if a[0] < b[0] {
        assert Differ(a, b, 0);
      } else if a[0] == b[0] {
        LessIsLexicographic(a[1..], b[1..]);
        if i: nat :| Differ(a[1..], b[1..], i) {
          assert a[..i + 1] == [a[0]] + a[1..][..i] && b[..i + 1] == [b[0]] + b[1..][..i];
          assert Differ(a, b, i + 1);
        }
        if i: nat :| Differ(a, b, i) {
          assert i > 0 && a[1..][..i - 1] == a[..i][1..] && b[1..][..i - 1] == b[..i][1..];
          assert Differ(a[1..], b[1..], i - 1);
        }
      } else {
        assert forall i :: 0 < i <= |a| && i <= |b| ==> a[..i][0] != b[..i][0];
      }
    }
  }

  lemma {:induction false} LessTransitive(a: Bytes, b: Bytes, c: Bytes)
    requires Less(a, b) && Less(b, c)
    ensures Less(a, c)
  {
    if a != [] && a[0] == b[0] == c[0] {
      LessTransitive(a[1..], b[1..], c[1..]);
    }
  }

  lemma {:induction false} LessTotal(a: Bytes, b: Bytes)
    ensures Less(a, b) || a == b || Less(b, a)
  {
    if a != [] && b != [] && a[0] == b[0] {
      LessTotal(a[1..], b[1..]);
      assert a == [a[0]] + a[1..] && b == [b[0]] + b[1..];
    }
  }

  lemma {:induction false} LessAsymmetric(a: Bytes, b: Bytes)
    requires Less(a, b)
    ensures !Less(b, a) && a != b
  {
    if a != [] && a[0] == b[0] {
      LessAsymmetric(a[1..], b[1..]);
    }
  }

  ghost predicate Ascending(s: seq<Bytes>) {
    forall i, j :: 0 <= i < j < |s| ==> Less(s[i], s[j])
  }

  function Elements(s: seq<Bytes>): set<Bytes> {
    set x | x in s
  }

  function Insert(s: seq<Bytes>, x: Bytes): (r: seq<Bytes>)
    requires Ascending(s)
    ensures Ascending(r) && Elements(r) == Elements(s) + {x}
  {
    if s == [] then [x]
    else if x == s[0] then s
    else if Less(x, s[0]) then
      assert forall i :: 0 < i < |s| ==> Less(x, s[i]) by {
        forall i | 0 < i < |s| ensures Less(x, s[i]) { LessTransitive(x, s[0], s[i]); }
      }
      [x] + s
    else
      var r := [s[0]] + Insert(s[1..], x);
      assert Ascending(r) && Elements(r) == Elements(s) + {x} by {
        InsertedTail(s, x, Insert(s[1..], x));
      }
      r
  }

  lemma InsertedTail(s: seq<Bytes>, x: Bytes, tail: seq<Bytes>)
    requires s != [] && Ascending(s) && x != s[0] && !Less(x, s[0])
    requires Ascending(tail) && Elements(tail) == Elements(s[1..]) + {x}
    ensures Ascending([s[0]] + tail) && Elements([s[0]] + tail) == Elements(s) + {x}
  {
    LessTotal(x, s[0]);
    forall i | 0 <= i < |tail| ensures Less(s[0], tail[i]) {
      assert tail[i] in Elements(tail);
    }
    assert s == [s[0]] + s[1..];
    forall y ensures y in [s[0]] + tail <==> y in s || y == x {
      assert y in tail <==> y in Elements(tail);
      assert y in s[1..] <==> y in Elements(s[1..]);
    }
  }

  /** The distinct members of `s` in ascending order. */
  function SortedUnique(s: seq<Bytes>): (r: seq<Bytes>)
    ensures Ascending(r) && Elements(r) == Elements(s)
  {
    if s == [] then [] else
      assert s == [s[0]] + s[1..];
      Insert(SortedUnique(s[1..]), s[0])
  }

  lemma AscendingDistinct(s: seq<Bytes>, i: nat, j: nat)
    requires Ascending(s) && i < j < |s|
    ensures s[i] != s[j]
  {
    LessAsymmetric(s[i], s[j]);
  }

  lemma FirstIsLeast(s: seq<Bytes>, x: Bytes)
    requires s != [] && Ascending(s) && x in s
    ensures x == s[0] || Less(s[0], x)
  {
  }

  lemma TailElements(s: seq<Bytes>)
    requires s != [] && Ascending(s)
    ensures Elements(s[1..]) == Elements(s) - {s[0]}
  {
    assert s == [s[0]] + s[1..];
    forall i | 0 < i < |s| ensures s[i] != s[0] { AscendingDistinct(s, 0, i); }
  }

  /** There is one way to list a set in ascending order. */
  lemma {:induction false} AscendingIsUnique(s: seq<Bytes>, t: seq<Bytes>)
    requires Ascending(s) && Ascending(t) && Elements(s) == Elements(t)
    ensures s == t
  {
    assert (s == [] <==> Elements(s) == {}) && (t == [] <==> Elements(t) == {}) by {
      assert s != [] ==> s[0] in Elements(s);
      assert t != [] ==> t[0] in Elements(t);
    }
    if s != [] {
      assert s[0] in Elements(t) && t[0] in Elements(s);
      FirstIsLeast(s, t[0]);
      FirstIsLeast(t, s[0]);
      if s[0] != t[0] {
        LessAsymmetric(s[0], t[0]);
      }
      TailElements(s);
      TailElements(t);
      AscendingIsUnique(s[1..], t[1..]);
      assert s == [s[0]] + s[1..] && t == [t[0]] + t[1..];
    }
  }

  /** The sorted list of a set does not depend on the order or the repetitions it was given with. */
  lemma SortedUniqueBySet(s: seq<Bytes>, t: seq<Bytes>)
    requires Elements(s) == Elements(t)
    ensures SortedUnique(s) == SortedUnique(t)
  {
    AscendingIsUnique(SortedUnique(s), SortedUnique(t));
  }
}
