/**
 Which request the code being polled belongs to: the scope is put in place around every poll of a request's
 future and the previous one is restored afterwards, also when the poll panics.
 */
module ScopeStack {
  import opened Base

  type ScopeId = nat

  /**
   What one poll runs: a reading, the poll of a future that carries its scope, the start of a request, which
   joins a scope that is already in place, or a panic.
   */
  datatype Act =
    | Read(id: nat)
    | Scoped(scope: ScopeId, body: seq<Act>)
    | Request(scope: ScopeId, body: seq<Act>)
    | Panic

  /** A reading and the scope it was made in. */
  datatype Seen = Seen(id: nat, scope: Option<ScopeId>)

  /** A reading and the scopes around it, outermost first. */
  datatype Site = Site(id: nat, path: seq<ScopeId>)

  function Innermost(start: Option<ScopeId>, path: seq<ScopeId>): Option<ScopeId> {
    if path == [] then start else Some(path[|path| - 1])
  }

  predicate Panics(a: Act)
    decreases a, 0
  {
    match a
    case Read(_) => false
    case Scoped(_, body) => AnyPanics(body)
    case Request(_, body) => AnyPanics(body)
    case Panic => true
  }

  predicate AnyPanics(acts: seq<Act>)
    decreases acts, 1
  {
    acts != [] && (Panics(acts[0]) || AnyPanics(acts[1..]))
  }

  /** The readings of an act up to its first panic, with the scopes around them as the program text nests them. */
  function Sites(a: Act, start: Option<ScopeId>, path: seq<ScopeId>): seq<Site>
    decreases a, 0
  {
    match a
    case Read(id) => [Site(id, path)]
    case Scoped(scope, body) => AllSites(body, start, path + [scope])
    case Request(scope, body) => AllSites(body, start, if Innermost(start, path).Some? then path else path + [scope])
    case Panic => []
  }

  function AllSites(acts: seq<Act>, start: Option<ScopeId>, path: seq<ScopeId>): seq<Site>
    decreases acts, 1
  {
    if acts == [] then []
    else Sites(acts[0], start, path) + if Panics(acts[0]) then [] else AllSites(acts[1..], start, path)
  }

  function SeenAt(start: Option<ScopeId>, sites: seq<Site>): seq<Seen> {
    seq(|sites|, i requires 0 <= i < |sites| => Seen(sites[i].id, Innermost(start, sites[i].path)))
  }

  lemma SeenAtSum(start: Option<ScopeId>, a: seq<Site>, b: seq<Site>)
    ensures SeenAt(start, a + b) == SeenAt(start, a) + SeenAt(start, b)
  {
  }

  class Thread {
    var current: Option<ScopeId>
    var trace: seq<Seen>

    constructor ()
      ensures current == None && trace == []
    {
      current, trace := None, [];
    }

    /** A poll leaves the scope as it found it, and every reading it makes sees the innermost scope around it. */
    method Poll(a: Act, ghost start: Option<ScopeId>, ghost path: seq<ScopeId>) returns (panicked: bool)
      requires current == Innermost(start, path)
      modifies this
      ensures current == old(current)
      ensures panicked == Panics(a)
      ensures trace == old(trace) + SeenAt(start, Sites(a, start, path))
      decreases a, 0
    {
      match a {
        case Read(id) =>
          trace := trace + [Seen(id, current)];
          panicked := false;
        case Scoped(scope, body) =>
          panicked := PollInside(scope, body, start, path);
        case Request(scope, body) =>
          if current.Some? {
            panicked := PollAll(body, start, path);
          } else {
            panicked := PollInside(scope, body, start, path);
          }
        case Panic =>
          panicked := true;
      }
    }

    method PollInside(scope: ScopeId, body: seq<Act>, ghost start: Option<ScopeId>, ghost path: seq<ScopeId>)
      returns (panicked: bool)
      requires current == Innermost(start, path)
      modifies this
      ensures current == old(current)
      ensures panicked == AnyPanics(body)
      ensures trace == old(trace) + SeenAt(start, AllSites(body, start, path + [scope]))
      decreases body, 2
    {
      var previous := current;
      current := Some(scope);
      panicked := PollAll(body, start, path + [scope]);
      current := previous;
    }

    method PollAll(acts: seq<Act>, ghost start: Option<ScopeId>, ghost path: seq<ScopeId>) returns (panicked: bool)
      requires current == Innermost(start, path)
      modifies this
      ensures current == old(current)
      ensures panicked == AnyPanics(acts)
      ensures trace == old(trace) + SeenAt(start, AllSites(acts, start, path))
      decreases acts, 1
    {
      if acts == [] {
        return false;
      }
      panicked := Poll(acts[0], start, path);
      if !panicked {
        SeenAtSum(start, Sites(acts[0], start, path), AllSites(acts[1..], start, path));
        panicked := PollAll(acts[1..], start, path);
      }
    }

    /** However the executor interleaves polls on a thread, each one starts and ends outside every scope. */
    method Execute(polls: seq<Act>)
      requires current == None
      modifies this
      ensures current == None
      ensures trace == old(trace) + Flat(polls)
    {
      for i := 0 to |polls|
        invariant current == None && trace == old(trace) + Flat(polls[..i])
      {
        FlatSnoc(polls[..i], polls[i]);
        assert polls[..i + 1] == polls[..i] + [polls[i]];
        var _ := Poll(polls[i], None, []);
      }
      assert polls[..|polls|] == polls;
    }
  }

  /** What the readings of separate polls see, each poll on its own. */
  function Flat(polls: seq<Act>): seq<Seen> {
    if polls == [] then [] else SeenAt(None, Sites(polls[0], None, [])) + Flat(polls[1..])
  }

  lemma {:induction false} FlatSnoc(polls: seq<Act>, a: Act)
    ensures Flat(polls + [a]) == Flat(polls) + SeenAt(None, Sites(a, None, []))
  {
    if polls == [] {
      assert polls + [a] == [a] && [a][1..] == [];
    } else {
      assert (polls + [a])[1..] == polls[1..] + [a];
      FlatSnoc(polls[1..], a);
    }
  }

  // ---------------------------------------------------------------------------------------------
  // The scope of one reading
  // ---------------------------------------------------------------------------------------------

  /** What surrounds a reading: a future that carries its scope, or the start of a request. */
  datatype Frame = Carried(scope: ScopeId) | Asked(scope: ScopeId)

  function Nested(frames: seq<Frame>, id: nat): Act {
    if frames == [] then Read(id)
    else if frames[0].Carried? then Scoped(frames[0].scope, [Nested(frames[1..], id)])
    else Request(frames[0].scope, [Nested(frames[1..], id)])
  }

  ghost predicate NoneCarried(frames: seq<Frame>) {
    forall i :: 0 <= i < |frames| ==> frames[i].Asked?
  }

  /**
   A reading sees the innermost scope that a future around it carries. Without one it sees the scope that was in
   place before, and without that the request that was started first, which those started inside it join.
   */
  ghost predicate SeesRight(current: Option<ScopeId>, frames: seq<Frame>, seen: Option<ScopeId>) {
    && (forall i :: 0 <= i < |frames| && frames[i].Carried? && NoneCarried(frames[i + 1..]) ==>
          seen == Some(frames[i].scope))
    && (NoneCarried(frames) && current.Some? ==> seen == current)
    && (NoneCarried(frames) && current.None? && frames != [] ==> seen == Some(frames[0].scope))
    && (frames == [] && current.None? ==> seen == None)
  }

  lemma SeesRightOneMore(current: Option<ScopeId>, frames: seq<Frame>, seen: Option<ScopeId>)
    requires frames != []
    requires var inner := if frames[0].Carried? || current.None? then Some(frames[0].scope) else current;
             SeesRight(inner, frames[1..], seen)
    ensures SeesRight(current, frames, seen)
  {
    var rest := frames[1..];
    assert frames == [frames[0]] + rest;
    forall i | 0 <= i < |frames| && frames[i].Carried? && NoneCarried(frames[i + 1..])
      ensures seen == Some(frames[i].scope)
    {
      if i > 0 {
        assert rest[i - 1] == frames[i] && rest[i - 1 + 1..] == frames[i + 1..];
      }
    }
    if NoneCarried(frames) {
      assert frames[0].Asked?;
      assert NoneCarried(rest);
    }
  }

  lemma {:induction false} NestedReadSees(frames: seq<Frame>, id: nat, start: Option<ScopeId>, path: seq<ScopeId>)
    ensures var sites := Sites(Nested(frames, id), start, path);
            && !Panics(Nested(frames, id)) && |sites| == 1 && sites[0].id == id
            && SeesRight(Innermost(start, path), frames, Innermost(start, sites[0].path))
    decreases |frames|
  {
    if frames != [] {
      var inner := Nested(frames[1..], id);
      var scope := frames[0].scope;
      var path' := if frames[0].Carried? || Innermost(start, path).None? then path + [scope] else path;
      NestedReadSees(frames[1..], id, start, path');
      assert [inner][1..] == [];
      assert AnyPanics([inner]) == Panics(inner);
      assert AllSites([inner], start, path') == Sites(inner, start, path');
      SeesRightOneMore(Innermost(start, path), frames, Innermost(start, Sites(inner, start, path')[0].path));
    }
  }

  /** A reading polled on its own, however its futures and requests are nested around it, sees the right scope. */
  lemma ReadingSeesItsScope(frames: seq<Frame>, id: nat)
    ensures |Flat([Nested(frames, id)])| == 1 && SeesRight(None, frames, Flat([Nested(frames, id)])[0].scope)
  {
    NestedReadSees(frames, id, None, []);
    assert [Nested(frames, id)][1..] == [];
  }
}
