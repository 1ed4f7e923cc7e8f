/**
 `reachable_task6_body` (scripts/verify_task6_deleted_test_parity.py): one test body
 followed by the bodies of all helpers it calls, directly or through other helpers,
 collected by a recursive visit that mutates a visited set and an ordered list.
 */
module HelperBodies {
  import opened Outcome
  import opened Graphs
  import opened Sorting
  import RustMasker
  import Delimited

  type Bodies = map<string, string>

  /** Reads the sorted helper calls out of one body, or fails where the masker does. */
  type Reader = string -> Result<seq<string>, RustMasker.Unterminated>

  /** Masks the body and looks for calls in what is left; the search pattern is not modelled. */
  function MaskedCalls(find: string -> seq<string>): Reader {
    body =>
      match RustMasker.Mask(body)
      case Err(why) => Err(why)
      case Ok(code) => Ok(find(code))
  }

  function Calls(read: Reader, body: string): seq<string> {
    match read(body)
    case Err(_) => []
    case Ok(calls) => calls
  }

  ghost function CallGraph(bodies: Bodies, read: Reader): Graph {
    map n | n in bodies :: set c | c in Calls(read, bodies[n]) && c in bodies
  }

  ghost predicate ReachedFrom(g: Graph, root: string, x: string) {
    x == root || Leads(g, root, x)
  }

  /** A reachable body cannot be read, for the given reason. */
  ghost predicate FailsAt(bodies: Bodies, read: Reader, g: Graph, root: string, x: string,
                          why: RustMasker.Unterminated) {
    ReachedFrom(g, root, x) && x in bodies && read(bodies[x]) == Err(why)
  }

  ghost predicate Fails(bodies: Bodies, read: Reader, g: Graph, root: string, why: RustMasker.Unterminated) {
    exists x :: FailsAt(bodies, read, g, root, x, why)
  }

  /** The helper at `i` is called by one that stands before it. */
  ghost predicate CalledBefore(g: Graph, order: seq<string>, i: nat)
    requires i < |order|
  {
    exists j :: 0 <= j < i && Arrow(g, order[j], order[i])
  }

  /** From `n` on, every name is called by an earlier one. */
  ghost predicate CallersFirst(g: Graph, order: seq<string>, n: nat) {
    forall i :: n <= i < |order| ==> CalledBefore(g, order, i)
  }

  lemma {:induction false} ReachedThrough(g: Graph, a: string, b: string, x: string)
    requires Arrow(g, a, b) && ReachedFrom(g, b, x)
    ensures Leads(g, a, x)
  {
    if x == b {
      ArrowLeads(g, a, b);
    } else {
      var p :| |p| >= 2 && Walk(g, p) && p[0] == b && p[|p| - 1] == x;
      var q := [a] + p;
      assert q[1..] == p;
      assert Walk(g, q) && q[0] == a && q[|q| - 1] == x;
    }
  }

  /** What was visited since `before`, except `busy`, can be read and has all its helpers visited. */
  ghost predicate DoneSince(bodies: Bodies, read: Reader, g: Graph, before: set<string>,
                            busy: set<string>, visited: set<string>) {
    forall x :: x in visited && x !in before && x !in busy ==> Done(bodies, read, g, visited, x)
  }

  ghost predicate Done(bodies: Bodies, read: Reader, g: Graph, visited: set<string>, x: string) {
    x in bodies && x in g && read(bodies[x]).Ok? && g[x] <= visited
  }

  ghost predicate ReachedSince(g: Graph, before: set<string>, root: string, visited: set<string>) {
    forall x :: x in visited && x !in before ==> ReachedFrom(g, root, x)
  }

  /** What `Visit` promises for `called` also serves its caller `name`. */
  lemma Absorb(bodies: Bodies, read: Reader, g: Graph, before: set<string>, name: string, called: string,
               visited: set<string>, visited': set<string>)
    requires Arrow(g, name, called) && visited <= visited' && before <= visited
    requires DoneSince(bodies, read, g, before, {name}, visited) && ReachedSince(g, before, name, visited)
    requires ReachedSince(g, visited, called, visited')
    ensures ReachedSince(g, before, name, visited')
    ensures DoneSince(bodies, read, g, visited, {}, visited') ==> DoneSince(bodies, read, g, before, {name}, visited')
  {
    forall x | x in visited' && x !in before ensures ReachedFrom(g, name, x) {
      if x !in visited { ReachedThrough(g, name, called, x); }
    }
    if DoneSince(bodies, read, g, visited, {}, visited') {
      forall x | x in visited' && x !in before && x !in {name} ensures Done(bodies, read, g, visited', x) {
        if x in visited { assert Done(bodies, read, g, visited, x); }
      }
    }
  }

  lemma FailureAbove(bodies: Bodies, read: Reader, g: Graph, name: string, called: string, why: RustMasker.Unterminated)
    requires Arrow(g, name, called) && Fails(bodies, read, g, called, why)
    ensures Fails(bodies, read, g, name, why)
  {
    var x :| FailsAt(bodies, read, g, called, x, why);
    ReachedThrough(g, name, called, x);
    assert FailsAt(bodies, read, g, name, x, why);
  }

  /** The helper `called` was appended after its caller. */
  lemma OrderAbsorbs(g: Graph, name: string, called: string, start: nat, order: seq<string>, order': seq<string>)
    requires Arrow(g, name, called) && order <= order' && 1 <= start <= |order| && order[start - 1] == name
    requires CallersFirst(g, order, start)
    requires CallersFirst(g, order', |order|) ||
             (|order| < |order'| && order'[|order|] == called && CallersFirst(g, order', |order| + 1))
    ensures CallersFirst(g, order', start)
  {
    forall i | start <= i < |order'| ensures CalledBefore(g, order', i) {
      if i < |order| {
        assert CalledBefore(g, order, i);
        var j :| 0 <= j < i && Arrow(g, order[j], order[i]);
        assert order'[j] == order[j] && order'[i] == order[i];
      } else if i == |order| && order'[i] == called {
        assert order'[start - 1] == name;
      }
    }
  }

  ghost predicate Linked(bodies: Bodies, read: Reader, g: Graph, n: string) {
    n in bodies && n in g && forall c :: c in g[n] <==> c in Calls(read, bodies[n]) && c in bodies
  }

  /** `ordered` holds the bodies of the names in `order`, and `visited` those names, each once. */
  ghost predicate Collected(bodies: Bodies, visited: set<string>, ordered: seq<string>, order: seq<string>)
    decreases |order|
  {
    && |ordered| == |order|
    && if order == [] then visited == {}
       else
         var n, last := |order| - 1, order[|order| - 1];
         last in visited && last in bodies && ordered[n] == bodies[last] &&
         Collected(bodies, visited - {last}, ordered[..n], order[..n])
  }

  lemma {:induction false} CollectedFacts(bodies: Bodies, visited: set<string>,
                                          ordered: seq<string>, order: seq<string>)
    requires Collected(bodies, visited, ordered, order)
    ensures Distinct(order) && (forall x :: x in visited <==> x in order)
    ensures forall i :: 0 <= i < |order| ==> order[i] in bodies && ordered[i] == bodies[order[i]]
    decreases |order|
  {
    if order != [] {
      var n, last := |order| - 1, order[|order| - 1];
      CollectedFacts(bodies, visited - {last}, ordered[..n], order[..n]);
      assert order == order[..n] + [last];
      forall i | 0 <= i < n ensures order[i] != last && ordered[i] == bodies[order[i]] && order[i] in bodies {
        assert order[..n][i] == order[i] && ordered[..n][i] == ordered[i];
        assert order[i] in order[..n];
      }
    }
  }

  lemma CollectedGrows(bodies: Bodies, visited: set<string>, ordered: seq<string>, order: seq<string>, name: string)
    requires Collected(bodies, visited, ordered, order) && name in bodies && name !in visited
    ensures Collected(bodies, visited + {name}, ordered + [bodies[name]], order + [name])
  {
    var longer, texts := order + [name], ordered + [bodies[name]];
    assert longer[..|order|] == order && texts[..|order|] == ordered;
    assert visited + {name} - {name} == visited;
  }

  class Collector {
    const bodies: Bodies
    const read: Reader
    ghost const g: Graph
    var visited: set<string>
    var ordered: seq<string>
    ghost var order: seq<string>  // the names behind `ordered`

    constructor (bodies: Bodies, read: Reader)
      ensures this.bodies == bodies && this.read == read
      ensures Valid() && g == CallGraph(bodies, read) && visited == {} && order == []
    {
      this.bodies, this.read := bodies, read;
      this.g := CallGraph(bodies, read);
      visited, ordered, order := {}, [], [];
    }

    ghost predicate Valid()
      reads this
    {
      && (forall n {:trigger Linked(bodies, read, g, n)} :: n in bodies ==> Linked(bodies, read, g, n))
      && visited <= bodies.Keys
      && Collected(bodies, visited, ordered, order)
    }

    method Visit(name: string) returns (failure: Option<RustMasker.Unterminated>)
      requires Valid() && name in bodies
      modifies this
      ensures Valid() && old(visited) <= visited && old(order) <= order && name in visited
      ensures ReachedSince(g, old(visited), name, visited)
      ensures failure.None? ==> DoneSince(bodies, read, g, old(visited), {}, visited)
      ensures failure.Some? ==> Fails(bodies, read, g, name, failure.value)
      ensures if name in old(visited) then order == old(order)
              else |old(order)| < |order| && order[|old(order)|] == name && CallersFirst(g, order, |old(order)| + 1)
      decreases bodies.Keys - visited, 1
    {
      if name in visited {
        return None;
      }
      Append(name);
      var calls := read(bodies[name]);
      if calls.Err? {
        assert FailsAt(bodies, read, g, name, name, calls.error);
        return Some(calls.error);
      }
      assert Linked(bodies, read, g, name);
      failure := VisitCalls(name, calls.value, old(visited));
      assert failure.None? ==> Done(bodies, read, g, visited, name);
    }

    method Append(name: string)
      requires Valid() && name in bodies && name !in visited
      modifies this
      ensures Valid() && visited == old(visited) + {name} && order == old(order) + [name]
      ensures bodies.Keys - visited < old(bodies.Keys - visited)
    {
      CollectedGrows(bodies, visited, ordered, order, name);
      visited := visited + {name};
      ordered := ordered + [bodies[name]];
      order := order + [name];
      assert name in old(bodies.Keys - visited);
    }

    /** The loop over the sorted calls of the helper appended last. */
    method VisitCalls(name: string, calls: seq<string>, ghost before: set<string>)
      returns (failure: Option<RustMasker.Unterminated>)
      requires Valid() && name in bodies && visited == before + {name}
      requires order != [] && order[|order| - 1] == name
      requires name in g && forall c :: c in g[name] <==> c in calls && c in bodies
      modifies this
      ensures Valid() && old(visited) <= visited && old(order) <= order
      ensures ReachedSince(g, before, name, visited)
      ensures failure.None? ==> g[name] <= visited && DoneSince(bodies, read, g, before, {name}, visited)
      ensures failure.Some? ==> Fails(bodies, read, g, name, failure.value)
      ensures CallersFirst(g, order, |old(order)|)
      decreases bodies.Keys - visited, 3
    {
      ghost var start := |order|;
      for i := 0 to |calls|
        invariant Valid() && old(visited) <= visited && old(order) <= order
        invariant ReachedSince(g, before, name, visited) && DoneSince(bodies, read, g, before, {name}, visited)
        invariant forall j :: 0 <= j < i && calls[j] in bodies ==> calls[j] in visited
        invariant CallersFirst(g, order, start)
      {
        if calls[i] in bodies {
          assert Arrow(g, name, calls[i]);
          failure := VisitCall(name, calls[i], before, start);
          if failure.Some? {
            return;
          }
        }
      }
      failure := None;
    }

    /** One recursive call, seen from the caller. */
    method VisitCall(name: string, called: string, ghost before: set<string>, ghost start: nat)
      returns (failure: Option<RustMasker.Unterminated>)
      requires Valid() && called in bodies && Arrow(g, name, called) && before <= visited
      requires 1 <= start <= |order| && order[start - 1] == name
      requires ReachedSince(g, before, name, visited) && DoneSince(bodies, read, g, before, {name}, visited)
      requires CallersFirst(g, order, start)
      modifies this
      ensures Valid() && old(visited) <= visited && old(order) <= order && called in visited
      ensures ReachedSince(g, before, name, visited)
      ensures failure.None? ==> DoneSince(bodies, read, g, before, {name}, visited)
      ensures failure.Some? ==> Fails(bodies, read, g, name, failure.value)
      ensures CallersFirst(g, order, start)
      decreases bodies.Keys - visited, 2
    {
      failure := Visit(called);
      Absorb(bodies, read, g, before, name, called, old(visited), visited);
      OrderAbsorbs(g, name, called, start, old(order), order);
      if failure.Some? { FailureAbove(bodies, read, g, name, called, failure.value); }
    }
  }

  /** The bodies in the order of their names, one line break between two. */
  ghost function JoinedBodies(bodies: Bodies, order: seq<string>): string
    requires order != [] && forall i :: 0 <= i < |order| ==> order[i] in bodies
  {
    Delimited.Join(seq(|order|, i requires 0 <= i < |order| => bodies[order[i]]), '\n')
  }

  /** `order` starts at `root`, lists each reachable helper once, and each after one that calls it. */
  ghost predicate IsClosureOrder(bodies: Bodies, g: Graph, root: string, order: seq<string>) {
    && order != [] && order[0] == root && Distinct(order)
    && (forall x :: x in order <==> ReachedFrom(g, root, x))
    && (forall i :: 0 <= i < |order| ==> order[i] in bodies)
    && CallersFirst(g, order, 1)
  }

  lemma ClosureComplete(bodies: Bodies, read: Reader, g: Graph, root: string, visited: set<string>)
    requires root in visited && DoneSince(bodies, read, g, {}, {}, visited) && ReachedSince(g, {}, root, visited)
    ensures forall x :: x in visited <==> ReachedFrom(g, root, x)
    ensures forall x, why :: !FailsAt(bodies, read, g, root, x, why)
  {
    forall x | ReachedFrom(g, root, x) ensures x in visited && Done(bodies, read, g, visited, x) {
      forall n | n in g && (n == root || n in visited) ensures g[n] <= visited {
        assert Done(bodies, read, g, visited, n);
      }
      if x != root { ClosedHoldsAll(g, root, visited, x); }
      assert Done(bodies, read, g, visited, x);
    }
  }

  /**
   An unknown test has no body. Otherwise the result joins the bodies of exactly the
   reachable helpers, and the run fails exactly when one of those bodies cannot be read.
   */
  method ReachableBody(function_: string, bodies: Bodies, read: Reader)
    returns (r: Result<string, RustMasker.Unterminated>, ghost order: seq<string>)
    ensures function_ !in bodies ==> r == Ok("")
    ensures function_ in bodies && r.Ok? ==>
              && IsClosureOrder(bodies, CallGraph(bodies, read), function_, order)
              && r.value == JoinedBodies(bodies, order)
    ensures function_ in bodies ==>
              (r.Ok? <==> forall why :: !Fails(bodies, read, CallGraph(bodies, read), function_, why))
    ensures function_ in bodies && r.Err? ==>
              Fails(bodies, read, CallGraph(bodies, read), function_, r.error)
  {
    order := [];
    if function_ !in bodies {
      return Ok(""), [];
    }
    var collector := new Collector(bodies, read);
    var failure := collector.Visit(function_);
    order := collector.order;
    if failure.Some? {
      return Err(failure.value), order;
    }
    CollectedFacts(bodies, collector.visited, collector.ordered, order);
    ClosureComplete(bodies, read, collector.g, function_, collector.visited);
    assert collector.ordered == seq(|order|, i requires 0 <= i < |order| => bodies[order[i]]);
    r := Ok(Delimited.Join(collector.ordered, '\n'));
  }

  // ----- With the masker as the reader -----

  ghost predicate UnmaskableAt(bodies: Bodies, g: Graph, root: string, x: string, why: RustMasker.Unterminated) {
    ReachedFrom(g, root, x) && x in bodies && RustMasker.Mask(bodies[x]) == Err(why)
  }

  ghost predicate Unmaskable(bodies: Bodies, g: Graph, root: string, why: RustMasker.Unterminated) {
    exists x :: UnmaskableAt(bodies, g, root, x, why)
  }

  lemma MaskedFailure(find: string -> seq<string>, body: string, why: RustMasker.Unterminated)
    ensures MaskedCalls(find)(body) == Err(why) <==> RustMasker.Mask(body) == Err(why)
  {}

  lemma FailsIsUnmaskable(bodies: Bodies, find: string -> seq<string>, g: Graph,
                          root: string, why: RustMasker.Unterminated)
    ensures Fails(bodies, MaskedCalls(find), g, root, why) <==> Unmaskable(bodies, g, root, why)
  {
    var read := MaskedCalls(find);
    if x :| FailsAt(bodies, read, g, root, x, why) {
      MaskedFailure(find, bodies[x], why);
      assert UnmaskableAt(bodies, g, root, x, why);
    }
    if x :| UnmaskableAt(bodies, g, root, x, why) {
      MaskedFailure(find, bodies[x], why);
      assert FailsAt(bodies, read, g, root, x, why);
    }
  }

  /** One body calls another when the search finds its name in the masked text. */
  ghost function MaskedGraph(bodies: Bodies, find: string -> seq<string>): Graph {
    map n | n in bodies ::
      set c | c in bodies && RustMasker.Mask(bodies[n]).Ok? && c in find(RustMasker.Mask(bodies[n]).value)
  }

  lemma MaskedGraphIs(bodies: Bodies, find: string -> seq<string>)
    ensures CallGraph(bodies, MaskedCalls(find)) == MaskedGraph(bodies, find)
  {
    var one, two := CallGraph(bodies, MaskedCalls(find)), MaskedGraph(bodies, find);
    forall n | n in bodies ensures one[n] == two[n] {
      forall c ensures c in one[n] <==> c in two[n] {}
    }
  }

  /**
   `reachable_task6_body`: for a known test, the bodies of exactly the helpers reachable
   through calls in masked code; it fails exactly when one of them cannot be masked.
   */
  method ReachableTask6Body(function_: string, bodies: Bodies, find: string -> seq<string>)
    returns (r: Result<string, RustMasker.Unterminated>, ghost order: seq<string>)
    ensures function_ !in bodies ==> r == Ok("")
    ensures function_ in bodies && r.Ok? ==>
              && IsClosureOrder(bodies, MaskedGraph(bodies, find), function_, order)
              && r.value == JoinedBodies(bodies, order)
    ensures function_ in bodies ==>
              (r.Ok? <==> forall why :: !Unmaskable(bodies, MaskedGraph(bodies, find), function_, why))
    ensures function_ in bodies && r.Err? ==>
              Unmaskable(bodies, MaskedGraph(bodies, find), function_, r.error)
  {
    MaskedGraphIs(bodies, find);
    r, order := ReachableBody(function_, bodies, MaskedCalls(find));
    forall why {
      FailsIsUnmaskable(bodies, find, MaskedGraph(bodies, find), function_, why);
    }
  }
}
