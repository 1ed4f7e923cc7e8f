/** Directed graphs over package ids, walks in them, and reachability by at least one edge. */
module Graphs {

  type Graph = map<string, set<string>>

  ghost predicate Closed(g: Graph) {
    forall n :: n in g ==> g[n] <= g.Keys
  }

  ghost predicate Arrow(g: Graph, a: string, b: string) {
    a in g && b in g[a]
  }

  /** `p` follows the edges of `g`. */
  ghost predicate Walk(g: Graph, p: seq<string>) {
    |p| > 1 ==> Arrow(g, p[0], p[1]) && Walk(g, p[1..])
  }

  /** Some walk of at least one edge leads from `a` to `b`. */
  ghost predicate Leads(g: Graph, a: string, b: string) {
    exists p :: |p| >= 2 && Walk(g, p) && p[0] == a && p[|p| - 1] == b
  }

  lemma ArrowLeads(g: Graph, a: string, b: string)
    requires Arrow(g, a, b)
    ensures Leads(g, a, b)
  {
    var p := [a, b];
    assert Walk(g, p[1..]);
  }

  lemma {:induction false} WalkSnoc(g: Graph, p: seq<string>, c: string)
    requires p != [] && Walk(g, p) && Arrow(g, p[|p| - 1], c)
    ensures Walk(g, p + [c])
    decreases |p|
  {
    var q := p + [c];
    if |p| == 1 {
      assert Walk(g, q[1..]);
    } else {
      WalkSnoc(g, p[1..], c);
      assert q[1..] == p[1..] + [c];
    }
  }

  lemma LeadsArrow(g: Graph, a: string, b: string, c: string)
    requires Leads(g, a, b) && Arrow(g, b, c)
    ensures Leads(g, a, c)
  {
    var p :| |p| >= 2 && Walk(g, p) && p[0] == a && p[|p| - 1] == b;
    WalkSnoc(g, p, c);
    var q := p + [c];
    assert |q| >= 2 && Walk(g, q) && q[0] == a && q[|q| - 1] == c;
  }

  /** A set that holds the targets of `root` and of its own members holds everything `root` leads to. */
  lemma {:induction false} ClosedHoldsWalks(g: Graph, root: string, s: set<string>, p: seq<string>)
    requires forall x :: x in g && (x == root || x in s) ==> g[x] <= s
    requires Walk(g, p) && |p| >= 2 && (p[0] == root || p[0] in s)
    ensures p[|p| - 1] in s
    decreases |p|
  {
    assert Arrow(g, p[0], p[1]);
    if |p| > 2 { ClosedHoldsWalks(g, root, s, p[1..]); }
  }

  lemma ClosedHoldsAll(g: Graph, root: string, s: set<string>, x: string)
    requires forall n :: n in g && (n == root || n in s) ==> g[n] <= s
    requires Leads(g, root, x)
    ensures x in s
  {
    var p :| |p| >= 2 && Walk(g, p) && p[0] == root && p[|p| - 1] == x;
    ClosedHoldsWalks(g, root, s, p);
  }
}
