/** Python's `str.find` on text. */
module TextSearch {
  import opened Outcome

  predicate OccursAt(s: string, p: string, i: int) {
    0 <= i && i + |p| <= |s| && s[i..i + |p|] == p
  }

  ghost predicate Occurs(s: string, p: string) {
    exists i :: OccursAt(s, p, i)
  }

  /** `i` is the first occurrence of `p` in `s` from `start` on. */
  ghost predicate FirstFrom(s: string, p: string, start: int, i: int) {
    start <= i && OccursAt(s, p, i) && forall j :: start <= j < i ==> !OccursAt(s, p, j)
  }

  function FindFrom(s: string, p: string, start: nat): (r: Option<nat>)
    ensures r.Some? ==> FirstFrom(s, p, start, r.value)
    ensures r.None? ==> forall i :: start <= i ==> !OccursAt(s, p, i)
    decreases |s| - start
  {
    if start + |p| > |s| then None
    else if OccursAt(s, p, start) then Some(start)
    else FindFrom(s, p, start + 1)
  }

  method Find(s: string, p: string, start: nat) returns (r: Option<nat>)
    ensures r == FindFrom(s, p, start)
  {
    var i := start;
    while i + |p| <= |s|
      invariant FindFrom(s, p, i) == FindFrom(s, p, start)
      decreases |s| - i
    {
      if s[i..i + |p|] == p {
        return Some(i);
      }
      i := i + 1;
    }
    return None;
  }
}
