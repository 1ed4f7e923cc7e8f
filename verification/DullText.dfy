/** Text that the masker of RustMasker passes through, for concrete sources. */
module DullText {
  import opened Outcome
  import opened Lexing
  import RustMasker

  predicate Dull(c: char) { c !in ['/', '"', '\'', '\\', 'b', 'r'] }

  predicate AllDull(s: string) { forall k :: 0 <= k < |s| ==> Dull(s[k]) }

  lemma MaskDullChar(c: char, rest: string)
    requires Dull(c)
    ensures RustMasker.Mask([c] + rest) == Prepend([c], RustMasker.Mask(rest))
  {
    var s := [c] + rest;
    assert RustMasker.First(s) == Ok(Piece(RustMasker.CodeChar, 1));
    assert s[..1] == [c] && s[1..] == rest;
  }

  lemma {:induction false} MaskDull(t: string, rest: string)
    requires AllDull(t)
    ensures RustMasker.Mask(t + rest) == Prepend(t, RustMasker.Mask(rest))
    decreases |t|
  {
    if t == "" {
      assert t + rest == rest;
      PrependEmpty(RustMasker.Mask(rest));
    } else {
      assert t + rest == [t[0]] + (t[1..] + rest) && [t[0]] + t[1..] == t;
      MaskDullChar(t[0], t[1..] + rest);
      MaskDull(t[1..], rest);
      PrependAssoc([t[0]], t[1..], RustMasker.Mask(rest));
    }
  }
}
