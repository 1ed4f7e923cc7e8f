/** The three running counters of `top_level_parts`: braces, parentheses and brackets. */
module BraceDepths {
  datatype Depth = Depth(braces: int, parentheses: int, brackets: int)

  const LEVEL := Depth(0, 0, 0)

  function Add(a: Depth, b: Depth): Depth {
    Depth(a.braces + b.braces, a.parentheses + b.parentheses, a.brackets + b.brackets)
  }

  function CharDepth(c: char): Depth {
    match c
    case '{' => Depth(1, 0, 0)
    case '}' => Depth(-1, 0, 0)
    case '(' => Depth(0, 1, 0)
    case ')' => Depth(0, -1, 0)
    case '[' => Depth(0, 0, 1)
    case ']' => Depth(0, 0, -1)
    case _ => LEVEL
  }

  /** Openers minus closers of each kind. */
  function TextDepth(s: string): Depth {
    if s == "" then LEVEL else Add(TextDepth(s[..|s| - 1]), CharDepth(s[|s| - 1]))
  }

  method ScanLine(before: Depth, line: string) returns (after: Depth)
    ensures after == Add(before, TextDepth(line))
  {
    after := before;
    assert line[..0] == "";
    for i := 0 to |line|
      invariant after == Add(before, TextDepth(line[..i]))
    {
      assert line[..i + 1][..i] == line[..i];
      after := Add(after, CharDepth(line[i]));
    }
    assert line[..|line|] == line;
  }

  lemma {:induction false} TextDepthAppend(a: string, b: string)
    ensures TextDepth(a + b) == Add(TextDepth(a), TextDepth(b))
  {
    if b == "" {
      assert a + b == a;
    } else {
      TextDepthAppend(a, b[..|b| - 1]);
      assert (a + b)[..|a + b| - 1] == a + b[..|b| - 1];
    }
  }

  /** As many openers as closers of each kind. */
  ghost predicate Level(s: string) {
    var chars := multiset(s);
    chars['{'] == chars['}'] && chars['('] == chars[')'] && chars['['] == chars[']']
  }

  lemma OneMore(s: string, c: char)
    ensures multiset(s + [c]) == multiset(s) + multiset{c}
  {}

  lemma {:induction false} DepthCounts(s: string)
    ensures var chars, depth := multiset(s), TextDepth(s);
            && depth.braces + chars['}'] == chars['{']
            && depth.parentheses + chars[')'] == chars['(']
            && depth.brackets + chars[']'] == chars['[']
  {
    if s != "" {
      var n := |s| - 1;
      DepthCounts(s[..n]);
      assert s == s[..n] + [s[n]];
      OneMore(s[..n], s[n]);
    }
  }

  /** The counters are level exactly when each kind occurs as often as its closer. */
  lemma LevelExactly(s: string)
    ensures TextDepth(s) == LEVEL <==> Level(s)
  {
    DepthCounts(s);
  }
}
