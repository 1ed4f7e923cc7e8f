/**
 Two concrete sets of files for the expansion of IncludeExpansion: one where a non-literal
 include passes because a literal one stands beside it, and one where a seam spells a new
 include.

 Both are instances of one shape. The file `p` starts with a literal include of the file
 `a` and goes on with some text that holds no literal include; the file `a` is short and
 holds nothing the masker would blank. Such a pair expands to the text of `a` followed by
 the rest of `p`, whatever these are. In the first set the rest is a non-literal include,
 which the script would have rejected had it stood alone. In the second set `a` is the word
 `include` and the rest is what an include goes on with, so that the two together read as
 an include of a file nobody has looked at. The texts are put together from short pieces,
 and what the masker and the include pattern make of each piece is stated on its own.
 */
module IncludeWitnesses {
  import opened Outcome
  import opened Lexing
  import opened DullText
  import opened IncludeExpansion
  import opened GeneratedTargets
  import RustMasker

  /** All files are owned, and a name is its own path. */
  function World(texts: map<string, string>): Files { Files(texts, _ => true, (_, name) => name) }

  /** `include!("c");` */
  function Inc(c: char): string { IncludeItem([c]) }

  // ----- Masking -----

  lemma MaskQuoted(c: char, rest: string)
    requires c != '"' && c != '\\' && c != '\n'
    ensures RustMasker.Mask(Quoted([c]) + rest) == Prepend("   ", RustMasker.Mask(rest))
  {
    var s := Quoted([c]) + rest;
    var t := s[1..];
    assert t[0] == c && t[1..][0] == '"';
    assert QuoteLength(t[1..], '"') == Some(1) && QuoteLength(t, '"') == Some(2);
    assert RustMasker.First(s) == Ok(Piece(RustMasker.Text(1), 3));
    assert s[..3] == Quoted([c]) && s[3..] == rest && Blanks(Quoted([c])) == "   ";
  }

  lemma MaskInc(c: char, rest: string)
    requires c != '"' && c != '\\' && c != '\n'
    ensures RustMasker.Mask(Inc(c) + rest) == Prepend("include!(" + "   " + ");", RustMasker.Mask(rest))
  {
    assert AllDull("include!(") && AllDull(");");
    assert Inc(c) + rest == "include!(" + (Quoted([c]) + (");" + rest));
    MaskDull("include!(", Quoted([c]) + (");" + rest));
    MaskQuoted(c, ");" + rest);
    MaskDull(");", rest);
    PrependAssoc("   ", ");", RustMasker.Mask(rest));
    PrependAssoc("include!(", "   " + ");", RustMasker.Mask(rest));
    assert "include!(" + ("   " + ");") == "include!(" + "   " + ");";
  }

  // ----- A pair of files -----

  lemma ShortHasNoCall(s: string)
    requires |s| <= 8
    ensures IncludeCall(s).None?
  {}

  lemma ShortHasNoInclude(s: string)
    requires |s| <= 8
    ensures !HasLiteral(s) && !HasCall(s)
  {
    forall i | 0 <= i <= |s| ensures IncludeCall(s[i..]).None? { ShortHasNoCall(s[i..]); }
    if HasLiteral(s) { var i := LiteralFound(s); }
  }

  /** The file `p`, an include of `a` and `rest`, expands to `whole`. */
  ghost predicate Pair(a: string, rest: string, whole: string) {
    Expand(World(map["p" := Inc('a') + rest, "a" := a]), "p", []) == Ok(whole)
  }

  /** A file that starts with its only literal include of a file without any. */
  lemma ExpandPair(a: string, rest: string)
    requires |a| <= 8 && AllDull(a) && RustMasker.Mask(rest).Ok? && !HasLiteral(rest)
    ensures Expand(World(map["p" := Inc('a') + rest, "a" := a]), "p", []) == Ok(a + rest)
  {
    var files := World(map["p" := Inc('a') + rest, "a" := a]);
    var text := files.text["p"];
    MaskInc('a', rest);
    ItemRead("a", rest);
    assert text[0..] == text;
    LiteralSeen(text, 0);
    assert Refusal(files, "p", []).None?;
    ExpandIsJoined(files, "p", []);
    assert [] + ["p"] == ["p"];
    var of := Child(files, "p", ["p"]);
    ExpandShort(files, a);
    assert of("a") == Ok(a);
    PlainText(rest, of);
    assert Segments(text)[0] == Include("a") && Segments(text)[1..] == Segments(rest);
  }

  lemma ExpandShort(files: Files, a: string)
    requires files.owned("a") && "a" in files.text && files.text["a"] == a && |a| <= 8 && AllDull(a)
    ensures Expand(files, "a", ["p"]) == Ok(a)
  {
    assert a + "" == a;
    MaskDull(a, "");
    ShortHasNoInclude(a);
    ExpandIsJoined(files, "a", ["p"]);
    PlainText(a, Child(files, "a", ["p"] + ["a"]));
  }

  // ----- A non-literal include beside a literal one -----

  lemma IncludeStarts(s: string, i: nat)
    requires i <= |s| && LiteralInclude(s[i..]).Some?
    ensures i < |s| && s[i] == 'i'
  {
    assert s[i..][0] == "include"[0];
  }

  lemma OneStart(s: string)
    requires (forall k :: 0 < k < |s| ==> s[k] != 'i') && LiteralInclude(s).None?
    ensures !HasLiteral(s)
  {
    assert s[0..] == s;
    if HasLiteral(s) {
      var i := LiteralFound(s);
      IncludeStarts(s, i);
    }
  }

  lemma NonLiteralRead()
    ensures IncludeCall("include!(X)").Some? && LiteralInclude("include!(X)").None?
    ensures !HasLiteral("include!(X)")
  {
    var s := "include!(X)";
    assert s == "include!(" + "X)";
    CallRead("X)");
    OneStart(s);
  }

  lemma NonLiteralIsDull()
    ensures RustMasker.Mask("include!(X)") == Ok("include!(X)")
  {
    var s := "include!(X)";
    assert AllDull(s) && s + "" == s;
    MaskDull(s, "");
  }

  lemma CallBehind(inc: string, blank: string, rest: string)
    requires |inc| == |blank| > 0 && blank[|blank| - 1] == ';'
    requires rest != "" && IncludeCall(rest).Some? && LiteralInclude(rest).None?
    ensures NonLiteralAt(inc + rest, blank + rest, |inc|)
  {
    var n := |inc|;
    assert (blank + rest)[n - 1] == ';' && (blank + rest)[n..] == rest && (inc + rest)[n..] == rest;
  }

  lemma CallIn(text: string, masked: string, i: nat)
    requires RustMasker.Mask(text) == Ok(masked) && NonLiteralAt(text, masked, i)
    ensures NonLiteralCall(text)
  {}

  /** A non-literal include behind a literal one is there, and it is still there in the expansion. */
  lemma KeptBehind(rest: string)
    requires rest != "" && RustMasker.Mask(rest) == Ok(rest) && !HasLiteral(rest)
    requires IncludeCall(rest).Some? && LiteralInclude(rest).None?
    ensures NonLiteralCall(Inc('a') + rest) && Pair("", rest, rest)
  {
    CallKept(rest);
    ExpandPair("", rest);
    assert "" + rest == rest;
  }

  lemma CallKept(rest: string)
    requires rest != "" && RustMasker.Mask(rest) == Ok(rest)
    requires IncludeCall(rest).Some? && LiteralInclude(rest).None?
    ensures NonLiteralCall(Inc('a') + rest)
  {
    var blank := "include!(" + "   " + ");";
    MaskInc('a', rest);
    CallBehind(Inc('a'), blank, rest);
    CallIn(Inc('a') + rest, blank + rest, |blank|);
  }

  /** `include!("a");include!(X)` expands, and its non-literal include is still there. */
  lemma NonLiteralPasses()
    ensures NonLiteralCall(Inc('a') + "include!(X)") && Pair("", "include!(X)", "include!(X)")
  {
    NonLiteralRead();
    NonLiteralIsDull();
    KeptBehind("include!(X)");
  }

  // ----- A seam that spells an include -----

  /** `!("c");` */
  function Tail(c: char): string { "!(" + (Quoted([c]) + ");") }

  lemma TailMasks(c: char)
    requires c != '"' && c != '\\' && c != '\n'
    ensures RustMasker.Mask(Tail(c)).Ok?
  {
    assert AllDull("!(") && AllDull(");") && ");" + "" == ");";
    MaskDull("!(", Quoted([c]) + ");");
    MaskQuoted(c, ");");
    MaskDull(");", "");
  }

  /**
   `include!("a");!("c");`, with `include` in the other file, expands to an include of any
   file `c`.
   */
  lemma SeamSpellsInclude(c: char)
    requires c != '"' && c != '\\' && c != '\n'
    ensures Pair("include", Tail(c), Inc(c)) && HasLiteral(Inc(c))
  {
    TailMasks(c);
    ShortHasNoInclude(Tail(c));
    WordIsDull();
    ExpandPair("include", Tail(c));
    TailJoins(c);
    IncIsLiteral(c);
  }

  lemma WordIsDull()
    ensures AllDull("include")
  {}

  lemma TailJoins(c: char)
    ensures "include" + Tail(c) == Inc(c)
  {}

  lemma IncIsLiteral(c: char)
    requires c != '"' && c != '\n'
    ensures HasLiteral(Inc(c))
  {
    ItemRead([c], "");
    assert Inc(c) + "" == Inc(c) && Inc(c)[0..] == Inc(c);
    LiteralSeen(Inc(c), 0);
  }
}
