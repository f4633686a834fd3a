/** How literal pieces of Rust are blanked, whatever comes after them. */
module RustTexts {
  import opened RustLexer
  import opened RustLexerLaws
  import opened RustTokens

  lemma FirstToken(prev: bool, x: string, rest: string, kind: Kind)
    requires x != "" && IsLexeme(prev, x + rest, kind, |x|)
    ensures Blanked(prev, x + rest) == Mask(kind, x) + Blanked(x[|x| - 1] in WORD, rest)
  {
    hide IsLexeme, Next, Mask, WORD;
    var t := x + rest;
    LexemeIff(prev, t, kind, |x|);
    BlankedUnfolds(prev, t);
    WordIff(x[|x| - 1]);
    assert t[..|x|] == x && t[|x|..] == rest;
  }

  /** A character at which no comment and no literal begins is copied. */
  lemma CodeToken(prev: bool, c: char, rest: string)
    requires c != '"' && !(c == '/' && rest != "" && (rest[0] == '/' || rest[0] == '*'))
    requires !(c == '\'' && rest != "" && (rest[0] == '\\' || (|rest| > 1 && rest[1] == '\'')))
    requires prev || forall o: nat, h: nat :: !RawOpening([c] + rest, o, h)
    ensures Blanked(prev, [c] + rest) == [c] + Blanked(c in WORD, rest)
  {
    hide WORD, Blanked, RawOpening;
    var t := [c] + rest;
    assert t[0] == c && forall i :: 1 <= i < |t| ==> t[i] == rest[i - 1];
    StartsIff(t);
    FirstToken(prev, [c], rest, Code);
  }

  lemma NoRawOpening(t: string)
    requires t != "" && t[0] != 'r' && t[0] != 'b' && t[0] != 'c'
    ensures forall o: nat, h: nat :: !RawOpening(t, o, h)
  {
    forall o: nat, h: nat ensures !RawOpening(t, o, h) {
      assert o <= |t| && o > 0 ==> t[..o][0] == t[0];
    }
  }

  /** A character that can begin no comment or literal is copied. */
  lemma CodeText(prev: bool, c: char, rest: string)
    requires c !in "/\"'rbc"
    ensures Blanked(prev, [c] + rest) == [c] + Blanked(c in WORD, rest)
  {
    hide WORD, Blanked, RawOpening;
    NoRawOpening([c] + rest);
    CodeToken(prev, c, rest);
  }

  /** A raw string without hashes ends at the next quote, and its backslashes mean nothing. */
  lemma RawText(p: string, body: string, rest: string)
    requires p in {"r", "br", "cr"} && '"' !in body
    ensures Blanked(false, p + "\"" + body + "\"" + rest)
         == KeepNewlines(p + "\"" + body + "\"") + Blanked(false, rest)
  {
    hide WORD, Blanked;
    var x := p + "\"" + body + "\"";
    var t := x + rest;
    assert t[..|p|] == p && t[|p|] == '"';
    assert RawOpening(t, |p|, 0);
    forall q: nat | |p| + 1 <= q < |x| - 1 ensures !Fence(t, q, 0) {
      assert t[q] == body[q - |p| - 1];
    }
    assert t[|x| - 1] == '"';
    assert EndsAtFence(t, |p| + 1, 0, |x|);
    assert t[0] != '/' && t[0] != '\'';
    FirstToken(false, x, rest, RawString);
    QuoteIsNoWord();
  }

  lemma QuoteIsNoWord()
    ensures '"' !in WORD
  {
    WordIff('"');
  }

  /** A string without backslashes ends at the next quote. */
  lemma StringText(prev: bool, body: string, rest: string)
    requires '"' !in body && '\\' !in body
    ensures Blanked(prev, "\"" + body + "\"" + rest) == KeepNewlines("\"" + body + "\"") + Blanked(false, rest)
  {
    hide WORD, Blanked;
    var x := "\"" + body + "\"";
    var t := x + rest;
    forall q | 1 <= q < |x| - 1 ensures t[q] == body[q - 1] && t[q] != '"' && t[q] != '\\' {
    }
    assert t[|x| - 2] != '\\';
    assert Unescaped(t, |x| - 1);
    assert IsString(t, |x|);
    FirstToken(prev, x, rest, Str);
    QuoteIsNoWord();
  }

  /** After any character that is part of no word, and is read as code, an `r` and a quote open a raw string. */
  lemma RawAfterNoWord(c: char, body: string)
    requires c !in WORD && c != '"' && '"' !in body
    ensures Blanked(false, [c] + ("r\"" + body + "\"")) == [c] + KeepNewlines("r\"" + body + "\"")
  {
    var raw := "r\"" + body + "\"";
    WordIff(c);
    hide WORD, Blanked, RawOpening, KeepNewlines;
    assert raw[0] == 'r' && raw[1] == '"';
    NoRawOpening([c] + raw);
    CodeToken(false, c, raw);
    RawText("r", body, "");
    assert "r" + "\"" + body + "\"" + "" == raw && "r" + "\"" + body + "\"" == raw;
    BlankedEmpty(false);
    assert KeepNewlines(raw) + "" == KeepNewlines(raw);
  }

  lemma NotRawYet(c: char, rest: string)
    requires c != 'b' && c != 'c' && rest != "" && rest[0] == 'r'
    ensures forall o: nat, h: nat :: !RawOpening([c] + rest, o, h)
  {
    var t := [c] + rest;
    forall o: nat, h: nat ensures !RawOpening(t, o, h) {
      assert o <= |t| && o > 0 ==> t[..o][0] == c;
      assert t[1] == 'r';
    }
  }

  /** After any character of a word the `r` belongs to the word, unless the character is itself a prefix. */
  lemma WordBeforeQuote(c: char, body: string)
    requires c in WORD && c != 'b' && c != 'c'
    ensures [c, 'r'] <= Blanked(false, [c] + ("r\"" + body + "\""))
  {
    var tail := "\"" + body + "\"";
    var raw := ['r'] + tail;
    assert "r\"" + body + "\"" == raw;
    WordIff(c);
    hide WORD, Blanked, RawOpening;
    NotRawYet(c, raw);
    CodeToken(false, c, raw);
    CodeToken(true, 'r', tail);
  }

  lemma MaskedFour(x: string)
    requires |x| == 4 && '\n' !in x
    ensures KeepNewlines(x) == "    "
  {
  }

  lemma MaskedThree(x: string)
    requires |x| == 3 && '\n' !in x
    ensures KeepNewlines(x) == "   "
  {
  }

  lemma EndOfExample(b: string)
    requires b == "\"{\"" + ")"
    ensures Blanked(false, b) == "   )"
  {
    WordIff(')');
    hide Blanked, WORD, KeepNewlines;
    assert b == "\"" + "{" + "\"" + ")";
    StringText(false, "{", ")");
    MaskedThree("\"" + "{" + "\"");
    Copied(false, ")", "");
    BlankedEmpty(false);
    assert ")" + "" == ")";
  }

  lemma MiddleOfExample(d: string, c: string)
    requires d == "r\"\\\"" + c
    ensures Blanked(false, d) == "    " + Blanked(false, c)
  {
    hide Blanked, WORD, KeepNewlines;
    assert d == "r" + "\"" + "\\" + "\"" + c;
    RawText("r", "\\", c);
    MaskedFour("r" + "\"" + "\\" + "\"");
  }

  /** A raw string that ends in a backslash does not run into the next literal. */
  lemma BackslashExample()
    ensures Blanked(false, "f(" + ("r\"\\\"" + ("); g(" + ("\"{\"" + ")")))) == "f(    ); g(   )"
  {
    var b := "\"{\"" + ")";
    var c := "); g(" + b;
    var d := "r\"\\\"" + c;
    WordIff('(');
    hide Blanked, WORD;
    EndOfExample(b);
    Copied(false, "); g(", b);
    MiddleOfExample(d, c);
    Copied(false, "f(", d);
  }

  /** A text without marks is copied; the text after it is read as after its last character. */
  lemma {:induction false} Copied(prev: bool, x: string, rest: string)
    requires x != "" && (forall i :: 0 <= i < |x| ==> x[i] !in "/\"'rbc") && x[|x| - 1] !in WORD
    ensures Blanked(prev, x + rest) == x + Blanked(false, rest)
    decreases |x|
  {
    hide Blanked, WORD;
    CodeText(prev, x[0], x[1..] + rest);
    assert x + rest == [x[0]] + (x[1..] + rest);
    if |x| > 1 {
      Copied(x[0] in WORD, x[1..], rest);
    } else {
      assert x[1..] + rest == rest;
    }
  }
}
