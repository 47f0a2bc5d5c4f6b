/**
  * Spectre.Console markup as the program uses it. Column names, table cells and string
  * arguments of the *Interpolated writers go through Markup.Escape, which doubles the square
  * brackets that would otherwise open or close a style tag. Column type names in info and
  * non-string scalar values are handed to the markup parser as they are.
  */
module Markup {
  import opened TextUtil

  /** Markup.Escape: every '[' becomes "[[", then every ']' becomes "]]". */
  function Escape(text: string): string
  {
    ReplaceChar(ReplaceChar(text, '[', "[["), ']', "]]")
  }

  function EscapeChar(c: char): string
  {
    if c == '[' then "[[" else if c == ']' then "]]" else [c]
  }

  /** Escape, one character at a time. */
  function EscapeEach(text: string): string
  {
    if text == [] then [] else EscapeChar(text[0]) + EscapeEach(text[1..])
  }

  /** The text a tag-free markup string shows: "[[" shows '[' and "]]" shows ']'. */
  function Unescape(m: string): string
    decreases |m|
  {
    if m == [] then []
    else if |m| >= 2 && (m[0] == '[' || m[0] == ']') && m[1] == m[0] then [m[0]] + Unescape(m[2..])
    else [m[0]] + Unescape(m[1..])
  }

  lemma {:induction false} EscapeIsCharwise(text: string)
    ensures Escape(text) == EscapeEach(text)
  {
    if text != [] {
      var c, rest := text[0], text[1..];
      assert text == [c] + rest;
      ReplaceCharAppend([c], rest, '[', "[[");
      ReplaceCharAppend(ReplaceChar([c], '[', "[["), ReplaceChar(rest, '[', "[["), ']', "]]");
      ReplaceCharSingle(c, '[', "[[");
      if c == '[' {
        ReplaceCharAbsent("[[", ']', "]]");
      } else {
        ReplaceCharSingle(c, ']', "]]");
      }
      EscapeIsCharwise(rest);
    }
  }

  /** Escaped text shows exactly the original text. */
  lemma {:induction false} UnescapeEscape(text: string)
    ensures Unescape(Escape(text)) == text
  {
    EscapeIsCharwise(text);
    UnescapeEscapeEach(text);
  }

  lemma {:induction false} UnescapeEscapeEach(text: string)
    ensures Unescape(EscapeEach(text)) == text
  {
    if text != [] {
      var c, rest := text[0], text[1..];
      var m := EscapeEach(text);
      assert m == EscapeChar(c) + EscapeEach(rest);
      if c == '[' || c == ']' {
        assert m[2..] == EscapeEach(rest);
      } else {
        assert m[1..] == EscapeEach(rest);
      }
      UnescapeEscapeEach(rest);
      assert text == [c] + rest;
    }
  }

  /** Escaped text never starts a style tag: a leading '[' is always followed by another. */
  lemma EscapedStartsNoTag(text: string)
    ensures var m := Escape(text);
      |m| > 0 && m[0] == '[' ==> |m| > 1 && m[1] == '['
  {
    EscapeIsCharwise(text);
    if text != [] {
      assert EscapeEach(text) == EscapeChar(text[0]) + EscapeEach(text[1..]);
    }
  }
}
