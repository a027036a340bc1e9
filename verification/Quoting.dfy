/** Quoting words so that `CommandLineToArgvA` reads them back. */
module Quoting {
  import opened CommandLine

  /** Each word in quotes, with the given blanks in between. */
  function Quoted(words: seq<string>, blanks: string): string {
    if words == [] then ""
    else "\"" + (words[0] + ("\"" + if |words| == 1 then "" else blanks + Quoted(words[1..], blanks)))
  }

  lemma {:induction false} WordNoQuote(s: string, quoted: bool)
    ensures '"' !in Word(s, quoted).0
    decreases |s|
  {
    if s == [] {
    } else {
      WordNoQuote(s[1..], quoted);
      WordNoQuote(s[1..], !quoted);
    }
  }

  /** The splitter has no escape: no word it returns contains a double quote. */
  lemma {:induction false} TokensNoQuote(s: string)
    ensures forall w :: w in Tokens(s) ==> '"' !in w
    decreases |s|
  {
    if s == [] {
    } else {
      WordNoQuote(s[1..], true);
      WordNoQuote(s[1..], false);
      TokensNoQuote(s[1..]);
      TokensNoQuote(Word(s[1..], true).1);
      TokensNoQuote(Word(s[1..], false).1);
    }
  }

  /** Inside quotes everything up to the closing quote belongs to the word. */
  lemma {:induction false} QuotedWord(w: string, tail: string)
    requires '"' !in w
    ensures Word(w + ("\"" + tail), true) == (w + Word(tail, false).0, Word(tail, false).1)
    decreases |w|
  {
    var s := w + ("\"" + tail);
    if w == "" {
      assert s == "\"" + tail && s[1..] == tail;
      assert "" + Word(tail, false).0 == Word(tail, false).0;
    } else {
      assert s[0] == w[0] && s[1..] == w[1..] + ("\"" + tail);
      QuotedWord(w[1..], tail);
      var v := Word(tail, false).0;
      assert [w[0]] + (w[1..] + v) == w + v;
    }
  }

  lemma {:induction false} SkipBlanks(blanks: string, s: string)
    requires forall c :: c in blanks ==> IsBlank(c)
    ensures Tokens(blanks + s) == Tokens(s)
    decreases |blanks|
  {
    if blanks == "" {
      assert blanks + s == s;
    } else {
      assert (blanks + s)[1..] == blanks[1..] + s;
      SkipBlanks(blanks[1..], s);
    }
  }

  lemma {:induction false} QuotedReadsBack(words: seq<string>, blanks: string)
    requires blanks != "" && forall c :: c in blanks ==> IsBlank(c)
    requires forall w :: w in words ==> '"' !in w
    ensures Tokens(Quoted(words, blanks)) == words
    decreases |words|
  {
    if words == [] {
    } else {
      var w := words[0];
      var tail := if |words| == 1 then "" else blanks + Quoted(words[1..], blanks);
      var line := Quoted(words, blanks);
      assert line[0] == '"' && line[1..] == w + ("\"" + tail);
      QuotedWord(w, tail);
      assert |words| > 1 ==> tail[0] == blanks[0] && blanks[0] in blanks;
      assert Word(tail, false) == ("", tail) && w + "" == w;
      if |words| > 1 {
        SkipBlanks(blanks, Quoted(words[1..], blanks));
        QuotedReadsBack(words[1..], blanks);
      }
      assert Tokens(line) == Rest((w, tail)) == [w] + Tokens(tail);
    }
  }

  /** The round trip, for every list of words (empty ones and ones with blanks included) and any blanks
      between them: reading back gives the same list exactly when no word contains a double quote. */
  lemma {:induction false} QuotingRoundTrip(words: seq<string>, blanks: string)
    requires blanks != "" && forall c :: c in blanks ==> IsBlank(c)
    ensures Tokens(Quoted(words, blanks)) == words <==> forall w :: w in words ==> '"' !in w
  {
    TokensNoQuote(Quoted(words, blanks));
    if forall w :: w in words ==> '"' !in w {
      QuotedReadsBack(words, blanks);
    }
  }

  /** Every command line has a quoted form with the same words. */
  lemma {:induction false} NormalForm(line: string)
    ensures Tokens(Quoted(Tokens(line), " ")) == Tokens(line)
  {
    TokensNoQuote(line);
    QuotingRoundTrip(Tokens(line), " ");
  }
}
