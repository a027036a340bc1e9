/** How a command line may be written, and that the splitter reads every such line back: words separated by runs of
    space, tab, newline and carriage return, each made of plain and quoted pieces
    (src/emulator/cxbxr-emu.cpp:108-155). */
module WordForms {
  import opened CommandLine
  import opened Quoting

  /** A stretch of a word: plain text, or text in quotes. */
  datatype Piece = Plain(text: string) | InQuotes(text: string)

  /** A word with the separators before it. */
  datatype Item = Item(before: string, pieces: seq<Piece>)

  ghost predicate Separators(s: string) {
    forall c :: c in s ==> c in {' ', '\t', '\n', '\r'}
  }

  /** Quotes cannot be written inside a piece, and separators only inside quotes. */
  ghost predicate Proper(p: Piece) {
    forall c :: c in p.text ==> c != '"' && (p.Plain? ==> c !in {' ', '\t', '\n', '\r'})
  }

  function Written(pieces: seq<Piece>): string {
    if pieces == [] then ""
    else
      var p := pieces[0];
      (if p.Plain? then p.text else "\"" + (p.text + "\"")) + Written(pieces[1..])
  }

  function Text(pieces: seq<Piece>): string {
    if pieces == [] then "" else pieces[0].text + Text(pieces[1..])
  }

  function Line(items: seq<Item>, tail: string): string {
    if items == [] then tail else items[0].before + (Written(items[0].pieces) + Line(items[1..], tail))
  }

  function Words(items: seq<Item>): seq<string> {
    if items == [] then [] else [Text(items[0].pieces)] + Words(items[1..])
  }

  /** Every word has something written for it, and separators before it unless it is the first. */
  ghost predicate ProperItem(item: Item, first: bool) {
    && Separators(item.before) && (!first ==> item.before != "")
    && Written(item.pieces) != "" && forall p :: p in item.pieces ==> Proper(p)
  }

  ghost predicate ProperLine(items: seq<Item>, tail: string, first: bool) {
    && Separators(tail)
    && forall k :: 0 <= k < |items| ==> ProperItem(items[k], first && k == 0)
  }

  /** Where a word ends. */
  ghost predicate EndsWord(tail: string) {
    tail == "" || tail[0] in {' ', '\t', '\n', '\r'}
  }

  lemma {:induction false} PlainRead(text: string, rest: string)
    requires Proper(Plain(text))
    ensures Word(text + rest, false) == (text + Word(rest, false).0, Word(rest, false).1)
  {
    if text == "" {
      assert text + rest == rest && "" + Word(rest, false).0 == Word(rest, false).0;
    } else {
      var s := text + rest;
      assert s[0] == text[0] && s[1..] == text[1..] + rest;
      assert s[0] in text;
      assert text == [text[0]] + text[1..];
      assert forall c :: c in text[1..] ==> c in text;
      PlainRead(text[1..], rest);
      assert [s[0]] + (text[1..] + Word(rest, false).0) == text + Word(rest, false).0;
    }
  }

  lemma {:induction false} PiecesRead(pieces: seq<Piece>, tail: string)
    requires (forall p :: p in pieces ==> Proper(p)) && EndsWord(tail)
    ensures Word(Written(pieces) + tail, false) == (Text(pieces), tail)
  {
    if pieces == [] {
      assert Written(pieces) + tail == tail;
    } else {
      assert pieces[0] in pieces;
      PiecesRead(pieces[1..], tail);
      PieceRead(pieces[0], Written(pieces[1..]), tail);
    }
  }

  lemma {:induction false} PieceRead(p: Piece, more: string, tail: string)
    requires Proper(p)
    ensures Word(((if p.Plain? then p.text else "\"" + (p.text + "\"")) + more) + tail, false) ==
      (p.text + Word(more + tail, false).0, Word(more + tail, false).1)
  {
    if p.Plain? {
      assert (p.text + more) + tail == p.text + (more + tail);
      PlainRead(p.text, more + tail);
    } else {
      var s := (("\"" + (p.text + "\"")) + more) + tail;
      assert s[0] == '"' && s[1..] == p.text + ("\"" + (more + tail));
      QuotedWord(p.text, more + tail);
    }
  }

  /** Something written does not start with a separator. */
  lemma {:induction false} StartsWord(pieces: seq<Piece>)
    requires (forall p :: p in pieces ==> Proper(p)) && Written(pieces) != ""
    ensures Written(pieces)[0] !in {' ', '\t', '\n', '\r'}
  {
    var p := pieces[0];
    assert p in pieces;
    if p.Plain? && p.text == "" {
      assert Written(pieces) == Written(pieces[1..]);
      StartsWord(pieces[1..]);
    } else if p.Plain? {
      assert Written(pieces)[0] == p.text[0] && p.text[0] in p.text;
    }
  }

  lemma {:induction false} FirstWord(s: string)
    requires s != "" && s[0] !in {' ', '\t', '\n', '\r'}
    ensures Tokens(s) == [Word(s, false).0] + Tokens(Word(s, false).1)
  {
  }

  lemma {:induction false} TailEnds(items: seq<Item>, tail: string)
    requires ProperLine(items, tail, false)
    ensures EndsWord(Line(items, tail))
  {
    if items == [] {
      assert tail != "" ==> tail[0] in tail;
    } else {
      assert items[0].before[0] in items[0].before;
    }
  }

  /** Every line so written splits into exactly the texts of its words. */
  lemma {:induction false} WrittenReadsBack(items: seq<Item>, tail: string, first: bool)
    requires ProperLine(items, tail, first)
    ensures Tokens(Line(items, tail)) == Words(items)
    decreases |items|
  {
    if items == [] {
      SkipBlanks(tail, "");
      assert tail + "" == tail;
    } else {
      var item, rest := items[0], Line(items[1..], tail);
      assert ProperItem(item, first);
      assert forall k :: 0 <= k < |items[1..]| ==> items[1..][k] == items[k + 1];
      TailEnds(items[1..], tail);
      PiecesRead(item.pieces, rest);
      StartsWord(item.pieces);
      SkipBlanks(item.before, Written(item.pieces) + rest);
      assert (Written(item.pieces) + rest)[0] == Written(item.pieces)[0];
      FirstWord(Written(item.pieces) + rest);
      WrittenReadsBack(items[1..], tail, false);
    }
  }

  // ---------------------------------------------------------------- a quote left open

  function Quotes(s: string): nat {
    if s == "" then 0 else (if s[0] == '"' then 1 else 0) + Quotes(s[1..])
  }

  lemma {:induction false} WordClosed(s: string, quoted: bool)
    requires Quotes(s) % 2 == if quoted then 0 else 1
    ensures var (w, rest) := Word(s, quoted);
      if rest == "" then Word(s + "\"", quoted) == (w, "")
      else Quotes(rest) % 2 == 1 && Word(s + "\"", quoted) == (w, rest + "\"")
  {
    if s == "" {
      assert s + "\"" == "\"" && ("\"")[1..] == "";
    } else {
      assert (s + "\"")[0] == s[0] && (s + "\"")[1..] == s[1..] + "\"";
      if s[0] == '"' {
        WordClosed(s[1..], !quoted);
      } else if quoted || !IsBlank(s[0]) {
        WordClosed(s[1..], quoted);
      }
    }
  }

  /** A quote left open at the end of the line counts as closed there. */
  lemma {:induction false} OpenQuoteCloses(s: string)
    requires Quotes(s) % 2 == 1
    ensures Tokens(s + "\"") == Tokens(s)
    decreases |s|
  {
    var t := s + "\"";
    assert t[0] == s[0] && t[1..] == s[1..] + "\"";
    if IsBlank(s[0]) {
      OpenQuoteCloses(s[1..]);
    } else {
      StartIsWord(s);
      StartIsWord(t);
      WordClosed(s, false);
      var rest := Word(s, false).1;
      if rest != "" {
        OpenQuoteCloses(rest);
      }
    }
  }

  lemma {:induction false} StartIsWord(s: string)
    requires s != "" && !IsBlank(s[0])
    ensures Tokens(s) == [Word(s, false).0] + Tokens(Word(s, false).1) && |Word(s, false).1| < |s|
  {
  }

  // ---------------------------------------------------------------- every line is so written

  /** A piece goes to the word that the rest of the line starts with, or makes a word of its own. */
  function WithPiece(p: Piece, items: seq<Item>): seq<Item> {
    if items != [] && items[0].before == "" then [Item("", [p] + items[0].pieces)] + items[1..]
    else [Item("", [p])] + items
  }

  function PieceText(p: Piece): string {
    if p.Plain? then p.text else "\"" + (p.text + "\"")
  }

  lemma {:induction false} WithPieceProper(p: Piece, items: seq<Item>, tail: string)
    requires Proper(p) && PieceText(p) != "" && ProperLine(items, tail, true)
    ensures ProperLine(WithPiece(p, items), tail, true)
    ensures Line(WithPiece(p, items), tail) == PieceText(p) + Line(items, tail)
  {
    if items != [] && items[0].before == "" {
      JoinsWord(p, items, tail);
    } else {
      MakesWord(p, items, tail);
    }
  }

  lemma {:induction false} JoinsWord(p: Piece, items: seq<Item>, tail: string)
    requires Proper(p) && PieceText(p) != "" && ProperLine(items, tail, true)
    requires items != [] && items[0].before == ""
    ensures var more := [Item("", [p] + items[0].pieces)] + items[1..];
      ProperLine(more, tail, true) && Line(more, tail) == PieceText(p) + Line(items, tail)
  {
    var pieces, rest := items[0].pieces, Line(items[1..], tail);
    var more := [Item("", [p] + pieces)] + items[1..];
    assert ProperItem(items[0], true);
    assert Written([p] + pieces) == PieceText(p) + Written(pieces) by {
      assert ([p] + pieces)[1..] == pieces;
    }
    assert Line(more, tail) == PieceText(p) + Line(items, tail) by {
      assert more[1..] == items[1..];
      assert (PieceText(p) + Written(pieces)) + rest == PieceText(p) + (Written(pieces) + rest);
      assert "" + (Written(pieces) + rest) == Written(pieces) + rest;
      assert "" + ((PieceText(p) + Written(pieces)) + rest) == (PieceText(p) + Written(pieces)) + rest;
    }
    assert forall k :: 0 < k < |more| ==> more[k] == items[k];
  }

  lemma {:induction false} MakesWord(p: Piece, items: seq<Item>, tail: string)
    requires Proper(p) && PieceText(p) != "" && ProperLine(items, tail, true)
    requires items != [] ==> items[0].before != ""
    ensures var more := [Item("", [p])] + items;
      ProperLine(more, tail, true) && Line(more, tail) == PieceText(p) + Line(items, tail)
  {
    var more := [Item("", [p])] + items;
    assert Written([p]) == PieceText(p) by {
      assert Written([p]) == PieceText(p) + Written([]);
    }
    assert Line(more, tail) == PieceText(p) + Line(items, tail) by {
      assert more[1..] == items;
      assert "" + (PieceText(p) + Line(items, tail)) == PieceText(p) + Line(items, tail);
    }
    forall k | 0 <= k < |more|
      ensures ProperItem(more[k], k == 0)
    {
      if k > 0 {
        assert more[k] == items[k - 1] && ProperItem(items[k - 1], k - 1 == 0);
      }
    }
  }

  /** A separator goes before the word that the rest of the line starts with, or to the tail. */
  lemma {:induction false} WithSeparator(c: char, items: seq<Item>, tail: string)
    returns (more: seq<Item>, after: string)
    requires c in {' ', '\t', '\n', '\r'} && ProperLine(items, tail, true)
    ensures ProperLine(more, after, true) && Line(more, after) == [c] + Line(items, tail)
  {
    if items == [] {
      more, after := [], [c] + tail;
    } else {
      var item := items[0];
      assert ProperItem(item, true);
      more, after := [Item([c] + item.before, item.pieces)] + items[1..], tail;
      var rest := Written(item.pieces) + Line(items[1..], tail);
      assert more[1..] == items[1..];
      assert ([c] + item.before) + rest == [c] + (item.before + rest);
      assert forall k :: 0 < k < |more| ==> more[k] == items[k];
    }
  }

  lemma {:induction false} NextQuote(s: string) returns (i: nat)
    requires Quotes(s) % 2 == 1
    ensures i < |s| && s[i] == '"' && '"' !in s[..i] && Quotes(s[i + 1..]) % 2 == 0
  {
    if s[0] == '"' {
      i := 0;
    } else {
      var j := NextQuote(s[1..]);
      i := j + 1;
      assert s[..i] == [s[0]] + s[1..][..j] && s[i + 1..] == s[1..][j + 1..];
    }
  }

  lemma {:induction false} QuotedPiece(s: string) returns (text: string, rest: string)
    requires s != "" && s[0] == '"' && Quotes(s) % 2 == 0
    ensures '"' !in text && Quotes(rest) % 2 == 0 && |rest| < |s| && s == PieceText(InQuotes(text)) + rest
  {
    var i := NextQuote(s[1..]);
    text, rest := s[1..][..i], s[1..][i + 1..];
  }

  /** Every line whose quotes are closed is written in this way. */
  lemma {:induction false} EveryLineWritten(s: string) returns (items: seq<Item>, tail: string)
    requires Quotes(s) % 2 == 0
    ensures ProperLine(items, tail, true) && Line(items, tail) == s
    decreases |s|
  {
    if s == "" {
      items, tail := [], "";
    } else if s[0] == '"' {
      var text, rest := QuotedPiece(s);
      items, tail := EveryLineWritten(rest);
      WithPieceProper(InQuotes(text), items, tail);
      items := WithPiece(InQuotes(text), items);
    } else {
      items, tail := EveryLineWritten(s[1..]);
      assert s == [s[0]] + s[1..];
      if s[0] in {' ', '\t', '\n', '\r'} {
        items, tail := WithSeparator(s[0], items, tail);
      } else {
        WithPieceProper(Plain([s[0]]), items, tail);
        items := WithPiece(Plain([s[0]]), items);
      }
    }
  }

  // ---------------------------------------------------------------- no character is lost

  /** The characters other than quotes and separators. */
  function Solid(s: string): string {
    if s == "" then ""
    else SolidPart(s[0]) + Solid(s[1..])
  }

  function SolidPart(c: char): string {
    if c in {'"', ' ', '\t', '\n', '\r'} then "" else [c]
  }

  lemma {:induction false} SolidCons(c: char, s: string)
    ensures Solid([c] + s) == SolidPart(c) + Solid(s)
  {
    assert ([c] + s)[1..] == s;
  }

  function Concat(words: seq<string>): string {
    if words == [] then "" else words[0] + Concat(words[1..])
  }

  lemma {:induction false} SolidMore(a: string, b: string)
    ensures Solid(a + b) == Solid(a) + Solid(b)
  {
    if a == "" {
      assert a + b == b;
    } else {
      assert (a + b)[0] == a[0] && (a + b)[1..] == a[1..] + b;
      SolidMore(a[1..], b);
    }
  }

  lemma {:induction false} WordSolid(s: string, quoted: bool)
    ensures Solid(Word(s, quoted).0) + Solid(Word(s, quoted).1) == Solid(s)
  {
    if s == "" {
    } else if s[0] == '"' {
      WordSolid(s[1..], !quoted);
      assert Solid(s) == Solid(s[1..]);
    } else if !quoted && IsBlank(s[0]) {
      assert Word(s, quoted) == ("", s) && "" + Solid(s) == Solid(s);
    } else {
      WordSolid(s[1..], quoted);
      CharSolid(s, quoted);
    }
  }

  lemma {:induction false} CharSolid(s: string, quoted: bool)
    requires s != "" && s[0] != '"' && (quoted || !IsBlank(s[0]))
    requires Solid(Word(s[1..], quoted).0) + Solid(Word(s[1..], quoted).1) == Solid(s[1..])
    ensures Solid(Word(s, quoted).0) + Solid(Word(s, quoted).1) == Solid(s)
  {
    var (w, rest) := Word(s[1..], quoted);
    SolidWord(s[0], w, rest, s[1..]);
    assert Word(s, quoted) == ([s[0]] + w, rest);
  }

  lemma {:induction false} SolidWord(c: char, w: string, rest: string, s: string)
    requires Solid(w) + Solid(rest) == Solid(s)
    ensures Solid([c] + w) + Solid(rest) == SolidPart(c) + Solid(s)
  {
    SolidCons(c, w);
    assert (SolidPart(c) + Solid(w)) + Solid(rest) == SolidPart(c) + (Solid(w) + Solid(rest));
  }

  /** Every character of the line other than quotes and separators is in the words, in order, and no other is. */
  lemma {:induction false} NothingLost(s: string)
    ensures Solid(Concat(Tokens(s))) == Solid(s)
    decreases |s|
  {
    if s == "" {
    } else if IsBlank(s[0]) {
      NothingLost(s[1..]);
    } else {
      StartIsWord(s);
      NothingLost(Word(s, false).1);
      WordKept(s);
    }
  }

  lemma {:induction false} WordKept(s: string)
    requires s != "" && !IsBlank(s[0])
    ensures var (w, rest) := Word(s, false);
      Solid(Concat(Tokens(s))) == Solid(w) + Solid(Concat(Tokens(rest))) && Solid(s) == Solid(w) + Solid(rest)
  {
    StartIsWord(s);
    WordSolid(s, false);
    SolidFirst(Word(s, false).0, Tokens(Word(s, false).1));
  }

  lemma {:induction false} SolidFirst(w: string, words: seq<string>)
    ensures Solid(Concat([w] + words)) == Solid(w) + Solid(Concat(words))
  {
    assert ([w] + words)[1..] == words;
    SolidMore(w, Concat(words));
  }
}
