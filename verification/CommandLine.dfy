/** The command-line splitter of src/emulator/cxbxr-emu.cpp:75-159. */
module CommandLine {

  predicate IsBlank(c: char) {
    c == ' ' || c == '\t' || c == '\n' || c == '\r'
  }

  // ---------------------------------------------------------------- the words of a command line

  /** The rest of a word, inside or outside quotes, and the text after it. */
  function Word(s: string, quoted: bool): (r: (string, string))
    ensures |r.0| + |r.1| <= |s|
  {
    if s == [] then ("", "")
    else if s[0] == '"' then Word(s[1..], !quoted)
    else if !quoted && IsBlank(s[0]) then ("", s)
    else var (w, rest) := Word(s[1..], quoted); ([s[0]] + w, rest)
  }

  /** Words are separated by blanks; a quote that is met where a word can start begins a word. */
  function Tokens(s: string): seq<string>
    decreases |s|, 0
  {
    if s == [] then []
    else if IsBlank(s[0]) then Tokens(s[1..])
    else if s[0] == '"' then Rest(Word(s[1..], true))
    else var (w, rest) := Word(s[1..], false); Rest(([s[0]] + w, rest))
  }

  function Rest(r: (string, string)): seq<string>
    decreases |r.1|, 1
  {
    [r.0] + Tokens(r.1)
  }

  // ---------------------------------------------------------------- how the words lie in memory

  /** The words one after another, each ended by a NUL. */
  function Packed(words: seq<string>): string {
    if words == [] then [] else Packed(words[..|words| - 1]) + words[|words| - 1] + ['\0']
  }

  /** Where each word starts. */
  function Offsets(words: seq<string>): seq<int> {
    if words == [] then []
    else Offsets(words[..|words| - 1]) + [|Packed(words[..|words| - 1])|]
  }

  /** The C string that starts at `p`. */
  function CString(buffer: string, p: nat): string
    requires p <= |buffer|
    decreases |buffer| - p
  {
    if p == |buffer| || buffer[p] == '\0' then "" else [buffer[p]] + CString(buffer, p + 1)
  }

  lemma {:induction false} PackedMore(done: seq<string>, w: string)
    ensures Packed(done + [w]) == Packed(done) + w + ['\0']
    ensures Offsets(done + [w]) == Offsets(done) + [|Packed(done)|]
  {
    assert (done + [w])[..|done|] == done;
  }

  lemma {:induction false} CStringIs(buffer: string, p: nat, w: string)
    requires p + |w| < |buffer| && buffer[p..p + |w|] == w && buffer[p + |w|] == '\0' && '\0' !in w
    ensures CString(buffer, p) == w
    decreases |w|
  {
    if w == [] {
    } else {
      assert w[0] == buffer[p..p + |w|][0] == buffer[p];
      assert buffer[p + 1..p + 1 + |w[1..]|] == w[1..];
      CStringIs(buffer, p + 1, w[1..]);
    }
  }

  /** Reading a C string at the start of the k-th packed word gives that word. */
  lemma {:induction false} ReadPacked(buffer: string, words: seq<string>, k: nat)
    requires Packed(words) <= buffer && k < |words|
    requires forall w :: w in words ==> '\0' !in w
    ensures |Offsets(words)| == |words|
    ensures 0 <= Offsets(words)[k] < |Packed(words)| && CString(buffer, Offsets(words)[k]) == words[k]
  {
    var n := |words| - 1;
    var init, w := words[..n], words[n];
    OffsetsIncrease(words);
    OffsetsIncrease(init);
    if k < n {
      ReadPacked(buffer, init, k);
    } else {
      var p := |Packed(init)|;
      assert buffer[p..p + |w|] == Packed(words)[p..p + |w|] == w;
      assert buffer[p + |w|] == Packed(words)[p + |w|] == '\0';
      CStringIs(buffer, p, w);
    }
  }

  lemma {:induction false} OffsetsIncrease(words: seq<string>)
    ensures |Offsets(words)| == |words|
    ensures forall k :: 0 <= k < |words| ==> 0 <= Offsets(words)[k] < |Packed(words)|
    ensures forall j, k :: 0 <= j < k < |words| ==> Offsets(words)[j] < Offsets(words)[k]
  {
    if words == [] {
    } else {
      OffsetsIncrease(words[..|words| - 1]);
    }
  }

  // ---------------------------------------------------------------- words use the characters of the line

  lemma {:induction false} WordChars(s: string, quoted: bool, bad: char)
    requires bad !in s
    ensures bad !in Word(s, quoted).0 && bad !in Word(s, quoted).1
  {
    if s == [] {
    } else {
      WordChars(s[1..], quoted, bad);
      WordChars(s[1..], !quoted, bad);
    }
  }

  lemma {:induction false} TokenChars(s: string, bad: char)
    requires bad !in s
    ensures forall w :: w in Tokens(s) ==> bad !in w
    decreases |s|
  {
    if s == [] {
    } else {
      WordChars(s[1..], true, bad);
      WordChars(s[1..], false, bad);
      TokenChars(s[1..], bad);
      TokenChars(Word(s[1..], true).1, bad);
      TokenChars(Word(s[1..], false).1, bad);
    }
  }

  // ---------------------------------------------------------------- the loop

  const NULL: int := -1

  /** The loop as an automaton: the offsets and characters stored, the words finished, and the word
      being read while `open`, inside quotes or not. */
  datatype Reading = Reading(offsets: seq<int>, written: string, done: seq<string>, cur: string,
                             open: bool, quoted: bool)

  const Fresh := Reading([], "", [], "", false, false)

  function Feed(r: Reading, a: char): Reading {
    var starts := !r.open && !IsBlank(a);
    var offsets := if starts then r.offsets + [|r.written|] else r.offsets;
    if a == '"' then r.(offsets := offsets, open := true, quoted := !r.quoted)
    else if r.quoted || !IsBlank(a) then
      r.(offsets := offsets, written := r.written + [a], cur := r.cur + [a], open := true)
    else if r.open then
      r.(written := r.written + ['\0'], done := r.done + [r.cur], cur := "", open := false)
    else r
  }

  /** The automaton after the first i characters of the line. */
  function ReadFirst(line: string, i: nat): Reading
    requires i <= |line|
  {
    if i == 0 then Fresh else Feed(ReadFirst(line, i - 1), line[i - 1])
  }

  /** The finished words are stored, and the characters of the open one follow them. */
  ghost predicate Stored(r: Reading) {
    && r.offsets == Offsets(r.done) + (if r.open then [|Packed(r.done)|] else [])
    && r.written == Packed(r.done) + r.cur
    && (!r.open ==> r.cur == "" && !r.quoted)
  }

  /** The words of the line are those finished, the rest of the open one, and those to come. */
  ghost predicate Progress(line: string, i: nat, r: Reading)
    requires i <= |line|
  {
    Tokens(line) == r.done + Remainder(r.cur, line[i..], r.open, r.quoted)
  }

  function Remainder(cur: string, s: string, open: bool, quoted: bool): seq<string> {
    if open then var (w, rest) := Word(s, quoted); Rest((cur + w, rest)) else Tokens(s)
  }

  /** One character: how each branch of the loop moves the state on. */
  lemma {:induction false} Advance(cur: string, s: string, open: bool, quoted: bool)
    requires s != [] && (quoted ==> open) && (!open ==> cur == "")
    ensures Remainder(cur, s, open, quoted) ==
      if s[0] == '"' then Remainder(cur, s[1..], true, !quoted)
      else if quoted || !IsBlank(s[0]) then Remainder(cur + [s[0]], s[1..], true, quoted)
      else (if open then [cur] else []) + Remainder("", s[1..], false, false)
  {
    var a := s[0];
    if a == '"' {
      var w := Word(s[1..], !quoted).0;
      assert !open ==> cur + w == w;
    } else if quoted || !IsBlank(a) {
      var w := Word(s[1..], quoted).0;
      assert cur + ([a] + w) == cur + [a] + w;
      assert !open ==> cur + [a] + w == [a] + w;
    } else {
      assert cur + "" == cur;
      assert Word(s, false) == ("", s);
      var later := Tokens(s[1..]);
      assert [] + later == later;
      assert Tokens(s) == later;
      assert Rest((cur, s)) == [cur] + later;
    }
  }

  lemma {:induction false} FeedProgress(line: string, i: nat, r: Reading)
    requires i < |line| && Progress(line, i, r) && Stored(r)
    ensures Progress(line, i + 1, Feed(r, line[i]))
  {
    var s := line[i..];
    assert s[0] == line[i] && s[1..] == line[i + 1..];
    Advance(r.cur, s, r.open, r.quoted);
    if line[i] != '"' && !r.quoted && IsBlank(line[i]) {
      var later := Remainder("", s[1..], false, false);
      if r.open {
        assert r.done + ([r.cur] + later) == r.done + [r.cur] + later;
      } else {
        assert [] + later == later;
      }
    }
  }

  lemma FeedStored(r: Reading, a: char)
    requires Stored(r)
    ensures Stored(Feed(r, a))
  {
    PackedMore(r.done, r.cur);
    assert r.written + [a] == Packed(r.done) + (r.cur + [a]);
    assert !r.open ==> r.written == Packed(r.done);
    assert Packed(r.done + [r.cur]) + "" == Packed(r.done + [r.cur]);
  }

  lemma {:induction false} ReadingKept(line: string, i: nat)
    requires i <= |line|
    ensures Stored(ReadFirst(line, i)) && Progress(line, i, ReadFirst(line, i))
  {
    if i == 0 {
      assert line[0..] == line;
      assert [] + Tokens(line) == Tokens(line);
    } else {
      ReadingKept(line, i - 1);
      FeedStored(ReadFirst(line, i - 1), line[i - 1]);
      FeedProgress(line, i - 1, ReadFirst(line, i - 1));
    }
  }

  /** Splits a NUL-free command line. `argv` holds offsets into `chars`, the second region of the single
      allocation of (len + 2) / 2 + 1 pointers and len + 2 characters. */
  method CommandLineToArgvA(cmdLine: string) returns (argv: array<int>, chars: array<char>, argc: nat)
    requires '\0' !in cmdLine
    ensures fresh(argv) && fresh(chars)
    ensures argv.Length == (|cmdLine| + 2) / 2 + 1 && chars.Length == |cmdLine| + 2
    ensures argc == |Tokens(cmdLine)| <= (|cmdLine| + 1) / 2
    ensures argv[argc] == NULL
    ensures forall k :: 0 <= k < argc ==>
      0 <= argv[k] < chars.Length && CString(chars[..], argv[k]) == Tokens(cmdLine)[k]
    ensures forall j, k :: 0 <= j < k < argc ==> argv[j] < argv[k]
  {
    var len := |cmdLine|;
    argv := new int[(len + 2) / 2 + 1];
    chars := new char[len + 2];
    var j: nat;
    argc, j := FillWords(cmdLine, argv, chars);
    ghost var r := ReadFirst(cmdLine, len);
    chars[j] := '\0';
    argv[argc] := NULL;
    assert chars[..j + 1] == r.written + ['\0'];
    Finish(cmdLine, chars[..], r);
  }

  /** What the loop has stored so far are the offsets and characters of the automaton. */
  ghost predicate Written(argv: array<int>, chars: array<char>, argc: nat, j: nat, r: Reading)
    reads argv, chars
  {
    && argc <= argv.Length && r.offsets == argv[..argc]
    && j <= chars.Length && r.written == chars[..j]
  }

  /** The loop over the line. */
  method FillWords(cmdLine: string, argv: array<int>, chars: array<char>) returns (argc: nat, j: nat)
    requires argv.Length == (|cmdLine| + 2) / 2 + 1 && chars.Length == |cmdLine| + 2
    modifies argv, chars
    ensures 2 * argc <= |cmdLine| + 1 && j <= |cmdLine|
    ensures Written(argv, chars, argc, j, ReadFirst(cmdLine, |cmdLine|))
  {
    argc, j := 0, 0;
    argv[argc] := 0;
    var inQM, inText, inSpace := false, false, true;
    var i := 0;
    ghost var r := Fresh;
    while i < |cmdLine|
      invariant j <= i <= |cmdLine| && 2 * argc <= i + (if inSpace then 0 else 1)
      invariant r == ReadFirst(cmdLine, i)
      invariant inText == !inSpace == r.open && inQM == r.quoted
      invariant Written(argv, chars, argc, j, r)
    {
      var a := cmdLine[i];
      if inQM {
        if a == '"' {
          inQM := false;
        } else {
          StoreChar(argv, chars, argc, j, a, r);
          j := j + 1;
        }
      } else if a == '"' {
        inQM := true;
        inText := true;
        if inSpace {
          StartWord(argv, chars, argc, j, r);
          argc := argc + 1;
        }
        inSpace := false;
      } else if IsBlank(a) {
        if inText {
          StoreChar(argv, chars, argc, j, '\0', r);
          j := j + 1;
        }
        inText := false;
        inSpace := true;
      } else {
        inText := true;
        ghost var started := r;
        if inSpace {
          StartWord(argv, chars, argc, j, r);
          argc := argc + 1;
          started := r.(offsets := r.offsets + [j]);
        }
        StoreChar(argv, chars, argc, j, a, started);
        j := j + 1;
        inSpace := false;
      }
      r := Feed(r, a);
      i := i + 1;
    }
  }

  /** `argv[argc] = j`, before the count goes up. */
  method StartWord(argv: array<int>, chars: array<char>, argc: nat, j: nat, ghost r: Reading)
    requires argc < argv.Length && Written(argv, chars, argc, j, r)
    modifies argv
    ensures Written(argv, chars, argc + 1, j, r.(offsets := r.offsets + [j]))
  {
    argv[argc] := j;
    assert argv[..argc + 1] == r.offsets + [j];
  }

  /** `chars[j] = a`, before the cursor goes up. */
  method StoreChar(argv: array<int>, chars: array<char>, argc: nat, j: nat, a: char, ghost r: Reading)
    requires j < chars.Length && Written(argv, chars, argc, j, r)
    modifies chars
    ensures Written(argv, chars, argc, j + 1, r.(written := r.written + [a]))
  {
    chars[j] := a;
    assert chars[..j + 1] == r.written + [a];
  }

  lemma {:induction false} Finish(line: string, buffer: string, r: Reading)
    requires '\0' !in line && r == ReadFirst(line, |line|) && r.written + ['\0'] <= buffer
    ensures |r.offsets| == |Tokens(line)|
    ensures forall k :: 0 <= k < |r.offsets| ==>
      0 <= r.offsets[k] < |buffer| && CString(buffer, r.offsets[k]) == Tokens(line)[k]
    ensures forall j, k :: 0 <= j < k < |r.offsets| ==> r.offsets[j] < r.offsets[k]
  {
    ReadingKept(line, |line|);
    FinishedWords(line, r);
    TokenChars(line, '\0');
    ReadAll(buffer, Tokens(line));
  }

  /** At the end of the line, what is stored are the words of the line. */
  lemma {:induction false} FinishedWords(line: string, r: Reading)
    requires Stored(r) && Progress(line, |line|, r)
    ensures r.offsets == Offsets(Tokens(line))
    ensures Packed(Tokens(line)) <= r.written + ['\0']
  {
    LastWord(line, r);
    if r.open {
      PackedMore(r.done, r.cur);
    } else {
      assert r.written == Packed(r.done);
    }
  }

  lemma {:induction false} ReadAll(buffer: string, words: seq<string>)
    requires Packed(words) <= buffer && forall w :: w in words ==> '\0' !in w
    ensures |Offsets(words)| == |words|
    ensures forall k :: 0 <= k < |words| ==>
      0 <= Offsets(words)[k] < |buffer| && CString(buffer, Offsets(words)[k]) == words[k]
    ensures forall j, k :: 0 <= j < k < |words| ==> Offsets(words)[j] < Offsets(words)[k]
  {
    OffsetsIncrease(words);
    forall k | 0 <= k < |words|
      ensures CString(buffer, Offsets(words)[k]) == words[k]
    {
      ReadPacked(buffer, words, k);
    }
  }

  lemma {:induction false} LastWord(line: string, r: Reading)
    requires Progress(line, |line|, r)
    ensures Tokens(line) == if r.open then r.done + [r.cur] else r.done
  {
    assert line[|line|..] == "" && r.cur + "" == r.cur && [r.cur] + [] == [r.cur] && r.done + [] == r.done;
    assert Word("", r.quoted) == ("", "");
    assert Rest((r.cur, "")) == [r.cur] + Tokens("");
  }
}
