/** The tokenizer of restore lines: quoting, white space, and the fixed number of arguments. */
module BuildArgv {
  import opened Options

  const MAX_ARGS: nat := 32

  datatype Error = TooLong | MissingQuote

  datatype Result = Args(argv: seq<string>) | Failed(error: Error)

  predicate White(c: char) {
    c == ' ' || c == '\r' || c == '\n' || c == '\t'
  }

  /** The slots of newargv after the program name, less the one that the length check keeps free. */
  const ROOM: nat := MAX_ARGS - 2

  /** The rest s of a line, inside or outside quotes, with an argument begun and others finished. */
  function Lex(s: string, quoted: bool, arg: string, argv: seq<string>): Result
    decreases |s|
  {
    if s == [] then Args(argv)
    else if |argv| == ROOM then Failed(TooLong)
    else
      var c := s[0];
      if White(c) && quoted then Lex(s[1..], quoted, arg + [c], argv)
      else if White(c) then Lex(s[1..], quoted, "", Store(argv, arg))
      else
        var q, a := if c == '"' then !quoted else quoted, if c == '"' then arg else arg + [c];
        if |s| > 1 then Lex(s[1..], q, a, argv) else if q then Failed(MissingQuote) else Args(Store(argv, a))
  }

  /** Empty arguments are not kept, quoted or not. */
  function Store(argv: seq<string>, arg: string): seq<string> {
    if arg == "" then argv else argv + [arg]
  }

  function Parse(line: string): Result {
    Lex(line, false, "", [])
  }

  // ---------- The tokenizer ----------

  class Parser {
    const newargv: array<Option<string>>
    var newargc: nat

    /** Slot 0 is the program name, the slots below newargc are filled. */
    predicate Valid()
      reads this, newargv
    {
      && newargv.Length == MAX_ARGS && 1 <= newargc < MAX_ARGS
      && (forall i :: 1 <= i < MAX_ARGS ==> newargv[i].Some? == (i < newargc))
    }

    ghost predicate Holds(argv: seq<string>)
      reads this, newargv
    {
      Valid() && |argv| == newargc - 1 && forall i :: 0 <= i < |argv| ==> newargv[i + 1] == Some(argv[i])
    }

    constructor (program: string)
      ensures Holds([]) && fresh(newargv) && newargv[0] == Some(program)
    {
      newargv := new Option<string>[MAX_ARGS](i => if i == 0 then Some(program) else None);
      newargc := 1;
    }

    /** reset_argv(). */
    method Reset()
      requires Valid()
      modifies this, newargv
      ensures Holds([]) && newargv[0] == old(newargv[0])
    {
      var i := 1;
      while i < newargc
        invariant 1 <= i <= newargc == old(newargc) && newargv[0] == old(newargv[0])
        invariant forall k :: 1 <= k < MAX_ARGS ==> newargv[k].Some? == (i <= k < newargc)
      {
        newargv[i] := None;
        i := i + 1;
      }
      newargc := 1;
    }

    /** build_argv(), the allocations succeeding. */
    method Build(buffer: string) returns (error: Option<Error>)
      requires Valid()
      modifies this, newargv
      ensures Valid() && newargv[0] == old(newargv[0])
      ensures match Parse(buffer)
              case Args(argv) => error == None && Holds(argv)
              case Failed(e) => error == Some(e)
    {
      Reset();
      var arg: string, quoted, tmp := "", false, 0;
      ghost var argv: seq<string> := [];
      assert buffer[0..] == buffer;
      while tmp < |buffer|
        invariant 0 <= tmp <= |buffer| && Holds(argv) && newargv[0] == old(newargv[0])
        invariant Parse(buffer) == if tmp < |buffer| then Lex(buffer[tmp..], quoted, arg, argv) else Args(argv)
      {
        if newargc + 1 == MAX_ARGS {
          return Some(TooLong);
        }
        var c, last := buffer[tmp], tmp + 1 == |buffer|;
        assert buffer[tmp..][1..] == buffer[tmp + 1..];
        tmp := tmp + 1;
        if c == '"' {
          quoted := !quoted;
          if !last {
            continue;
          }
        } else if White(c) {
          if quoted {
            arg := arg + [c];
            continue;
          }
        } else {
          arg := arg + [c];
          if !last {
            continue;
          }
        }
        if last && quoted {
          return Some(MissingQuote);
        }
        if arg == "" {
          continue;
        }
        newargv[newargc] := Some(arg);
        newargc := newargc + 1;
        argv := argv + [arg];
        arg := "";
      }
      error := None;
    }
  }

  // ---------- Quoting is undone ----------

  /** A stretch of an argument, inside or outside quotes. */
  datatype Piece = Piece(text: string, quoted: bool)

  /** An argument as written, with the white space after it. */
  datatype Word = Word(pieces: seq<Piece>, sep: string)

  ghost predicate Space(c: char) {
    c == ' ' || c == '\t' || c == '\r' || c == '\n'
  }

  ghost predicate Blank(s: string) {
    forall i :: 0 <= i < |s| ==> Space(s[i])
  }

  /** No quotes in the text; white space in it only where it is quoted. */
  ghost predicate PieceOk(p: Piece) {
    forall i :: 0 <= i < |p.text| ==> p.text[i] != '"' && (Space(p.text[i]) ==> p.quoted)
  }

  ghost predicate WordOk(w: Word) {
    && w.sep != "" && Blank(w.sep) && Text(w.pieces) != "" && forall i :: 0 <= i < |w.pieces| ==> PieceOk(w.pieces[i])
  }

  /** The argument that is meant. */
  ghost function Text(pieces: seq<Piece>): string {
    if pieces == [] then "" else pieces[0].text + Text(pieces[1..])
  }

  ghost function Written(pieces: seq<Piece>): string {
    if pieces == [] then ""
    else (if pieces[0].quoted then "\"" + pieces[0].text + "\"" else pieces[0].text) + Written(pieces[1..])
  }

  ghost function Line(words: seq<Word>): string {
    if words == [] then "" else Written(words[0].pieces) + words[0].sep + Line(words[1..])
  }

  ghost function Texts(words: seq<Word>): seq<string> {
    if words == [] then [] else [Text(words[0].pieces)] + Texts(words[1..])
  }

  /** Characters that belong to the argument are collected. */
  lemma {:induction false} LexText(text: string, rest: string, quoted: bool, arg: string, argv: seq<string>)
    requires rest != "" && |argv| < ROOM && PieceOk(Piece(text, quoted))
    ensures Lex(text + rest, quoted, arg, argv) == Lex(rest, quoted, arg + text, argv)
    decreases |text|
  {
    if text == "" {
      assert text + rest == rest && arg + text == arg;
    } else {
      assert (text + rest)[1..] == text[1..] + rest;
      LexText(text[1..], rest, quoted, arg + [text[0]], argv);
      assert arg + [text[0]] + text[1..] == arg + text;
    }
  }

  /** White space between arguments is skipped, as long as there is room for one more. */
  lemma {:induction false} LexBlank(sep: string, rest: string, argv: seq<string>)
    requires Blank(sep)
    ensures Lex(sep + rest, false, "", argv) ==
            if |argv| == ROOM && sep + rest != "" then Failed(TooLong) else Lex(rest, false, "", argv)
    decreases |sep|
  {
    if sep == "" {
      assert sep + rest == rest;
    } else if |argv| != ROOM {
      assert (sep + rest)[1..] == sep[1..] + rest;
      LexBlank(sep[1..], rest, argv);
    }
  }

  lemma LexQuote(rest: string, quoted: bool, arg: string, argv: seq<string>)
    requires rest != "" && |argv| < ROOM
    ensures Lex("\"" + rest, quoted, arg, argv) == Lex(rest, !quoted, arg, argv)
  {
    assert ("\"" + rest)[1..] == rest;
  }

  lemma LexEnd(sep: string, rest: string, arg: string, argv: seq<string>)
    requires sep != "" && Blank(sep) && arg != "" && |argv| < ROOM
    ensures Lex(sep + rest, false, arg, argv) == Lex(sep[1..] + rest, false, "", argv + [arg])
  {
    assert (sep + rest)[1..] == sep[1..] + rest;
  }

  /** The stretches of an argument are put together. */
  lemma {:induction false} LexPieces(pieces: seq<Piece>, rest: string, arg: string, argv: seq<string>)
    requires rest != "" && |argv| < ROOM && forall i :: 0 <= i < |pieces| ==> PieceOk(pieces[i])
    ensures Lex(Written(pieces) + rest, false, arg, argv) == Lex(rest, false, arg + Text(pieces), argv)
    decreases |pieces|
  {
    hide Lex, PieceOk;
    if pieces == [] {
      assert Written(pieces) + rest == rest && arg + Text(pieces) == arg;
    } else {
      var p, after := pieces[0], Written(pieces[1..]) + rest;
      assert p == Piece(p.text, p.quoted);
      if p.quoted {
        assert Written(pieces) + rest == "\"" + (p.text + ("\"" + after));
        LexQuote(p.text + ("\"" + after), false, arg, argv);
        LexText(p.text, "\"" + after, true, arg, argv);
        LexQuote(after, true, arg + p.text, argv);
      } else {
        assert Written(pieces) + rest == p.text + after;
        LexText(p.text, after, false, arg, argv);
      }
      LexPieces(pieces[1..], rest, arg + p.text, argv);
      assert arg + p.text + Text(pieces[1..]) == arg + Text(pieces);
    }
  }

  /** One written word: its text becomes an argument at the first white space after it. */
  lemma LexWord(w: Word, rest: string, argv: seq<string>)
    requires WordOk(w) && |argv| < ROOM
    ensures Lex(Written(w.pieces) + w.sep + rest, false, "", argv) ==
            Lex(w.sep[1..] + rest, false, "", argv + [Text(w.pieces)])
  {
    hide Lex, PieceOk, Blank, Written, Text;
    assert Written(w.pieces) + w.sep + rest == Written(w.pieces) + (w.sep + rest);
    LexPieces(w.pieces, w.sep + rest, "", argv);
    assert "" + Text(w.pieces) == Text(w.pieces);
    LexEnd(w.sep, rest, Text(w.pieces), argv);
  }

  /** The condition for a line to be parsed: at most 30 words, and with that many nothing but one separator after the last. */
  ghost predicate Short(words: seq<Word>, filled: nat) {
    |words| + filled < 30 || (|words| + filled == 30 && words != [] && |words[|words| - 1].sep| == 1)
  }

  lemma {:induction false} LexLine(words: seq<Word>, argv: seq<string>)
    requires (forall i :: 0 <= i < |words| ==> WordOk(words[i])) && words != [] && |argv| < ROOM
    ensures Lex(Line(words), false, "", argv) == if Short(words, |argv|) then Args(argv + Texts(words)) else Failed(TooLong)
    decreases |words|
  {
    hide Lex, WordOk, Written, Text;
    var w, more := words[0], words[1..];
    var next := argv + [Text(w.pieces)];
    LexWord(w, Line(more), argv);
    SepBlank(w);
    LexBlank(w.sep[1..], Line(more), next);
    assert argv + Texts(words) == next + Texts(more);
    if more == [] {
      LexEmpty(next);
    } else {
      LineNonEmpty(more);
      assert words[|words| - 1] == more[|more| - 1];
      if |next| < ROOM {
        LexLine(more, next);
      }
    }
  }

  lemma LexEmpty(argv: seq<string>)
    ensures Lex("", false, "", argv) == Args(argv)
  {
  }

  lemma SepBlank(w: Word)
    requires WordOk(w)
    ensures w.sep != "" && Blank(w.sep[1..])
  {
  }

  lemma LineNonEmpty(words: seq<Word>)
    requires words != [] && WordOk(words[0])
    ensures Line(words) != ""
  {
  }

  /** Parsing undoes writing: leading white space, then any words, quoted where they need it and elsewhere at will. */
  lemma ParseLine(lead: string, words: seq<Word>)
    requires Blank(lead) && words != [] && forall i :: 0 <= i < |words| ==> WordOk(words[i])
    ensures Parse(lead + Line(words)) == if Short(words, 0) then Args(Texts(words)) else Failed(TooLong)
  {
    LexBlank(lead, Line(words), []);
    LexLine(words, []);
    assert [] + Texts(words) == Texts(words);
  }

  /** Where the quotes are closed and no white space ends the line, a missing newline makes no difference. */
  lemma {:induction false} NewlineAtEnd(s: string, quoted: bool, arg: string, argv: seq<string>)
    requires s != "" && !Open(s, quoted) && !Space(s[|s| - 1])
    ensures Lex(s + "\n", quoted, arg, argv) == Lex(s, quoted, arg, argv)
    decreases |s|
  {
    var c, more := s[0], s[1..];
    assert (s + "\n")[1..] == more + "\n";
    if more == "" {
      var q, a := if c == '"' then !quoted else quoted, if c == '"' then arg else arg + [c];
      assert !Open(more, q) && !q;
      assert "\n"[1..] == "" && more + "\n" == "\n";
      assert |argv| != ROOM ==> Lex("\n", q, a, argv) == Args(Store(argv, a));
    } else if |argv| != ROOM {
      if White(c) && quoted {
        NewlineAtEnd(more, quoted, arg + [c], argv);
      } else if White(c) {
        NewlineAtEnd(more, quoted, "", Store(argv, arg));
      } else {
        NewlineAtEnd(more, if c == '"' then !quoted else quoted, if c == '"' then arg else arg + [c], argv);
      }
    }
  }

  // ---------- Unclosed quotes ----------

  predicate Open(s: string, quoted: bool) {
    if s == "" then quoted else Open(s[1..], if s[0] == '"' then !quoted else quoted)
  }

  /** An unclosed quote is reported exactly when the line does not end in white space. */
  lemma {:induction false} MissingQuoteIff(s: string, quoted: bool, arg: string, argv: seq<string>)
    requires s != "" && Lex(s, quoted, arg, argv) != Failed(TooLong)
    ensures Lex(s, quoted, arg, argv) == Failed(MissingQuote) <==> Open(s, quoted) && !Space(s[|s| - 1])
    decreases |s|
  {
    var c := s[0];
    var q := if c == '"' then !quoted else quoted;
    assert Open(s, quoted) == Open(s[1..], q);
    if |s| > 1 {
      var a := if White(c) && !quoted then "" else if c == '"' then arg else arg + [c];
      var v := if White(c) && !quoted then Store(argv, arg) else argv;
      assert Lex(s, quoted, arg, argv) == Lex(s[1..], q, a, v);
      MissingQuoteIff(s[1..], q, a, v);
    } else {
      assert s[1..] == "";
    }
  }

  /** With a line end inside an open quote the last argument is dropped and no error is reported. */
  lemma OpenQuoteDropped()
    ensures Parse("a \"b\n") == Args(["a"])
  {
    var s := "a \"b\n";
    assert s[1..] == " \"b\n" && s[1..][1..] == "\"b\n" && s[1..][1..][1..] == "b\n";
    assert Lex("b\n", true, "", ["a"]) == Lex("\n", true, "b", ["a"]) by {
      assert "b\n"[1..] == "\n" && "" + ['b'] == "b";
    }
    assert Lex("\n", true, "b", ["a"]) == Args(["a"]) by {
      assert "\n"[1..] == "";
    }
    assert Lex("\"b\n", false, "", ["a"]) == Lex("b\n", true, "", ["a"]);
    assert Lex(" \"b\n", false, "a", []) == Lex("\"b\n", false, "", ["a"]) by {
      assert Store([], "a") == ["a"];
    }
    assert "" + ['a'] == "a";
  }
}
