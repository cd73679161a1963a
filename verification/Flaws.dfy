/** Command lines that `joinArgs` does not restore, one for each kind of flaw. */
module Flaws {
  import opened Text
  import opened Quotes
  import opened Tokenizer

  function LineTexts(ls: Lines): (items: seq<string>)
    ensures |items| == |ls| && forall i | 0 <= i < |ls| :: items[i] == Join(ls[i], ' ')
  {
    if ls == [] then [] else [Join(ls[0], ' ')] + LineTexts(ls[1..])
  }

  /** A text written down line by line and token by token. */
  function Written(ls: Lines): string { Join(LineTexts(ls), '\n') }

  /** Cutting a text into chunks is the inverse of writing chunks down. */
  lemma ChunksExactly(ls: Lines)
    requires |ls| >= 1 && forall i | 0 <= i < |ls| :: |ls[i]| >= 1 && forall t <- ls[i] :: ' ' !in t && '\n' !in t
    ensures Chunks(Written(ls)) == ls
  {
    hide Split, Join;
    var items := LineTexts(ls);
    forall i | 0 <= i < |ls| ensures '\n' !in items[i] && Split(items[i], ' ') == ls[i] {
      JoinLacks(ls[i], ' ', '\n');
      SplitJoin(ls[i], ' ');
    }
    SplitJoin(items, '\n');
  }

  lemma {:induction false} JoinLacks(parts: seq<string>, sep: char, c: char)
    requires c != sep && forall p <- parts :: c !in p
    ensures c !in Join(parts, sep)
  {
    if |parts| > 1 { JoinLacks(parts[..|parts| - 1], sep, c); }
  }

  /** A single character other than a quote mark changes neither the quote state nor any depth. */
  lemma PlainToken(c: char, st: State)
    requires c != '\'' && c != '"'
    ensures Advance([c], st) == st
  {
    assert [c][..0] == "";
    assert QuoteState("", st.quote) == st.quote;
    assert QuoteState([c], st.quote) == st.quote;
    NoTags([c], st.prints, PRINT);
    NoTags([c], st.blocks, BLOCK);
    NoTags([c], st.comments, COMMENT);
  }

  lemma NoTags(token: string, depth: nat, b: Block)
    requires |token| < 2
    ensures CountJinja2Blocks(token, depth, b) == depth
  {}

  lemma OneLine(tokens: seq<string>)
    ensures Written([tokens]) == Join(tokens, ' ')
  {}

  /** White space before the first parameter: a crash. */
  lemma LeadingSpaces()
    ensures Worst(Chunks("  a")) == STUCK
  {
    var ls := [["", "", "a"]];
    OneLine(ls[0]);
    assert ls[0][..2] == ["", ""] && ls[0][..2][..1] == [""];
    assert Written(ls) == "  a";
    ChunksExactly(ls);
    assert FlawAt(ls, 0, 1) == STUCK;
    WorstExactly(ls);
  }

  /** A backslash on its own is lost. */
  lemma LoneBackslash()
    ensures Worst(Chunks("\\ a")) == DROPPED_BACKSLASH
  {
    var ls := [["\\", "a"]];
    OneLine(ls[0]);
    assert ls[0][..1] == ["\\"];
    assert Written(ls) == "\\ a";
    ChunksExactly(ls);
    assert StateAt(ls, 0, 0) == START;
    assert FlawAt(ls, 0, 0) == DROPPED_BACKSLASH && FlawAt(ls, 0, 1) <= DROPPED_BACKSLASH;
    assert WorstBefore(ls, 0, 1) == DROPPED_BACKSLASH && WorstBefore(ls, 0, 2) == DROPPED_BACKSLASH;
  }

  /** A single space at the start of a line is lost. */
  lemma LeadingSpace()
    ensures Worst(Chunks("a\n b")) == DROPPED_SPACE
  {
    hide FlawAt, StateAt, Chunks;
    var ls := [["a"], ["", "b"]];
    assert Written(ls) == "a\n b" by {
      assert Join(ls[1], ' ') == " b" by { JoinTwo("", "b", ' '); }
      TwoLines(ls[0], ls[1]);
    }
    ChunksExactly(ls);
    LeadingSpaceFlaws(ls);
    assert WorstBefore(ls, 0, 1) == NONE && WorstBefore(ls, 1, 0) == NONE && WorstBefore(ls, 1, 1) == NONE;
    assert WorstBefore(ls, 1, 2) == DROPPED_SPACE;
  }

  lemma LeadingSpaceFlaws(ls: Lines)
    requires ls == [["a"], ["", "b"]]
    ensures FlawAt(ls, 0, 0) == NONE && FlawAt(ls, 1, 0) == NONE && FlawAt(ls, 1, 1) == DROPPED_SPACE
  {
    hide Advance;
    PlainToken('a', START);
    assert ls[0][0] == ['a'];
    assert StateAt(ls, 0, 0) == START && StateAt(ls, 0, 1) == START && StateAt(ls, 1, 0) == START;
    AdvanceBlank("", START);
    assert StateAt(ls, 1, 1) == START;
  }

  lemma JoinTwo(x: string, y: string, sep: char)
    ensures Join([x], sep) == x && Join([x, y], sep) == x + [sep] + y
  {
    assert [x, y][..1] == [x];
  }

  lemma TwoLines(a: seq<string>, b: seq<string>)
    ensures Written([a, b]) == Join(a, ' ') + "\n" + Join(b, ' ')
  {
    hide Join;
    assert LineTexts([a, b]) == [Join(a, ' '), Join(b, ' ')];
    JoinTwo(Join(a, ' '), Join(b, ' '), '\n');
  }

  lemma ThreeLines(a: seq<string>, b: seq<string>, c: seq<string>)
    ensures Written([a, b, c]) == Join(a, ' ') + "\n" + Join(b, ' ') + "\n" + Join(c, ' ')
  {
    var x, y, z := Join(a, ' '), Join(b, ' '), Join(c, ' ');
    assert LineTexts([a, b, c]) == [x, y, z];
    JoinTwo(x, y, '\n');
    assert [x, y, z][..2] == [x, y];
    assert Join([x, y, z], '\n') == Join([x, y], '\n') + ['\n'] + z;
  }

  /** Inside a block the end of a line without spaces is doubled. */
  lemma BlockOverLines()
    ensures Worst(Chunks("{{ a\nb\n}}")) == DOUBLED_LINE_END
  {
    hide FlawAt, StateAt, Chunks;
    var ls := [["{{", "a"], ["b"], ["}}"]];
    assert Written(ls) == "{{ a\nb\n}}" by {
      assert Join(ls[0], ' ') == "{{ a" by { JoinTwo("{{", "a", ' '); }
      ThreeLines(ls[0], ls[1], ls[2]);
    }
    ChunksExactly(ls);
    BlockFlaws(ls);
    assert WorstBefore(ls, 0, 1) == NONE && WorstBefore(ls, 0, 2) == NONE && WorstBefore(ls, 1, 0) == NONE;
    assert WorstBefore(ls, 1, 1) == DOUBLED_LINE_END && WorstBefore(ls, 2, 0) == DOUBLED_LINE_END;
    assert WorstBefore(ls, 2, 1) == DOUBLED_LINE_END;
  }

  lemma BlockFlaws(ls: Lines)
    requires ls == [["{{", "a"], ["b"], ["}}"]]
    ensures FlawAt(ls, 0, 0) == NONE && FlawAt(ls, 0, 1) == NONE
    ensures FlawAt(ls, 1, 0) == DOUBLED_LINE_END && FlawAt(ls, 2, 0) == DOUBLED_LINE_END
  {
    hide StateAt;
    BlockStates(ls, State(NoQuote, 1, 0, 0));
  }

  lemma BlockStates(ls: Lines, open: State)
    requires ls == [["{{", "a"], ["b"], ["}}"]] && open == State(NoQuote, 1, 0, 0)
    ensures StateAt(ls, 0, 0) == START && StateAt(ls, 0, 1) == open && StateAt(ls, 0, 2) == open
    ensures StateAt(ls, 1, 0) == open && StateAt(ls, 1, 1) == open && StateAt(ls, 2, 0) == open
  {
    hide Advance;
    OpensPrint();
    PlainToken('a', open);
    PlainToken('b', open);
    assert ls[0][1] == ['a'] && ls[1][0] == ['b'];
  }

  lemma OpensPrint()
    ensures Advance("{{", START) == State(NoQuote, 1, 0, 0)
  {
    var token := "{{";
    assert token[2..] == "" && token[1..] == "{" && token[..1] == "{" && token[..1][..0] == "";
  }
}
