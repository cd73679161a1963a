/**
 The argument tokenizer: `splitArgs` cuts a command line on whitespace and glues back what belongs
 to one quoted string or one Jinja block, and `joinArgs` is meant to undo it.
 Both work on `Chunks(s)`: the lines of the text, each cut at its spaces. A place is a pair (line, token).
 */
module Tokenizer {
  import opened Text
  import opened Quotes

  // ---------- Block tracking ----------

  /** `strings.Count` for a two-character tag: occurrences that do not overlap, from the left. */
  function Count(token: string, open: char, close: char): nat {
    if |token| < 2 then 0
    else if token[0] == open && token[1] == close then 1 + Count(token[2..], open, close)
    else Count(token[1..], open, close)
  }

  datatype Block = Block(open0: char, open1: char, close0: char, close1: char)

  const PRINT := Block('{', '{', '}', '}')
  const BLOCK := Block('{', '%', '%', '}')
  const COMMENT := Block('{', '#', '#', '}')

  /** The depth after one token; a surplus of closing tags is forgotten. */
  function CountJinja2Blocks(token: string, curDepth: nat, b: Block): nat {
    var change := Count(token, b.open0, b.open1) - Count(token, b.close0, b.close1);
    if curDepth + change < 0 then 0 else curDepth + change
  }

  // ---------- Places in the text ----------

  type Lines = seq<seq<string>>

  /** The text cut at line ends, and every line cut at spaces. */
  function Chunks(s: string): Lines {
    var items := Split(s, '\n');
    seq(|items|, i requires 0 <= i < |items| => Split(items[i], ' '))
  }

  predicate At(ls: Lines, i: int, j: int) {
    0 <= i < |ls| && 0 <= j < |ls[i]|
  }

  /** A place a loop can stand at: before token `j` of line `i`, at the end of a line, or at the very end. */
  predicate Place(ls: Lines, i: int, j: int) {
    0 <= i <= |ls| && 0 <= j && if i < |ls| then j <= |ls[i]| else j == 0
  }

  function Sep(j: nat): string { if j == 0 then "" else " " }

  function LineText(tokens: seq<string>, j: nat): string
    requires j <= |tokens|
  {
    if j == 0 then "" else LineText(tokens, j - 1) + Sep(j - 1) + tokens[j - 1]
  }

  /** The text before a place; the last line has no line end. */
  function Read(ls: Lines, i: nat, j: nat): string
    requires Place(ls, i, j)
    decreases i
  {
    if i == 0 then if ls == [] then "" else LineText(ls[0], j)
    else
      var before := Read(ls, i - 1, |ls[i - 1]|);
      if i == |ls| then before else before + "\n" + LineText(ls[i], j)
  }

  datatype State = State(quote: Quote, prints: nat, blocks: nat, comments: nat) {
    predicate InBlock() { prints > 0 || blocks > 0 || comments > 0 }
    predicate Neutral() { quote == NoQuote && !InBlock() }
  }

  const START := State(NoQuote, 0, 0, 0)

  function Advance(token: string, st: State): State {
    State(QuoteState(token, st.quote),
          CountJinja2Blocks(token, st.prints, PRINT),
          CountJinja2Blocks(token, st.blocks, BLOCK),
          CountJinja2Blocks(token, st.comments, COMMENT))
  }

  /** Quote state and block depths before a place, counted token by token. */
  function StateAt(ls: Lines, i: nat, j: nat): State
    requires Place(ls, i, j)
    decreases i, j
  {
    if j > 0 then Advance(ls[i][j - 1], StateAt(ls, i, j - 1))
    else if i > 0 then StateAt(ls, i - 1, |ls[i - 1]|)
    else START
  }

  function EndState(ls: Lines): State { StateAt(ls, |ls|, 0) }

  // ---------- What can go wrong at a place ----------

  predicate Blank(token: string) { token == "" || token == "\\" }

  predicate BlankBefore(ls: Lines, i: nat, j: nat)
    requires Place(ls, i, j)
    decreases i, j
  {
    if j > 0 then BlankBefore(ls, i, j - 1) && Blank(ls[i][j - 1])
    else i > 0 ==> BlankBefore(ls, i - 1, |ls[i - 1]|)
  }

  const NONE := 0
  const DOUBLED_LINE_END := 1
  const DROPPED_SPACE := 2
  const DROPPED_BACKSLASH := 3
  const STUCK := 4

  /** A white-space token, or an empty line, before there is any parameter to attach it to. */
  predicate StuckAt(ls: Lines, i: nat, j: nat)
    requires At(ls, i, j)
  {
    ls[i][j] == "" && BlankBefore(ls, i, j) && (j > 0 || (|ls[i]| == 1 && i + 1 < |ls|))
  }

  /** The flaw at one token, worst first; a caller can compute it from the text alone. */
  function FlawAt(ls: Lines, i: nat, j: nat): (flaw: nat)
    requires At(ls, i, j)
  {
    var token, st := ls[i][j], StateAt(ls, i, j);
    if StuckAt(ls, i, j) then STUCK
    else if st.quote != NoQuote then NONE
    else if token == "\\" then DROPPED_BACKSLASH                                   // a lone backslash
    else if j == 1 && ls[i][0] == "" && token != "" && !st.InBlock() then DROPPED_SPACE  // exactly one leading space
    else if j == 0 && |ls[i]| == 1 && st.InBlock() then DOUBLED_LINE_END           // a space-free line inside a block
    else NONE
  }

  function Max(a: nat, b: nat): nat { if a < b then b else a }

  function WorstBefore(ls: Lines, i: nat, j: nat): nat
    requires Place(ls, i, j)
    decreases i, j
  {
    if j > 0 then Max(WorstBefore(ls, i, j - 1), FlawAt(ls, i, j - 1))
    else if i > 0 then WorstBefore(ls, i - 1, |ls[i - 1]|)
    else NONE
  }

  function Worst(ls: Lines): nat { WorstBefore(ls, |ls|, 0) }

  // ---------- Joining ----------

  predicate NeedsSpace(text: string) {
    text != "" && text[|text| - 1] != '\n'
  }

  /** The text that `joinArgs` builds. */
  function Joined(params: seq<string>): string {
    if params == [] then ""
    else
      var text := Joined(params[..|params| - 1]);
      text + (if NeedsSpace(text) then " " else "") + params[|params| - 1]
  }

  method JoinArgs(params: seq<string>) returns (text: string)
    ensures text == Joined(params)
  {
    text := "";
    for k := 0 to |params|
      invariant text == Joined(params[..k])
    {
      assert params[..k + 1][..k] == params[..k];
      if text == "" || text[|text| - 1] == '\n' {
        text := text + params[k];
      } else {
        text := text + " ";
        text := text + params[k];
      }
    }
    assert params[..|params|] == params;
  }

  /** Text appended to the last parameter lands at the end of the joined text. */
  lemma JoinedExtend(params: seq<string>, x: string)
    requires params != []
    ensures Joined(Extend(params, x)) == Joined(params) + x
  {
    var n := |params| - 1;
    assert Extend(params, x)[..n] == params[..n];
  }

  lemma JoinedAppend(params: seq<string>, x: string)
    ensures Joined(params + [x]) == Joined(params) + (if NeedsSpace(Joined(params)) then " " else "") + x
  {
    assert (params + [x])[..|params|] == params;
  }

  function Extend(params: seq<string>, x: string): (r: seq<string>)
    requires params != []
    ensures |r| == |params|
  {
    params[..|params| - 1] + [params[|params| - 1] + x]
  }

  // ---------- What each token does to the parameters ----------

  /** A token starts a parameter of its own exactly when it has content and stands outside quotes and blocks. */
  predicate Starts(ls: Lines, i: nat, j: nat)
    requires At(ls, i, j)
  {
    !Blank(ls[i][j]) && StateAt(ls, i, j).Neutral()
  }

  /** A backslash on its own outside quotes: it is dropped, and so is the end of its line. */
  predicate Lone(ls: Lines, i: nat, j: nat)
    requires At(ls, i, j)
  {
    ls[i][j] == "\\" && StateAt(ls, i, j).quote == NoQuote
  }

  predicate Continued(ls: Lines, i: nat, j: nat)
    requires i < |ls| && j <= |ls[i]|
  {
    j > 0 && (Continued(ls, i, j - 1) || Lone(ls, i, j - 1))
  }

  /** What joins a token to the last parameter. */
  function Glue(ls: Lines, i: nat, j: nat): string
    requires At(ls, i, j)
  {
    if j == 0 && |ls[i]| == 1 && StateAt(ls, i, j).quote == NoQuote then "\n" else Sep(j)
  }

  /** The parameters before a place: a token starts one, is dropped, or is glued to the last one. */
  function Taken(ls: Lines, i: nat, j: nat): seq<string>
    requires Place(ls, i, j)
    decreases i, j
  {
    if j > 0 then
      var before := Taken(ls, i, j - 1);
      if Starts(ls, i, j - 1) then before + [ls[i][j - 1]]
      else if before == [] || Lone(ls, i, j - 1) then before
      else if ls[i][0] == "" && j == 1 && StateAt(ls, i, 0).Neutral() then before
      else Extend(before, Glue(ls, i, j - 1) + ls[i][j - 1])
    else if i > 0 then
      var before := Taken(ls, i - 1, |ls[i - 1]|);
      if before == [] || i == |ls| || Continued(ls, i - 1, |ls[i - 1]|) then before else Extend(before, "\n")
    else []
  }

  function StartsBefore(ls: Lines, i: nat, j: nat): nat
    requires Place(ls, i, j)
    decreases i, j
  {
    if j > 0 then StartsBefore(ls, i, j - 1) + (if Starts(ls, i, j - 1) then 1 else 0)
    else if i > 0 then StartsBefore(ls, i - 1, |ls[i - 1]|)
    else 0
  }

  /** The parameter that the token started is there, and begins with it. */
  ghost predicate Begun(ls: Lines, params: seq<string>, i: nat, j: nat)
    requires At(ls, i, j)
  {
    StartsBefore(ls, i, j) < |params| && ls[i][j] <= params[StartsBefore(ls, i, j)]
  }

  /** Parameters are only ever added or extended. */
  ghost predicate Grown(before: seq<string>, after: seq<string>) {
    |before| <= |after| && forall k | 0 <= k < |before| :: before[k] <= after[k]
  }

  lemma StillBegun(ls: Lines, before: seq<string>, after: seq<string>, i: nat, j: nat)
    requires At(ls, i, j) && Begun(ls, before, i, j) && Grown(before, after)
    ensures Begun(ls, after, i, j)
  {}

  lemma TokenGrows(ls: Lines, i: nat, j: nat)
    requires At(ls, i, j)
    ensures Grown(Taken(ls, i, j), Taken(ls, i, j + 1))
    ensures |Taken(ls, i, j + 1)| == |Taken(ls, i, j)| + if Starts(ls, i, j) then 1 else 0
    ensures Starts(ls, i, j) ==> Taken(ls, i, j + 1)[|Taken(ls, i, j)|] == ls[i][j]
  {
    hide StateAt, Starts, Continued, Glue, Lone;
  }

  lemma LineGrows(ls: Lines, i: nat)
    requires 0 < i <= |ls|
    ensures var before := Taken(ls, i - 1, |ls[i - 1]|);
      Grown(before, Taken(ls, i, 0)) && |Taken(ls, i, 0)| == |before|
  {
    hide StateAt, Starts, Continued, Glue, Lone;
  }

  /** There are as many parameters as tokens that start one, and each begins with the token that started it. */
  lemma {:induction false} ParameterStarts(ls: Lines, i: nat, j: nat)
    requires Place(ls, i, j)
    ensures |Taken(ls, i, j)| == StartsBefore(ls, i, j)
    ensures forall i', j' | At(ls, i', j') && (i' < i || (i' == i && j' < j)) && Starts(ls, i', j') ::
      Begun(ls, Taken(ls, i, j), i', j')
    decreases i, j
  {
    hide StateAt, Starts, Taken, Begun, Grown;
    if j > 0 {
      ParameterStarts(ls, i, j - 1);
      TokenGrows(ls, i, j - 1);
      var before, after := Taken(ls, i, j - 1), Taken(ls, i, j);
      forall i', j' | At(ls, i', j') && (i' < i || (i' == i && j' < j)) && Starts(ls, i', j')
        ensures Begun(ls, after, i', j')
      {
        if i' < i || j' < j - 1 { StillBegun(ls, before, after, i', j'); } else { BegunNow(ls, after, i', j'); }
      }
    } else if i > 0 {
      ParameterStarts(ls, i - 1, |ls[i - 1]|);
      LineGrows(ls, i);
      var before, after := Taken(ls, i - 1, |ls[i - 1]|), Taken(ls, i, 0);
      forall i', j' | At(ls, i', j') && i' < i && Starts(ls, i', j') ensures Begun(ls, after, i', j') {
        StillBegun(ls, before, after, i', j');
      }
    } else {
      NothingTaken(ls);
    }
  }

  lemma NothingTaken(ls: Lines)
    ensures Taken(ls, 0, 0) == []
  {}

  lemma BegunNow(ls: Lines, params: seq<string>, i: nat, j: nat)
    requires At(ls, i, j) && StartsBefore(ls, i, j) < |params| && params[StartsBefore(ls, i, j)] == ls[i][j]
    ensures Begun(ls, params, i, j)
  {}

  predicate NoneEmpty(params: seq<string>) { forall k | 0 <= k < |params| :: params[k] != "" }

  // ---------- The built text against the text read ----------

  function Occurrences(c: char, text: string): nat {
    if text == "" then 0
    else Occurrences(c, text[..|text| - 1]) + if text[|text| - 1] == c then 1 else 0
  }

  lemma {:induction false} OccurrencesConcat(c: char, a: string, b: string)
    ensures Occurrences(c, a + b) == Occurrences(c, a) + Occurrences(c, b)
  {
    if b == "" {
      assert a + b == a;
    } else {
      OccurrencesConcat(c, a, b[..|b| - 1]);
      assert (a + b)[..|a + b| - 1] == a + b[..|b| - 1];
    }
  }

  /**
   A dropped backslash leaves too few backslashes for good; short of that, a dropped space leaves too few
   spaces; short of that, a doubled line end leaves too many; and with no flaw at all the texts are equal.
   */
  ghost predicate Tally(out: string, text: string, worst: nat) {
    && (worst == NONE ==> out == text)
    && (worst <= DROPPED_SPACE ==> Occurrences('\\', out) <= Occurrences('\\', text))
    && (worst <= DOUBLED_LINE_END ==> Occurrences(' ', out) <= Occurrences(' ', text))
    && (worst == DOUBLED_LINE_END ==> Occurrences('\n', out) > Occurrences('\n', text))
    && (worst == DROPPED_SPACE ==> Occurrences(' ', out) < Occurrences(' ', text))
    && (worst == DROPPED_BACKSLASH ==> Occurrences('\\', out) < Occurrences('\\', text))
  }

  /** Equal texts, and only those, have no flaw. */
  lemma TallyDecides(out: string, text: string, worst: nat)
    requires Tally(out, text, worst) && worst < STUCK
    ensures out == text <==> worst == NONE
  {}

  /** The built text grows by `x`, the text read by `y`, and the worst flaw so far becomes `worst'`. */
  lemma TallyGrow(out: string, text: string, worst: nat, x: string, y: string, worst': nat)
    requires Tally(out, text, worst) && worst <= worst'
    requires worst' == NONE ==> x == y
    requires worst' <= DROPPED_SPACE ==> Occurrences('\\', x) <= Occurrences('\\', y)
    requires worst' <= DROPPED_SPACE ==> Occurrences(' ', x) <= Occurrences(' ', y)
    requires worst' <= DOUBLED_LINE_END ==> Occurrences('\n', x) >= Occurrences('\n', y)
    requires worst' == DROPPED_BACKSLASH ==> Occurrences('\\', x) <= Occurrences('\\', y)
    requires worst < worst' == DOUBLED_LINE_END ==> Occurrences('\n', x) > Occurrences('\n', y)
    requires worst < worst' == DROPPED_SPACE ==> Occurrences(' ', x) < Occurrences(' ', y)
    requires worst < worst' == DROPPED_BACKSLASH ==> Occurrences('\\', x) < Occurrences('\\', y)
    ensures Tally(out + x, text + y, worst')
  {
    OccurrencesConcat('\\', out, x); OccurrencesConcat('\\', text, y);
    OccurrencesConcat(' ', out, x); OccurrencesConcat(' ', text, y);
    OccurrencesConcat('\n', out, x); OccurrencesConcat('\n', text, y);
  }

  /** A token and a separator, counted. */
  lemma OccurrencesToken(c: char, sep: string, token: string)
    ensures Occurrences(c, sep + token) == Occurrences(c, sep) + Occurrences(c, token)
    ensures Occurrences(c, " ") == if c == ' ' then 1 else 0
    ensures Occurrences(c, "\n") == if c == '\n' then 1 else 0
    ensures Occurrences(c, "\\") == if c == '\\' then 1 else 0
  {
    OccurrencesConcat(c, sep, token);
    assert " "[..0] == "" && "\n"[..0] == "" && "\\"[..0] == "";
  }

  /**
   One token goes in: the text read grows by `sep + token`, the built one by `glue + token`, where the glue
   differs from the separator only as the flaw says.
   */
  lemma TallyToken(out: string, text: string, worst: nat, glue: string, sep: string, token: string, flaw: nat)
    requires Tally(out, text, worst) && worst < STUCK
    requires glue in {"", " ", "\n"} && sep in {"", " "}
    requires Max(worst, flaw) == NONE ==> glue == sep
    requires Max(worst, flaw) <= DROPPED_SPACE ==> glue == " " ==> sep == " "
    requires flaw == DOUBLED_LINE_END ==> glue == "\n"
    requires flaw == DROPPED_SPACE ==> worst <= DROPPED_SPACE ==> glue == "" && sep == " "
    requires flaw < DROPPED_BACKSLASH
    ensures Tally(out + glue + token, text + sep + token, Max(worst, flaw))
  {
    forall c: char
      ensures Occurrences(c, glue + token) == Occurrences(c, glue) + Occurrences(c, token)
      ensures Occurrences(c, sep + token) == Occurrences(c, sep) + Occurrences(c, token)
      ensures Occurrences(c, " ") == if c == ' ' then 1 else 0
      ensures Occurrences(c, "\n") == if c == '\n' then 1 else 0
    {
      OccurrencesToken(c, glue, token); OccurrencesToken(c, sep, token);
    }
    TallyGrow(out, text, worst, glue + token, sep + token, Max(worst, flaw));
    assert out + (glue + token) == out + glue + token && text + (sep + token) == text + sep + token;
  }

  /** A lone backslash goes missing. */
  lemma TallyDrop(out: string, text: string, worst: nat, sep: string)
    requires Tally(out, text, worst) && worst < STUCK && sep in {"", " "}
    ensures Tally(out, text + sep + "\\", DROPPED_BACKSLASH)
  {
    OccurrencesToken('\\', sep, "\\");
    TallyGrow(out, text, worst, "", sep + "\\", DROPPED_BACKSLASH);
    assert out + "" == out && text + (sep + "\\") == text + sep + "\\";
  }

  // ---------- What the loops keep ----------

  lemma ReadToken(ls: Lines, i: nat, j: nat)
    requires At(ls, i, j)
    ensures Read(ls, i, j + 1) == Read(ls, i, j) + Sep(j) + ls[i][j]
  {
    var line := LineText(ls[i], j);
    if i > 0 {
      var before := Read(ls, i - 1, |ls[i - 1]|) + "\n";
      assert before + (line + Sep(j) + ls[i][j]) == (before + line) + Sep(j) + ls[i][j];
    }
  }

  ghost predicate Clean(ls: Lines) {
    forall i, j | At(ls, i, j) :: '\n' !in ls[i][j]
  }

  /** Past the start of a line the text read does not end in a line end. */
  lemma ReadEnds(ls: Lines, i: nat, j: nat)
    requires Clean(ls) && Place(ls, i, j) && j >= 1 && !(j == 1 && ls[i][0] == "")
    ensures NeedsSpace(Read(ls, i, j))
  {
    ReadToken(ls, i, j - 1);
    var token := ls[i][j - 1];
    assert At(ls, i, j - 1);
    if token == "" { assert Read(ls, i, j) == Read(ls, i, j - 1) + Sep(j - 1); }
  }

  /** As long as only blank tokens were seen, no quote and no block has been opened. */
  lemma {:induction false} BlankStart(ls: Lines, i: nat, j: nat)
    requires Place(ls, i, j) && BlankBefore(ls, i, j)
    ensures StateAt(ls, i, j) == START
    decreases i, j
  {
    if j > 0 {
      BlankStart(ls, i, j - 1);
      assert ""[..0] == "" && "\\"[..0] == "";
    } else if i > 0 {
      BlankStart(ls, i - 1, |ls[i - 1]|);
    }
  }

  /** The start of a line, seen from outside quotes and blocks; one empty token does not leave it. */
  predicate LineStart(ls: Lines, i: nat, j: nat)
    requires Place(ls, i, j)
  {
    i < |ls| && (j == 0 || (j == 1 && ls[i][0] == "" && StateAt(ls, i, 1).Neutral()))
  }

  /** What is known of the parameters at a place. */
  ghost predicate Built(ls: Lines, i: nat, j: nat, params: seq<string>)
    requires Place(ls, i, j)
  {
    && NoneEmpty(params)
    && params == Taken(ls, i, j)
    && (params == [] <==> BlankBefore(ls, i, j))
    && Tally(Joined(params), Read(ls, i, j), WorstBefore(ls, i, j))
    && (LineStart(ls, i, j) && WorstBefore(ls, i, j) <= DROPPED_SPACE ==> !NeedsSpace(Joined(params)))
  }

  /** A new parameter, outside quotes and blocks: the separator comes back unless a line was just ended. */
  lemma AppendTally(ls: Lines, i: nat, j: nat, out: string, glue: string)
    requires Clean(ls) && At(ls, i, j) && Tally(out, Read(ls, i, j), WorstBefore(ls, i, j))
    requires WorstBefore(ls, i, j) < STUCK && !Blank(ls[i][j]) && StateAt(ls, i, j).Neutral()
    requires LineStart(ls, i, j) && WorstBefore(ls, i, j) <= DROPPED_SPACE ==> !NeedsSpace(out)
    requires glue == if NeedsSpace(out) then " " else ""
    ensures Tally(out + glue + ls[i][j], Read(ls, i, j) + Sep(j) + ls[i][j], WorstBefore(ls, i, j + 1))
  {
    if j >= 1 && !(j == 1 && ls[i][0] == "") { ReadEnds(ls, i, j); }
    TallyToken(out, Read(ls, i, j), WorstBefore(ls, i, j), glue, Sep(j), ls[i][j], FlawAt(ls, i, j));
  }

  lemma AppendedTally(ls: Lines, i: nat, j: nat, params: seq<string>, token: string)
    requires Clean(ls) && At(ls, i, j) && Built(ls, i, j, params) && WorstBefore(ls, i, j) < STUCK
    requires token == ls[i][j] && !Blank(token) && StateAt(ls, i, j).Neutral()
    ensures Tally(Joined(params + [token]), Read(ls, i, j + 1), WorstBefore(ls, i, j + 1))
  {
    hide Read, Tally, FlawAt, Joined, WorstBefore, StateAt;
    var out := Joined(params);
    AppendTally(ls, i, j, out, if NeedsSpace(out) then " " else "");
    JoinedAppend(params, token);
    ReadToken(ls, i, j);
  }

  lemma BuiltAppend(ls: Lines, i: nat, j: nat, params: seq<string>, token: string)
    requires Clean(ls) && At(ls, i, j) && Built(ls, i, j, params) && WorstBefore(ls, i, j) < STUCK
    requires token == ls[i][j] && !Blank(token) && StateAt(ls, i, j).Neutral()
    ensures Built(ls, i, j + 1, params + [token])
  {
    AppendedTally(ls, i, j, params, token);
    hide Read, Tally, FlawAt, Joined, WorstBefore, StateAt;
    assert NoneEmpty(params + [token]);
  }

  /** Text glued to the last parameter. */
  lemma ExtendTally(ls: Lines, i: nat, j: nat, out: string, glue: string)
    requires At(ls, i, j) && Tally(out, Read(ls, i, j), WorstBefore(ls, i, j)) && WorstBefore(ls, i, j) < STUCK
    requires FlawAt(ls, i, j) in {NONE, DOUBLED_LINE_END}
    requires glue == if FlawAt(ls, i, j) == NONE then Sep(j) else "\n"
    ensures Tally(out + (glue + ls[i][j]), Read(ls, i, j + 1), WorstBefore(ls, i, j + 1))
  {
    hide Read, Tally, FlawAt;
    ReadToken(ls, i, j);
    TallyToken(out, Read(ls, i, j), WorstBefore(ls, i, j), glue, Sep(j), ls[i][j], FlawAt(ls, i, j));
    assert out + (glue + ls[i][j]) == out + glue + ls[i][j];
  }

  lemma BuiltExtend(ls: Lines, i: nat, j: nat, params: seq<string>, glue: string)
    requires At(ls, i, j) && Built(ls, i, j, params) && params != [] && WorstBefore(ls, i, j) < STUCK
    requires FlawAt(ls, i, j) in {NONE, DOUBLED_LINE_END}
    requires glue == if FlawAt(ls, i, j) == NONE then Sep(j) else "\n"
    requires !LineStart(ls, i, j + 1)
    requires !Starts(ls, i, j) && !Lone(ls, i, j) && glue == Glue(ls, i, j)
    requires !(ls[i][j] == "" && j == 0 && StateAt(ls, i, j).Neutral())
    ensures Built(ls, i, j + 1, Extend(params, glue + ls[i][j]))
  {
    hide Read, Tally, FlawAt, Joined, LineStart, WorstBefore, StateAt;
    ExtendTally(ls, i, j, Joined(params), glue);
    JoinedExtend(params, glue + ls[i][j]);
    assert |params[|params| - 1] + (glue + ls[i][j])| > 0;
  }

  lemma BuiltDrop(ls: Lines, i: nat, j: nat, params: seq<string>)
    requires At(ls, i, j) && Built(ls, i, j, params) && WorstBefore(ls, i, j) < STUCK
    requires ls[i][j] == "\\" && StateAt(ls, i, j).quote == NoQuote
    ensures Built(ls, i, j + 1, params)
  {
    hide Read, Tally, Joined, StateAt;
    ReadToken(ls, i, j);
    TallyDrop(Joined(params), Read(ls, i, j), WorstBefore(ls, i, j), Sep(j));
  }

  /** An empty first token outside quotes and blocks changes nothing. */
  lemma BuiltNothing(ls: Lines, i: nat, params: seq<string>)
    requires At(ls, i, 0) && Built(ls, i, 0, params) && WorstBefore(ls, i, 0) < STUCK
    requires ls[i][0] == "" && StateAt(ls, i, 0).Neutral()
    ensures Built(ls, i, 1, params)
  {
    ReadToken(ls, i, 0);
    var text := Read(ls, i, 0);
    assert text + Sep(0) + "" == text;
  }

  /** The end of a line that is not the last. */
  lemma BuiltLineEnd(ls: Lines, i: nat, params: seq<string>, continued: bool)
    requires i + 1 < |ls| && Built(ls, i, |ls[i]|, params) && WorstBefore(ls, i, |ls[i]|) < STUCK
    requires continued ==> WorstBefore(ls, i, |ls[i]|) == DROPPED_BACKSLASH
    requires continued <==> Continued(ls, i, |ls[i]|)
    requires !continued ==> params != []
    ensures Built(ls, i + 1, 0, if continued then params else Extend(params, "\n"))
  {
    var out, text, worst := Joined(params), Read(ls, i, |ls[i]|), WorstBefore(ls, i, |ls[i]|);
    assert Read(ls, i + 1, 0) == text + "\n";
    if continued {
      OccurrencesToken('\\', "", "\n");
      assert ""  + "\n" == "\n";
      TallyGrow(out, text, worst, "", "\n", worst);
      assert out + "" == out;
    } else {
      JoinedExtend(params, "\n");
      TallyGrow(out, text, worst, "\n", "\n", worst);
      assert |params[|params| - 1] + "\n"| > 0;
    }
  }

  // ---------- Splitting ----------

  datatype Outcome =
    | Params(params: seq<string>)
    | Failed    // unbalanced quotes or blocks
    | Crashed   // index out of range: the last of no parameters

  lemma AdvanceBlank(token: string, st: State)
    requires token == "" || (token == "\\" && st.quote == NoQuote)
    ensures Advance(token, st) == st
  {
    assert "\\"[..0] == "";
  }

  /** How a token reaches the parameters: dropped, a new one, or glued to the last one. */
  lemma TokenOutcome(ls: Lines, i: nat, j: nat, params: seq<string>)
    requires Clean(ls) && At(ls, i, j) && Built(ls, i, j, params) && WorstBefore(ls, i, j) < STUCK
    ensures var token, st := ls[i][j], StateAt(ls, i, j);
            && (token == "" || (token == "\\" && st.quote == NoQuote) ==> StateAt(ls, i, j + 1) == st)
            && (params == [] ==> st == START)
            && (token == "\\" && st.quote == NoQuote ==> Built(ls, i, j + 1, params))
            && (token == "" && st.Neutral() && j == 0 ==> Built(ls, i, j + 1, params))
            && (!Blank(token) && st.Neutral() ==> Built(ls, i, j + 1, params + [token]))
            && (params != [] && !(token == "\\" && st.quote == NoQuote) && (!st.Neutral() || (token == "" && j > 0)) ==>
                 Built(ls, i, j + 1, Extend(params, Glue(ls, i, j) + token)))
  {
    var token, st := ls[i][j], StateAt(ls, i, j);
    if params == [] { BlankStart(ls, i, j); }
    if token == "" || (token == "\\" && st.quote == NoQuote) { AdvanceBlank(token, st); }
    if token == "\\" && st.quote == NoQuote {
      BuiltDrop(ls, i, j, params);
    } else if st.Neutral() && !Blank(token) {
      BuiltAppend(ls, i, j, params, token);
    } else if st.Neutral() && j == 0 {
      BuiltNothing(ls, i, params);
    } else if params != [] {
      BuiltExtend(ls, i, j, params, Glue(ls, i, j));
    }
  }

  /** One round of the inner loop: token `idx` of a line of `n` tokens. */
  method HandleToken(token: string, idx: nat, n: nat, params0: seq<string>, st: State, ghost ls: Lines, ghost i: nat)
    returns (crashed: bool, lineContinuation: bool, params: seq<string>, st': State)
    requires Clean(ls) && At(ls, i, idx) && token == ls[i][idx] && n == |ls[i]|
    requires st == StateAt(ls, i, idx)
    requires Built(ls, i, idx, params0) && WorstBefore(ls, i, idx) < STUCK
    ensures crashed <==> params0 == [] && token == "" && idx > 0
    ensures lineContinuation <==> token == "\\" && st.quote == NoQuote
    ensures !crashed ==> st' == StateAt(ls, i, idx + 1)
    ensures !crashed ==> Built(ls, i, idx + 1, params)
  {
    hide Read, Tally, Joined, NoneEmpty, LineStart, Taken, QuoteState, Count, Extend;
    crashed, lineContinuation, params, st' := false, false, params0, st;
    var quoteChar, printDepth, blockDepth, commentDepth := st.quote, st.prints, st.blocks, st.comments;
    var insideQuotes := quoteChar != NoQuote;
    TokenOutcome(ls, i, idx, params);
    assert "" + token == token && (token == "" ==> " " + token == " ");
    if token == "" && idx != 0 {
      if params == [] {
        crashed := true;
        return;
      }
      params := Extend(params, " ");
      return;
    }
    if token == "\\" && !insideQuotes {
      lineContinuation := true;
      return;
    }
    var wasInsideQuotes := insideQuotes;
    quoteChar := GetQuoteState(token, quoteChar);
    insideQuotes := quoteChar != NoQuote;
    var appended := false;
    if insideQuotes && !wasInsideQuotes && !(printDepth > 0 || blockDepth > 0 || commentDepth > 0) {
      params := params + [token];
      appended := true;
    } else if printDepth > 0 || blockDepth > 0 || commentDepth > 0 || insideQuotes || wasInsideQuotes {
      if idx == 0 && wasInsideQuotes {
        params := Extend(params, token);
      } else if n > 1 {
        var spacer := "";
        if idx > 0 {
          spacer := " ";
        }
        params := Extend(params, spacer + token);
      } else {
        params := Extend(params, "\n" + token);
      }
      appended := true;
    }
    var prevPrintDepth := printDepth;
    printDepth := CountJinja2Blocks(token, printDepth, PRINT);
    if printDepth != prevPrintDepth && !appended {
      params := params + [token];
      appended := true;
    }
    var prevBlockDepth := blockDepth;
    blockDepth := CountJinja2Blocks(token, blockDepth, BLOCK);
    if blockDepth != prevBlockDepth && !appended {
      params := params + [token];
      appended := true;
    }
    var prevCommentDepth := commentDepth;
    commentDepth := CountJinja2Blocks(token, commentDepth, COMMENT);
    if commentDepth != prevCommentDepth && !appended {
      params := params + [token];
      appended := true;
    }
    if !(printDepth > 0 || blockDepth > 0 || commentDepth > 0) && !insideQuotes && !appended && token != "" {
      params := params + [token];
    }
    st' := State(quoteChar, printDepth, blockDepth, commentDepth);
  }

  /** A line end that is not copied: after a line continuation, or because there is none after the last line. */
  lemma BuiltContinued(ls: Lines, i: nat, params: seq<string>)
    requires i < |ls| && Built(ls, i, |ls[i]|, params) && WorstBefore(ls, i, |ls[i]|) < STUCK
    requires i + 1 < |ls| ==> WorstBefore(ls, i, |ls[i]|) == DROPPED_BACKSLASH && Continued(ls, i, |ls[i]|)
    ensures Built(ls, i + 1, 0, params)
  {
    if i + 1 < |ls| { BuiltLineEnd(ls, i, params, true); }
  }

  lemma {:induction false} LineTextJoin(tokens: seq<string>, j: nat)
    requires j <= |tokens|
    ensures LineText(tokens, j) == Join(tokens[..j], ' ')
  {
    if j == 1 {
      assert tokens[..1] == [tokens[0]];
      assert "" + "" + tokens[0] == tokens[0];
    } else if j > 1 {
      LineTextJoin(tokens, j - 1);
      assert tokens[..j][..j - 1] == tokens[..j - 1];
      assert [' '] == " ";
    }
  }

  lemma LineItem(s: string, i: nat)
    requires i < |Split(s, '\n')|
    ensures var ls := Chunks(s); |ls| == |Split(s, '\n')| && LineText(ls[i], |ls[i]|) == Split(s, '\n')[i]
  {
    var item := Split(s, '\n')[i];
    var tokens := Split(item, ' ');
    LineTextJoin(tokens, |tokens|);
    assert tokens[..|tokens|] == tokens;
    JoinSplit(item, ' ');
  }

  lemma ReadLine(ls: Lines, i: nat)
    requires i < |ls|
    ensures Read(ls, i, |ls[i]|)
            == if i == 0 then LineText(ls[0], |ls[0]|)
               else Read(ls, i - 1, |ls[i - 1]|) + "\n" + LineText(ls[i], |ls[i]|)
  {}

  lemma {:induction false} ReadItems(s: string, i: nat)
    requires i < |Split(s, '\n')| == |Chunks(s)|
    ensures Read(Chunks(s), i, |Chunks(s)[i]|) == Join(Split(s, '\n')[..i + 1], '\n')
  {
    hide Chunks, Split, LineText, Read;
    var items, ls := Split(s, '\n'), Chunks(s);
    LineItem(s, i);
    ReadLine(ls, i);
    if i > 0 {
      ReadItems(s, i - 1);
      assert items[..i + 1][..i] == items[..i];
      assert ['\n'] == "\n";
    } else {
      assert items[..1] == [items[0]];
    }
  }

  /** Cutting a text into chunks loses nothing, and leaves no line end inside a token. */
  lemma ReadAll(s: string)
    ensures var ls := Chunks(s); Read(ls, |ls|, 0) == s && Clean(ls)
    ensures forall i | 0 <= i < |Chunks(s)| :: |Chunks(s)[i]| >= 1
  {
    var items, ls := Split(s, '\n'), Chunks(s);
    ReadItems(s, |items| - 1);
    assert items[..|items|] == items;
    JoinSplit(s, '\n');
    forall i, j | At(ls, i, j) ensures '\n' !in ls[i][j] {
      assert items[i] in items;
      if '\n' in ls[i][j] {
        SplitChars(items[i], ' ', ls[i][j], '\n');
        SplitChars(s, '\n', items[i], '\n');
      }
    }
  }

  /** Inside a line: a flaw of the worst kind that has not crashed the loop yet crashes it at the end of the line. */
  ghost predicate Live(ls: Lines, i: nat, j: nat, params: seq<string>, continued: bool)
    requires At(ls, i, 0) && j <= |ls[i]|
  {
    var worst := WorstBefore(ls, i, j);
    && worst <= STUCK
    && (continued ==> j > 0 && worst == DROPPED_BACKSLASH)
    && (!continued && params == [] && j > 0 ==> j == 1 && ls[i][0] == "")
    && (worst == STUCK <==> !continued && params == [] && j == 1 == |ls[i]| && i + 1 < |ls|)
  }

  lemma LiveStep(ls: Lines, i: nat, j: nat, params: seq<string>, params': seq<string>, continued: bool, lone: bool)
    requires At(ls, i, j) && Live(ls, i, j, params, continued)
    requires params == [] <==> BlankBefore(ls, i, j)
    requires params' == [] <==> BlankBefore(ls, i, j + 1)
    requires lone <==> ls[i][j] == "\\" && StateAt(ls, i, j).quote == NoQuote
    ensures params == [] && ls[i][j] == "" && j > 0 ==> WorstBefore(ls, i, j + 1) == STUCK
    ensures !(params == [] && ls[i][j] == "" && j > 0) ==> Live(ls, i, j + 1, params', continued || lone)
  {
    if params == [] { BlankStart(ls, i, j); }
  }

  /** The inner loop: all tokens of one line. */
  method HandleLine(tokens: seq<string>, params0: seq<string>, st0: State, ghost ls: Lines, ghost i: nat)
    returns (crashed: bool, lineContinuation: bool, params: seq<string>, st: State)
    requires Clean(ls) && At(ls, i, 0) && tokens == ls[i]
    requires st0 == StateAt(ls, i, 0)
    requires Built(ls, i, 0, params0) && WorstBefore(ls, i, 0) < STUCK
    ensures crashed ==> Worst(ls) == STUCK
    ensures !crashed ==> st == StateAt(ls, i, |tokens|)
    ensures !crashed ==> Built(ls, i, |tokens|, params)
    ensures !crashed ==> Live(ls, i, |tokens|, params, lineContinuation)
    ensures !crashed ==> lineContinuation == Continued(ls, i, |tokens|)
  {
    hide Read, Tally, Joined, NoneEmpty, LineStart, Taken, QuoteState, Advance;
    crashed, lineContinuation, params, st := false, false, params0, st0;
    for idx := 0 to |tokens|
      invariant st == StateAt(ls, i, idx)
      invariant Built(ls, i, idx, params)
      invariant Live(ls, i, idx, params, lineContinuation)
      invariant lineContinuation == Continued(ls, i, idx)
    {
      var continued;
      ghost var before := params;
      crashed, continued, params, st := HandleToken(tokens[idx], idx, |tokens|, params, st, ls, i);
      if crashed {
        assert StuckAt(ls, i, idx);
        WorstGrows(ls, i, idx + 1);
        WorstBound(ls, |ls|, 0);
        return;
      }
      LiveStep(ls, i, idx, before, params, lineContinuation, continued);
      lineContinuation := lineContinuation || continued;
    }
  }

  method SplitArgs(args: string) returns (r: Outcome)
    ensures r.Crashed? <==> Worst(Chunks(args)) == STUCK
    ensures r.Failed? <==> Worst(Chunks(args)) < STUCK && EndState(Chunks(args)) != START
    ensures r.Params? ==> r.params == Taken(Chunks(args), |Chunks(args)|, 0) && NoneEmpty(r.params)
    ensures r.Params? ==> (Joined(r.params) == args <==> Worst(Chunks(args)) == NONE)
  {
    var params: seq<string> := [];
    var items := Split(args, '\n');
    ghost var ls := Chunks(args);
    ReadAll(args);
    var st := START;
    for itemIdx := 0 to |items|
      invariant st == StateAt(ls, itemIdx, 0)
      invariant Built(ls, itemIdx, 0, params)
      invariant WorstBefore(ls, itemIdx, 0) < STUCK
    {
      var tokens := Split(items[itemIdx], ' ');
      var crashed, lineContinuation;
      crashed, lineContinuation, params, st := HandleLine(tokens, params, st, ls, itemIdx);
      if crashed {
        return Crashed;
      }
      if |items| > 1 && itemIdx != |items| - 1 && !lineContinuation {
        if params == [] {
          WorstGrows(ls, itemIdx, |tokens|);
          WorstBound(ls, |ls|, 0);
          return Crashed;
        }
        BuiltLineEnd(ls, itemIdx, params, false);
        params := Extend(params, "\n");
      } else {
        BuiltContinued(ls, itemIdx, params);
      }
    }
    if st.prints != 0 || st.blocks != 0 || st.comments != 0 || st.quote != NoQuote {
      return Failed;
    }
    TallyDecides(Joined(params), args, Worst(ls));
    return Params(params);
  }

  /** The worst flaw is never forgotten. */
  lemma {:induction false} WorstGrows(ls: Lines, i: nat, j: nat)
    requires Place(ls, i, j)
    ensures WorstBefore(ls, i, j) <= Worst(ls)
    decreases |ls| - i, if i < |ls| then |ls[i]| - j else 0
  {
    if i < |ls| {
      if j < |ls[i]| { WorstGrows(ls, i, j + 1); } else { WorstGrows(ls, i + 1, 0); }
    }
  }

  /** No flaw is worse than a crash. */
  lemma {:induction false} WorstBound(ls: Lines, i: nat, j: nat)
    requires Place(ls, i, j)
    ensures WorstBefore(ls, i, j) <= STUCK
    decreases i, j
  {
    if j > 0 { WorstBound(ls, i, j - 1); } else if i > 0 { WorstBound(ls, i - 1, |ls[i - 1]|); }
  }

  // ---------- What the flaws mean for a caller ----------

  /** Tracking quotes token by token, lone backslashes skipped or not, equals one pass over the whole text. */
  lemma {:induction false} QuotePass(ls: Lines, i: nat, j: nat)
    requires Place(ls, i, j)
    ensures StateAt(ls, i, j).quote == QuoteState(Read(ls, i, j), NoQuote)
    decreases i, j
  {
    hide Read, QuoteState, CountJinja2Blocks;
    if i == j == 0 {
      QuoteNothing(ls);
    } else if j > 0 {
      QuotePass(ls, i, j - 1);
      QuoteToken(ls, i, j - 1);
    } else if i > 0 {
      QuotePass(ls, i - 1, |ls[i - 1]|);
      QuoteLineEnd(ls, i);
    }
  }

  lemma QuoteNothing(ls: Lines)
    ensures QuoteState(Read(ls, 0, 0), NoQuote) == NoQuote
  {}

  lemma QuoteLineEnd(ls: Lines, i: nat)
    requires Place(ls, i, 0) && i > 0
    ensures QuoteState(Read(ls, i, 0), NoQuote) == QuoteState(Read(ls, i - 1, |ls[i - 1]|), NoQuote)
  {
    var before := Read(ls, i - 1, |ls[i - 1]|);
    hide QuoteState;
    QuoteStateBlank(before, NoQuote);
    if i < |ls| { assert Read(ls, i, 0) == before + "\n"; }
  }

  lemma QuoteToken(ls: Lines, i: nat, j: nat)
    requires At(ls, i, j)
    ensures QuoteState(Read(ls, i, j + 1), NoQuote) == QuoteState(ls[i][j], QuoteState(Read(ls, i, j), NoQuote))
  {
    var before := Read(ls, i, j);
    hide QuoteState;
    ReadToken(ls, i, j);
    if j > 0 {
      QuoteStateBlank(before, NoQuote);
      QuoteConcat(before + " ", ls[i][j], NoQuote);
    } else {
      assert before + "" == before;
      assert before == "" || before[|before| - 1] == '\n';
      QuoteConcat(before, ls[i][j], NoQuote);
    }
  }

  lemma QuoteStateBlank(text: string, q: Quote)
    ensures QuoteState(text + " ", q) == QuoteState(text, q) == QuoteState(text + "\n", q)
  {
    assert (text + " ")[..|text|] == text == (text + "\n")[..|text|];
  }

  /** `splitArgs` reports unbalanced input exactly when one quote pass ends open or a block depth is left. */
  lemma UnbalancedExactly(s: string)
    ensures EndState(Chunks(s)) != START
       <==> QuoteState(s, NoQuote) != NoQuote || EndState(Chunks(s)).InBlock()
  {
    ReadAll(s);
    QuotePass(Chunks(s), |Chunks(s)|, 0);
  }

  /** The worst flaw is the flaw of some token, and no token has a worse one. */
  lemma {:induction false} WorstIsSomewhere(ls: Lines, i: nat, j: nat)
    requires Place(ls, i, j)
    ensures forall i', j' | At(ls, i', j') && (i' < i || (i' == i && j' < j)) ::
        FlawAt(ls, i', j') <= WorstBefore(ls, i, j)
    ensures var worst := WorstBefore(ls, i, j);
      worst == NONE || exists i', j' :: At(ls, i', j') && FlawAt(ls, i', j') == worst
    decreases i, j
  {
    hide FlawAt;
    if j > 0 {
      WorstIsSomewhere(ls, i, j - 1);
      assert At(ls, i, j - 1);
    } else if i > 0 {
      WorstIsSomewhere(ls, i - 1, |ls[i - 1]|);
    }
  }

  ghost predicate SomeFlaw(ls: Lines, flaw: nat) {
    exists i, j :: At(ls, i, j) && FlawAt(ls, i, j) == flaw
  }

  /** Crashes and lossless cuts, read off the single tokens. */
  lemma WorstExactly(ls: Lines)
    ensures Worst(ls) == STUCK <==> SomeFlaw(ls, STUCK)
    ensures Worst(ls) == NONE <==>
            && !SomeFlaw(ls, STUCK) && !SomeFlaw(ls, DROPPED_BACKSLASH)
            && !SomeFlaw(ls, DROPPED_SPACE) && !SomeFlaw(ls, DOUBLED_LINE_END)
  {
    WorstIsSomewhere(ls, |ls|, 0);
    WorstBound(ls, |ls|, 0);
  }

  /** A first token that is neither empty nor a lone backslash keeps every access in bounds. */
  lemma NeverStuck(s: string)
    requires s == "" || !Blank(Chunks(s)[0][0])
    ensures Worst(Chunks(s)) < STUCK
  {
    var ls := Chunks(s);
    WorstExactly(ls);
    WorstBound(ls, |ls|, 0);
    forall i, j | At(ls, i, j) ensures FlawAt(ls, i, j) != STUCK {
      if FlawAt(ls, i, j) == STUCK && (i > 0 || j > 0) { BlankFirst(ls, i, j); }
    }
  }

  lemma {:induction false} BlankFirst(ls: Lines, i: nat, j: nat)
    requires Place(ls, i, j) && At(ls, 0, 0) && (i > 0 || j > 0) && BlankBefore(ls, i, j)
    ensures Blank(ls[0][0])
    decreases i, j
  {
    if j > 1 || (j == 1 && i > 0) { BlankFirst(ls, i, j - 1); }
    else if j == 0 { BlankFirst(ls, i - 1, |ls[i - 1]|); }
  }

  // ---------- Key and value ----------

  /** `strings.Index(x[from:], "=")`, counted from the start of `x`. */
  method IndexOfEquals(x: string, from: nat) returns (pos: int)
    requires from <= |x|
    ensures pos == -1 || from <= pos < |x|
    ensures pos >= 0 ==> x[pos] == '='
    ensures forall k | from <= k < (if pos < 0 then |x| else pos) :: x[k] != '='
  {
    for k := from to |x|
      invariant forall m | from <= m < k :: x[m] != '='
    {
      if x[k] == '=' { return k; }
    }
    return -1;
  }

  predicate SplitsAt(x: string, k: int) {
    1 <= k < |x| && x[k] == '=' && x[k - 1] != '\\'
  }

  /** The first equals sign, past the first character, that no backslash precedes. */
  method FindUnescapedEqualsSignPos(x: string) returns (pos: int)
    requires |x| > 0
    ensures pos == -1 || SplitsAt(x, pos)
    ensures forall k | SplitsAt(x, k) :: 0 <= pos <= k
  {
    pos := 0;
    while true
      invariant 0 <= pos < |x|
      invariant forall k | 1 <= k <= pos :: !SplitsAt(x, k)
      decreases |x| - pos
    {
      var offset := pos + 1;
      pos := IndexOfEquals(x, offset);
      if pos == -1 {
        return;
      } else if x[pos - 1] != '\\' {
        return;
      }
    }
  }
}
