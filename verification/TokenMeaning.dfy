/**
 What the tokenizer means on the text itself: quoted stretches stay in one parameter, unquoted tokens start new ones,
 and block tags are counted where they stand.
 */
module TokenMeaning {
  import opened Text
  import opened Quotes
  import opened Tokenizer

  // ---------- Tags ----------

  predicate TagAt(token: string, i: int, open: char, close: char) {
    0 <= i && i + 1 < |token| && token[i] == open && token[i + 1] == close
  }

  /** Places at which the tag stands, none overlapping another. */
  ghost predicate Disjoint(token: string, open: char, close: char, places: seq<int>) {
    && (forall k | 0 <= k < |places| :: TagAt(token, places[k], open, close))
    && (forall k, l | 0 <= k < l < |places| :: places[k] + 2 <= places[l])
  }

  function Shift(places: seq<int>, step: int): (r: seq<int>)
    ensures |r| == |places|
  {
    seq(|places|, k requires 0 <= k < |places| => places[k] + step)
  }

  /** As many tags as are counted do stand in the token without overlapping. */
  lemma {:induction false} CountedTags(token: string, open: char, close: char) returns (places: seq<int>)
    ensures |places| == Count(token, open, close) && Disjoint(token, open, close, places)
  {
    if |token| < 2 {
      places := [];
    } else {
      var found := token[0] == open && token[1] == close;
      var n := if found then 2 else 1;
      var rest := CountedTags(token[n..], open, close);
      places := (if found then [0] else []) + Shift(rest, n);
      forall k | 0 <= k < |rest| ensures TagAt(token, Shift(rest, n)[k], open, close) && Shift(rest, n)[k] >= n {
        assert TagAt(token[n..], rest[k], open, close);
      }
    }
  }

  /** No more of them stand there without overlapping. */
  lemma {:induction false} NoMoreTags(token: string, open: char, close: char, places: seq<int>)
    requires Disjoint(token, open, close, places)
    ensures |places| <= Count(token, open, close)
  {
    if places != [] {
      assert TagAt(token, places[0], open, close);
      var found := token[0] == open && token[1] == close;
      var n := if found then 2 else 1;
      var rest := if places[0] < n then places[1..] else places;
      var moved := Shift(rest, -n);
      forall k | 0 <= k < |moved| ensures TagAt(token[n..], moved[k], open, close) {
        if places[0] < n { assert TagAt(token, places[k + 1], open, close) && places[0] + 2 <= places[k + 1]; }
        else { assert TagAt(token, places[k], open, close) && (k == 0 || places[0] + 2 <= places[k]); }
      }
      NoMoreTags(token[n..], open, close, moved);
    }
  }

  /** `Count` is the largest number of tags that stand in the token without overlapping. */
  lemma CountIsLargest(token: string, open: char, close: char, n: nat)
    ensures n <= Count(token, open, close) <==> exists places :: |places| == n && Disjoint(token, open, close, places)
  {
    var all := CountedTags(token, open, close);
    if n <= |all| { assert Disjoint(token, open, close, all[..n]); }
    if places :| |places| == n && Disjoint(token, open, close, places) { NoMoreTags(token, open, close, places); }
  }

  /** The depth goes up by the opening tags and down by the closing ones, and a surplus of those is forgotten. */
  lemma DepthExactly(token: string, depth: nat, b: Block)
    ensures var up, down := Count(token, b.open0, b.open1), Count(token, b.close0, b.close1);
      var after := CountJinja2Blocks(token, depth, b);
      if down <= depth + up then after + down == depth + up else after == 0
  {}

  /** The tags: double braces print, a brace with a percent sign is a block, with a number sign a comment. */
  lemma Tags(depth: nat)
    ensures CountJinja2Blocks("{{", depth, PRINT) == CountJinja2Blocks("{%", depth, BLOCK) == depth + 1
    ensures CountJinja2Blocks("{#", depth, COMMENT) == depth + 1
    ensures CountJinja2Blocks("}}", depth + 1, PRINT) == CountJinja2Blocks("%}", depth + 1, BLOCK) == depth
    ensures CountJinja2Blocks("#}", depth + 1, COMMENT) == depth
    ensures CountJinja2Blocks("}}", 0, PRINT) == CountJinja2Blocks("%}", 0, BLOCK) == 0
    ensures CountJinja2Blocks("#}", 0, COMMENT) == 0
  {}

  // ---------- Quotes and parameters ----------

  /** There are parameters as soon as some token had content. */
  lemma {:induction false} TakenSoon(ls: Lines, i: nat, j: nat)
    requires Place(ls, i, j)
    ensures Taken(ls, i, j) == [] <==> BlankBefore(ls, i, j)
    decreases i, j
  {
    hide Lone, Continued, Glue;
    if j > 0 {
      TakenSoon(ls, i, j - 1);
      if BlankBefore(ls, i, j - 1) { BlankStart(ls, i, j - 1); }
    } else if i > 0 {
      TakenSoon(ls, i - 1, |ls[i - 1]|);
    }
  }

  /** The text read so far leaves no quote open. */
  ghost predicate Unquoted(ls: Lines, i: nat, j: nat)
    requires Place(ls, i, j)
  {
    Outside(Read(ls, i, j), |Read(ls, i, j)|)
  }

  lemma QuoteAt(ls: Lines, i: nat, j: nat)
    requires Place(ls, i, j)
    ensures StateAt(ls, i, j).quote == NoQuote <==> Unquoted(ls, i, j)
  {
    hide Outside, Read, StateAt;
    QuotePass(ls, i, j);
    QuoteExactly(Read(ls, i, j), '"');
  }

  /** A token read inside quotes is glued to the last parameter, with the space before it. */
  lemma InsideQuotes(ls: Lines, i: nat, j: nat)
    requires At(ls, i, j) && !Unquoted(ls, i, j)
    ensures Taken(ls, i, j) != [] && Taken(ls, i, j + 1) == Extend(Taken(ls, i, j), Sep(j) + ls[i][j])
  {
    hide Unquoted, StateAt;
    QuoteAt(ls, i, j);
    TakenSoon(ls, i, j);
    if BlankBefore(ls, i, j) { BlankStart(ls, i, j); }
  }

  /** Outside quotes and blocks a token with content starts a parameter. */
  lemma OutsideQuotes(ls: Lines, i: nat, j: nat)
    requires At(ls, i, j) && Unquoted(ls, i, j) && !StateAt(ls, i, j).InBlock() && !Blank(ls[i][j])
    ensures Taken(ls, i, j + 1) == Taken(ls, i, j) + [ls[i][j]]
  {
    hide Unquoted, StateAt;
    QuoteAt(ls, i, j);
  }

  /** `splitArgs` finds its input unbalanced exactly when some mark is unpaired or a block depth is left. */
  lemma UnbalancedMarks(s: string)
    ensures EndState(Chunks(s)) != START <==> !Outside(s, |s|) || EndState(Chunks(s)).InBlock()
  {
    UnbalancedExactly(s);
    QuoteExactly(s, '"');
  }

  lemma ReadLineEnd(ls: Lines, i: nat)
    requires i < |ls|
    ensures Read(ls, i + 1, 0) == Read(ls, i, |ls[i]|) + if i + 1 == |ls| then "" else "\n"
  {
    if i + 1 < |ls| { assert LineText(ls[i + 1], 0) == ""; }
  }

  lemma {:induction false} ReadGrows(ls: Lines, i: nat, j: nat)
    requires Place(ls, i, j)
    ensures Read(ls, i, j) <= Read(ls, |ls|, 0)
    decreases |ls| - i, if i < |ls| then |ls[i]| - j else 0
  {
    hide Read;
    if i < |ls| {
      if j < |ls[i]| {
        ReadToken(ls, i, j);
        ReadGrows(ls, i, j + 1);
      } else {
        ReadLineEnd(ls, i);
        ReadGrows(ls, i + 1, 0);
      }
    }
  }

  /** A quote opened in the first token and not closed before the last character. */
  ghost predicate OneQuote(s: string, p: nat) {
    && p < |s| && Mark(s, p)
    && (forall i | 0 <= i < p :: !Mark(s, i) && s[i] != ' ' && s[i] != '\n')
    && forall i | p < i < |s| - 1 :: !MarkOf(s, i, s[p])
  }

  lemma PrefixMarks(s: string, t: string, i: int)
    requires t <= s && i < |t|
    ensures Mark(t, i) <==> Mark(s, i)
  {}

  /** Every prefix that reaches beyond the opening mark, short of the closing one, leaves the quote open. */
  lemma StillOpen(s: string, p: nat, t: string)
    requires OneQuote(s, p) && t <= s && p < |t| && (t != s || !MarkOf(s, |s| - 1, s[p]))
    ensures QuoteState(t, NoQuote) == In(s[p])
  {
    hide Mark;
    assert t[..|t|] == t;
    forall i | 0 <= i < |t| ensures (Mark(t, i) <==> Mark(s, i)) && t[i] == s[i] { PrefixMarks(s, t, i); }
    if |t| == |s| { assert t == s[..|t|] == s; }
    forall i | p < i < |t| ensures !MarkOf(t, i, t[p]) {
      assert (Mark(t, i) <==> Mark(s, i)) && t[i] == s[i] && t[p] == s[p];
      assert !MarkOf(s, i, s[p]);
    }
    NothingRead(t);
    StaysOutside(t, 0, p);
    Quotes.Opens(t, p, |t|);
  }

  lemma {:induction false} FirstPiece(a: string, b: string, sep: char)
    requires sep !in a
    ensures a <= Split(a + b, sep)[0]
  {
    if a != "" {
      assert (a + b)[1..] == a[1..] + b;
      FirstPiece(a[1..], b, sep);
    }
  }

  lemma FirstToken(s: string, p: nat)
    requires OneQuote(s, p)
    ensures s[..p + 1] <= Chunks(s)[0][0]
  {
    var a := s[..p + 1];
    assert s == a + s[p + 1..];
    FirstPiece(a, s[p + 1..], '\n');
    var line := Split(s, '\n')[0];
    assert line == a + line[p + 1..];
    FirstPiece(a, line[p + 1..], ' ');
  }

  lemma FirstTaken(s: string, p: nat)
    requires OneQuote(s, p)
    ensures |Chunks(s)[0]| >= 1 && OneSoFar(Chunks(s), 0, 1, p)
  {
    var ls := Chunks(s);
    FirstToken(s, p);
    var token := ls[0][0];
    assert token[p] == s[p];
    hide Chunks, QuoteState;
    assert Taken(ls, 0, 0) == [] && StateAt(ls, 0, 0) == START;
    assert Starts(ls, 0, 0) && !Lone(ls, 0, 0);
    assert Taken(ls, 0, 1) == [] + [token];
    assert Read(ls, 0, 0) == "";
    ReadToken(ls, 0, 0);
    assert "" + "" + token == token == [] + token;
    assert !Continued(ls, 0, 0);
  }

  /** All that was read is one parameter, and the line end to come is not escaped. */
  ghost predicate OneSoFar(ls: Lines, i: nat, j: nat, p: nat)
    requires Place(ls, i, j)
  {
    Taken(ls, i, j) == [Read(ls, i, j)] && (i < |ls| ==> !Continued(ls, i, j)) && |Read(ls, i, j)| > p
  }

  lemma TokenGlued(ls: Lines, i: nat, j: nat, p: nat)
    requires At(ls, i, j) && OneSoFar(ls, i, j, p)
    requires StateAt(ls, i, j).quote != NoQuote || (StateAt(ls, i, j).InBlock() && j > 0 && ls[i][j] != "\\")
    ensures OneSoFar(ls, i, j + 1, p)
  {
    hide Read, StateAt;
    ReadToken(ls, i, j);
    var r := Read(ls, i, j);
    assert Glue(ls, i, j) == Sep(j) && !Lone(ls, i, j);
    hide Glue, Lone;
    assert r + (Sep(j) + ls[i][j]) == r + Sep(j) + ls[i][j];
    assert Extend([r], Sep(j) + ls[i][j]) == [r + Sep(j) + ls[i][j]];
  }

  lemma LineGlued(ls: Lines, i: nat, p: nat)
    requires i < |ls| && OneSoFar(ls, i, |ls[i]|, p)
    ensures OneSoFar(ls, i + 1, 0, p)
  {
    hide Read;
    ReadLineEnd(ls, i);
    var r := Read(ls, i, |ls[i]|);
    assert Extend([r], "\n") == [r + "\n"];
    assert r + "" == r;
  }

  lemma NoEmptyLine(s: string, i: nat)
    requires i < |Chunks(s)|
    ensures |Chunks(s)[i]| >= 1
  {
    ReadAll(s);
  }

  lemma {:induction false} AllInOne(s: string, p: nat, i: nat, j: nat)
    requires OneQuote(s, p) && Place(Chunks(s), i, j) && (i > 0 || j > 0)
    ensures OneSoFar(Chunks(s), i, j, p)
    decreases i, j
  {
    var ls := Chunks(s);
    hide Chunks, OneQuote, StateAt, Read, Taken;
    if i == 0 && j == 1 {
      FirstTaken(s, p);
    } else if j > 0 {
      AllInOne(s, p, i, j - 1);
      NotClosedYet(s, p, i, j - 1);
      TokenGlued(ls, i, j - 1, p);
    } else {
      NoEmptyLine(s, i - 1);
      AllInOne(s, p, i - 1, |ls[i - 1]|);
      LineGlued(ls, i - 1, p);
    }
  }

  lemma NotClosedYet(s: string, p: nat, i: nat, j: nat)
    requires OneQuote(s, p) && At(Chunks(s), i, j) && (i > 0 || j > 0) && |Read(Chunks(s), i, j)| > p
    ensures StateAt(Chunks(s), i, j).quote == In(s[p])
  {
    var ls := Chunks(s);
    var t := Read(ls, i, j);
    hide Chunks, QuoteState, OneQuote, StateAt, Read;
    ReadAll(s);
    ReadGrows(ls, i, j);
    ReadGrows(ls, i, j + 1);
    ReadToken(ls, i, j);
    if t == s && MarkOf(s, |s| - 1, s[p]) { EndsLine(ls, i); }
    StillOpen(s, p, t);
    QuotePass(ls, i, j);
  }

  lemma EndsLine(ls: Lines, i: nat)
    requires 0 < i < |ls|
    ensures Read(ls, i, 0) != "" && Read(ls, i, 0)[|Read(ls, i, 0)| - 1] == '\n'
  {}

  /** A quote that opens in the first token and runs to the end keeps spaces and line ends in one parameter. */
  lemma QuotedStaysWhole(s: string, p: nat)
    requires OneQuote(s, p)
    ensures Taken(Chunks(s), |Chunks(s)|, 0) == [s]
  {
    ReadAll(s);
    AllInOne(s, p, |Chunks(s)|, 0);
  }

  /** Words in quotes behind a key: one parameter, for either kind of mark. */
  lemma QuotedValue(key: string, mark: char, words: string)
    requires (mark == '"' || mark == '\'') && (key == "" || key[|key| - 1] != '\\')
    requires forall c <- key :: c != ' ' && c != '\n' && c != '"' && c != '\''
    requires forall c <- words :: c != mark
    ensures Taken(Chunks(key + [mark] + words + [mark]), |Chunks(key + [mark] + words + [mark])|, 0)
            == [key + [mark] + words + [mark]]
  {
    var s := key + [mark] + words + [mark];
    assert OneQuote(s, |key|) by {
      forall i | 0 <= i < |key| ensures s[i] == key[i] && key[i] in key {}
      forall i | |key| < i < |s| - 1 ensures s[i] == words[i - |key| - 1] && words[i - |key| - 1] in words {}
    }
    QuotedStaysWhole(s, |key|);
  }

  // ---------- Blocks and parameters ----------

  /** No character that the tokenizer looks at, apart from the space. */
  ghost predicate Ordinary(text: string) {
    forall c <- text :: c !in {'{', '}', '"', '\'', '\\', '\n'}
  }

  lemma {:induction false} NoTags(token: string, open: char, close: char)
    requires Ordinary(token) && (open == '{' || close == '}')
    ensures Count(token, open, close) == 0
  {
    if |token| >= 2 {
      assert token[0] in token && token[1] in token;
      forall c <- token[1..] ensures c in token {}
      NoTags(token[1..], open, close);
    }
  }

  lemma {:induction false} NoMarks(token: string, q: Quote)
    requires Ordinary(token)
    ensures QuoteState(token, q) == q
  {
    if token != "" {
      assert token[|token| - 1] in token;
      var earlier := token[..|token| - 1];
      forall c <- earlier ensures c in token {}
      NoMarks(earlier, q);
    }
  }

  lemma OrdinaryToken(token: string, st: State)
    requires Ordinary(token)
    ensures Advance(token, st) == st
  {
    NoMarks(token, st.quote);
    NoTags(token, '{', '{');
    NoTags(token, '}', '}');
    NoTags(token, '{', '%');
    NoTags(token, '%', '}');
    NoTags(token, '{', '#');
    NoTags(token, '#', '}');
  }

  predicate IsBlock(b: Block) { b == PRINT || b == BLOCK || b == COMMENT }

  function Opening(b: Block): string { [b.open0, b.open1] }

  function Closing(b: Block): string { [b.close0, b.close1] }

  function InOneBlock(b: Block, words: string): string { Opening(b) + " " + words + " " + Closing(b) }

  lemma NoLineEnd(b: Block, words: string)
    requires IsBlock(b) && Ordinary(words)
    ensures '\n' !in InOneBlock(b, words)
  {}

  lemma BlockChunks(b: Block, words: string)
    requires IsBlock(b) && Ordinary(words)
    ensures Chunks(InOneBlock(b, words)) == [[Opening(b)] + Split(words, ' ') + [Closing(b)]]
  {
    var s := InOneBlock(b, words);
    assert '\n' !in s by { NoLineEnd(b, words); }
    assert ' ' !in Opening(b) && ' ' !in Closing(b);
    assert Chunks(s) == seq(|Split(s, '\n')|, i requires 0 <= i < |Split(s, '\n')| => Split(Split(s, '\n')[i], ' '));
    hide Split, Ordinary;
    SplitWhole(s, '\n');
    SplitAround(Opening(b), ' ', words + " " + Closing(b));
    SplitAround(words, ' ', Closing(b));
    SplitWhole(Opening(b), ' ');
    SplitWhole(Closing(b), ' ');
    assert s == Opening(b) + [' '] + (words + " " + Closing(b));
    assert words + " " + Closing(b) == words + [' '] + Closing(b);
    assert Chunks(s) == [Split(s, ' ')];
    assert Split(s, ' ') == [Opening(b)] + Split(words, ' ') + [Closing(b)];
  }

  lemma OpensOne(b: Block)
    requires IsBlock(b)
    ensures Advance(Opening(b), START).InBlock() && Opening(b) != "\\"
  {
    var o := Opening(b);
    assert o[1..] == [o[1]] && o[2..] == "" && o[..1] == [o[0]] && o[..1][..0] == "";
    assert Count(o[1..], b.open0, b.open1) == Count(o[2..], b.open0, b.open1) == 0;
  }

  lemma {:induction false} WordsGlued(b: Block, words: string, j: nat)
    requires IsBlock(b) && Ordinary(words) && 1 <= j < |Chunks(InOneBlock(b, words))[0]|
    ensures var ls := Chunks(InOneBlock(b, words)); OneSoFar(ls, 0, j, 0) && StateAt(ls, 0, j).InBlock()
  {
    var ls := Chunks(InOneBlock(b, words));
    hide Chunks, Advance, Split, Ordinary, OneSoFar;
    BlockChunks(b, words);
    OpensOne(b);
    if j == 1 {
      assert OneSoFar(ls, 0, 1, 0) by { BlockTaken(ls, b); }
      assert StateAt(ls, 0, 0) == START;
    } else {
      WordsGlued(b, words, j - 1);
      var token := Split(words, ' ')[j - 2];
      assert ls[0][j - 1] == token && token in Split(words, ' ');
      WordIsOrdinary(words, token);
      OrdinaryToken(token, StateAt(ls, 0, j - 1));
      TokenGlued(ls, 0, j - 1, 0);
    }
  }

  lemma WordIsOrdinary(words: string, token: string)
    requires Ordinary(words) && token in Split(words, ' ')
    ensures Ordinary(token) && token != "\\"
  {
    forall c <- token ensures c in words { SplitChars(words, ' ', token, c); }
    assert "\\"[0] in "\\";
  }

  lemma BlockTaken(ls: Lines, b: Block)
    requires IsBlock(b) && ls != [] && |ls[0]| >= 2 && ls[0][0] == Opening(b)
    ensures OneSoFar(ls, 0, 1, 0)
  {
    var token := ls[0][0];
    hide Advance;
    assert Taken(ls, 0, 0) == [] && StateAt(ls, 0, 0) == START;
    assert Starts(ls, 0, 0) && !Lone(ls, 0, 0);
    assert Taken(ls, 0, 1) == [] + [token];
    assert Read(ls, 0, 0) == "";
    ReadToken(ls, 0, 0);
    assert "" + "" + token == token == [] + token;
    assert !Continued(ls, 0, 0);
  }

  /** Words between an opening and a closing tag stay in one parameter, for each of the three kinds of block. */
  lemma BlockStaysWhole(b: Block, words: string)
    requires IsBlock(b) && Ordinary(words)
    ensures var s := InOneBlock(b, words); Taken(Chunks(s), |Chunks(s)|, 0) == [s]
  {
    var s := InOneBlock(b, words);
    var ls := Chunks(s);
    hide Chunks, Split, Ordinary, Read;
    BlockChunks(b, words);
    var n := |ls[0]| - 1;
    WordsGlued(b, words, n);
    assert ls[0][n] == Closing(b) && Closing(b) != "\\";
    TokenGlued(ls, 0, n, 0);
    LineGlued(ls, 0, 0);
    ReadAll(s);
  }
}
