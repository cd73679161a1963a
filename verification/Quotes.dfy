/**
 Quote marks: which of them open and which close, said by their positions in a text, and the single
 left-to-right pass that finds it out.
 */
module Quotes {

  // ---------- Positions ----------

  /** A quote mark that no backslash stands right before. */
  predicate Mark(text: string, i: int) {
    0 <= i < |text| && (text[i] == '"' || text[i] == '\'') && !(i > 0 && text[i - 1] == '\\')
  }

  predicate MarkOf(text: string, i: int, mark: char) { Mark(text, i) && text[i] == mark }

  /** A quoted stretch of text, from its opening to its closing mark. */
  datatype Span = Span(open: nat, close: nat)

  /** A mark, and the next mark of the same kind. */
  ghost predicate IsSpan(text: string, end: nat, s: Span) {
    && s.open < s.close < end
    && Mark(text, s.open) && MarkOf(text, s.close, text[s.open])
    && forall i | s.open < i < s.close :: !MarkOf(text, i, text[s.open])
  }

  predicate Inside(s: Span, i: int) { s.open <= i <= s.close }

  ghost predicate Covered(spans: seq<Span>, i: int) { exists k :: 0 <= k < |spans| && Inside(spans[k], i) }

  /** The spans follow each other, and the first `end` characters have no mark outside them. */
  ghost predicate Balanced(text: string, end: nat, spans: seq<Span>) {
    && (forall k | 0 <= k < |spans| :: IsSpan(text, end, spans[k]))
    && (forall k, l | 0 <= k < l < |spans| :: spans[k].close < spans[l].open)
    && (forall i | 0 <= i < end && Mark(text, i) :: Covered(spans, i))
  }

  /** Every mark in the first `end` characters belongs to a quoted stretch: position `end` is outside quotes. */
  ghost predicate Outside(text: string, end: nat) { exists spans :: Balanced(text, end, spans) }

  /** The mark at `p` stands outside quotes, and no mark of its kind follows before `end`. */
  ghost predicate OpenedAt(text: string, end: nat, mark: char, p: nat) {
    p < end && MarkOf(text, p, mark) && Outside(text, p) && forall i | p < i < end :: !MarkOf(text, i, mark)
  }

  ghost predicate LeftOpen(text: string, end: nat, mark: char) { exists p :: OpenedAt(text, end, mark, p) }

  // ---------- The pass ----------

  datatype Quote = NoQuote | In(mark: char)

  /** What an unescaped quote mark does to the state; every other character leaves it alone. */
  function QuoteStep(c: char, escaped: bool, q: Quote): Quote {
    if (c == '"' || c == '\'') && !escaped then
      if q == NoQuote then In(c) else if q == In(c) then NoQuote else q
    else q
  }

  /** One left-to-right pass over a text; a mark is escaped when a backslash stands right before it. */
  function QuoteState(text: string, q: Quote): Quote {
    if text == "" then q
    else
      var n := |text| - 1;
      QuoteStep(text[n], n > 0 && text[n - 1] == '\\', QuoteState(text[..n], q))
  }

  /** The state after the first `n` characters. */
  function After(text: string, n: nat): Quote
    requires n <= |text|
  {
    QuoteState(text[..n], NoQuote)
  }

  lemma AfterStep(text: string, n: nat)
    requires n < |text|
    ensures !Mark(text, n) ==> After(text, n + 1) == After(text, n)
    ensures Mark(text, n) ==>
      After(text, n + 1) == if After(text, n) == NoQuote then In(text[n])
                            else if After(text, n) == In(text[n]) then NoQuote else After(text, n)
  {
    assert text[..n + 1][..n] == text[..n];
  }

  lemma {:induction false} StaysOpen(text: string, from: nat, end: nat, mark: char)
    requires from <= end <= |text| && After(text, from) == In(mark)
    requires forall i | from <= i < end :: !MarkOf(text, i, mark)
    ensures After(text, end) == In(mark)
  {
    hide After;
    if from < end {
      var n := end - 1;
      StaysOpen(text, from, n, mark);
      AfterStep(text, n);
      assert !MarkOf(text, n, mark);
    }
  }

  lemma {:induction false} StaysOutside(text: string, from: nat, end: nat)
    requires from <= end <= |text| && After(text, from) == NoQuote
    requires forall i | from <= i < end :: !Mark(text, i)
    ensures After(text, end) == NoQuote
  {
    hide After;
    if from < end {
      StaysOutside(text, from, end - 1);
      AfterStep(text, end - 1);
    }
  }

  /** From an opening mark on, up to the next mark of its kind. */
  lemma Opens(text: string, p: nat, end: nat)
    requires p < end <= |text| && Mark(text, p) && After(text, p) == NoQuote
    requires forall i | p < i < end :: !MarkOf(text, i, text[p])
    ensures After(text, end) == In(text[p])
  {
    hide After;
    AfterStep(text, p);
    StaysOpen(text, p + 1, end, text[p]);
  }

  lemma WithoutLast(text: string, end: nat, spans: seq<Span>)
    requires Balanced(text, end, spans) && spans != []
    ensures Balanced(text, spans[|spans| - 1].open, spans[..|spans| - 1])
  {
    hide Mark, MarkOf;
    var n := |spans| - 1;
    var last, earlier := spans[n], spans[..n];
    assert IsSpan(text, end, last);
    forall i | 0 <= i < last.open && Mark(text, i) ensures Covered(earlier, i) {
      CoveredBefore(spans, n, i);
    }
    forall k | 0 <= k < n ensures IsSpan(text, last.open, earlier[k]) {
      assert earlier[k] == spans[k] && spans[k].close < spans[n].open;
    }
  }

  lemma CoveredBefore(spans: seq<Span>, n: nat, i: int)
    requires |spans| == n + 1 && Covered(spans, i) && i < spans[n].open
    ensures Covered(spans[..n], i)
  {
    var k :| 0 <= k < |spans| && Inside(spans[k], i);
    assert k < n && Inside(spans[..n][k], i);
  }

  lemma NoneAfter(spans: seq<Span>, n: nat, i: int)
    requires |spans| == n + 1 && spans[n].open <= spans[n].close < i
    requires forall k, l | 0 <= k < l < |spans| :: spans[k].close < spans[l].open
    ensures !Covered(spans, i)
  {
    forall k | 0 <= k < |spans| ensures !Inside(spans[k], i) {
      assert k < n ==> spans[k].close < spans[n].open;
    }
  }

  /** A text whose marks pair up leaves no quote open. */
  lemma {:induction false} BalancedEnds(text: string, end: nat, spans: seq<Span>)
    requires end <= |text| && Balanced(text, end, spans)
    ensures After(text, end) == NoQuote
  {
    hide After;
    if spans == [] {
      assert After(text, 0) == NoQuote by { NothingRead(text); }
      assert forall i :: !Covered(spans, i);
      StaysOutside(text, 0, end);
    } else {
      var n := |spans| - 1;
      var last := spans[n];
      assert IsSpan(text, end, last);
      WithoutLast(text, end, spans);
      BalancedEnds(text, last.open, spans[..n]);
      Opens(text, last.open, last.close);
      AfterStep(text, last.close);
      forall i | last.close < i < end ensures !Mark(text, i) {
        NoneAfter(spans, n, i);
      }
      StaysOutside(text, last.close + 1, end);
    }
  }

  lemma NothingRead(text: string)
    ensures After(text, 0) == NoQuote && Outside(text, 0)
  {
    assert Balanced(text, 0, []);
  }

  lemma Widened(text: string, end: nat, spans: seq<Span>)
    requires Balanced(text, end, spans) && !Mark(text, end)
    ensures Balanced(text, end + 1, spans)
  {
    hide Mark, MarkOf, Covered;
    forall k | 0 <= k < |spans| ensures IsSpan(text, end + 1, spans[k]) {}
  }

  lemma ClosedBy(text: string, end: nat, mark: char, p: nat, spans: seq<Span>)
    requires p < end && MarkOf(text, p, mark) && MarkOf(text, end, mark) && Balanced(text, p, spans)
    requires forall i | p < i < end :: !MarkOf(text, i, mark)
    ensures Balanced(text, end + 1, spans + [Span(p, end)])
  {
    hide Mark, Covered;
    var all := spans + [Span(p, end)];
    forall i | 0 <= i < end + 1 && Mark(text, i) ensures Covered(all, i) { CoveredByMore(spans, Span(p, end), i); }
    forall k | 0 <= k < |all| ensures IsSpan(text, end + 1, all[k]) {
      if k < |spans| { assert IsSpan(text, p, spans[k]); }
    }
    forall k, l | 0 <= k < l < |all| ensures all[k].close < all[l].open {
      if l == |spans| { assert IsSpan(text, p, spans[k]); }
    }
  }

  lemma CoveredByMore(spans: seq<Span>, last: Span, i: int)
    requires Covered(spans, i) || Inside(last, i)
    ensures Covered(spans + [last], i)
  {
    var all := spans + [last];
    if Covered(spans, i) {
      var k :| 0 <= k < |spans| && Inside(spans[k], i);
      assert Inside(all[k], i);
    } else {
      assert Inside(all[|spans|], i);
    }
  }

  /** What the pass says is so: outside quotes every mark is paired, inside there is an opening mark. */
  lemma {:induction false} PassFinds(text: string, end: nat)
    requires end <= |text|
    ensures After(text, end) == NoQuote ==> Outside(text, end)
    ensures After(text, end).In? ==> LeftOpen(text, end, After(text, end).mark)
  {
    hide After, Mark, Balanced;
    if end == 0 {
      NothingRead(text);
    } else {
      var n := end - 1;
      PassFinds(text, n);
      AfterStep(text, n);
      var q := After(text, n);
      if q == NoQuote {
        if Mark(text, n) {
          assert OpenedAt(text, end, text[n], n);
        } else {
          var spans :| Balanced(text, n, spans);
          Widened(text, n, spans);
        }
      } else {
        var p :| OpenedAt(text, n, q.mark, p);
        if MarkOf(text, n, q.mark) {
          var spans :| Balanced(text, p, spans);
          ClosedBy(text, n, q.mark, p, spans);
        } else {
          assert OpenedAt(text, end, q.mark, p);
        }
      }
    }
  }

  /**
   The pass over a text ends outside quotes exactly when every mark belongs to a quoted stretch, and inside quotes
   of one kind exactly when a mark of that kind stands outside quotes and is the last of its kind.
   */
  lemma QuoteExactly(text: string, mark: char)
    ensures QuoteState(text, NoQuote) == NoQuote <==> Outside(text, |text|)
    ensures QuoteState(text, NoQuote) == In(mark) <==> LeftOpen(text, |text|, mark)
  {
    hide QuoteState, Balanced, Mark;
    var n := |text|;
    assert text[..n] == text;
    PassFinds(text, n);
    if spans :| Balanced(text, n, spans) { BalancedEnds(text, n, spans); }
    if p :| OpenedAt(text, n, mark, p) {
      var spans :| Balanced(text, p, spans);
      BalancedEnds(text, p, spans);
      Opens(text, p, n);
    }
  }

  // ---------- One piece of a text ----------

  /** The text that leaves a state behind: nothing, or the mark that opened the quote. */
  function Lead(q: Quote): string { if q == NoQuote then "" else [q.mark] }

  predicate Possible(q: Quote) { q == NoQuote || q == In('"') || q == In('\'') }

  method GetQuoteState(token: string, quoteChar: Quote) returns (q: Quote)
    ensures q == QuoteState(token, quoteChar)
    ensures Possible(quoteChar) ==> Possible(q)
    ensures Possible(quoteChar) ==> var text := Lead(quoteChar) + token;
      && (q == NoQuote <==> Outside(text, |text|))
      && forall mark :: q == In(mark) <==> LeftOpen(text, |text|, mark)
  {
    hide Outside, LeftOpen;
    q := quoteChar;
    var prevCharIsEscape := false;
    for idx := 0 to |token|
      invariant q == QuoteState(token[..idx], quoteChar)
      invariant Possible(quoteChar) ==> Possible(q)
      invariant idx == 0 ==> !prevCharIsEscape
    {
      if idx > 0 {
        prevCharIsEscape := token[idx - 1] == '\\';
      }
      var c := token[idx];
      assert token[..idx + 1][..idx] == token[..idx];
      if (c == '"' || c == '\'') && !prevCharIsEscape {
        if q != NoQuote {
          if q == In(c) {
            q := NoQuote;
          }
        } else {
          q := In(c);
        }
      }
    }
    assert token[..|token|] == token;
    if Possible(quoteChar) { LeadStands(token, quoteChar); }
  }

  /** Starting inside quotes is starting with the mark that opened them. */
  lemma LeadStands(token: string, q: Quote)
    requires Possible(q)
    ensures var text := Lead(q) + token;
      && (QuoteState(token, q) == NoQuote <==> Outside(text, |text|))
      && forall mark :: QuoteState(token, q) == In(mark) <==> LeftOpen(text, |text|, mark)
  {
    var text := Lead(q) + token;
    assert QuoteState(Lead(q), NoQuote) == q by { assert Lead(q) != "" ==> Lead(q)[..0] == ""; }
    hide QuoteState, Outside, LeftOpen;
    QuoteConcat(Lead(q), token, NoQuote);
    forall mark ensures QuoteState(token, q) == In(mark) <==> LeftOpen(text, |text|, mark) {
      QuoteExactly(text, mark);
    }
    QuoteExactly(text, '"');
  }

  /** Tracking piece by piece equals one pass, as long as no piece ends in a backslash. */
  lemma {:induction false} QuoteConcat(a: string, b: string, q: Quote)
    requires a == "" || a[|a| - 1] != '\\'
    ensures QuoteState(a + b, q) == QuoteState(b, QuoteState(a, q))
  {
    if b == "" {
      assert a + b == a;
    } else {
      var n := |b| - 1;
      QuoteConcat(a, b[..n], q);
      assert (a + b)[..|a + b| - 1] == a + b[..n];
    }
  }
}
