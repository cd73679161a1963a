/** Go's `strings.Split`, `strings.Join` and `strings.TrimSpace`, and the laws that tie the first two together. */
module Text {

  /** `strings.Split(s, sep)` for a one-character separator. */
  function Split(s: string, sep: char): (parts: seq<string>)
    ensures |parts| >= 1
  {
    if s == "" then [""]
    else
      var rest := Split(s[1..], sep);
      if s[0] == sep then [""] + rest else [[s[0]] + rest[0]] + rest[1..]
  }

  /** `strings.Join(parts, sep)` for a one-character separator. */
  function Join(parts: seq<string>, sep: char): string {
    if |parts| == 0 then ""
    else if |parts| == 1 then parts[0]
    else Join(parts[..|parts| - 1], sep) + [sep] + parts[|parts| - 1]
  }

  /** Joining on the left: the form in which `Split` takes a string apart. */
  lemma {:induction false} JoinCons(parts: seq<string>, sep: char)
    requires |parts| >= 2
    ensures Join(parts, sep) == parts[0] + [sep] + Join(parts[1..], sep)
  {
    var n := |parts| - 1;
    if n > 1 {
      JoinCons(parts[..n], sep);
      assert parts[..n][1..] == parts[1..][..n - 1];
    } else {
      assert parts[..1] == [parts[0]] && parts[1..] == [parts[1]];
    }
  }

  /** Splitting loses nothing. */
  lemma {:induction false} JoinSplit(s: string, sep: char)
    ensures Join(Split(s, sep), sep) == s
  {
    if s != "" {
      var rest, parts := Split(s[1..], sep), Split(s, sep);
      JoinSplit(s[1..], sep);
      if s[0] == sep {
        JoinCons(parts, sep);
        assert parts[1..] == rest;
      } else if |rest| >= 2 {
        JoinCons(parts, sep);
        JoinCons(rest, sep);
        assert parts[1..] == rest[1..];
      }
    }
  }

  /** A text without the separator is one piece. */
  lemma {:induction false} SplitWhole(p: string, sep: char)
    requires sep !in p
    ensures Split(p, sep) == [p]
  {
    if p != "" {
      SplitWhole(p[1..], sep);
      assert p == [p[0]] + p[1..];
    }
  }

  /** How the first character goes into the pieces. */
  lemma SplitCons(c: char, rest: string, sep: char)
    ensures var parts := Split(rest, sep);
            Split([c] + rest, sep) == if c == sep then [""] + parts else [[c] + parts[0]] + parts[1..]
  {
    assert ([c] + rest)[1..] == rest;
  }

  lemma SplitNothing(sep: char)
    ensures Split("", sep) == [""]
  {}

  /** A separator divides the pieces of what stands before it from those of what stands after it. */
  lemma {:induction false} SplitAround(a: string, sep: char, b: string)
    ensures Split(a + [sep] + b, sep) == Split(a, sep) + Split(b, sep)
  {
    hide Split;
    SplitNothing(sep);
    if a == "" {
      assert a + [sep] + b == [sep] + b;
      SplitCons(sep, b, sep);
    } else {
      var c, rest := a[0], a[1..];
      assert a == [c] + rest && a + [sep] + b == [c] + (rest + [sep] + b);
      SplitAround(rest, sep, b);
      SplitCons(c, rest, sep);
      SplitCons(c, rest + [sep] + b, sep);
    }
  }

  /** Joining pieces that do not contain the separator loses nothing either. */
  lemma {:induction false} SplitJoin(parts: seq<string>, sep: char)
    requires |parts| >= 1
    requires forall p <- parts :: sep !in p
    ensures Split(Join(parts, sep), sep) == parts
  {
    hide Split;
    var n := |parts| - 1;
    SplitWhole(parts[n], sep);
    if n > 0 {
      SplitJoin(parts[..n], sep);
      SplitAround(Join(parts[..n], sep), sep, parts[n]);
    }
  }

  /** The pieces hold only characters of the string, and never the separator. */
  lemma {:induction false} SplitChars(s: string, sep: char, p: string, c: char)
    requires p in Split(s, sep) && c in p
    ensures c in s && c != sep
  {
    var rest := Split(s[1..], sep);
    if p in rest {
      SplitChars(s[1..], sep, p, c);
    } else {
      assert p == [s[0]] + rest[0];
      if c in rest[0] { SplitChars(s[1..], sep, rest[0], c); }
    }
  }

  /** White space as `strings.TrimSpace` knows it. */
  predicate IsSpace(c: char) {
    c in "\t\n\U{0B}\U{0C}\r \U{85}\U{A0}\U{1680}\U{2028}\U{2029}\U{202F}\U{205F}\U{3000}" ||
        '\U{2000}' <= c <= '\U{200A}'
  }

  function TrimLeft(s: string): string {
    if s != "" && IsSpace(s[0]) then TrimLeft(s[1..]) else s
  }

  function TrimRight(s: string): string {
    if s != "" && IsSpace(s[|s| - 1]) then TrimRight(s[..|s| - 1]) else s
  }

  function TrimSpace(s: string): string { TrimRight(TrimLeft(s)) }

  ghost predicate AllSpace(s: string) { forall c <- s :: IsSpace(c) }

  /** Nothing to trim at either end. */
  predicate Trim(s: string) { s == "" || (!IsSpace(s[0]) && !IsSpace(s[|s| - 1])) }

  lemma {:induction false} TrimmedLeft(s: string) returns (a: string)
    ensures AllSpace(a) && s == a + TrimLeft(s)
    ensures TrimLeft(s) == "" || !IsSpace(TrimLeft(s)[0])
  {
    hide IsSpace;
    if s != "" && IsSpace(s[0]) {
      var rest := TrimmedLeft(s[1..]);
      a := [s[0]] + rest;
      assert s == [s[0]] + s[1..] == [s[0]] + (rest + TrimLeft(s[1..])) == a + TrimLeft(s[1..]);
    } else {
      a := "";
    }
  }

  lemma {:induction false} TrimmedRight(s: string) returns (b: string)
    ensures AllSpace(b) && s == TrimRight(s) + b
    ensures TrimRight(s) == "" || !IsSpace(TrimRight(s)[|TrimRight(s)| - 1])
  {
    hide IsSpace;
    if s != "" && IsSpace(s[|s| - 1]) {
      var n := |s| - 1;
      var rest := TrimmedRight(s[..n]);
      b := rest + [s[n]];
      assert s == s[..n] + [s[n]] == (TrimRight(s[..n]) + rest) + [s[n]] == TrimRight(s[..n]) + b;
    } else {
      b := "";
    }
  }

  /** Trimming takes white space off both ends, and all of it. */
  lemma TrimExactly(s: string) returns (a: string, b: string)
    ensures s == a + TrimSpace(s) + b && AllSpace(a) && AllSpace(b) && Trim(TrimSpace(s))
  {
    hide IsSpace, TrimLeft, TrimRight;
    a := TrimmedLeft(s);
    b := TrimmedRight(TrimLeft(s));
  }
}
