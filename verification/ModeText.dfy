/**
 What symbolic modes mean, read off the text: which permissions each class of users has afterwards, and how a
 text with several clauses or several operators is made up of texts with one.
 */
module ModeText {
  import opened Text
  import opened Mode

  // ---------- Permissions of the three classes ----------

  /** The bit of the mode that lets a class read, write or execute. */
  function Flag(user: char, letter: char): Bits
    requires IsUser(user) && IsRwx(letter)
  {
    match user
    case 'u' => if letter == 'r' then 0x100 else if letter == 'w' then 0x80 else 0x40
    case 'g' => if letter == 'r' then 0x20 else if letter == 'w' then 0x10 else 0x8
    case _ => if letter == 'r' then 0x4 else if letter == 'w' then 0x2 else 0x1
  }

  predicate May(mode: Bits, user: char, letter: char)
    requires IsUser(user) && IsRwx(letter)
  {
    Meets(mode, Flag(user, letter))
  }

  /** Somebody may execute the file. */
  predicate Executable(mode: Bits) { May(mode, 'u', 'x') || May(mode, 'g', 'x') || May(mode, 'o', 'x') }

  /**
   When letter `c` given to a class asks for permission `want`: it is that letter, unless the clause has no users and
   the umask withholds it; it names a class that has the permission on the file; or it is `X` on a directory or on a
   file that somebody may execute.
   */
  predicate Asks(stat: FileInfo, umask: Bits, unnamed: bool, user: char, c: char, want: char)
    requires IsUser(user) && IsRwx(want)
  {
    || (c == want && !(unnamed && May(umask, user, want)))
    || (IsUser(c) && May(SyscallMode(stat.mode), c, want))
    || (c == 'X' && want == 'x' && (stat.isDir || Executable(SyscallMode(stat.mode))))
  }

  ghost predicate Agree(stat: FileInfo, umask: Bits, unnamed: bool, user: char, c: char, want: char)
    requires IsUser(user) && IsPerm(c) && IsRwx(want)
  {
    May(PermBit(stat, umask, unnamed, user, c), user, want) <==> Asks(stat, umask, unnamed, user, c, want)
  }

  /** The flags of a class are the three bits of its digit. */
  function Weight(letter: char): Bits { if letter == 'r' then 4 else if letter == 'w' then 2 else 1 }

  lemma UserFlags(mode: Bits)
    ensures Meets(mode, 0x100) <==> Meets((mode & IRWXU) >> 6, 4)
    ensures Meets(mode, 0x80) <==> Meets((mode & IRWXU) >> 6, 2)
    ensures Meets(mode, 0x40) <==> Meets((mode & IRWXU) >> 6, 1)
  {}

  lemma GroupFlags(mode: Bits)
    ensures Meets(mode, 0x20) <==> Meets((mode & IRWXG) >> 3, 4)
    ensures Meets(mode, 0x10) <==> Meets((mode & IRWXG) >> 3, 2)
    ensures Meets(mode, 0x8) <==> Meets((mode & IRWXG) >> 3, 1)
  {}

  lemma OtherFlags(mode: Bits)
    ensures Meets(mode, 4) <==> Meets(mode & IRWXO, 4)
    ensures Meets(mode, 2) <==> Meets(mode & IRWXO, 2)
    ensures Meets(mode, 1) <==> Meets(mode & IRWXO, 1)
  {}

  lemma FlagInDigit(mode: Bits, user: char, want: char)
    requires IsUser(user) && IsRwx(want)
    ensures May(mode, user, want) <==> Meets(Digit(user, mode), Weight(want))
  {
    hide Meets;
    if user == 'u' { UserFlags(mode); } else if user == 'g' { GroupFlags(mode); } else { OtherFlags(mode); }
  }

  lemma MaskedWeight(d: Bits, c: char, want: char)
    requires IsRwx(c) && IsRwx(want)
    ensures Meets(Weight(c) & !d, Weight(want)) <==> c == want && !Meets(d, Weight(want))
    ensures Meets(Weight(c) & 7, Weight(want)) <==> c == want
  {}

  lemma ExecutableBits(mode: Bits)
    ensures Executable(mode) <==> mode & EXEC_BITS != 0
  {
    hide Meets;
    JoinMeets(0x49, 0x48, 0x1, mode);
    JoinMeets(0x48, 0x40, 0x8, mode);
    Turned(mode, 0x40);
    Turned(mode, 0x8);
    Turned(mode, 0x1);
    Turned(mode, 0x49);
  }

  lemma Turned(x: Bits, y: Bits)
    ensures Meets(x, y) <==> Meets(y, x)
    ensures Meets(x, y) <==> x & y != 0
  {
    assert x & y == y & x;
  }

  lemma WeightOfOne(want: char)
    requires IsRwx(want)
    ensures Meets(1, Weight(want)) <==> want == 'x'
    ensures !Meets(0, Weight(want))
  {}

  lemma LetterAsks(stat: FileInfo, umask: Bits, unnamed: bool, user: char, c: char, want: char)
    requires IsUser(user) && IsPerm(c) && IsRwx(want)
    ensures Agree(stat, umask, unnamed, user, c, want)
  {
    hide SyscallMode, May, PermBit, Flag, Executable, Digit, Meets, NamesSpecial, Weight;
    LetterMeaning(stat, umask, unnamed, user, c);
    FlagInDigit(PermBit(stat, umask, unnamed, user, c), user, want);
    if IsRwx(c) {
      MaskedWeight(Digit(user, umask), c, want);
      FlagInDigit(umask, user, want);
      assert Weight(c) == if c == 'r' then 4 else if c == 'w' then 2 else 1 by { WeightIs(c); }
    } else if IsUser(c) {
      FlagInDigit(SyscallMode(stat.mode), c, want);
    } else {
      WeightOfOne(want);
      ExecutableBits(SyscallMode(stat.mode));
    }
  }

  lemma WeightIs(c: char)
    ensures Weight(c) == if c == 'r' then 4 else if c == 'w' then 2 else 1
  {}

  /** A text of letters grants a class what some letter of it asks for. */
  lemma LettersAsk(stat: FileInfo, umask: Bits, unnamed: bool, user: char, perms: string, want: char)
    requires IsUser(user) && IsRwx(want) && forall c <- perms :: IsPerm(c)
    ensures May(PermsBits(stat, umask, unnamed, user, perms), user, want)
       <==> exists c <- perms :: Asks(stat, umask, unnamed, user, c, want)
  {
    hide PermBit, PermsBits, Asks, Flag, Meets;
    LettersUnite(stat, umask, unnamed, user, perms, Flag(user, want));
    forall c <- perms ensures Agree(stat, umask, unnamed, user, c, want) {
      LetterAsks(stat, umask, unnamed, user, c, want);
    }
  }

  // ---------- One operator ----------

  /** The permission of a class after an operator; "=" takes nothing away from others. */
  predicate Changed(op: char, user: char, before: bool, asked: bool) {
    if op == '+' then before || asked
    else if op == '-' then before && !asked
    else asked || (user == 'o' && before)
  }

  /** Bits within one class name no permission of another. */
  lemma Elsewhere(user: char, bits: Bits, v: char, want: char)
    requires IsUser(user) && InClass(user, bits) && IsUser(v) && v != user && IsRwx(want)
    ensures !May(bits, v, want)
  {}

  lemma AddFlag(a: Action, m: Bits, v: char, want: char)
    requires WellFormed(a) && a.op == '+' && IsUser(v) && IsRwx(want)
    ensures May(Apply(a, m), v, want) <==> May(m, v, want) || (v == a.user && May(a.bits, v, want))
  {
    hide Meets, Flag, InClass, Apply, Joined, Without, AllOrNone;
    if v != a.user { Elsewhere(a.user, a.bits, v, want); }
    Added(a, m);
    JoinMeets(Apply(a, m), m, a.bits, Flag(v, want));
  }

  lemma Added(a: Action, m: Bits)
    requires a.op == '+'
    ensures Joined(Apply(a, m), m, a.bits)
  {}

  lemma AllOrNothing(bits: Bits, v: char, want: char)
    requires IsUser(v) && IsRwx(want)
    ensures AllOrNone(bits, Flag(v, want))
  {}

  lemma Cleared(m: Bits, bits: Bits, b: Bits)
    requires bits & b == 0 || bits & b == b
    ensures Meets(m & !bits, b) <==> Meets(m, b) && !Meets(bits, b)
  {
    if bits & b == 0 {
      WithoutLoss(m, bits, b);
    } else {
      AllLost(m, bits, b);
    }
  }

  lemma WithoutLoss(m: Bits, bits: Bits, b: Bits)
    requires bits & b == 0
    ensures m & !bits & b == m & b
  {}

  lemma AllLost(m: Bits, bits: Bits, b: Bits)
    requires bits & b == b
    ensures m & !bits & b == 0
    ensures b == 0 ==> m & b == 0
  {}

  predicate Without(p: Bits, m: Bits, bits: Bits) { p == m & !bits }

  ghost predicate AllOrNone(bits: Bits, b: Bits) { bits & b == 0 || bits & b == b }

  lemma ClearedMeets(p: Bits, m: Bits, bits: Bits, b: Bits)
    requires Without(p, m, bits) && AllOrNone(bits, b)
    ensures Meets(p, b) <==> Meets(m, b) && !Meets(bits, b)
  {
    hide Meets;
    Cleared(m, bits, b);
  }

  lemma RemoveFlag(a: Action, m: Bits, v: char, want: char)
    requires WellFormed(a) && a.op == '-' && IsUser(v) && IsRwx(want)
    ensures May(Apply(a, m), v, want) <==> May(m, v, want) && !(v == a.user && May(a.bits, v, want))
  {
    hide Meets, Flag, InClass, Apply, Joined, Without, AllOrNone;
    if v != a.user { Elsewhere(a.user, a.bits, v, want); }
    Removed(a, m);
    AllOrNothing(a.bits, v, want);
    ClearedMeets(Apply(a, m), m, a.bits, Flag(v, want));
  }

  lemma Removed(a: Action, m: Bits)
    requires a.op == '-'
    ensures Without(Apply(a, m), m, a.bits)
  {
    RemoveIsMasks(a.user, a.bits, m);
  }

  /** What an assignment leaves before it sets its bits. */
  function Left(user: char, m: Bits): Bits {
    m & if user == 'u' then 0x83F else if user == 'g' then 0x5C7 else 0x1FF
  }

  /** What "=" keeps before it sets anything: everything but its own class, and for others everything. */
  lemma KeptOfUser(m: Bits, v: char, want: char)
    requires IsUser(v) && IsRwx(want)
    ensures May(Left('u', m), v, want) <==> May(m, v, want) && v != 'u'
  {
    hide Meets;
    Passes(m, 0x83F, Flag(v, want));
  }

  lemma KeptOfGroup(m: Bits, v: char, want: char)
    requires IsUser(v) && IsRwx(want)
    ensures May(Left('g', m), v, want) <==> May(m, v, want) && v != 'g'
  {
    hide Meets;
    Passes(m, 0x5C7, Flag(v, want));
  }

  lemma KeptOfOthers(m: Bits, v: char, want: char)
    requires IsUser(v) && IsRwx(want)
    ensures May(Left('o', m), v, want) <==> May(m, v, want)
  {
    hide Meets;
    Passes(m, 0x1FF, Flag(v, want));
  }

  lemma Passes(m: Bits, k: Bits, b: Bits)
    ensures k & b == b ==> (Meets(m & k, b) <==> Meets(m, b))
    ensures k & b == 0 ==> !Meets(m & k, b)
  {
    if k & b == b { Through(m, k, b); }
    if k & b == 0 { Stopped(m, k, b); }
  }

  lemma Through(m: Bits, k: Bits, b: Bits)
    requires k & b == b
    ensures m & k & b == m & b
  {}

  lemma Stopped(m: Bits, k: Bits, b: Bits)
    requires k & b == 0
    ensures m & k & b == 0
  {}

  lemma Assigned(a: Action, m: Bits)
    requires IsUser(a.user) && a.op == '='
    ensures Joined(Apply(a, m), Left(a.user, m), a.bits)
  {
  }

  lemma LeftFlag(user: char, m: Bits, v: char, want: char)
    requires IsUser(user) && IsUser(v) && IsRwx(want)
    ensures May(Left(user, m), v, want) <==> May(m, v, want) && (v != user || v == 'o')
  {
    hide May, Left;
    if user == 'u' { KeptOfUser(m, v, want); }
    else if user == 'g' { KeptOfGroup(m, v, want); }
    else { KeptOfOthers(m, v, want); }
  }

  lemma AssignFlag(a: Action, m: Bits, v: char, want: char)
    requires WellFormed(a) && a.op == '=' && IsUser(v) && IsRwx(want)
    ensures May(Apply(a, m), v, want) <==>
            if v == a.user then Changed('=', v, May(m, v, want), May(a.bits, v, want)) else May(m, v, want)
  {
    hide Meets, Flag, InClass, Apply, Joined, Left;
    if v != a.user { Elsewhere(a.user, a.bits, v, want); }
    Assigned(a, m);
    LeftFlag(a.user, m, v, want);
    JoinMeets(Apply(a, m), Left(a.user, m), a.bits, Flag(v, want));
  }

  /** An action changes permissions of its own class only. */
  lemma ActionFlag(a: Action, m: Bits, v: char, want: char)
    requires WellFormed(a) && IsUser(v) && IsRwx(want)
    ensures May(Apply(a, m), v, want) <==>
            if v == a.user then Changed(a.op, v, May(m, v, want), May(a.bits, v, want)) else May(m, v, want)
  {
    hide May, Apply;
    if a.op == '+' { AddFlag(a, m, v, want); }
    else if a.op == '-' { RemoveFlag(a, m, v, want); }
    else { AssignFlag(a, m, v, want); }
  }

  /** An operator with its letters, for the first `n` users of the clause. */
  lemma {:induction false} UsersChange(stat: FileInfo, umask: Bits, c: Clause, item: Item, n: nat, m: Bits,
      v: char, want: char)
    requires Legal(c) && item in c.items && IsOperator(item.op) && n <= |Users(c)| && IsUser(v) && IsRwx(want)
    ensures forall a <- ItemActions(stat, umask, c, item, n) :: IsOperator(a.op)
    ensures May(Run(ItemActions(stat, umask, c, item, n), m), v, want) <==>
            if v !in Users(c)[..n] then May(m, v, want)
            else Changed(item.op, v, May(m, v, want),
                     exists p <- item.perms :: Asks(stat, umask, c.users == "", v, p, want))
  {
    hide May, Asks, PermsBits, Apply, Run, InClass, Users;
    if n == 0 {
      RunNothing(m);
    } else {
      var user := Users(c)[n - 1];
      var earlier := ItemActions(stat, umask, c, item, n - 1);
      var a := Action(user, item.op, PermsBits(stat, umask, c.users == "", user, item.perms));
      UsersChange(stat, umask, c, item, n - 1, m, v, want);
      RunAppend(earlier, a, m);
      PermsBitsInClass(stat, umask, c.users == "", user, item.perms);
      ActionFlag(a, Run(earlier, m), v, want);
      if v == user { LettersAsk(stat, umask, c.users == "", v, item.perms, want); }
      assert Users(c)[..n] == Users(c)[..n - 1] + [user];
    }
  }

  // ---------- Cutting a text ----------

  /** Text without operators. */
  ghost predicate Bare(text: string) { forall ch <- text :: !IsOperator(ch) && ch != ',' }

  lemma {:induction false} CutBare(text: string)
    requires Bare(text)
    ensures Cut(text) == Clause(text, [])
  {
    if text != "" {
      CutBare(text[1..]);
      assert text == [text[0]] + text[1..];
    }
  }

  predicate Opens(text: string) { text != "" && IsOperator(text[0]) }

  lemma CutNothing()
    ensures Cut("") == Clause("", [])
  {}

  lemma CutOpening(text: string)
    requires Opens(text)
    ensures Cut(text).users == ""
  {}

  /** How the first character goes into the clause. */
  lemma CutCons(c: char, text: string)
    ensures var rest := Cut(text);
      Cut([c] + text) == if IsOperator(c) then Clause("", [Item(c, rest.users)] + rest.items)
                         else Clause([c] + rest.users, rest.items)
  {
    assert ([c] + text)[1..] == text;
  }

  /** What follows an operator is cut on its own. */
  lemma {:induction false} CutAppend(text: string, more: string)
    requires Opens(more)
    ensures Cut(text + more) == Clause(Cut(text).users, Cut(text).items + Cut(more).items)
    ensures Cut(more).users == ""
  {
    CutOpening(more);
    hide Cut;
    if text == "" {
      assert text + more == more;
      assert Cut("") == Clause("", []) by { CutNothing(); }
      assert [] + Cut(more).items == Cut(more).items;
    } else {
      var c, rest := text[0], text[1..];
      assert text == [c] + rest && text + more == [c] + (rest + more);
      CutAppend(rest, more);
      CutCons(c, rest);
      CutCons(c, rest + more);
    }
  }

  /** A text without commas is one clause. */
  lemma OneClause(stat: FileInfo, umask: Bits, text: string)
    requires ',' !in text
    ensures Accepts(text) <==> Legal(Cut(text))
    ensures Accepts(text) ==> Actions(stat, umask, text) == ClauseActions(stat, umask, Cut(text), |Cut(text).items|)
  {
    hide Legal, Cut, ClauseActions, Split;
    SplitWhole(text, ',');
    assert [text][..0] == [];
    if Accepts(text) {
      assert TextActions(stat, umask, []) == [];
    }
  }

  /** The clause names a class: by its letter, by `a`, or by naming nobody. */
  predicate Named(users: string, v: char) { users == "" || users == "a" || v in users }

  /** One operator: which texts are accepted, and exactly which permissions every class has afterwards. */
  lemma OneOperator(stat: FileInfo, umask: Bits, users: string, op: char, perms: string, m: Bits, v: char, want: char)
    requires Bare(users) && Bare(perms) && IsOperator(op) && IsUser(v) && IsRwx(want)
    ensures var text := users + [op] + perms;
      && (Accepts(text) <==> (users == "a" || forall u <- users :: IsUser(u)) && forall p <- perms :: IsPerm(p))
      && (Accepts(text) ==>
            var actions := Actions(stat, umask, text);
            && (forall a <- actions :: IsOperator(a.op))
            && (May(Run(actions, m), v, want) <==>
                  if !Named(users, v) then May(m, v, want)
                  else Changed(op, v, May(m, v, want),
                           exists p <- perms :: Asks(stat, umask, users == "", v, p, want))))
  {
    hide May, Asks, Changed, Run, Accepts, Actions, ItemActions, Split;
    var text := users + [op] + perms;
    var c := Clause(users, [Item(op, perms)]);
    CutOne(users, op, perms);
    OneClause(stat, umask, text);
    if Accepts(text) {
      OneItem(stat, umask, c);
      UsersChange(stat, umask, c, c.items[0], |Users(c)|, m, v, want);
      assert Users(c)[..|Users(c)|] == Users(c);
    }
  }

  lemma CutOne(users: string, op: char, perms: string)
    requires Bare(users) && Bare(perms) && IsOperator(op)
    ensures Cut(users + [op] + perms) == Clause(users, [Item(op, perms)])
    ensures ',' !in users + [op] + perms
  {
    hide Cut;
    CutBare(users);
    CutBare(perms);
    CutAppend(users, [op] + perms);
    CutOpened(op, perms);
    assert users + [op] + perms == users + ([op] + perms);
  }

  lemma CutOpened(op: char, perms: string)
    requires Bare(perms) && IsOperator(op)
    ensures Cut([op] + perms).items == [Item(op, perms)]
  {
    CutBare(perms);
    assert ([op] + perms)[1..] == perms;
  }

  lemma OneItem(stat: FileInfo, umask: Bits, c: Clause)
    requires Legal(c) && |c.items| == 1
    ensures ClauseActions(stat, umask, c, 1) == ItemActions(stat, umask, c, c.items[0], |Users(c)|)
  {
    hide ItemActions, Users, Legal;
    assert ClauseActions(stat, umask, c, 0) == [];
  }

  // ---------- Several clauses, several operators ----------

  lemma {:induction false} RunConcat(a: seq<Action>, b: seq<Action>, m: Bits)
    requires (forall x <- a :: IsOperator(x.op)) && forall x <- b :: IsOperator(x.op)
    ensures Run(a + b, m) == Run(b, Run(a, m))
  {
    hide Apply;
    if b == [] {
      assert a + b == a;
    } else {
      var n := |b| - 1;
      RunConcat(a, b[..n], m);
      assert (a + b)[..|a + b| - 1] == a + b[..n];
    }
  }

  lemma {:induction false} TextActionsConcat(stat: FileInfo, umask: Bits, s: seq<string>, t: seq<string>)
    requires (forall x <- s :: Legal(Cut(x))) && forall x <- t :: Legal(Cut(x))
    ensures TextActions(stat, umask, s + t) == TextActions(stat, umask, s) + TextActions(stat, umask, t)
  {
    hide Legal, Cut, ClauseActions;
    if t == [] {
      assert s + t == s;
    } else {
      var n := |t| - 1;
      TextActionsConcat(stat, umask, s, t[..n]);
      assert (s + t)[..|s + t| - 1] == s + t[..n];
    }
  }

  /** A comma separates two texts: both must be accepted, and the second runs on what the first leaves. */
  lemma ClausesInTurn(stat: FileInfo, umask: Bits, first: string, second: string, m: Bits)
    ensures Accepts(first + "," + second) <==> Accepts(first) && Accepts(second)
    ensures Accepts(first + "," + second) ==>
      && (forall a <- Actions(stat, umask, first + "," + second) :: IsOperator(a.op))
      && (forall a <- Actions(stat, umask, first) :: IsOperator(a.op))
      && (forall a <- Actions(stat, umask, second) :: IsOperator(a.op))
      && Actions(stat, umask, first + "," + second) == Actions(stat, umask, first) + Actions(stat, umask, second)
      && Run(Actions(stat, umask, first + "," + second), m)
         == Run(Actions(stat, umask, second), Run(Actions(stat, umask, first), m))
  {
    hide Legal, Cut, TextActions, Run, Split;
    SplitAround(first, ',', second);
    assert first + [','] + second == first + "," + second;
    if Accepts(first + "," + second) {
      forall x <- Split(first, ',') ensures Legal(Cut(x)) { assert x in Split(first + "," + second, ','); }
      forall x <- Split(second, ',') ensures Legal(Cut(x)) { assert x in Split(first + "," + second, ','); }
      TextActionsConcat(stat, umask, Split(first, ','), Split(second, ','));
      AcceptedMode(stat, umask, first, m);
      AcceptedMode(stat, umask, second, m);
      RunConcat(Actions(stat, umask, first), Actions(stat, umask, second), m);
    }
  }

  lemma {:induction false} SameItemActions(stat: FileInfo, umask: Bits, c: Clause, d: Clause, item: Item, n: nat)
    requires Legal(c) && Legal(d) && c.users == d.users && item in c.items && item in d.items && n <= |Users(c)|
    ensures ItemActions(stat, umask, c, item, n) == ItemActions(stat, umask, d, item, n)
  {
    hide PermsBits;
    if n > 0 { SameItemActions(stat, umask, c, d, item, n - 1); }
  }

  /** The first `k` operators do the same in two clauses that share users and those operators. */
  lemma {:induction false} SameClauseActions(stat: FileInfo, umask: Bits, c: Clause, d: Clause, k: nat)
    requires Legal(c) && Legal(d) && c.users == d.users && k <= |c.items| && k <= |d.items|
    requires c.items[..k] == d.items[..k]
    ensures ClauseActions(stat, umask, c, k) == ClauseActions(stat, umask, d, k)
  {
    hide Legal, ItemActions;
    if k > 0 {
      assert c.items[k - 1] == c.items[..k][k - 1] == d.items[..k][k - 1] == d.items[k - 1];
      assert c.items[..k - 1] == c.items[..k][..k - 1] == d.items[..k - 1];
      SameClauseActions(stat, umask, c, d, k - 1);
      SameItemActions(stat, umask, c, d, c.items[k - 1], |Users(c)|);
    }
  }

  lemma NoActions(stat: FileInfo, umask: Bits, c: Clause)
    requires Legal(c)
    ensures ClauseActions(stat, umask, c, 0) == []
  {}

  lemma LastItem(stat: FileInfo, umask: Bits, c: Clause, k: nat)
    requires Legal(c) && 0 < k <= |c.items|
    ensures ClauseActions(stat, umask, c, k)
            == ClauseActions(stat, umask, c, k - 1) + ItemActions(stat, umask, c, c.items[k - 1], |Users(c)|)
  {}

  lemma SameUsers(c: Clause, d: Clause)
    requires c.users == d.users
    ensures Users(c) == Users(d)
  {}

  /** The operators of `c` are those of `a` and then the first `k` of `b`. */
  lemma {:induction false} ClauseActionsConcat(stat: FileInfo, umask: Bits, a: Clause, b: Clause, c: Clause, k: nat)
    requires Legal(a) && Legal(b) && Legal(c) && a.users == b.users == c.users
    requires c.items == a.items + b.items && k <= |b.items|
    ensures ClauseActions(stat, umask, c, |a.items| + k)
            == ClauseActions(stat, umask, a, |a.items|) + ClauseActions(stat, umask, b, k)
  {
    hide Legal, ItemActions;
    var n := |a.items|;
    if k == 0 {
      assert c.items[..n] == a.items == a.items[..n];
      SameClauseActions(stat, umask, c, a, n);
      NoActions(stat, umask, b);
    } else {
      hide ClauseActions, Users;
      ClauseActionsConcat(stat, umask, a, b, c, k - 1);
      LastItem(stat, umask, b, k);
      LastItem(stat, umask, c, n + k);
      assert c.items[n + k - 1] == b.items[k - 1];
      SameUsers(b, c);
      SameItemActions(stat, umask, c, b, b.items[k - 1], |Users(c)|);
    }
  }

  lemma LegalConcat(a: Clause, b: Clause, c: Clause)
    requires a.users == b.users == c.users && c.items == a.items + b.items
    ensures Legal(c) <==> Legal(a) && Legal(b)
  {
    forall i <- a.items ensures i in c.items {}
    forall i <- b.items ensures i in c.items {}
  }

  /** Several operators behind the same users are several clauses with these users. */
  lemma OperatorsInTurn(stat: FileInfo, umask: Bits, users: string, first: string, second: string, m: Bits)
    requires Bare(users) && Opens(first) && Opens(second) && ',' !in first && ',' !in second
    ensures var text, clauses := users + first + second, users + first + "," + users + second;
      && (Accepts(text) <==> Accepts(clauses))
      && (Accepts(text) ==> Actions(stat, umask, text) == Actions(stat, umask, clauses))
  {
    hide Legal, Cut, ClauseActions, Accepts, Actions;
    var text, clauses := users + first + second, users + first + "," + users + second;
    var a, b, c := Cut(users + first), Cut(users + second), Cut(text);
    CutBare(users);
    CutAppend(users, first);
    CutAppend(users, second);
    CutAppend(users + first, second);
    OneClause(stat, umask, users + first);
    OneClause(stat, umask, users + second);
    OneClause(stat, umask, text);
    ClausesInTurn(stat, umask, users + first, users + second, m);
    assert clauses == (users + first) + "," + (users + second);
    LegalConcat(a, b, c);
    if Accepts(text) { ClauseActionsConcat(stat, umask, a, b, c, |b.items|); }
  }

  /** A text without operators does nothing; it must still consist of users. */
  lemma NoOperator(stat: FileInfo, umask: Bits, text: string)
    requires Bare(text)
    ensures Accepts(text) <==> text == "a" || forall u <- text :: IsUser(u)
    ensures Accepts(text) ==> Actions(stat, umask, text) == []
  {
    CutBare(text);
    OneClause(stat, umask, text);
  }
}
