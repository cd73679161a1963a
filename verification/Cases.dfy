/** Inputs at which the program does something else than one would expect of it. */
module Cases {
  import opened Options
  import opened Text
  import opened Graph
  import Mode
  import ModeText
  import Inv = InventoryModel
  import Sequence

  // ---------- Symbolic modes ----------

  /** What a text of one clause with one operator does. */
  lemma OneItem(stat: Mode.FileInfo, umask: Mode.Bits, text: string, c: Mode.Clause)
    requires ',' !in text && Mode.Cut(text) == c && Mode.Legal(c) && |c.items| == 1
    ensures Mode.Accepts(text)
    ensures Mode.Actions(stat, umask, text) == Mode.ItemActions(stat, umask, c, c.items[0], |Mode.Users(c)|)
  {
    hide Mode.Legal, Mode.Cut, Mode.ItemActions, Mode.Users;
    ModeText.OneClause(stat, umask, text);
    ModeText.OneItem(stat, umask, c);
  }

  lemma CutEqualsR()
    ensures Mode.Cut("=r") == Mode.Clause("", [Mode.Item('=', "r")])
    ensures Mode.Cut("o=r") == Mode.Clause("o", [Mode.Item('=', "r")])
  {
    assert "o=r"[1..] == "=r" && "=r"[1..] == "r" && "r"[1..] == "";
    assert Mode.Cut("") == Mode.Clause("", []);
    assert Mode.Cut("r") == Mode.Clause("r", []);
  }

  lemma LetterR(stat: Mode.FileInfo, umask: Mode.Bits, useUmask: bool, user: char)
    requires Mode.IsUser(user)
    ensures Mode.PermsBits(stat, umask, useUmask, user, "r") == Mode.PermBit(stat, umask, useUmask, user, 'r')
  {
    assert "r"[..0] == "";
    var bit := Mode.PermBit(stat, umask, useUmask, user, 'r');
    assert 0 | bit == bit;
  }

  lemma LettersRW(stat: Mode.FileInfo, umask: Mode.Bits)
    ensures Mode.PermsBits(stat, umask, false, 'u', "rw") == 0x180
  {
    assert "rw"[..1] == "r" && "r"[..0] == "";
    LetterR(stat, umask, false, 'u');
    assert Mode.PermBit(stat, umask, false, 'u', 'r') == 0x100;
    assert Mode.PermBit(stat, umask, false, 'u', 'w') == 0x80;
  }

  /** A clause for the owner alone, with the letters r and w. */
  lemma OwnerRW(stat: Mode.FileInfo, umask: Mode.Bits, op: char)
    requires Mode.IsOperator(op)
    ensures var text := "u" + [op] + "rw";
      Mode.Accepts(text) && Mode.Actions(stat, umask, text) == [Mode.Action('u', op, 0x180)]
  {
    hide Mode.Accepts, Mode.Actions, Mode.PermsBits, Mode.Cut;
    var c := Mode.Clause("u", [Mode.Item(op, "rw")]);
    ModeText.CutOne("u", op, "rw");
    OneItem(stat, umask, "u" + [op] + "rw", c);
    LettersRW(stat, umask);
    assert Mode.ItemActions(stat, umask, c, c.items[0], 0) == [];
  }

  /** "u=rw" is 0600 on a file without permissions, and "u-rw" makes 0111 of 0711. */
  lemma OwnerReadsAndWrites(umask: Mode.Bits)
    ensures var stat := Mode.FileInfo(0, false);
      && Mode.Accepts("u=rw")
      && var actions := Mode.Actions(stat, umask, "u=rw");
         && (forall a <- actions :: Mode.IsOperator(a.op))
         && Mode.Run(actions, Mode.SyscallMode(stat.mode)) == 0x180
    ensures var stat := Mode.FileInfo(0x1C9, false);
      && Mode.Accepts("u-rw")
      && var actions := Mode.Actions(stat, umask, "u-rw");
         && (forall a <- actions :: Mode.IsOperator(a.op))
         && Mode.Run(actions, Mode.SyscallMode(stat.mode)) == 0x49
  {
    hide Mode.Accepts, Mode.Actions, Mode.Run;
    var none, some := Mode.FileInfo(0, false), Mode.FileInfo(0x1C9, false);
    OwnerRW(none, umask, '=');
    OwnerRW(some, umask, '-');
    assert "u" + ['='] + "rw" == "u=rw" && "u" + ['-'] + "rw" == "u-rw";
    var set_, clear := Mode.Action('u', '=', 0x180), Mode.Action('u', '-', 0x180);
    Mode.RunNothing(0);
    Mode.RunAppend([], set_, 0);
    Mode.RunNothing(0x1C9);
    Mode.RunAppend([], clear, 0x1C9);
    assert [] + [set_] == [set_] && [] + [clear] == [clear];
  }

  /** "o=r" takes nothing away from others: the mode 0777 stays what it is. */
  lemma OthersKeepAll(umask: Mode.Bits)
    ensures var stat := Mode.FileInfo(0x1FF, false);
      && Mode.Accepts("o=r")
      && var actions := Mode.Actions(stat, umask, "o=r");
         && (forall a <- actions :: Mode.IsOperator(a.op))
         && Mode.Run(actions, Mode.SyscallMode(stat.mode)) == 0x1FF
  {
    var stat := Mode.FileInfo(0x1FF, false);
    CutEqualsR();
    var c := Mode.Cut("o=r");
    OneItem(stat, umask, "o=r", c);
    LetterR(stat, umask, false, 'o');
    var a := Mode.Action('o', '=', 4);
    assert Mode.Actions(stat, umask, "o=r") == [a];
    assert [a][..0] == [];
    assert Mode.Run([a], 0x1FF) == Mode.Apply(a, Mode.Run([], 0x1FF));
  }

  /** "=r" under umask 022 makes 0446 of 0666: the group's write bit is gone, that of others is still there. */
  lemma UmaskBitsCleared()
    ensures var stat := Mode.FileInfo(0x1B6, false);
      && Mode.Accepts("=r")
      && var actions := Mode.Actions(stat, 0x12, "=r");
         && (forall a <- actions :: Mode.IsOperator(a.op))
         && Mode.Run(actions, Mode.SyscallMode(stat.mode)) == 0x126
  {
    hide Mode.Run, Mode.Actions, Mode.Accepts, Mode.SyscallMode;
    ActionsOfR();
    RunOfR();
    assert Mode.SyscallMode(0x1B6) == 0x1B6 by { PlainMode(); }
  }

  lemma PlainMode()
    ensures Mode.SyscallMode(0x1B6) == 0x1B6
  {}

  const R_FOR_ALL := [Mode.Action('u', '=', 0x100), Mode.Action('g', '=', 0x20), Mode.Action('o', '=', 4)]

  lemma ActionsOfR()
    ensures Mode.Accepts("=r") && Mode.Actions(Mode.FileInfo(0x1B6, false), 0x12, "=r") == R_FOR_ALL
  {
    hide Mode.Accepts, Mode.Actions, Mode.PermsBits, Mode.SyscallMode, Mode.Cut;
    var stat := Mode.FileInfo(0x1B6, false);
    CutEqualsR();
    var c := Mode.Clause("", [Mode.Item('=', "r")]);
    OneItem(stat, 0x12, "=r", c);
    LetterR(stat, 0x12, true, 'u');
    LetterR(stat, 0x12, true, 'g');
    LetterR(stat, 0x12, true, 'o');
    var item := c.items[0];
    assert Mode.Users(c) == "ugo";
    assert Mode.ItemActions(stat, 0x12, c, item, 1) == R_FOR_ALL[..1];
    assert Mode.ItemActions(stat, 0x12, c, item, 2) == R_FOR_ALL[..2];
    assert Mode.ItemActions(stat, 0x12, c, item, 3) == R_FOR_ALL;
  }

  lemma RunOfR()
    ensures (forall a <- R_FOR_ALL :: Mode.IsOperator(a.op)) && Mode.Run(R_FOR_ALL, 0x1B6) == 0x126
  {
    var u, g, o := R_FOR_ALL[0], R_FOR_ALL[1], R_FOR_ALL[2];
    assert R_FOR_ALL == [] + [u] + [g] + [o];
    Mode.RunAppend([], u, 0x1B6);
    Mode.RunAppend([u], g, 0x1B6);
    Mode.RunAppend([u, g], o, 0x1B6);
    assert Mode.Apply(u, 0x1B6) == 0x136 && Mode.Apply(g, 0x136) == 0x126 && Mode.Apply(o, 0x126) == 0x126;
  }

  // ---------- Inventories ----------

  /** The lines `[a:children]` and `all`. */
  const ALL_BELOW_A: seq<Inv.Line> :=
    [Inv.SectionLine("a", Inv.ChildSection), Inv.DataLine(None, None, Some(Inv.ALL))]

  const A_ABOVE_ALL := Inv.Inv(map[], map[
    "a" := Inv.GroupRec([Inv.ALL], [], map[], [], true),
    Inv.ALL := Inv.GroupRec([], [], map[], ["a"], true)])

  lemma ParsedAllBelowA()
    ensures Inv.ParseLines(ALL_BELOW_A) == Some(Inv.ParseState(A_ABOVE_ALL, "a", Inv.ChildSection))
  {
    var one := ALL_BELOW_A[..1];
    assert ALL_BELOW_A[..|ALL_BELOW_A| - 1] == one && one[..0] == [];
    var st := Inv.ParseState(
      Inv.Inv(map[], map["a" := Inv.NEW_GROUP.(initialized := true), Inv.ALL := Inv.NEW_GROUP.(initialized := true)]),
      "a", Inv.ChildSection);
    assert |"a"| == 1 && |Inv.ALL| == 3;
    assert Inv.ParseLines([]) == Some(Inv.START_STATE);
    var r := Inv.AddChild(st, Inv.ALL).inv.groups;
    assert [] + ["a"] == ["a"] && [] + [Inv.ALL] == [Inv.ALL];
    assert r["a"] == A_ABOVE_ALL.groups["a"] && r[Inv.ALL] == A_ABOVE_ALL.groups[Inv.ALL];
    assert r.Keys == A_ABOVE_ALL.groups.Keys;
    assert Inv.HandleSection(Inv.START_STATE, "a", Inv.ChildSection).inv.groups == st.inv.groups;
    assert Inv.ParseLines(one) == Some(st);
    assert r == A_ABOVE_ALL.groups;
    assert Inv.AddChild(st, Inv.ALL) == Inv.ParseState(A_ABOVE_ALL, "a", Inv.ChildSection);
    assert Inv.HandleLine(st, ALL_BELOW_A[1]) == Some(Inv.AddChild(st, Inv.ALL));
    assert |ALL_BELOW_A| == 2;
  }

  /** A file whose groups have no cycle, and in which validation finds one: `all` is the child of a group. */
  lemma CycleOutOfNowhere(inv': Inv.Inv)
    requires Inv.Normalised(A_ABOVE_ALL, inv')
    ensures Inv.ParseLines(ALL_BELOW_A).Some? && Inv.ParseLines(ALL_BELOW_A).value.inv == A_ABOVE_ALL
    ensures !Cyclic(Inv.Parents(A_ABOVE_ALL)) && Cyclic(Inv.Parents(inv'))
  {
    hide Inv.ParseLines, Inv.Normalised, Inv.WellBuilt, Cyclic;
    ParsedAllBelowA();
    Inv.ParseLinesKeep(ALL_BELOW_A);
    Inv.CycleOrigin(A_ABOVE_ALL, inv');
    NoCycleAbove();
  }

  lemma NoCycleAbove()
    ensures !Cyclic(Inv.Parents(A_ABOVE_ALL))
  {
    hide Reach;
    var e := Inv.Parents(A_ABOVE_ALL);
    assert e["a"] == [] && e[Inv.ALL] == ["a"];
    if Cyclic(e) {
      var g :| Reach(e, g, g);
      var h := ReachFirst(e, g, g);
      assert h == "a";
      if h != g { var x := ReachFirst(e, h, g); }
    }
  }

  // ---------- Sequences ----------

  /** Three numbers from 10 down by ones: five come out. */
  lemma FiveForThree()
    ensures var s := Sequence.Spec(10, 3, -1, -1, "%d");
      Sequence.Refused(s) == None && Sequence.Numbers(s) == [10, 9, 8, 7, 6]
  {
    var s := Sequence.Spec(10, 3, -1, -1, "%d");
    Sequence.OneVerb();
    assert Sequence.Limited(s).end == 6;
    var r := Sequence.Progression(10, -1, 5);
    assert Sequence.Size(10, 6, -1) == 5;
    assert r == [r[0], r[1], r[2], r[3], r[4]];
  }
}
