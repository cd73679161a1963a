/**
 Symbolic file modes: clauses such as "u=rw-x+X,g=r" read from left to right, each turning the running mode
 into the next one. The table of permission bits and the quirks of the operators are those of the program.
 */
module Mode {
  import opened Text

  type Bits = bv32

  // Octal 0777, 0111, 07777 and the three classes, setuid, setgid and sticky.
  const PERM_BITS: Bits := 0x1FF
  const EXEC_BITS: Bits := 0x49
  const MODE_BITS: Bits := 0xFFF
  const IRWXU: Bits := 0x1C0
  const IRWXG: Bits := 0x38
  const IRWXO: Bits := 0x7
  const ISUID: Bits := 0x800
  const ISGID: Bits := 0x400
  const ISVTX: Bits := 0x200

  /** Go's portable flags, as `os.FileMode` carries them. */
  const GO_SETUID: Bits := 0x80_0000
  const GO_SETGID: Bits := 0x40_0000
  const GO_STICKY: Bits := 0x10_0000

  datatype FileInfo = FileInfo(mode: Bits, isDir: bool)

  /** The portable mode in system bits; setuid is taken from the setgid flag. */
  function SyscallMode(mode: Bits): (r: Bits)
    ensures r & MODE_BITS == r
  {
    (mode & PERM_BITS)
    | (if mode & GO_SETGID != 0 then ISUID | ISGID else 0)
    | (if mode & GO_STICKY != 0 then ISVTX else 0)
  }

  /** The setuid flag of the file is ignored: setuid and setgid are set together, by the setgid flag. */
  lemma SetuidFollowsSetgid(mode: Bits)
    ensures SyscallMode(mode | GO_SETUID) == SyscallMode(mode)
    ensures SyscallMode(mode) & ISUID != 0 <==> mode & GO_SETGID != 0
    ensures SyscallMode(mode) & ISGID != 0 <==> mode & GO_SETGID != 0
  {}

  /** The rwx bits are those of the portable mode, and the sticky bit follows the sticky flag. */
  lemma PlainAndSticky(mode: Bits)
    ensures SyscallMode(mode) & PERM_BITS == mode & PERM_BITS
    ensures SyscallMode(mode) & ISVTX != 0 <==> mode & GO_STICKY != 0
  {}

  // ---------- Permission letters ----------

  predicate IsUser(c: char) { c == 'u' || c == 'g' || c == 'o' }

  predicate IsRwx(c: char) { c == 'r' || c == 'w' || c == 'x' }

  predicate IsPerm(c: char) { IsRwx(c) || c == 'X' || c == 's' || c == 't' || IsUser(c) }

  predicate IsOperator(c: char) { c == '+' || c == '=' || c == '-' }

  /** The rwx bits of a class. */
  function ClassBits(user: char): Bits {
    if user == 'u' then IRWXU else if user == 'g' then IRWXG else IRWXO
  }

  function PermBit(stat: FileInfo, umask: Bits, useUmask: bool, user: char, perm: char): (bits: Bits)
    requires IsUser(user) && IsPerm(perm)
  {
    var prev := SyscallMode(stat.mode);
    var rev: Bits := if useUmask then umask ^ PERM_BITS else 0xFFFF_FFFF;
    var apply := stat.isDir || prev & EXEC_BITS != 0;
    match user
    case 'u' =>
      (match perm
       case 'r' => rev & 0x100
       case 'w' => rev & 0x80
       case 'x' => rev & 0x40
       case 's' => ISUID
       case 't' => 0
       case 'u' => prev & IRWXU
       case 'g' => (prev & IRWXG) << 3
       case 'o' => (prev & IRWXO) << 6
       case _ => if apply then 0x40 else 0)
    case 'g' =>
      (match perm
       case 'r' => rev & 0x20
       case 'w' => rev & 0x10
       case 'x' => rev & 0x8
       case 's' => ISGID
       case 't' => 0
       case 'u' => (prev & IRWXU) >> 3
       case 'g' => prev & IRWXG
       case 'o' => (prev & IRWXO) << 3
       case _ => if apply then 0x8 else 0)
    case _ =>
      (match perm
       case 'r' => rev & 0x4
       case 'w' => rev & 0x2
       case 'x' => rev & 0x1
       case 's' => 0
       case 't' => ISVTX
       case 'u' => (prev & IRWXU) >> 6
       case 'g' => (prev & IRWXG) >> 3
       case 'o' => prev & IRWXO
       case _ => if apply then 0x1 else 0)
  }

  /** A letter given to a class touches the rwx bits of that class only, and one special bit at most. */
  lemma PermBitInClass(stat: FileInfo, umask: Bits, useUmask: bool, user: char, perm: char)
    requires IsUser(user) && IsPerm(perm)
    ensures InClass(user, PermBit(stat, umask, useUmask, user, perm))
  {
    hide SyscallMode;
    if user == 'u' { UserBits(stat, umask, useUmask, perm); }
    else if user == 'g' { GroupBits(stat, umask, useUmask, perm); }
    else { OtherBits(stat, umask, useUmask, perm); }
  }

  predicate InClass(user: char, bits: Bits) {
    bits & PERM_BITS & !ClassBits(user) == 0 && bits & MODE_BITS == bits
  }

  lemma UserBits(stat: FileInfo, umask: Bits, useUmask: bool, perm: char)
    requires IsPerm(perm)
    ensures InClass('u', PermBit(stat, umask, useUmask, 'u', perm))
  {
    hide SyscallMode;
  }

  lemma GroupBits(stat: FileInfo, umask: Bits, useUmask: bool, perm: char)
    requires IsPerm(perm)
    ensures InClass('g', PermBit(stat, umask, useUmask, 'g', perm))
  {
    hide SyscallMode;
  }

  lemma OtherBits(stat: FileInfo, umask: Bits, useUmask: bool, perm: char)
    requires IsPerm(perm)
    ensures InClass('o', PermBit(stat, umask, useUmask, 'o', perm))
  {
    hide SyscallMode;
  }

  /** The octal digit of a class. */
  function Digit(user: char, mode: Bits): Bits {
    if user == 'u' then (mode & IRWXU) >> 6 else if user == 'g' then (mode & IRWXG) >> 3 else mode & IRWXO
  }

  /** The digit that a letter names for a class of a file with this mode. */
  function LetterDigit(mode: Bits, isDir: bool, umask: Bits, useUmask: bool, user: char, perm: char): Bits {
    var allowed: Bits := if useUmask then !Digit(user, umask) else 7;
    if perm == 'r' then 4 & allowed
    else if perm == 'w' then 2 & allowed
    else if perm == 'x' then 1 & allowed
    else if IsUser(perm) then Digit(perm, mode)
    else if perm == 'X' && (isDir || mode & EXEC_BITS != 0) then 1
    else 0
  }

  function LetterSpecial(user: char, perm: char): Bits {
    if perm == 's' && user == 'u' then ISUID
    else if perm == 's' && user == 'g' then ISGID
    else if perm == 't' && user == 'o' then ISVTX
    else 0
  }

  ghost predicate NamesDigit(stat: FileInfo, umask: Bits, useUmask: bool, user: char, perm: char)
    requires IsUser(user) && IsPerm(perm)
  {
    Digit(user, PermBit(stat, umask, useUmask, user, perm))
      == LetterDigit(SyscallMode(stat.mode), stat.isDir, umask, useUmask, user, perm)
  }

  ghost predicate NamesSpecial(stat: FileInfo, umask: Bits, useUmask: bool, user: char, perm: char)
    requires IsUser(user) && IsPerm(perm)
  {
    PermBit(stat, umask, useUmask, user, perm) & !PERM_BITS == LetterSpecial(user, perm)
  }

  lemma UserRwx(stat: FileInfo, umask: Bits, useUmask: bool, perm: char)
    requires IsRwx(perm)
    ensures NamesDigit(stat, umask, useUmask, 'u', perm)
  {
    hide SyscallMode;
  }

  lemma CopiedToUser(m: Bits)
    ensures Digit('u', m & IRWXU) == Digit('u', m)
    ensures Digit('u', (m & IRWXG) << 3) == Digit('g', m) && Digit('u', (m & IRWXO) << 6) == Digit('o', m)
  {}

  lemma CopiedToGroup(m: Bits)
    ensures Digit('g', m & IRWXG) == Digit('g', m)
    ensures Digit('g', (m & IRWXU) >> 3) == Digit('u', m) && Digit('g', (m & IRWXO) << 3) == Digit('o', m)
  {}

  lemma CopiedToOther(m: Bits)
    ensures Digit('o', m & IRWXO) == Digit('o', m)
    ensures Digit('o', (m & IRWXU) >> 6) == Digit('u', m) && Digit('o', (m & IRWXG) >> 3) == Digit('g', m)
  {}

  lemma UserCopy(stat: FileInfo, umask: Bits, useUmask: bool, perm: char)
    requires IsUser(perm)
    ensures NamesDigit(stat, umask, useUmask, 'u', perm)
  {
    hide SyscallMode, Digit;
    CopiedToUser(SyscallMode(stat.mode));
  }

  lemma UserFlag(stat: FileInfo, umask: Bits, useUmask: bool, perm: char)
    requires perm == 'X' || perm == 's' || perm == 't'
    ensures NamesDigit(stat, umask, useUmask, 'u', perm)
  {
    hide SyscallMode;
  }

  lemma GroupRwx(stat: FileInfo, umask: Bits, useUmask: bool, perm: char)
    requires IsRwx(perm)
    ensures NamesDigit(stat, umask, useUmask, 'g', perm)
  {
    hide SyscallMode;
  }

  lemma GroupCopy(stat: FileInfo, umask: Bits, useUmask: bool, perm: char)
    requires IsUser(perm)
    ensures NamesDigit(stat, umask, useUmask, 'g', perm)
  {
    hide SyscallMode, Digit;
    CopiedToGroup(SyscallMode(stat.mode));
  }

  lemma GroupFlag(stat: FileInfo, umask: Bits, useUmask: bool, perm: char)
    requires perm == 'X' || perm == 's' || perm == 't'
    ensures NamesDigit(stat, umask, useUmask, 'g', perm)
  {
    hide SyscallMode;
  }

  lemma OtherRwx(stat: FileInfo, umask: Bits, useUmask: bool, perm: char)
    requires IsRwx(perm)
    ensures NamesDigit(stat, umask, useUmask, 'o', perm)
  {
    hide SyscallMode;
  }

  lemma OtherCopy(stat: FileInfo, umask: Bits, useUmask: bool, perm: char)
    requires IsUser(perm)
    ensures NamesDigit(stat, umask, useUmask, 'o', perm)
  {
    hide SyscallMode, Digit;
    CopiedToOther(SyscallMode(stat.mode));
  }

  lemma OtherFlag(stat: FileInfo, umask: Bits, useUmask: bool, perm: char)
    requires perm == 'X' || perm == 's' || perm == 't'
    ensures NamesDigit(stat, umask, useUmask, 'o', perm)
  {
    hide SyscallMode;
  }

  lemma UserSpecial(stat: FileInfo, umask: Bits, useUmask: bool, perm: char)
    requires IsPerm(perm)
    ensures NamesSpecial(stat, umask, useUmask, 'u', perm)
  {
    hide SyscallMode;
  }

  lemma GroupSpecial(stat: FileInfo, umask: Bits, useUmask: bool, perm: char)
    requires IsPerm(perm)
    ensures NamesSpecial(stat, umask, useUmask, 'g', perm)
  {
    hide SyscallMode;
  }

  lemma OtherSpecial(stat: FileInfo, umask: Bits, useUmask: bool, perm: char)
    requires IsPerm(perm)
    ensures NamesSpecial(stat, umask, useUmask, 'o', perm)
  {
    hide SyscallMode;
  }

  /**
   What each letter means, the same for all classes: r, w and x are 4, 2 and 1 without what the umask holds
   back; a class copies that class of the file; X is x for directories and executable files; and s and t name
   no digit but one special bit, each where it belongs.
   */
  lemma LetterMeaning(stat: FileInfo, umask: Bits, useUmask: bool, user: char, perm: char)
    requires IsUser(user) && IsPerm(perm)
    ensures NamesDigit(stat, umask, useUmask, user, perm) && NamesSpecial(stat, umask, useUmask, user, perm)
  {
    hide NamesDigit, NamesSpecial;
    if user == 'u' {
      UserSpecial(stat, umask, useUmask, perm);
      if IsRwx(perm) { UserRwx(stat, umask, useUmask, perm); }
      else if IsUser(perm) { UserCopy(stat, umask, useUmask, perm); }
      else { UserFlag(stat, umask, useUmask, perm); }
    } else if user == 'g' {
      GroupSpecial(stat, umask, useUmask, perm);
      if IsRwx(perm) { GroupRwx(stat, umask, useUmask, perm); }
      else if IsUser(perm) { GroupCopy(stat, umask, useUmask, perm); }
      else { GroupFlag(stat, umask, useUmask, perm); }
    } else {
      OtherSpecial(stat, umask, useUmask, perm);
      if IsRwx(perm) { OtherRwx(stat, umask, useUmask, perm); }
      else if IsUser(perm) { OtherCopy(stat, umask, useUmask, perm); }
      else { OtherFlag(stat, umask, useUmask, perm); }
    }
  }

  /** Without a user, r, w and x never name a bit of the umask. */
  lemma PermBitAvoidsUmask(stat: FileInfo, umask: Bits, user: char, perm: char)
    requires IsUser(user) && IsRwx(perm)
    ensures PermBit(stat, umask, true, user, perm) & umask == 0
  {}

  /** The bits of several letters. */
  function PermsBits(stat: FileInfo, umask: Bits, useUmask: bool, user: char, perms: string): Bits
    requires IsUser(user) && forall c <- perms :: IsPerm(c)
  {
    if perms == "" then 0
    else
      var n := |perms| - 1;
      PermsBits(stat, umask, useUmask, user, perms[..n]) | PermBit(stat, umask, useUmask, user, perms[n])
  }

  /** The mode has some of these bits. */
  predicate Meets(mode: Bits, bits: Bits) { mode & bits != 0 }

  lemma Distribute(x: Bits, y: Bits, b: Bits)
    ensures (x | y) & b == (x & b) | (y & b)
  {}

  lemma NeitherMeets(x: Bits, y: Bits)
    ensures x == 0 && y == 0 ==> x | y == 0
    ensures x | y == 0 ==> x == 0 && y == 0
  {}

  lemma UnionMeets(x: Bits, y: Bits, b: Bits)
    ensures Meets(x | y, b) <==> Meets(x, b) || Meets(y, b)
  {
    Distribute(x, y, b);
    NeitherMeets(x & b, y & b);
  }

  lemma NothingMet(b: Bits)
    ensures !Meets(0, b)
  {}

  lemma PermsSnoc(stat: FileInfo, umask: Bits, useUmask: bool, user: char, perms: string, n: nat)
    requires IsUser(user) && (forall c <- perms :: IsPerm(c)) && |perms| == n + 1
    ensures Joined(PermsBits(stat, umask, useUmask, user, perms),
                PermsBits(stat, umask, useUmask, user, perms[..n]), PermBit(stat, umask, useUmask, user, perms[n]))
  {
    hide PermBit;
  }

  predicate Joined(p: Bits, x: Bits, y: Bits) { p == x | y }

  lemma JoinMeets(p: Bits, x: Bits, y: Bits, b: Bits)
    requires Joined(p, x, y)
    ensures Meets(p, b) <==> Meets(x, b) || Meets(y, b)
  {
    hide Meets;
    UnionMeets(x, y, b);
  }

  lemma LastLetter(stat: FileInfo, umask: Bits, useUmask: bool, user: char, perms: string, n: nat, b: Bits)
    requires IsUser(user) && (forall c <- perms :: IsPerm(c)) && |perms| == n + 1
    ensures Meets(PermsBits(stat, umask, useUmask, user, perms), b)
       <==> Meets(PermsBits(stat, umask, useUmask, user, perms[..n]), b) ||
            Meets(PermBit(stat, umask, useUmask, user, perms[n]), b)
  {
    hide PermBit, Meets, PermsBits, Joined;
    PermsSnoc(stat, umask, useUmask, user, perms, n);
    JoinMeets(PermsBits(stat, umask, useUmask, user, perms), PermsBits(stat, umask, useUmask, user, perms[..n]),
        PermBit(stat, umask, useUmask, user, perms[n]), b);
  }

  lemma NoLetter(stat: FileInfo, umask: Bits, useUmask: bool, user: char, b: Bits)
    requires IsUser(user)
    ensures !Meets(PermsBits(stat, umask, useUmask, user, ""), b)
  {
    NothingMet(b);
  }

  /** Several letters name a bit exactly when one of them does. */
  lemma {:induction false} LettersUnite(stat: FileInfo, umask: Bits, useUmask: bool, user: char, perms: string, b: Bits)
    requires IsUser(user) && forall c <- perms :: IsPerm(c)
    ensures Meets(PermsBits(stat, umask, useUmask, user, perms), b)
       <==> exists c <- perms :: Meets(PermBit(stat, umask, useUmask, user, c), b)
  {
    hide PermBit, PermsBits, Meets;
    if perms == "" {
      NoLetter(stat, umask, useUmask, user, b);
    } else {
      var n := |perms| - 1;
      LettersUnite(stat, umask, useUmask, user, perms[..n], b);
      LastLetter(stat, umask, useUmask, user, perms, n, b);
      assert perms == perms[..n] + [perms[n]];
    }
  }

  method GetOctalModeFromSymbolicPerms(stat: FileInfo, umask: Bits, user: char, perms: string,
      useUmask: bool) returns (mode: Bits)
    requires IsUser(user) && forall c <- perms :: IsPerm(c)
    ensures mode == PermsBits(stat, umask, useUmask, user, perms)
    ensures forall b :: Meets(mode, b) <==> exists c <- perms :: Meets(PermBit(stat, umask, useUmask, user, c), b)
  {
    hide PermBit, Meets;
    mode := 0;
    for k := 0 to |perms|
      invariant mode == PermsBits(stat, umask, useUmask, user, perms[..k])
    {
      assert perms[..k + 1][..k] == perms[..k];
      mode := mode | PermBit(stat, umask, useUmask, user, perms[k]);
    }
    assert perms[..|perms|] == perms;
    forall b ensures Meets(mode, b) <==> exists c <- perms :: Meets(PermBit(stat, umask, useUmask, user, c), b) {
      LettersUnite(stat, umask, useUmask, user, perms, b);
    }
  }

  lemma {:induction false} PermsBitsInClass(stat: FileInfo, umask: Bits, useUmask: bool, user: char, perms: string)
    requires IsUser(user) && forall c <- perms :: IsPerm(c)
    ensures InClass(user, PermsBits(stat, umask, useUmask, user, perms))
  {
    hide PermBit;
    if perms != "" {
      var n := |perms| - 1;
      PermsBitsInClass(stat, umask, useUmask, user, perms[..n]);
      PermBitInClass(stat, umask, useUmask, user, perms[n]);
      InClassUnion(user, PermsBits(stat, umask, useUmask, user, perms[..n]),
          PermBit(stat, umask, useUmask, user, perms[n]));
    }
  }

  lemma InClassUnion(user: char, a: Bits, b: Bits)
    requires InClass(user, a) && InClass(user, b)
    ensures InClass(user, a | b)
  {}

  lemma {:induction false} PermsBitsAvoidUmask(stat: FileInfo, umask: Bits, user: char, perms: string)
    requires IsUser(user) && forall c <- perms :: IsRwx(c)
    ensures PermsBits(stat, umask, true, user, perms) & umask == 0
  {
    hide PermBit;
    if perms != "" {
      var n := |perms| - 1;
      PermsBitsAvoidUmask(stat, umask, user, perms[..n]);
      PermBitAvoidsUmask(stat, umask, user, perms[n]);
      Avoid(PermsBits(stat, umask, true, user, perms[..n]), PermBit(stat, umask, true, user, perms[n]), umask);
    }
  }

  lemma Avoid(a: Bits, b: Bits, umask: Bits)
    requires a & umask == 0 && b & umask == 0
    ensures (a | b) & umask == 0
  {}

  // ---------- Operators ----------

  datatype Action = Action(user: char, op: char, bits: Bits)

  /** What "=" is meant to clear; the program spells the class of others with a zero, so for `o` nothing. */
  function ClearMask(user: char): Bits {
    if user == 'u' then IRWXU | ISUID else if user == 'g' then IRWXG | ISGID else 0
  }

  function ApplyOperationToMode(user: char, op: char, modeToApply: Bits, currentMode: Bits): Bits
    requires IsOperator(op)
  {
    if op == '=' then (currentMode & (ClearMask(user) ^ PERM_BITS)) | modeToApply
    else if op == '+' then currentMode | modeToApply
    else currentMode - (currentMode & modeToApply)
  }

  function Apply(a: Action, mode: Bits): Bits
    requires IsOperator(a.op)
  { ApplyOperationToMode(a.user, a.op, a.bits, mode) }

  /** A list of actions on a running mode. */
  function Run(actions: seq<Action>, mode: Bits): Bits
    requires forall a <- actions :: IsOperator(a.op)
  {
    if actions == [] then mode else Apply(actions[|actions| - 1], Run(actions[..|actions| - 1], mode))
  }

  /** The bits an action keeps and the bits it sets. */
  datatype Masks = Masks(keep: Bits, set_: Bits) {
    function On(mode: Bits): Bits { (mode & keep) | set_ }

    function Then(next: Masks): Masks { Masks(keep & next.keep, (set_ & next.keep) | next.set_) }
  }

  function MasksOf(a: Action): Masks {
    if a.op == '=' then Masks(ClearMask(a.user) ^ PERM_BITS, a.bits)
    else if a.op == '+' then Masks(0xFFFF_FFFF, a.bits)
    else Masks(!a.bits, 0)
  }

  function RunMasks(actions: seq<Action>): Masks {
    if actions == [] then Masks(0xFFFF_FFFF, 0)
    else RunMasks(actions[..|actions| - 1]).Then(MasksOf(actions[|actions| - 1]))
  }

  lemma SubtractIsClear(m: Bits, b: Bits)
    ensures m - (m & b) == m & !b
  {}

  lemma ThenIsComposition(a: Masks, b: Masks, m: Bits)
    ensures b.On(a.On(m)) == a.Then(b).On(m)
  {}

  lemma Neutral(m: Bits)
    ensures m & 0xFFFF_FFFF == m && m & 0 == 0 && m | 0 == m
  {}

  lemma RemoveIsMasks(user: char, bits: Bits, m: Bits)
    ensures ApplyOperationToMode(user, '-', bits, m) == m & !bits == Masks(!bits, 0).On(m)
  {
    hide ClearMask;
    SubtractIsClear(m, bits);
    Neutral(m & !bits);
  }

  lemma AddIsMasks(user: char, bits: Bits, m: Bits)
    ensures ApplyOperationToMode(user, '+', bits, m) == m | bits == Masks(0xFFFF_FFFF, bits).On(m)
  {
    hide ClearMask;
    Neutral(m);
  }

  lemma AssignIsMasks(user: char, bits: Bits, m: Bits)
    ensures ApplyOperationToMode(user, '=', bits, m) == Masks(ClearMask(user) ^ PERM_BITS, bits).On(m)
  {
    hide ClearMask;
  }

  lemma ApplyIsMasks(a: Action, m: Bits)
    requires IsOperator(a.op)
    ensures Apply(a, m) == MasksOf(a).On(m)
  {
    hide ApplyOperationToMode, Masks.On, ClearMask;
    if a.op == '=' {
      AssignIsMasks(a.user, a.bits, m);
    } else if a.op == '+' {
      AddIsMasks(a.user, a.bits, m);
    } else {
      RemoveIsMasks(a.user, a.bits, m);
    }
  }

  /** Any list of actions acts as one pair of masks, whatever the mode it starts from. */
  lemma {:induction false} RunIsMasks(actions: seq<Action>, m: Bits)
    requires forall a <- actions :: IsOperator(a.op)
    ensures Run(actions, m) == RunMasks(actions).On(m)
  {
    if actions != [] {
      var n := |actions| - 1;
      RunIsMasks(actions[..n], m);
      ApplyIsMasks(actions[n], Run(actions[..n], m));
      ThenIsComposition(RunMasks(actions[..n]), MasksOf(actions[n]), m);
    }
  }

  /** Applying a list twice equals applying it once. */
  lemma RunTwice(actions: seq<Action>, m: Bits)
    requires forall a <- actions :: IsOperator(a.op)
    ensures Run(actions, Run(actions, m)) == Run(actions, m)
  {
    hide Run, RunMasks;
    RunIsMasks(actions, m);
    RunIsMasks(actions, Run(actions, m));
    OnTwice(RunMasks(actions), m);
  }

  lemma OnTwice(k: Masks, m: Bits)
    ensures k.On(k.On(m)) == k.On(m)
  {}

  /** Actions as clauses make them: a known user, a known operator, and bits of the user's class. */
  predicate WellFormed(a: Action) {
    IsUser(a.user) && IsOperator(a.op) && InClass(a.user, a.bits)
  }

  lemma ApplyInRange(a: Action, m: Bits)
    requires WellFormed(a) && m & MODE_BITS == m
    ensures Apply(a, m) & MODE_BITS == Apply(a, m)
  {
    hide ClassBits, ClearMask, Apply, Masks.On;
    ApplyIsMasks(a, m);
    OnInRange(MasksOf(a), m);
  }

  lemma OnInRange(k: Masks, m: Bits)
    requires m & MODE_BITS == m && k.set_ & MODE_BITS == k.set_
    ensures k.On(m) & MODE_BITS == k.On(m)
  {}

  /** The mode stays within 07777. */
  lemma {:induction false} RunInRange(actions: seq<Action>, m: Bits)
    requires (forall a <- actions :: WellFormed(a) && IsOperator(a.op)) && m & MODE_BITS == m
    ensures Run(actions, m) & MODE_BITS == Run(actions, m)
  {
    hide WellFormed, Apply;
    if actions != [] {
      var n := |actions| - 1;
      RunInRange(actions[..n], m);
      ApplyInRange(actions[n], Run(actions[..n], m));
    }
  }

  /** "u=" and "g=" set the rwx bits of their class exactly and leave those of the other classes alone. */
  lemma AssignIsExact(a: Action, m: Bits)
    requires WellFormed(a) && a.op == '=' && a.user != 'o'
    ensures Apply(a, m) & ClassBits(a.user) == a.bits & ClassBits(a.user)
    ensures Apply(a, m) & PERM_BITS & !ClassBits(a.user) == m & PERM_BITS & !ClassBits(a.user)
  {}

  /** "o=" clears nothing: it sets the named bits of others, as "o+" does, and drops all special bits. */
  lemma AssignOthers(a: Action, m: Bits)
    requires WellFormed(a) && a.op == '=' && a.user == 'o'
    ensures Apply(a, m) == (m & PERM_BITS) | a.bits
    ensures Apply(a, m) & PERM_BITS == Apply(a.(op := '+'), m) & PERM_BITS
  {}

  /** So it sets the bits of others exactly only when the mode had no bit of others beyond those named. */
  lemma AssignOthersExactly(a: Action, m: Bits)
    requires WellFormed(a) && a.op == '=' && a.user == 'o'
    ensures Apply(a, m) & IRWXO == a.bits & IRWXO <==> m & IRWXO & !a.bits == 0
  {}

  /** "u=" drops setgid and sticky, "g=" drops setuid and sticky: each keeps the one special bit it should replace. */
  lemma AssignSpecialBits(a: Action, m: Bits)
    requires WellFormed(a) && a.op == '=' && m & MODE_BITS == m
    ensures var spared: Bits := if a.user == 'u' then ISUID else if a.user == 'g' then ISGID else 0;
      Apply(a, m) & !PERM_BITS == (m & spared) | (a.bits & !PERM_BITS)
  {}

  lemma ApplySparesUmask(a: Action, m: Bits, umask: Bits)
    requires IsOperator(a.op) && a.op != '=' && a.bits & umask == 0
    ensures Apply(a, m) & umask == m & umask
  {
    hide ApplyOperationToMode;
    if a.op == '-' {
      RemoveSpares(a.user, a.bits, m, umask);
    } else {
      AddSpares(a.user, a.bits, m, umask);
    }
  }

  lemma RemoveSpares(user: char, b: Bits, m: Bits, umask: Bits)
    requires b & umask == 0
    ensures ApplyOperationToMode(user, '-', b, m) & umask == m & umask
  {
    hide ApplyOperationToMode, Masks.On;
    RemoveIsMasks(user, b, m);
    ClearSpares(m, b, umask);
  }

  lemma AddSpares(user: char, b: Bits, m: Bits, umask: Bits)
    requires b & umask == 0
    ensures ApplyOperationToMode(user, '+', b, m) & umask == m & umask
  {
    hide ApplyOperationToMode, Masks.On;
    AddIsMasks(user, b, m);
    SetSpares(m, b, umask);
  }

  lemma ClearSpares(m: Bits, b: Bits, umask: Bits)
    requires b & umask == 0
    ensures (m & !b) & umask == m & umask
  {}

  lemma SetSpares(m: Bits, b: Bits, umask: Bits)
    requires b & umask == 0
    ensures (m | b) & umask == m & umask
  {}

  /** Adding and removing without a user leaves every bit of the umask alone. */
  lemma {:induction false} RunSparesUmask(actions: seq<Action>, m: Bits, umask: Bits)
    requires forall a <- actions :: IsOperator(a.op) && a.op != '=' && a.bits & umask == 0
    ensures Run(actions, m) & umask == m & umask
  {
    hide Apply;
    if actions != [] {
      var n := |actions| - 1;
      RunSparesUmask(actions[..n], m, umask);
      ApplySparesUmask(actions[n], Run(actions[..n], m), umask);
    }
  }

  // ---------- Clauses ----------

  datatype Item = Item(op: char, perms: string)

  /** A clause cut at its operators: the users before the first, then each operator with what follows it. */
  datatype Clause = Clause(users: string, items: seq<Item>)

  function Cut(text: string): (c: Clause)
    ensures forall i <- c.items :: IsOperator(i.op)
  {
    if text == "" then Clause("", [])
    else
      var rest := Cut(text[1..]);
      if IsOperator(text[0]) then Clause("", [Item(text[0], rest.users)] + rest.items)
      else Clause([text[0]] + rest.users, rest.items)
  }

  function Uncut(c: Clause): string
    decreases |c.items|
  {
    if c.items == [] then c.users
    else c.users + [c.items[0].op] + Uncut(Clause(c.items[0].perms, c.items[1..]))
  }

  /** Cutting loses nothing, and leaves no operator inside a piece. */
  lemma {:induction false} CutExactly(text: string)
    ensures Uncut(Cut(text)) == text
    ensures forall ch <- Cut(text).users :: !IsOperator(ch)
    ensures forall i <- Cut(text).items, ch <- i.perms :: !IsOperator(ch)
  {
    if text != "" {
      var rest := Cut(text[1..]);
      CutExactly(text[1..]);
      if IsOperator(text[0]) {
        assert Cut(text).items[1..] == rest.items;
        assert Clause(rest.users, rest.items) == rest;
      } else if rest.items != [] {
        var tail := Uncut(Clause(rest.items[0].perms, rest.items[1..]));
        var op := [rest.items[0].op];
        assert [text[0]] + rest.users + op + tail == [text[0]] + (rest.users + op + tail);
      }
    }
  }

  /** No user, or `a`, means all three classes. */
  function Users(c: Clause): string {
    if c.users == "" || c.users == "a" then "ugo" else c.users
  }

  predicate Legal(c: Clause) {
    (forall u <- Users(c) :: IsUser(u)) && forall i <- c.items, p <- i.perms :: IsPerm(p)
  }

  predicate Accepts(symbolicMode: string) {
    forall text <- Split(symbolicMode, ',') :: Legal(Cut(text))
  }

  /** An operator with its letters, for each of the first `n` users. */
  function ItemActions(stat: FileInfo, umask: Bits, c: Clause, item: Item, n: nat): seq<Action>
    requires Legal(c) && item in c.items && n <= |Users(c)|
  {
    if n == 0 then []
    else
      var user := Users(c)[n - 1];
      var bits := PermsBits(stat, umask, c.users == "", user, item.perms);
      ItemActions(stat, umask, c, item, n - 1) + [Action(user, item.op, bits)]
  }

  function ClauseActions(stat: FileInfo, umask: Bits, c: Clause, k: nat): seq<Action>
    requires Legal(c) && k <= |c.items|
  {
    if k == 0 then []
    else ClauseActions(stat, umask, c, k - 1) + ItemActions(stat, umask, c, c.items[k - 1], |Users(c)|)
  }

  function TextActions(stat: FileInfo, umask: Bits, texts: seq<string>): seq<Action>
    requires forall text <- texts :: Legal(Cut(text))
  {
    if texts == [] then []
    else
      var c := Cut(texts[|texts| - 1]);
      TextActions(stat, umask, texts[..|texts| - 1]) + ClauseActions(stat, umask, c, |c.items|)
  }

  /** Everything an accepted text does, in order. */
  function Actions(stat: FileInfo, umask: Bits, symbolicMode: string): seq<Action>
    requires Accepts(symbolicMode)
  {
    TextActions(stat, umask, Split(symbolicMode, ','))
  }

  lemma {:induction false} ItemActionsWellFormed(stat: FileInfo, umask: Bits, c: Clause, item: Item, n: nat, a: Action)
    requires Legal(c) && item in c.items && IsOperator(item.op) && n <= |Users(c)| &&
        a in ItemActions(stat, umask, c, item, n)
    ensures WellFormed(a) && a.op == item.op
  {
    hide PermsBits, InClass;
    var user := Users(c)[n - 1];
    if a in ItemActions(stat, umask, c, item, n - 1) {
      ItemActionsWellFormed(stat, umask, c, item, n - 1, a);
    } else {
      PermsBitsInClass(stat, umask, c.users == "", user, item.perms);
    }
  }

  predicate OnlyRwx(c: Clause) {
    c.users == "" && forall i <- c.items :: i.op != '=' && forall p <- i.perms :: IsRwx(p)
  }

  lemma {:induction false} ItemActionsSpareUmask(stat: FileInfo, umask: Bits, c: Clause, item: Item, n: nat, a: Action)
    requires Legal(c) && item in c.items && n <= |Users(c)| && a in ItemActions(stat, umask, c, item, n)
    requires c.users == "" && forall p <- item.perms :: IsRwx(p)
    ensures a.bits & umask == 0 && a.op == item.op
  {
    hide PermsBits;
    var user := Users(c)[n - 1];
    if a in ItemActions(stat, umask, c, item, n - 1) {
      ItemActionsSpareUmask(stat, umask, c, item, n - 1, a);
    } else {
      PermsBitsAvoidUmask(stat, umask, user, item.perms);
    }
  }

  lemma {:induction false} ClauseActionsWellFormed(stat: FileInfo, umask: Bits, c: Clause, k: nat, a: Action)
    requires Legal(c) && k <= |c.items| && (forall i <- c.items :: IsOperator(i.op)) &&
        a in ClauseActions(stat, umask, c, k)
    ensures WellFormed(a)
    ensures OnlyRwx(c) ==> a.op != '=' && a.bits & umask == 0
  {
    hide WellFormed, ItemActions;
    var item := c.items[k - 1];
    if a in ClauseActions(stat, umask, c, k - 1) {
      ClauseActionsWellFormed(stat, umask, c, k - 1, a);
    } else {
      ItemActionsWellFormed(stat, umask, c, item, |Users(c)|, a);
      if OnlyRwx(c) { ItemActionsSpareUmask(stat, umask, c, item, |Users(c)|, a); }
    }
  }

  lemma {:induction false} TextActionsWellFormed(stat: FileInfo, umask: Bits, texts: seq<string>, a: Action)
    requires (forall text <- texts :: Legal(Cut(text))) && a in TextActions(stat, umask, texts)
    ensures WellFormed(a)
  {
    var n := |texts| - 1;
    if a in TextActions(stat, umask, texts[..n]) {
      TextActionsWellFormed(stat, umask, texts[..n], a);
    } else {
      var c := Cut(texts[n]);
      ClauseActionsWellFormed(stat, umask, c, |c.items|, a);
    }
  }

  /** For a fixed file and umask an accepted text is one pair of masks; it stays in range and can be applied twice. */
  lemma AcceptedMode(stat: FileInfo, umask: Bits, symbolicMode: string, m: Bits)
    requires Accepts(symbolicMode)
    ensures var actions := Actions(stat, umask, symbolicMode);
            && (forall a <- actions :: WellFormed(a))
            && Run(actions, m) == RunMasks(actions).On(m)
            && Run(actions, Run(actions, m)) == Run(actions, m)
            && (m & MODE_BITS == m ==> Run(actions, m) & MODE_BITS == Run(actions, m))
  {
    var actions := Actions(stat, umask, symbolicMode);
    forall a <- actions ensures WellFormed(a) { TextActionsWellFormed(stat, umask, Split(symbolicMode, ','), a); }
    hide Actions, RunMasks, Run, Masks.On, Accepts;
    assert forall a <- actions :: IsOperator(a.op);
    RunIsMasks(actions, m);
    RunTwice(actions, m);
    if m & MODE_BITS == m { RunInRange(actions, m); }
  }

  /** A clause without users that adds or removes only r, w and x leaves every bit of the umask alone. */
  lemma ClauseSparesUmask(stat: FileInfo, umask: Bits, text: string, m: Bits)
    requires OnlyRwx(Cut(text))
    ensures Legal(Cut(text))
    ensures forall a <- ClauseActions(stat, umask, Cut(text), |Cut(text).items|) :: IsOperator(a.op)
    ensures Run(ClauseActions(stat, umask, Cut(text), |Cut(text).items|), m) & umask == m & umask
  {
    hide ClauseActions, Run, Cut;
    var c := Cut(text);
    var actions := ClauseActions(stat, umask, c, |c.items|);
    forall a <- actions ensures IsOperator(a.op) && a.op != '=' && a.bits & umask == 0 {
      ClauseActionsWellFormed(stat, umask, c, |c.items|, a);
    }
    RunSparesUmask(actions, m, umask);
  }

  /** The bits that "=" never clears: only those of others, thanks to the misspelled class. */
  function KeptBy(a: Action): Bits {
    if a.op == '=' then ClearMask(a.user) ^ PERM_BITS else 0xFFFF_FFFF
  }

  function Kept(actions: seq<Action>): Bits {
    if actions == [] then 0xFFFF_FFFF else Kept(actions[..|actions| - 1]) & KeptBy(actions[|actions| - 1])
  }

  lemma {:induction false} KeptConcat(a: seq<Action>, b: seq<Action>)
    ensures Kept(a + b) == Kept(a) & Kept(b)
  {
    hide KeptBy;
    if b == [] {
      assert a + b == a;
    } else {
      var n := |b| - 1;
      KeptConcat(a, b[..n]);
      assert (a + b)[..|a| + n] == a + b[..n];
    }
  }

  /** Under the umask, `r` is what the kept bits leave of `m`. */
  ghost predicate Leaves(r: Bits, m: Bits, kept: Bits, umask: Bits) { r & umask == m & kept & umask }

  /** Actions that name no bit of the umask only clear some of its bits. */
  lemma {:induction false} RunUnderUmask(actions: seq<Action>, m: Bits, umask: Bits)
    requires forall a <- actions :: IsOperator(a.op) && a.bits & umask == 0
    ensures Leaves(Run(actions, m), m, Kept(actions), umask)
  {
    hide Apply, KeptBy, Leaves;
    if actions == [] {
      LeavesAll(m, umask);
    } else {
      var n := |actions| - 1;
      RunUnderUmask(actions[..n], m, umask);
      ApplyUnderUmask(actions[n], Run(actions[..n], m), umask);
      var r := Run(actions[..n], m);
      LeavesBoth(Apply(actions[n], r), r, m, Kept(actions[..n]), KeptBy(actions[n]), umask);
    }
  }

  lemma LeavesAll(m: Bits, umask: Bits)
    ensures Leaves(m, m, 0xFFFF_FFFF, umask)
  {}

  lemma LeavesBoth(r': Bits, r: Bits, m: Bits, k: Bits, k': Bits, umask: Bits)
    requires Leaves(r, m, k, umask) && Leaves(r', r, k', umask)
    ensures Leaves(r', m, k & k', umask)
  {}

  lemma ApplyUnderUmask(a: Action, m: Bits, umask: Bits)
    requires IsOperator(a.op) && a.bits & umask == 0
    ensures Leaves(Apply(a, m), m, KeptBy(a), umask)
  {
    hide ApplyOperationToMode;
    if a.op == '=' {
      AssignUnderUmask(a.user, a.bits, m, umask);
    } else {
      ApplySparesUmask(a, m, umask);
      Neutral(m);
    }
  }

  lemma AssignUnderUmask(user: char, bits: Bits, m: Bits, umask: Bits)
    requires bits & umask == 0
    ensures ApplyOperationToMode(user, '=', bits, m) & umask == m & (ClearMask(user) ^ PERM_BITS) & umask
  {
    hide ClearMask;
    AssignIsMasks(user, bits, m);
  }

  /** One "=" for all three classes keeps the bits of others alone. */
  lemma ItemKept(stat: FileInfo, umask: Bits, c: Clause, item: Item)
    requires Legal(c) && item in c.items && c.users == ""
    ensures Kept(ItemActions(stat, umask, c, item, 3)) == if item.op == '=' then IRWXO else 0xFFFF_FFFF
  {
    hide PermsBits, Legal;
    assert Users(c) == "ugo";
    ItemKeptStep(stat, umask, c, item, 1);
    ItemKeptStep(stat, umask, c, item, 2);
    ItemKeptStep(stat, umask, c, item, 3);
  }

  lemma ItemKeptStep(stat: FileInfo, umask: Bits, c: Clause, item: Item, n: nat)
    requires Legal(c) && item in c.items && 0 < n <= |Users(c)|
    ensures Kept(ItemActions(stat, umask, c, item, n)) == Kept(ItemActions(stat, umask, c, item, n - 1))
      & (if item.op == '=' then ClearMask(Users(c)[n - 1]) ^ PERM_BITS else 0xFFFF_FFFF)
  {
    hide PermsBits, Legal, Users, ClearMask;
    var all := ItemActions(stat, umask, c, item, n);
    assert all[..|all| - 1] == ItemActions(stat, umask, c, item, n - 1);
  }

  /** Some operator of the clause, among the first `k`, is "=". */
  predicate Assigns(c: Clause, k: nat)
    requires k <= |c.items|
  {
    exists i | 0 <= i < k :: c.items[i].op == '='
  }

  lemma {:induction false} ClauseKept(stat: FileInfo, umask: Bits, c: Clause, k: nat)
    requires Legal(c) && c.users == "" && k <= |c.items|
    ensures Kept(ClauseActions(stat, umask, c, k)) == if Assigns(c, k) then IRWXO else 0xFFFF_FFFF
  {
    hide Legal, ItemActions;
    if k > 0 {
      ClauseKept(stat, umask, c, k - 1);
      assert |Users(c)| == 3;
      ItemKept(stat, umask, c, c.items[k - 1]);
      var before := ClauseActions(stat, umask, c, k - 1);
      KeptConcat(before, ItemActions(stat, umask, c, c.items[k - 1], 3));
      assert Assigns(c, k) <==> Assigns(c, k - 1) || c.items[k - 1].op == '=';
    }
  }

  /** No users, and no letters but r, w and x; any operators. */
  predicate UnnamedRwx(c: Clause) {
    c.users == "" && forall i <- c.items, p <- i.perms :: IsRwx(p)
  }

  lemma {:induction false} UnnamedActions(stat: FileInfo, umask: Bits, c: Clause, k: nat, a: Action)
    requires Legal(c) && UnnamedRwx(c) && k <= |c.items| && a in ClauseActions(stat, umask, c, k)
    ensures a.bits & umask == 0
  {
    hide ItemActions, Legal;
    if a in ClauseActions(stat, umask, c, k - 1) {
      UnnamedActions(stat, umask, c, k - 1, a);
    } else {
      ItemActionsSpareUmask(stat, umask, c, c.items[k - 1], |Users(c)|, a);
    }
  }

  /**
   What a clause without users does to the bits of the umask: with "=" in it, it clears all but those of
   others. So they survive if and only if the mode had none of them set but those of others.
   */
  lemma AssignClearsUmaskBits(stat: FileInfo, umask: Bits, text: string, m: Bits)
    requires UnnamedRwx(Cut(text)) && Assigns(Cut(text), |Cut(text).items|)
    ensures var c := Cut(text);
      && Legal(c)
      && var actions := ClauseActions(stat, umask, c, |c.items|);
         && (forall a <- actions :: IsOperator(a.op))
         && Run(actions, m) & umask == m & umask & IRWXO
         && (Run(actions, m) & umask == m & umask <==> m & umask & !IRWXO == 0)
  {
    hide ClauseActions, Run, Cut, Kept, Leaves;
    var c := Cut(text);
    var actions := ClauseActions(stat, umask, c, |c.items|);
    forall a <- actions ensures IsOperator(a.op) && a.bits & umask == 0 {
      ClauseActionsWellFormed(stat, umask, c, |c.items|, a);
      UnnamedActions(stat, umask, c, |c.items|, a);
    }
    RunUnderUmask(actions, m, umask);
    ClauseKept(stat, umask, c, |c.items|);
    SurvivesExactly(Run(actions, m), m, umask);
  }

  lemma SurvivesExactly(r: Bits, m: Bits, umask: Bits)
    requires Leaves(r, m, IRWXO, umask)
    ensures r & umask == m & umask & IRWXO
    ensures r & umask == m & umask <==> m & umask & !IRWXO == 0
  {
    Reorder(m, umask);
    WithinOthers(m & umask);
  }

  lemma Reorder(m: Bits, umask: Bits)
    ensures m & IRWXO & umask == m & umask & IRWXO
  {}

  lemma WithinOthers(x: Bits)
    ensures x & IRWXO == x <==> x & !IRWXO == 0
  {}

  // ---------- Reading a whole text ----------

  lemma {:induction false} RunAppend(actions: seq<Action>, a: Action, m: Bits)
    requires (forall x <- actions :: IsOperator(x.op)) && IsOperator(a.op)
    ensures Run(actions + [a], m) == Apply(a, Run(actions, m))
  {
    assert (actions + [a])[..|actions|] == actions;
  }

  method SymbolicModeToOctal(stat: FileInfo, umask: Bits, symbolicMode: string) returns (accepted: bool, newMode: Bits)
    ensures accepted <==> Accepts(symbolicMode)
    ensures accepted ==> (forall a <- Actions(stat, umask, symbolicMode) :: IsOperator(a.op))
    ensures accepted ==> newMode == Run(Actions(stat, umask, symbolicMode), SyscallMode(stat.mode))
  {
    hide PermsBits, SyscallMode, Run, ClauseActions, Split, Cut, Legal;
    assert Run([], SyscallMode(stat.mode)) == SyscallMode(stat.mode) by { RunNothing(SyscallMode(stat.mode)); }
    newMode := SyscallMode(stat.mode);
    var texts := Split(symbolicMode, ',');
    ghost var done: seq<Action> := [];
    for t := 0 to |texts|
      invariant forall text <- texts[..t] :: Legal(Cut(text))
      invariant done == TextActions(stat, umask, texts[..t])
      invariant forall a <- done :: IsOperator(a.op)
      invariant newMode == Run(done, SyscallMode(stat.mode))
    {
      assert texts[..t + 1][..t] == texts[..t];
      var c := Cut(texts[t]);
      var legal;
      legal, newMode, done := RunClause(stat, umask, c, newMode, done);
      if !legal {
        assert texts[t] in texts;
        return false, 0;
      }
    }
    assert texts[..|texts|] == texts;
    accepted := true;
  }

  /** One clause of the text; `before` is what the clauses before it did. */
  method RunClause(stat: FileInfo, umask: Bits, c: Clause, mode: Bits, ghost before: seq<Action>)
    returns (legal: bool, newMode: Bits, ghost done: seq<Action>)
    requires forall i <- c.items :: IsOperator(i.op)
    requires (forall a <- before :: IsOperator(a.op)) && mode == Run(before, SyscallMode(stat.mode))
    ensures legal <==> Legal(c)
    ensures legal ==> done == before + ClauseActions(stat, umask, c, |c.items|)
    ensures legal ==> (forall a <- done :: IsOperator(a.op)) && newMode == Run(done, SyscallMode(stat.mode))
  {
    hide PermsBits, SyscallMode, ApplyOperationToMode, Run, ItemActions;
    newMode, done := mode, before;
    var users := if c.users == "" || c.users == "a" then "ugo" else c.users;
    if exists u <- users :: !IsUser(u) { return false, 0, []; }
    for k := 0 to |c.items|
      invariant forall i <- c.items[..k], p <- i.perms :: IsPerm(p)
      invariant forall a <- done :: IsOperator(a.op)
      invariant newMode == Run(done, SyscallMode(stat.mode))
      invariant Legal(c) ==> done == before + ClauseActions(stat, umask, c, k)
    {
      var item := c.items[k];
      assert item in c.items;
      if exists p <- item.perms :: !IsPerm(p) { return false, 0, []; }
      newMode, done := RunItem(stat, umask, c, item, users, newMode, done);
    }
    legal := true;
    assert c.items[..|c.items|] == c.items;
  }

  lemma RunNothing(m: Bits)
    ensures Run([], m) == m
  {}

  /** One operator with its letters, for every user of the clause. */
  method RunItem(stat: FileInfo, umask: Bits, c: Clause, item: Item, users: string, mode: Bits,
      ghost before: seq<Action>)
    returns (newMode: Bits, ghost done: seq<Action>)
    requires item in c.items && IsOperator(item.op) && users == Users(c)
    requires (forall u <- users :: IsUser(u)) && forall p <- item.perms :: IsPerm(p)
    requires (forall a <- before :: IsOperator(a.op)) && mode == Run(before, SyscallMode(stat.mode))
    ensures Legal(c) ==> done == before + ItemActions(stat, umask, c, item, |users|)
    ensures (forall a <- done :: IsOperator(a.op)) && newMode == Run(done, SyscallMode(stat.mode))
    ensures Legal(c) ==>
      var all := before + ItemActions(stat, umask, c, item, |users|);
      (forall a <- all :: IsOperator(a.op)) && newMode == Run(all, SyscallMode(stat.mode))
  {
    hide PermsBits, SyscallMode, ApplyOperationToMode, Legal, Run, Users;
    newMode, done := mode, before;
    for n := 0 to |users|
      invariant forall a <- done :: IsOperator(a.op)
      invariant newMode == Run(done, SyscallMode(stat.mode))
      invariant Legal(c) ==> done == before + ItemActions(stat, umask, c, item, n)
    {
      var modeToApply := GetOctalModeFromSymbolicPerms(stat, umask, users[n], item.perms, c.users == "");
      ghost var a := Action(users[n], item.op, modeToApply);
      RunAppend(done, a, SyscallMode(stat.mode));
      newMode := ApplyOperationToMode(users[n], item.op, modeToApply, newMode);
      done := done + [a];
    }
  }
}
