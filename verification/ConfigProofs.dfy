/**
 What a configuration file configures, read off the positions of its lines: which sections there are, what they say, and
 that exactly the complete ones, the first of each address, become user registers and coils.
 */
module ConfigProofs {
  import opened Bytes
  import opened Table
  import opened Config
  import Memory

  // ----- sections by position -----

  function Opener(l: Line): Section {
    match l
    case OpenRegister => InRegister
    case OpenCoil => InCoil
    case OpenSwitch => InSwitch
    case _ => NoSection
  }

  function Closer(l: Line): Section {
    match l
    case CloseRegister => InRegister
    case CloseCoil => InCoil
    case CloseSwitch => InSwitch
    case _ => NoSection
  }

  /** Line o opens a section: every section opened before it has been closed by a line of its own kind. */
  ghost predicate Opens(ls: seq<Line>, o: nat)
    requires o < |ls|
    decreases o
  {
    Opener(ls[o]) != NoSection && forall q: nat :: q < o && Opens(ls, q) ==> !IsOpen(ls, q, o)
  }

  /** No line between o and n closes the section that line o opens. */
  ghost predicate IsOpen(ls: seq<Line>, o: nat, n: nat)
    requires o < n <= |ls|
  {
    forall c :: o < c < n ==> Closer(ls[c]) != Opener(ls[o])
  }

  /** The first of the lines that gives anything. */
  function FirstGiven<T(==)>(ls: seq<Line>, give: Line -> T, nothing: T): T {
    if |ls| == 0 then nothing else if give(ls[0]) != nothing then give(ls[0]) else FirstGiven(ls[1..], give, nothing)
  }

  /** An address in hex, in 16 bits; 0 is none. */
  function AddressIn(l: Line): word { if l.Address? && l.hex.Number? then l.hex.v % 0x1_0000 else 0 }

  /** A text without the blanks in front. */
  function TextIn(name: Text): Line -> string { (l: Line) => if l.TextField? && l.name == name then TrimLeft(l.value) else "" }

  function SignIn(l: Line): string { if l.IsSigned? then l.value else "" }

  function GivenAddress(ls: seq<Line>): word { FirstGiven(ls, AddressIn, 0) }

  function GivenText(ls: seq<Line>, name: Text): string { FirstGiven(ls, TextIn(name), "") }

  function GivenSign(ls: seq<Line>): bool { FirstGiven(ls, SignIn, "") == "true" }

  /** The lines from o to c are a section of this kind that says all it must: an address, a description and a name. */
  ghost predicate Complete(ls: seq<Line>, kind: Section, name: Text, o: nat, c: nat) {
    && o < c < |ls| && Opens(ls, o) && Opener(ls[o]) == kind && IsOpen(ls, o, c) && Closer(ls[c]) == kind
    && GivenAddress(ls[o + 1..c]) != 0 && GivenText(ls[o + 1..c], Description) != "" && GivenText(ls[o + 1..c], name) != ""
  }

  /** It is the first of the complete sections for its address. */
  ghost predicate FirstOf(ls: seq<Line>, kind: Section, name: Text, o: nat, c: nat) {
    && Complete(ls, kind, name, o, c)
    && forall p: nat, d: nat :: d < c && Complete(ls, kind, name, p, d) ==> GivenAddress(ls[p + 1..d]) != GivenAddress(ls[o + 1..c])
  }

  // ----- the local variables of the loop mirror the open section -----

  lemma {:induction false} GivenMore<T>(ls: seq<Line>, l: Line, give: Line -> T, nothing: T)
    ensures FirstGiven(ls + [l], give, nothing)
         == if FirstGiven(ls, give, nothing) != nothing then FirstGiven(ls, give, nothing) else give(l)
  {
    if |ls| == 0 {
      assert (ls + [l])[0] == l && (ls + [l])[1..] == [];
    } else {
      assert (ls + [l])[1..] == ls[1..] + [l];
      GivenMore(ls[1..], l, give, nothing);
    }
  }

  lemma AddressMore(p: Pending, mid: seq<Line>, l: Line)
    requires p.section != NoSection && p.address == GivenAddress(mid)
    ensures TakeField(p, l).address == GivenAddress(mid + [l])
  {
    GivenMore(mid, l, AddressIn, 0);
    hide FirstGiven, TrimLeft;
  }

  lemma TextMore(p: Pending, mid: seq<Line>, l: Line, name: Text)
    requires p.section != NoSection && TextOf(p, name) == GivenText(mid, name)
    ensures TextOf(TakeField(p, l), name) == GivenText(mid + [l], name)
  {
    GivenMore(mid, l, TextIn(name), "");
    TextsApart(p, l, name);
    hide FirstGiven, TakeField, TextOf;
  }

  lemma TextsApart(p: Pending, l: Line, name: Text)
    requires p.section != NoSection
    ensures TextOf(TakeField(p, l), name) == if TextOf(p, name) != "" then TextOf(p, name) else TextIn(name)(l)
  {
    assert TrimLeft("") == "";
    hide TrimLeft;
  }

  /** Nothing, true, or anything else. */
  function SignCode(s: string): nat { if s == "" then 0 else if s == "true" then 2 else 1 }

  lemma SignMore(p: Pending, mid: seq<Line>, l: Line)
    requires p.section != NoSection && p.issigned == SignCode(FirstGiven(mid, SignIn, ""))
    ensures TakeField(p, l).issigned == SignCode(FirstGiven(mid + [l], SignIn, ""))
  {
    GivenMore(mid, l, SignIn, "");
    hide FirstGiven, TrimLeft;
  }

  /** The name a kind of section needs besides the description. */
  function NameOf(kind: Section): Text { match kind case InRegister => RegName case InCoil => CoilName case _ => SwitchName }

  /** What is pending of a section is what its lines say. */
  ghost predicate Mirrors(p: Pending, mid: seq<Line>) {
    && p.address == GivenAddress(mid) && p.description == GivenText(mid, Description)
    && TextOf(p, NameOf(p.section)) == GivenText(mid, NameOf(p.section))
    && p.issigned == SignCode(FirstGiven(mid, SignIn, ""))
  }

  lemma MirrorsMore(p: Pending, mid: seq<Line>, l: Line)
    requires p.section != NoSection && Mirrors(p, mid)
    ensures TakeField(p, l).section == p.section && Mirrors(TakeField(p, l), mid + [l])
  {
    AddressMore(p, mid, l);
    TextMore(p, mid, l, Description);
    TextMore(p, mid, l, NameOf(p.section));
    SignMore(p, mid, l);
    SectionKept(p, l);
    hide GivenAddress, GivenText, FirstGiven, TakeField, NameOf;
  }

  lemma SectionKept(p: Pending, l: Line)
    ensures TakeField(p, l).section == p.section
  {}

  /** The section that is open before line n, if there is one, and the local variables. */
  ghost predicate AtLine(ls: seq<Line>, n: nat, p: Pending) {
    && n <= |ls|
    && if p.section == NoSection then forall o: nat :: o < n && Opens(ls, o) ==> !IsOpen(ls, o, n)
       else exists o: nat :: o < n && Current(ls, o, n, p)
  }

  ghost predicate Current(ls: seq<Line>, o: nat, n: nat, p: Pending)
    requires o < n <= |ls|
  {
    Opens(ls, o) && IsOpen(ls, o, n) && Opener(ls[o]) == p.section && Mirrors(p, ls[o + 1..n])
  }

  /** At most one section is open. */
  lemma OneOpen(ls: seq<Line>, o: nat, q: nat, n: nat)
    requires o < n <= |ls| && q < n && Opens(ls, o) && IsOpen(ls, o, n) && Opens(ls, q) && IsOpen(ls, q, n)
    ensures o == q
  {}

  lemma LineMore(ls: seq<Line>, o: nat, n: nat)
    requires o < n < |ls|
    ensures ls[o + 1..n + 1] == ls[o + 1..n] + [ls[n]]
    ensures IsOpen(ls, o, n + 1) <==> IsOpen(ls, o, n) && Closer(ls[n]) != Opener(ls[o])
  {}

  lemma FreshMirror(p: Pending, l: Line)
    requires p.section == NoSection && Opener(l) != NoSection
    ensures OpenSection(p, l).section == Opener(l) && Mirrors(OpenSection(p, l), [])
  {}

  /** One line further. */
  lemma NextLine(ls: seq<Line>, n: nat, p: Pending)
    requires AtLine(ls, n, p) && n < |ls|
    ensures AtLine(ls, n + 1, NextPending(p, ls[n]))
  {
    var l, p' := ls[n], NextPending(p, ls[n]);
    hide Mirrors, Opens, IsOpen, TakeField, OpenSection;
    forall o: nat | o < n ensures IsOpen(ls, o, n + 1) <==> IsOpen(ls, o, n) && Closer(l) != Opener(ls[o]) { LineMore(ls, o, n); }
    if p.section == NoSection {
      if Opener(l) != NoSection {
        OpensHere(ls, n);
        FreshMirror(p, l);
        assert Current(ls, n, n + 1, p');
      } else {
        NotOpening(ls, n);
        SectionKept(p, l);
      }
    } else {
      var o: nat :| o < n && Current(ls, o, n, p);
      if Closer(l) == p.section {
        NotOpening(ls, n);
        forall q: nat | q < n + 1 && Opens(ls, q) ensures !IsOpen(ls, q, n + 1) {
          if q < n && IsOpen(ls, q, n) { OneOpen(ls, o, q, n); }
        }
      } else {
        LineMore(ls, o, n);
        MirrorsMore(p, ls[o + 1..n], l);
        StaysCurrent(ls, o, n, p);
      }
    }
  }

  lemma NotOpening(ls: seq<Line>, n: nat)
    requires n < |ls|
    ensures Opener(ls[n]) == NoSection ==> !Opens(ls, n)
  {}

  lemma OpensHere(ls: seq<Line>, n: nat)
    requires n < |ls| && Opener(ls[n]) != NoSection && forall o: nat :: o < n && Opens(ls, o) ==> !IsOpen(ls, o, n)
    ensures Opens(ls, n) && IsOpen(ls, n, n + 1)
  {}

  /** A line that does not close the section leaves it current. */
  lemma StaysCurrent(ls: seq<Line>, o: nat, n: nat, p: Pending)
    requires o < n < |ls| && Current(ls, o, n, p) && p.section != NoSection && Closer(ls[n]) != p.section
    ensures NextPending(p, ls[n]).section != NoSection && Current(ls, o, n + 1, NextPending(p, ls[n]))
  {
    LineMore(ls, o, n);
    MirrorsMore(p, ls[o + 1..n], ls[n]);
    NothingTaken(p, ls[n]);
    hide Opens, IsOpen, Mirrors, TakeField;
  }

  lemma NothingTaken(p: Pending, l: Line)
    ensures !l.Address? && !l.TextField? && !l.IsSigned? ==> TakeField(p, l) == p
    ensures p.section != NoSection ==> OpenSection(p, l) == p
  {}

  // ----- the lists -----

  /** A line finishes what is pending if and only if it ends a complete section, and then pending is what that section says. */
  lemma FinishedIff(ls: seq<Line>, n: nat, p: Pending, kind: Section)
    requires AtLine(ls, n, p) && n < |ls| && Closer(ls[n]) == kind && (kind == InRegister || kind == InCoil)
    ensures Finished(p, ls[n]) <==> exists o: nat :: Complete(ls, kind, NameOf(kind), o, n)
    ensures forall o: nat :: Complete(ls, kind, NameOf(kind), o, n) ==>
              p.address == GivenAddress(ls[o + 1..n]) && (p.issigned == 2 <==> GivenSign(ls[o + 1..n]))
  {
    hide Opens, IsOpen, GivenAddress, GivenText, FirstGiven;
    if p.section != NoSection {
      var q: nat :| q < n && Current(ls, q, n, p);
      assert Finished(p, ls[n]) ==> Complete(ls, kind, NameOf(kind), q, n);
      forall o: nat | Complete(ls, kind, NameOf(kind), o, n) ensures o == q { OneOpen(ls, o, q, n); }
    }
  }

  /** What the first complete section of its address adds, if the address is allowed and new. */
  ghost predicate NewEntry<T(!new)>(ls: seq<Line>, kind: Section, lo: word, hi: word, t0: seq<T>, key: T -> word, make: seq<Line> -> T,
                                    o: nat, c: nat, u: T) {
    && FirstOf(ls, kind, NameOf(kind), o, c) && u == make(ls[o + 1..c])
    && lo <= GivenAddress(ls[o + 1..c]) <= hi && forall v :: v in t0 ==> key(v) != GivenAddress(ls[o + 1..c])
  }

  ghost predicate Added<T(!new)>(ls: seq<Line>, n: nat, kind: Section, lo: word, hi: word, t0: seq<T>, key: T -> word, make: seq<Line> -> T, u: T) {
    exists o: nat, c: nat :: c < n && NewEntry(ls, kind, lo, hi, t0, key, make, o, c, u)
  }

  /** Before line n the list has what it had, and what the sections before that line add. */
  ghost predicate ListAt<T(!new)>(ls: seq<Line>, n: nat, kind: Section, lo: word, hi: word, t0: seq<T>, key: T -> word, make: seq<Line> -> T, t: seq<T>) {
    forall u :: u in t <==> u in t0 || Added(ls, n, kind, lo, hi, t0, key, make, u)
  }

  lemma {:induction false} SomeFirst(ls: seq<Line>, kind: Section, name: Text, o: nat, c: nat) returns (p: nat, d: nat)
    requires Complete(ls, kind, name, o, c)
    ensures d <= c && FirstOf(ls, kind, name, p, d) && GivenAddress(ls[p + 1..d]) == GivenAddress(ls[o + 1..c])
    decreases c
  {
    hide Opens, IsOpen, GivenAddress, GivenText;
    if q: nat, e: nat :| e < c && Complete(ls, kind, name, q, e) && GivenAddress(ls[q + 1..e]) == GivenAddress(ls[o + 1..c]) {
      p, d := SomeFirst(ls, kind, name, q, e);
    } else {
      p, d := o, c;
    }
  }

  lemma ListMore<T(!new)>(ls: seq<Line>, n: nat, kind: Section, lo: word, hi: word, t0: seq<T>, key: T -> word, make: seq<Line> -> T,
                          t: seq<T>, t': seq<T>)
    requires n < |ls| && ListAt(ls, n, kind, lo, hi, t0, key, make, t) && forall mid :: key(make(mid)) == GivenAddress(mid)
    requires forall o: nat :: Complete(ls, kind, NameOf(kind), o, n) ==>
               var a := GivenAddress(ls[o + 1..n]);
               t' == if lo <= a <= hi && (forall v :: v in t ==> key(v) != a) then t + [make(ls[o + 1..n])] else t
    requires (forall o: nat :: !Complete(ls, kind, NameOf(kind), o, n)) ==> t' == t
    ensures ListAt(ls, n + 1, kind, lo, hi, t0, key, make, t')
  {
    assert forall u :: u in t ==> u in t';
    assert forall u :: u in t0 ==> u in t;
    forall u ensures Added(ls, n + 1, kind, lo, hi, t0, key, make, u) <==>
      Added(ls, n, kind, lo, hi, t0, key, make, u) || exists o: nat :: NewEntry(ls, kind, lo, hi, t0, key, make, o, n, u)
    {
      AddedMore(ls, n, kind, lo, hi, t0, key, make, u);
    }
    hide Added, NewEntry, Opens, IsOpen, GivenAddress, GivenText, NameOf;
    forall u, o: nat | NewEntry(ls, kind, lo, hi, t0, key, make, o, n, u) ensures u in t' {
      NewIsNew(ls, n, kind, lo, hi, t0, key, make, t, o, u);
    }
    forall u | u in t' && u !in t ensures Added(ls, n + 1, kind, lo, hi, t0, key, make, u) {
      var o: nat :| Complete(ls, kind, NameOf(kind), o, n);
      NewIsFirst(ls, n, kind, lo, hi, t0, key, make, t, o);
    }
  }

  lemma AddedMore<T(!new)>(ls: seq<Line>, n: nat, kind: Section, lo: word, hi: word, t0: seq<T>, key: T -> word, make: seq<Line> -> T, u: T)
    ensures Added(ls, n + 1, kind, lo, hi, t0, key, make, u) <==>
      Added(ls, n, kind, lo, hi, t0, key, make, u) || exists o: nat :: NewEntry(ls, kind, lo, hi, t0, key, make, o, n, u)
  {
    hide NewEntry;
    if o: nat :| NewEntry(ls, kind, lo, hi, t0, key, make, o, n, u) { assert n < n + 1; }
  }

  /** The entry of the first section of its address is not in the list yet. */
  lemma NewIsNew<T(!new)>(ls: seq<Line>, n: nat, kind: Section, lo: word, hi: word, t0: seq<T>, key: T -> word, make: seq<Line> -> T,
                          t: seq<T>, o: nat, u: T)
    requires n < |ls| && ListAt(ls, n, kind, lo, hi, t0, key, make, t) && forall mid :: key(make(mid)) == GivenAddress(mid)
    requires NewEntry(ls, kind, lo, hi, t0, key, make, o, n, u)
    ensures Complete(ls, kind, NameOf(kind), o, n) && u == make(ls[o + 1..n]) && lo <= GivenAddress(ls[o + 1..n]) <= hi
    ensures forall v :: v in t ==> key(v) != GivenAddress(ls[o + 1..n])
  {
    hide Opens, IsOpen, GivenAddress, GivenText, NameOf;
    forall v | v in t && v !in t0 ensures key(v) != GivenAddress(ls[o + 1..n]) {
      assert Added(ls, n, kind, lo, hi, t0, key, make, v);
    }
  }

  ghost predicate Has<T(!new)>(t: seq<T>, key: T -> word, x: word) { exists u :: u in t && key(u) == x }

  lemma HasIfGiven<T(!new)>(ls: seq<Line>, n: nat, kind: Section, lo: word, hi: word, t0: seq<T>, key: T -> word, make: seq<Line> -> T, t: seq<T>,
                            o: nat, c: nat)
    requires ListAt(ls, n, kind, lo, hi, t0, key, make, t) && forall mid :: key(make(mid)) == GivenAddress(mid)
    requires c < n && Complete(ls, kind, NameOf(kind), o, c) && lo <= GivenAddress(ls[o + 1..c]) <= hi
    ensures Has(t, key, GivenAddress(ls[o + 1..c]))
  {
    hide Opens, IsOpen, GivenAddress, GivenText, NameOf;
    var p, d := SomeFirst(ls, kind, NameOf(kind), o, c);
    var u := make(ls[p + 1..d]);
    if v :| v in t0 && key(v) == GivenAddress(ls[o + 1..c]) {
      assert v in t;
    } else {
      assert NewEntry(ls, kind, lo, hi, t0, key, make, p, d, u);
      assert Added(ls, n, kind, lo, hi, t0, key, make, u);
      assert u in t;
    }
  }

  /** A section whose allowed address is not in the list yet is the first of it. */
  lemma NewIsFirst<T(!new)>(ls: seq<Line>, n: nat, kind: Section, lo: word, hi: word, t0: seq<T>, key: T -> word, make: seq<Line> -> T,
                            t: seq<T>, o: nat)
    requires n < |ls| && ListAt(ls, n, kind, lo, hi, t0, key, make, t) && forall mid :: key(make(mid)) == GivenAddress(mid)
    requires Complete(ls, kind, NameOf(kind), o, n) && lo <= GivenAddress(ls[o + 1..n]) <= hi
    requires forall v :: v in t ==> key(v) != GivenAddress(ls[o + 1..n])
    ensures NewEntry(ls, kind, lo, hi, t0, key, make, o, n, make(ls[o + 1..n]))
  {
    hide Opens, IsOpen, GivenAddress, GivenText, NameOf;
    forall q: nat, e: nat | e < n && Complete(ls, kind, NameOf(kind), q, e) ensures GivenAddress(ls[q + 1..e]) != GivenAddress(ls[o + 1..n]) {
      if lo <= GivenAddress(ls[q + 1..e]) <= hi { HasIfGiven(ls, n, kind, lo, hi, t0, key, make, t, q, e); }
    }
  }

  /** A user register as it is configured. */
  function NewReg(mid: seq<Line>): UserReg { UserReg(GivenAddress(mid), 0xFFFF, GivenSign(mid)) }

  function NewCoil(mid: seq<Line>): UserCoil { UserCoil(GivenAddress(mid), 0xFF) }

  ghost predicate RegsAt(ls: seq<Line>, n: nat, t0: seq<UserReg>, t: seq<UserReg>) {
    ListAt(ls, n, InRegister, 0x3400, 0x8FFF, t0, RegKey, NewReg, t)
  }

  ghost predicate CoilsAt(ls: seq<Line>, n: nat, t0: seq<UserCoil>, t: seq<UserCoil>) {
    ListAt(ls, n, InCoil, 0x20, 0xFF, t0, CoilKey, NewCoil, t)
  }

  lemma NextRegsAt(ls: seq<Line>, n: nat, p: Pending, t0: seq<UserReg>, t: seq<UserReg>)
    requires AtLine(ls, n, p) && n < |ls| && RegsAt(ls, n, t0, t)
    ensures RegsAt(ls, n + 1, t0, NextRegs(t, p, ls[n]))
  {
    if Closer(ls[n]) == InRegister { FinishedIff(ls, n, p, InRegister); }
    UserKeys(t, p.address);
    hide AtLine, Opens, IsOpen, GivenAddress, GivenText, GivenSign, ListAt, Finished, UserAdresses, Find;
    ListMore(ls, n, InRegister, 0x3400, 0x8FFF, t0, RegKey, NewReg, t, NextRegs(t, p, ls[n]));
  }

  lemma UserKeys(t: seq<UserReg>, a: word)
    ensures Find(UserAdresses(t), a) < 0 <==> forall v :: v in t ==> RegKey(v) != a
  {
    UserHas(t, a);
  }

  lemma NextCoilsAt(ls: seq<Line>, n: nat, p: Pending, t0: seq<UserCoil>, t: seq<UserCoil>)
    requires AtLine(ls, n, p) && n < |ls| && CoilsAt(ls, n, t0, t)
    ensures CoilsAt(ls, n + 1, t0, NextCoils(t, p, ls[n]))
  {
    if Closer(ls[n]) == InCoil { FinishedIff(ls, n, p, InCoil); }
    UserCoilKeys(t, p.address);
    hide AtLine, Opens, IsOpen, GivenAddress, GivenText, ListAt, Finished, UserCoilAdresses, Find;
    ListMore(ls, n, InCoil, 0x20, 0xFF, t0, CoilKey, NewCoil, t, NextCoils(t, p, ls[n]));
  }

  lemma UserCoilKeys(t: seq<UserCoil>, a: word)
    ensures Find(UserCoilAdresses(t), a) < 0 <==> forall v :: v in t ==> CoilKey(v) != a
  {
    UserCoilHas(t, a);
  }

  lemma {:induction false} ReadIs(ls: seq<Line>, n: nat, r: Reading, regs: seq<UserReg>, coils: seq<UserCoil>)
    requires AtLine(ls, n, r.pending) && RegsAt(ls, n, regs, r.regs) && CoilsAt(ls, n, coils, r.coils)
    ensures var end := ReadLines(r, ls[n..]); RegsAt(ls, |ls|, regs, end.regs) && CoilsAt(ls, |ls|, coils, end.coils)
    decreases |ls| - n
  {
    assert n <= |ls|;
    hide AtLine, RegsAt, CoilsAt, NextPending, NextRegs, NextCoils;
    if n < |ls| {
      var l := ls[n];
      assert ls[n..][1..] == ls[n + 1..];
      NextLine(ls, n, r.pending);
      NextRegsAt(ls, n, r.pending, regs, r.regs);
      NextCoilsAt(ls, n, r.pending, coils, r.coils);
      ReadIs(ls, n + 1, Reading(NextPending(r.pending, l), NextRegs(r.regs, r.pending, l), NextCoils(r.coils, r.pending, l)), regs, coils);
    }
  }

  /**
   After any configuration file was read: the lists have exactly what they had, and one entry for each address that is
   allowed and new and that a complete section gives. The entry is that of the first such section: a user register with
   value 0xFFFF, signed if the first sign given is true, or a coil with value 0xFF.
   */
  lemma ConfiguredIs(regs: seq<UserReg>, coils: seq<UserCoil>, ls: seq<Line>)
    ensures var (r, c) := Configured(regs, coils, ls); RegsAt(ls, |ls|, regs, r) && CoilsAt(ls, |ls|, coils, c)
  {
    var start := Reading(NOTHING_PENDING, regs, coils);
    var end := ReadLines(start, ls);
    assert ls[0..] == ls;
    assert RegsAt(ls, 0, regs, regs) && CoilsAt(ls, 0, coils, coils);
    ReadIs(ls, 0, start, regs, coils);
    hide ReadLines, Sort, Added;
    forall u ensures u in Sort(end.regs, RegKey) <==> u in end.regs { SortKeeps(end.regs, RegKey, u); }
    forall u ensures u in Sort(end.coils, CoilKey) <==> u in end.coils { SortKeeps(end.coils, CoilKey, u); }
  }

  lemma GivenIfHas<T(!new)>(ls: seq<Line>, kind: Section, lo: word, hi: word, t0: seq<T>, key: T -> word, make: seq<Line> -> T, t: seq<T>, u: T)
    requires ListAt(ls, |ls|, kind, lo, hi, t0, key, make, t) && forall mid :: key(make(mid)) == GivenAddress(mid)
    requires u in t && !Has(t0, key, key(u))
    ensures lo <= key(u) <= hi && exists o: nat, c: nat :: Complete(ls, kind, NameOf(kind), o, c) && GivenAddress(ls[o + 1..c]) == key(u)
  {
    hide Opens, IsOpen, GivenAddress, GivenText, NameOf;
    assert Added(ls, |ls|, kind, lo, hi, t0, key, make, u);
  }

  /** A complete section of this kind gives the address. */
  ghost predicate Gives(ls: seq<Line>, kind: Section, x: word) {
    exists o: nat, c: nat :: Complete(ls, kind, NameOf(kind), o, c) && GivenAddress(ls[o + 1..c]) == x
  }

  lemma ListAddress<T(!new)>(ls: seq<Line>, kind: Section, lo: word, hi: word, t0: seq<T>, key: T -> word, make: seq<Line> -> T, t: seq<T>, x: word)
    requires ListAt(ls, |ls|, kind, lo, hi, t0, key, make, t) && forall mid :: key(make(mid)) == GivenAddress(mid)
    ensures Has(t, key, x) <==> Has(t0, key, x) || (lo <= x <= hi && Gives(ls, kind, x))
  {
    assert forall u :: u in t0 ==> u in t;
    hide ListAt, Complete, GivenAddress;
    if u :| u in t && key(u) == x && !Has(t0, key, x) { GivenIfHas(ls, kind, lo, hi, t0, key, make, t, u); }
    if lo <= x <= hi && Gives(ls, kind, x) {
      var o: nat, c: nat := GivenAt(ls, kind, x);
      HasIfGiven(ls, |ls|, kind, lo, hi, t0, key, make, t, o, c);
    }
  }

  lemma GivenAt(ls: seq<Line>, kind: Section, x: word) returns (o: nat, c: nat)
    requires Gives(ls, kind, x)
    ensures Complete(ls, kind, NameOf(kind), o, c) && o < c < |ls| && GivenAddress(ls[o + 1..c]) == x
  {
    o, c :| Complete(ls, kind, NameOf(kind), o, c) && GivenAddress(ls[o + 1..c]) == x;
  }

  /** An address is in the list afterwards if and only if it was before, or is allowed and given by a complete section. */
  lemma AddressConfigured(regs: seq<UserReg>, coils: seq<UserCoil>, ls: seq<Line>, x: word)
    ensures var r := Configured(regs, coils, ls).0;
            x in UserAdresses(r) <==> x in UserAdresses(regs) || (0x3400 <= x <= 0x8FFF && Gives(ls, InRegister, x))
    ensures var c := Configured(regs, coils, ls).1;
            x in UserCoilAdresses(c) <==> x in UserCoilAdresses(coils) || (0x20 <= x <= 0xFF && Gives(ls, InCoil, x))
  {
    hide Gives, GivenAddress, Configured, ListAt, GivenSign;
    var (r, c) := Configured(regs, coils, ls);
    ConfiguredIs(regs, coils, ls);
    ListAddress(ls, InRegister, 0x3400, 0x8FFF, regs, RegKey, NewReg, r, x);
    ListAddress(ls, InCoil, 0x20, 0xFF, coils, CoilKey, NewCoil, c, x);
    UserHas(r, x);
    UserHas(regs, x);
    UserCoilHas(c, x);
    UserCoilHas(coils, x);
  }

  lemma UserHas(t: seq<UserReg>, x: word)
    ensures x in UserAdresses(t) <==> Has(t, RegKey, x)
  {
    if x in UserAdresses(t) {
      var j :| 0 <= j < |t| && UserAdresses(t)[j] == x;
      assert t[j] in t && RegKey(t[j]) == x;
    }
    if u :| u in t && RegKey(u) == x {
      var j :| 0 <= j < |t| && t[j] == u;
      assert UserAdresses(t)[j] == x;
    }
  }

  lemma UserCoilHas(t: seq<UserCoil>, x: word)
    ensures x in UserCoilAdresses(t) <==> Has(t, CoilKey, x)
  {
    if x in UserCoilAdresses(t) {
      var j :| 0 <= j < |t| && UserCoilAdresses(t)[j] == x;
      assert t[j] in t && CoilKey(t[j]) == x;
    }
    if u :| u in t && CoilKey(u) == x {
      var j :| 0 <= j < |t| && t[j] == u;
      assert UserCoilAdresses(t)[j] == x;
    }
  }

  // ----- the clean table -----

  /** The addresses of the controller's registers. */
  predicate Listed(x: word) {
    || 0x3000 <= x <= 0x3008 || x == 0x300E || 0x3100 <= x <= 0x3113 || x == 0x311A || x == 0x311B || x == 0x311D
    || 0x3200 <= x <= 0x3202 || 0x3300 <= x <= 0x331E || 0x3330 <= x <= 0x3337 || 0x9000 <= x <= 0x900E || 0x9013 <= x <= 0x9021
    || 0x903D <= x <= 0x903F || 0x9042 <= x <= 0x904D || x == 0x9063 || 0x9065 <= x <= 0x9067 || 0x906A <= x <= 0x9070
  }

  lemma InSpan(a: seq<word>, first: word, count: nat, x: word)
    requires first + count <= NO_ADRESS
    ensures x in a + Span(first, count) <==> x in a || first <= x < first + count
  {
    var s := Span(first, count);
    if first <= x < first + count { assert s[x - first] == x; }
  }

  lemma ListedIs(x: word)
    ensures x in RegList() <==> Listed(x)
  {
    var a := Span(0x3000, 9);
    InSpan([], 0x3000, 9, x);
    assert [] + a == a;
    InSpan(a, 0x300E, 1, x); a := a + Span(0x300E, 1);
    InSpan(a, 0x3100, 20, x); a := a + Span(0x3100, 20);
    InSpan(a, 0x311A, 2, x); a := a + Span(0x311A, 2);
    InSpan(a, 0x311D, 1, x); a := a + Span(0x311D, 1);
    InSpan(a, 0x3200, 3, x); a := a + Span(0x3200, 3);
    InSpan(a, 0x3300, 31, x); a := a + Span(0x3300, 31);
    InSpan(a, 0x3330, 8, x); a := a + Span(0x3330, 8);
    InSpan(a, 0x9000, 15, x); a := a + Span(0x9000, 15);
    InSpan(a, 0x9013, 15, x); a := a + Span(0x9013, 15);
    InSpan(a, 0x903D, 3, x); a := a + Span(0x903D, 3);
    InSpan(a, 0x9042, 12, x); a := a + Span(0x9042, 12);
    InSpan(a, 0x9063, 1, x); a := a + Span(0x9063, 1);
    InSpan(a, 0x9065, 3, x); a := a + Span(0x9065, 3);
    InSpan(a, 0x906A, 7, x); a := a + Span(0x906A, 7);
    hide Span;
    assert a == RegList();
  }

  /** Nothing is known yet: all ones, no override, no header. */
  ghost predicate Unset(r: Reg) { r.value == 0xFFFF && !r.haveAlternate && !r.haveHeader }

  /**
   The table as it is set up: a register for each listed address, nine of them signed, eight coils and two discrete
   inputs, all unset, and what the configuration adds to empty lists.
   */
  lemma CleanedHas(m: Mem, ls: seq<Line>)
    requires |m.regs| == MAXREG
    ensures var r := Memory.Cleaned(m, ls);
            && (forall x: word :: (exists j :: 0 <= j < |r.regs| && !r.regs[j].empty && r.regs[j].adress == x) <==> Listed(x))
            && (forall j :: 0 <= j < |r.regs| ==> Unset(r.regs[j]))
            && (forall j :: 0 <= j < |r.regs| && !r.regs[j].empty ==> (r.regs[j].issigned <==>
                  r.regs[j].adress in {0x3110, 0x3111, 0x3112, 0x311B, 0x331B, 0x331C, 0x331D, 0x331E, 0x9018}))
            && (forall j :: 0 <= j < |r.coils| ==>
                  r.coils[j] == if j < 8 then Cell(false, [0, 1, 2, 3, 5, 6, 0x13, 0x14][j], 0xFF) else Cell(true, 0xFFFF, 0xFF))
            && (forall j :: 0 <= j < |r.discs| ==> r.discs[j] == if j < 2 then Cell(false, [0x2000, 0x200C][j], 0xFF) else Cell(true, 0xFFFF, 0xFF))
            && RegsAt(ls, |ls|, [], r.userRegs) && CoilsAt(ls, |ls|, [], r.userCoils)
            && |r.info1| == |m.info1| && |r.info2| == |m.info2|
  {
    ListsIncreasing();
    ConfiguredIs([], [], ls);
    hide RegsAt, CoilsAt, Configured, Span;
    var r := Memory.Cleaned(m, ls);
    forall x: word ensures (exists j :: 0 <= j < |r.regs| && !r.regs[j].empty && r.regs[j].adress == x) <==> Listed(x) {
      ListedIs(x);
      CleanPlace(m.regs, x);
    }
    hide RegList;
  }

  lemma CleanPlace(t: seq<Reg>, x: word)
    requires |t| == MAXREG
    ensures (exists j :: 0 <= j < |t| && !Memory.CleanRegs(t, RegList())[j].empty && Memory.CleanRegs(t, RegList())[j].adress == x) <==> x in RegList()
  {
    ListsIncreasing();
    ListedIs(NO_ADRESS);
    hide RegList;
    var r := Memory.CleanRegs(t, RegList());
    if x in RegList() {
      var j :| 0 <= j < |RegList()| && RegList()[j] == x;
      assert !r[j].empty && r[j].adress == x;
    }
  }
}
