/**
 * The text of the keyboard-modifiers indicator, as a pure function of the
 * three modifier masks: the base (pointer) mask, the sticky-keys latch mask
 * and the sticky-keys lock mask.
 */
module Indicator {
  import opened Text

  // Clutter.ModifierType bits of the eight modifiers the indicator shows (1 << 0 to 1 << 7).
  const ShiftMask: bv32 := 0x01
  const LockMask: bv32 := 0x02
  const ControlMask: bv32 := 0x04
  const Mod1Mask: bv32 := 0x08
  const Mod2Mask: bv32 := 0x10
  const Mod3Mask: bv32 := 0x20
  const Mod4Mask: bv32 := 0x40
  const Mod5Mask: bv32 := 0x80

  /** The bits of the table below; no other bit of a mask is ever shown. */
  const TableBits: bv32 := 0xFF

  /** One entry of the modifier table: a mask bit and the symbol displayed for it. */
  datatype Modifier = Modifier(mask: bv32, sym: char)

  /** The modifier table, in display order. */
  const Modifiers: seq<Modifier> := [
    Modifier(ShiftMask, '⇧'),
    Modifier(LockMask, '⇬'),
    Modifier(ControlMask, '⋀'),
    Modifier(Mod1Mask, '⌥'),
    Modifier(Mod2Mask, '①'),
    Modifier(Mod3Mask, '◆'),
    Modifier(Mod4Mask, '⌘'),
    Modifier(Mod5Mask, '⎇')
  ]

  const LatchSym: string := "'"
  const LockSym: string := "◦"
  const Icon: string := ""
  const Opening: string := ""
  const Closing: string := ""

  /** What every indicator text starts with. */
  const Head: string := Icon + Opening + " "
  /** What every indicator text ends with. */
  const Tail: string := " " + Closing

  /** The bit of entry `m` is set in mask `x`. */
  predicate HasBit(x: bv32, m: Modifier) {
    (x & m.mask) != 0
  }

  /** The base symbol of `m` is shown when its bit is down or locked (not when only latched). */
  predicate Shown(m: Modifier, state: bv32, lock: bv32) {
    HasBit(state, m) || HasBit(lock, m)
  }

  /** The text one table entry contributes: symbol, then latch marker, then lock marker. */
  function Fragment(m: Modifier, state: bv32, latch: bv32, lock: bv32): (r: string) {
    (if Shown(m, state, lock) then [m.sym] else "")
    + (if HasBit(latch, m) then LatchSym + " " else "")
    + (if HasBit(lock, m) then LockSym + " " else "")
  }

  /** The fragments of `table`, left to right. */
  function Fragments(table: seq<Modifier>, state: bv32, latch: bv32, lock: bv32): (r: string) {
    if table == [] then ""
    else Fragments(table[..|table| - 1], state, latch, lock) + Fragment(table[|table| - 1], state, latch, lock)
  }

  /** The indicator text for the given masks. */
  function Render(state: bv32, latch: bv32, lock: bv32): (r: string) {
    Head + Fragments(Modifiers, state, latch, lock) + Tail
  }

  /** Every indicator text opens with the icon, the opening and a space, and ends with a space and the closing. */
  lemma RenderFramed(state: bv32, latch: bv32, lock: bv32)
    ensures var r := Render(state, latch, lock);
      |Head| + |Tail| <= |r| && r[..|Head|] == Head && r[|r| - |Tail|..] == Tail
  {
    var f := Fragments(Modifiers, state, latch, lock);
    assert (Head + f + Tail)[..|Head|] == Head;
    assert (Head + f + Tail)[|Head + f|..] == Tail;
  }

  /** Number of entries of `table` whose bit is set in `x`. */
  function SetCount(table: seq<Modifier>, x: bv32): (n: nat)
    ensures n <= |table|
  {
    if table == [] then 0
    else SetCount(table[..|table| - 1], x) + (if HasBit(x, table[|table| - 1]) then 1 else 0)
  }

  // ---------------------------------------------------------------------------
  // Tables

  /** A character that is neither a marker nor the separating space. */
  predicate PlainSymbol(c: char) {
    c != ' ' && c != LatchSym[0] && c != LockSym[0]
  }

  /**
   * A table the text can be read back from: plain, pairwise distinct symbols
   * and masks among the eight table bits.
   */
  predicate WellFormed(table: seq<Modifier>) {
    (forall i :: 0 <= i < |table| ==> PlainSymbol(table[i].sym) && table[i].mask & TableBits == table[i].mask)
    && (forall i, j :: 0 <= i < j < |table| ==> table[i].sym != table[j].sym)
  }

  lemma ModifiersWellFormed()
    ensures WellFormed(Modifiers)
  {
  }

  lemma {:induction false} FragmentsAppend(t: seq<Modifier>, u: seq<Modifier>, state: bv32, latch: bv32, lock: bv32)
    ensures Fragments(t + u, state, latch, lock) == Fragments(t, state, latch, lock) + Fragments(u, state, latch, lock)
  {
    if u == [] {
      assert t + u == t;
    } else {
      var init, last := u[..|u| - 1], u[|u| - 1];
      assert (t + u)[..|t + u| - 1] == t + init;
      FragmentsAppend(t, init, state, latch, lock);
      var ft, fi, fl := Fragments(t, state, latch, lock), Fragments(init, state, latch, lock), Fragment(last, state, latch, lock);
      calc {
        Fragments(t + u, state, latch, lock);
        Fragments(t + init, state, latch, lock) + fl;
        ft + fi + fl;
        ft + (fi + fl);
      }
    }
  }

  // ---------------------------------------------------------------------------
  // Each base symbol appears exactly when its modifier is down or locked

  /** Extending a prefix of the table by one entry appends that entry's fragment. */
  lemma FragmentsStep(table: seq<Modifier>, i: nat, state: bv32, latch: bv32, lock: bv32)
    requires i < |table|
    ensures Fragments(table[..i + 1], state, latch, lock) == Fragments(table[..i], state, latch, lock) + Fragment(table[i], state, latch, lock)
  {
    assert table[..i + 1][..i] == table[..i];
  }

  /** The three parts of a fragment, each either empty or one fixed piece of text. */
  lemma FragmentParts(m: Modifier, state: bv32, latch: bv32, lock: bv32, c: char)
    ensures Count(Fragment(m, state, latch, lock), c)
         == (if Shown(m, state, lock) then Count([m.sym], c) else 0)
          + (if HasBit(latch, m) then Count(LatchSym + " ", c) else 0)
          + (if HasBit(lock, m) then Count(LockSym + " ", c) else 0)
  {
    var a := if Shown(m, state, lock) then [m.sym] else "";
    var b := if HasBit(latch, m) then LatchSym + " " else "";
    var d := if HasBit(lock, m) then LockSym + " " else "";
    assert Fragment(m, state, latch, lock) == a + b + d;
    CountAppend(a + b, d, c);
    CountAppend(a, b, c);
  }

  /** A fragment holds the entry's own symbol once when shown, and no other plain symbol. */
  lemma FragmentSymbolCount(m: Modifier, state: bv32, latch: bv32, lock: bv32, c: char)
    requires PlainSymbol(c)
    ensures Count(Fragment(m, state, latch, lock), c) == if c == m.sym && Shown(m, state, lock) then 1 else 0
  {
    FragmentParts(m, state, latch, lock, c);
    CountSingleton(m.sym, c);
    CountAbsent(LatchSym + " ", c);
    CountAbsent(LockSym + " ", c);
  }

  /** Each marker (with its trailing space) holds one copy of its own character and none of the other. */
  lemma MarkerCounts()
    ensures Count(LatchSym + " ", LatchSym[0]) == 1 && Count(LatchSym + " ", LockSym[0]) == 0
    ensures Count(LockSym + " ", LockSym[0]) == 1 && Count(LockSym + " ", LatchSym[0]) == 0
  {
    forall c ensures Count(LatchSym + " ", c) == Count([LatchSym[0]], c) + Count([' '], c)
      && Count(LockSym + " ", c) == Count([LockSym[0]], c) + Count([' '], c)
    {
      assert LatchSym + " " == [LatchSym[0]] + [' '];
      assert LockSym + " " == [LockSym[0]] + [' '];
      CountAppend([LatchSym[0]], [' '], c);
      CountAppend([LockSym[0]], [' '], c);
    }
    CountSingleton(LatchSym[0], LatchSym[0]);
    CountSingleton(LatchSym[0], LockSym[0]);
    CountSingleton(LockSym[0], LockSym[0]);
    CountSingleton(LockSym[0], LatchSym[0]);
    CountSingleton(' ', LatchSym[0]);
    CountSingleton(' ', LockSym[0]);
  }

  /** A fragment holds one latch marker when latched and one lock marker when locked. */
  lemma FragmentMarkerCount(m: Modifier, state: bv32, latch: bv32, lock: bv32)
    requires PlainSymbol(m.sym)
    ensures Count(Fragment(m, state, latch, lock), LatchSym[0]) == if HasBit(latch, m) then 1 else 0
    ensures Count(Fragment(m, state, latch, lock), LockSym[0]) == if HasBit(lock, m) then 1 else 0
  {
    FragmentParts(m, state, latch, lock, LatchSym[0]);
    FragmentParts(m, state, latch, lock, LockSym[0]);
    CountSingleton(m.sym, LatchSym[0]);
    CountSingleton(m.sym, LockSym[0]);
    MarkerCounts();
  }

  /** A plain character that is no entry's symbol does not occur in the fragments. */
  lemma {:induction false} FragmentsSymbolAbsent(table: seq<Modifier>, c: char, state: bv32, latch: bv32, lock: bv32)
    requires PlainSymbol(c)
    requires forall k :: 0 <= k < |table| ==> table[k].sym != c
    ensures Count(Fragments(table, state, latch, lock), c) == 0
  {
    if table != [] {
      var init := table[..|table| - 1];
      FragmentsSymbolAbsent(init, c, state, latch, lock);
      FragmentSymbolCount(table[|table| - 1], state, latch, lock, c);
      CountAppend(Fragments(init, state, latch, lock), Fragment(table[|table| - 1], state, latch, lock), c);
    }
  }

  lemma {:induction false} FragmentsSymbolCount(table: seq<Modifier>, i: nat, state: bv32, latch: bv32, lock: bv32)
    requires WellFormed(table) && i < |table|
    ensures Count(Fragments(table, state, latch, lock), table[i].sym) == if Shown(table[i], state, lock) then 1 else 0
  {
    var n := |table| - 1;
    var init := table[..n];
    var c := table[i].sym;
    FragmentSymbolCount(table[n], state, latch, lock, c);
    CountAppend(Fragments(init, state, latch, lock), Fragment(table[n], state, latch, lock), c);
    if i < n {
      FragmentsSymbolCount(init, i, state, latch, lock);
    } else {
      FragmentsSymbolAbsent(init, c, state, latch, lock);
    }
  }

  /**
   * The symbol of modifier `i` occurs once in the text when the modifier is
   * down or locked, and not at all otherwise: a latched bit alone never adds
   * it, and a bit both down and locked does not add it twice.
   */
  lemma SymbolShownOnce(i: nat, state: bv32, latch: bv32, lock: bv32)
    requires i < |Modifiers|
    ensures Count(Render(state, latch, lock), Modifiers[i].sym)
         == if (state & Modifiers[i].mask) != 0 || (lock & Modifiers[i].mask) != 0 then 1 else 0
  {
    var c := Modifiers[i].sym;
    var f := Fragments(Modifiers, state, latch, lock);
    ModifiersWellFormed();
    FragmentsSymbolCount(Modifiers, i, state, latch, lock);
    CountAppend(Head + f, Tail, c);
    CountAppend(Head, f, c);
    CountAbsent(Head, c);
    CountAbsent(Tail, c);
  }

  // ---------------------------------------------------------------------------
  // One latch marker per latched modifier, one lock marker per locked modifier

  lemma {:induction false} FragmentsLatchCount(table: seq<Modifier>, state: bv32, latch: bv32, lock: bv32)
    requires forall k :: 0 <= k < |table| ==> PlainSymbol(table[k].sym)
    ensures Count(Fragments(table, state, latch, lock), LatchSym[0]) == SetCount(table, latch)
  {
    if table != [] {
      var init, last := table[..|table| - 1], table[|table| - 1];
      var f, g := Fragments(init, state, latch, lock), Fragment(last, state, latch, lock);
      assert Fragments(table, state, latch, lock) == f + g;
      FragmentsLatchCount(init, state, latch, lock);
      FragmentMarkerCount(last, state, latch, lock);
      CountAppend(f, g, LatchSym[0]);
    }
  }

  lemma {:induction false} FragmentsLockCount(table: seq<Modifier>, state: bv32, latch: bv32, lock: bv32)
    requires forall k :: 0 <= k < |table| ==> PlainSymbol(table[k].sym)
    ensures Count(Fragments(table, state, latch, lock), LockSym[0]) == SetCount(table, lock)
  {
    if table != [] {
      var init, last := table[..|table| - 1], table[|table| - 1];
      var f, g := Fragments(init, state, latch, lock), Fragment(last, state, latch, lock);
      assert Fragments(table, state, latch, lock) == f + g;
      FragmentsLockCount(init, state, latch, lock);
      FragmentMarkerCount(last, state, latch, lock);
      CountAppend(f, g, LockSym[0]);
    }
  }

  /** The text holds one latch marker per latched table modifier and one lock marker per locked one. */
  lemma MarkersCounted(state: bv32, latch: bv32, lock: bv32)
    ensures Count(Render(state, latch, lock), LatchSym[0]) == SetCount(Modifiers, latch)
    ensures Count(Render(state, latch, lock), LockSym[0]) == SetCount(Modifiers, lock)
  {
    var f := Fragments(Modifiers, state, latch, lock);
    ModifiersWellFormed();
    FragmentsLatchCount(Modifiers, state, latch, lock);
    FragmentsLockCount(Modifiers, state, latch, lock);
    forall c | c == LatchSym[0] || c == LockSym[0]
      ensures Count(Head + f + Tail, c) == Count(f, c)
    {
      CountAppend(Head + f, Tail, c);
      CountAppend(Head, f, c);
      CountAbsent(Head, c);
      CountAbsent(Tail, c);
    }
  }

  // ---------------------------------------------------------------------------
  // Symbols appear in table order

  lemma FragmentsSingleton(m: Modifier, state: bv32, latch: bv32, lock: bv32)
    ensures Fragments([m], state, latch, lock) == Fragment(m, state, latch, lock)
  {
    assert [m][..0] == [];
  }

  /** Splitting the table around entry `j` splits its fragments the same way. */
  lemma FragmentsAround(table: seq<Modifier>, j: nat, state: bv32, latch: bv32, lock: bv32)
    requires j < |table|
    ensures Fragments(table, state, latch, lock)
         == Fragments(table[..j], state, latch, lock) + Fragment(table[j], state, latch, lock)
          + Fragments(table[j + 1..], state, latch, lock)
  {
    assert table == table[..j] + [table[j]] + table[j + 1..];
    FragmentsAppend(table[..j] + [table[j]], table[j + 1..], state, latch, lock);
    FragmentsAppend(table[..j], [table[j]], state, latch, lock);
    FragmentsSingleton(table[j], state, latch, lock);
  }

  lemma FragmentsInOrder(table: seq<Modifier>, i: nat, j: nat, state: bv32, latch: bv32, lock: bv32)
    requires WellFormed(table) && i < j < |table|
    requires Shown(table[i], state, lock) && Shown(table[j], state, lock)
    ensures var f := Fragments(table, state, latch, lock);
      exists p, q :: 0 <= p < q < |f| && f[p] == table[i].sym && f[q] == table[j].sym
  {
    var before := Fragments(table[..j], state, latch, lock);
    var frag := Fragment(table[j], state, latch, lock);
    var after := Fragments(table[j + 1..], state, latch, lock);
    assert WellFormed(table[..j]);
    FragmentsSymbolCount(table[..j], i, state, latch, lock);
    CountPositive(before, table[i].sym);
    var p :| 0 <= p < |before| && before[p] == table[i].sym;
    FragmentsAround(table, j, state, latch, lock);
    var f := before + frag + after;
    assert f[p] == table[i].sym;
    assert f[|before|] == table[j].sym;
  }

  /**
   * When modifiers `i < j` are both shown, the symbol of `i` comes before the
   * symbol of `j` (each occurs once, by SymbolShownOnce).
   */
  lemma SymbolsInTableOrder(i: nat, j: nat, state: bv32, latch: bv32, lock: bv32)
    requires i < j < |Modifiers|
    requires Shown(Modifiers[i], state, lock) && Shown(Modifiers[j], state, lock)
    ensures var r := Render(state, latch, lock);
      exists p, q :: 0 <= p < q < |r| && r[p] == Modifiers[i].sym && r[q] == Modifiers[j].sym
  {
    var f := Fragments(Modifiers, state, latch, lock);
    var r := Head + f + Tail;
    ModifiersWellFormed();
    FragmentsInOrder(Modifiers, i, j, state, latch, lock);
    var p, q :| 0 <= p < q < |f| && f[p] == Modifiers[i].sym && f[q] == Modifiers[j].sym;
    assert r == Render(state, latch, lock);
    assert r[|Head| + p] == f[p];
    assert r[|Head| + q] == f[q];
  }

  // ---------------------------------------------------------------------------
  // Bits outside the table change nothing in the text

  lemma HighBitsMasked(x: bv32, m: Modifier)
    requires m.mask & TableBits == m.mask
    ensures HasBit(x & TableBits, m) == HasBit(x, m)
  {
    assert (x & TableBits) & m.mask == x & m.mask;
  }

  /** Masks that agree on the bit of `m` give `m` the same fragment. */
  lemma FragmentCongruent(m: Modifier, state: bv32, latch: bv32, lock: bv32, state': bv32, latch': bv32, lock': bv32)
    requires HasBit(state, m) == HasBit(state', m)
    requires HasBit(latch, m) == HasBit(latch', m)
    requires HasBit(lock, m) == HasBit(lock', m)
    ensures Fragment(m, state, latch, lock) == Fragment(m, state', latch', lock')
  {
  }

  lemma FragmentIgnoresHighBits(m: Modifier, state: bv32, latch: bv32, lock: bv32)
    requires m.mask & TableBits == m.mask
    ensures Fragment(m, state, latch, lock) == Fragment(m, state & TableBits, latch & TableBits, lock & TableBits)
  {
    HighBitsMasked(state, m);
    HighBitsMasked(latch, m);
    HighBitsMasked(lock, m);
    FragmentCongruent(m, state, latch, lock, state & TableBits, latch & TableBits, lock & TableBits);
  }

  lemma {:induction false} FragmentsIgnoreHighBits(table: seq<Modifier>, state: bv32, latch: bv32, lock: bv32)
    requires forall k :: 0 <= k < |table| ==> table[k].mask & TableBits == table[k].mask
    ensures Fragments(table, state, latch, lock)
         == Fragments(table, state & TableBits, latch & TableBits, lock & TableBits)
  {
    if table != [] {
      var init, last := table[..|table| - 1], table[|table| - 1];
      FragmentIgnoresHighBits(last, state, latch, lock);
      FragmentsIgnoreHighBits(init, state, latch, lock);
      assert Fragments(table, state, latch, lock)
          == Fragments(init, state, latch, lock) + Fragment(last, state, latch, lock);
      assert Fragments(table, state & TableBits, latch & TableBits, lock & TableBits)
          == Fragments(init, state & TableBits, latch & TableBits, lock & TableBits)
           + Fragment(last, state & TableBits, latch & TableBits, lock & TableBits);
    }
  }

  /**
   * Masks that agree on the eight table bits render the same text: a change
   * confined to other bits makes the tracker re-render, with identical output.
   */
  lemma RenderIgnoresHighBits(state: bv32, latch: bv32, lock: bv32)
    ensures Render(state, latch, lock) == Render(state & TableBits, latch & TableBits, lock & TableBits)
  {
    ModifiersWellFormed();
    FragmentsIgnoreHighBits(Modifiers, state, latch, lock);
  }

  // ---------------------------------------------------------------------------
  // Concrete renderings

  /** The bit of entry `m` is in none of the three masks. */
  predicate Inactive(m: Modifier, state: bv32, latch: bv32, lock: bv32) {
    !HasBit(state, m) && !HasBit(latch, m) && !HasBit(lock, m)
  }

  /** An entry whose bit is in none of the masks contributes nothing. */
  lemma FragmentOfInactive(m: Modifier, state: bv32, latch: bv32, lock: bv32)
    requires Inactive(m, state, latch, lock)
    ensures Fragment(m, state, latch, lock) == ""
  {
  }

  /** Entries none of whose bits is set contribute nothing. */
  lemma {:induction false} FragmentsOfInactive(table: seq<Modifier>, state: bv32, latch: bv32, lock: bv32)
    requires forall k :: 0 <= k < |table| ==> Inactive(table[k], state, latch, lock)
    ensures Fragments(table, state, latch, lock) == ""
  {
    if table != [] {
      FragmentOfInactive(table[|table| - 1], state, latch, lock);
      FragmentsOfInactive(table[..|table| - 1], state, latch, lock);
    }
  }

  /** When only entry `k` has bits set, the fragments are that entry's fragment alone. */
  lemma FragmentsSingle(table: seq<Modifier>, k: nat, state: bv32, latch: bv32, lock: bv32)
    requires k < |table|
    requires forall j :: 0 <= j < |table| && j != k ==> Inactive(table[j], state, latch, lock)
    ensures Fragments(table, state, latch, lock) == Fragment(table[k], state, latch, lock)
  {
    var before, after := table[..k], table[k + 1..];
    assert forall j :: 0 <= j < |after| ==> after[j] == table[k + 1 + j];
    FragmentsOfInactive(before, state, latch, lock);
    FragmentsOfInactive(after, state, latch, lock);
    FragmentsAround(table, k, state, latch, lock);
  }

  /** With no modifier active the text is the framing alone: two spaces. */
  lemma RenderNothing()
    ensures Render(0, 0, 0) == "  "
  {
    FragmentsOfInactive(Modifiers, 0, 0, 0);
  }

  /** Shift held down alone renders its symbol between the framing spaces. */
  lemma RenderShiftDown()
    ensures Render(ShiftMask, 0, 0) == " ⇧ "
  {
    FragmentsSingle(Modifiers, 0, ShiftMask, 0, 0);
  }

  /** Control locked alone renders its symbol, then the lock marker and a space. */
  lemma RenderControlLocked()
    ensures Render(0, 0, ControlMask) == " ⋀◦  "
  {
    FragmentsSingle(Modifiers, 2, 0, 0, ControlMask);
  }

  /**
   * Caps Lock latched alone renders only the latch marker: the base symbol
   * is left to the pointer mask, which already holds latched bits.
   */
  lemma RenderCapsLatchedOnly()
    ensures Render(0, LockMask, 0) == " '  "
  {
    FragmentsSingle(Modifiers, 1, 0, LockMask, 0);
  }
}
