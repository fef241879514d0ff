/**
 * The panel extension: a tracker of the three modifier masks that re-renders
 * the indicator label only when one of them changed since the last render.
 *
 * The host's event sources are parameters: `pointer` is the modifier mask
 * the shell reports for the pointer (None when it reports none), and the
 * sticky-keys signal delivers the latch and lock masks.
 */
module Extension {
  import opened Wrappers
  import opened Indicator

  /** Clutter.EVENT_PROPAGATE: let other handlers see the event too. */
  const EventPropagate: bool := false
  /** GLib.SOURCE_CONTINUE, the value the sticky-keys handler returns. */
  const SourceContinue: bool := true

  /** The kinds of event the stage reports; only key presses and releases matter here. */
  datatype EventType = KeyPress | KeyRelease | ButtonPress | ButtonRelease | Motion | Scroll | OtherEvent

  /** The fields of a tracker at one moment. */
  datatype Snapshot = Snapshot(
    state: bv32, prevState: bv32, latch: bv32, prevLatch: bv32, lock: bv32, prevLock: bv32,
    indicator: Option<string>, labelText: Option<string>)

  predicate IsKeyEvent(t: EventType) {
    t == KeyPress || t == KeyRelease
  }

  /** One pass of the render loop: appends the fragment of entry `m` to `text`. */
  method AppendFragment(text: string, m: Modifier, state: bv32, latch: bv32, lock: bv32) returns (text': string)
    ensures text' == text + Fragment(m, state, latch, lock)
  {
    text' := text;
    if Shown(m, state, lock) {
      text' := text' + [m.sym];
    }
    if HasBit(latch, m) {
      text' := text' + (LatchSym + " ");
    }
    if HasBit(lock, m) {
      text' := text' + (LockSym + " ");
    }
  }

  /** The render loop over any table of entries: the framing, then each entry's fragment in order. */
  method BuildText(table: seq<Modifier>, state: bv32, latch: bv32, lock: bv32) returns (text: string)
    ensures text == Head + Fragments(table, state, latch, lock) + Tail
  {
    text := Icon + Opening + " ";
    assert table[..0] == [];
    for i := 0 to |table|
      invariant text == Head + Fragments(table[..i], state, latch, lock)
    {
      FragmentsStep(table, i, state, latch, lock);
      text := AppendFragment(text, table[i], state, latch, lock);
    }
    assert table[..|table|] == table;
    text := text + (" " + Closing);
  }

  /** The indicator text the render step builds from the modifier table. */
  method BuildIndicator(state: bv32, latch: bv32, lock: bv32) returns (text: string)
    ensures text == Render(state, latch, lock)
  {
    text := BuildText(Modifiers, state, latch, lock);
  }

  class Kms {
    var state: bv32
    var prevState: bv32
    var latch: bv32
    var prevLatch: bv32
    var lock: bv32
    var prevLock: bv32
    /** The last rendered text; None until the first render after enabling. */
    var indicator: Option<string>
    /** The text of the panel label; None while there is no label (disabled). */
    var labelText: Option<string>

    /**
     * Enabled, and the label shows the rendering of the committed masks:
     * before the first render it is still empty and the committed masks are zero.
     */
    ghost predicate Valid()
      reads this
    {
      labelText.Some?
      && (indicator.None? ==> labelText == Some("") && prevState == 0 && prevLatch == 0 && prevLock == 0)
      && (indicator.Some? ==> labelText == indicator && indicator.value == Render(prevState, prevLatch, prevLock))
    }

    /** The masks are zero: nothing is down, latched or locked. */
    ghost predicate Cleared()
      reads this
    {
      state == 0 && prevState == 0 && latch == 0 && prevLatch == 0 && lock == 0 && prevLock == 0
      && indicator == None
    }

    /**
     * What a render step leaves behind, given the committed masks and texts
     * before it: the current masks are committed, and the indicator and
     * label are re-rendered exactly when a mask differs from its committed value.
     */
    ghost predicate RenderedFrom(ps: bv32, pla: bv32, plo: bv32, ind: Option<string>, lab: Option<string>)
      reads this
    {
      var changed := state != ps || latch != pla || lock != plo;
      prevState == state && prevLatch == latch && prevLock == lock
      && (changed ==> indicator == Some(Render(state, latch, lock)) && labelText == indicator)
      && (!changed ==> indicator == ind && labelText == lab)
    }

    function Snap(): Snapshot
      reads this
    {
      Snapshot(state, prevState, latch, prevLatch, lock, prevLock, indicator, labelText)
    }

    constructor ()
      ensures Cleared() && labelText == None
    {
      state, prevState := 0, 0;
      latch, prevLatch := 0, 0;
      lock, prevLock := 0, 0;
      indicator := None;
      labelText := None;
    }

    /** Resets the masks, creates an empty label and renders the current pointer mask. */
    method Enable(pointer: Option<bv32>)
      modifies this
      ensures Valid()
      ensures state == pointer.GetOr(0) && latch == 0 && lock == 0
      ensures RenderedFrom(0, 0, 0, None, Some(""))
    {
      state, prevState := 0, 0;
      latch, prevLatch := 0, 0;
      lock, prevLock := 0, 0;
      indicator := None;
      labelText := Some("");
      Update(pointer);
    }

    /** Drops the label and resets the masks. */
    method Disable()
      modifies this
      ensures Cleared() && labelText == None
    {
      labelText := None;
      state, prevState := 0, 0;
      latch, prevLatch := 0, 0;
      lock, prevLock := 0, 0;
      indicator := None;
    }

    /**
     * The branch of the update taken when a mask changed: renders the current
     * masks into the indicator, shows it on the label and commits the masks.
     */
    method Rerender()
      modifies this
      ensures state == old(state) && latch == old(latch) && lock == old(lock)
      ensures prevState == state && prevLatch == latch && prevLock == lock
      ensures indicator == Some(Render(state, latch, lock)) && labelText == indicator
    {
      var text := BuildIndicator(state, latch, lock);
      indicator := Some(text);
      labelText := indicator;
      prevState, prevLatch, prevLock := state, latch, lock;
    }

    /**
     * Reads the pointer mask (keeping the old one when none is reported) and
     * re-renders when any mask differs from its committed value.
     */
    method Update(pointer: Option<bv32>)
      requires Valid()
      modifies this
      ensures Valid()
      ensures state == pointer.GetOr(old(state)) && latch == old(latch) && lock == old(lock)
      ensures RenderedFrom(old(prevState), old(prevLatch), old(prevLock), old(indicator), old(labelText))
    {
      if pointer.Some? {
        state := pointer.value;
      }
      if state != prevState || latch != prevLatch || lock != prevLock {
        Rerender();
      }
    }

    /** Stage event handler: key presses and releases trigger an update; the event always propagates. */
    method OnCapturedEvent(eventType: EventType, pointer: Option<bv32>) returns (stop: bool)
      requires Valid()
      modifies this
      ensures Valid()
      ensures stop == EventPropagate
      ensures IsKeyEvent(eventType) ==>
        state == pointer.GetOr(old(state)) && latch == old(latch) && lock == old(lock)
        && RenderedFrom(old(prevState), old(prevLatch), old(prevLock), old(indicator), old(labelText))
      ensures !IsKeyEvent(eventType) ==> unchanged(this)
    {
      if eventType == KeyPress || eventType == KeyRelease {
        Update(pointer);
      }
      stop := EventPropagate;
    }

    /**
     * Sticky-keys handler: records each reported mask (an absent one keeps
     * its old value), then updates.
     */
    method A11yModsUpdate(latchNew: Option<bv32>, lockNew: Option<bv32>, pointer: Option<bv32>)
      returns (keep: bool)
      requires Valid()
      modifies this
      ensures Valid()
      ensures keep == SourceContinue
      ensures latch == latchNew.GetOr(old(latch)) && lock == lockNew.GetOr(old(lock))
      ensures state == pointer.GetOr(old(state))
      ensures RenderedFrom(old(prevState), old(prevLatch), old(prevLock), old(indicator), old(labelText))
    {
      if latchNew.Some? {
        latch := latchNew.value;
      }
      if lockNew.Some? {
        lock := lockNew.value;
      }
      Update(pointer);
      keep := SourceContinue;
    }
  }

  /**
   * A second update with the same pointer report changes nothing: `after`
   * holds every field after the first update, the two updates together
   * leave what one leaves, and the second leaves every field as `after` had it.
   */
  method UpdateIsIdempotent(k: Kms, pointer: Option<bv32>) returns (after: Snapshot)
    requires k.Valid()
    modifies k
    ensures k.Valid()
    ensures k.state == pointer.GetOr(old(k.state)) && k.latch == old(k.latch) && k.lock == old(k.lock)
    ensures k.RenderedFrom(old(k.prevState), old(k.prevLatch), old(k.prevLock), old(k.indicator), old(k.labelText))
    ensures k.Snap() == after
  {
    k.Update(pointer);
    after := k.Snap();
    k.Update(pointer);
  }

  /**
   * The label depends on the history and not only on the masks: enabling
   * with nothing down leaves it empty, but pressing and releasing Shift
   * afterwards brings back the same zero masks with the label showing the
   * rendering of nothing, the two framing spaces.
   */
  method PressAndReleaseAfterEnable(k: Kms)
    modifies k
    ensures k.Valid()
    ensures k.state == 0 && k.latch == 0 && k.lock == 0
    ensures k.labelText == Some(Render(0, 0, 0)) && k.labelText == Some("  ")
  {
    k.Enable(Some(0));
    assert k.labelText == Some("");
    k.Update(Some(ShiftMask));
    k.Update(Some(0));
    RenderNothing();
  }

  /** Enabling while no modifier is down renders nothing: the label stays empty. */
  method EnableWithNothingDown(k: Kms)
    modifies k
    ensures k.Valid()
    ensures k.indicator == None && k.labelText == Some("")
  {
    k.Enable(Some(0));
  }
}
