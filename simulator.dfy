/**
 * The desktop simulator's logic: the demo animation, a brightness counter that pulses
 * pixel (0, 0) in blue, and the rule by which App picks the animation to run on each tick.
 */
module Simulator {
  import opened Wrappers
  import opened Framework
  import Layout

  /** The demo animation's counter: its brightness and the direction it moves in. */
  datatype Pulse = Pulse(brightness: nat, increasing: bool)

  /** A new Animation starts dark and brightening. */
  const Start := Pulse(0, true)

  /**
   * One step of the counter in Animation.update: ten up or ten down, clamped to 255
   * on the way up and to 0 on the way down; the direction turns exactly when it clamps.
   */
  function Step(s: Pulse): (t: Pulse)
    ensures t.increasing != s.increasing <==>
      (if s.increasing then s.brightness + 10 >= 255 else s.brightness <= 10)
    ensures t.increasing == s.increasing ==>
      t.brightness == (if s.increasing then s.brightness + 10 else s.brightness - 10)
    ensures t.increasing != s.increasing ==> t.brightness == (if s.increasing then 255 else 0)
    ensures s.brightness <= 255 ==> t.brightness <= 255
  {
    if s.increasing then
      if s.brightness + 10 >= 255 then Pulse(255, false) else Pulse(s.brightness + 10, true)
    else
      if s.brightness - 10 <= 0 then Pulse(0, true) else Pulse(s.brightness - 10, false)
  }

  /** The counter after n calls of update. */
  function Run(s: Pulse, n: nat): (t: Pulse)
    ensures s.brightness <= 255 ==> t.brightness <= 255
  {
    if n == 0 then s else Step(Run(s, n - 1))
  }

  /**
   * The states the counter passes through from Start: multiples of ten up to 250 on the
   * way up, and 255, 245, ..., 5 on the way down.
   */
  ghost predicate OnCycle(s: Pulse)
  {
    if s.increasing then s.brightness % 10 == 0 && s.brightness <= 250
    else s.brightness % 10 == 5 && 5 <= s.brightness <= 255
  }

  /** From Start, the brightness stays within 0..255 however many times update runs. */
  lemma {:induction false} RunStaysOnCycle(n: nat)
    ensures OnCycle(Run(Start, n))
    ensures Run(Start, n).brightness <= 255
  {
    if n > 0 {
      RunStaysOnCycle(n - 1);
    }
  }

  /** The first 25 updates brighten by ten each. */
  lemma {:induction false} RunRising(k: nat)
    requires k <= 25
    ensures Run(Start, k) == Pulse(10 * k, true)
  {
    if k > 0 {
      RunRising(k - 1);
    }
  }

  /** Update 26 clamps to 255 and turns; the next 25 dim by ten each. */
  lemma {:induction false} RunFalling(k: nat)
    requires k <= 25
    ensures Run(Start, 26 + k) == Pulse(255 - 10 * k, false)
  {
    if k == 0 {
      RunRising(25);
    } else {
      RunFalling(k - 1);
    }
  }

  /** Update 52 clamps to 0 and turns again: the pulse repeats every 52 updates. */
  lemma PulsePeriod()
    ensures Run(Start, 26) == Pulse(255, false)
    ensures Run(Start, 52) == Start
  {
    RunFalling(0);
    RunFalling(25);
  }

  class Animation {
    var brightness: nat
    var increasing: bool

    constructor ()
      ensures Pulse(brightness, increasing) == Start
    {
      brightness := 0;
      increasing := true;
    }

    /** The demo animation never finishes. */
    function IsDone(): (done: bool)
      ensures !done
    {
      false
    }

    /**
     * Clears the display, lights pixel_at(0, 0) in blue at the current brightness, and
     * steps the counter. An IndexError from the clear's show, or from pixel_at on an
     * empty display, ends the call early (false) with the counter unchanged.
     */
    method Update(display: Display) returns (ok: bool)
      requires display.Valid()
      modifies this, display.pixels, display.strand.ledData
      ensures ok ==> Pulse(brightness, increasing) == Step(old(Pulse(brightness, increasing)))
      ensures !ok ==> brightness == old(brightness) && increasing == old(increasing)
      ensures ok ==> (display.count > 0 &&
        display.pixels[0].blue == 255 && display.pixels[0].brightness == old(brightness) &&
        display.pixels[0].red == 0 && display.pixels[0].green == 0 && display.pixels[0].white == 0)
      ensures forall i :: (if ok then 1 else 0) <= i < |display.pixels| ==>
        display.pixels[i].red == 0 && display.pixels[i].green == 0 &&
        display.pixels[i].blue == 0 && display.pixels[i].white == 0 &&
        display.pixels[i].brightness == old(display.pixels[i].brightness)
      ensures display.strand.ledData[..] ==
        ShowWrites(old(display.strand.ledData[..]), display.BlankFrame(), |display.pixels|).0
      ensures ok <==>
        ShowWrites(old(display.strand.ledData[..]), display.BlankFrame(), |display.pixels|).1 && display.count > 0
      ensures Layout.IsSlotPermutation(LayoutOf(display.platform, display.numRows, display.numCols)) ==>
        (ok <==> display.count > 0) &&
        forall s :: 0 <= s < display.count ==> display.strand.ledData[s] == Blank(display.platform)
    {
      ghost var before := display.strand.ledData[..];
      var shown := display.Clear();
      if Layout.IsSlotPermutation(LayoutOf(display.platform, display.numRows, display.numCols)) {
        ShowBlanksStrand(display, before);
      }
      if !shown {
        return false;
      }
      var p := display.PixelAt(0, 0);
      if p.None? {
        return false;
      }
      var lit := p.value;
      assert lit == display.pixels[0];
      lit.brightness := brightness;
      lit.blue := 255;
      Advance();
      ok := true;
    }

    /** The counter half of update: ten up or down, clamping and turning at either end. */
    method Advance()
      modifies this
      ensures Pulse(brightness, increasing) == Step(old(Pulse(brightness, increasing)))
    {
      if increasing {
        brightness := brightness + 10;
        if brightness >= 255 {
          brightness := 255;
          increasing := false;
        }
      } else {
        var b := brightness - 10;
        if b <= 0 {
          brightness := 0;
          increasing := true;
        } else {
          brightness := b;
        }
      }
    }
  }

  /**
   * Whether position m of the animation list is passed over on the way from `from` to
   * `to`, scanning forward and wrapping after the last.
   */
  predicate Passed(from: nat, to: nat, m: nat)
  {
    if from <= to then from <= m < to else from <= m || m < to
  }

  /** App.get_current_animation: a generator that remembers which animation it is on. */
  class Scheduler {
    const size: nat
    var current: nat

    ghost predicate Valid()
      reads this
    {
      size > 0 ==> current < size
    }

    /** The generator starts at the first animation. */
    constructor (size: nat)
      ensures Valid() && this.size == size && current == 0
    {
      this.size := size;
      current := 0;
    }

    /**
     * `next()` on the generator; done[i] is what is_done() of animation i answers now.
     * It stays on the current animation while that is not done, otherwise moves on in
     * list order, wrapping after the last, to the first that is not done. If every
     * animation were done the generator would spin forever, so one must not be.
     */
    method Next(done: seq<bool>) returns (k: nat)
      requires Valid() && |done| == size
      requires exists j :: 0 <= j < size && !done[j]
      modifies this
      ensures Valid() && current == k
      ensures k < size && !done[k]
      ensures forall m :: 0 <= m < size && Passed(old(current), k, m) ==> done[m]
      ensures !done[old(current)] ==> k == old(current)
    {
      ghost var j :| 0 <= j < size && !done[j];
      var i: nat := current;
      while done[i]
        invariant i < size
        invariant forall m :: 0 <= m < size && Passed(old(current), i, m) ==> done[m]
        decreases if i <= j then j - i else size - i + j
      {
        i := if i + 1 == size then 0 else i + 1;
      }
      current := i;
      k := i;
    }
  }
}
