/** The panel object: the frame permits handed out by the 60 Hz ticker,
    the frame counter and the 1 Hz rate sampler, and the star list that each
    permitted paint pass updates in place. Threads and timers are left out:
    each timer body and each paint callback is one method call, run one at
    a time. */
module Panel {
  import opened Kinematics
  import opened StarField

  /** Sum of the sampled frame rates. */
  function Sum(xs: seq<int>): (r: int)
    ensures (forall i :: 0 <= i < |xs| ==> xs[i] >= 0) ==> r >= 0
  {
    if xs == [] then 0 else Sum(xs[..|xs| - 1]) + xs[|xs| - 1]
  }

  lemma SumSnoc(xs: seq<int>, x: int)
    ensures Sum(xs + [x]) == Sum(xs) + x
  {
    assert (xs + [x])[..|xs|] == xs;
  }

  /** Replacing the element at index k and then removing it is removing
      it. */
  lemma SetThenRemove<T>(s: seq<T>, k: nat, y: T)
    requires k < |s|
    ensures s[k := y][..k] + s[k := y][k + 1..] == s[..k] + s[k + 1..]
  {
    assert s[k := y][..k] == s[..k];
    assert s[k := y][k + 1..] == s[k + 1..];
  }

  /** One turn of the visiting loop at index i of the snapshot, with `kept`
      the survivors so far, so that the live list is `kept + snapshot[i..]`:
      the visited star sits at index |kept| of it, ageing it there or
      removing it there leaves the live list of the next turn, and the
      survivors grow by the aged star exactly when it stays. */
  lemma VisitTurn(snapshot: seq<Star>, i: nat, kept: seq<Star>, w: nat, h: nat)
    requires i < |snapshot| && kept == Survivors(snapshot[..i], w, h)
    ensures (kept + snapshot[i..])[|kept|] == snapshot[i]
    ensures (kept + snapshot[i..])[|kept| := Aged(snapshot[i])]
         == kept + [Aged(snapshot[i])] + snapshot[i + 1..]
    ensures (kept + snapshot[i..])[..|kept|] + (kept + snapshot[i..])[|kept| + 1..]
         == kept + snapshot[i + 1..]
    ensures Survivors(snapshot[..i + 1], w, h)
         == kept + (if Visible(Aged(snapshot[i]), w, h) then [Aged(snapshot[i])] else [])
  {
    var s := kept + snapshot[i..];
    assert snapshot[i..] == [snapshot[i]] + snapshot[i + 1..];
    assert s[..|kept|] == kept;
    assert s[|kept| + 1..] == snapshot[i + 1..];
    assert snapshot[..i + 1] == snapshot[..i] + [snapshot[i]];
    SurvivorsSnoc(snapshot[..i], snapshot[i], w, h);
  }

  class RenderPanel {
    /** Available permits of `frameLock`. */
    var permits: nat
    /** Paint passes that got a permit. */
    var frameCount: nat
    /** The rate shown on screen: passes in the last sampling period. */
    var framerate: int
    /** `frameCount` as of the previous sample. */
    var lastFrameCount: nat
    /** The `colors` list: each star's colour and age. */
    var stars: seq<Star>

    /** Ticks delivered so far. */
    ghost var ticks: nat
    /** Every rate the sampler has stored, oldest first. */
    ghost var samples: seq<int>

    /** Permits are the initial one plus one per tick, less one per
        permitted pass; the sampled rates add up to the frame count at the
        last sample. */
    ghost predicate Valid()
      reads this
    {
      permits + frameCount == ticks + 1 &&
      lastFrameCount <= frameCount &&
      Sum(samples) == lastFrameCount &&
      framerate == (if samples == [] then 0 else samples[|samples| - 1])
    }

    /** `Semaphore(1)`, two zeroed counters and an empty list. */
    constructor ()
      ensures Valid()
      ensures permits == 1 && frameCount == 0 && framerate == 0 && lastFrameCount == 0
      ensures stars == [] && ticks == 0 && samples == []
    {
      permits, frameCount, framerate, lastFrameCount := 1, 0, 0, 0;
      stars := [];
      ticks, samples := 0, [];
    }

    /** The 60 Hz timer body: `frameLock.release()` adds one permit, so
        ticks no paint pass consumed accumulate. */
    method Tick()
      requires Valid()
      modifies this
      ensures Valid()
      ensures permits == old(permits) + 1 && ticks == old(ticks) + 1
      ensures frameCount == old(frameCount) && framerate == old(framerate)
      ensures lastFrameCount == old(lastFrameCount) && stars == old(stars)
      ensures samples == old(samples)
    {
      permits := permits + 1;
      ticks := ticks + 1;
    }

    /** The 1 Hz timer body: the rate becomes the number of permitted
        passes since the previous sample, and the snapshot moves up. */
    method Sample()
      requires Valid()
      modifies this
      ensures Valid()
      ensures framerate == old(frameCount) - old(lastFrameCount) && framerate >= 0
      ensures lastFrameCount == frameCount
      ensures samples == old(samples) + [framerate]
      ensures Sum(samples) == frameCount
      ensures permits == old(permits) && frameCount == old(frameCount)
      ensures stars == old(stars) && ticks == old(ticks)
    {
      var now := frameCount;
      var last := lastFrameCount;
      lastFrameCount := now;
      framerate := now - last;
      SumSnoc(samples, framerate);
      samples := samples + [framerate];
    }

    /** `paintComponent` on a `w` by `h` canvas, with `c` the colour drawn
        for the new star. Without a permit nothing happens; with one, the
        permit is consumed, the frame counted and the star list advanced,
        and `trails` lists the squares drawn, one trail per star kept. */
    method Paint(w: nat, h: nat, c: Color) returns (painted: bool, trails: seq<seq<Square>>)
      requires Valid()
      modifies this
      ensures Valid()
      ensures painted <==> old(permits) > 0
      ensures !painted ==> (permits == old(permits) && frameCount == old(frameCount) &&
                            stars == old(stars) && trails == [])
      ensures painted ==> (permits == old(permits) - 1 && frameCount == old(frameCount) + 1 &&
                           stars == Step(old(stars), c, w, h))
      ensures painted ==> trails == Trails(stars, w, h)
      ensures painted ==> forall i :: 0 <= i < |stars| ==> Visible(stars[i], w, h)
      ensures framerate == old(framerate) && lastFrameCount == old(lastFrameCount)
      ensures ticks == old(ticks) && samples == old(samples)
    {
      if permits == 0 {
        return false, [];
      }
      ghost var before := stars;
      permits := permits - 1;
      frameCount := frameCount + 1;
      stars := stars + [Star(c, 0)];
      trails := Advance(w, h);
      painted := true;
      StepAllVisible(before, c, w, h);
    }

    /** The body of the `colors.forEach` loop for the star at index `k` of
        the live list: it is aged in place and, if its new position is off
        the canvas, removed from the list; otherwise its trail is drawn. */
    method VisitInPlace(k: nat, w: nat, h: nat) returns (stays: bool, drawn: seq<Square>)
      requires k < |stars|
      modifies this`stars
      ensures stays <==> Visible(Aged(old(stars)[k]), w, h)
      ensures stays ==> stars == old(stars)[k := Aged(old(stars)[k])] &&
                        drawn == StarTrail(Aged(old(stars)[k]), w, h)
      ensures !stays ==> stars == old(stars)[..k] + old(stars)[k + 1..] && drawn == []
    {
      var star := Aged(stars[k]);
      SetThenRemove(stars, k, star);
      stars := stars[k := star];
      stays, drawn := VisitStar(star, w, h);
      if !stays {
        stars := stars[..k] + stars[k + 1..];
      }
    }

    /** The `colors.forEach` loop over a snapshot of the list: each visited
        star is aged in place and, if its new position is off the canvas,
        removed from the live list; otherwise its trail is drawn. */
    method Advance(w: nat, h: nat) returns (trails: seq<seq<Square>>)
      modifies this`stars
      ensures stars == Survivors(old(stars), w, h)
      ensures trails == Trails(stars, w, h)
    {
      var snapshot := stars;
      var kept: seq<Star> := [];
      trails := [];
      var i := 0;
      while i < |snapshot|
        invariant 0 <= i <= |snapshot|
        invariant kept == Survivors(snapshot[..i], w, h)
        invariant stars == kept + snapshot[i..]
        invariant trails == Trails(kept, w, h)
      {
        VisitTurn(snapshot, i, kept, w, h);
        var stays, drawn := VisitInPlace(|kept|, w, h);
        if stays {
          var star := Aged(snapshot[i]);
          TrailsSnoc(kept, star, w, h);
          trails := trails + [drawn];
          kept := kept + [star];
        }
        i := i + 1;
      }
      assert snapshot[..i] == snapshot;
    }
  }

  /** A short run of the panel: the initial permit allows one pass, a second
      paint call without a tick changes nothing, a tick allows one more, and
      the next sample reports two frames. */
  method PacingScenario()
  {
    var p := new RenderPanel();
    var c := Color(255, 0, 0);
    var ok, t := p.Paint(1280, 720, c);
    assert ok && p.frameCount == 1 && p.permits == 0;
    assert p.stars == Step([], c, 1280, 720);
    ok, t := p.Paint(1280, 720, c);
    assert !ok && p.frameCount == 1;
    p.Tick();
    ok, t := p.Paint(1280, 720, c);
    assert ok && p.frameCount == 2 && p.permits == 0;
    p.Sample();
    assert p.framerate == 2 && p.lastFrameCount == 2;
    p.Sample();
    assert p.framerate == 0;
  }
}
