/** The star list of the panel as a value, and what one paint pass does to
    it: append a fresh star, visit every star of that list once, make each
    one pass older and drop those that left the canvas. The class in
    `Panel` runs this as a loop; the functions here are its specification
    and the lemmas state what a pass guarantees. Every sequence function
    is defined from the end, one visited star at a time, as the loop goes. */
module StarField {
  import opened Kinematics

  /** The visited star after `lifetime.incrementAndGet()`. */
  function Aged(s: Star): (r: Star)
    ensures r.color == s.color && r.age == s.age + 1
  {
    s.(age := s.age + 1)
  }

  /** Every star of the list one pass older, nothing removed. */
  function AgedAll(s: seq<Star>): (r: seq<Star>)
    ensures |r| == |s|
    ensures forall i :: 0 <= i < |s| ==> r[i] == Aged(s[i])
  {
    if s == [] then [] else AgedAll(s[..|s| - 1]) + [Aged(s[|s| - 1])]
  }

  /** The list after the visiting loop: each star aged, and kept exactly
      when its new position is on the canvas. */
  function Survivors(s: seq<Star>, w: nat, h: nat): (r: seq<Star>)
    ensures |r| <= |s|
  {
    if s == [] then []
    else
      var b := Aged(s[|s| - 1]);
      Survivors(s[..|s| - 1], w, h) + (if Visible(b, w, h) then [b] else [])
  }

  /** How many stars of `s` the visiting loop removes. */
  function RemovedCount(s: seq<Star>, w: nat, h: nat): (k: nat)
    ensures k <= |s|
  {
    if s == [] then 0
    else RemovedCount(s[..|s| - 1], w, h) + (if Visible(Aged(s[|s| - 1]), w, h) then 0 else 1)
  }

  /** The trails a paint pass draws for the stars it keeps, in list order. */
  function Trails(s: seq<Star>, w: nat, h: nat): (r: seq<seq<Square>>)
    ensures |r| == |s|
  {
    seq(|s|, i requires 0 <= i < |s| => StarTrail(s[i], w, h))
  }

  /** One trail per star, of 2 * size squares, headed by a square of side
      size at the star's current position. */
  lemma TrailsShape(s: seq<Star>, w: nat, h: nat)
    ensures forall i :: 0 <= i < |s| ==>
              |Trails(s, w, h)[i]| == 2 * Size(s[i].color) &&
              Trails(s, w, h)[i][0]
              == Square(StarPosition(s[i], w, h).x, StarPosition(s[i], w, h).y, Size(s[i].color))
  {
  }

  lemma TrailsSnoc(s: seq<Star>, x: Star, w: nat, h: nat)
    ensures Trails(s + [x], w, h) == Trails(s, w, h) + [StarTrail(x, w, h)]
  {
    assert (s + [x])[..|s|] == s;
  }

  /** The star list after a whole paint pass with fresh colour `c`: the new
      star of age 0 is appended before the loop, so it is visited too. */
  function Step(s: seq<Star>, c: Color, w: nat, h: nat): (r: seq<Star>)
    ensures |r| <= |s| + 1
  {
    Survivors(s + [Star(c, 0)], w, h)
  }

  /** Visiting one more star extends the result by that star, aged, or by
      nothing. */
  lemma SurvivorsSnoc(s: seq<Star>, x: Star, w: nat, h: nat)
    ensures Survivors(s + [x], w, h)
         == Survivors(s, w, h) + (if Visible(Aged(x), w, h) then [Aged(x)] else [])
  {
    assert (s + [x])[..|s|] == s;
  }

  /** `a` can be obtained from `b` by deleting elements: the same elements
      in the same relative order. */
  predicate IsSubsequence<T(==)>(a: seq<T>, b: seq<T>)
  {
    if a == [] then true
    else if b == [] then false
    else
      (a[|a| - 1] == b[|b| - 1] && IsSubsequence(a[..|a| - 1], b[..|b| - 1]))
      || IsSubsequence(a, b[..|b| - 1])
  }

  /** Length accounting: the loop keeps all but the removed stars. */
  lemma {:induction false} SurvivorsLength(s: seq<Star>, w: nat, h: nat)
    ensures |Survivors(s, w, h)| == |s| - RemovedCount(s, w, h)
  {
    if s != [] {
      SurvivorsLength(s[..|s| - 1], w, h);
    }
  }

  /** The removal rule, both ways: a star is in the list after the loop
      exactly when it is one of the visited stars, aged, and its new
      position satisfies x <= w and y <= h. */
  lemma {:induction false} SurvivorsMembership(s: seq<Star>, w: nat, h: nat, x: Star)
    ensures x in Survivors(s, w, h) <==> x in AgedAll(s) && Visible(x, w, h)
  {
    if s != [] {
      var init := s[..|s| - 1];
      SurvivorsMembership(init, w, h, x);
      assert AgedAll(s) == AgedAll(init) + [Aged(s[|s| - 1])];
    }
  }

  /** The survivors keep their relative order: each is the aged copy of a
      visited star, taken in list order. */
  lemma {:induction false} SurvivorsOrdered(s: seq<Star>, w: nat, h: nat)
    ensures IsSubsequence(Survivors(s, w, h), AgedAll(s))
  {
    if s != [] {
      var init := s[..|s| - 1];
      var b := Aged(s[|s| - 1]);
      SurvivorsOrdered(init, w, h);
      assert AgedAll(s) == AgedAll(init) + [b];
      if Visible(b, w, h) {
        assert Survivors(s, w, h) == Survivors(init, w, h) + [b];
        SubsequenceBothLonger(Survivors(init, w, h), AgedAll(init), b);
      } else {
        assert Survivors(s, w, h) == Survivors(init, w, h);
        SubsequenceOfLonger(Survivors(init, w, h), AgedAll(init), b);
      }
    }
  }

  lemma SubsequenceBothLonger<T>(a: seq<T>, b: seq<T>, x: T)
    requires IsSubsequence(a, b)
    ensures IsSubsequence(a + [x], b + [x])
  {
    assert (a + [x])[..|a|] == a;
    assert (b + [x])[..|b|] == b;
  }

  lemma {:induction false} SubsequenceOfLonger<T>(a: seq<T>, b: seq<T>, x: T)
    requires IsSubsequence(a, b)
    ensures IsSubsequence(a, b + [x])
  {
    assert (b + [x])[..|b|] == b;
  }

  /** Nothing is removed exactly when the loop only ages the stars. */
  lemma {:induction false} NoneRemoved(s: seq<Star>, w: nat, h: nat)
    ensures RemovedCount(s, w, h) == 0 <==> Survivors(s, w, h) == AgedAll(s)
  {
    SurvivorsLength(s, w, h);
    if s != [] {
      var init := s[..|s| - 1];
      NoneRemoved(init, w, h);
      assert AgedAll(s) == AgedAll(init) + [Aged(s[|s| - 1])];
    }
  }

  /** The visiting loop treats each star on its own, so a list split in two
      is processed part by part. */
  lemma {:induction false} SurvivorsAppend(a: seq<Star>, b: seq<Star>, w: nat, h: nat)
    ensures Survivors(a + b, w, h) == Survivors(a, w, h) + Survivors(b, w, h)
  {
    if b == [] {
      assert a + b == a;
    } else {
      var init := b[..|b| - 1];
      assert (a + b)[..|a + b| - 1] == a + init;
      assert (a + b)[|a + b| - 1] == b[|b| - 1];
      SurvivorsAppend(a, init, w, h);
    }
  }

  /** After a pass the new star sits at the end, already one pass old,
      unless its first step took it off the canvas; the old stars before it
      are what the loop leaves of them. */
  lemma StepAppendsNewStar(s: seq<Star>, c: Color, w: nat, h: nat)
    ensures Step(s, c, w, h)
         == Survivors(s, w, h) + (if Visible(Star(c, 1), w, h) then [Star(c, 1)] else [])
  {
    SurvivorsSnoc(s, Star(c, 0), w, h);
  }

  /** A pass adds one star and removes the ones that left the canvas. */
  lemma StepLength(s: seq<Star>, c: Color, w: nat, h: nat)
    ensures |Step(s, c, w, h)| == |s| + 1 - RemovedCount(s + [Star(c, 0)], w, h)
  {
    SurvivorsLength(s + [Star(c, 0)], w, h);
  }

  /** Every star left after a pass is on the canvas, has lived at least one
      pass and at most min(w, h) passes. */
  lemma StepAllVisible(s: seq<Star>, c: Color, w: nat, h: nat)
    ensures forall i :: 0 <= i < |Step(s, c, w, h)| ==>
              Visible(Step(s, c, w, h)[i], w, h) && 1 <= Step(s, c, w, h)[i].age <= w &&
              Step(s, c, w, h)[i].age <= h
  {
    var t := s + [Star(c, 0)];
    var r := Step(s, c, w, h);
    forall i | 0 <= i < |r|
      ensures Visible(r[i], w, h) && 1 <= r[i].age <= w && r[i].age <= h
    {
      SurvivorsMembership(t, w, h, r[i]);
      VisibleAgeBound(r[i], w, h);
    }
  }
}
