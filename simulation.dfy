/** What one simulation step does to the board, stated as functions of the
    board before it: every heart drifts and those that leave the screen
    sideways go; then every arrow, in list order, flies one tick and either
    takes out the first heart it touches, or survives if it is still on the
    screen. The class method that does this in place is proved equal to
    Step (Game.CupidsArrowGame.UpdateGameObjects). */
module Simulation {
  import opened Options
  import opened Lists
  import opened Objects

  /** Values of a sine: what each heart's drift is scaled by. */
  predicate SinePhases(phases: seq<real>) {
    forall k :: 0 <= k < |phases| ==> -1.0 <= phases[k] <= 1.0
  }

  /** The hearts that remain after drifting, in their order; heart k drifts
      under phases[k]. */
  function DriftHearts(hs: seq<Heart>, phases: seq<real>): (r: seq<Heart>)
    requires |phases| == |hs|
    ensures |r| <= |hs|
    ensures forall k :: 0 <= k < |r| ==> InWidth(r[k].x)
    decreases |hs|
  {
    if hs == [] then []
    else
      var n := |hs| - 1;
      var moved := Drift(hs[n], phases[n]);
      DriftHearts(hs[..n], phases[..n]) + (if InWidth(moved.x) then [moved] else [])
  }

  /** DriftHearts over one more heart. */
  lemma DriftHeartsSnoc(hs: seq<Heart>, phases: seq<real>, i: nat)
    requires |phases| == |hs| && i < |hs|
    ensures var moved := Drift(hs[i], phases[i]);
      DriftHearts(hs[..i + 1], phases[..i + 1]) ==
      DriftHearts(hs[..i], phases[..i]) + (if InWidth(moved.x) then [moved] else [])
  {
    assert hs[..i + 1][..i] == hs[..i] && phases[..i + 1][..i] == phases[..i];
  }

  /** Heart i's turn on a list holding the drifted survivors of the hearts
      before it followed by the untouched rest: overwriting its entry, and
      deleting it by value when it has left the width, gives the drifted
      survivors of hearts 0..i followed by the rest. */
  lemma DriftOne(hs: seq<Heart>, phases: seq<real>, i: nat)
    requires |phases| == |hs| && i < |hs|
    ensures var done := DriftHearts(hs[..i], phases[..i]);
      var next := DriftHearts(hs[..i + 1], phases[..i + 1]);
      var moved := Drift(hs[i], phases[i]);
      var live := (done + hs[i..])[|done| := moved];
      if InWidth(moved.x) then live == next + hs[i + 1..] && |next| == |done| + 1
      else moved in live && RemoveFirst(live, moved) == next + hs[i + 1..] && |next| == |done|
  {
    var done := DriftHearts(hs[..i], phases[..i]);
    var moved := Drift(hs[i], phases[i]);
    DriftHeartsSnoc(hs, phases, i);
    ReplaceAfter(done, hs[i..], moved);
    assert hs[i..][1..] == hs[i + 1..];
    if !InWidth(moved.x) {
      RemoveFirstAfter(done, moved, hs[i + 1..]);
    }
  }

  /** The live hearts, the surviving arrows and the number of hits so far. */
  datatype Board = Board(hearts: seq<Heart>, arrows: seq<Arrow>, hits: nat)

  /** One arrow's turn: it flies, then removes itself and the first heart
      it touches, or else stays while it is on the screen. */
  function ArrowStep(b: Board, a: Arrow): Board {
    var moved := Advance(a);
    match FirstHit(moved, b.hearts)
    case Some(j) => Board(RemoveAt(b.hearts, j), b.arrows, b.hits + 1)
    case None => if OnScreen(moved) then Board(b.hearts, b.arrows + [moved], b.hits) else b
  }

  /** One arrow's turn either scores, taking out one heart and the arrow,
      or scores nothing and leaves the hearts alone; it scores exactly when
      the flown arrow touches a heart, and a non-scoring arrow stays exactly
      when it is on the screen. */
  lemma ArrowTurn(b: Board, a: Arrow)
    ensures var r := ArrowStep(b, a);
      (r.hits == b.hits || r.hits == b.hits + 1) &&
      (r.hits == b.hits + 1 <==> !Misses(Advance(a), b.hearts))
    ensures var r := ArrowStep(b, a);
      r.hits == b.hits + 1 ==> r.arrows == b.arrows && |r.hearts| + 1 == |b.hearts|
    ensures var r := ArrowStep(b, a);
      r.hits == b.hits ==>
        r.hearts == b.hearts &&
        (r.arrows == b.arrows + [Advance(a)] <==> OnScreen(Advance(a))) &&
        (r.arrows == b.arrows <==> !OnScreen(Advance(a)))
  {
  }

  /** All arrows' turns, in list order, against the hearts as the earlier
      arrows left them. Every hit takes out exactly one heart, and only an
      arrow that scores is spent. */
  function ResolveArrows(arrows: seq<Arrow>, hearts: seq<Heart>): (r: Board)
    ensures |r.hearts| + r.hits == |hearts|
    ensures |r.arrows| + r.hits <= |arrows|
    decreases |arrows|
  {
    if arrows == [] then Board(hearts, [], 0)
    else ArrowStep(ResolveArrows(arrows[..|arrows| - 1], hearts), arrows[|arrows| - 1])
  }

  /** Every arrow is on the screen. */
  predicate AllOnScreen(arrows: seq<Arrow>) {
    forall k :: 0 <= k < |arrows| ==> OnScreen(arrows[k])
  }

  /** No arrow touches any heart. */
  predicate Untouched(arrows: seq<Arrow>, hearts: seq<Heart>) {
    forall p, q :: 0 <= p < |arrows| && 0 <= q < |hearts| ==> !Hits(arrows[p], hearts[q])
  }

  /** After the arrows' turns no surviving arrow is off the screen or
      touches a surviving heart. */
  lemma {:induction false} ResolvedArrowsClear(arrows: seq<Arrow>, hearts: seq<Heart>)
    ensures AllOnScreen(ResolveArrows(arrows, hearts).arrows)
    ensures Untouched(ResolveArrows(arrows, hearts).arrows, ResolveArrows(arrows, hearts).hearts)
    decreases |arrows|
  {
    if arrows != [] {
      var n := |arrows| - 1;
      ResolvedArrowsClear(arrows[..n], hearts);
      var b := ResolveArrows(arrows[..n], hearts);
      var moved := Advance(arrows[n]);
      var r := ResolveArrows(arrows, hearts);
      assert r == ArrowStep(b, arrows[n]);
      match FirstHit(moved, b.hearts)
      case Some(j) =>
        assert r.arrows == b.arrows && r.hearts == RemoveAt(b.hearts, j);
        forall p, q | 0 <= p < |r.arrows| && 0 <= q < |r.hearts|
          ensures !Hits(r.arrows[p], r.hearts[q])
        {
          var q' := if q < j then q else q + 1;
          assert r.hearts[q] == b.hearts[q'];
        }
      case None =>
        if OnScreen(moved) {
          assert r.arrows == b.arrows + [moved] && r.hearts == b.hearts;
          forall p, q | 0 <= p < |r.arrows| && 0 <= q < |r.hearts|
            ensures !Hits(r.arrows[p], r.hearts[q])
          {
            if p < |b.arrows| {
              assert r.arrows[p] == b.arrows[p];
            }
          }
          forall k | 0 <= k < |r.arrows|
            ensures OnScreen(r.arrows[k])
          {
            if k < |b.arrows| {
              assert r.arrows[k] == b.arrows[k];
            }
          }
        }
    }
  }

  /** One whole simulation step. Neither list grows, and there are never
      more hits than hearts or than arrows. */
  function Step(hearts: seq<Heart>, arrows: seq<Arrow>, phases: seq<real>): (r: Board)
    requires |phases| == |hearts|
    ensures |r.hearts| <= |hearts| && |r.arrows| <= |arrows|
    ensures r.hits <= |hearts| && r.hits <= |arrows|
  {
    ResolveArrows(arrows, DriftHearts(hearts, phases))
  }

  /** ResolveArrows over one more arrow. */
  lemma ResolveArrowsSnoc(arrows: seq<Arrow>, hearts: seq<Heart>, j: nat)
    requires j < |arrows|
    ensures ResolveArrows(arrows[..j + 1], hearts) == ArrowStep(ResolveArrows(arrows[..j], hearts), arrows[j])
  {
    assert arrows[..j + 1][..j] == arrows[..j];
  }

  /** Arrow j's turn when, after flying, it touches heart k and no earlier
      heart. */
  lemma ArrowHitStep(arrows: seq<Arrow>, hearts: seq<Heart>, j: nat, k: nat)
    requires j < |arrows|
    requires var b := ResolveArrows(arrows[..j], hearts);
      k < |b.hearts| && Hits(Advance(arrows[j]), b.hearts[k]) &&
      forall t :: 0 <= t < k ==> !Hits(Advance(arrows[j]), b.hearts[t])
    ensures var b := ResolveArrows(arrows[..j], hearts);
      ResolveArrows(arrows[..j + 1], hearts) == Board(RemoveAt(b.hearts, k), b.arrows, b.hits + 1)
  {
    ResolveArrowsSnoc(arrows, hearts, j);
    FirstHitAt(Advance(arrows[j]), ResolveArrows(arrows[..j], hearts).hearts, k);
  }

  /** Arrow j's turn when, after flying, it touches no heart. */
  lemma ArrowMissStep(arrows: seq<Arrow>, hearts: seq<Heart>, j: nat)
    requires j < |arrows|
    requires var b := ResolveArrows(arrows[..j], hearts);
      forall t :: 0 <= t < |b.hearts| ==> !Hits(Advance(arrows[j]), b.hearts[t])
    ensures var b := ResolveArrows(arrows[..j], hearts);
      var moved := Advance(arrows[j]);
      ResolveArrows(arrows[..j + 1], hearts) ==
      if OnScreen(moved) then Board(b.hearts, b.arrows + [moved], b.hits) else b
  {
    ResolveArrowsSnoc(arrows, hearts, j);
  }

  /** Arrow i survives the step: after flying it touches none of the hearts
      left by the arrows before it, and it is still on the screen. */
  predicate Survives(arrows: seq<Arrow>, hearts: seq<Heart>, i: nat)
    requires i < |arrows|
  {
    var moved := Advance(arrows[i]);
    FirstHit(moved, ResolveArrows(arrows[..i], hearts).hearts).None? && OnScreen(moved)
  }

  /** Arrow i scores: after flying it touches one of the hearts left by the
      arrows before it, wherever it is. */
  predicate Scores(arrows: seq<Arrow>, hearts: seq<Heart>, i: nat)
    requires i < |arrows|
  {
    FirstHit(Advance(arrows[i]), ResolveArrows(arrows[..i], hearts).hearts).Some?
  }

  /** Heart i is kept exactly when its drifted x is within the screen's
      width; the kept hearts are the drifted ones, in their old order, so
      each keeps its y and its speed. */
  lemma {:induction false} DriftSurvivors(hs: seq<Heart>, phases: seq<real>) returns (idx: seq<nat>)
    requires |phases| == |hs|
    ensures Increasing(idx) && |idx| == |DriftHearts(hs, phases)|
    ensures forall k :: 0 <= k < |idx| ==>
      idx[k] < |hs| && DriftHearts(hs, phases)[k] == Drift(hs[idx[k]], phases[idx[k]])
    ensures forall k :: 0 <= k < |idx| ==>
      DriftHearts(hs, phases)[k].y == hs[idx[k]].y && DriftHearts(hs, phases)[k].speed == hs[idx[k]].speed
    ensures forall i :: 0 <= i < |hs| ==> (i in idx <==> InWidth(Drift(hs[i], phases[i]).x))
    decreases |hs|
  {
    if hs == [] {
      idx := [];
    } else {
      var n := |hs| - 1;
      var prev := DriftSurvivors(hs[..n], phases[..n]);
      var r0 := DriftHearts(hs[..n], phases[..n]);
      var moved := Drift(hs[n], phases[n]);
      var kept := InWidth(moved.x);
      var r := DriftHearts(hs, phases);
      assert r == r0 + (if kept then [moved] else []);
      idx := prev + (if kept then [n] else []);
      forall k | 0 <= k < |idx|
        ensures idx[k] < |hs| && r[k] == Drift(hs[idx[k]], phases[idx[k]])
      {
        if k < |prev| {
          assert r[k] == r0[k] && idx[k] == prev[k];
          assert hs[..n][prev[k]] == hs[prev[k]] && phases[..n][prev[k]] == phases[prev[k]];
        }
      }
      forall i | 0 <= i < |hs|
        ensures i in idx <==> InWidth(Drift(hs[i], phases[i]).x)
      {
        if i < n {
          assert hs[..n][i] == hs[i] && phases[..n][i] == phases[i];
          assert i in idx <==> i in prev;
        } else {
          assert n !in prev;
        }
      }
    }
  }

  /** ResolveArrows over a whole list is the last arrow's turn after the
      others'. */
  lemma LastArrow(arrows: seq<Arrow>, hearts: seq<Heart>)
    requires arrows != []
    ensures var n := |arrows| - 1;
      ResolveArrows(arrows, hearts) == ArrowStep(ResolveArrows(arrows[..n], hearts), arrows[n])
  {
  }

  /** Whether an arrow survives is decided by the arrows before it, so a
      longer list agrees with its prefix; the last arrow survives when it
      misses the hearts the others left and stays on the screen. */
  lemma SurvivesCarry(arrows: seq<Arrow>, hearts: seq<Heart>)
    requires arrows != []
    ensures var n := |arrows| - 1; var moved := Advance(arrows[n]);
      Survives(arrows, hearts, n) <==>
      FirstHit(moved, ResolveArrows(arrows[..n], hearts).hearts).None? && OnScreen(moved)
    ensures var n := |arrows| - 1;
      forall i :: 0 <= i < n ==> (Survives(arrows, hearts, i) <==> Survives(arrows[..n], hearts, i))
  {
    var n := |arrows| - 1;
    forall i | 0 <= i < n
      ensures Survives(arrows, hearts, i) == Survives(arrows[..n], hearts, i)
    {
      assert arrows[..i] == arrows[..n][..i] && arrows[i] == arrows[..n][i];
    }
  }

  /** The same for scoring. */
  lemma ScoresCarry(arrows: seq<Arrow>, hearts: seq<Heart>)
    requires arrows != []
    ensures var n := |arrows| - 1;
      Scores(arrows, hearts, n) <==>
      FirstHit(Advance(arrows[n]), ResolveArrows(arrows[..n], hearts).hearts).Some?
    ensures var n := |arrows| - 1;
      forall i :: 0 <= i < n ==> (Scores(arrows, hearts, i) <==> Scores(arrows[..n], hearts, i))
  {
    var n := |arrows| - 1;
    forall i | 0 <= i < n
      ensures Scores(arrows, hearts, i) == Scores(arrows[..n], hearts, i)
    {
      assert arrows[..i] == arrows[..n][..i] && arrows[i] == arrows[..n][i];
    }
  }

  /** The survivors' indices over a list, given those over all but its
      last arrow: the last one joins when it survives. */
  function ExtendSurvivors(arrows: seq<Arrow>, hearts: seq<Heart>, idx0: seq<nat>): seq<nat>
    requires arrows != []
  {
    var n := |arrows| - 1;
    idx0 + (if Survives(arrows, hearts, n) then [n] else [])
  }

  /** Extending the survivors' indices keeps them naming the flown arrows,
      in order. */
  lemma ExtendSurvivorsMapped(arrows: seq<Arrow>, hearts: seq<Heart>, idx0: seq<nat>)
    requires arrows != []
    requires var n := |arrows| - 1; var b := ResolveArrows(arrows[..n], hearts);
      Increasing(idx0) && |idx0| == |b.arrows| &&
      forall k :: 0 <= k < |idx0| ==> idx0[k] < n && b.arrows[k] == Advance(arrows[..n][idx0[k]])
    ensures var idx := ExtendSurvivors(arrows, hearts, idx0); var r := ResolveArrows(arrows, hearts);
      Increasing(idx) && |idx| == |r.arrows| &&
      forall k :: 0 <= k < |idx| ==> idx[k] < |arrows| && r.arrows[k] == Advance(arrows[idx[k]])
  {
    var n := |arrows| - 1;
    LastArrow(arrows, hearts);
    SurvivesCarry(arrows, hearts);
    var b := ResolveArrows(arrows[..n], hearts);
    var r := ResolveArrows(arrows, hearts);
    var idx := ExtendSurvivors(arrows, hearts, idx0);
    if Survives(arrows, hearts, n) {
      assert r.arrows == b.arrows + [Advance(arrows[n])];
    } else {
      assert r.arrows == b.arrows;
    }
    forall k | 0 <= k < |idx|
      ensures idx[k] < |arrows| && r.arrows[k] == Advance(arrows[idx[k]])
    {
      if k < |idx0| {
        assert r.arrows[k] == b.arrows[k] && arrows[..n][idx0[k]] == arrows[idx0[k]];
      }
    }
  }

  /** Extending the survivors' indices keeps them the indices of exactly
      the arrows that survive. */
  lemma ExtendSurvivorsMembers(arrows: seq<Arrow>, hearts: seq<Heart>, idx0: seq<nat>)
    requires arrows != []
    requires var n := |arrows| - 1;
      (forall k :: 0 <= k < |idx0| ==> idx0[k] < n) &&
      forall i :: 0 <= i < n ==> (i in idx0 <==> Survives(arrows[..n], hearts, i))
    ensures var idx := ExtendSurvivors(arrows, hearts, idx0);
      forall i :: 0 <= i < |arrows| ==> (i in idx <==> Survives(arrows, hearts, i))
  {
    var n := |arrows| - 1;
    SurvivesCarry(arrows, hearts);
    var idx := ExtendSurvivors(arrows, hearts, idx0);
    assert n !in idx0;
    forall i | 0 <= i < |arrows|
      ensures i in idx <==> Survives(arrows, hearts, i)
    {
      if i < n {
        assert i in idx <==> i in idx0;
        assert Survives(arrows, hearts, i) <==> Survives(arrows[..n], hearts, i);
      }
    }
  }

  /** Arrow i survives exactly when Survives says so, and the surviving
      arrows are the flown ones in their old order. */
  lemma {:induction false} ArrowSurvivors(arrows: seq<Arrow>, hearts: seq<Heart>) returns (idx: seq<nat>)
    ensures Increasing(idx) && |idx| == |ResolveArrows(arrows, hearts).arrows|
    ensures forall k :: 0 <= k < |idx| ==>
      idx[k] < |arrows| && ResolveArrows(arrows, hearts).arrows[k] == Advance(arrows[idx[k]])
    ensures forall i :: 0 <= i < |arrows| ==> (i in idx <==> Survives(arrows, hearts, i))
    decreases |arrows|
  {
    if arrows == [] {
      idx := [];
    } else {
      var n := |arrows| - 1;
      var idx0 := ArrowSurvivors(arrows[..n], hearts);
      ExtendSurvivorsMapped(arrows, hearts, idx0);
      ExtendSurvivorsMembers(arrows, hearts, idx0);
      idx := ExtendSurvivors(arrows, hearts, idx0);
    }
  }

  /** The scorers' indices over a list, given those over all but its last
      arrow: the last one joins when it scores. */
  function ExtendScorers(arrows: seq<Arrow>, hearts: seq<Heart>, scored0: seq<nat>): seq<nat>
    requires arrows != []
  {
    var n := |arrows| - 1;
    scored0 + (if Scores(arrows, hearts, n) then [n] else [])
  }

  /** Extending the scorers' indices keeps them counting the hits. */
  lemma ExtendScorersCounted(arrows: seq<Arrow>, hearts: seq<Heart>, scored0: seq<nat>)
    requires arrows != []
    requires var n := |arrows| - 1;
      Increasing(scored0) && |scored0| == ResolveArrows(arrows[..n], hearts).hits &&
      forall k :: 0 <= k < |scored0| ==> scored0[k] < n
    ensures var scored := ExtendScorers(arrows, hearts, scored0);
      Increasing(scored) && |scored| == ResolveArrows(arrows, hearts).hits &&
      forall k :: 0 <= k < |scored| ==> scored[k] < |arrows|
  {
    LastArrow(arrows, hearts);
    ScoresCarry(arrows, hearts);
  }

  /** Extending the scorers' indices keeps them the indices of exactly the
      arrows that score. */
  lemma ExtendScorersMembers(arrows: seq<Arrow>, hearts: seq<Heart>, scored0: seq<nat>)
    requires arrows != []
    requires var n := |arrows| - 1;
      (forall k :: 0 <= k < |scored0| ==> scored0[k] < n) &&
      forall i :: 0 <= i < n ==> (i in scored0 <==> Scores(arrows[..n], hearts, i))
    ensures var scored := ExtendScorers(arrows, hearts, scored0);
      forall i :: 0 <= i < |arrows| ==> (i in scored <==> Scores(arrows, hearts, i))
  {
    var n := |arrows| - 1;
    ScoresCarry(arrows, hearts);
    var scored := ExtendScorers(arrows, hearts, scored0);
    assert n !in scored0;
    forall i | 0 <= i < |arrows|
      ensures i in scored <==> Scores(arrows, hearts, i)
    {
      if i < n {
        assert i in scored <==> i in scored0;
        assert Scores(arrows, hearts, i) <==> Scores(arrows[..n], hearts, i);
      }
    }
  }

  /** Arrow i scores exactly when Scores says so, and the step's hit count
      is the number of scoring arrows. */
  lemma {:induction false} ArrowScorers(arrows: seq<Arrow>, hearts: seq<Heart>) returns (scored: seq<nat>)
    ensures Increasing(scored) && |scored| == ResolveArrows(arrows, hearts).hits
    ensures forall k :: 0 <= k < |scored| ==> scored[k] < |arrows|
    ensures forall i :: 0 <= i < |arrows| ==> (i in scored <==> Scores(arrows, hearts, i))
    decreases |arrows|
  {
    if arrows == [] {
      scored := [];
    } else {
      var n := |arrows| - 1;
      var scored0 := ArrowScorers(arrows[..n], hearts);
      ExtendScorersCounted(arrows, hearts, scored0);
      ExtendScorersMembers(arrows, hearts, scored0);
      scored := ExtendScorers(arrows, hearts, scored0);
    }
  }

  /** The hearts left after the arrows are a subsequence of those they
      started from: each hit takes out a heart still present, and a heart
      one arrow took out is never there for a later arrow. */
  lemma {:induction false} ArrowsKeepHeartOrder(arrows: seq<Arrow>, hearts: seq<Heart>) returns (hidx: seq<nat>)
    ensures Picks(ResolveArrows(arrows, hearts).hearts, hearts, hidx)
    decreases |arrows|
  {
    if arrows == [] {
      hidx := seq(|hearts|, k => k);
    } else {
      var n := |arrows| - 1;
      var hidx0 := ArrowsKeepHeartOrder(arrows[..n], hearts);
      LastArrow(arrows, hearts);
      var b := ResolveArrows(arrows[..n], hearts);
      match FirstHit(Advance(arrows[n]), b.hearts)
      case Some(j) =>
        hidx := RemoveAt(hidx0, j);
        PicksRemoveAt(b.hearts, hearts, hidx0, j);
      case None =>
        hidx := hidx0;
    }
  }

  /** Over a whole step the hearts left are drifted originals, in their
      old order: each keeps its y and its speed. */
  lemma StepKeepsHeartOrder(hearts: seq<Heart>, arrows: seq<Arrow>, phases: seq<real>) returns (idx: seq<nat>)
    requires |phases| == |hearts|
    ensures Increasing(idx) && |idx| == |Step(hearts, arrows, phases).hearts|
    ensures forall k :: 0 <= k < |idx| ==>
      idx[k] < |hearts| && Step(hearts, arrows, phases).hearts[k] == Drift(hearts[idx[k]], phases[idx[k]])
  {
    var drifted := DriftHearts(hearts, phases);
    var idx1 := DriftSurvivors(hearts, phases);
    var hidx := ArrowsKeepHeartOrder(arrows, drifted);
    var r := Step(hearts, arrows, phases).hearts;
    idx := seq(|hidx|, k requires 0 <= k < |hidx| => idx1[hidx[k]]);
    forall k | 0 <= k < |idx|
      ensures idx[k] < |hearts| && r[k] == Drift(hearts[idx[k]], phases[idx[k]])
    {
      assert r[k] == drifted[hidx[k]];
    }
    forall p, q | 0 <= p < q < |idx|
      ensures idx[p] < idx[q]
    {
      assert hidx[p] < hidx[q];
    }
  }

  /** Two arrows on the same line at one heart: the first takes the heart,
      and the second, finding it gone, flies on. */
  lemma OneHeartTwoArrows()
    ensures var a := Arrow(90.0, 100.0, 10.0, 0.0);
      ResolveArrows([a, a], [Heart(100.0, 100.0, 2.0)]) == Board([], [Advance(a)], 1)
  {
    var a := Arrow(90.0, 100.0, 10.0, 0.0);
    var h := Heart(100.0, 100.0, 2.0);
    assert Hits(Advance(a), h) by {
      assert ArrowPos(Advance(a)) == HeartPos(h);
    }
    assert [a, a][..1] == [a] && [a][..0] == [];
    assert ResolveArrows([a], [h]) == Board([], [], 1);
  }
}
