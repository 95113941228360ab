/**
 Field values exchanged with SYRTHES and the formulas the fluid side applies
 to them: the post-processing buffer update steps, the interleaved send buffer
 gathered through the locator's distant-point locations, the local flux sum
 used by the conservativity correction and the volume source-term
 contribution. Field values are reals; the single-precision storage of the
 post-processing buffers is not modelled.
 */
module Syr4Fields {

  // ---------------------------------------------------------------------
  // Post-processing buffers and their three update steps
  // ---------------------------------------------------------------------

  /** The buffers an entity keeps for post-processing: the received wall
      temperature, the flux, and whether the fluid temperature is currently
      parked in the flux buffer (the fluid-temperature alias). */
  datatype PostBuffers = PostBuffers(solidTemp: seq<real>, flux: seq<real>, fluidAliased: bool)

  /** Flux computed from an exchange coefficient, a solid and a fluid temperature. */
  function ExchangeFlux(h: seq<real>, ts: seq<real>, tf: seq<real>): seq<real>
    requires |ts| <= |h| && |ts| <= |tf|
  {
    seq(|ts|, i requires 0 <= i < |ts| => h[i] * (ts[i] - tf[i]))
  }

  /** What a step can be applied to: buffers of one common length n, values
      for at least n elements, and for step 2 the fluid temperature parked. */
  predicate StepAllowed(b: PostBuffers, step: int, v: seq<real>) {
    && 0 <= step <= 2
    && |b.flux| == |b.solidTemp| <= |v|
    && (step == 2 ==> b.fluidAliased)
  }

  /** The buffers after one update step; nothing changes while post-processing
      is inactive. Step 0 stores the wall temperature, step 1 parks the fluid
      temperature in the flux buffer, step 2 turns it into the flux. */
  function PostVarUpdated(b: PostBuffers, active: bool, step: int, v: seq<real>): (r: PostBuffers)
    requires active ==> StepAllowed(b, step, v)
    ensures |r.solidTemp| == |b.solidTemp| && |r.flux| == |b.flux|
    ensures !active ==> r == b
    ensures active && step == 0 ==>
      r.flux == b.flux && r.fluidAliased == b.fluidAliased
      && forall i :: 0 <= i < |r.solidTemp| ==> r.solidTemp[i] == v[i]
    ensures active && step != 0 ==> r.solidTemp == b.solidTemp && r.fluidAliased == (step == 1)
    ensures active && step == 1 ==> forall i :: 0 <= i < |r.flux| ==> r.flux[i] == v[i]
  {
    var n := |b.solidTemp|;
    if !active then b
    else if step == 0 then b.(solidTemp := v[..n])
    else if step == 1 then b.(flux := v[..n], fluidAliased := true)
    else b.(flux := ExchangeFlux(v, b.solidTemp, b.flux), fluidAliased := false)
  }

  /** Running steps 0, 1 and 2 with the received solid temperature, the fluid
      temperature and the exchange coefficient leaves flux[i] =
      hf[i] * (tsolid[i] - tf[i]) for every element and clears the alias,
      whatever the buffers held before. */
  lemma ThreeStepCycle(b: PostBuffers, tsolid: seq<real>, tf: seq<real>, hf: seq<real>)
    requires |b.flux| == |b.solidTemp|
    requires |b.solidTemp| <= |tsolid| && |b.solidTemp| <= |tf| && |b.solidTemp| <= |hf|
    ensures var n := |b.solidTemp|;
      var b2 := Cycle(b, tsolid, tf, hf);
      && b2.solidTemp == tsolid[..n]
      && |b2.flux| == n
      && (forall i :: 0 <= i < n ==> b2.flux[i] == hf[i] * (tsolid[i] - tf[i]))
      && !b2.fluidAliased
  {
  }

  /** Step 2 is allowed only once step 1 has parked the fluid temperature:
      after step 1 it is allowed, after step 2 it is no longer. */
  lemma AliasDiscipline(b: PostBuffers, tf: seq<real>, hf: seq<real>)
    requires StepAllowed(b, 1, tf) && |b.solidTemp| <= |hf|
    ensures StepAllowed(PostVarUpdated(b, true, 1, tf), 2, hf)
    ensures !StepAllowed(PostVarUpdated(PostVarUpdated(b, true, 1, tf), true, 2, hf), 2, hf)
  {
  }

  /** Recomputing the flux with the same inputs gives the same buffers: the
      update carries no hidden state beyond the buffers themselves. */
  lemma CycleIdempotent(b: PostBuffers, tsolid: seq<real>, tf: seq<real>, hf: seq<real>)
    requires |b.flux| == |b.solidTemp|
    requires |b.solidTemp| <= |tsolid| && |b.solidTemp| <= |tf| && |b.solidTemp| <= |hf|
    ensures var c := Cycle(b, tsolid, tf, hf); Cycle(c, tsolid, tf, hf) == c
  {
  }

  /** One receive/send iteration of the update steps. */
  function Cycle(b: PostBuffers, tsolid: seq<real>, tf: seq<real>, hf: seq<real>): PostBuffers
    requires |b.flux| == |b.solidTemp|
    requires |b.solidTemp| <= |tsolid| && |b.solidTemp| <= |tf| && |b.solidTemp| <= |hf|
  {
    var b0 := PostVarUpdated(b, true, 0, tsolid);
    var b1 := PostVarUpdated(b0, true, 1, tf);
    PostVarUpdated(b1, true, 2, hf)
  }

  /** No heat flows where solid and fluid temperatures agree, and with a
      non-negative coefficient heat flows from the hotter side to the fluid. */
  lemma FluxSign(h: seq<real>, ts: seq<real>, tf: seq<real>, i: int)
    requires |ts| <= |h| && |ts| <= |tf| && 0 <= i < |ts|
    ensures ts[i] == tf[i] ==> ExchangeFlux(h, ts, tf)[i] == 0.0
    ensures h[i] >= 0.0 && ts[i] >= tf[i] ==> ExchangeFlux(h, ts, tf)[i] >= 0.0
    ensures h[i] >= 0.0 && ts[i] <= tf[i] ==> ExchangeFlux(h, ts, tf)[i] <= 0.0
  {
  }

  // ---------------------------------------------------------------------
  // The send buffer gathered through the locator
  // ---------------------------------------------------------------------

  /** Every distant point is located on one of the n local elements, numbered from 1. */
  predicate LocatedOn(distLoc: seq<int>, n: nat) {
    forall i :: 0 <= i < |distLoc| ==> 1 <= distLoc[i] <= n
  }

  /** The values of an element field at the distant points, in distant-point order. */
  function AtLocations(v: seq<real>, distLoc: seq<int>): (r: seq<real>)
    requires LocatedOn(distLoc, |v|)
    ensures |r| == |distLoc|
  {
    seq(|distLoc|, i requires 0 <= i < |distLoc| => v[distLoc[i] - 1])
  }

  /** The interleaved buffer sent to SYRTHES: for distant point i, the fluid
      temperature at 2i and the exchange coefficient at 2i + 1. */
  predicate IsSendBuffer(s: seq<real>, tf: seq<real>, hf: seq<real>, distLoc: seq<int>)
    requires LocatedOn(distLoc, |tf|) && LocatedOn(distLoc, |hf|)
  {
    && |s| == 2 * |distLoc|
    && forall i :: 0 <= i < |distLoc| ==>
         s[2 * i] == tf[distLoc[i] - 1] && s[2 * i + 1] == hf[distLoc[i] - 1]
  }

  /** Builds the send buffer of length 2 * n_dist from the fluid temperature and
      the exchange coefficient, converting each 1-based location to an index. */
  method GatherSendBuffer(tf: seq<real>, hf: seq<real>, distLoc: seq<int>) returns (s: seq<real>)
    requires LocatedOn(distLoc, |tf|) && LocatedOn(distLoc, |hf|)
    ensures IsSendBuffer(s, tf, hf, distLoc)
  {
    var nDist := |distLoc|;
    var sendVar := new real[2 * nDist];
    var ii := 0;
    while ii < nDist
      invariant 0 <= ii <= nDist
      invariant forall k :: 0 <= k < ii ==>
        sendVar[2 * k] == tf[distLoc[k] - 1] && sendVar[2 * k + 1] == hf[distLoc[k] - 1]
    {
      sendVar[ii * 2] := tf[distLoc[ii] - 1];
      sendVar[ii * 2 + 1] := hf[distLoc[ii] - 1];
      ii := ii + 1;
    }
    s := sendVar[..];
  }

  /** Even entries of an interleaved buffer (the first component). */
  function Evens(s: seq<real>): (r: seq<real>)
    ensures |r| == |s| / 2
  {
    seq(|s| / 2, i requires 0 <= i < |s| / 2 => s[2 * i])
  }

  /** Odd entries of an interleaved buffer (the second component). */
  function Odds(s: seq<real>): (r: seq<real>)
    ensures |r| == |s| / 2
  {
    seq(|s| / 2, i requires 0 <= i < |s| / 2 => s[2 * i + 1])
  }

  /** The receiver splitting the send buffer back into its two components gets
      the fluid temperature and the exchange coefficient at the distant points. */
  lemma SendBufferSplits(s: seq<real>, tf: seq<real>, hf: seq<real>, distLoc: seq<int>)
    requires LocatedOn(distLoc, |tf|) && LocatedOn(distLoc, |hf|)
    requires IsSendBuffer(s, tf, hf, distLoc)
    ensures Evens(s) == AtLocations(tf, distLoc)
    ensures Odds(s) == AtLocations(hf, distLoc)
  {
  }

  // ---------------------------------------------------------------------
  // Local flux sum for the conservativity correction
  // ---------------------------------------------------------------------

  /** The first k coupled faces are numbered from 1 and have a surface. */
  predicate FacesOn(faceList: seq<int>, surf: seq<real>, k: nat) {
    k <= |faceList| && forall ii :: 0 <= ii < k ==> 1 <= faceList[ii] <= |surf|
  }

  /** Every one of the first k faces has a non-negative flux and surface. */
  predicate NonNegativeTerms(flux: seq<real>, faceList: seq<int>, surf: seq<real>, k: nat)
    requires k <= |flux| && FacesOn(faceList, surf, k)
  {
    forall ii :: 0 <= ii < k ==> flux[ii] >= 0.0 && surf[faceList[ii] - 1] >= 0.0
  }

  /** No heat crosses the first k faces. */
  predicate ZeroFlux(flux: seq<real>, k: nat)
    requires k <= |flux|
  {
    forall ii :: 0 <= ii < k ==> flux[ii] == 0.0
  }

  /** Sum over the first k coupled faces of flux times face surface. */
  function FluxSum(flux: seq<real>, faceList: seq<int>, surf: seq<real>, k: nat): real
    requires k <= |flux| && FacesOn(faceList, surf, k)
  {
    if k == 0 then 0.0
    else FluxSum(flux, faceList, surf, k - 1) + flux[k - 1] * surf[faceList[k - 1] - 1]
  }

  /** No flux through the faces gives a zero sum, and non-negative fluxes over
      non-negative surfaces give a non-negative sum. */
  lemma {:induction false} FluxSumSign(flux: seq<real>, faceList: seq<int>, surf: seq<real>, k: nat)
    requires k <= |flux| && FacesOn(faceList, surf, k)
    ensures ZeroFlux(flux, k) ==> FluxSum(flux, faceList, surf, k) == 0.0
    ensures NonNegativeTerms(flux, faceList, surf, k) ==> FluxSum(flux, faceList, surf, k) >= 0.0
  {
    if k > 0 {
      FluxSumSign(flux, faceList, surf, k - 1);
      assert FacesOn(faceList, surf, k - 1);
      if NonNegativeTerms(flux, faceList, surf, k) {
        assert NonNegativeTerms(flux, faceList, surf, k - 1);
        assert flux[k - 1] * surf[faceList[k - 1] - 1] >= 0.0;
      }
      if ZeroFlux(flux, k) {
        assert ZeroFlux(flux, k - 1);
      }
    }
  }

  /** Accumulates flux[ii] * surf[face_list[ii] - 1] over the n coupled faces. */
  method LocalFlux(flux: seq<real>, faceList: seq<int>, surf: seq<real>, n: nat) returns (sum: real)
    requires n <= |flux| && FacesOn(faceList, surf, n)
    ensures sum == FluxSum(flux, faceList, surf, n)
  {
    sum := 0.0;
    var ii := 0;
    while ii < n
      invariant 0 <= ii <= n
      invariant sum == FluxSum(flux, faceList, surf, ii)
    {
      var faceId := faceList[ii] - 1;
      sum := sum + flux[ii] * surf[faceId];
      ii := ii + 1;
    }
  }

  /** The sum over the faces of two ranks is the sum of the ranks' local sums,
      which is what reducing the local sums to the root rank computes. */
  lemma {:induction false} FluxSumSplit(f1: seq<real>, l1: seq<int>, f2: seq<real>, l2: seq<int>, surf: seq<real>)
    requires |f1| == |l1| && |f2| == |l2|
    requires FacesOn(l1, surf, |l1|) && FacesOn(l2, surf, |l2|)
    ensures FacesOn(l1 + l2, surf, |l1| + |l2|)
    ensures FluxSum(f1 + f2, l1 + l2, surf, |f1| + |f2|)
            == FluxSum(f1, l1, surf, |f1|) + FluxSum(f2, l2, surf, |f2|)
  {
    FluxSumSplitAt(f1, l1, f2, l2, surf, |f2|);
  }

  /** The split for the first j faces of the second rank. */
  lemma {:induction false} FluxSumSplitAt(f1: seq<real>, l1: seq<int>, f2: seq<real>, l2: seq<int>,
                                          surf: seq<real>, j: nat)
    requires |f1| == |l1| && j <= |f2| && j <= |l2|
    requires FacesOn(l1, surf, |l1|) && FacesOn(l2, surf, j)
    ensures FacesOn(l1 + l2, surf, |l1| + j)
    ensures FluxSum(f1 + f2, l1 + l2, surf, |f1| + j)
            == FluxSum(f1, l1, surf, |f1|) + FluxSum(f2, l2, surf, j)
  {
    FacesOnConcat(l1, l2, surf, j);
    var f, l := f1 + f2, l1 + l2;
    if j == 0 {
      FluxSumAgree(f1, l1, f, l, surf, |f1|);
    } else {
      FluxSumSplitAt(f1, l1, f2, l2, surf, j - 1);
      var term := f2[j - 1] * surf[l2[j - 1] - 1];
      assert f[|f1| + j - 1] == f2[j - 1] && l[|l1| + j - 1] == l2[j - 1];
      assert FluxSum(f, l, surf, |f1| + j) == FluxSum(f, l, surf, |f1| + j - 1) + term;
      assert FluxSum(f2, l2, surf, j) == FluxSum(f2, l2, surf, j - 1) + term;
    }
  }

  /** Face numbers valid on each rank stay valid on the concatenated list. */
  lemma FacesOnConcat(l1: seq<int>, l2: seq<int>, surf: seq<real>, j: nat)
    requires FacesOn(l1, surf, |l1|) && FacesOn(l2, surf, j)
    ensures FacesOn(l1 + l2, surf, |l1| + j)
  {
    forall ii | 0 <= ii < |l1| + j
      ensures 1 <= (l1 + l2)[ii] <= |surf|
    {
      if ii >= |l1| {
        assert (l1 + l2)[ii] == l2[ii - |l1|];
      }
    }
  }

  /** FluxSum over the first k faces depends only on the first k entries. */
  lemma {:induction false} FluxSumAgree(f: seq<real>, l: seq<int>, g: seq<real>, m: seq<int>,
                                        surf: seq<real>, k: nat)
    requires k <= |f| && k <= |g| && k <= |m| && FacesOn(l, surf, k)
    requires forall ii :: 0 <= ii < k ==> f[ii] == g[ii] && l[ii] == m[ii]
    ensures FacesOn(m, surf, k)
    ensures FluxSum(f, l, surf, k) == FluxSum(g, m, surf, k)
  {
    forall ii | 0 <= ii < k
      ensures 1 <= m[ii] <= |surf|
    {
      assert m[ii] == l[ii];
    }
    if k > 0 {
      FluxSumAgree(f, l, g, m, surf, k - 1);
      var term := f[k - 1] * surf[l[k - 1] - 1];
      assert g[k - 1] * surf[m[k - 1] - 1] == term;
      assert FluxSum(f, l, surf, k) == FluxSum(f, l, surf, k - 1) + term;
      assert FluxSum(g, m, surf, k) == FluxSum(g, m, surf, k - 1) + term;
    }
  }

  // ---------------------------------------------------------------------
  // Volume source-term contribution
  // ---------------------------------------------------------------------

  /** Implicit part for one cell: the exchange coefficient in implicit mode, 0 in explicit mode. */
  function ImplicitPart(implicit: bool, h: real): (r: real)
    ensures h >= 0.0 ==> r >= 0.0
    ensures !implicit ==> r == 0.0
  {
    if implicit then h else 0.0
  }

  /** Explicit part for one cell: h * tsolid in implicit mode,
      -h * (tfluid - tsolid) in explicit mode. */
  function ExplicitPart(implicit: bool, h: real, ts: real, tf: real): (r: real)
    ensures implicit ==> r == ImplicitPart(implicit, h) * ts
    ensures !implicit ==> r == h * (ts - tf)
    ensures !implicit && ts == tf ==> r == 0.0
  {
    if implicit then h * ts else -h * (tf - ts)
  }

  /** Both modes describe the same exchange term h * (tsolid - T): the implicit
      form for every fluid temperature T, the explicit form at the fluid
      temperature it was computed with. */
  lemma ModesAgree(h: real, ts: real, tf: real, t: real)
    ensures ExplicitPart(true, h, ts, tf) - ImplicitPart(true, h) * t == h * (ts - t)
    ensures ExplicitPart(false, h, ts, tf) - ImplicitPart(false, h) * t == h * (ts - tf)
  {
  }

  /** Coefficients [2, 3], solid temperatures [100, 50], fluid temperatures [80, 50]:
      the explicit mode's first contribution is -2 * (80 - 100) = 40. */
  lemma SourceTermExample()
    ensures ExplicitPart(true, 2.0, 100.0, 80.0) == 200.0 && ExplicitPart(true, 3.0, 50.0, 50.0) == 150.0
    ensures ImplicitPart(true, 2.0) == 2.0 && ImplicitPart(true, 3.0) == 3.0
    ensures ExplicitPart(false, 2.0, 100.0, 80.0) == 40.0 && ExplicitPart(false, 3.0, 50.0, 50.0) == 0.0
    ensures ImplicitPart(false, 2.0) == 0.0 && ImplicitPart(false, 3.0) == 0.0
  {
    assert ExplicitPart(false, 3.0, 50.0, 50.0) == -3.0 * 0.0;
  }

  /** The loop guard of the source-term loops as written: it tests the element
      count itself instead of comparing the index with it. */
  predicate TsGuardAsWritten(nElts: int, i: int) {
    nElts != 0
  }

  /** The intended loop guard. */
  predicate TsGuard(nElts: int, i: int) {
    i < nElts
  }

  /** With at least one element the guard as written still holds at i = n_elts
      and at every later index, so the loop reads and writes past buffers of
      n_elts entries and never terminates; the intended guard stops at n_elts. */
  lemma TsGuardOverrun(nElts: nat)
    requires nElts > 0
    ensures TsGuardAsWritten(nElts, nElts)
    ensures forall i :: TsGuardAsWritten(nElts, i)
    ensures !TsGuard(nElts, nElts)
  {
  }
}
