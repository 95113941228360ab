/**
 The fluid side of a SYRTHES 4 coupling: coupled entities (boundary faces or
 cells) with their exchange buffers, coupling instances with their handshake
 and per-iteration exchange operations, and the process-wide registry of
 couplings with the two process-wide flags (conservativity forcing and
 implicit source-term treatment).

 Communication, point location and mesh extraction are not part of the model:
 what they deliver (a received token, the received solid temperature, the
 locator's distant-point locations, element counts and the global
 exterior-point count) is passed in as parameters.
 */
module Syr4Coupling {

  import opened Wrappers
  import opened Syr4Tokens
  import opened Syr4Fields

  /** The fatal errors of the coupling; each aborts the run. */
  datatype CouplingError =
    | NoSelectionCriteria
    | IncompatibleOptions(local: string, remote: string)
    | EmptyMesh(criteria: string)
    | ProjectionFailed
    | NotLocated(nExterior: nat)
    | UnexpectedMessage(received: string)

  datatype Outcome = Ok | Fatal(error: CouplingError)

  /** What mesh extraction, 2-D projection, post-processing initialisation and
      location report for one selection criterion: the number of local coupled
      elements, the global vertex count of the extracted mesh, the projection
      error count, the global number of element centres not located on the
      SYRTHES mesh, and the post-processing mesh id the post-processing layer
      hands out (0 when its writer is not available). */
  datatype Extraction = Extraction(nElts: nat, nGVertices: nat, nProjectionErrors: nat,
                                   nExterior: nat, postMeshId: int)

  /** Checks made while building a coupled entity, in the order they are made:
      an empty mesh, a failed 2-D projection, then unlocated element centres. */
  function ExtractionOutcome(ext: Extraction, criteria: string, dim: int): (o: Outcome)
    ensures o == Ok <==>
      ext.nGVertices > 0 && (dim == 2 ==> ext.nProjectionErrors == 0) && ext.nExterior == 0
    ensures ext.nGVertices == 0 ==> o == Fatal(EmptyMesh(criteria))
    ensures ext.nGVertices > 0 && dim != 2 && ext.nExterior > 0 ==> o == Fatal(NotLocated(ext.nExterior))
  {
    if ext.nGVertices == 0 then Fatal(EmptyMesh(criteria))
    else if dim == 2 && ext.nProjectionErrors > 0 then Fatal(ProjectionFailed)
    else if ext.nExterior > 0 then Fatal(NotLocated(ext.nExterior))
    else Ok
  }

  /** The outcome of building the entity of one optional selection criterion:
      Ok when no criterion was given. */
  function PhaseOutcome(sel: Option<string>, ext: Extraction, dim: int): Outcome {
    if sel.Some? then ExtractionOutcome(ext, sel.value, dim) else Ok
  }

  /** The outcome of mesh setup: the face entity is built first, then the cell
      entity, then the ready token is checked; the first failure is fatal. */
  function MeshSetupOutcome(faceSel: Option<string>, cellSel: Option<string>,
                            faceExt: Extraction, cellExt: Extraction, dim: int,
                            recv: string): (o: Outcome)
    requires |recv| == FrameLength
    ensures o == Ok <==>
      && (faceSel.Some? ==> ExtractionOutcome(faceExt, faceSel.value, dim) == Ok)
      && (cellSel.Some? ==> ExtractionOutcome(cellExt, cellSel.value, dim) == Ok)
      && StartAccepted(recv)
    ensures o.Fatal? && o.error.UnexpectedMessage? ==> o.error.received == CString(recv)
  {
    var f := PhaseOutcome(faceSel, faceExt, dim);
    var c := PhaseOutcome(cellSel, cellExt, dim);
    if f.Fatal? then f
    else if c.Fatal? then c
    else if !StartAccepted(recv) then Fatal(UnexpectedMessage(CString(recv)))
    else Ok
  }

  /** One coupled entity: the boundary faces or the cells of a coupling. A
      buffer that the source leaves unallocated is an array of length 0. */
  class CoupledEntity {
    /** True for the cell (volume) entity, false for the face entity. */
    const volume: bool
    const nElts: nat
    /** 0 when post-processing is inactive, else the post-processing mesh id. */
    const postMeshId: int
    /** Wall temperature and flux, allocated only while post-processing is active. */
    const solidTemp: array<real>
    const flux: array<real>
    /** Whether the flux buffer currently holds the fluid temperature. */
    var fluidAliased: bool
    /** Exchange coefficient and solid temperature saved for volume source terms. */
    const hvol: array<real>
    const solTemp: array<real>

    ghost predicate Valid()
      reads this
    {
      && solidTemp.Length == flux.Length == (if postMeshId != 0 then nElts else 0)
      && hvol.Length == solTemp.Length == (if volume then nElts else 0)
      && solidTemp != flux && solidTemp != hvol && solidTemp != solTemp
      && flux != hvol && flux != solTemp && hvol != solTemp
    }

    ghost function Arrays(): set<object>
      reads this
    {
      {solidTemp, flux, hvol, solTemp}
    }

    /** The post-processing buffers as a value. */
    function Buffers(): PostBuffers
      reads this, solidTemp, flux
    {
      PostBuffers(solidTemp[..], flux[..], fluidAliased)
    }

    /** Allocates the buffers of a new entity: wall temperature and flux only
        when post-processing is active, coefficient and solid temperature only
        for the cell entity. */
    constructor (volume: bool, nElts: nat, postMeshId: int)
      ensures Valid() && fresh(Arrays())
      ensures this.volume == volume && this.nElts == nElts && this.postMeshId == postMeshId
      ensures !fluidAliased
    {
      this.volume := volume;
      this.nElts := nElts;
      this.postMeshId := postMeshId;
      var nPost := if postMeshId != 0 then nElts else 0;
      var nVol := if volume then nElts else 0;
      solidTemp := new real[nPost];
      flux := new real[nPost];
      hvol := new real[nVol];
      solTemp := new real[nVol];
      fluidAliased := false;
    }

    /** Updates the post-processing buffers for one step: 0 stores the wall
        temperature, 1 parks the fluid temperature in the flux buffer, 2 turns
        it into the flux hf * (wall temperature - fluid temperature). */
    method PostVarUpdate(step: int, v: seq<real>)
      requires Valid()
      requires postMeshId != 0 ==> StepAllowed(Buffers(), step, v)
      modifies this, solidTemp, flux
      ensures Valid()
      ensures Buffers() == PostVarUpdated(old(Buffers()), postMeshId != 0, step, v)
    {
      if postMeshId == 0 {
        return;
      }
      var n := nElts;
      if step == 0 {
        var ii := 0;
        while ii < n
          invariant 0 <= ii <= n
          invariant forall k :: 0 <= k < ii ==> solidTemp[k] == v[k]
          modifies solidTemp
        {
          solidTemp[ii] := v[ii];
          ii := ii + 1;
        }
        assert solidTemp[..] == v[..n];
      } else if step == 1 {
        fluidAliased := true;
        var ii := 0;
        while ii < n
          invariant 0 <= ii <= n
          invariant forall k :: 0 <= k < ii ==> flux[k] == v[k]
          modifies flux
        {
          flux[ii] := v[ii];
          ii := ii + 1;
        }
        assert flux[..] == v[..n];
      } else {
        var ii := 0;
        while ii < n
          invariant 0 <= ii <= n
          invariant forall k :: 0 <= k < ii ==> flux[k] == v[k] * (solidTemp[k] - old(flux[k]))
          invariant forall k :: ii <= k < n ==> flux[k] == old(flux[k])
          modifies flux
        {
          flux[ii] := v[ii] * (solidTemp[ii] - flux[ii]);
          ii := ii + 1;
        }
        ghost var expected := ExchangeFlux(v, old(solidTemp[..]), old(flux[..]));
        assert forall k :: 0 <= k < n ==> flux[..][k] == expected[k];
        assert flux[..] == expected;
        fluidAliased := false;
      }
    }

    /** Saves the received solid temperature of the cells for the source terms. */
    method SaveSolidTemp(tsolid: seq<real>)
      requires Valid() && volume && |tsolid| >= nElts
      modifies solTemp
      ensures solTemp[..] == tsolid[..nElts]
    {
      var i := 0;
      while i < nElts
        invariant 0 <= i <= nElts
        invariant forall k :: 0 <= k < i ==> solTemp[k] == tsolid[k]
      {
        solTemp[i] := tsolid[i];
        i := i + 1;
      }
      assert solTemp[..] == tsolid[..nElts];
    }

    /** Saves the exchange coefficient of the cells for the source terms. */
    method SaveCoefficient(hf: seq<real>)
      requires Valid() && volume && |hf| >= nElts
      modifies hvol
      ensures hvol[..] == hf[..nElts]
    {
      var ii := 0;
      while ii < nElts
        invariant 0 <= ii <= nElts
        invariant forall k :: 0 <= k < ii ==> hvol[k] == hf[k]
      {
        hvol[ii] := hf[ii];
        ii := ii + 1;
      }
      assert hvol[..] == hf[..nElts];
    }
  }

  /** One SYRTHES coupling instance. */
  class Coupling {
    const dim: int
    const refAxis: int
    const syrName: string
    /** Face and cell selection criteria; None stands for a NULL criterion. */
    const faceSel: Option<string>
    const cellSel: Option<string>
    const verbosity: int
    const visualization: int
    var faces: CoupledEntity?
    var cells: CoupledEntity?
    var nSyrRanks: int
    var syrRootRank: int

    /** An entity exists only for a given criterion, the face entity is not a
        volume entity and the cell entity is, and their buffers are distinct. */
    ghost predicate Valid()
      reads this, faces, cells
    {
      && (faces != null ==> faces.Valid() && !faces.volume && faceSel.Some?)
      && (cells != null ==> cells.Valid() && cells.volume && cellSel.Some?)
      && (faces != null && cells != null ==> faces.Arrays() !! cells.Arrays())
    }

    constructor (dim: int, refAxis: int, faceSel: Option<string>, cellSel: Option<string>,
                 syrName: string, verbosity: int, visualization: int)
      ensures Valid()
      ensures this.dim == dim && this.refAxis == refAxis && this.syrName == syrName
      ensures this.faceSel == faceSel && this.cellSel == cellSel
      ensures this.verbosity == verbosity && this.visualization == visualization
      ensures faces == null && cells == null && nSyrRanks == 0 && syrRootRank == -1
    {
      this.dim := dim;
      this.refAxis := refAxis;
      this.syrName := syrName;
      this.faceSel := faceSel;
      this.cellSel := cellSel;
      this.verbosity := verbosity;
      this.visualization := visualization;
      faces := null;
      cells := null;
      nSyrRanks := 0;
      syrRootRank := -1;
    }

    /** The entity of a mode: 0 for the faces, 1 for the cells. */
    function EntityOf(mode: int): CoupledEntity?
      reads this
    {
      if mode == 0 then faces else cells
    }

    ghost function Footprint(mode: int): set<object>
      reads this, faces, cells
    {
      var e := EntityOf(mode);
      if e == null then {} else {e} + e.Arrays()
    }

    /** Whether this is a surface coupling; it can be only if a face criterion was given. */
    function IsSurf(): (r: bool)
      requires Valid()
      reads this, faces, cells
      ensures r ==> faceSel.Some?
    {
      faces != null
    }

    /** Whether this is a volume coupling; it can be only if a cell criterion was given. */
    function IsVol(): (r: bool)
      requires Valid()
      reads this, faces, cells
      ensures r ==> cellSel.Some?
    {
      cells != null
    }

    /** Number of local coupled elements of a mode, 0 without that entity. */
    function GetNElts(mode: int): (n: nat)
      requires Valid()
      requires mode == 0 || mode == 1
      reads this, faces, cells
      ensures n > 0 ==> if mode == 0 then IsSurf() else IsVol()
    {
      var e := EntityOf(mode);
      if e == null then 0 else e.nElts
    }

    /** The post-processing mesh id an entity is given: 0 unless visualization is on. */
    function EntityPostId(ext: Extraction): int {
      if visualization != 0 then ext.postMeshId else 0
    }

    /** Records the SYRTHES rank range and negotiates the coupling options.
        The given range is stored first; when MPI is initialised, the
        intracommunicator set up for the coupling replaces it with the distant
        range [start, end) it reports (None when MPI is not initialised). The
        received frame, with its conservativity flag overwritten by the local
        one, must then read as the local options token. */
    method InitComm(syrRootRank: int, nSyrRanks: int, distantRange: Option<(int, int)>,
                    conservativity: int, recv: string)
      returns (r: Outcome)
      requires |recv| == FrameLength
      modifies this`nSyrRanks, this`syrRootRank
      ensures distantRange.None? ==> this.syrRootRank == syrRootRank && this.nSyrRanks == nSyrRanks
      ensures distantRange.Some? ==>
        this.syrRootRank == distantRange.value.0
        && this.nSyrRanks == distantRange.value.1 - distantRange.value.0
      ensures var local := OptionsToken(faceSel.Some?, cellSel.Some?, conservativity);
        r == if OptionsCompatible(recv, local) then Ok
             else Fatal(IncompatibleOptions(local, CString(PatchedOptions(recv, local))))
    {
      this.nSyrRanks := nSyrRanks;
      this.syrRootRank := syrRootRank;
      if distantRange.Some? {
        var (start, end) := distantRange.value;
        this.nSyrRanks := end - start;
        this.syrRootRank := start;
      }
      var boundaryFlag := ' ';
      var volumeFlag := ' ';
      var conservativityFlag := '1';
      if faceSel.Some? {
        boundaryFlag := 'b';
      }
      if cellSel.Some? {
        volumeFlag := 'v';
      }
      if conservativity == 0 {
        conservativityFlag := '0';
      }
      var opNameSend := TypePrefix + [boundaryFlag, volumeFlag, conservativityFlag];
      assert opNameSend == OptionsToken(faceSel.Some?, cellSel.Some?, conservativity);
      var opNameRecv := recv[ConservativityIndex := opNameSend[ConservativityIndex]];
      if CString(opNameRecv) != CString(opNameSend) {
        return Fatal(IncompatibleOptions(opNameSend, CString(opNameRecv)));
      }
      return Ok;
    }

    /** Builds the face entity (if a face criterion was given), then the cell
        entity (if a cell criterion was given), then checks that SYRTHES sent
        the ready token. */
    method InitMesh(faceExt: Extraction, cellExt: Extraction, recv: string) returns (r: Outcome)
      requires Valid()
      requires dim == 2 || dim == 3
      requires |recv| == FrameLength
      modifies this`faces, this`cells
      ensures Valid()
      ensures r == MeshSetupOutcome(faceSel, cellSel, faceExt, cellExt, dim, recv)
      ensures faceSel.Some? && PhaseOutcome(faceSel, faceExt, dim) == Ok ==>
        && faces != null && fresh(faces) && fresh(faces.Arrays())
        && faces.nElts == faceExt.nElts && faces.postMeshId == EntityPostId(faceExt)
        && !faces.fluidAliased
      ensures !(faceSel.Some? && PhaseOutcome(faceSel, faceExt, dim) == Ok) ==> faces == old(faces)
      ensures PhaseOutcome(faceSel, faceExt, dim) == Ok && cellSel.Some?
              && PhaseOutcome(cellSel, cellExt, dim) == Ok ==>
        && cells != null && fresh(cells) && fresh(cells.Arrays())
        && cells.nElts == cellExt.nElts && cells.postMeshId == EntityPostId(cellExt)
        && !cells.fluidAliased
      ensures !(PhaseOutcome(faceSel, faceExt, dim) == Ok && cellSel.Some?
                && PhaseOutcome(cellSel, cellExt, dim) == Ok) ==>
        cells == old(cells)
      ensures r == Ok ==> (IsSurf() <==> faceSel.Some?) && (IsVol() <==> cellSel.Some?)
    {
      if faceSel.Some? {
        var check := ExtractionOutcome(faceExt, faceSel.value, dim);
        if check.Fatal? {
          return check;
        }
        faces := new CoupledEntity(false, faceExt.nElts, EntityPostId(faceExt));
      }
      if cellSel.Some? {
        var check := ExtractionOutcome(cellExt, cellSel.value, dim);
        if check.Fatal? {
          return check;
        }
        cells := new CoupledEntity(true, cellExt.nElts, EntityPostId(cellExt));
      }
      if CString(recv) != StartToken {
        return Fatal(UnexpectedMessage(CString(recv)));
      }
      return Ok;
    }

    /** Stores the solid temperature received for a mode: into the wall
        temperature buffer when post-processing is active, and for the cells
        also into the saved solid temperature. */
    method RecvTsolid(mode: int, tsolid: seq<real>)
      requires Valid()
      requires mode == 0 || mode == 1
      requires EntityOf(mode) != null ==> |tsolid| >= EntityOf(mode).nElts
      modifies Footprint(mode)
      ensures Valid()
      ensures var e := EntityOf(mode); e != null ==>
        && e.Buffers() == PostVarUpdated(old(e.Buffers()), e.postMeshId != 0, 0, tsolid)
        && e.solTemp[..] == (if mode == 1 then tsolid[..e.nElts] else old(e.solTemp[..]))
        && e.hvol[..] == old(e.hvol[..])
    {
      var e := EntityOf(mode);
      if e == null {
        return;
      }
      if e.nElts > 0 {
        e.PostVarUpdate(0, tsolid);
        if mode == 1 {
          e.SaveSolidTemp(tsolid);
        }
      }
    }

    /** Sends the fluid temperature and exchange coefficient for a mode:
        gathers the interleaved send buffer, runs update steps 1 and 2, saves
        the coefficient for the cells, and with conservativity forced on the
        faces computes the local flux sum sent for the correction. */
    method SendTfHf(mode: int, cplEltList: seq<int>, tf: seq<real>, hf: seq<real>,
                    distLoc: seq<int>, surf: seq<real>, conservativity: int)
      returns (sent: Option<seq<real>>, localFlux: Option<real>)
      requires Valid()
      requires mode == 0 || mode == 1
      requires EntityOf(mode) != null ==>
        |tf| >= EntityOf(mode).nElts && |hf| >= EntityOf(mode).nElts
        && LocatedOn(distLoc, EntityOf(mode).nElts)
      requires conservativity > 0 && mode == 0 && faces != null ==>
        FacesOn(cplEltList, surf, faces.nElts) && (faces.nElts > 0 ==> faces.postMeshId != 0)
      modifies Footprint(mode)
      ensures Valid()
      ensures EntityOf(mode) == null ==> sent == None && localFlux == None
      ensures var e := EntityOf(mode); e != null ==>
        && sent.Some? && IsSendBuffer(sent.value, tf, hf, distLoc)
        && e.Buffers() == (if e.nElts == 0 then old(e.Buffers())
                           else PostVarUpdated(PostVarUpdated(old(e.Buffers()), e.postMeshId != 0, 1, tf),
                                               e.postMeshId != 0, 2, hf))
        && e.hvol[..] == (if mode == 1 then hf[..e.nElts] else old(e.hvol[..]))
        && e.solTemp[..] == old(e.solTemp[..])
        && localFlux == (if conservativity > 0 && mode == 0
                         then Some(FluxSum(e.flux[..], cplEltList, surf, e.nElts)) else None)
    {
      var e := EntityOf(mode);
      if e == null {
        sent, localFlux := None, None;
        return;
      }
      LocatedOnWider(distLoc, e.nElts, |tf|);
      LocatedOnWider(distLoc, e.nElts, |hf|);
      var sendVar := GatherSendBuffer(tf, hf, distLoc);
      sent := Some(sendVar);
      if e.nElts > 0 {
        e.PostVarUpdate(1, tf);
        e.PostVarUpdate(2, hf);
        if mode == 1 {
          e.SaveCoefficient(hf);
        }
      }
      localFlux := None;
      if conservativity > 0 && mode == 0 {
        var sum := LocalFlux(e.flux[..], cplEltList, surf, e.nElts);
        localFlux := Some(sum);
      }
    }

    /** Volume source-term contribution for every coupled cell, from the saved
        coefficient and solid temperature and the given fluid temperature:
        implicit treatment when the flag is nonzero, explicit otherwise. */
    method TsContrib(tf: seq<real>, ctbimp: array<real>, ctbexp: array<real>, implicit: int)
      requires Valid()
      requires cells != null
      requires |tf| >= cells.nElts && ctbimp.Length >= cells.nElts && ctbexp.Length >= cells.nElts
      requires ctbimp != ctbexp && ctbimp !in cells.Arrays() && ctbexp !in cells.Arrays()
      modifies ctbimp, ctbexp
      ensures forall i :: 0 <= i < cells.nElts ==>
        && ctbimp[i] == ImplicitPart(implicit != 0, cells.hvol[i])
        && ctbexp[i] == ExplicitPart(implicit != 0, cells.hvol[i], cells.solTemp[i], tf[i])
      ensures forall i :: cells.nElts <= i < ctbimp.Length ==> ctbimp[i] == old(ctbimp[i])
      ensures forall i :: cells.nElts <= i < ctbexp.Length ==> ctbexp[i] == old(ctbexp[i])
    {
      var ent := cells;
      var hvol := ent.hvol;
      var solidTemp := ent.solTemp;
      var i := 0;
      if implicit == 0 {
        while i < ent.nElts
          invariant 0 <= i <= ent.nElts
          invariant forall k :: 0 <= k < i ==>
            ctbimp[k] == 0.0 && ctbexp[k] == -hvol[k] * (tf[k] - solidTemp[k])
          invariant forall k :: i <= k < ctbimp.Length ==> ctbimp[k] == old(ctbimp[k])
          invariant forall k :: i <= k < ctbexp.Length ==> ctbexp[k] == old(ctbexp[k])
        {
          ctbexp[i] := -hvol[i] * (tf[i] - solidTemp[i]);
          ctbimp[i] := 0.0;
          i := i + 1;
        }
      } else {
        while i < ent.nElts
          invariant 0 <= i <= ent.nElts
          invariant forall k :: 0 <= k < i ==>
            ctbimp[k] == hvol[k] && ctbexp[k] == hvol[k] * solidTemp[k]
          invariant forall k :: i <= k < ctbimp.Length ==> ctbimp[k] == old(ctbimp[k])
          invariant forall k :: i <= k < ctbexp.Length ==> ctbexp[k] == old(ctbexp[k])
        {
          ctbexp[i] := hvol[i] * solidTemp[i];
          ctbimp[i] := hvol[i];
          i := i + 1;
        }
      }
    }
  }

  /** Locations valid for n elements are valid for any larger count. */
  lemma LocatedOnWider(distLoc: seq<int>, n: nat, m: nat)
    requires LocatedOn(distLoc, n) && n <= m
    ensures LocatedOn(distLoc, m)
  {
  }

  /** The process-wide registry of couplings and the two process-wide flags. */
  class Registry {
    var couplings: seq<Coupling>
    /** Conservativity forcing flag; 0 (no forcing) by default. */
    var conservativity: int
    /** Implicit source-term treatment flag; 1 (implicit) by default. */
    var implicit: int

    constructor ()
      ensures couplings == [] && conservativity == 0 && implicit == 1
    {
      couplings := [];
      conservativity := 0;
      implicit := 1;
    }

    function NCouplings(): (n: nat)
      reads this
      ensures n == |couplings|
    {
      |couplings|
    }

    /** Bounds-checked lookup: the coupling with this id, None outside [0, count). */
    function ById(id: int): (r: Option<Coupling>)
      reads this
      ensures r.Some? <==> 0 <= id < NCouplings()
      ensures r.Some? ==> r.value == couplings[id]
    {
      if 0 <= id < |couplings| then Some(couplings[id]) else None
    }

    /** Appends a new coupling; without any selection criterion this is a
        fatal error and nothing is registered. */
    method Add(dim: int, refAxis: int, faceSel: Option<string>, cellSel: Option<string>,
               syrName: Option<string>, verbosity: int, visualization: int) returns (r: Outcome)
      modifies this
      ensures conservativity == old(conservativity) && implicit == old(implicit)
      ensures faceSel.None? && cellSel.None? ==>
        r == Fatal(NoSelectionCriteria) && couplings == old(couplings)
      ensures faceSel.Some? || cellSel.Some? ==>
        && r == Ok
        && NCouplings() == old(NCouplings()) + 1
        && (forall i :: 0 <= i < old(NCouplings()) ==> ById(i) == old(ById(i)))
        && ById(old(NCouplings())).Some?
        && var c := ById(old(NCouplings())).value;
           && fresh(c) && c.Valid() && c.faces == null && c.cells == null
           && c.dim == dim && c.refAxis == refAxis
           && c.faceSel == faceSel && c.cellSel == cellSel
           && c.syrName == (if syrName.Some? then syrName.value else "")
           && c.verbosity == verbosity && c.visualization == visualization
           && c.nSyrRanks == 0 && c.syrRootRank == -1
    {
      if faceSel.None? && cellSel.None? {
        return Fatal(NoSelectionCriteria);
      }
      var name := if syrName.Some? then syrName.value else "";
      var c := new Coupling(dim, refAxis, faceSel, cellSel, name, verbosity, visualization);
      couplings := couplings + [c];
      return Ok;
    }

    /** Frees every coupling and empties the registry; on an empty registry it
        returns at once, without the timing report. */
    method AllDestroy() returns (reported: bool)
      modifies this
      ensures reported <==> old(NCouplings()) > 0
      ensures couplings == []
      ensures conservativity == old(conservativity) && implicit == old(implicit)
    {
      if |couplings| == 0 {
        return false;
      }
      couplings := [];
      return true;
    }

    /** Sets the conservativity forcing flag shared by all couplings. */
    method SetConservativity(flag: int)
      modifies this`conservativity
      ensures conservativity == flag
    {
      conservativity := flag;
    }

    /** Switches volume source terms to explicit treatment for all couplings. */
    method SetExplicitTreatment()
      modifies this`implicit
      ensures implicit == 0
    {
      implicit := 0;
    }
  }
}
