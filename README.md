# SYRTHES 4 coupling, fluid side

This project models the fluid side of Code_Saturne's thermal coupling with the
SYRTHES 4 solid solver (`src/base/cs_syr4_coupling.c`). It is written in Dafny
and proves properties of that model. It covers four parts:

- **Coupling registry.** The process-wide list of couplings and the two
  process-wide flags: conservativity forcing and implicit source-term treatment.
  The model is the class `Syr4Coupling.Registry`.
- **Handshake tokens.** The options token `"coupling:type:"` plus three flag
  characters, and the ready token `"coupling:start"`. Both travel as 32-character
  frames and are compared as C strings. The model is in module `Syr4Tokens`.
- **Coupled entities.** The boundary-face entity and the cell entity of a
  coupling, with their exchange buffers. The model covers the three-step update
  of the post-processing buffers, the interleaved send buffer gathered through
  the locator's 1-based distant-point locations, and the local flux sum sent for
  the conservativity correction. The model is the classes
  `Syr4Coupling.CoupledEntity` and `Syr4Coupling.Coupling`, specified by the pure
  functions of `Syr4Fields`.
- **Volume source-term contribution.** Explicit and implicit modes
  (`Coupling.TsContrib`, `Syr4Fields.ImplicitPart`/`ExplicitPart`).

The registry, the coupling and the entity are classes whose methods update
fields and arrays in place, as the C code does. An unallocated (NULL) buffer is
an array of length 0.

These things are inputs to the model rather than computed by it:

- the 32 characters received from SYRTHES;
- the solid temperature the locator delivers;
- the locator's distant-point locations;
- what mesh extraction and location report: element count, global vertex count,
  projection errors, global exterior-point count and post-processing mesh id.

The model assumes an MPI build, since all of `cs_syr4_coupling_init_comm` is
compiled only with MPI.

A received frame is read as a C string that ends at its first NUL or after its
32nd character. On a parallel run this matches the terminator the source writes
after the broadcast (`op_name_recv[32] = '\0'`). A single-rank run does not
write that terminator; see "## Left out".

The process-wide flags live in `Syr4Coupling.Registry` (`conservativity`,
`implicit`). The coupling operations that depend on them (`Coupling.InitComm`,
`Coupling.SendTfHf`, `Coupling.TsContrib`) take them as parameters. The caller
passes in the registry's current values.

## Model

| member | source | states |
|---|---|---|
| `Syr4Tokens.CString` | src/base/cs_syr4_coupling.c:1285 | the string a buffer holds is a NUL-free prefix of it, followed by a NUL or by the end of the buffer |
| `Syr4Tokens.CStringIs` | src/base/cs_syr4_coupling.c:1285 | a buffer holds the C string t if and only if t is NUL-free, is a prefix of the buffer, and is followed by a NUL or by the end of the buffer |
| `Syr4Tokens.Frame` | src/base/cs_syr4_coupling.c:268-271 | a token goes on the wire as exactly 32 characters |
| `Syr4Tokens.FrameRoundTrip` | src/base/cs_syr4_coupling.c:266-298 | reading a sent frame back as a C string gives the token, cut to its first 32 characters |
| `Syr4Tokens.OptionsToken` | src/base/cs_syr4_coupling.c:1256-1277 | the options token has 17 characters, contains no NUL, and starts with the 14-character prefix `"coupling:type:"` |
| `Syr4Tokens.DecodeOptions` | src/base/cs_syr4_coupling.c:1276-1277 | only a 17-character string that starts with `"coupling:type:"` decodes to a set of coupling options |
| `Syr4Tokens.DecodeEncode` | src/base/cs_syr4_coupling.c:1269-1277 | decoding the token gives back the face-criterion, cell-criterion and conservativity settings: `'b'`/`' '` at index 14, `'v'`/`' '` at 15, `'1'`/`'0'` at 16 (`'0'` exactly when the flag is 0) |
| `Syr4Tokens.EncodeDecode` | src/base/cs_syr4_coupling.c:1269-1277 | every string that decodes to a set of options is exactly the token those options encode, so the decoder accepts only what the encoder writes |
| `Syr4Tokens.PatchedOptions` | src/base/cs_syr4_coupling.c:1281-1283 | overwriting the conservativity flag of the received frame keeps it 32 characters long |
| `Syr4Tokens.OptionsCompatible` | src/base/cs_syr4_coupling.c:1281-1285 | the strcmp options check; when it passes, the first 17 characters of the patched frame are the local token and the 18th is NUL |
| `Syr4Tokens.OptionsCompatibleIff` | src/base/cs_syr4_coupling.c:1281-1295 | a received frame passes the options check if and only if its first 16 characters equal the local token's and its 18th character is NUL; index 16 may hold anything |
| `Syr4Tokens.NegotiationAgreement` | src/base/cs_syr4_coupling.c:1262-1295 | two sides' framed options tokens are compatible if and only if they agree on surface and volume coupling, whatever their conservativity flags |
| `Syr4Tokens.StartAccepted` | src/base/cs_syr4_coupling.c:1345 | the strcmp ready check; when it passes, the frame starts with `"coupling:start"` followed by a NUL |
| `Syr4Tokens.StartAcceptedIff` | src/base/cs_syr4_coupling.c:1341-1349 | the ready check passes if and only if the frame starts with `"coupling:start"` followed by a NUL |
| `Syr4Tokens.StartRoundTrip` | src/base/cs_syr4_coupling.c:1339-1349 | the framed ready token passes the ready check; a framed options token never does |
| `Syr4Fields.PostVarUpdated` | src/base/cs_syr4_coupling.c:921-950 | the step function keeps the buffer lengths and changes nothing while post-processing is inactive. Step 0 overwrites only the wall temperature, with tsolid. Step 1 overwrites only the flux buffer, with tf, and sets the alias. Step 2 leaves the wall temperature alone and clears the alias |
| `Syr4Fields.ThreeStepCycle` | src/base/cs_syr4_coupling.c:929-950 | after steps 0, 1, 2 with tsolid, tf, hf: the wall temperature is tsolid, `flux[i] = hf[i]*(tsolid[i]-tf[i])` for every element, and the alias is cleared, whatever the buffers held before |
| `Syr4Fields.AliasDiscipline` | src/base/cs_syr4_coupling.c:938-949 | step 2 is allowed right after step 1 and not again after step 2 |
| `Syr4Fields.CycleIdempotent` | src/base/cs_syr4_coupling.c:929-950 | repeating an update cycle with the same inputs leaves the buffers as they are |
| `Syr4Fields.FluxSign` | src/base/cs_syr4_coupling.c:944-948 | the flux is 0 where solid and fluid temperatures agree; with a non-negative coefficient its sign is the sign of tsolid - tf |
| `Syr4Fields.GatherSendBuffer` | src/base/cs_syr4_coupling.c:1562-1571 | the send buffer has length `2*n_dist`, with `tf[dist_loc[i]-1]` at 2i and `hf[dist_loc[i]-1]` at 2i+1 |
| `Syr4Fields.SendBufferSplits` | src/base/cs_syr4_coupling.c:1566-1579 | taking the even and odd entries of the send buffer gives back tf and hf at the distant points' locations |
| `Syr4Fields.LocalFlux` | src/base/cs_syr4_coupling.c:985-992 | the local sum is the sum over the n coupled faces of `flux[ii]*surf[face_list[ii]-1]` |
| `Syr4Fields.FluxSumSign` | src/base/cs_syr4_coupling.c:989-992 | the sum `FluxSum` folds over the coupled faces is 0 when no face carries flux, and non-negative when every flux and surface is non-negative |
| `Syr4Fields.FluxSumSplit` | src/base/cs_syr4_coupling.c:994-1000 | the sum over two ranks' faces equals the sum of their local sums, which is what the reduction to the root rank computes |
| `Syr4Fields.ImplicitPart` | src/base/cs_syr4_coupling.c:1641-1650 | the implicit coefficient is 0 in explicit mode, and non-negative whenever the exchange coefficient is |
| `Syr4Fields.ExplicitPart` | src/base/cs_syr4_coupling.c:1641-1650 | in implicit mode the explicit part is the implicit coefficient times the solid temperature. In explicit mode it is h*(tsolid - tf), which is 0 at equal temperatures |
| `Syr4Fields.ModesAgree` | src/base/cs_syr4_coupling.c:1638-1653 | explicit part minus implicit part times T equals h*(tsolid - T) in implicit mode for every T; in explicit mode it equals h*(tsolid - tf) at the fluid temperature used |
| `Syr4Fields.SourceTermExample` | src/base/cs_syr4_coupling.c:1638-1653 | values for coefficients [2, 3], solid temperatures [100, 50] and fluid temperatures [80, 50] in both modes |
| `Syr4Fields.TsGuardOverrun` | src/base/cs_syr4_coupling.c:1640 | with n_elts > 0 the guard as written holds at every index, including n_elts itself; the bounded guard stops at n_elts |
| `Syr4Coupling.ExtractionOutcome` | src/base/cs_syr4_coupling.c:562-788 | building an entity succeeds if and only if the mesh is nonempty, a 2-D projection reports no error and no element centre is exterior; an empty mesh fails first, naming the criterion |
| `Syr4Coupling.MeshSetupOutcome` | src/base/cs_syr4_coupling.c:1309-1356 | mesh setup succeeds if and only if every given criterion builds its entity and the ready frame is accepted; an unexpected frame is reported with its contents |
| `Syr4Coupling.CoupledEntity.constructor` | src/base/cs_syr4_coupling.c:475-524 | a new entity has fresh buffers, wall temperature and flux sized n_elts only with post-processing active, coefficient and solid temperature sized n_elts only for cells, and no alias |
| `Syr4Coupling.CoupledEntity.PostVarUpdate` | src/base/cs_syr4_coupling.c:913-956 | the buffers after a step are those of the step function: no change while post-processing is inactive, otherwise step 0, 1 or 2, where step 2 requires the alias set by step 1 |
| `Syr4Coupling.CoupledEntity.SaveSolidTemp` | src/base/cs_syr4_coupling.c:1510-1518 | the saved solid temperature of the cells becomes the first n_elts values received |
| `Syr4Coupling.CoupledEntity.SaveCoefficient` | src/base/cs_syr4_coupling.c:1584-1590 | the saved exchange coefficient of the cells becomes the first n_elts values of hf |
| `Syr4Coupling.Coupling.constructor` | src/base/cs_syr4_coupling.c:1109-1158 | a new coupling keeps its configuration, has no entities and no SYRTHES ranks (root rank -1) |
| `Syr4Coupling.Coupling.IsSurf` | src/base/cs_syr4_coupling.c:1370-1380 | a coupling is a surface coupling only if a face criterion was given |
| `Syr4Coupling.Coupling.IsVol` | src/base/cs_syr4_coupling.c:1393-1403 | a coupling is a volume coupling only if a cell criterion was given |
| `Syr4Coupling.Coupling.GetNElts` | src/base/cs_syr4_coupling.c:1417-1437 | the element count of a mode is 0 unless that entity exists |
| `Syr4Coupling.Coupling.InitComm` | src/base/cs_syr4_coupling.c:1249-1297 | stores the given SYRTHES rank range. When MPI is initialised, that range is replaced by the distant range [start, end) the intracommunicator reports, so the root rank becomes start and the rank count end - start (lines 185-219). It fails with both tokens exactly when the patched received frame does not read as the local options token |
| `Syr4Coupling.Coupling.InitMesh` | src/base/cs_syr4_coupling.c:1309-1356 | the faces are built before the cells, each only for a given criterion and only if earlier checks passed; the outcome is `MeshSetupOutcome`; on success IsSurf and IsVol say which criteria were given |
| `Syr4Coupling.Coupling.RecvTsolid` | src/base/cs_syr4_coupling.c:1482-1522 | stores tsolid as the wall temperature (post-processing only); for cells, the saved solid temperature becomes an exact copy of tsolid; nothing without the entity |
| `Syr4Coupling.Coupling.SendTfHf` | src/base/cs_syr4_coupling.c:1536-1600 | sends the gathered buffer, runs steps 1 and 2 when n_elts > 0, makes the saved coefficient an exact copy of hf for cells, and computes the local flux sum only when conservativity > 0 on faces; nothing without the entity |
| `Syr4Coupling.Coupling.TsContrib` | src/base/cs_syr4_coupling.c:1614-1655 | for every i < n_elts: explicit mode gives `ctbexp = -hvol*(tf - sol_temp)` and `ctbimp = 0`; implicit mode gives `ctbexp = hvol*sol_temp` and `ctbimp = hvol`; entries from n_elts onward are untouched |
| `Syr4Coupling.Registry.constructor` | src/base/cs_syr4_coupling.c:161-170 | the registry starts empty, with no conservativity forcing and implicit treatment |
| `Syr4Coupling.Registry.NCouplings` | src/base/cs_syr4_coupling.c:1052-1055 | the count is the number of registered couplings |
| `Syr4Coupling.Registry.ById` | src/base/cs_syr4_coupling.c:1067-1077 | returns the coupling at index id for 0 <= id < count and None otherwise |
| `Syr4Coupling.Registry.Add` | src/base/cs_syr4_coupling.c:1093-1163 | with neither criterion it is fatal and the registry is unchanged; otherwise the count grows by one, the new coupling is at the old count, and earlier entries are unchanged |
| `Syr4Coupling.Registry.AllDestroy` | src/base/cs_syr4_coupling.c:1170-1212 | empties the registry, leaving the count at 0; the timing report is produced exactly when the registry was not empty |
| `Syr4Coupling.Registry.SetConservativity` | src/base/cs_syr4_coupling.c:1223-1226 | sets the shared conservativity forcing flag |
| `Syr4Coupling.Registry.SetExplicitTreatment` | src/base/cs_syr4_coupling.c:1233-1236 | switches the shared source-term treatment to explicit |

## Findings

| source | as written | input that shows it | evidently intended | confidence | as-written member | corrected member |
|---|---|---|---|---|---|---|
| src/base/cs_syr4_coupling.c:1640 | both source-term loops (here and at line 1648) test `ent->n_elts` instead of `i < ent->n_elts` | a volume coupling with `n_elts = 1`: the guard still holds at `i = 1`, so the loop writes `ctbexp[1]`, reads `hvol[1]`, and never stops | loop over `i < n_elts` | high (not executed) | `Syr4Fields.TsGuardOverrun` | `Syr4Coupling.Coupling.TsContrib` |

## Left out

- MPI transport is not modelled: the intracommunicator creation in `_init_comm`, `_finalize_comm`, the Sendrecv/Send/Recv/Bcast of `_exchange_sync`, and the Reduce/Send/Recv of `_ensure_conservativity`. The distant range the intracommunicator creation reports is `InitComm`'s `distantRange` parameter. These are inter-process communication. Received tokens and values are parameters. The correction coefficient SYRTHES returns is only logged by the source, so it is not modelled.
- The leader-rank-only exchange followed by a broadcast is not modelled. Every rank sees the same received frame.
- PLE locator creation and location are not modelled, including the 0.1 tolerance and closest-element location for faces. Neither is `ple_locator_exchange_point_var`. These are foreign library calls. The distant-point locations and the received solid temperature are parameters.
- FVM mesh extraction, 2-D projection, element centres and `cs_syr4_coupling_get_elt_list` are not modelled. They are external mesh-library work. Their results enter only through the `Extraction` counts.
- Post-processing is not modelled: `_post_init` writer registration, `_cs_syr4_coupling_post_function` and the `cs_post_*` calls. Timing logs (`_all_comm_times`) and all log messages are left out as well. `AllDestroy` only returns whether the timing report would be printed.
- Field values are reals. The single-precision storage of the wall-temperature and flux buffers is not modelled.
- Single-rank runs (`cs_glob_rank_id == -1`) skip the broadcast and the terminator `op_name_recv[32] = '\0'` (line 296). There `op_name_recv[32]` is never written. The comparisons at lines 1285 and 1345 are unaffected, because strcmp stops by index 17 or 14. The `%s` in the error messages at lines 1294 and 1349 can read past the 32 received characters. `IncompatibleOptions` and `UnexpectedMessage` carry the text cut at 32 characters.
- Error messages are modelled by their kind and key values, not their text. The unlocated-elements message in the source prints the coupled mesh name after it has been freed; this is not modelled.
- Memory release in `AllDestroy` and `_destroy_coupled_ent` has no counterpart in the model: dropped objects are simply no longer reachable.
- The contents of new buffers are unspecified, as in the source.
- `cs_syr4_coupling_init_comm` takes a coupling id that is used only for logging. `InitComm` does not take it.
- Syr4Coupling.Registry.Add: the source grows the registry array before raising the fatal error for missing criteria. The model leaves the registry unchanged, because the run aborts at that point.
- Syr4Coupling.Coupling.SendTfHf: with conservativity forced on a face entity that has elements, the model requires post-processing to be active. In that case the source reads `flux[ii]` at line 991, but only `_post_init` allocates that buffer (lines 407-410). Without post-processing the read is a NULL dereference. This is a probable source defect, but the intended behaviour is not evident: the source could allocate the buffer in every case, or compute the flux directly from hf, tsolid and tf. So the model states no corrected version.
- Syr4Coupling.Coupling.TsContrib: the source asserts that the saved coefficient and solid temperature buffers are non-NULL. Those buffers are NULL for a cell entity with 0 elements, so the assertion fails in debug builds. The model computes nothing in that case.
- Syr4Coupling.Coupling.InitMesh: the source asserts that the dimension is 2 or 3. The model takes this as a precondition.
- The source's `assert`s on the mode and the update step also become preconditions.
