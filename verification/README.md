# standardNet6Areas in Dafny

This project models the core of the felix simulation of a six-area neural network. Each area has
N1 = 625 cells. The network learns cell assemblies (CAs) for P = 12 pairs of sensory and motor
patterns. The model covers the following parts, mostly as pure functions over immutable sequences.

- **The numeric engine** of `standardNet6Areas.c` and its Python port:
  - the Hebbian learning rule `train_projection_cyclic`;
  - the cyclic 2D correlations;
  - the initialisation of patterns and kernels;
  - CA detection and overlaps;
  - the automated-training controller;
  - input staging, clamping, rates, adaptation and the learning stage of `step`;
  - `main_init`, `resetNet` and the connectivity matrix `K`.
- **The felix command handler** of `gen_sim.c`. It is a state machine over `running`, `do_steps`,
  `init_flag`, the switches and the sliders, driven by one-letter messages and by the timeout
  branch of the main loop.

How the source's types and library calls are represented:

- C `float` and numpy floats are `real`.
- C integer conversions are written out. `strtol` saturates at the 64-bit `long` bounds. The
  `long` to `int` narrowing is a reduction modulo 2^32. C's truncating `%` is `Learning.CRem`.
- `exp` is a parameter `e` with `e(0.0) == 1.0`.
- The transfer function is a parameter, and so is the `%f` conversion of the timer command.
- Every random draw is passed in as an explicit sequence. `random()` draws are naturals; uniform
  draws (`equal_noise`, `random.random()`) are reals in [0,1).

Modules, one per file:

- `Params`: the constants.
- `Results`: `Option` and `Result`.
- `Sums`: finite sums.
- `Vectors`: `util.py`'s vector primitives.
- `Correlation`: the flat correlations of `correlation.py`.
- `Util2d`: the 2D correlations of `util.py`.
- `Network`: `K`, `display_K`, `main_init` and `resetNet`.
- `Kernels`: patterns, Gaussian and patchy kernels, and the layout of `J`.
- `Learning`: `train_projection_cyclic`.
- `Plasticity`: the learning stage of `step`.
- `Assemblies`: the CA stage.
- `Training`: the training controller.
- `Staging`: input staging, clamp, rates and adaptation.
- `TextScan`: `strtol` and `sscanf` `%d`.
- `GenSim`: the felix handlers.

Where the code departs from what its comments and design describe, the model follows the code. Two
places use a corrected definition instead, and both keep the as-written one beside it: the learning
stage of `step` (`Plasticity.LearningPass`) trains with the block-indexed `Learning.BlockTrained`,
and the corrected dispatcher `GenSim.HandleMessageFixed` uses `GenSim.HandleSteps` (see Findings).
The departures the model follows:

- LTP is gated by `w < JMAX` but not clamped, so a weight can end up to `hrate` above JMAX
  (standardNet6Areas.c:645-649).
- `compute_CApatts` leaves a segment's CA unchanged, not cleared, when the segment's peak is below
  MIN_CELLRATE (standardNet6Areas.c:706-713).
- `total_output` ends as the output of the last area only (see Findings).
- The learning stage trains one bank per linked pair of areas: 16 of the 36 slots of `J` for the
  network's `K`.
- The terminal training phase ends the program (`exit(0)`).
- `handle_message` stores what `handle_steps` returns, so "n" with a count above INT_MAX can
  leave a negative or wrapped step budget; a negative budget makes the timeout branch idle, as
  `do_steps > 0` fails (gen_sim.c:250-253, 833).

## Model

| member | source | states |
|---|---|---|
| Params.SynapticBoundsOrdered | server/models/standardNet6Areas.py:93-105 | NO_SYNAPSE < JMIN < JMAX: a synapse that has decayed to the minimum stays distinguishable from an absent one |
| Vectors.Zeros | server/models/util.py:15-19 | Get_Vector gives n entries, all zero |
| Vectors.BZeros | server/models/util.py:29-33 | Get_bVector gives a binary vector of n zeros |
| Vectors.BSumCountsOnes | server/models/util.py:107-115 | on a binary vector bSum (`Vectors.BSum`) is the number of ones, between 0 and n |
| Vectors.BSumZeros | server/models/util.py:107-115 | bSum of a zero vector is 0 |
| Vectors.BSumUpdate | server/models/util.py:107-115 | overwriting one entry changes bSum by new minus old |
| Vectors.BBSkalarSymmetric | server/models/util.py:50-60 | bbSkalar (`Vectors.BBSkalar`) is symmetric: bbSkalar(v1, v2) == bbSkalar(v2, v1) |
| Vectors.BBSkalarBounded | server/models/util.py:50-60 | on binary vectors bbSkalar lies in [0, min(bSum v1, bSum v2)] |
| Vectors.BBSkalarSelf | server/models/util.py:50-60 | a binary vector dotted with itself counts its ones |
| Vectors.BSkalarIsMaskedSum | server/models/util.py:79-87 | with a binary mask bSkalar (`Vectors.BSkalar`) sums exactly the masked entries |
| Vectors.BSkalarBounded | server/models/util.py:79-87 | rates in [0,1] against a binary mask give a value in [0, ones of the mask] |
| Vectors.MaxElem | server/models/util.py:159-165 | None exactly on the empty vector; otherwise the result is an entry and no entry exceeds it |
| Vectors.Fire | server/models/util.py:178-194 | entry i of the result is 1 iff vektor[i] > teta and 0 otherwise; entries of dest past n are kept; a fresh result has length n |
| Vectors.FireKeepsBinary | server/models/util.py:178-194 | firing into a binary destination leaves it binary |
| Vectors.LeakyIntegrate | server/models/util.py:197-206 | tau == 0 gives expr; obj == expr is a fixed point; with 0 <= step_size <= tau the result lies between obj and expr |
| Vectors.ConvexStep | server/models/util.py:202-203 | obj + (expr - obj)*a lies between obj and expr for a in [0,1] |
| Vectors.BoolNoise | server/models/util.py:269-274 | true for every draw when p >= 1, false for every draw when p < 0 |
| Vectors.BoolNoiseMonotone | server/models/util.py:269-274 | a larger probability succeeds on every draw a smaller one succeeds on |
| Correlation.OffsetCount | server/models/correlation.py:77-80 | the offset window of an axis with n taps has exactly n offsets |
| Correlation.RowMajorBounds | server/models/correlation.py:62 | row-major addressing of an h x w grid stays in [0, w*h) |
| Correlation.RowMajorInverse | server/models/correlation.py:62 | division and remainder by w undo row-major addressing |
| Correlation.DivModBounds | server/models/correlation.py:62 | an index below w*h splits into a row below h and a column below w |
| Correlation.InIndexBounds | server/models/correlation.py:62 | the wrapped input index ((i+k)%h)*w + (j+l)%w lies in [0, w*h) for every cell and offset |
| Correlation.KernIndexBounds | server/models/correlation.py:63-64 | the kernel index of every offset in the window lies in [0, kw*kh) |
| Correlation.KernIndexInjective | server/models/correlation.py:63-64 | distinct offsets address distinct kernel entries |
| Correlation.KernIndexOnto | server/models/correlation.py:63-64 | every kernel entry is addressed by some offset, so each is used exactly once per output cell |
| Correlation.CorrelateCyclic | server/models/correlation.py:51-68 | the first w*h entries of out are replaced and every later entry is kept |
| Correlation.CorrelateCyclicCell | server/models/correlation.py:51-68 | output i*w + j is the kernel-weighted sum over cell (i, j)'s wrapped window |
| Correlation.CorrelateCyclicAll | server/models/correlation.py:51-68 | for an out of w*h entries, any vector whose every cell holds its window sum is the correlation's output |
| Correlation.CorrelateUniCyclic | server/models/correlation.py:71-93 | the loop variant computes exactly the shared-kernel correlation and leaves the field and kernel unchanged |
| Correlation.UniWindow | server/models/correlation.py:86-92 | the two inner loops of the Uni variant add up the window sum of the python variant |
| Correlation.UniRow | server/models/correlation.py:87-91 | the innermost loop adds up one kernel row of the window sum |
| Correlation.UniTerm | server/models/correlation.py:89-91 | the Uni variant's indices (y+i+k)%y, (x+j+l)%x and (k-upper)*kx + (l-left) address the same entries as the python variant |
| Correlation.TermAtIs | server/models/correlation.py:62-65 | inside the window a summand is kern[KernIndex] times in[InIndex] |
| Correlation.WrapAhead | server/models/correlation.py:89 | adding a full period before wrapping does not move the wrapped position |
| Correlation.CorrelatePerCell | server/models/correlation.py:28-48 | the C-style variant keeps out's length and every entry from x*y on; SharedKernelAgrees relates its cells to the shared-kernel correlation |
| Correlation.SharedKernelAgrees | server/models/correlation.py:40 | when every per-cell kernel is the same kernel the C-style variant is the shared-kernel correlation |
| Correlation.KernelPrefixDetermines | server/models/correlation.py:51-68 | one shared kernel, no per-cell block: kernels that agree on the first kw*kh entries give the same output |
| Correlation.KernelPrefixCell | server/models/correlation.py:63-65 | each cell reads only the first kw*kh kernel entries |
| Correlation.FieldTotal | server/models/util.py:133-141 | the first m rows of a w-column field sum to the Sum of its first m*w entries |
| Correlation.UniformKernelCell | server/models/correlation.py:51-68 | a uniform kernel of weight c spanning the whole field gives every cell c times Sum of the field |
| Correlation.UniformKernelRows | server/models/util.py:252 | the kernel rows visited cyclically from row i cover every field row once |
| Correlation.UniformKernelColumns | server/models/util.py:253 | the kernel columns visited cyclically from column j cover every field column once |
| Correlation.TwoByTwoCell | server/models/correlation.py:77-80 | a 2x2 kernel's window is offsets 0 and 1 on both axes: four weighted entries |
| Correlation.ExampleCorrelation | server/models/__tests__/test_correlation.py:8-23 | the 3x3 field correlated with the 2x2 kernel gives [0.5868, 0.6071, 0.4946, 0.3056, 1.1268, 0.8435, 0.413, 0.476, 0.819] |
| Correlation.ExampleCell | server/models/__tests__/test_correlation.py:13-22 | each expected value of the example is its cell of the correlation |
| Correlation.ExampleValue | server/models/__tests__/test_correlation.py:13-22 | each expected value is the kernel-weighted sum of its wrapped 2x2 window |
| Correlation.ExampleWindow | server/models/__tests__/test_correlation.py:13-22 | cell (i, j) of the example sums four field entries weighted by the kernel |
| Util2d.UniCyclic2d | server/models/util.py:235-259 | the result has out's shape; its values are pinned down by OddKernelAsWrittenIsFixed and EvenKernelDoubleCounts |
| Util2d.UniCyclic2dFixed | server/models/util.py:235-259 | the result has out's shape; FixedIsFlat gives its values |
| Util2d.Cyclic2d | server/models/util.py:209-232 | the result has out's shape and keeps every entry outside the field's rows and columns |
| Util2d.SquareVariantsAgree | server/models/util.py:209-259 | on square inputs Correlate_2d_cyclic and Correlate_2d_Uni_cyclic give the same result |
| Util2d.FlattenAt | server/models/correlation.py:62 | entry (r, c) of a rows x cols matrix sits at r*cols + c of its flattening |
| Util2d.FlattenInjective | server/models/correlation.py:62 | matrices of one shape with equal flattenings are equal |
| Util2d.FixedIsFlat | server/models/util.py:235-259 | the 2D correlation with the C offsets, flattened, is CorrelateCyclic of the flattened field, kernel and output |
| Util2d.FixedEntryIsCell | server/models/util.py:254-257 | entry (i, j) of the corrected 2D correlation is the flat cell (i, j) |
| Util2d.WindowFixedIsCell | server/models/util.py:251-255 | with the C offsets a 2D window sum is the flat correlation's cell |
| Util2d.TermFixedIsFlat | server/models/util.py:254-255 | a 2D summand is the flat summand of the flattenings |
| Util2d.FloorLoOdd | server/models/util.py:244 | for odd sizes Python's -(k-1)//2 equals the C offset -((k-1)/2) |
| Util2d.OddKernelAsWrittenIsFixed | server/models/util.py:235-259 | for odd kernel sizes util.py's Correlate_2d_Uni_cyclic is the corrected one |
| Util2d.EvenKernelDoubleCounts | server/models/util.py:244 | field [[1]] with kernel [[1, 1]] gives 3 as written and 2 when corrected |
| Network.KShape | server/models/standardNet6Areas.py:191-200 | K is 0/1, symmetric, has an all-ones diagonal, and links exactly the areas at most one apart |
| Network.KEntry | server/models/standardNet6Areas.py:191-200 | entry (j, i) of K is 1 exactly for neighbouring or equal areas |
| Network.DisplayK | server/models/standardNet6Areas.py:420-434 | for any matrix k the keys are 1..NAREAS and each list is the strictly ascending list of the areas j+1 with k[NAREAS*j+i] set |
| Network.DisplayKValue | server/models/standardNet6Areas.py:420-434 | for the network's K display_K gives {1:[1,2], 2:[1,2,3], 3:[2,3,4], 4:[3,4,5], 5:[4,5,6], 6:[5,6]} |
| Network.AscendingUnique | server/models/standardNet6Areas.py:425-432 | two strictly ascending lists with the same members are equal, so display_K's lists are determined by their members |
| Network.ChainListsSenders | server/models/standardNet6Areas.py:420-434 | area a's list is the ascending list of its senders in K |
| Network.ChainMembers | server/models/standardNet6Areas.py:191-200 | area a receives from exactly the areas within one of a |
| Network.MainInit | server/models/standardNet6Areas.py:209-282 | every buffer has its stated length and is all zero |
| Network.ResetNet | server/models/standardNet6Areas.py:299-313 | the activity buffers and total_output become zero with their lengths kept; J, Jinh, the patterns, avg_patts, ca_patts and ca_ovlps are kept |
| Network.AllZeroIsZero | server/models/standardNet6Areas.py:299-313 | an all-zero vector is the zero vector of its length |
| Network.ResetNetFixpoints | server/models/standardNet6Areas.py:299-313 | resetNet is idempotent, changes nothing on a silent network, and main_init's network is already reset |
| Kernels.JoinLength | standardNet6Areas.c:521-531 | p patterns of length n, joined, take n*p entries |
| Kernels.JoinSlice | standardNet6Areas.c:521-531 | pattern q of the joined list is the slice [n*q, n*q + n) |
| Kernels.Marked | standardNet6Areas.c:522-527 | the pattern marked by a run of draws has n binary cells |
| Kernels.MarkedExactly | standardNet6Areas.c:522-527 | the ones of the marked pattern are exactly the positions r % n of the draws r in the run |
| Kernels.MarkFirst | standardNet6Areas.c:522-523 | the first loop leaves the pattern marked by the first nones draws, with at most nones ones |
| Kernels.MarkRest | standardNet6Areas.c:526-527 | the second loop stops at the first position after the first nones draws where the marked pattern holds nones ones; None when no such position exists in the draws |
| Kernels.OnePattern | standardNet6Areas.c:522-530 | a produced pattern is binary with exactly nones ones; it is the pattern marked by the draws it used, so every used draw r sets cell r % n and every one comes from a used draw; it used at least nones draws and stopped at the first point where the pattern was complete; None only when no prefix of the remaining draws completes a pattern |
| Kernels.GenerRandomBinPatterns | standardNet6Areas.c:510-532 | on success the first n*p entries are p binary patterns with exactly nones ones each and every later entry is kept; pattern q is the one marked by the draws from where pattern q-1 stopped to where its own loop stopped, and the draws used end where the last pattern stopped; None when nones > n or the draws run out |
| Kernels.PatternAt | standardNet6Areas.c:519-530 | pattern q of a successful run is the slice [n*q, n*q + n) and is binary with nones ones |
| Kernels.KernelSpan | standardNet6Areas.c:556-568 | nx*ny kernels are written, and kernel 0 even for an empty area |
| Kernels.GaussianKernel | standardNet6Areas.c:540-569 | J keeps its length and every entry past the written kernels |
| Kernels.GaussianCopies | standardNet6Areas.c:566-568 | entry t of the bank equals entry t % (mx*my) of kernel 0 |
| Kernels.GaussianEntry | standardNet6Areas.c:558-563 | entry (x, y) of every kernel is ampl*exp(-h(x, y)), the value `Kernels.GaussAt` and `Kernels.ProfileAt` give |
| Kernels.GaussianCenter | standardNet6Areas.c:558-563 | with exp(0) = 1 the centre of every kernel holds ampl |
| Kernels.GaussianMirror | standardNet6Areas.c:558-563 | for odd sizes mirroring about the centre keeps the value |
| Kernels.PatchyGaussKern | standardNet6Areas.c:580-603 | Failure exactly when prob is outside [0,1]; otherwise, for upper >= 0, every entry of the nx*ny*mx*my slice is NO_SYNAPSE or in [0, upper), and the rest of J is kept |
| Kernels.SynapseOrNone | standardNet6Areas.c:601-602 | a synapse appears only when the draw is at most p; for upper >= 0 the entry is NO_SYNAPSE or in [0, upper) |
| Kernels.Scaled | standardNet6Areas.c:602 | a draw in [0,1) scaled by a positive bound lies in [0, bound) |
| Kernels.PatchyEntry | standardNet6Areas.c:596-602 | entry (x, y) of kernel i is a synapse exactly when its draw is at most the Gaussian probability there |
| Kernels.PatchyCenterPresent | standardNet6Areas.c:596-602 | with probability 1 at the centre every kernel's central synapse exists |
| Kernels.ProjectionOf | standardNet6Areas.c:881-901 | recurrent kernels exactly for j == i with K's diagonal set, between-area kernels exactly for K[NAREAS*j+i] set otherwise |
| Kernels.KProjections | standardNet6Areas.c:216-224 | in K every area is recurrent and neighbouring areas are linked both ways |
| Kernels.ProjectionOffset | standardNet6Areas.c:889-896 | the NSQR1 entries of every projection's bank lie inside J |
| Kernels.RecurrentOffset | standardNet6Areas.c:1363-1366 | the recurrent address NSQR1*(NAREAS+1)*a is the bank of projection (a, a) |
| Kernels.KernelBankFits | standardNet6Areas.c:887-896 | a bank of N1 kernels of either excitatory size fits its NSQR1 slot |
| Kernels.ProjectionsDisjoint | standardNet6Areas.c:889-896 | different projections own disjoint slots of J |
| Learning.Depress | standardNet6Areas.c:656-657 | the result is never below JMIN, and is exactly w - hrate when that stays at or above JMIN |
| Learning.UpdateSynapse | standardNet6Areas.c:634-670 | NO_SYNAPSE is untouched; at most one total grows, by hrate; LTP adds hrate only to a weight below JMAX; LTD applies only above JMIN and is floored there |
| Learning.UpdateCharacterised | standardNet6Areas.c:641-670 | with a positive rate a weight rises iff it exists, is below JMAX and both cells are active, and falls iff the depression condition holds |
| Learning.LowPotentialNoChange | standardNet6Areas.c:641-670 | a postsynaptic potential at most LTP_THRESH changes neither the weight nor the totals |
| Learning.UpdateKeepsRange | standardNet6Areas.c:641-670 | with a non-negative rate a weight at or above JMIN stays there and the totals' increments are non-negative |
| Learning.CRem | standardNet6Areas.c:631 | a non-negative dividend gives a remainder in [0, n); any dividend gives one strictly between -n and n |
| Learning.PreIndexIsInIndex | standardNet6Areas.c:631 | m = ((i+k+ny)%ny)*nx + (j+l+nx)%nx (`Learning.PreIndex`) is the correlation's wrapped index and lies in [0, nx*ny) when the shifted coordinates are not negative |
| Learning.Span | standardNet6Areas.c:626-629 | the loops walk at least one tap per axis, and exactly n taps when n is odd |
| Learning.DecodeBounds | standardNet6Areas.c:622-629 | every pointer position decodes to a cell of the area and offsets inside the walked window |
| Learning.DecodePos | standardNet6Areas.c:622-629 | decoding the pointer value of a loop state gives that state back |
| Learning.PosDecode | standardNet6Areas.c:622-629 | every pointer position is the pointer value of the state it decodes to |
| Learning.VisitAt | standardNet6Areas.c:631-670 | at cell (i, j) and offsets (k, l) the pointer's update is the rule applied to pre[m] and post[ij] |
| Learning.Trained | standardNet6Areas.c:609-673 | the bank keeps its length, entries past the walk are kept, and NO_SYNAPSE entries stay NO_SYNAPSE |
| Learning.TrainedKeepsRange | standardNet6Areas.c:645-669 | with a non-negative rate every weight at or above JMIN stays there |
| Learning.TrainTotalsGrow | standardNet6Areas.c:646-668 | with a non-negative rate the LTP and LTD totals only grow |
| Learning.TrainProjectionCyclic | standardNet6Areas.c:609-673 | the method's bank is Trained and each total is its old value plus the sum of its per-entry increments |
| Learning.TrainAreaRow | standardNet6Areas.c:627-673 | the j loop leaves the pointer at the start of the next area row with every passed entry updated |
| Learning.TrainCell | standardNet6Areas.c:628-672 | the k and l loops of a cell leave the pointer at the next cell's start with every passed entry updated |
| Learning.TrainRow | standardNet6Areas.c:629-671 | the l loop leaves the pointer past the kernel row with every passed entry updated |
| Learning.RollingIsBlock | standardNet6Areas.c:622-673 | for odd kernel sizes the rolling pointer at (ij, k, l) is ij*mx*my + (k+ky2)*mx + (l+kx2) |
| Learning.BlockDecodeBounds | standardNet6Areas.c:626-629 | every bank entry belongs to one cell and one window offset |
| Learning.BlockPosDecode | standardNet6Areas.c:626-629 | the block entry of (i, j, k, l) lies in the bank and decodes back to them |
| Learning.BlockTrained | standardNet6Areas.c:609-673 | block-indexed training keeps the bank's length |
| Learning.BlockTrainedKeeps | standardNet6Areas.c:634 | entries past the bank are kept and NO_SYNAPSE entries stay NO_SYNAPSE |
| Learning.BlockTotalsGrow | standardNet6Areas.c:646-668 | with a non-negative rate block-indexed training adds non-negative LTP and LTD amounts |
| Learning.BlockTrainedEntry | standardNet6Areas.c:631-670 | the kernel entry weighting presynaptic cell InIndex(i, j, k, l) for cell ij is trained with exactly that cell's rate and ij's potential |
| Learning.BlockAgreesOnOdd | standardNet6Areas.c:609-673 | for odd kernel sizes the rolling pointer and block indexing leave the same bank |
| Learning.BlockTotalsAgreeOnOdd | standardNet6Areas.c:646-668 | for odd kernel sizes both trainings add the same LTP and LTD totals |
| Learning.EvenKernelOverrun | standardNet6Areas.c:626-629 | 2x2 kernels on a 2x2 area: the pointer walks 36 entries of a 16-entry bank and cell 1's first update lands in cell 2's kernel |
| Plasticity.TrainedBank | standardNet6Areas.c:1358-1375 | a bank after the learning stage has NSQR1 entries and keeps every NO_SYNAPSE of the old bank |
| Plasticity.LearningPass | standardNet6Areas.c:1351-1377 | with slrate <= 0 nothing changes; otherwise J keeps its length and there are NAREAS totals of each kind |
| Plasticity.PassBank | standardNet6Areas.c:1351-1377 | with learning on, bank s of the new J is the trained bank s |
| Plasticity.PassTrainsLinked | standardNet6Areas.c:1358-1375 | with learning on, a linked bank is what train_projection_cyclic leaves with area j+1's rates and area i+1's potentials (odd kernels); an unlinked bank is kept |
| Plasticity.TrainedBankIsSource | standardNet6Areas.c:1358-1375 | for odd kernels the trained bank of a linked projection equals the rolling-pointer training of it, and an unlinked bank is kept |
| Plasticity.PassTotals | standardNet6Areas.c:1355-1375 | each area's totals restart at zero and add the amounts of its incoming projections |
| Plasticity.PassKeepsAbsentSynapses | standardNet6Areas.c:634 | NO_SYNAPSE anywhere in J stays NO_SYNAPSE through the learning stage |
| Plasticity.PassOnK | standardNet6Areas.c:1360-1372 | with the network's K exactly the banks of areas more than one apart are left alone |
| Assemblies.Segment | standardNet6Areas.c:706-713 | segment s, the block N1*(NAREAS*i+area) the source points at, has N1 cells |
| Assemblies.Peak | standardNet6Areas.c:706 | Max_Elem of a segment: no cell of the segment exceeds it and some cell equals it |
| Assemblies.SegmentAt | standardNet6Areas.c:706-713 | cell u of segment s is entry N1*s + u of the whole vector |
| Assemblies.SegmentBinary | standardNet6Areas.c:706-713 | segments of a binary vector are binary |
| Assemblies.CASegment | standardNet6Areas.c:706-713 | in a segment whose peak reaches MIN_CELLRATE the new CA is binary and holds exactly the cells above threshold*peak |
| Assemblies.ComputeCAPatts | standardNet6Areas.c:697-717 | ca_patts keeps its length |
| Assemblies.CAPattsCells | standardNet6Areas.c:697-717 | every cell of the result is given by the cell-wise reference definition |
| Assemblies.CAPattsWeakUnchanged | standardNet6Areas.c:706-713 | a segment whose peak stays below MIN_CELLRATE keeps its old CA |
| Assemblies.CAPattsStrong | standardNet6Areas.c:706-713 | in a segment whose peak reaches MIN_CELLRATE a cell is 1 exactly when its average exceeds threshold*peak, and 0 otherwise |
| Assemblies.CAPattsBinary | standardNet6Areas.c:697-717 | compute_CApatts keeps ca_patts binary |
| Assemblies.CAPattsIdempotent | standardNet6Areas.c:697-717 | recomputing from the same averages changes nothing more |
| Assemblies.ComputeCAOverlaps | standardNet6Areas.c:749-760 | ca_ovlps has NAREAS*P*P entries |
| Assemblies.CAOverlapAt | standardNet6Areas.c:749-760 | entry P*(P*area + i) + j is the shared-cell count of patterns i and j in area, per NONES |
| Assemblies.CAOverlapsSymmetric | standardNet6Areas.c:749-760 | every area's overlap table is symmetric |
| Assemblies.CAOverlapsBounded | standardNet6Areas.c:749-760 | overlaps lie between 0 and either CA's size per NONES, and a CA's overlap with itself is its size per NONES |
| Assemblies.NoCAsNoOverlaps | standardNet6Areas.c:860-871 | the cleared CA buffer has the cleared overlap table |
| Assemblies.ActivityOverlapAt | standardNet6Areas.c:1413-1416 | entry area*P + i of ovlps sums the current rates over pattern i's CA, between 0 and the CA's size for rates in [0,1] |
| Assemblies.RecordAverages | standardNet6Areas.c:1383-1397 | while steps are left and a pattern is shown, one step is used up; otherwise nothing changes |
| Assemblies.AveragesOtherPatternsUntouched | standardNet6Areas.c:1383-1397 | the averages of every pattern other than the one shown are kept |
| Assemblies.AveragesShownPattern | standardNet6Areas.c:1388-1395 | each cell of the shown pattern's segments takes one leaky step toward its current rate |
| Assemblies.AveragesStayWithin | standardNet6Areas.c:1383-1397 | averages and rates in [lo, hi] keep the averages in [lo, hi] when the step does not exceed TAU_AVG_RATES |
| Assemblies.CAStage | standardNet6Areas.c:1383-1416 | every buffer keeps its size, the recompute switch is cleared, and with the switch off the CAs and their overlaps are kept |
| Assemblies.CAStageConsistent | standardNet6Areas.c:1383-1416 | the CAs stay binary, ca_ovlps stays in step with them, and ovlps are the activity overlaps with those CAs |
| Training.StartOf | standardNet6Areas.c:1063 | (int)(1234.56*equal_noise()) for a draw in [0,1) lies in [0, 1234] |
| Training.Candidate | standardNet6Areas.c:1064-1066 | the pattern index the picker tries in its e-th round lies in [0, P) |
| Training.DescendingChain | standardNet6Areas.c:1063-1066 | if no candidate were accepted the counts would strictly fall all around the cycle |
| Training.SomeBalanced | standardNet6Areas.c:1063-1066 | around the cycle not every count can exceed its successor's |
| Training.PickerTerminates | standardNet6Areas.c:1063-1066 | from any start some pattern is accepted within P rounds |
| Training.PickPattern | standardNet6Areas.c:1063-1066 | the pick is in 1..P and its count does not exceed the next pattern's, freq[p-1] <= freq[p % P] |
| Training.PickPatternLoop | standardNet6Areas.c:1063-1066 | the do-while loop stops within P rounds on the candidate PickPattern selects, after rejecting every earlier candidate |
| Training.Present | standardNet6Areas.c:1071 | exactly the shown pattern's count grows, by 1 |
| Training.PresentKeepsBalance | standardNet6Areas.c:1063-1071 | showing the picked pattern keeps every count at most one above its successor's |
| Training.BalancedSpread | standardNet6Areas.c:1063-1071 | with balanced counts no pattern is shown more than P-1 times more often than another |
| Training.SaveSchedule | standardNet6Areas.c:1091-1096 | the net is saved every 10 presentations up to 50, every 100 below SAVE_CYCLE and every SAVE_CYCLE after |
| Training.TrainingStep | standardNet6Areas.c:1038-1116 | the buffers keep their sizes and nothing changes when training is off |
| Training.PrepareStep | standardNet6Areas.c:1045-1050 | phase 0 moves to phase 1 showing noise (spatno P+1), asks for a save, records the step and keeps the counts |
| Training.PauseGuard | standardNet6Areas.c:1055-1057 | phase 1 leaves its pause exactly when PAUSE_TIME has passed and both monitored slow-inhibition levels are below their ceilings |
| Training.PauseStep | standardNet6Areas.c:1054-1075 | leaving a pause shows a balanced pattern in 1..P, counts exactly that one presentation, starts averaging for AVG_RATES_TIME steps and records the step |
| Training.InputStep | standardNet6Areas.c:1079-1106 | within INPUT_TIME nothing changes; then more than TOT_TRAINING presentations of pattern 1 leave phases 0-2, and otherwise a noise pause starts with learning on, the save decision, and CAs and overlaps recomputed |
| Training.TerminalStep | standardNet6Areas.c:1109-1114 | any other phase switches training off and ends the program |
| Training.TrainingKeepsInvariant | standardNet6Areas.c:1038-1116 | every controller step keeps the counts balanced and non-negative and the CAs binary with up-to-date overlaps |
| Training.InitialTrainerInvariant | standardNet6Areas.c:929-930 | the starting controller satisfies the invariant |
| Staging.StageInput | standardNet6Areas.c:1126-1204 | one staged input keeps its length NYAREAS*N1 and is all zero when spatno is 0; StagedCell gives every other cell |
| Staging.StageInputs | standardNet6Areas.c:1126-1204 | both inputs keep their length, are cleared when spatno is 0, and stay binary when the input and its patterns are binary |
| Staging.NoiseRow | standardNet6Areas.c:1138-1155 | a noise row has N1 binary cells |
| Staging.StagedRowAt | standardNet6Areas.c:1126-1204 | row j of the staged input is the staged row j |
| Staging.StagedCell | standardNet6Areas.c:1126-1204 | a cell is 0 without a pattern, the pattern's cell in a receiving row, a Bernoulli(noise) cell when noise is due, and unchanged otherwise |
| Staging.StageKeepsBinary | standardNet6Areas.c:1126-1204 | staging keeps the inputs binary when the patterns are binary |
| Staging.NoNoiseWhilePresenting | standardNet6Areas.c:1138-1141 | while training presents a stimulus, rows that do not receive it keep their input |
| Staging.Clamp | standardNet6Areas.c:1222-1244 | clampSMIn of an area has N1 entries; ClampValues gives their values |
| Staging.ClampValues | standardNet6Areas.c:1228-1244 | with binary inputs a clamped value is 0 or its column's amplitude; other areas get 0; the sensory input wins when both columns coincide |
| Staging.Rates | standardNet6Areas.c:1319-1333 | one rate per cell; RatesWithin and RatesMonotone state their range and order |
| Staging.RatesWithin | standardNet6Areas.c:1319-1333 | a transfer function bounded by [lo, hi] gives rates in [lo, hi] |
| Staging.RatesMonotone | standardNet6Areas.c:1319-1333 | with a non-decreasing transfer function more potential or less adaptation never lowers a rate |
| Staging.AreaOutput | standardNet6Areas.c:1327-1331 | the loop's total for one area is the Sum of that area's rates |
| Staging.TotalOutputAsWritten | standardNet6Areas.c:1319-1333 | total_output as computed is the output of the last area alone |
| Staging.TotalOutput | standardNet6Areas.c:179 | the network's output is the Sum of all rates |
| Staging.TotalOutputLastAreaOnly | standardNet6Areas.c:1327-1331 | one firing cell in area 1 with silence elsewhere gives 0 as written but 1 as declared |
| Staging.Adapt | standardNet6Areas.c:1338-1346 | one adaptation value per cell; AdaptWithin and AdaptFixpoint state its range and fixed point |
| Staging.AdaptWithin | standardNet6Areas.c:1338-1346 | with rates in [0,1] and a step no longer than TAUADAPT, adaptation in [0, ADAPTSTRENGTH] stays there |
| Staging.AdaptFixpoint | standardNet6Areas.c:1338-1346 | adaptation already at ADAPTSTRENGTH times the rate is kept |
| TextScan.ScanDecimal | gen_sim.c:110 | a successful scan takes the whole digit run: what is left does not start with a digit |
| TextScan.Strtol | gen_sim.c:110-119 | the value is in the long range, and a range error leaves it at one of the bounds |
| TextScan.Int32 | gen_sim.c:125 | the int conversion lands in [INT_MIN, INT_MAX], is congruent modulo 2^32, and is the identity on int values |
| TextScan.ScanInt | gen_sim.c:133-134 | %d succeeds exactly when a number follows, gives a value in the int range and leaves the same rest |
| TextScan.ScanTwoInts | gen_sim.c:133-134 | when two values are read both are in the int range and the first is what %d reads |
| TextScan.FormatNatValue | gen_sim.c:110 | reading back the digits of k gives k |
| TextScan.ScanFormatted | gen_sim.c:110 | decimal scanning inverts decimal formatting and leaves the rest of the text |
| TextScan.StrtolFormatted | gen_sim.c:110-119 | strtol reads back any formatted long without a range error |
| TextScan.ScanIntFormatted | gen_sim.c:133-134 | %d reads back any formatted int |
| TextScan.ScanTwoFormatted | gen_sim.c:133-134 | "%d %d" reads back two formatted ints separated by a blank |
| TextScan.NoDigitNoNumber | gen_sim.c:110 | a text without digits converts to nothing |
| GenSim.InitialFelix | gen_sim.c:85-86 | the controller starts stopped, with no init pending, no step budget, a valid timer and a non-negative budget |
| GenSim.HandleStepsAsWritten | gen_sim.c:106-126 | the result is in the int range, and non-negative whenever the strtol value does not exceed INT_MAX |
| GenSim.StepsAsWrittenGoNegative | gen_sim.c:106-126 | "n3000000000" makes the as-written handler return -1294967296 |
| GenSim.StepsAsWrittenWrapPositive | gen_sim.c:106-126 | "n5000000000" makes the as-written handler return 705032704 |
| GenSim.HandleSteps | gen_sim.c:106-126 | the count lies in [0, INT_MAX] and equals the as-written result whenever the strtol value lies in [0, INT_MAX] |
| GenSim.StepsRoundTrip | gen_sim.c:106-126 | "n" followed by a formatted count in [0, INT_MAX] requests exactly that count, as written and corrected; text without digits requests none |
| GenSim.HandleSetSwitch | gen_sim.c:129-144 | the array keeps its length, a changed switch becomes 0 or 1, and an unparsable request changes nothing |
| GenSim.SwitchCommand | gen_sim.c:133-139 | "B n v" built from two ints changes exactly switch n, and only when n is in range |
| GenSim.CommandArguments | gen_sim.c:133-134 | the arguments of a built command read back as the two ints |
| GenSim.HandleSetSlider | gen_sim.c:147-162 | the array keeps its length, at most one slider changes, and an unparsable request changes nothing |
| GenSim.SliderCommand | gen_sim.c:151-157 | "S n v" built from two ints stores v in exactly slider n, and only when n is in range |
| GenSim.HandleToggleOutput | gen_sim.c:165-183 | "O v" turns saving on iff v != 0; without a number nothing changes |
| GenSim.HandleSetTimer | gen_sim.c:186-216 | values outside [0, 600] or no value leave the timer; otherwise it is valid and secs + usecs/10^6 is the value truncated to microseconds |
| GenSim.HandleMessage | gen_sim.c:239-305 | '1', newline and return step once; 'b' stops; 'c' runs; 'i' and 'r' ask for init and reset the step counter, 'r' also runs; 'q' quits; unknown bytes change nothing; only B touches switches and only S sliders; the timer stays valid; every command but 'n' keeps a non-negative budget non-negative |
| GenSim.HandleMessageFixed | gen_sim.c:246-253 | with the corrected step handler 'n' stops the simulator and stores a budget in [0, INT_MAX], so a non-negative budget stays non-negative; every other command, and 'n' with a count in [0, INT_MAX], acts as handle_message |
| GenSim.Tick | gen_sim.c:825-844 | a pending init runs first and is cleared; else a positive budget steps and shrinks by exactly 1; else a running simulator steps; else it idles unchanged; the timer and a non-negative budget are kept |
| GenSim.NegativeBudgetIsNone | gen_sim.c:829-844 | a negative budget makes the timeout do what a budget of 0 does, and the budget stays as it was |
| GenSim.HugeStepRequest | gen_sim.c:250-253 | "n5000000000" to a stopped simulator sets a budget of 705032704 steps and the next timeout steps, while the corrected dispatcher leaves it idle |
| GenSim.BudgetRunsOut | gen_sim.c:825-844 | a stopped simulator with budget k does exactly k steps, ends with no budget and then idles |
| GenSim.RunRestarts | gen_sim.c:270-274 | after "r" the next timeout initialises the model with the step counter at 0 and the one after it steps |
| GenSim.StepCommandRuns | gen_sim.c:106-126 | for a stopped simulator, "n" with count k in [0, INT_MAX] and then k timeouts advance the simulation by exactly k steps, after which it idles |

## Left out

- Terminal and socket I/O of `gen_sim.c` is left out: the `select` loop, MPI, the timing code, and the display helpers `get_image`, `get_vector` and `get_value`. They move bytes, not state.
- The 'D' command (`handle_dump_sliders`) prints the sliders and changes no state, so it is modelled as a no-op.
- Quitting ('q') calls `exit`. It is modelled as a `quit` flag.
- The terminal training phase calls `exit(0)`. It is modelled as an `exited` flag.
- The GUI, the React apps, and the Flask, socket.io and threaded servers are left out. They are transport and rendering.
- Net save and load (standardNet6Areas.c:957-1033) and `write_CApatts` (723-744) are left out because they are file I/O. The training controller only records that a save is due.
- The automated-testing `fprintf` block (standardNet6Areas.c:1422-1596) is left out because it is output only.
- The window declarations (standardNet6Areas.c:267-497) are left out because they are display only.
- The membrane-potential pass of `step` (standardNet6Areas.c:1246-1316) is left out, apart from `clampSMIn`. It is a sum of correlations whose building blocks are modelled in `Correlation`.
- Dilution of the recurrent kernels (standardNet6Areas.c:908-927) is left out because it is random pruning with no stated property.
- `main_init`'s C kernel initialisation (standardNet6Areas.c:881-901) is modelled through `Kernels.ProjectionOf` and the kernel builders, not as one composed function.
- The RAMP and TLIN transfer functions are defined in a header that is not part of this model. The transfer function is a parameter of `Staging.Rates`.
- The `%f` conversion of the 'T' command is a parameter, because float parsing is outside the model.
- The SAVE_ON and SAVE_OFF values live in `output.h`, which is not part of this model. Saving is a boolean.
- The initial value of `stimer` is a parameter of `GenSim.InitialFelix`. Its initialisation is outside the modelled lines.
- `exp` is a parameter with `exp(0) = 1`. Numeric Gaussian values are not computed.
- Floating-point rounding is not modelled: reals stand in for C `float` and numpy floats.
- `currentStep` is an unbounded integer, so the C `long` step counter never wraps in the model.
- Kernels.OnePattern: `gener_random_bin_patterns` never returns when `nones > n`, and it keeps drawing until a pattern is complete. The model returns None in both cases instead of looping.
- Kernels.PatchyGaussKern: the source interleaves the Bernoulli draw and the value draw on one `random()` stream. The model takes one draw pair per entry. That gives the same distribution, but it does not reproduce a particular stream order.
- Staging.StageInputs: the noise draws are one draw per cell. The source draws only in the rows that receive noise, so the stream order differs.
- Staging.StageInputs: a negative `spatno` is excluded by the requires, because the C then indexes before the pattern matrix. The slider's declared range is 0..P+1 (standardNet6Areas.c:291); larger values are modelled as the C handles them.
- Util2d.UniCyclic2d: util.py raises IndexError when the field has fewer rows or columns than `out` (util.py:254-255). The requires `Covers` replaces that exception, and the same holds for `Util2d.UniCyclic2dFixed`.
- Util2d.Cyclic2d: util.py's `Correlate_2d_cyclic` raises IndexError on any non-square field, because it swaps the two axes. The model requires a square field and kernel instead of modelling the exception.
- Vectors.BBSkalar: the `n` argument of `bbSkalar`, `bSkalar`, `bSum` and `Sum` is ignored by numpy, so the model works on whole vectors. `bbSkalar` and `bSkalar` need equal lengths, as `np.dot` does.
- Vectors.MaxElem: `max()` raises on an empty vector. The model returns None instead.
- Correlation.UniformKernelCell: a kernel whose every entry is c gives each cell c times the field total. In terms of the kernel's sum that is sum(kernel) * sum(input) / (kx*ky), not sum(kernel) * sum(input).
- Plasticity.LearningPass: the learning stage trains banks with block indexing, which is the corrected `train_projection_cyclic` (Findings). `Plasticity.PassTrainsLinked` ties it to the rolling pointer for the simulator's odd kernel sizes.
- Training.TrainingStep: the slow-inhibition levels come from the membrane-potential pass, which is left out, so they are a parameter. The picker's uniform draw is passed in.

## Findings

| source | as written | input that shows it | evidently intended | confidence | as-written member | corrected member |
|---|---|---|---|---|---|---|
| standardNet6Areas.c:1327-1331 | `total_output = 0` sits inside the per-area loop, so the sum restarts for every area and ends as the last area's output | one firing cell in area 1 and silence elsewhere: total_output is 0 | the sum of the rates of all cells, as the declaration at line 179 describes | high, not executed | Staging.TotalOutputAsWritten, Staging.TotalOutputLastAreaOnly | Staging.TotalOutput |
| gen_sim.c:106-126 | the `long` from `strtol` is checked for range errors and for being negative, then returned as an `int` | "n3000000000" returns -1294967296, a negative step count; "n5000000000" returns 705032704 and the simulator runs that many steps | counts that do not fit an `int` are rejected like other range errors, so the result is never negative | high, not executed | GenSim.HandleStepsAsWritten, GenSim.StepsAsWrittenGoNegative, GenSim.HugeStepRequest | GenSim.HandleSteps, GenSim.HandleMessageFixed, GenSim.StepsRoundTrip |
| server/models/util.py:244 | `left = -(kx - 1) // 2` floors, so an even kernel width gives kx+1 column taps, and numpy reads the extra one as index -1 | field [[1]] with kernel [[1, 1]] gives 3 | the C offset -((kx-1)/2), giving exactly kx taps: the result 2 | medium, not executed | Util2d.UniCyclic2d, Util2d.EvenKernelDoubleCounts | Util2d.UniCyclic2dFixed, Util2d.FixedIsFlat |
| standardNet6Areas.c:626-629 | the loops run offsets -my/2..my/2 and -mx/2..mx/2, stepping the kernel pointer once per offset: (2*(my/2)+1)*(2*(mx/2)+1) entries per cell | 2x2 kernels on a 2x2 area walk 36 entries of a 16-entry bank | one kernel entry per offset of the correlation's window, mx*my per cell | medium, not executed | Learning.TrainProjectionCyclic, Learning.EvenKernelOverrun | Learning.BlockTrained, Learning.BlockTrainedEntry |
