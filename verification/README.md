# Mutter: layout, blur, colour, metas and stream negotiation

A Dafny model of six parts of Mutter's Clutter toolkit and of the Mutter Development Kit, with proofs of
what they promise:

- **Box layout** (`BoxDistribution`, `BoxSpreading`, `BoxGoalC`, `BoxGoalA` with `CheapestChoice`, `BoxAllocation`,
  `BoxLayout`): the greedy space distribution loop, the goals its comment states, the real allocation and the
  virtual allocation used for measuring.
- **Blur** (`Blur`): the Gaussian fragment shader as a loop over whatever it samples, the two passes at full or
  reduced size and the downscale factor.
- **3D LUT** (`Lut3d`): filling, addressing and tetrahedral interpolation of a colour lookup table.
- **Colour transforms** (`ToneMapping`, `TransformSnippets`): luminance matching, tone curves, the shader
  generator and the cache in front of it.
- **Meta groups** (`MetaLists` with `MetaRuns`, `MetaGroups`, `MetaScene`): priority-ordered lists of actor metas, as
  linked nodes edited in place and as a state machine over whole runs; `MetaScene` proves that the heap with all
  its lists follows the state machine.
- **Stream formats** (`StreamFormats`): the offered format and modifier pairs of a PipeWire stream.

`RealArithmetic`, `FiniteSums` and `Collections` hold what the models share. Floating point is modelled as `real`; C's truncating
conversions and divisions are written out. Loops and in-place updates of the source are methods over arrays,
class fields and linked nodes; each is proved equal to a specification function, and the properties are lemmas
about those functions.

## Conventions

- `Row(req)` lists the gaps of the children in the order of the sorted `spreading` array; the last is served first.
- `Mul`, `Quot`, `Glue` and other arithmetic are given names so that proofs can keep them folded (`hide`).
- Sizes that children request, the `exp`/`sqrt` values of the blur, the square root of the tone curve, the
  display's list of dmabuf formats, the colour transform of a LUT and the outcome of a buffer import are parameters.
- Where the comment on the distribution loop and the code disagree, the model follows the code. Goal a)
  (maximise the number of children at natural size) and goal c) (a short child got at least as much as a
  satisfied one) are false as worded. For each there are failing inputs, with integral and with fractional gaps,
  and three kinds of result. The condition that is exact covers every row the truncating sort can produce and every
  request of the children; it looks at the guards of the run (`LastCut`, `Served`). Conditions on the first child
  cut short alone (`FirstCut`) bound it from one or both sides for the same rows. Where no later gap is within
  reach of that cut, exactly sorted rows and so integral gaps among them, these are exact and in closed form.

## Model

| member | source | states |
|---|---|---|
| BoxDistribution.GrantsConserve | clutter/clutter/clutter-box-layout.c:596-613 | what the loop hands out plus what it returns is what it was given |
| BoxDistribution.GrantsBounded | clutter/clutter/clutter-box-layout.c:604-610 | no child gets less than nothing or more than its gap |
| BoxDistribution.RemainderAboveMinusOne | clutter/clutter/clutter-box-layout.c:604-615 | rounding up never overspends by a whole pixel |
| BoxDistribution.EnoughForAll | clutter/clutter/clutter-box-layout.c:522-613 | with at least the sum of the gaps every gap is filled, although the sort sees truncated gaps |
| BoxDistribution.GlueReaches | clutter/clutter/clutter-box-layout.c:604 | the `+ i` term makes the glue reach a gap that the truncating sort placed up to a pixel too early |
| BoxDistribution.LeftoverMeansSatisfied | clutter/clutter/clutter-box-layout.c:541-543 | space is returned only when every child reached its natural size |
| BoxDistribution.ShortChildGetsNoLessThanLater | clutter/clutter/clutter-box-layout.c:585-613 | a child cut short gets at least as much as every child served after it |
| BoxDistribution.EarlierGrantsWithinSlack | clutter/clutter/clutter-box-layout.c:585-613 | a child served before a short one got at most a harmonic number more |
| BoxDistribution.SlackAttained | clutter/clutter/clutter-box-layout.c:596-613 | with gaps out of reach, first and last child differ by exactly that harmonic number |
| BoxDistribution.TwoRuns | clutter/clutter/clutter-box-layout.c:580-613 | two runs compared child by child: more space never takes away and adds at most the drift, also when only one run stops early |
| BoxSpreading.SpreadingOrderSorts | clutter/clutter/clutter-box-layout.c:513-594 | the order used is a permutation of the children sorted by the comparator |
| BoxSpreading.SpreadingUnique | clutter/clutter/clutter-box-layout.c:513-594 | the comparator leaves no choice: every sorted permutation is the same, whatever algorithm sorts |
| BoxSpreading.SpreadIsGrants | clutter/clutter/clutter-box-layout.c:596-613 | updating the sizes in place through the index array is the loop on the row of gaps |
| BoxSpreading.DistributeConserves | clutter/clutter/clutter-box-layout.c:530-616 | sizes plus remainder are conserved; every child stays between its minimum and natural size; natural sizes are untouched |
| BoxSpreading.DistributeExact | clutter/clutter/clutter-box-layout.c:530-616 | enough space: all children at natural size and the exact remainder; otherwise a remainder in (-1, 0] |
| BoxSpreading.DistributeFair | clutter/clutter/clutter-box-layout.c:585-613 | a short child gets what any other gets up to 1 + 1/2 + ... + 1/(n-1), and no less than those served after it |
| BoxSpreading.FairnessSlackIsTight | clutter/clutter/clutter-box-layout.c:585-613 | for every number of children some request attains that bound |
| BoxSpreading.DistributeContinuous | clutter/clutter/clutter-box-layout.c:580-613 | goal b): d more pixels change every child by between 0 and max(d, (d + n - 1)/n), so one pixel by at most one |
| BoxSpreading.DistributeNaturalAllocation | clutter/clutter/clutter-box-layout.c:552-616 | the in-place loop, including the refusal of negative space, computes the distribution |
| BoxGoalC.GoalCExactly | clutter/clutter/clutter-box-layout.c:585-613 | for every row in truncated order, goal c) holds if and only if the last child cut short gets no less than the largest gap served in full before it |
| BoxGoalC.ChildrenFairExactly | clutter/clutter/clutter-box-layout.c:513-613 | the same for the children, whatever their requests |
| BoxGoalC.GoalCFromFirstCut | clutter/clutter/clutter-box-layout.c:585-613 | for the same rows, it is enough that the last share at the first cut reaches every gap served before it and every gap within its glue |
| BoxGoalC.GoalCNeedsFirstCut | clutter/clutter/clutter-box-layout.c:585-613 | on any row goal c) needs the child cut first to get no less than any gap served before it |
| BoxGoalC.ShortGetsLastShare | clutter/clutter/clutter-box-layout.c:596-613 | on any row a child left short gets at least max(0, e/m + 1 - H(m)) |
| BoxGoalC.GoalCOutOfReach | clutter/clutter/clutter-box-layout.c:585-613 | if no later gap is within the glue of the first cut, goal c) holds if and only if that share reaches the largest gap served in full |
| BoxGoalC.GoalCSorted | clutter/clutter/clutter-box-layout.c:585-613 | in particular for exactly sorted rows |
| BoxGoalC.AfterCut | clutter/clutter/clutter-box-layout.c:596-613 | after such a cut nobody is satisfied and the last share is max(0, e/m + 1 - H(m)) |
| BoxGoalC.IntegralRowSorted | clutter/clutter/clutter-box-layout.c:522-527 | integral gaps are exactly sorted, so the closed forms decide for pixel sizes |
| BoxGoalC.GoalCFails | clutter/clutter/clutter-box-layout.c:585-587 | gaps 3 and 3 with 5 pixels violate goal c) |
| BoxGoalC.GoalCFailsTruncated | clutter/clutter/clutter-box-layout.c:522-613 | gaps 3.9, 3.1 and 100 with 9 pixels violate goal c) after the first cut, where its closed form does not see it |
| BoxGoalC.GoalCFailsAfterLarger | clutter/clutter/clutter-box-layout.c:522-613 | the same gaps with 10.5 pixels violate goal c) because the larger gap of a truncation class was served first |
| BoxGoalC.ChildrenUnfair | clutter/clutter/clutter-box-layout.c:513-613 | children with these natural sizes and no minimum produce the three failing rows, and goal c) fails for them |
| BoxGoalA.GoalAExactly | clutter/clutter/clutter-box-layout.c:579-613 | goal a), measured against every choice of children the space can pay for, holds if and only if the space is less than the smallest gaps of one more child than the run serves in full |
| BoxGoalA.ChildrenMostExactly | clutter/clutter/clutter-box-layout.c:513-613 | the same for the children, whatever their requests |
| BoxGoalA.GoalAFromFirstCut | clutter/clutter/clutter-box-layout.c:579-613 | for every row in truncated order, the children served before the first cut give a sufficient condition and those plus the gaps within its reach a necessary one |
| BoxGoalA.GoalAFromTruncated | clutter/clutter/clutter-box-layout.c:522-613 | for the same rows, less space than the truncated gaps up to and including the first cut is enough |
| BoxGoalA.GoalASorted | clutter/clutter/clutter-box-layout.c:579-613 | on exactly sorted rows goal a) holds if and only if the first child cut short could not have been served in full with the space left |
| BoxGoalA.AffordableIsMost | clutter/clutter/clutter-box-layout.c:579 | on any row, no choice of children the space can pay for is larger than what serving the smallest gaps first affords, and goal a) holds if and only if the run serves that many |
| BoxGoalA.GoalAFails | clutter/clutter/clutter-box-layout.c:579 | gaps 4 and 100 with 5 pixels violate goal a) |
| BoxGoalA.GoalAFailsTruncated | clutter/clutter/clutter-box-layout.c:522-613 | gaps 3.9 and 3.1 with 3.5 pixels violate goal a) although the child cut first could not be served |
| BoxGoalA.ChildrenNotMost | clutter/clutter/clutter-box-layout.c:513-613 | children with these natural sizes and no minimum produce the two failing rows, and goal a) fails for them |
| CheapestChoice.SmallestIsCheapest | clutter/clutter/clutter-box-layout.c:579 | no choice of children costs less than as many of the smallest gaps |
| CheapestChoice.SmallestIsAttained | clutter/clutter/clutter-box-layout.c:579 | and some choice costs exactly that |
| BoxAllocation.CountExpandChildren | clutter/clutter/clutter-box-layout.c:484-510 | counts the visible children and the expanding ones among them |
| BoxAllocation.VisibleMeans | clutter/clutter/clutter-box-layout.c:500-509 | the children dealt with are the visible ones, all of them, as often as they occur and in order |
| BoxAllocation.BonusesExact | clutter/clutter/clutter-box-layout.c:739-743 | expanding children share the spare pixels exactly, odd pixels first |
| BoxAllocation.FlexibleTotal | clutter/clutter/clutter-box-layout.c:656-809 | bookkeeping of a whole run for any requests |
| BoxAllocation.AllocateConserves | clutter/clutter/clutter-box-layout.c:656-809 | integral requests that fit: sizes sum exactly to the available size with an expander, to the natural sizes without, and to less than a pixel over when space is short |
| BoxAllocation.CellsConserve | clutter/clutter/clutter-box-layout.c:720-731 | homogeneous cells differ by at most one pixel and fill the box if and only if its size is not negative or divides evenly |
| BoxAllocation.OddPixelsFirst | clutter/clutter/clutter-box-layout.c:722-798 | odd pixels go to earlier children, in a homogeneous box and among those that expand |
| BoxAllocation.VirtualNearReal | clutter/clutter/clutter-box-layout.c:303-390 | measuring gives every child a size within less than one pixel of the one allocation gives, homogeneous or not, for every size |
| BoxAllocation.VirtualTotal | clutter/clutter/clutter-box-layout.c:303-390 | what measuring hands out in total: the size it was asked about plus the odd pixels, or the natural sizes if nobody expands |
| BoxAllocation.PlacementInOrder | clutter/clutter/clutter-box-layout.c:762-840 | in a box that is not homogeneous a child starts no earlier than the end of the previous one plus the spacing less a pixel |
| BoxAllocation.CellPlacement | clutter/clutter/clutter-box-layout.c:720-840 | in a homogeneous box the distance between neighbours is exactly the spacing plus the free parts of their cells that face each other |
| BoxAllocation.CellsOverlap | clutter/clutter/clutter-box-layout.c:720-840 | two children of minimum size 10 in cells of 2 pixels overlap by 8 |
| BoxAllocation.FirstBox | clutter/clutter/clutter-box-layout.c:762-848 | left to right and top to bottom the first box begins at the near side cut to a whole pixel; right to left it ends as far from the right side |
| BoxAllocation.BoxesInOrder | clutter/clutter/clutter-box-layout.c:783-848 | left to right and top to bottom each box begins after the end of the previous one plus the spacing, less a pixel; right to left it ends before its beginning |
| BoxAllocation.BoxLength | clutter/clutter/clutter-box-layout.c:783-834 | how long each box is: the size given, at least a pixel for a child that expands, the minimum size in a homogeneous cell |
| BoxAllocation.ForwardBoxes | clutter/clutter/clutter-box-layout.c:762-848 | across the layout every box has the sides of the whole box |
| BoxAllocation.CellBoxes | clutter/clutter/clutter-box-layout.c:720-840 | homogeneous cells follow each other from the near side; a child expands from the start of its cell or sits in its middle |
| BoxAllocation.ExtentMeans | clutter/clutter/clutter-box-layout.c:656-660 | what is shared out plus the spacing is the length of the box to within a pixel |
| BoxAllocation.BoxesFill | clutter/clutter/clutter-box-layout.c:656-840 | integral requests that fit, with a child that expands: the boxes reach from the near side to the far side, to within a pixel |
| BoxAllocation.RightToLeftMirrors | clutter/clutter/clutter-box-layout.c:842-848 | right-to-left boxes are the mirror image of left-to-right ones, and mirroring undoes itself |
| BoxLayout.CollectRequests | clutter/clutter/clutter-box-layout.c:666-717 | collects the requests of the visible children and both sums of minimum sizes |
| BoxLayout.Allocate | clutter/clutter/clutter-box-layout.c:621-858 | the allocation loops give every visible child the specified box |
| BoxLayout.AllocateVirtually | clutter/clutter/clutter-box-layout.c:269-390 | the measuring loops give every visible child the specified virtual size |
| Blur.SampleBetween | clutter/clutter/clutter-blur.c:154-159 | filtering between two texels on the blur line is linear interpolation |
| Blur.NextCoefficient | clutter/clutter/clutter-blur.c:80-90 | the running coefficient of tap k is c r^(k^2) |
| Blur.AdvanceCoefficient | clutter/clutter/clutter-blur.c:88 | one incremental update moves both coefficients from tap k to tap k + 1 |
| Blur.FetchesWeighted | clutter/clutter/clutter-blur.c:92-104 | the two off-centre fetches equal the weighted sum of four texels |
| Blur.FetchPair | clutter/clutter/clutter-blur.c:92-106 | one iteration adds exactly two taps on each side to colour and total, whatever is sampled |
| Blur.GaussianBlur | clutter/clutter/clutter-blur.c:77-109 | whatever it samples, the shader computes the normalised weighted sum of what it reads for the taps from -n to n |
| Blur.LineIsConvolution | clutter/clutter/clutter-blur.c:77-109 | over texels one step apart that is the normalised weighted sum of all texels from -n to n |
| Blur.ConvolveWithinRange | clutter/clutter/clutter-blur.c:109 | the result stays within the range of the texels read, so constants are kept |
| Blur.ClampNearest | clutter/clutter/clutter-blur.c:157-159 | a coordinate outside is clamped to the nearest texel |
| Blur.ApplyBlurPass | clutter/clutter/clutter-blur.c:179-325 | a draw runs the shader for every pixel of a framebuffer of any size, one step being one pixel of it |
| Blur.SameSizeDraw | clutter/clutter/clutter-blur.c:179-325 | into a framebuffer of the same size a draw is the convolution of the texels |
| Blur.TexelAtWhole | clutter/clutter/clutter-blur.c:189-192 | a framebuffer of any size shows the whole texture evenly, edge on edge |
| Blur.TexelAtMiddle | clutter/clutter/clutter-blur.c:224-262 | with f texels to a pixel, pixel x is read at f x + (f - 1)/2 |
| Blur.DrawnProfile | clutter/clutter/clutter-blur.c:310-325 | drawn at any size, an image that does not change along the blur is interpolated across it where the framebuffer shows it, in both directions |
| Blur.ReducedDraw | clutter/clutter/clutter-blur.c:224-325 | with an even number of texels to a pixel that is the mean of the two in the middle |
| Blur.PassesAreConvolution | clutter/clutter/clutter-blur.c:371-400 | vertical then horizontal pass is one 2D convolution with the product kernel and clamped coordinates; the other order too |
| Blur.BlurTexture | clutter/clutter/clutter-blur.c:224-417 | the two draws, with the factor the loop chose: the vertical pass drawn into the reduced size and the exact horizontal convolution of it; a vanishing radius returns the source |
| Blur.BlurredFullSize | clutter/clutter/clutter-blur.c:346-417 | with factor 1 the result is the two-dimensional convolution of the source |
| Blur.BlurredReduced | clutter/clutter/clutter-blur.c:224-417 | with a larger factor an image of equal rows is reduced by the vertical pass and blurred by the horizontal one |
| Blur.EvenFactor | clutter/clutter/clutter-blur.c:282-308 | every factor above 1 is even and divides the sides it is a divisor of |
| Blur.ScaledSteps | clutter/clutter/clutter-blur.c:90-201 | the steps of a pass, in pixels of the source, reach three sigma and at most two steps further |
| Blur.BlurWithinRange | clutter/clutter/clutter-blur.c:224-417 | with any factor the result stays within the range of the source |
| Blur.ScaledSides | clutter/clutter/clutter-blur.c:224-262 | the framebuffers keep the size of the source with factor 1 and at least 128 pixels otherwise |
| Blur.Steps | clutter/clutter/clutter-blur.c:90 | the number of steps is even, at least two, and the least such that covers three sigma |
| Blur.CalculateDownscaleFactor | clutter/clutter/clutter-blur.c:282-308 | the loop ends with the least power of two at which the blur is narrow or a side small enough |
| Blur.DownscaleKeepsDetail | clutter/clutter/clutter-blur.c:224-308 | downscaling happens if and only if sigma and both sides exceed their limits; then sides keep 128 pixels and sigma stays above 3 |
| Lut3d.BranchIsBarycentric | clutter/clutter/clutter-color-state.c:300-358 | each of the six branches is a barycentric combination for a descending order of the axes |
| Lut3d.TetrahedralIsBarycentric | clutter/clutter/clutter-color-state.c:300-358 | ... and for every descending order, so branches agree where they meet |
| Lut3d.TetrahedralWithinRange | clutter/clutter/clutter-color-state.c:300-358 | the combination is convex |
| Lut3d.TetrahedralAffine | clutter/clutter/clutter-color-state.c:300-358 | corners on a plane are interpolated on that plane |
| Lut3d.SampleInCell | clutter/clutter/clutter-color-state.c:266-358 | in every closed cell that holds the colour the sample is the interpolation of that cell, including the clamped top |
| Lut3d.EveryColorInCell | clutter/clutter/clutter-color-state.c:266-292 | every colour of the unit cube lies in such a cell |
| Lut3d.CellsMeet | clutter/clutter/clutter-color-state.c:266-358 | so neighbouring cells agree on common faces, edges and corners, and the sample is continuous |
| Lut3d.TetrahedralMonotone | clutter/clutter/clutter-color-state.c:300-358 | larger corners give a larger value |
| Lut3d.NearestExact | clutter/clutter/clutter-color-state.c:283-291 | coordinate i/(n-1) selects texel i of n under nearest filtering with clamping |
| Lut3d.FetchExact | clutter/clutter/clutter-color-state.c:279-292 | the shader's coordinates for (i, j, k) select column i of row j + k size |
| Lut3d.SampleLutInput | clutter/clutter/clutter-color-state.c:504-528 | the triple loop stores lattice point (i, j, k) as sample i + (j + k size) size |
| Lut3d.TransformSamples | clutter/clutter/clutter-color-state.c:592-595 | every sample is replaced by its image, in place |
| Lut3d.BuildLut | clutter/clutter/clutter-color-state.c:572-656 | fill, transform and upload give a texture that tabulates the transform in every channel |
| Lut3d.SampleWithinRange | clutter/clutter/clutter-color-state.c:266-358 | for every colour of the unit cube the sample stays within the tabulated values |
| Lut3d.SampleAtLattice | clutter/clutter/clutter-color-state.c:266-358 | at lattice points the sample is the transform itself, whatever the transform |
| Lut3d.SampleAffine | clutter/clutter/clutter-color-state.c:266-358 | an affine transform is reproduced at every colour of the unit cube, including the clamped top cell |
| Lut3d.SampleNearTransform | clutter/clutter/clutter-color-state.c:266-358 | for a transform with slope at most L along every axis, the sample is within 1.5 L/(size - 1) of the transform at every colour of the unit cube |
| ToneMapping.WhiteToWhite | clutter/clutter/clutter-color-state-params.c:1136-1154 | in all four cases the factor takes reference white to reference white |
| ToneMapping.MappingsCompose | clutter/clutter/clutter-color-state-params.c:1136-1154 | factors compose and invert |
| ToneMapping.ToneMappingNeeded | clutter/clutter/clutter-color-state-params.c:559-570 | tones are mapped if and only if the source can show a luminance that the target cannot, never both ways, and never together with luminance matching |
| ToneMapping.SkippedMappingIsNearOne | clutter/clutter/clutter-color-state-params.c:559-587 | without tone mapping, the stage is skipped if and only if the scaled factor is within 0.1 of its denominator, so the skipped factor is within 0.1 over it of 1 |
| ToneMapping.ApplyLuminanceMapping | clutter/clutter/clutter-color-state-params.c:1862-1885 | multiplies every value in place, or none |
| ToneMapping.RefHasHeadroom | clutter/clutter/clutter-color-state-params.c:1643-1651 | the tone mapping reference is the brightest that leaves the target a headroom of 1.5 and is no brighter than its own |
| ToneMapping.ShaderCurveIncreasing | clutter/clutter/clutter-color-state-params.c:982-996 | the shader curve is strictly increasing, continuous at the reference and fixes both ends |
| ToneMapping.ShaderCurveOnto | clutter/clutter/clutter-color-state-params.c:982-996 | an explicit inverse reaches every target luminance |
| ToneMapping.CpuCurveIncreasing | clutter/clutter/clutter-color-state-params.c:1823-1837 | the same for the CPU curve |
| ToneMapping.CpuCurveOnto | clutter/clutter/clutter-color-state-params.c:1823-1837 | every target luminance is reached |
| ToneMapping.CurvesMeet | clutter/clutter/clutter-color-state-params.c:1823-1837 | the curves agree below the reference, meet only at 0, 1/16 and 1 of the highlight range, and which is above in between |
| TransformSnippets.HashInjective | clutter/clutter/clutter-color-state.c:90-121 | the hash separates keys |
| TransformSnippets.KeyProgram | clutter/clutter/clutter-color-state-params.c:589-613 | a key determines the program, whatever the colour states behind it |
| TransformSnippets.CreateTransformSnippet | clutter/clutter/clutter-color-state-params.c:1036-1134 | the generator, appending to its buffers, emits exactly the program of the key |
| TransformSnippets.ProgramMeans | clutter/clutter/clutter-color-state-params.c:1089-1134 | with any meaning of the shader functions, the program decodes, matches luminance, converts the colour space, maps tones and encodes, in this order and each only if needed; or looks up the table |
| TransformSnippets.CalledOnce | clutter/clutter/clutter-color-state-params.c:1089-1134 | nothing is called twice, and the three middle stages exactly if needed |
| TransformSnippets.MappingNeeded | clutter/clutter/clutter-color-state-params.c:2040-2066 | a mapping is needed if and only if the program does more than decode and encode with one transfer function; otherwise it is the identity where these undo each other |
| TransformSnippets.NoMappingToItself | clutter/clutter/clutter-color-state.c:810-829 | no state needs a mapping to itself, and a table is used between any other two |
| TransformSnippets.FragmentMeans | clutter/clutter/clutter-color-state.c:446-463 | the flag of the request decides whether alpha is divided out; for opaque colours either hook does the same |
| TransformSnippets.ExplicitLuminance | clutter/clutter/clutter-color-state-params.c:148-157 | luminances given with the states decide about tone mapping, not the defaults |
| TransformSnippets.DefaultsToned | clutter/clutter/clutter-color-state-params.c:161-202 | which default luminances need tone mapping towards which |
| TransformSnippets.ColorimetryMeans | clutter/clutter/clutter-color-state-params.c:466-502 | colorimetries are equal if and only if no coordinate of their primaries differs by 0.0001, by name or not |
| TransformSnippets.EotfEqualMeans | clutter/clutter/clutter-color-state-params.c:505-524 | transfer functions are equal by name or by exponents that differ by less than 0.0001 |
| TransformSnippets.WhiteInsideGamut | clutter/clutter/clutter-color-state-params.c:361-395 | in every named space red, green and blue run counterclockwise around the white point |
| TransformSnippets.ProgramsLink | clutter/clutter/clutter-color-state-params.c:1089-1134 | every generated program defines each function once and before it is called |
| TransformSnippets.ToneMapperAfterPq | clutter/clutter/clutter-color-state-params.c:1093-1104 | the tone mapper is linked in after the PQ functions |
| TransformSnippets.UpdateUniforms | clutter/clutter/clutter-color-state-params.c:1514-1768 | exactly the uniforms that the program declares are set, or none when the texture of a table cannot be created |
| TransformSnippets.ColorManager.GetTransformSnippet | clutter/clutter/clutter-color-state.c:470-502 | cached or not, the snippet is the one that would be generated, and the cache stays sound |
| TransformSnippets.ColorManager.Serve | clutter/clutter/clutter-color-state.c:470-502 | over any run of requests every answer is as if there were no cache |
| TransformSnippets.AddPipelineTransform | clutter/clutter/clutter-color-state.c:766-790 | a pipeline gets the snippet exactly when a mapping is needed, with every declared uniform set unless there is no table |
| TransformSnippets.EqualHashesShareProgram | clutter/clutter/clutter-color-state.c:90-121 | requests with equal hashes make the generator emit the same program and need the same uniforms |
| MetaLists.InsertPosition | clutter/clutter/clutter-actor-meta.c:491-497 | the first place whose priority is lower; everything before it is at least as high |
| MetaLists.InternalMeans | clutter/clutter/clutter-actor-meta.c:425-430 | internal priorities are those beyond half of the smallest and the largest `int` |
| MetaLists.KeepOrder | clutter/clutter/clutter-actor-meta.c:625-655 | what is kept is a subsequence of the list |
| MetaRuns.AddConsistent | clutter/clutter/clutter-actor-meta.c:469-511 | adding keeps lists, owners and order consistent |
| MetaRuns.StepConsistent | clutter/clutter/clutter-actor-meta.c:388-655 | so does every operation, refused or not |
| MetaRuns.RunConsistent | clutter/clutter/clutter-actor-meta.c:388-655 | and every run of operations over any number of actors |
| MetaRuns.FreshRunConsistent | clutter/clutter/clutter-actor-meta.c:388-655 | in particular from the start |
| MetaRuns.ClearNoInternalKeepsInternals | clutter/clutter/clutter-actor-meta.c:625-655 | exactly the internal metas stay, in order, and the others lose their actor |
| MetaRuns.ConsistentMeans | clutter/clutter/clutter-actor-meta.c:469-544 | a meta is in at most one list, once, with the matching owner, and priorities and time of addition determine the order of a list |
| MetaGroups.ActorMeta.SetPriority | clutter/clutter/clutter-actor-meta.c:388-407 | the priority changes only while unattached |
| MetaGroups.ReverseList | clutter/clutter/clutter-actor-meta.c:655 | swapping the links of every node reverses a well-formed list |
| MetaGroups.MetaGroup.AddMeta | clutter/clutter/clutter-actor-meta.c:469-511 | on linked nodes: inserts before the first lower priority, or refuses an attached meta |
| MetaGroups.MetaGroup.SpliceIn | clutter/clutter/clutter-actor-meta.c:499-506 | the relinking of an insertion keeps a well-formed doubly linked list |
| MetaGroups.MetaGroup.RemoveMeta | clutter/clutter/clutter-actor-meta.c:520-544 | removes the meta from the list and detaches it, or refuses one of another actor |
| MetaGroups.MetaGroup.ClearMetas | clutter/clutter/clutter-actor-meta.c:609-616 | empties the list and detaches every meta |
| MetaGroups.MetaGroup.SplitInternals | clutter/clutter/clutter-actor-meta.c:625-653 | the loop moves internal nodes to a second list in reverse and detaches the other metas |
| MetaGroups.MetaGroup.ClearMetasNoInternal | clutter/clutter/clutter-actor-meta.c:625-655 | despite relinking in reverse, the internal metas stay in order and keep their actor |
| MetaGroups.MetaGroup.GetMetasNoInternal | clutter/clutter/clutter-actor-meta.c:566-579 | returns the non-internal metas in order |
| MetaScene.Scene.constructor | clutter/clutter/clutter-actor-meta.c:388-544 | with nothing attached, the heap is in the initial state of the state machine |
| MetaScene.Scene.Add | clutter/clutter/clutter-actor-meta.c:469-511 | adding on the heap, with every other list left alone, is the addition of the state machine |
| MetaScene.Scene.Remove | clutter/clutter/clutter-actor-meta.c:520-544 | so is removing |
| MetaScene.Scene.SetPriority | clutter/clutter/clutter-actor-meta.c:388-407 | so is setting a priority |
| MetaScene.Scene.Clear | clutter/clutter/clutter-actor-meta.c:609-616 | so is clearing |
| MetaScene.Scene.ClearNoInternal | clutter/clutter/clutter-actor-meta.c:625-655 | so is clearing without internals |
| MetaScene.Scene.PerformAll | clutter/clutter/clutter-actor-meta.c:388-655 | any run on the heap is the run of the state machine |
| MetaScene.Scene.HeapMeans | clutter/clutter/clutter-actor-meta.c:469-655 | after any run every linked list is well formed, sorted by descending priority and by time of addition among equals, and holds exactly the metas that point back at its actor |
| StreamFormats.SweepRemovesAll | mdk/mdk-stream.c:311-317 | the swap-remove sweep drops every occurrence and keeps the multiplicity of every other modifier |
| StreamFormats.RemovePairOffers | mdk/mdk-stream.c:297-319 | removing a pair takes exactly it off the offer, and shrinks the total if it was offered |
| StreamFormats.BuildStreamFormatParams | mdk/mdk-stream.c:205-278 | the parameters offer exactly the pairs of the formats; each format first with its modifiers, the first as default, and then without |
| StreamFormats.StepOffers | mdk/mdk-stream.c:597-630 | one event costs a pair exactly when it is an import failure on an offered one |
| StreamFormats.FailuresBounded | mdk/mdk-stream.c:597-630 | over any run, failures on offered pairs plus pairs left equal the pairs at the start |
| StreamFormats.FailedPairStaysOff | mdk/mdk-stream.c:597-630 | a pair that failed is not offered again in the run |
| StreamFormats.FailureTakesLast | mdk/mdk-stream.c:391-630 | over any run, a failure takes the pair negotiated last off the offer, and no other event changes it |
| StreamFormats.NegotiatedPairFails | mdk/mdk-stream.c:391-630 | negotiating a supported pair, importing any number of buffers and failing once removes exactly that pair |
| StreamFormats.FormatsAgree | mdk/mdk-stream.c:111-136 | both names of a supported format describe the same bytes |
| StreamFormats.Stream.QueryFormatsAndModifiers | mdk/mdk-stream.c:330-365 | the offer is exactly what the display lists for the supported formats |
| StreamFormats.Stream.RemoveModifierFromFormat | mdk/mdk-stream.c:297-319 | the loop with its rewound index terminates and removes the pair |
| StreamFormats.Stream.OnDmaBuffer | mdk/mdk-stream.c:562-630 | a buffer does to the stream what the event machine says; exactly a failure removes the current pair and asks for renegotiation |
| StreamFormats.Stream.OnParamChanged | mdk/mdk-stream.c:391-415 | a negotiated raw video pair becomes current; any other parameter changes nothing |

## Left out

- Floating-point rounding, NaN, overflow and the `isnormal` checks; sizes and luminances are reals.
- The values of `exp` and `sqrt` in the blur coefficients and of `powf` in the tone curve; only the laws used are assumed as parameters.
- Lut3d.BuildLut: does not model the encoding of samples as half floats or bytes, nor the unused fourth component, because rounding is left out.
- ToneMapping.ShaderCurveIncreasing: assumes a source maximum above the source reference; at equality the curve divides zero by zero.
- ToneMapping.ShaderCurveOnto: the same assumption.
- ToneMapping.CpuCurveIncreasing: the same assumption.
- ToneMapping.CpuCurveOnto: the same assumption.
- ToneMapping.CurvesMeet: the same assumption.
- BoxAllocation.PlacementInOrder: does not cover homogeneous boxes, where a child larger than its cell can overlap its neighbours by more than a pixel (CellsOverlap); CellPlacement gives the exact distance.
- BoxGoalC.GoalCOutOfReach: closed form for rows with nothing within the glue of the first cut; GoalCExactly covers the others.
- BoxGoalC.GoalCSorted: closed form for exactly sorted rows; GoalCExactly covers the others.
- BoxGoalA.GoalASorted: closed form for exactly sorted rows; GoalAExactly covers the others.
- The PQ, sRGB, BT.709 and gamma transfer functions, the matrices to and from XYZ, LMS and ICtCp, and ICC transforms.
- TransformSnippets.UpdateUniforms: states which uniforms are set, not their values; whether the texture of a table can be created is a parameter, and the unreachable branch for other pixel formats is not modelled.
- `clutter_box_layout_get_preferred_size` in the orientation of the box and the final query of each child for its opposite size: sums and maxima only.
- Reference counts, signals, destroyed actors and subclasses that override `set_actor`.
- Groups are created with the scene in `MetaScene`, not on the first addition to an actor.
- MetaRuns.RunConsistent: assumes that actions, constraints and effects go to their own group of an actor, as the actor's functions ensure.
- Look-up of metas by name, memory-mapped buffers, cursor metadata, frame queueing and the rest of the development kit.
