# Verified models of RiduxOS components

RiduxOS carries a software renderer, an application toolkit, a hardware presenter, a preload
library that replaces pthread thread-specific data, a small C library, a shell and a package
prefetcher.  This project models the algorithms in them that are more than plumbing, in Dafny, and
proves what they are for.  `dafny verify dfyconfig.toml` checks everything.

| files | component | main results |
|---|---|---|
| `TsdTable`, `TsdHistory`, `TsdProtocol` | thread-specific data (`tools/stackchk_trace.c`) | under every interleaving of single memory accesses, critical sections are serialised and every get returns its caller's last set, while at most 160 threads have used the table; beyond that, exactly the 2nd to 160th users keep this; the lock is given back under every interleaving; every legal history is that of a run |
| `Glob`, `GlobExactness` | pattern matcher (`src/compat5.c`) | an exact account of what a matcher with one saved backtrack point accepts, and for which patterns that is the whole language |
| `Base64` | base64 (`src/compat5.c`) | exact success conditions of both directions, and the round trip |
| `Blur`, `BlurRect` | box blur (`src/flush.c`) | the sliding window equals the naive blur; exact rounding; what repeated passes do to one colour |
| `Present` | presenter (`src/flush.c`) | the dirty-span presenter shows what whole-frame copies would, over every run |
| `Line` | line walk (`src/flush.c`) | every position is the rounded ideal line, with the rounding rule at ties |
| `Scissor`, `Canvas`, `Coverage`, `FlushBlend`, `RoundRect` | filling (`src/flush.c`) | scissor, row fill, coverage, blends, and a rounded rectangle that blends each pixel once with its per-pixel opacity |
| `Isqrt` | square root and radial gradient (`src/flush.c`) | exact integer root, gradient parameter within a byte |
| `UiPaint` | toolkit (`tools/ridux_ui.h`) | two rounded-rectangle rasterisers paint the same picture, and exactly when |
| `Ledger`, `FrameOutput` | scanout buffers (`tools/ridux_native_ui.c`) | every branch of a present keeps a legal ledger of buffers and framebuffer ids; exactly when the display shows the front buffer |
| `ImageCache` | image textures (`tools/ridux_native_ui.c`) | early-exit scan equals full scan; queued textures stay live; one upload per frame |
| `Pipeline` | pipelines (`tools/ridux_sh.c`) | exact descriptor tables of all stages, and exactly when they are right |
| `Closure` | package closure (`tools/prefetch_ridux_pkgs.py`) | the reachable names, no more and no less |

`Machine` and `Pixels` hold the shared integer types, facts about products, pixel channels and the
span clipping that two routines share.

Conventions.  Code that updates state is a class or a method with loops, proved against functions
on values; protocol steps are a state machine.  Row-major C buffers are two-dimensional arrays.
Pixels are integers below 2^32: shifts and masks are written with `/` and `%`, wrapping arithmetic
with `% 2^32`, and conversions of signed values to unsigned ones with `Unsigned`.  C strings are
the characters before the terminator.  Where C leaves signed overflow undefined (the sum of a
position and an extent), the sum is required to be an `int`.

Findings, each proved with its exact condition:

- One saved backtrack point is enough for a pattern without a star, or ending in one (or in a lone
  backslash, which matches nothing).  For every other pattern some text of its language is refused:
  a text is accepted exactly when it is in the language and no proper prefix of it is.
- The slot search of the thread-specific data table hands slot 0 to every thread that comes after
  160 others.  Up to 160 users all gets are right, and with 161 some are not; a thread's gets stay
  right in whatever follows exactly if it is one of the 2nd to 160th users.
- Clipping compares a signed right edge as an unsigned number.  A span that ends left of column 0 is
  therefore widened to the whole screen; the clipped span is right exactly when it does not.  For
  both rounded rectangles it is shown exactly when their pieces touch each visible pixel once.
- The blur's reciprocal always rounds down, so each pass darkens a region of one colour by exactly
  one level per direction until it is black.
- A ninth nested scissor rectangle is dropped, and the pops that follow close one too many: clipping
  is right for all rectangles exactly if they nested at most eight deep since none was open.
- A pipeline is wired as meant exactly when no pipe end got descriptor 0 or 1.
- A page flip that is accepted but whose event never comes leaves the display told to show a buffer
  that has been released.  Over every run, the display shows the front buffer exactly unless such
  an event was lost and the display has accepted nothing since.

## Model

| member | source | states |
|---|---|---|
| TsdTable.ChooseFinds | tools/stackchk_trace.c:118-129 | the slot search finds the thread's own slot, else the first free one, else reports a full table without the thread |
| TsdTable.Table.constructor | tools/stackchk_trace.c:99-102 | the table starts empty |
| TsdTable.Table.SlotLocked | tools/stackchk_trace.c:118-129 | the loop returns the slot the search function names and registers the thread there |
| TsdTable.Table.KeyCreate | tools/stackchk_trace.c:132-142 | result and counter are those of the critical section, with 11 when the keys are used up and wrap-around of the counter |
| TsdTable.Table.KeyDelete | tools/stackchk_trace.c:145-153 | clears the key in all 160 rows and nothing else; 22 for a key out of range |
| TsdTable.Table.GetSpecific | tools/stackchk_trace.c:156-165 | value and registration of the critical section; null for a key out of range |
| TsdTable.Table.SetSpecific | tools/stackchk_trace.c:168-176 | new table of the critical section; 22 for a key out of range |
| TsdHistory.StepAgrees | tools/stackchk_trace.c:118-176 | one critical section of any thread keeps every slot, but for slot 0 once it is shared, in agreement with the history of sets and deletes |
| TsdHistory.GetsReturnLastSet | tools/stackchk_trace.c:156-176 | in a serial history a get returns its caller's last set since the key was last deleted, else null, if at most 160 threads have used the table or the caller was one of the 2nd to 160th of any number |
| TsdHistory.RegisteredUsers | tools/stackchk_trace.c:118-129 | with no bound on the threads, the id array holds the first 160 users in order of first use, and zeros after them |
| TsdHistory.SharesSlotExactly | tools/stackchk_trace.c:118-129 | a thread is sent to the shared slot if and only if 160 others used the table before it did |
| TsdHistory.PrivateExactly | tools/stackchk_trace.c:118-176 | in every legal continuation of a history all further gets of a thread are right if and only if it was one of the 2nd to 160th users |
| TsdHistory.CreatedKey | tools/stackchk_trace.c:132-142 | the n-th create returns key n modulo 2^32 if below 1024, else 11 |
| TsdHistory.KeysDistinctExactly | tools/stackchk_trace.c:132-142 | created keys are pairwise distinct if and only if there were at most 2^32 creates |
| TsdProtocol.HolderAdvances | tools/stackchk_trace.c:118-176 | each access of the lock holder moves the memory from the last released state towards the result of its routine, and closer to the release |
| TsdProtocol.StepInv | tools/stackchk_trace.c:104-176 | every step of every thread keeps mutual exclusion, the meaning of the memory, and a legal serial history |
| TsdProtocol.RunInv | tools/stackchk_trace.c:104-176 | the invariant holds in every state of every run |
| TsdProtocol.LockHolderUnique | tools/stackchk_trace.c:104-112 | at most one thread is between lock and unlock, and then the lock is set |
| TsdProtocol.GetsSeeOwnValues | tools/stackchk_trace.c:156-176 | refinement over runs: every completed get returns its caller's last set, for at most 160 users, and for the 2nd to 160th of any number |
| TsdProtocol.SlotsStayPrivate | tools/stackchk_trace.c:156-176 | a thread about to access the values array owns the slot it uses if and only if it is one of the first 160 users |
| TsdProtocol.KeysDistinctInRuns | tools/stackchk_trace.c:132-142 | the distinctness of keys, over runs |
| TsdProtocol.LockIsGivenBack | tools/stackchk_trace.c:104-176 | under every interleaving the lock holder has released the lock and completed its routine by the time it has moved as often as the routine still needs, at most 164 times |
| TsdProtocol.EveryHistoryHappens | tools/stackchk_trace.c:104-176 | every legal history that goes on from a run with no thread inside a routine is the log of a continuation of the run |
| TsdProtocol.StaysRightExactly | tools/stackchk_trace.c:104-176 | in every reachable state: all further gets of a thread are right in every continuation if and only if it is one of the 2nd to 160th users, or the lock holder about to become one |
| TsdProtocol.SharedSlotLeaks | tools/stackchk_trace.c:118-165 | the bound is sharp: for every thread there is a run with exactly 161 users in which one of its gets is wrong |
| Glob.Fnmatch | src/compat5.c:24-43 | terminates, and returns 0 exactly when the greedy reading of the pattern accepts the text |
| Glob.SkipStars | src/compat5.c:30-30 | a run of stars means the same as its last one |
| Glob.FoldsLetters | src/compat5.c:40-40 | case folding sends the 26 capitals to their small letters and changes nothing else |
| GlobExactness.Sound | src/compat5.c:24-43 | what is accepted is in the pattern's language |
| GlobExactness.AnchoredIsShortest | src/compat5.c:24-43 | with a star before an ordinary last token, accepted if and only if in the language with no proper prefix in it |
| GlobExactness.StarEndedIsExact | src/compat5.c:30-43 | with a star at the end, accepted if and only if in the language |
| GlobExactness.StarlessMatches | src/compat5.c:27-43 | without a star, accepted if and only if in the language |
| GlobExactness.WhenOnePointSuffices | src/compat5.c:24-43 | the matcher agrees with the language on all texts if and only if the pattern has no star, ends in one, or has a dangling backslash |
| GlobExactness.MissedMatch | src/compat5.c:28-43 | the pattern `*a` refuses `aa` |
| GlobExactness.EscapedText | src/compat5.c:39-41 | a text with a backslash before every character is accepted as that text only |
| GlobExactness.PlainText | src/compat5.c:40-41 | a text without special characters is accepted as that text only |
| GlobExactness.Wildcards | src/compat5.c:29-30 | question marks accept the texts of their number, a star every text |
| Base64.Encode | src/compat5.c:48-58 | fails exactly when the buffer is not larger than the text of section 4 of RFC 4648; else writes that text and a terminator |
| Base64.DigitsAreAlphabet | src/compat5.c:46-46 | the digits are the characters of the alphabet in its order |
| Base64.SextetsAreBits | src/compat5.c:48-58 | every three bytes and their four sextets are the same 24 bits; one or two last bytes are filled up with zeros |
| Base64.TakeDigit | src/compat5.c:62-69 | one digit in each decoder state: fails exactly when the buffer is too small for the digits so far |
| Base64.Decode | src/compat5.c:59-71 | fails exactly for a stray character, a bad length before the end or the pad, or a buffer that cannot hold the bits; else writes the bytes of the digits |
| Base64.DecodeOfEncode | src/compat5.c:48-71 | for any white space put into an encoded text, decoding succeeds exactly for buffers of at least the original length and gives the original bytes |
| Base64.RoundTrip | src/compat5.c:72-73 | encode then decode through buffers returns the bytes and their number |
| Blur.ScaleExactly | src/flush.c:1013-1014 | multiplying by the reciprocal gives the quotient or one less, by an exact rule, without 32-bit wrap |
| Blur.WindowIsSlice | src/flush.c:1047-1073 | the window of pixel i sums the pixels from i - r to i + r, those beyond an end being copies of that end |
| Blur.WindowSlides | src/flush.c:1058-1073 | one wrapping update turns the clamped window sum at a pixel into that at the next |
| Blur.PrimeWindow | src/flush.c:1047-1057 | the priming loop computes the clamped window sums of the first pixel |
| Blur.BlurLine | src/flush.c:1044-1114 | a row or column becomes its naive clamped-window blur, and nothing else changes |
| BlurRect.HorizontalPass | src/flush.c:1044-1078 | every row of the rectangle is blurred on its own |
| BlurRect.VerticalPass | src/flush.c:1079-1116 | every column of the rectangle is blurred on its own |
| BlurRect.BlurRectangle | src/flush.c:1042-1118 | on the BGRA layout the clipped rectangle becomes the given number of naive passes of itself, the radius capped at 12; all other pixels stay |
| BlurRect.RowPixelIsMean | src/flush.c:1058-1063 | a blurred row pixel's channel is the floor of the mean of the 2r + 1 pixels around it, ends repeated, or one less |
| BlurRect.ColumnPixelIsMean | src/flush.c:1094-1099 | the same for columns |
| BlurRect.RoundPixelIsMean | src/flush.c:1043-1118 | a round blurs the rows first and then the columns of what that gives |
| BlurRect.ConstantRegionDarkens | src/flush.c:1043-1118 | after p passes a region of one level v has level max(0, v - 2p) everywhere |
| Clip.SpanExactly | src/flush.c:1007-1010 | the clipped span is the visible part if and only if it does not end left of position 0 or the screen is empty |
| Present.Presenter.InvalidateSnapshot | src/flush.c:301-303 | the snapshot is given up, screen and drawing stay |
| Present.Presenter.DirtyPairs | src/flush.c:391-404 | outside the first and last differing pair the row equals its snapshot, odd widths included |
| Present.Presenter.CopySpan | src/flush.c:406-416 | exactly the span is copied to framebuffer and snapshot |
| Present.Presenter.PresentNow | src/flush.c:375-418 | with the GPU path declining, a completed present puts the drawing on the screen and makes the snapshot equal to it; nothing outside the visible part changes |
| Present.Presenter.Run | src/flush.c:375-418 | any run of writes, invalidations and presents shows what whole-frame copies would show; after a completed present screen and drawing agree |
| Present.ScreenHolds | src/flush.c:375-418 | between completed presents the screen does not change |
| Present.DrawingHoldsWrites | src/flush.c:273-285 | every pixel of the drawing has the colour last written to it |
| Line.Turn | src/flush.c:834-836 | one turn keeps the error term in its half-open band and always advances the major axis |
| Line.Walk | src/flush.c:804-838 | from one endpoint to the other in max(|dx|,|dy|) steps, every position being the ideal line rounded to nearest, halves towards the start |
| Line.OnLineUnique | src/flush.c:804-838 | that leaves exactly one position for every step |
| Line.OnlyEndpointAtEnd | src/flush.c:833-833 | the walk is at the far endpoint after the last step and only the walk's end meets it |
| Line.ReversedLine | src/flush.c:804-838 | walking back visits the same position if and only if the ideal line is not half way between two there |
| Scissor.PassesIffInEveryOpen | src/flush.c:238-260 | for every sequence of pushes and pops at most eight deep since nothing was open, a pixel passes if and only if it lies in every open rectangle |
| Scissor.ScissorExactly | src/flush.c:243-260 | a sequence of pushes and pops clips to the open rectangles, whatever they are, if and only if it has nested at most eight deep since nothing was open: a dropped push makes every later pop close one rectangle too many |
| Scissor.NeverHidesOpen | src/flush.c:238-260 | at any depth, a pixel that lies in every open rectangle passes |
| Canvas.Canvas.PushScissor | src/flush.c:243-257 | the stack array becomes the pushed stack |
| Canvas.Canvas.PopScissor | src/flush.c:258-260 | the stack array becomes the popped stack |
| Canvas.Canvas.BlendPixel | src/flush.c:273-291 | exactly the named pixel is changed, if on screen and inside the scissor, and it gets the blend of its channels with those of the colour |
| Canvas.Canvas.TouchedExactly | src/flush.c:432-442 | on a row that shows, the columns touched are the visible ones if and only if the clipped right edge is not negative or the left edge is off screen |
| Canvas.Canvas.FillRow | src/flush.c:428-459 | the row fill changes the backbuffer as per-pixel clipped blending does, whenever the right edge reaches column 0; exactly how in all cases, and each changed pixel by the blend of its channels |
| Canvas.Canvas.RectExactly | src/flush.c:428-465 | a rectangle is drawn over its visible pixels, and over no others if and only if it is empty, out of sight, or does not end left of column 0 |
| Canvas.Canvas.DrawRect | src/flush.c:461-465 | exactly the pixels that the row clipping leaves are blended once |
| Canvas.Canvas.RunScissor | src/flush.c:243-260 | after any pushes and pops the stack array holds the entries of the run |
| Canvas.Canvas.FillRowAfter | src/flush.c:238-459 | after pushes and pops at most eight deep, a row fill blends exactly the on-screen pixels of its span that lie in every open rectangle, if its right edge reaches column 0 |
| Coverage.Compute | src/flush.c:551-574 | with its early-outs, the plain count of sixteen samples scaled to 255 |
| Coverage.Cache.Fill | src/flush.c:576-582 | the table of one radius is filled with the sample counts, the others stay |
| Coverage.Cache.Lookup | src/flush.c:584-593 | in every reachable table the answer is the sample count |
| Coverage.CoverageIsMonotone | src/flush.c:545-593 | coverage never grows with distance and never falls with the radius |
| Coverage.CoverageIsCount | src/flush.c:551-574 | coverage is the number of the sixteen sample points that lie in the circle, scaled to 255, on all four sides of the centre |
| Coverage.RingCoverage | src/flush.c:621-639 | the inner disc of a ring never covers more than the outer one |
| Coverage.CoverageIsSymmetric | src/flush.c:551-574 | coverage is the same on both sides of the diagonal |
| FlushBlend.FastBlendByChannel | src/flush.c:201-211 | each channel is floor((s*a + d*(256-a))/256), between source and destination; lanes do not carry |
| FlushBlend.GenericByChannel | src/flush.c:178-236 | on the 8-bit BGRA layout the generic blend divides by 255 per channel |
| FlushBlend.BlendsAgree | src/flush.c:201-236 | the two blends differ by at most one level per channel, for every input |
| FlushBlend.GenericInLayout | src/flush.c:178-236 | in every layout without overlapping channels each channel is stretched to a byte, mixed, and squeezed back with rounding to nearest, without disturbing the others |
| FlushBlend.DrawnIsBlended | src/flush.c:201-291 | what drawing makes of a pixel, channel by channel in either mode: weights alpha and 256 - alpha, or alpha and 255 - alpha; the colour itself at 255 |
| RoundRect.AdjacentClampsIdle | src/flush.c:700-709 | after the half-size clamp the clamps against adjacent corners never fire |
| RoundRect.ClampedExactly | src/flush.c:696-704 | every corner gets the greatest fitting radius not above the one asked for; radii that fit are used as they are, and only those |
| RoundRect.CornersAreDiscs | src/flush.c:661-685 | each corner has the opacity of a disc of its own radius around its own centre, by sixteen samples; elsewhere the opacity is full |
| RoundRect.Partition | src/flush.c:711-743 | the seven rectangles and four corner squares cover every position of the box exactly once and none outside |
| RoundRect.RasterizeCorner | src/flush.c:661-685 | every visible pixel of one corner square is blended once with its scaled coverage |
| RoundRect.DrawBands | src/flush.c:714-736 | what the seven rectangles paint, one over the other, in all cases |
| RoundRect.OnceExactly | src/flush.c:714-736 | the rectangles blend every visible pixel outside the corner squares once, and no other, if and only if none that shows ends left of column 0 |
| RoundRect.RoundedIsShaped | src/flush.c:690-743 | then rectangles and corners paint each visible pixel of the box once, with the opacity of the per-pixel definition |
| RoundRect.DrawRounded | src/flush.c:690-743 | what the routine paints in all cases: its rectangles one over the other, then the corners; the per-pixel definition whenever the rectangles reach, with the radii asked for if they fit |
| RoundRect.OnScreenOriginReaches | src/flush.c:714-736 | at a left edge at or right of column 0, under a scissor that does not end left of it, all rectangles reach |
| RoundRect.UniformRadius | src/flush.c:649-656 | with one radius that opacity is the scaled result of the per-pixel coverage function |
| Isqrt.Turn | src/flush.c:162-170 | one turn keeps the partial root squared below x and within one step of it |
| Isqrt.NoWrap | src/flush.c:163-165 | no intermediate value leaves 32 bits |
| Isqrt.Root | src/flush.c:158-172 | r*r <= x < (r+1)*(r+1) for every 32-bit x |
| Isqrt.ShareFitsByte | src/flush.c:518-523 | inside the circle the gradient parameter fits a byte, and is 255 exactly on the rim |
| Isqrt.ShareRises | src/flush.c:522-523 | the gradient parameter is 0 in the centre and never falls outwards |
| Isqrt.RadialShare | src/flush.c:518-523 | the parameter the loop computes is 255 times the whole distance divided by the radius, rounded down, and is not truncated |
| UiPaint.FlatGradient | tools/ridux_ui.h:270-280 | mixing a colour with itself and blending is blending it |
| UiPaint.BlendByChannel | tools/ridux_ui.h:229-244 | each channel is the mix with weights alpha and 255 - alpha, rounded to nearest; the plain colour from 255 on |
| UiPaint.GradientRows | tools/ridux_ui.h:376-383 | the first row has the top colour and the last the bottom colour; every channel is monotone between them and within two levels of the straight line |
| UiPaint.RadiusIsGreatest | tools/ridux_ui.h:316-326 | the radius used is the greatest that fits twice and is not above the one asked for |
| UiPaint.ArcFalls | tools/ridux_ui.h:368-373 | full opacity up to the inner circle, falling evenly to the outer one, none beyond |
| UiPaint.ArcFallsWithDistance | tools/ridux_ui.h:368-373 | opacity never grows with distance from the centre of the arc |
| UiPaint.CornersAreArcs | tools/ridux_ui.h:355-374 | each corner is an arc around the innermost pixel of its square; elsewhere the opacity is full |
| UiPaint.ClipAlphaFolds | tools/ridux_ui.h:355-374 | the clip function is flat outside the corners and mirrors in them |
| UiPaint.Window.FilledExactly | tools/ridux_ui.h:254-264 | the fill touches all of the visible part of its rectangle, and nothing else if and only if its edges reach the screen or nothing shows |
| UiPaint.Window.PixelAlpha | tools/ridux_ui.h:246-252 | exactly the named pixel is blended, if on screen |
| UiPaint.Window.FillAlpha | tools/ridux_ui.h:254-268 | every pixel the clipping leaves is blended once |
| UiPaint.Window.RoundCorners | tools/ridux_ui.h:331-352 | the arc loops blend every corner pixel once, by its folded position |
| UiPaint.Window.RoundAlpha | tools/ridux_ui.h:310-353 | what the tiled rasteriser paints in all cases: its fills one over the other, then the arcs |
| UiPaint.Window.TiledExactly | tools/ridux_ui.h:310-374 | the tiled rasteriser paints what the clip function says, on every surface and in every colour and opacity, if and only if every fill touches only the visible part of its rectangle |
| UiPaint.Window.RoundGradientV | tools/ridux_ui.h:376-389 | the per-pixel rasteriser paints what the clip function says, in all cases, with the gradient's colour of the row |
| UiPaint.SamePicture | tools/ridux_ui.h:310-389 | with equal end colours the two rasterisers leave identical windows whenever every fill touches only the visible part of its rectangle; and exactly what each leaves in all cases |
| UiPaint.OnScreenOriginFillsRight | tools/ridux_ui.h:229-280 | at non-negative coordinates every fill touches only the visible part of its rectangle, for every size and radius |
| Ledger.CachedIdsLive | tools/ridux_native_ui.c:905-931 | cached ids exist, are not 0, and no two buffers share one |
| Ledger.AddsMatchRemovals | tools/ridux_native_ui.c:896-944 | in a legal ledger every id is removed as often as added, but for those that exist |
| Ledger.LocksMatchReleases | tools/ridux_native_ui.c:933-944 | every buffer is released as often as locked, but for the locked ones |
| Ledger.CachedNeverAddedAgain | tools/ridux_native_ui.c:910-918 | a buffer with a cached id gets no other until it is destroyed |
| Ledger.NoFlipAfterLoss | tools/ridux_native_ui.c:2322-2364 | after a failed or lost flip no flip is tried again |
| Ledger.EventMissingExactly | tools/ridux_native_ui.c:2330-2363 | a flip event is missing if and only if one was lost and the display has accepted nothing since |
| FrameOutput.Output.AddFbForBo | tools/ridux_native_ui.c:905-931 | reuses a cached id or adds one; succeeds exactly then, and accounts for it |
| FrameOutput.Output.ReleaseFb | tools/ridux_native_ui.c:933-944 | removes the id unless cached, releases the buffer, and leaves the other record accounted for |
| FrameOutput.Output.Display | tools/ridux_native_ui.c:2322-2368 | exactly when it succeeds, which calls it tries (a refused flip falls back to setting the mode), when page flipping is given up and what the display shows; only the front buffer stays locked and every id is accounted for |
| FrameOutput.Output.Present | tools/ridux_native_ui.c:2246-2382 | on all branches the ledger stays legal, only the front buffer is locked, and the display shows it if and only if the event of the last flip it accepted came; exactly when a present succeeds and when it turns the display to a released buffer |
| FrameOutput.ShownIsUnlocked | tools/ridux_native_ui.c:2359-2362 | whenever the display shows another id than the front one, no locked buffer has it, and it is cached or gone |
| FrameOutput.ShowsReleased | tools/ridux_native_ui.c:2341-2362 | two presents that lead there |
| FrameOutput.Output.Close | tools/ridux_native_ui.c:2384-2420 | afterwards nothing is locked, no id exists, and every add and lock has been undone once |
| ImageCache.Cache.Find | tools/ridux_native_ui.c:1460-1473 | the full scan returns the texture of the key, or none |
| ImageCache.Cache.Scan | tools/ridux_native_ui.c:1396-1411 | the scan that stops at the first free slot finds the same, and otherwise the first free slot |
| ImageCache.AcceptableExactly | tools/ridux_native_ui.c:1384-1388 | sides from 1 to 4096 are accepted; the limit on bytes never refuses more |
| ImageCache.Cache.Get | tools/ridux_native_ui.c:1376-1458 | returns the cached texture, or uploads exactly when the frame's budget, a slot, memory and a texture are there; the cache only grows, and only a new image uses up the budget |
| ImageCache.Cache.Store | tools/ridux_native_ui.c:1450-1457 | an upload fills the first free slot and keeps the one-per-frame budget |
| ImageCache.Cache.GetAll | tools/ridux_native_ui.c:1376-1458 | over all requests of a frame: the first new image is served if there is room and budget, whatever cached ones precede it; cached images always are, further new ones never |
| ImageCache.Cache.Flush | tools/ridux_native_ui.c:1483-1521 | the batch is emptied; every texture drawn is in the cache |
| ImageCache.Cache.Queue | tools/ridux_native_ui.c:1523-1548 | succeeds exactly when the texture is available; drawn and waiting quads are the old batch and the new one, all live; only a new image uses up the budget |
| ImageCache.Cache.NextFrame | tools/ridux_native_ui.c:2280-2379 | the batch is drawn and the next frame has its own budget, unless its number comes round after 2^32 frames without a request |
| ImageCache.UploadHolds | tools/ridux_native_ui.c:1389-1416 | at most one upload per frame, the first one included |
| Pipeline.OpenedKeeps | tools/ridux_sh.c:256-261 | opening pipes leaves the earlier descriptors as they were |
| Pipeline.SetUpStage | tools/ridux_sh.c:263-277 | a forked stage ends with the table of its two dup2 calls and the closes |
| Pipeline.RunPipeline | tools/ridux_sh.c:250-294 | tables of all stages and of the parent, on success and on both failures |
| Pipeline.WiredExactly | tools/ridux_sh.c:250-294 | every stage has its neighbours on stdin and stdout if and only if no pipe end is descriptor 0 or 1 |
| Pipeline.HoldersOf | tools/ridux_sh.c:250-294 | each write end is held only as stdout of its stage, each read end only as stdin of the next |
| Closure.ChainStays | tools/prefetch_ridux_pkgs.py:204-222 | a closed set contains every dependency chain from its members |
| Closure.Closure | tools/prefetch_ridux_pkgs.py:204-225 | terminates on cyclic records and returns exactly the reachable names, and as missing those without a record |

## Left out

- Closure.Closure: a record is its list of dependencies; an empty record, which the program also reports as missing, does not occur because records carry a name.
- Glob.Fnmatch: bracket expressions and FNM_PATHNAME.
- FNM_PERIOD and FNM_LEADING_DIR, which the matcher accepts and ignores.
- Signed overflow, which C leaves undefined: coordinates are integers, with sums of a position and an extent required to fit where the code casts them.
- Reuse of a thread id by the system after a thread ends, key destructors, and null pointer arguments of the thread-specific data routines.
- The GPU branch of fb_present, which is taken to decline, the mapping of the framebuffer and direct drawing without a backbuffer.
- The brush drawn at each position of a line, circles, outlines, gradients, shadows, noise, glass panels, images and text of the renderer.
- The division-based blur for other channel layouts, which only blurs rows.
- Graphics, display and allocation calls: their answers are parameters; contents of buffers and textures, timing, tracing and probing are not modelled.
- The text, rectangle and rounded batches of the native presenter, and its cursor.
- Splitting of command lines into stages and words, program lookup, and waiting for children.
- Downloading, decompressing and parsing of package metadata.
- Image scaling, fonts, window management, drivers, launchers and patch scripts.
