# Segment cylinders: a Dafny model of the viewer's core logic

The viewer is a single browser script, `main.js`. The user types two 3D endpoints and two radii. The script then builds a cylinder that joins the endpoints and attaches a record to it: the endpoints, the radii and the height. While the radius fields are edited, it rebuilds the cylinder's geometry. On every animation frame it highlights the cylinder when the pointer ray hits it, and it places two labels at the projected endpoints.

This project models the four pieces of real logic in that script. All numbers are Dafny `real`:

- **Radius sanitiser** (`radius.dfy`, module `Radius`): `getValidRadius`. NaN becomes 0.2. A negative value becomes its magnitude. The result is clamped into [0.001, 100]. The result of `Number(...)` is a `Parsed` value: `NaN`, a finite `Num`, or an `Infinity` of either sign. Infinities come out as 100, the same as in the source.
- **Segment record and radius edit** (`segment.dfy`, module `Segments`): the record `{start, end, base radius, top radius, height}`, the midpoint position, and the radius edit that keeps the endpoints and the stored height. `distanceTo` is a square root, so the model receives it as a parameter `distance` that must satisfy `distance >= 0` and `distance² = squared distance`.
- **Hover highlight** (`highlight.dfy`, module `Highlight`): one step of `tick` as a pure function. Its input is whether `currentIntersect` is set, the material colour and the frame's hit result. Its output is the new state and the colour writes.
- **Viewport mapping** (`viewport.dfy`, module `Viewport`): the map from normalized device coordinates (NDC) to pixels in `tick`, with Y flipped. Its inverse is the pointer handler's map from pixels back to NDC.
- **Page state** (`scene.dfy`, module `Scene`): the module-level variables `cylinder` and `currentIntersect`, plus a count of disposed geometries. Three operations change this state: creation (the `btn` click), `updateNewGeometry`, and one `tick`. Creation comes in two versions: as the script writes it, and corrected so that it clears the hover state (see "## Findings"). With the corrected creation, the invariant "the colour is red exactly when `currentIntersect` is set" holds over any sequence of these events. With creation as written, it holds over any sequence in which no cylinder is created while one is hovered.

## Model

| member | source | states |
|---|---|---|
| `Radius.ValidRadius` | main.js:94-101 | Always in [0.001, 100]. NaN gives exactly 0.2 without clamping. An infinity gives 100. A finite number gives its magnitude when that is in range, otherwise the bound it crosses. |
| `Radius.SignInsensitive` | main.js:97-100 | A number and its negation sanitise to the same radius. |
| `Radius.Idempotent` | main.js:97-100 | Sanitising an already sanitised radius returns it unchanged. |
| `Radius.FixedPoints` | main.js:98-100 | A number comes back unchanged if and only if it lies in [0.001, 100]. |
| `Radius.MonotoneInMagnitude` | main.js:97-100 | A larger magnitude never gives a smaller radius. |
| `Segments.DistanceZeroIff` | main.js:140 | The distance between the endpoints is zero exactly when they are equal. |
| `Segments.Midpoint` | main.js:141 | The position `(start+end)/2` equals start plus half of `end-start`. It is equally far from both endpoints, at half the segment length. |
| `Segments.NewSegment` | main.js:134-159 | The stored record keeps the endpoints as typed and holds both radii sanitised. It is valid: radii in range, and height equal to the endpoint distance. The height is `>= 0`, and it is `0` exactly when start equals end. |
| `Segments.WithRadii` | main.js:107-118 | An edit sets both radii to their sanitised inputs. It keeps the endpoints and the stored height, and it keeps the record valid. |
| `Segments.WithRadiiIdempotent` | main.js:107-118 | Two edits with the same inputs give the same record as one. |
| `Segments.WithOwnRadii` | main.js:107-118 | Editing a valid record with its own radii changes nothing. |
| `Segments.VerticalDistance` | main.js:140 | A segment parallel to the vertical axis has its vertical extent as its length. |
| `Segments.VerticalExample` | main.js:134-159 | From any point to the point 10 above it, for example (0,0,0) to (0,10,0), with radius inputs 5 and -3, the record has radii 5 and 3 and height 10. |
| `Segments.DegenerateExample` | main.js:140 | Equal endpoints give a record of height 0. |
| `Highlight.Step` | main.js:182-194 | After a frame, `currentIntersect` is set exactly when the ray hit. A miss→hit edge writes exactly one red. A hit→miss edge writes exactly one cyan. Repeated hits or misses write nothing. The colour is the last write. |
| `Highlight.StepConsistent` | main.js:182-194 | One frame keeps "red exactly when `currentIntersect` is set". |
| `Highlight.Run` | main.js:176-194 | Over a frame sequence, each frame gives one state and one write list, and after frame i `currentIntersect` is set exactly when hit i was true. |
| `Highlight.RunConsistent` | main.js:174-194 | Starting cyan with `currentIntersect` null, the colour is red exactly when `currentIntersect` is set, after every frame. |
| `Highlight.RunAlternates` | main.js:182-194 | Over any run, the writes alternate red, cyan, red, and so on. No restore is doubled and none is skipped. |
| `Highlight.ExampleRun` | main.js:182-194 | The hits [T, T, F, T, T] from a fresh cylinder give the writes [red, -, cyan, red, -] and end red and hovered. |
| `Viewport.ToPixel` | main.js:203-207 | NDC (0,0) maps to the rectangle centre. x = -1 and x = 1 map to the left and right edges. y = 1 maps to `top` and y = -1 to `top+height`. |
| `Viewport.ToNdc` | main.js:43-44 | The pointer's map back to NDC sends the centre to (0,0), the left edge to x = -1 and the top edge to y = 1. |
| `Viewport.SquareMapsIntoRect` | main.js:203-207 | On a canvas of non-negative size, NDC in [-1,1]² lands inside [left, left+width] × [top, top+height]. |
| `Viewport.Orientation` | main.js:203-207 | Pixel x increases with NDC x, and pixel y decreases as NDC y increases (the Y flip). |
| `Viewport.NdcRoundTrip` | main.js:41-45 | Mapping NDC to pixels and back with the pointer handler's formula returns the NDC point. |
| `Viewport.PixelRoundTrip` | main.js:41-45 | Mapping a pixel to NDC and back to pixels returns the pixel. |
| `Scene.Build` | main.js:144-148 | A new cylinder is cyan, sits at the midpoint, and has a geometry made from the record's radii and height. |
| `Scene.CommitAsWritten` | main.js:125-162 | As written, creation replaces the tracked cylinder, leaves `currentIntersect` as it was, and leaves the retired cylinder's colour untouched. |
| `Scene.Commit` | main.js:125-162 | Corrected creation does the same but clears the hover state. The retired cylinder comes out cyan, and the page invariant holds afterwards. |
| `Scene.UpdateNewGeometry` | main.js:104-119 | With no cylinder, nothing changes. Otherwise the record takes the sanitised radii. The new geometry uses those radii and the stored height. Position, colour and hover state are kept, exactly one geometry is disposed, and the invariant is preserved. |
| `Scene.UpdateIdempotent` | main.js:104-119 | Two equal edits leave the same cylinder as one. |
| `Scene.Tick` | main.js:176-217 | With no cylinder, nothing happens. Otherwise only the colour can change. A miss→hit edge writes exactly one red, a hit→miss edge exactly one cyan, and a repeated hit or miss writes nothing; at most one write happens per frame. Both labels are placed at the pixel positions of the projected endpoints, whether or not the ray hit. The invariant is preserved. |
| `Scene.StartConsistent` | main.js:174 | The page starts with no cylinder and nothing hovered. |
| `Scene.ReplayConsistent` | main.js:90-217 | With the corrected creation, any sequence of creations, edits and frames keeps the page invariant. |
| `Scene.CommitAgreesUnhovered` | main.js:125-162 | When nothing is hovered, creation as written gives the same page state as the corrected creation. |
| `Scene.ReplayAsWrittenConsistent` | main.js:90-217 | With creation as written, any sequence of creations, edits and frames keeps the page invariant, provided no creation happens while `currentIntersect` is set. |
| `Scene.StaleHighlightAsWritten` | main.js:146 | As written, creating while hovered leaves the retired cylinder red. The new state breaks the invariant. The next hit on the new cylinder writes nothing and leaves it cyan. |
| `Scene.FreshHighlight` | main.js:146 | With the corrected creation, the retired cylinder is cyan and the next hit turns the new cylinder red. |
| `Scene.HoverReachable` | main.js:182-187 | A hovered state is reachable: create a cylinder, then let one frame's ray hit it. |

## Findings

| source | as written | input that shows it | evidently intended | confidence | as-written member | corrected member |
|---|---|---|---|---|---|---|
| main.js:146 | Creating a cylinder reassigns `cylinder` but never clears `currentIntersect` and never restores the old cylinder's colour. | Hover the current cylinder so it turns red, then activate the create button without moving the pointer (for example, with the keyboard). The old cylinder stays red for good. The next frame's hit on the new cylinder writes no red, because `currentIntersect` is still set. | Only the hovered cylinder is red. Creation restores the retiring cylinder to cyan and starts the new one with `currentIntersect` null. | medium; not executed | `Scene.StaleHighlightAsWritten` | `Scene.Commit` |

The corrected creation `Scene.Commit` is what the event replay `Scene.Replay` uses. `Scene.FreshHighlight` shows that it highlights the new cylinder, and `Scene.ReplayConsistent` shows that it keeps the page invariant. Creation as written is kept beside it: `Scene.ReplayAsWrittenConsistent` shows that the script's own event handling keeps the invariant as long as no cylinder is created while one is hovered.

## Behaviour of main.js worth knowing

- The ray test covers only the most recently created cylinder (main.js:180).
- Labels are positioned on every frame while a cylinder exists, hit or miss (main.js:195-216).
- The orientation has no special case for a zero-length or axis-parallel direction (main.js:149-152). The model leaves the orientation out.

## Left out

- String-to-number conversion (`Number(...)` on field text, main.js:95, 126-132) is not modelled. The sanitiser starts from its result.
- Endpoint coordinates are finite reals. A non-numeric coordinate field gives NaN in the source, which flows unsanitised into the distance and midpoint. That is not modelled.
- Floating-point rounding is not modelled. All arithmetic is exact over `real`, so, for example, 0.001 is exact.
- `distanceTo` (a square root) is not computed. The creation operations require their `distance` argument to be that distance.
- The orientation (cross product, `acos`, `setFromAxisAngle`, main.js:149-152) is library trigonometry and is left out.
- The ray–mesh intersection (main.js:177, 180) is a boolean input per frame. `Vector3.project(camera)` (main.js:198-199) is abstract, and its NDC result is an input per frame.
- `Viewport.ToNdc`: requires a non-zero canvas width and height. The source divides without a guard, and a zero-sized canvas would give infinities or NaN.
- Scene, camera, renderer, lights, grid, orbit controls, the resize handler and the render loop (main.js:1-36, 164-171, 218-223) are rendering plumbing.
- The click-to-open details modal (main.js:46-89), label text and style writes (main.js:210-216), `console.log`, and the listener wiring (main.js:122-125) are DOM glue.
- Geometry construction and `dispose()` are opaque. A geometry is its constructor arguments, and disposal is a counter.
- Earlier cylinders stay in the scene, and nothing edits them again. The details modal can still read a retired cylinder's record through a stale `currentIntersect` (main.js:61-77). The model keeps only the one cylinder a creation retires.
