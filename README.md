# Diamond ray intersection

This project models the ray/solid intersection test of the ray tracer's
`diamond` object: `diamond::hit` and its helper `diamond::point_in_triangle`.
It uses exact real arithmetic.

The diamond is given by a centre and a height `h`. It is built from these parts:

- a bottom apex `h` below the centre;
- a middle hexagon of radius `h` through the centre;
- a top hexagon of radius `h / 2`, lifted `h / 2`;
- the centre of its top cap.

`hit` works in four steps:

1. **Pre-filter.** It rejects rays that miss the bounding sphere of radius `h`, that meet it only behind their origin, or that start inside or on that sphere. The last case includes rays that start outside the diamond but inside the ball, for instance just above the top cap: they are never tested against the faces (`InsideBallRejected`).
2. **Face passes.** It crosses the ray with the planes of the six bottom triangles, the six side quads and the hexagonal top cap. A face nearly parallel to the ray is skipped, using a threshold scaled by the height.
3. **Acceptance.** A crossing is kept when its distance is in `[t_min, t_max]` and the face holds the point, tested with the sign-of-cross-products triangle test.
4. **Nearest hit.** Of the accepted crossings it keeps the nearest, and on a hit writes distance, point, unit normal and material into the hit record.

There are four modules:

- `Vectors` covers vectors, lengths and normalisation.
- `Planes` covers facts of plane geometry: coordinates of a vector in a plane spanned by two edges, and the bound on a convex combination of three points.
- `DiamondShape` covers the ray and diamond values, the vertices, the triangle test and the faces. It proves that every point a face holds lies in the bounding ball (`FacePointInBall`).
- `DiamondHit` covers the hit test itself.

In `DiamondHit`, a specification defines what `hit` returns:

- `CrossFace` is the outcome for one face.
- `Candidates` is the list of accepted crossings, in visiting order.
- `Scan` is the found / nearest-point / normal state machine run over that list.
- `HitResult` is the whole answer.

The imperative part follows the source step by step:

- `RingVertices` fills the two vertex arrays.
- `BottomPass`, `SidePass` and `CapPass` are the three face loops. They thread `found`, `nearest_pt` and `normal`.
- `CapContains` is the fan loop with its `break`.
- `Hit` proves that the pre-filter, the passes and the final record update compute `HitResult`.

These choices shape the model:

- **Square roots.** `sqrt` is a parameter of the model, constrained to return the non-negative root (`IsSqrt`). `length()` and `unit_vector` are defined from it.
- **Sine and cosine.** The cosines of the multiples of 60 degrees are exact. The sines are `±sqrt(3/4)` or zero.
- **The hit record.** The source writes into the `rec` out-parameter. The model passes the record by value and returns the record left after the call.
- **Hit distance.** `rec.t` is the Euclidean distance from the ray origin to the hit point, as in the source. It is not a ray parameter.
- **The crossing's sign is not checked, but cannot matter.** The interval check compares the length of `dir * d` with the bounds, so the step for one face ignores the sign of the plane parameter `d`: for a face on its own, a crossing behind the ray origin would be accepted (`CrossingBehindOrigin`). In `hit` this never happens. A ray that passes the pre-filter starts outside the bounding sphere and heads towards its centre, so every ray point at `d <= 0` is strictly outside the ball (`BehindOriginOutside`), while every point a face holds is inside it (`FacePointInBall`). Every accepted crossing therefore has `d > 0` (`CandidateAhead`), and so does the reported hit (`HitAheadOfOrigin`).
- **Boundary points are outside.** The triangle test uses strict comparisons, so it rejects every point of a triangle's edges, vertices included (`PointInTriangleExcludesEdges`). A ray along the diamond's vertical axis meets the cap plane exactly at `center_top`. That point is the shared vertex of the six fan triangles, so the cap never takes such a ray (`AxisRayMissesCap`). The model follows the code here: an axis ray is not reported as hitting the cap.
- **The `goto`.** The `goto UPDATE` of the top pass (diamond.h:268) is a return from `CapPass`, which is the last pass.

## Model

| member | source | states |
|---|---|---|
| `Vectors.Length` | diamond.h:162 | `v.length()` is the non-negative number whose square is `dot(v, v)`; it is zero exactly for the zero vector |
| `Vectors.LengthLess` | diamond.h:187 | comparing two lengths is the same as comparing their squared lengths |
| `Vectors.ScaleLength` | diamond.h:162 | the length of `v * k` is `|k|` times the length of `v` |
| `Vectors.UnitVector` | diamond.h:183 | `unit_vector(v)` of a non-zero vector has length one, is parallel to `v` and points the same way |
| `DiamondShape.SinOf60` | diamond.h:116-124 | the sine of 60 degrees is positive with square `3/4` |
| `DiamondShape.SixthOnUnitCircle` | diamond.h:115-124 | each of the six angles `PI * i / 3` gives a point on the unit circle |
| `DiamondShape.SixthRotation` | diamond.h:115-124 | consecutive ring angles differ by a rotation of 60 degrees, including the wrap from 5 to 0 |
| `DiamondShape.BottomApex` | diamond.h:101 | `bottom_pt` lies on the vertical axis through the centre |
| `DiamondShape.TopCentroid` | diamond.h:106 | `center_top` lies on the vertical axis through the centre |
| `DiamondShape.MiddleVertex` | diamond.h:118-120 | `middle_pt[i]` lies in the horizontal plane through the centre |
| `DiamondShape.TopVertex` | diamond.h:122-124 | `top_pt[i]` lies at the level of `center_top` |
| `DiamondShape.TurnAboutY` | diamond.h:115-124 | a turn by 60 degrees about the vertical axis, counter-clockwise seen from above: it keeps the height and the horizontal length, the horizontal dot product with the image is half the squared horizontal length (cosine `1/2`), and the vertical component of the cross product is `sin 60°` times it |
| `DiamondShape.RingsCounterClockwise` | diamond.h:97-124 | both rings run counter-clockwise seen from above: each point's offset from its ring's centre is the previous one's turned by 60 degrees, and point 0 has the largest x coordinate of its ring (strictly, for a positive height) |
| `DiamondShape.RingVertices` | diamond.h:115-130 | the loop fills `middle_pt` and `top_pt` with exactly the six middle and six top vertices |
| `DiamondShape.RingPointDistance` | diamond.h:118-124 | a ring point at radius `rho` and lift `l` has squared distance `rho² + l²` from the centre |
| `DiamondShape.VerticesInBoundingSphere` | diamond.h:101-124 | every vertex lies in the closed ball of radius `|height|` around the centre: the apex and middle vertices at squared distance `height²`, the top vertices at `height² / 2`, the cap centre at `height² / 4` |
| `DiamondShape.PointInTriangle` | diamond.h:321-330 | `point_in_triangle`: a point passes only if the triangle is not degenerate, i.e. its edge cross product is non-zero |
| `DiamondShape.DegenerateTriangleEmpty` | diamond.h:324-329 | the three cross products of the test add up to the edge cross product, so a triangle whose vertices lie on one line holds no point |
| `DiamondShape.PointInTriangleRotate` | diamond.h:324-329 | the triangle test is invariant under cyclic rotation of the vertices |
| `DiamondShape.PointInTriangleReverse` | diamond.h:324-329 | the triangle test is invariant under reversing the orientation |
| `DiamondShape.PointInTriangleExcludesVertices` | diamond.h:324-329 | the test rejects a point equal to any vertex, since one cross product is zero and the comparisons are strict |
| `DiamondShape.PointInTriangleExcludesEdges` | diamond.h:324-329 | no point of any of the three edges passes the test |
| `DiamondShape.HubNotInFan` | diamond.h:275-280 | the fan test never holds its own hub `center_top` |
| `DiamondShape.PointInTriangleBarycentric` | diamond.h:321-330 | the test accepts the plane point with barycentric coordinates `(1 - u - v, u, v)` exactly when the triangle is not degenerate and all three coordinates are positive |
| `DiamondShape.CentroidInside` | diamond.h:321-330 | the centroid passes the test exactly when the triangle is not degenerate |
| `DiamondShape.TriangleInBall` | diamond.h:321-330 | a point the test accepts, on a plane through the triangle, lies in every ball that holds the three vertices |
| `DiamondShape.FacePointInBall` | diamond.h:49-52 | a point on the plane of one of the thirteen faces that the face holds lies in the closed bounding ball of radius `|height|`, so a ray that misses the ball misses the diamond |
| `DiamondShape.BottomFaces` | diamond.h:138-147 | the bottom pass visits triangle `(apex, middle[i], middle[(i+1)%6])` with normal `cross(c - a, b - a)`, in order `i = 0..5` |
| `DiamondShape.SideFaces` | diamond.h:198-208 | the side pass visits quad `(middle[i], middle[i+1], top[i+1], top[i])` with normal `cross(b - a, c - a)`, in order |
| `DiamondShape.BottomFaceFlat` | diamond.h:139-147 | the plane through `plane_pt` with normal `plane_vec` holds the bottom triangle's three vertices |
| `DiamondShape.SideFaceFlat` | diamond.h:199-208 | the plane of a side face holds all four vertices of the quad, including `top_pt[i]`, which is not used to build it |
| `DiamondShape.CapFaceFlat` | diamond.h:253-254 | the cap plane holds all six top vertices and `center_top` |
| `DiamondShape.CapNormalUp` | diamond.h:253-254 | the cap normal `cross(top[0] - top[1], top[0] - top[2])` is vertical and points up when the height is non-zero |
| `DiamondHit.SphereQuadratic` | diamond.h:54-57 | `a` is zero only for a zero direction, and `c` is not positive exactly when the origin lies in the closed ball |
| `DiamondHit.Discriminant` | diamond.h:58 | an origin strictly inside the ball with a non-zero direction always gives a positive discriminant |
| `DiamondHit.SphereAlongRay` | diamond.h:54-57 | the value `a t² + 2 b t + c` at `t` is the squared distance of `origin + t * dir` from the centre minus `height²` |
| `DiamondHit.RootOnSphere` | diamond.h:54-65 | the roots of the quadratic are exactly the ray parameters at which the ray point is on the sphere |
| `DiamondHit.CompletedSquare` | diamond.h:58 | `a` times the quadratic's value is `(a t + b)² - discriminant` |
| `DiamondHit.QuadraticValue` | diamond.h:58-61 | with `a > 0`, a non-positive discriminant makes the quadratic nowhere negative, and at the vertex it is negative exactly when the discriminant is positive |
| `DiamondHit.DiscriminantDecidesSphere` | diamond.h:49-61 | a non-positive discriminant means no point of the ray's line is strictly inside the ball; a positive one means exactly that the line's point at `-b / a` is strictly inside |
| `DiamondHit.NearRoot` | diamond.h:63-65 | `distance` solves `a t² + 2 b t + c == 0`, is the smaller root (`a t + b < 0`), and the ray point there is on the sphere |
| `DiamondHit.PassesPreFilter` | diamond.h:54-68 | a ray that passes has a non-zero direction and the diamond a non-zero height |
| `DiamondHit.PositiveDiscriminant` | diamond.h:54-61 | a positive discriminant implies a non-zero direction and, by Cauchy-Schwarz, a non-zero height |
| `DiamondHit.NearRootSign` | diamond.h:63-68 | the nearer sphere root is positive exactly when `b < 0` and `c > 0` |
| `DiamondHit.PreFilterMeaning` | diamond.h:54-68 | the pre-filter passes exactly when the discriminant is positive, the ray heads towards the centre and its origin is outside the sphere |
| `DiamondHit.BoundingSphereCheck` | diamond.h:54-68 | the computed `a`, `b`, `c`, discriminant and near root decide exactly the pre-filter |
| `DiamondHit.Epsilon` | diamond.h:132 | the parallel threshold is at most `1e-6` and at most `1e-6 * |height|`, and positive exactly when the height is non-zero |
| `DiamondHit.PlaneParameter` | diamond.h:152-159 | the ray point at `numer / denom` lies on the face plane |
| `DiamondHit.PlaneParameterUnique` | diamond.h:152-165 | it is the only ray point on the plane, since the ray is not parallel to it |
| `DiamondHit.RayPoint` | diamond.h:165 | `proj - origin` is `dir * d` |
| `DiamondHit.RayPointDistance` | diamond.h:159-165 | the distance of `origin + dir * d` from the origin is `|d|` times the length of `dir`, so the interval check ignores the sign of `d` |
| `DiamondHit.CrossFace` | diamond.h:144-177 | one face: skipped exactly when `|denom| < epsilon`; an accepted point lies on the plane and on the ray, at a distance in `[t_min, t_max]`, inside the face, with normal `unit_vector(plane_vec)`: unit length, parallel to `plane_vec` and pointing the same way |
| `DiamondHit.CrossFaceSteps` | diamond.h:152-177 | the parallel test, the interval test and the containment test, as the passes compute them, decide the face's outcome |
| `DiamondHit.CrossFaceAccepts` | diamond.h:175-177 | a crossing that passes the parallel and interval tests is accepted exactly when the face shape holds the projected point |
| `DiamondHit.CrossingBehindOrigin` | diamond.h:159-165 | for one face on its own, a crossing with negative plane parameter inside the interval and the face is accepted, and the point lies behind the ray origin; `CandidateAhead` shows the faces `hit` visits never give one past the pre-filter |
| `DiamondHit.BehindOriginOutside` | diamond.h:63-68 | past the pre-filter, every ray point at a parameter `<= 0`, the origin included, is strictly outside the bounding sphere |
| `DiamondHit.CandidateAhead` | diamond.h:159-177 | past the pre-filter, a crossing that a face of the diamond accepts has a positive plane parameter, and the point is ahead of the origin in the direction of travel |
| `DiamondHit.AxisRayMissesCap` | diamond.h:248-280 | a ray along the vertical axis meets the cap plane at `center_top` and the cap never takes it |
| `DiamondHit.SideFaceRule` | diamond.h:227-230 | a side quad takes the crossing exactly when triangle `(a, b, c)` or triangle `(c, d, a)` holds the point |
| `DiamondHit.CapFaceRule` | diamond.h:272-280 | the cap takes the crossing exactly when one of the six fan triangles `(top[i], top[(i+1)%6], center_top)` holds the point |
| `DiamondHit.Candidates` | diamond.h:138-302 | every candidate is the accepted crossing of one of the faces |
| `DiamondHit.CandidatesComplete` | diamond.h:175-192 | every accepted face crossing is among the candidates |
| `DiamondHit.CandidatesAppend` | diamond.h:136-302 | the candidates of consecutive passes are the concatenation of each pass's candidates |
| `DiamondHit.CandidatesSkip` | diamond.h:155-177 | a face that is skipped, out of range or missed contributes nothing |
| `DiamondHit.ParallelFaceIgnored` | diamond.h:155-157 | a face with `|dot(dir, plane_vec)| < epsilon` is never registered: the candidates equal those of the other twelve faces |
| `DiamondHit.Register` | diamond.h:179-192 | after registering, `found` holds; the first candidate is taken; later ones replace the nearest point only when strictly closer, so its distance is the minimum and ties keep the earlier |
| `DiamondHit.Scan` | diamond.h:138-302 | `found` ends true exactly when it started true or some candidate was registered; otherwise nothing changed |
| `DiamondHit.ScanAppend` | diamond.h:136-302 | running the passes one after another equals one scan over all their candidates |
| `DiamondHit.ScanStep` | diamond.h:138-193 | one loop iteration registers the face's crossing when accepted and changes nothing otherwise |
| `DiamondHit.FirstNearestUnique` | diamond.h:187 | there is only one earliest nearest candidate |
| `DiamondHit.ScanFirstNearest` | diamond.h:179-192 | starting with `found == false`, the scan ends on the earliest candidate of least distance, whatever `nearest_pt` and `normal` held before |
| `DiamondHit.ScanFaces` | diamond.h:136-302 | the three passes in turn scan the thirteen faces in the source's order |
| `DiamondHit.HitResult` | diamond.h:46-317 | on a miss `rec` is unchanged; on a hit the ray passed the pre-filter, `rec.mat_ptr` is the diamond's material and `rec.t` is the distance of `rec.p` from the origin |
| `DiamondHit.PreFilterRejects` | diamond.h:54-68 | a non-positive discriminant or a non-positive near root means no hit and `rec` unchanged; a hit needs an origin outside the sphere and a ray towards its centre |
| `DiamondHit.InsideBallRejected` | diamond.h:63-68 | a ray that starts in the closed ball, even outside the diamond, never hits, and `rec` is unchanged |
| `DiamondHit.HitIsFirstNearest` | diamond.h:304-316 | after the pre-filter, `hit` is true exactly when some face accepts; then `rec` holds the distance, point and normal of the earliest nearest candidate and the diamond's material, otherwise `rec` is unchanged |
| `DiamondHit.HitInInterval` | diamond.h:304-312 | on a hit, `rec.t` lies in `[t_min, t_max]` |
| `DiamondHit.HitOnFace` | diamond.h:304-312 | on a hit, `rec.t` is the distance of `rec.p`, which lies on and inside a non-parallel face, and `rec.normal` is `unit_vector` of that face's `plane_vec` |
| `DiamondHit.HitAheadOfOrigin` | diamond.h:304-312 | on a hit, `rec.p` is the ray point at a positive parameter, ahead of the origin in the direction of travel |
| `DiamondHit.EmptyIntervalMisses` | diamond.h:161-163 | with `t_max < t_min` nothing is hit and `rec` is unchanged |
| `DiamondHit.RegisterCandidate` | diamond.h:179-192 | the registration code updates `found`, `nearest_pt` and `normal` as `Register` does |
| `DiamondHit.BottomPass` | diamond.h:136-193 | the bottom loop leaves the state `Scan` gives for the bottom triangles' candidates |
| `DiamondHit.SidePass` | diamond.h:197-246 | the side loop leaves the state `Scan` gives for the side quads' candidates |
| `DiamondHit.CapContains` | diamond.h:273-280 | the fan loop with `break` sets `inside` exactly when the cap holds the point |
| `DiamondHit.CapPass` | diamond.h:248-302 | the cap block, including its `goto UPDATE`, leaves the state `Scan` gives for the cap's candidate |
| `DiamondHit.VisitFaces` | diamond.h:101-302 | the vertex set-up and the three passes, from `found == false`, leave the state of one scan over all thirteen faces |
| `DiamondHit.Hit` | diamond.h:46-317 | `hit` returns the answer and the record `HitResult` describes |

## Left out

- IEEE floating point: everything is exact real arithmetic. The `float` rounding of `a`, `b`, `c`, the discriminant, `numer / denom` and the 1e-6 constant is not modelled, nor is the float value of `PI`. The angles are the exact multiples of 60 degrees.
- `sqrt`, `sin`, `cos`: `sqrt` is a parameter of the model that returns the non-negative root. `sin` and `cos` appear only through their exact values at the six angles.
- `vec3`, `ray`, `hitable`, `hit_record` and `material`: their headers are not part of this model. The vector operations the test uses, the hit record's four fields and the ray are written as plain datatypes and functions. The material is a type parameter.
- The orientation of normals: the source does not make them face outward, and the model claims nothing about it.
- The commented-out sphere-hit code and the debugging output comments (diamond.h:73-92 and the `std::cout` lines).
- main.cpp: the render driver, completely out of scope. It does scene randomness, the camera, shading and PPM output.
- Uninitialised `nearest_pt` and `normal`: the source leaves them uninitialised. The model starts them at the zero vector; `ScanFirstNearest` shows their initial values never reach the result.
- Out-parameter aliasing: the record is passed and returned by value.
- RingsCounterClockwise: the largest-x property of point 0 is stated for a non-negative height only. For a negative height every ring offset is negated, and point 0 then has the smallest x coordinate.
