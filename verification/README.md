# Orienteering course designer: a verified model of the course core

The course designer is a browser application for laying out orienteering
courses on a map. A course is a flat list of elements of five kinds:

- a **Start**, drawn as a triangle turned toward the first Control;
- a **Control**, drawn as a numbered circle with an IOF control description;
- a **Finish**, drawn as two concentric circles;
- a **Leg**, which joins two of those point symbols by id;
- an **Area**, a forbidden or corridor polygon.

This project models the logic that keeps such a course consistent, and
proves what that logic guarantees:

- the element model;
- how a Start picks the element it points at, and its angle;
- hit-testing a click against the course;
- placing, joining and moving elements;
- deleting an element, with its cascade of Leg removal, Control
  renumbering and Start re-orientation;
- the undo/redo history hook;
- loading and saving a course file;
- the CSV export of control descriptions;
- what the canvas draws for each element;
- the two settings panels: symbol multipliers and map scale.

Modules follow the program's files:

| module | file | source |
|---|---|---|
| `CourseModel` | types.dfy | types.ts |
| `Constants` | constants.dfy | constants.ts |
| `Geometry` | geometry.dfy | utils/geometry.ts, pure tests |
| `HitTest` | hittest.dfy | `getElementAtPoint` and the Leg tool's pick |
| `Orientation` | orientation.dfy | `getRotationAngleForStart` |
| `ControlOrder` | sorting.dfy | the stable sort by number |
| `Cascade` | cascade.dfy | `handleDeleteSelected` |
| `CascadeProperties` | cascade_props.dfy | what the delete cascade guarantees |
| `Editing` | editing.dfy | placing, joining and moving elements |
| `CourseLoading` | load.dfy | `handleLoadCourse`, `handleSaveCourseData` |
| `DescriptionExport` | export.dfy | `handleExportDescriptions` |
| `UndoHistory` | history.dfy | hooks/useHistory.ts |
| `Session` | session.dfy | the editor's actions over the history |
| `Rendering` | rendering.dfy | MapDisplay.tsx's drawing |
| `SymbolSettings` | symbol_settings.dfy | components/SymbolSettings.tsx |
| `ScaleSettingsForm` | scale_settings.dfy | components/ScaleSettings.tsx |

Three modules support the others:

- `Wrappers` holds `Option`.
- `Decimal` holds `toString` and `parseInt` on integers.
- `Numerics` holds the square root, `atan2`, `cos` and `sin`.

Coordinates and sizes are `real`. The program's JavaScript numbers are
doubles, and the model does not track rounding.

The square root, `atan2`, `cos` and `sin` cannot be computed in Dafny. They
are passed in as one `Numerics.Transcendentals` value. Where a proof needs
the square root to be a true square root, the lemma requires
`SqrtSound(m)`.

Element ids come from `Date.now()` and `Math.random()`. In the model, an
id arrives with the action that needs it. Where it matters, a lemma
requires the id to be fresh.

## Model

| member | source | states |
|---|---|---|
| CourseModel.DefaultControlDescription | types.ts:49-58 | A new description carries the Control's number in column A, readable back by `parseInt`; the other seven columns are empty |
| CourseModel.FindIndex | App.tsx:517 | The index of the first element with the id; none earlier has it; none when no element has it |
| CourseModel.Find | App.tsx:484 | The element found is the first in course order with the id (the one at `FindIndex`), so it is in the course and has the id; nothing is found exactly when no element has the id |
| CourseModel.FindUnique | App.tsx:484 | With unique ids, looking up an element's id finds that element |
| CourseModel.ControlsOf | App.tsx:514 | The Controls of a course: no longer than the course, every member a Control of the course, every Control of the course a member; their order is stated by `ControlsOfConcat` |
| CourseModel.ControlsOfConcat | App.tsx:514 | Taking the Controls keeps course order: it distributes over concatenation, and a single element is kept exactly when it is a Control |
| CourseModel.DenseNumbersAreOnto | App.tsx:513-526 | N distinct numbers in 1..N over N Controls use every number in 1..N |
| Constants.Factor | constants.ts:7-11 | A multiplier's scale factor is at least 0.2 for a multiplier of at least 1, and exactly 1 at the default multiplier 5 |
| Decimal.NatToString | types.ts:50 | The decimal text of a natural: non-empty, all digits, no leading zero |
| Decimal.IntToString | types.ts:50 | The decimal text of an integer: non-empty, a minus sign exactly for negatives |
| Decimal.ParseIntOfIntToString | components/SymbolSettings.tsx:24 | `parseInt` reads back exactly the integer `toString` wrote |
| Decimal.ParseInt | components/SymbolSettings.tsx:24 | Text with no digit at all is not a number |
| Decimal.SkipWhiteSpace | components/SymbolSettings.tsx:24 | The leading white space `parseInt` skips is a prefix of white space, and what remains does not start with any |
| Decimal.DigitRun | components/SymbolSettings.tsx:24 | The digit run `parseInt` reads is the longest all-digit prefix |
| Decimal.ParseIntEmpty | components/SymbolSettings.tsx:41-44 | Empty text is not a number |
| Numerics.SqrtAtMostIff | utils/geometry.ts:49-51 | For a non-negative argument, comparing its true square root with a bound is comparing the argument with the bound squared |
| Geometry.DistanceSquared | utils/geometry.ts:6-8 | The squared distance is non-negative and zero exactly for equal points |
| Geometry.InCircleIsDistanceTest | utils/geometry.ts:10-12 | The squared circle test agrees with `distance(point, center) <= radius` for a true square root |
| Geometry.StartClickMissesApexRegion | utils/geometry.ts:14-17 | The Start "triangle" test is a circle of 0.4 times the side: without tolerance it misses a point half a side from the centre, inside the drawn triangle's circumcircle |
| Geometry.IsLeft | utils/geometry.ts:37-39 | The signed-area test vanishes when the point is an end of the edge, and is the same determinant taken about either end |
| Geometry.EdgeCrossing | utils/geometry.ts:24-32 | One edge adds +1 exactly when it crosses upward past the point with the point strictly left of it, -1 exactly when it crosses downward with the point strictly right of it, and nothing when the point is on its line |
| Geometry.EdgeCrossingReversed | utils/geometry.ts:24-32 | An edge walked backwards contributes the opposite amount |
| Geometry.WindingNumber | utils/geometry.ts:19-35 | The winding number of an n-gon lies in -n..n and is 0 for an empty polygon |
| Geometry.IsPointInPolygon | utils/geometry.ts:19-35 | The source's loop, with the last edge wrapping to the first vertex, answers exactly the non-zero winding rule; an empty polygon contains nothing |
| Geometry.OutsidePolygonExtent | utils/geometry.ts:19-35 | For any polygon, a point above every vertex, below or level with every vertex, or strictly right of every vertex is outside |
| Geometry.RightOfEdgeNoCrossing | utils/geometry.ts:24-32 | An edge whose ends are both strictly left of the point never counts toward the winding number |
| Geometry.SquareExamples | utils/geometry.ts:19-35 | A point inside a square is inside; one to its right is not |
| Geometry.ArrowExamples | utils/geometry.ts:19-35 | In a concave arrow, a point in the notch is outside and a point in the body is inside |
| Geometry.UnfoldWinding | utils/geometry.ts:19-35 | The winding number is the sum of the edges' crossings |
| Geometry.ProjectionParameter | utils/geometry.ts:44-45 | The projection parameter is clamped into [0, 1] |
| Geometry.DistToSegmentSquared | utils/geometry.ts:41-47 | The squared distance from the point to the segment: the distance to `v` when the segment is one point, else the distance to the clamped projection, which no point of the segment beats |
| Geometry.SegmentDistanceIsMinimal | utils/geometry.ts:41-47 | The clamped projection is the point of the segment nearest the click |
| Geometry.QuadraticMinimum | utils/geometry.ts:44-46 | On [0, 1], the quadratic part of the distance is least at the clamped vertex |
| Geometry.OnLegIsDistanceTest | utils/geometry.ts:49-51 | The squared on-Leg test agrees with `sqrt(distToSegmentSquared) <= threshold` for a true square root |
| Geometry.AdjustedPointAlongVector | utils/geometry.ts:103-117 | The result is the start when the vector is zero or the distance is 0; otherwise it lies on the line start-end, at the given distance from the start, toward the end for a non-negative distance |
| Geometry.StepFacts | utils/geometry.ts:110-116 | The moved point is collinear with the vector, at the given distance, on the end's side |
| HitTest.ClickTolerance | utils/geometry.ts:63 | The tolerance is positive and is five screen pixels in map units at the zoom |
| HitTest.ToleranceShrinksWithZoom | utils/geometry.ts:63 | Zooming in never widens the tolerance |
| HitTest.CenterOf | components/MapDisplay.tsx:44-59 | A Leg end resolves to a centre exactly when the first element with that id is a point symbol |
| HitTest.DanglingLegNeverHit | utils/geometry.ts:90-97 | A Leg with an end that does not resolve to a point symbol is never hit |
| HitTest.LastHit | utils/geometry.ts:65-77 | A backward scan returns the last accepted index before n, or none when no index is accepted |
| HitTest.HitIndex | utils/geometry.ts:54-101 | The index found is in range |
| HitTest.HitIndexSound | utils/geometry.ts:54-101 | Point symbols beat Areas and Areas beat Legs; within a pass the topmost, last-drawn element wins; nothing is returned only when nothing is hit |
| HitTest.ElementAtPoint | utils/geometry.ts:54-101 | The element returned is in the course and hit; an Area or Leg is returned only when no point symbol is hit, a Leg only when no Area is either; the element is the last hit of its pass |
| HitTest.ScanBackward | utils/geometry.ts:65-77 | One of the source's backward loops returns the last accepted element |
| HitTest.GetElementAtPoint | utils/geometry.ts:54-101 | The three backward loops compute the same element as the pass-by-pass definition |
| HitTest.PickConnectable | App.tsx:362-377 | The Leg tool takes the first point symbol in course order whose test accepts the click, and nothing exactly when none does |
| HitTest.FirstPointHit | App.tsx:366-377 | The first index the point-symbol test accepts, with none before it |
| HitTest.OverlappingSymbolsPickedDifferently | App.tsx:366-377 | For two overlapping symbols, selecting takes the top one and the Leg tool takes the bottom one |
| HitTest.OverlapExample | utils/geometry.ts:65-77 | Two Controls one unit apart both accept a click half-way, and the two tools pick different ones |
| HitTest.NearControlHit | utils/geometry.ts:67-69 | At zoom 1 and default multipliers a Control takes any click within 20 units of its centre |
| Orientation.OtherEnd | App.tsx:50 | For a Leg touching the Start, the far end is an end of the Leg, and the Start and the far end are together the Leg's two ends |
| Orientation.Connected | App.tsx:39-59 | The collected elements are all of the wanted kind and in the course, and every touching Leg whose far end resolves to that kind contributes it |
| Orientation.ConnectedSound | App.tsx:49-59 | Every collected element is the far end of a touching Leg |
| Orientation.ConnectedIff | App.tsx:39-59 | An element is collected exactly when a Leg joins it to the Start and it is of the wanted kind |
| Orientation.FirstLowestNumber | App.tsx:63-65 | The stable sort's first Control is the lowest-numbered one, the earliest among ties |
| Orientation.FirstSmallestId | App.tsx:66-68 | The sort's first Finish has the least id, the earliest among equal ids |
| Orientation.IdBeforeIrreflexive | App.tsx:67 | No id sorts before itself |
| Orientation.IdBeforeTotal | App.tsx:67 | Of two distinct ids exactly one sorts first |
| Orientation.IdBeforeTransitive | App.tsx:67 | The id order is transitive |
| Orientation.OrientationTarget | App.tsx:38-77 | A Start has no target exactly when no Leg joins it to a Control or a Finish; a target is a Control or a Finish |
| Orientation.TargetChoice | App.tsx:61-69 | The target is the first lowest-numbered connected Control; only when no Control is connected, the first least-id connected Finish |
| Orientation.TargetIsBestConnected | App.tsx:61-69 | The target is connected, no connected Control has a lower number, and a Finish is chosen only when no Control is connected and no connected Finish has a smaller id |
| Orientation.UntouchedStartHasNoTarget | App.tsx:44 | A Start that no Leg touches has no target, so its angle is 0 |
| Orientation.FindIgnoresStartRotations | App.tsx:51 | Looking up an id gives the same answer in courses that differ only in their Starts' angles |
| Orientation.ConnectedIgnoresStartRotations | App.tsx:39-59 | The connected elements do not depend on the Starts' angles |
| Orientation.TargetIgnoresStartRotations | App.tsx:38-77 | A Start's target does not depend on the angles stored on Starts |
| Orientation.RotationIgnoresStartRotations | App.tsx:38-77 | A Start's angle does not depend on the angles stored on Starts, so re-orienting in any order gives the same angles |
| Orientation.ControlTieBreakExample | App.tsx:63-65 | Of two connected Controls with the same number, the one reached by the earlier Leg is the target |
| Orientation.FinishTieBreakExample | App.tsx:66-68 | With no Control connected, the Finish whose id sorts first is the target, whatever the Leg order |
| ControlOrder.Insert | App.tsx:514 | Inserting into a sorted list of Controls keeps it sorted, and adds exactly the one element |
| ControlOrder.SortByNumber | App.tsx:514 | The sort by number is ordered, a permutation of its input, and stable: for each number, the Controls carrying it keep their input order |
| ControlOrder.InsertTies | App.tsx:514 | Inserting a Control puts it ahead of the Controls already numbered like it, and keeps their order |
| ControlOrder.SortKeepsElements | App.tsx:514 | Sorting keeps exactly the same elements |
| ControlOrder.HeadIsLeast | App.tsx:514 | The head of a sorted list has the least number |
| ControlOrder.IndexOfId | App.tsx:517 | The first index with the id, or none exactly when no element has it |
| ControlOrder.IndexOfMember | App.tsx:517 | With unique ids, a Control is found at its own position in the sorted list |
| Cascade.WithoutId | App.tsx:485 | The elements kept are exactly those without the deleted id; the order is stated by `WithoutIdConcat` |
| Cascade.WithoutIds | App.tsx:509 | The elements kept are exactly those whose id is not in the removed set; the order is stated by `WithoutIdsConcat` |
| Cascade.WithoutIdConcat | App.tsx:485 | Filtering out an id keeps course order: it distributes over concatenation and keeps a single element exactly when its id differs |
| Cascade.WithoutIdsConcat | App.tsx:509 | Filtering out a set of ids keeps course order in the same way |
| Cascade.DirtyStarts | App.tsx:486-510 | Every Start marked for re-orientation is, in the course before the deletion, a Start; which ones are marked is stated by `DirtyStartsExactly` |
| Cascade.RenumberedControlReadsBack | App.tsx:515-525 | A renumbered Control's number is its place in the sorted Controls counting from 1, its column A reads back by `parseInt` as that number, and it stays where it was |
| Cascade.DeleteSelected | App.tsx:480-532 | With no selection, nothing changes; otherwise the course becomes the cascade's result, the selection is cleared and the map name is kept |
| CascadeProperties.Shape | App.tsx:513-529 | Blanking number, description and angle keeps each element's id, kind and centre |
| CascadeProperties.UniqueSameId | App.tsx:484 | With unique ids, two members with the same id are the same element |
| CascadeProperties.WithoutIdUnique | App.tsx:485 | Removing an id keeps ids unique |
| CascadeProperties.WithoutIdsUnique | App.tsx:509 | Removing a set of ids keeps ids unique |
| CascadeProperties.ControlsUnique | App.tsx:514 | The Controls of a course with unique ids have unique ids |
| CascadeProperties.HasPointTransfer | App.tsx:513-529 | A point symbol with an id is still there after renumbering or re-orientation |
| CascadeProperties.NoDanglingTransfer | App.tsx:513-529 | Renumbering and re-orientation leave no Leg dangling that was not dangling before |
| CascadeProperties.UniqueTransfer | App.tsx:513-529 | Renumbering and re-orientation keep ids unique |
| CascadeProperties.RenumberShape | App.tsx:513-526 | Renumbering changes only numbers and column A |
| CascadeProperties.ReorientShape | App.tsx:527-529 | Re-orientation changes only Starts' angles |
| CascadeProperties.DeleteShape | App.tsx:480-532 | The cascade's result lines up element by element with the survivors, changed only in numbers, column A and angles |
| CascadeProperties.LegIdMembership | App.tsx:497-509 | An element's id is among the removed Legs' ids only if it is one of those Legs |
| CascadeProperties.SurvivorsUnique | App.tsx:485-510 | The survivors have unique ids and come from the course |
| CascadeProperties.SurvivorsExactly | App.tsx:485-510 | An element survives exactly when it is not the deleted one and is not a Leg referencing a deleted point symbol |
| CascadeProperties.SurvivorsNoDangling | App.tsx:496-510 | Removing a point symbol with the Legs that reference it leaves no Leg dangling |
| CascadeProperties.EndSurvives | App.tsx:496-510 | Each end of a surviving Leg is a surviving point symbol |
| CascadeProperties.DeleteLeavesNoDanglingLegs | App.tsx:480-532 | Deleting any element from a consistent course leaves no Leg with a missing end, and ids unique |
| CascadeProperties.DeleteRemovesReferences | App.tsx:485-510 | Nothing with the deleted id remains; after a point symbol is deleted, no Leg names it |
| CascadeProperties.ControlsOfMap | App.tsx:515 | A kind-preserving map commutes with taking the Controls |
| CascadeProperties.MapCons | App.tsx:515 | Mapping distributes over a leading element |
| CascadeProperties.RenumberIsDense | App.tsx:513-526 | After renumbering, the Controls are numbered 1..N without gaps or repeats; column A is each number's text; the relative order of distinct numbers is kept |
| CascadeProperties.ControlsOfReorient | App.tsx:527-529 | Re-orientation does not touch the Controls |
| CascadeProperties.DeleteControlUnfolds | App.tsx:513-529 | Deleting a Control renumbers the survivors, then re-orients |
| CascadeProperties.DeleteControlRenumbers | App.tsx:513-526 | After a Control is deleted the rest are numbered 1..N, in their previous order |
| CascadeProperties.DeleteControlWritesColumnA | App.tsx:520-521 | After a Control is deleted, each remaining Control's column A is its new number's text |
| CascadeProperties.ReorientOrientsDirty | App.tsx:527-529 | Each marked Start gets the angle of the course after re-orientation |
| CascadeProperties.ReorientedStart | App.tsx:528 | One marked Start gets the angle of the course after re-orientation |
| CascadeProperties.DeleteUnfolds | App.tsx:480-532 | The cascade is filter, then renumber for a Control, then re-orient |
| CascadeProperties.DeleteOrientsDirtyStarts | App.tsx:527-529 | Each Start the cascade touched points at its target in the course after the deletion |
| CascadeProperties.DirtyStartsExactly | App.tsx:486-510 | A Start is marked for re-orientation exactly when it is an end of the deleted Leg, or the far end of a Leg removed with the deleted point symbol, ends being looked up in the course before the deletion |
| CascadeProperties.DeleteOrientsAffectedStarts | App.tsx:486-529 | Every Start at an end of the deleted Leg, or at the far end of a removed Leg, points at its target in the course after the deletion |
| CascadeProperties.DeleteChangesOnlyCascade | App.tsx:480-532 | Nothing else changes: each element is its survivor, with at most a touched Start's angle, or a Control's number and column A after a Control deletion, changed |
| CascadeProperties.DeleteNonControlKeepsControls | App.tsx:513 | Deleting anything but a Control leaves the Controls exactly as they were |
| CascadeProperties.ControlsOfWithoutId | App.tsx:485 | Removing an id no Control has keeps the Controls |
| CascadeProperties.ControlsOfWithoutIds | App.tsx:509 | Removing ids no Control has keeps the Controls |
| Editing.ControlsOfAppend | App.tsx:357 | Appending adds the new element to the Controls only when it is a Control |
| Editing.HasPointGrows | App.tsx:383 | Appending keeps every point symbol present |
| Editing.AppendKeeps | App.tsx:353-383 | Appending keeps Legs' ends present when a new Leg's ends are present, and keeps ids unique when the new id is fresh |
| Editing.Place | App.tsx:351-360 | A new element goes last and is selected; ids stay unique, Legs stay resolved, and the Controls change only for a new Control |
| Editing.PlaceStart | App.tsx:351-353 | The Start tool appends an upright Start at the click and selects it; Legs stay resolved, the Controls are unchanged, and ids stay unique for a fresh id |
| Editing.PlacedStartIsOriented | App.tsx:352 | A new Start touches no Leg, so its angle 0 is the one the course calls for |
| Editing.NextControlNumber | App.tsx:355 | The next number is at least 1 and above every existing number in a densely numbered course |
| Editing.PlaceControl | App.tsx:354-357 | The Control tool numbers the new Control N+1, writes that number to column A, and keeps the numbering 1..N dense |
| Editing.AppendNextControl | App.tsx:355-357 | Appending Control N+1 to a course numbered 1..N keeps it numbered without gaps |
| Editing.PlaceFinish | App.tsx:358-360 | The Finish tool appends a Finish at the click and selects it; Legs stay resolved, the Controls are unchanged, and ids stay unique for a fresh id |
| Editing.CloseArea | App.tsx:639-644 | Enter closes a draft of three or more corners into an Area and clears the draft; a shorter draft changes nothing |
| Editing.OrientEndKeeps | App.tsx:384-390 | Re-orienting one end of a new Leg changes only that Start's angle, to the one the course then calls for |
| Editing.AddLegOrientsEnds | App.tsx:381-391 | The course after a new Leg is the course with the Leg appended, with each Start end pointing at its target in the final course |
| Editing.TwoStepOrient | App.tsx:384-390 | A Start oriented by the first end's pass keeps a correct angle after the second pass |
| Editing.AddLegKeepsCourseConsistent | App.tsx:381-391 | A Leg between two present point symbols with a fresh id keeps ids unique, Legs resolved and numbering dense |
| Editing.ControlsOfOrientEnd | App.tsx:384-390 | Re-orienting a Leg end does not touch the Controls |
| Editing.LegClickAsWritten | App.tsx:378-395 | The Leg tool as written: a miss clears the first end; with no first end, or an empty one, the click picks the clicked symbol; a click on another symbol adds the Leg from the remembered first end, whether or not that end is still in the course, and clears it; a second click on the same symbol changes nothing; the course changes only by that Leg |
| Editing.StaleLegStartLeavesDanglingLeg | App.tsx:379-393 | After the remembered first end is deleted, a second click adds a Leg to a missing element |
| Editing.DeleteLoneStart | App.tsx:480-532 | Deleting a Start no Leg touches leaves the other element alone |
| Editing.LegToMissingStart | App.tsx:381-391 | A Leg from a missing id is appended and dangles |
| Editing.LegClick | App.tsx:378-395 | The corrected Leg tool: as written while the first end is still a point symbol of the course; a first end that is not, like no first end, is replaced by the clicked symbol; otherwise a click on another symbol adds the Leg |
| Editing.LegClickKeepsCourseConsistent | App.tsx:378-395 | With the first end checked, a Leg tool click keeps the course consistent |
| Editing.UpdateElementPosition | App.tsx:275-295 | A move changes only the element with the id: an Area takes new corners, a point symbol a new centre, a moved Start its new angle; kinds, ids and Legs are unchanged |
| Editing.SkeletonKeeps | App.tsx:275-295 | Courses with the same kinds, ids, numbers and Legs agree on unique ids, resolved Legs and dense numbering |
| Editing.SkeletonControls | App.tsx:275-295 | Same-skeleton courses have Controls with the same numbers in the same order |
| Editing.MoveKeepsCourseConsistent | App.tsx:275-295 | A move keeps the course consistent |
| Editing.MoveOrientsMovedStart | App.tsx:284-288 | A moved Start has the angle that the course after the move calls for |
| Editing.MovedStartAgainstFinal | App.tsx:285-287 | The angle computed against the course with only the Start moved is the one the final course calls for |
| Editing.SingleLegTarget | App.tsx:38-77 | A Start joined by one Leg to one Control points at it |
| Editing.MovingControlLeavesStartStale | App.tsx:275-295 | Moving a Control re-orients no Start, so a Start pointing at it keeps an angle the course no longer calls for |
| Editing.SingleLegOriented | App.tsx:38-77 | In a course of a Start, a Control and a Leg, the Start is oriented exactly when its angle is toward the Control |
| Editing.MoveControlExample | App.tsx:275-295 | Moving the Control of that course changes only the Control |
| CourseLoading.Sanitize | App.tsx:569-585 | Each saved element keeps its id and kind; a missing description becomes the default for the Control's number, a missing angle becomes 0; everything else is kept |
| CourseLoading.MapSaved | App.tsx:569 | Every saved element is sanitised, in order |
| CourseLoading.LoadElements | App.tsx:569-588 | Loading keeps the element count |
| CourseLoading.LoadCourse | App.tsx:568-590 | A file without an element array loads nothing; otherwise the loaded course, nothing selected, and the file's map name |
| CourseLoading.LoadOrientsEveryStart | App.tsx:588 | Every loaded Start points where the loaded course says; each element keeps its id and kind, and the rest are as sanitised |
| CourseLoading.Save | App.tsx:548-554 | Saving writes every element |
| CourseLoading.Unsanitize | App.tsx:549-550 | Saving keeps each element's id |
| CourseLoading.LoadAfterSave | App.tsx:548-590 | Loading what was saved gives the course back with the selection cleared, when every Start was oriented |
| DescriptionExport.Escape | App.tsx:542 | Escaping never shortens a text and leaves a text without quotes unchanged |
| DescriptionExport.QuoteField | App.tsx:542 | A field is written between double quotes, a missing value as empty |
| DescriptionExport.DescriptionValues | App.tsx:542 | A row has eight values, column A first and column H last |
| DescriptionExport.ExportedControls | App.tsx:538-539 | The exported Controls are exactly the course's Controls, ordered by number |
| DescriptionExport.DescriptionRows | App.tsx:542 | One row per Control, holding its description's eight columns |
| DescriptionExport.ExportDescriptions | App.tsx:537-543 | There is no export exactly when the course has no Control |
| DescriptionExport.ParseQuotedBody | App.tsx:542 | Reading a quoted field consumes input |
| DescriptionExport.ParseField | App.tsx:542 | Reading a field consumes input |
| DescriptionExport.ParseRow | App.tsx:542-543 | Reading a line consumes input |
| DescriptionExport.QuotedBodyRoundTrip | App.tsx:542 | An escaped text followed by a closing quote reads back as the text |
| DescriptionExport.FieldRoundTrip | App.tsx:542 | A written field reads back as its value |
| DescriptionExport.RowRoundTrip | App.tsx:542-543 | A written line reads back as its values |
| DescriptionExport.RecordsRoundTrip | App.tsx:543 | Written lines read back as the rows |
| DescriptionExport.ExportReadsBack | App.tsx:537-543 | An export is the header line, then text that reads back as the description columns of the Controls in number order |
| DescriptionExport.EscapeExample | App.tsx:542 | A quote is doubled, and a missing value is written as two quotes |
| UndoHistory.New | hooks/useHistory.ts:14-16 | A fresh history shows its one snapshot and can neither undo nor redo |
| UndoHistory.Current | hooks/useHistory.ts:81-94 | The shown snapshot is the log entry at the index, or the creation state when the index is out of range |
| UndoHistory.Amend | hooks/useHistory.ts:19-41 | Overwriting replaces only the shown snapshot, by the update applied to it, and leaves an out-of-range history alone |
| UndoHistory.Commit | hooks/useHistory.ts:42-60 | A commit keeps the snapshots up to the shown one, appends the update applied to it, shows it, and drops redo |
| UndoHistory.Undo | hooks/useHistory.ts:64-68 | Undo steps back exactly when it can, and keeps the log |
| UndoHistory.Redo | hooks/useHistory.ts:70-74 | Redo steps forward exactly when it can, and keeps the log |
| UndoHistory.Reset | hooks/useHistory.ts:76-79 | Reset leaves one snapshot, shown, with nothing to undo or redo |
| UndoHistory.UndoThenRedo | hooks/useHistory.ts:64-74 | Redo undoes an undo |
| UndoHistory.RedoThenUndo | hooks/useHistory.ts:64-74 | Undo undoes a redo |
| UndoHistory.UndoAfterCommit | hooks/useHistory.ts:42-68 | Undo right after a commit shows what was shown before it, and redo comes back to the commit |
| UndoHistory.UndoAfterAmendsCommit | hooks/useHistory.ts:19-68 | After amends and a commit, undo shows the amended snapshot, not the one before the amends |
| UndoHistory.CommitDropsRedo | hooks/useHistory.ts:42-60 | A commit after an undo drops the snapshot that could have been redone |
| UndoHistory.Commits | hooks/useHistory.ts:42-60 | k commits advance the index by k and keep the log up to the starting point |
| UndoHistory.UndoNSteps | hooks/useHistory.ts:64-68 | k undos within range step back k |
| UndoHistory.RedoNSteps | hooks/useHistory.ts:70-74 | k redos within range step forward k |
| UndoHistory.CommitsUndoRedo | hooks/useHistory.ts:42-74 | k commits then k undos show the snapshot from before, and k redos come back |
| UndoHistory.Amends | hooks/useHistory.ts:19-41 | Any number of amends change only the shown snapshot |
| UndoHistory.AmendsThenIdentityCommit | hooks/useHistory.ts:19-60 | Amends and one identity commit leave two copies of the amended snapshot, and the pre-amend snapshot is gone |
| UndoHistory.AmendsShowAll | hooks/useHistory.ts:19-41 | After amends, the shown snapshot is the old one with every update applied in order |
| UndoHistory.ApplyAllSnoc | hooks/useHistory.ts:19-41 | Applying updates and then one more is applying that one to the result |
| Session.MoveUpdates | App.tsx:420-430 | One move update per mouse position |
| Session.FixStart | App.tsx:436-444 | The mouse-up fix changes only the dragged Start's angle, to the one the course calls for |
| Session.SelectForDrag | App.tsx:338-340 | Pressing on an element selects it as a commit, unless it is already selected |
| Session.Deselect | App.tsx:338-340 | A press on empty space shows the same course with nothing selected; when something was selected this is a commit that undo takes back |
| Session.DragAsWritten | App.tsx:333-449 | The drag as written: a press on a Leg only selects; on a point symbol or an Area it amends per move and commits on release, even without a move, so the log grows by one past the selection |
| Session.DragAsWrittenUndoShowsDrag | App.tsx:433-449 | Undo after a drag as written shows the dragged course, not the course before the drag |
| Session.DragUndoCounterexample | App.tsx:275-296 | A Finish dragged to a new point is still at that point after undo |
| Session.Drag | App.tsx:333-449 | The corrected drag: a press on a Leg only selects, as in the program; without a move it is the program's drag; with moves it shows the same course as the program's drag |
| Session.CopyFirst | hooks/useHistory.ts:19-60 | Committing a copy before the amends instead of after them shows the same snapshot at the end, and is the same history when there are no amends |
| Session.DragUndoRestores | App.tsx:420-449 | Undo after the corrected drag of a point symbol or an Area shows the course from before the drag, and redo returns to the drag |
| Session.Step | App.tsx:305-449 | The corrected editor, with the checked Leg tool and the corrected drag, leaves a well-formed history; what it keeps is stated by `StepKeepsHistoryOk` |
| Session.LegToolStep | App.tsx:378-395 | A Leg tool click leaves a well-formed history and the Area draft untouched |
| Session.StepIn | App.tsx:305-449 | Every editor action, in either variant, leaves a well-formed history |
| Session.StepAsWritten | App.tsx:305-449 | The program's editor leaves a well-formed history; where it parts from `Step` is stated by `StepsAgree` |
| Session.StepsAgree | App.tsx:305-449 | The program's editor and the corrected one do the same for every action but a press and a Leg tool click; a press shows the same course, and without a move is the same; a Leg tool click is the same unless the first end has left the course |
| Session.StepAsWrittenBreaksHistoryOk | App.tsx:378-395 | From a consistent one-Control course and a fresh Leg id, the program's editor commits a dangling Leg when the first end was deleted |
| Session.ClickOnControl | App.tsx:362-377 | A Leg tool click at zoom 1 on the centre of a lone Control picks it |
| Session.LoneControlOk | types.ts:49-58 | A course of one Control numbered 1 is consistent |
| Session.CommitKeepsOk | hooks/useHistory.ts:42-60 | A commit of a consistent course keeps every snapshot consistent |
| Session.AmendsKeepOk | hooks/useHistory.ts:19-41 | Amends that keep courses consistent keep every snapshot consistent |
| Session.MoveKeepsOk | App.tsx:275-295 | A move keeps any consistent course consistent |
| Session.FixKeepsOk | App.tsx:441 | The mouse-up fix keeps any consistent course consistent |
| Session.SelectKeepsOk | App.tsx:339 | Selecting keeps any consistent course consistent |
| Session.DragKeepsOk | App.tsx:420-449 | A drag keeps every snapshot consistent |
| Session.DeselectKeepsOk | App.tsx:338-340 | Clearing the selection keeps every snapshot consistent |
| Session.DeleteKeepsOk | App.tsx:480-532 | Deleting keeps a consistent course consistent, whatever is deleted |
| Session.StepKeepsHistoryOk | App.tsx:305-449 | Every action of the corrected editor, with fresh ids and a consistent loaded file, keeps every snapshot, and so every undo or redo, consistent; the program's editor does not, by `StepAsWrittenBreaksHistoryOk` |
| Session.CheckedLegClickNeverDangles | App.tsx:378-395 | With the first end checked, a Leg tool click never leaves a dangling Leg, even after deletions and undos |
| Rendering.ConnectableVisuals | components/MapDisplay.tsx:37-60 | A Leg end resolves exactly when it names a point symbol; it stops at the Control's radius, the Finish's outer radius, or the Start triangle's inscribed radius |
| Rendering.OnScreen | components/MapDisplay.tsx:83 | A screen size is at least its floor and at least the map size over the zoom, and equals one of them |
| Rendering.OutlineWidth | components/MapDisplay.tsx:82-83 | An outline is at least half a pixel and at least the scaled base width on screen |
| Rendering.StartCorners | components/MapDisplay.tsx:85-91 | The three corners of a Start have the Start's centre as their centroid |
| Rendering.LegSegment | components/MapDisplay.tsx:133-135 | A Leg is drawn between two points, each at its symbol's stopping radius plus the connection gap from that symbol's centre |
| Rendering.DrawStart | components/MapDisplay.tsx:79-93 | A Start is one closed triangle at its centre turned by its angle (0 when unset), in the selection colour when selected |
| Rendering.DrawControl | components/MapDisplay.tsx:95-114 | A Control is its circle and its number's text, centred above the circle by the gap |
| Rendering.ControlLabel | components/MapDisplay.tsx:103-113 | The label reads back as the Control's number and sits the gap above the circle |
| Rendering.LabelFontSize | components/MapDisplay.tsx:103-104 | The label is at least 6 pixels and at least the scaled base size on screen |
| Rendering.NumberText | components/MapDisplay.tsx:113 | The number's text reads back as the number |
| Rendering.DrawFinish | components/MapDisplay.tsx:116-125 | A Finish is two concentric circles, the inner two thirds of the outer, with one width and colour |
| Rendering.DrawLeg | components/MapDisplay.tsx:127-155 | A Leg is drawn exactly when both ends resolve; only a dashed Leg has a dash pattern; an uncrossable one is at least 0.7 wide |
| Rendering.DrawArea | components/MapDisplay.tsx:157-168 | An Area is drawn only with two or more corners, as its fill in the kind's colour and a closed outline |
| Rendering.DrawElement | components/MapDisplay.tsx:62-170 | Only a Leg with an unresolved end and an Area of fewer than two corners draw nothing |
| Rendering.StartCornersOnCircumcircle | components/MapDisplay.tsx:85-91 | Each corner of a Start lies at twice the Leg stopping radius from its centre |
| Rendering.PlacedDistance | components/MapDisplay.tsx:89-91 | Turning a corner about the centre keeps its distance to the centre |
| Rendering.LegStopsAtDrawnSymbol | components/MapDisplay.tsx:48-57 | A Leg stops at the drawn circle of a Control or Finish and at the inscribed circle of a Start |
| Rendering.ConsistentCourseDrawsEveryLeg | components/MapDisplay.tsx:127-155 | In a course without dangling Legs every Leg is drawn |
| Rendering.HittableLegIsDrawn | components/MapDisplay.tsx:127-155 | A Leg that can be clicked is drawn |
| Rendering.StaleLegIsInvisible | components/MapDisplay.tsx:132 | The dangling Leg from the stale first end is neither drawn nor clickable |
| Rendering.SelectionOnlyRecolours | components/MapDisplay.tsx:72 | Selecting changes only colours and widths, not shapes |
| Rendering.SymbolsNest | components/MapDisplay.tsx:116-125 | With a multiplier in range, the Finish's inner circle is inside its outer one and the number is above the Control's circle |
| SymbolSettings.ScaleChange | components/SymbolSettings.tsx:23-33 | Typed text is taken exactly when `parseInt` reads a number from 1 to 10, and that number is taken |
| SymbolSettings.NumberInputBlur | components/SymbolSettings.tsx:35-53 | Leaving the input keeps the value for empty text, else gives 1 for non-numbers and low values, 10 for high ones, the number otherwise |
| SymbolSettings.BlurStaysInRange | components/SymbolSettings.tsx:35-53 | Whatever is typed, leaving the input keeps the multiplier in 1..10 |
| SymbolSettings.BlurConfirmsChange | components/SymbolSettings.tsx:23-53 | A value taken while typing is the value leaving the input keeps |
| SymbolSettings.BlurOfShownValue | components/SymbolSettings.tsx:23-53 | The shown value is taken back unchanged while typing and on leaving |
| SymbolSettings.Set | App.tsx:115-123 | Setting one multiplier changes that one only |
| SymbolSettings.TypeInto | components/SymbolSettings.tsx:23-33 | Typing keeps the multipliers in range, and rejected text changes nothing |
| SymbolSettings.LeaveInput | components/SymbolSettings.tsx:35-53 | Leaving an input keeps the multipliers in range and changes only that input's |
| SymbolSettings.DefaultsInRange | App.tsx:110-113 | The default multipliers are in range |
| ScaleSettingsForm.HandleApply | components/ScaleSettings.tsx:32-59 | No scale always applies; a ratio applies exactly when `parseInt` gives a positive number; a measured length applies exactly when both lengths are positive numbers, and otherwise alerts about the meters or the pair |
| ScaleSettingsForm.FormOf | components/ScaleSettings.tsx:19-30 | The form shows the settings' mode |
| ScaleSettingsForm.ApplyFilledForm | components/ScaleSettings.tsx:19-59 | Applying the form as filled from valid settings hands back the same settings |
| ScaleSettingsForm.MeasuredLengthNeedsMeters | components/ScaleSettings.tsx:48-51 | A measured length with no meters typed gets the meters alert |
| ScaleSettingsForm.RatioReadsLeadingDigits | components/ScaleSettings.tsx:35-41 | Ratios 0 and -5 are refused; "12 m" is read as 12 |

## Left out

- **Not modelled:**
  - Reading and writing files, JSON parsing, data-URL and Blob building, and the download links.
  - The file-name rewriting regex for export names.
  - Rendering a PDF map and exporting a PDF.
  - The canvas itself: drawing is modelled as a list of primitives.
  - Panning, zooming with the wheel or buttons, and the measured reference line.
  - The course-length display.
  - Editing a control description.
  - The Escape key.
  - Colours, which are kept as symbolic inks.
- **Number representation:**
  - Numbers are `real`, not doubles. Rounding, `NaN` and infinities are not modelled.
  - `Math.PI / 2` is the constant `HalfPi`.
- **Transcendentals:** the square root, `atan2`, `cos` and `sin` are parameters. The model does not depend on their values, except through `SqrtSound` where a lemma needs it.
- **Assumed inputs:** zoom is required to be positive. The program clamps it to 0.1..10.
- **Sort stability:** `Array.prototype.sort` is assumed stable, as in every current engine. `ControlOrder.SortByNumber` proves that ties keep their original order.
- **Id order:**
  - `localeCompare` is modelled as code-point order on ids.
  - The two orders do not agree on every id: ICU's `localeCompare` puts `_` before digits, and code-point order puts it after.
  - They agree on generated ids, because `el_${Date.now()}_…` (App.tsx:24) puts each `_` at the same place in every id, so a `_` is only ever compared with another `_`.
  - Ids in a loaded file may be ordered differently by the program.
- **Timing:** React's batching, closure staleness and effect timing are not modelled. Each action sees the snapshot the history shows.
- **Ids and random sources:**
  - `generateId` uses the clock and randomness, so ids are inputs.
  - Lemmas that need freshness require it.
- **parseFloat:** it is a parameter that gives `None` where the program gets `NaN`.
- **Unused parameter:** `getRotationAngleForStart` takes `startSymbolScaleUI` and never uses it, so the model drops the parameter.
- **Leg drags:** pressing on a Leg with the select tool only selects it, in the program and in both model drags.
- Session.FixStart: the program's mouse-up maps every element with the dragged id, whatever its kind. The model re-angles only Starts with that id. With unique ids, these are the same.
- HitTest.LastHit: states the scan for an arbitrary test. The per-pass tests are supplied by `HitIndex`.
- Orientation.RotationFor has no contract of its own. Its meaning is stated through `OrientationTarget`, `TargetChoice` and `TargetIsBestConnected`.
- CourseLoading.LoadElements: states only the length. The contents are stated by `LoadOrientsEveryStart`.
- ScaleSettingsForm.FormOf: states only the mode. What the form reads back to is stated by `ApplyFilledForm`.
- Session.Step: models the corrected editor, not the program: its Leg tool checks the first end and its drag commits before amending. It states only that the history stays well formed; what it keeps is stated by `StepKeepsHistoryOk`.
- Session.StepKeepsHistoryOk: holds for the corrected editor only. The program's editor, `StepAsWritten`, breaks it (`StepAsWrittenBreaksHistoryOk`).
- Session.StepAsWritten: states only that the history stays well formed. How it differs from `Step` is stated by `StepsAgree`.
- Session.DragAsWritten: decides whether a press starts a move from the first element with the pressed id, as the program's mouse-move and mouse-up do. The program's mouse-down decides from the pressed element itself. The two agree when ids are unique. Its undo behaviour is stated by `DragAsWrittenUndoShowsDrag`.
- Session.Drag: decides whether to move in the same way as `DragAsWritten`. Its undo behaviour is stated by `DragUndoRestores`.
- Session.LegToolStep: states only that the history stays well formed and the draft is kept. Its meaning is stated by `StepsAgree` and `StepAsWrittenBreaksHistoryOk`.
- Session.StepIn: states only that the history stays well formed. Its meaning is stated by `StepsAgree` and `StepKeepsHistoryOk`.
- HitTest.HitIndex: states only that the index is in range. The pass priority is stated by `HitIndexSound`.
- CourseLoading.Save: states only the element count. That loading reads it back is stated by `LoadAfterSave`.
- CourseLoading.Unsanitize: states only the id. The round trip is stated by `LoadAfterSave`.
- DescriptionExport.ParseQuotedBody: states only that input is consumed, for termination. Its meaning is stated by `QuotedBodyRoundTrip`.
- DescriptionExport.ParseField: states only that input is consumed. Its meaning is stated by `FieldRoundTrip`.
- DescriptionExport.ParseRow: states only that input is consumed. Its meaning is stated by `RowRoundTrip`.
- Decimal.ParseInt: states only that text without digits is not a number. That it reads back `toString` is stated by `ParseIntOfIntToString`.
- **Where the specification and the code differ, the model follows the code:**
  - Moving a Control or Finish re-orients no Start. See `Editing.MovingControlLeavesStartStale`.
  - After a Control deletion, a Control is rewritten when its number or its column A differs from its new position. The column A check is in the code but not the prose.
- **Id uniqueness:**
  - Renumbering looks Controls up by id.
  - The proofs about it assume unique ids, which every action in `Session.Step` keeps.

## Findings

| source | as written | input that shows it | evidently intended | confidence | as-written member | corrected member |
|---|---|---|---|---|---|---|
| App.tsx:275-296 | A drag overwrites the shown snapshot on each mouse move, then commits a copy on mouse-up. The snapshot from before the drag is lost. | A Finish at (0, 0), selected, dragged to (5, 5): after undo it is still at (5, 5) | Commit a copy first, then overwrite that copy, so that undo restores the position before the drag | not executed | Session.DragUndoCounterexample | Session.DragUndoRestores |
| App.tsx:379-393 | The Leg tool's remembered first end is never checked against the course. A Leg can be added to an element that was deleted or undone after the first click. | Click Start "a" with the Leg tool, delete "a", click Control "b": a Leg from missing "a" to "b" is added | Replace a first end that no longer names a point symbol with the clicked one | not executed | Editing.StaleLegStartLeavesDanglingLeg | Editing.LegClickKeepsCourseConsistent |
