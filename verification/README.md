# Footfall counter: line-crossing state machine

This project models, in Dafny, the counting core of a footfall counter that
watches tracked people in a video and counts how many cross a horizontal
counting line downwards (an *entry*) or upwards (an *exit*). The core is the
`FootfallCounter` object's state and its `update_counts` method:

- `track_history`: for every track id, the last 30 centroids (`TRACK_HISTORY_LENGTH`), oldest first;
- `counted_ids`: the track ids that have already been counted;
- `entry_count` and `exit_count`: the two running totals.

For each detection of a frame, `update_counts` appends the centroid to the
track's history (creating it if the id is new), drops the oldest sample once if
the history grew past 30, and, when the track has at least two samples and is not
yet counted, compares its previous and current y with the line: an Entry when
the previous y is strictly above the line and the current y is on or below it,
an Exit when the previous y is strictly below the line and the current y is on
or above it. A counted track is added to `counted_ids` and never counted again.

Everything lives in `footfall_counter.dfy`, module `Footfall`:

- `Classify` is the crossing predicate; `SideOf` (above / on / below the line)
  gives an independent formulation that `ClassifyBySides` compares it with.
- `Record` is the history update (append, then drop the oldest once);
  `Recent` is the reference "last 30 samples" window it is proved against.
- `Counts`, `Step` and `Run` describe the counter's state and the effect of one
  detection and of a frame's detections as values; `Inv` is the state invariant.
- `FootfallCounter` is the object itself: its four fields are updated in place by
  `UpdateCounts`, a loop over the detections whose body is `Observe`; both are
  proved to produce exactly the state `Run` / `Step` describe and to keep `Inv`.

The counting-line y comes from `int(frame_height * line_position)`
(footfall_counter.py:57), a floating-point product truncated to an integer; it
enters the model as the integer parameter `lineY` of `UpdateCounts`. Each
detection arrives as an integer track id and an integer centroid `(cx, cy)`.
Image y grows downwards, so "above the line" means `y < lineY`.

Detections are processed in list order, as the loop at footfall_counter.py:59
does. `StepCommutes` shows that detections of different tracks may be swapped
without changing the result; two detections of the same id in one list are
processed one after the other.

## Model

| member | source | states |
|---|---|---|
| `Footfall.Classify` | footfall_counter.py:74-81 | The crossing test: an Entry always moves down the frame (prevY < currY), an Exit always moves up (currY < prevY), and a previous sample lying on the line never starts a crossing |
| `Footfall.ClassifyBySides` | footfall_counter.py:73-81 | An Entry is reported exactly when the previous sample was strictly above the line and the current one is not; an Exit exactly when the previous one was strictly below and the current one is not; a previous sample on the line never starts a crossing |
| `Footfall.ClassifyDirection` | footfall_counter.py:70-81 | Entry means prevY < lineY <= currY and Exit means currY <= lineY < prevY, so the two exclude each other; a sample that did not move vertically, e.g. one on the line in two consecutive frames, never crosses |
| `Footfall.ClassifyMirror` | footfall_counter.py:74-81 | Turning the frame upside down (negating all y) turns every Entry into an Exit and back, and leaves "no crossing" alone: the strict-previous / inclusive-current tie-break is the same in both directions |
| `Footfall.ClassifyExamples` | footfall_counter.py:74-81 | 10→60 and 40→50 with the line at 50 are entries, 60→10 and 60→50 are exits, 10→40, 50→50 and 50→60 are not crossings |
| `Footfall.Record` | footfall_counter.py:64-66 | After appending a centroid the history ends with it, and a history of at most 30 samples stays at most 30 |
| `Footfall.RecordKeepsRecent` | footfall_counter.py:64-66 | Recording a sample into the last-30 window of a sample sequence gives the last-30 window of the extended sequence (FIFO eviction of the oldest) |
| `Footfall.ReplayIsRecent` | footfall_counter.py:64-66 | Recording a whole sequence of samples into a window keeps it equal to the last-30 window of all samples so far |
| `Footfall.HistoryWindow` | footfall_counter.py:64-66 | A history that starts empty holds exactly the most recent min(n, 30) samples, in order, newest last |
| `Footfall.Step` | footfall_counter.py:60-81 | One detection: the counted set only gains this detection's own id, and only if it was not counted before; each total rises by at most 1 and not both; the totals rise (by exactly 1) exactly when the counted set grows |
| `Footfall.Run` | footfall_counter.py:59-81 | A list of detections processed in order: the counted set only grows and neither total decreases |
| `Footfall.StepHistories` | footfall_counter.py:59-66 | One detection records its centroid in its own track's history (creating it if new) and leaves every other track's history unchanged |
| `Footfall.StepCountsNewSample` | footfall_counter.py:64-81 | The check compares the centroid just appended with the sample before it: Entry is counted exactly when the track was seen before, is not counted yet and that move classifies as Entry; likewise Exit |
| `Footfall.StepFirstSampleNeverCounts` | footfall_counter.py:69 | The first detection of a track never changes the counts or the counted set |
| `Footfall.StepIgnoresCounted` | footfall_counter.py:69 | A detection of an already counted track never changes the counts or the counted set |
| `Footfall.StepPreservesInv` | footfall_counter.py:64-81 | One detection keeps entry + exit == number of counted ids, counted ids among the seen tracks, and every history at most 30 long |
| `Footfall.StepCommutes` | footfall_counter.py:59-81 | Detections of two different tracks give the same state in either order |
| `Footfall.RunPreservesInv` | footfall_counter.py:59-81 | Processing any list of detections keeps the invariant |
| `Footfall.RunPaysPerId` | footfall_counter.py:59-81 | Over any list of detections the totals grow by exactly the number of newly counted ids, so no id is ever paid for twice |
| `Footfall.RunCountedIffCrossed` | footfall_counter.py:64-81 | A track not yet counted becomes counted during a run exactly when, among its last recorded sample followed by its centroids in the run, some two consecutive samples cross the line |
| `Footfall.CountedIffCrossedFromInitial` | footfall_counter.py:24-81 | From the empty state a track is in the counted set exactly when two of its consecutive centroids crossed the line |
| `Footfall.StepCountedIffCrossed` | footfall_counter.py:64-81 | If a track's counted status so far matches whether its sample sequence crosses somewhere, the same holds after one more detection of it, with the new centroid appended |
| `Footfall.RunLastSample` | footfall_counter.py:64-66 | After a run a track's newest recorded sample is the newest of its previous last sample and its centroids in the run |
| `Footfall.ReplayLast` | footfall_counter.py:64-66 | After recording samples, the history's newest entry is the newest of all samples recorded, and it is empty only if nothing was ever recorded |
| `Footfall.RunIgnoresCounted` | footfall_counter.py:69-81 | Detections of already counted tracks, however often they recross the line, leave the counts and the counted set unchanged |
| `Footfall.RunHistory` | footfall_counter.py:59-66 | A track's history after a run is its old history with that track's own centroids recorded in order, and it exists exactly when it existed or the track was detected |
| `Footfall.RunHistoryFromInitial` | footfall_counter.py:24-66 | From the empty state, every track's history is the most recent 30 centroids reported for it, in order |
| `Footfall.RunSplit` | footfall_counter.py:59-81 | Processing two lists one after the other equals processing their concatenation |
| `Footfall.Scenario` | footfall_counter.py:55-81 | Track 7 at y = 20, 50, 90, 110, 130, 80 with the line at 100: nothing is counted through 90, the single Entry happens at the 90→110 move (counted ids {7}), and the later samples, including the move back to 80, add nothing; final totals entry 1, exit 0, occupancy 1 |
| `Footfall.FootfallCounter.constructor` | footfall_counter.py:24-27 | A new counter has no histories, no counted ids and both totals at 0, and satisfies the invariant |
| `Footfall.FootfallCounter.UpdateCounts` | footfall_counter.py:55-81 | The fields end up exactly as `Run` describes for the detections in order, the invariant is kept, counted ids only grow and neither total decreases |
| `Footfall.FootfallCounter.Observe` | footfall_counter.py:60-81 | One iteration of the loop updates the fields exactly as `Step` describes and keeps the invariant |
| `Footfall.FootfallCounter.Occupancy` | footfall_counter.py:130 | Entries minus exits, not clamped; its absolute value never exceeds the number of counted ids |

## Left out

- Object detection and tracking (`detect_and_track`, footfall_counter.py:29-53) and the YOLO model set-up (line 22): calls into a foreign library. Detections enter the model as integer track ids and integer centroids; the float-to-int centroid computation is not modelled.
- The counting-line computation `int(frame_height * line_position)` (line 57) and the `line_position` field (line 23): a floating-point multiply and truncation, replaced by the integer parameter `lineY`.
- Drawing (`draw_visualizations`, `draw_counts`, lines 83-133): rendering only; the occupancy it displays is `FootfallCounter.Occupancy`.
- `main` (lines 135-214): video capture, display, key handling and console output.
- The Python lists in `track_history` are mutated in place; the model stores each history as an immutable sequence in a map that is reassigned, which is observably the same because nothing else holds a reference to those lists.
