# smart_table: position recognition, mask geometry and the table node

A Dafny model of the core of the smart tactile table. The table reads a
16 x 16 grid of pressure values. It tells whether an item rests on it and
where: on the edge, on a side, or in the center.

The model covers three parts of the code:

- **Position recognition** (`item/classifier/position_recognition.py`):
  - the image centroid from raster moments;
  - the histogram of mean weight against rounded distance from the centroid, with its gap filling;
  - the histogram peak with its tie-break rules;
  - the distance from the centroid to the table border;
  - the split of the image weight by a mask;
  - the four-step edge test;
  - the sides of the table from the last mask column;
  - the final edge / side / center decision.
- **Mask geometry** (`sensor/params.py`):
  - the `mask_borderer` erosion, proved against a cell-by-cell definition;
  - the `ImageMask` constants: quarter-turn rotation, zero-ring padding, and one and two erosions.
- **The table node** (`nodes/table.py`):
  - the status machine driven by the `sgn_on` and `sgn_calibrate` signals and the USB check;
  - the item-id counter;
  - `is_item_placed` and `get_predicted_weight`;
  - one pass of the run loop, and the loop over a finite run of passes.

Files:

- `grids.dfy`: grids, Option, numpy's row-major argmax and flatten, Python's round-half-to-even.
- `params.dfy`: padding, rotation, erosion, ImageMask.
- `position.dfy`: position recognition.
- `table.dfy`: the `TableNode` class.

Python exceptions are modelled as `None`:

- division by a zero moment;
- an odd or empty list of side edges;
- an image with no positive cell, for which the histogram cannot be built.

Distances are compared squared: `dist < 5.0` becomes `d2 < 25` and `dist <= peak + 2.0` becomes `d2 <= (peak + 2)^2`. This is exact for the unrounded distance; the source rounds the distance to two decimals first (see `GetDistanceToMask` under "## Left out"). The peak here is never negative.

A centroid exactly on a side boundary is `center`, because the comparisons at position_recognition.py:198 are strict; `PositionRecognition.SideOrCenter` states it.

## Model

| member | source | states |
|---|---|---|
| Grids.ArgMax | item/classifier/position_recognition.py:29 | the index holds the maximum and every earlier index holds less: numpy's first argmax |
| Grids.RoundHalfEven | item/classifier/position_recognition.py:19-23 | the result is within 0.5 of the value, and on a tie it is even (Python 3 `round`) |
| Grids.FlattenAt | item/classifier/position_recognition.py:121 | cell (r, c) of a rows x cols grid sits at position r * cols + c of the flattened grid |
| Grids.FlattenHasAbove | nodes/table.py:164-168 | a value above t occurs in the flattened grid exactly when some cell holds one |
| Params.Pad | sensor/params.py:39 | the padded grid is two larger each way, holds the original shifted by one, and has a zero outer ring |
| Params.PadCropRoundTrip | sensor/params.py:39 | removing the outer ring of the padded grid gives the original back |
| Params.PadKeepsNonZeros | item/classifier/position_recognition.py:49 | every non-zero cell of a padded grid is an original cell, shifted by one |
| Params.Rot270Twice | sensor/params.py:36 | two rot90(·, 3) turns are a half turn: cell (r, c) comes from (rows-1-r, cols-1-c) |
| Params.Rot270FourTimes | sensor/params.py:51 | four rot90(·, 3) turns give the grid back, so the rotation only moves cells |
| Params.Bordered | sensor/params.py:13-29 | the eroded mask keeps the shape, and each cell is 0 or the input's value |
| Params.MaskBorderer | sensor/params.py:13-29 | the nested loops writing into a copy return exactly the cell-wise erosion; the input is not changed |
| Params.InnerRingCleared | sensor/params.py:27-28 | every visited cell on the first or last visited row or column is 0 afterwards |
| Params.NeighbourOfZeroCleared | sensor/params.py:15-26 | a 0 read at a visited cell clears its whole 3 x 3 neighbourhood |
| Params.DeepInteriorSurvives | sensor/params.py:15-28 | two or more cells from the border, a cell stays non-zero exactly when its whole 3 x 3 input neighbourhood is non-zero, and it then keeps its value |
| Params.BorderedBelow | sensor/params.py:14-28 | on a non-negative mask the output is non-negative and pointwise at most the input |
| Params.BuildImageMask | sensor/params.py:32-52 | the five constants have shapes 16x16, 18x18 three times and 40x24; the bordered masks are one and two erosions of the padded mask |
| Params.ImageMaskLayout | sensor/params.py:33-52 | mask[i][j] = fill[15-j][i]; stretched[i][j] = fill[23-j][i]; e_mask is mask shifted by one inside a zero ring |
| Params.ImageMaskNested | sensor/params.py:39-46 | for a 0/1 fill, e_mask, e_bordered and e_2bordered are 0/1, e_2bordered <= e_bordered <= e_mask pointwise, and e_2bordered has a zero ring |
| PositionRecognition.MomentBounds | item/classifier/position_recognition.py:11-13 | on a non-negative image m00 >= 0, 0 <= m10 <= (cols-1)·m00 and 0 <= m01 <= (rows-1)·m00 |
| PositionRecognition.RoundTo2 | item/classifier/position_recognition.py:17-18 | within 0.005 of the value, and 100 times it is the value times 100 rounded half to even |
| PositionRecognition.GetImageCentroid | item/classifier/position_recognition.py:10-25 | None exactly when m00 is 0; the float centroid is m10/m00, m01/m00 rounded half to even at two decimals (so within 0.005); the int centroid is m10/m00, m01/m00 rounded half to even (so integral and within 0.5) |
| PositionRecognition.CentroidInsideImage | item/classifier/position_recognition.py:10-25 | the exact centroid of a non-empty non-negative image, and the int centroid, lie inside the image |
| PositionRecognition.FindHistogramPeak | item/classifier/position_recognition.py:28-45 | the peak is -1 or non-negative, and -1 only when `can_ret_none` |
| PositionRecognition.PeakInRange | item/classifier/position_recognition.py:28-45 | the peak is -1 or lies in [0, len(hist) - 1], possibly a half-integer between two tied buckets |
| PositionRecognition.PeakUnique | item/classifier/position_recognition.py:29-45 | a maximum held by one bucket gives that bucket, whatever `can_ret_none` is |
| PositionRecognition.PeakContiguous | item/classifier/position_recognition.py:33-43 | maxima forming one run s..e give the average index (s+e)/2, possibly a half-integer |
| PositionRecognition.PeakDisjoint | item/classifier/position_recognition.py:33-39 | maxima with a lower bucket between them give -1 when `can_ret_none`, else the largest tied index |
| PositionRecognition.PeakExamples | item/classifier/position_recognition.py:28-45 | [1,5,5,5,2] gives 2; [5,1,5,1,1] gives -1 or 2; [3,9,4] gives 1 |
| PositionRecognition.GapFilled | item/classifier/position_recognition.py:71-83 | one count per distance 0..max; positive counts stay positive, so every divisor is >= 1 |
| PositionRecognition.FillHistogramGaps | item/classifier/position_recognition.py:71-83 | the loop builds exactly GapFilled: buckets 0..max each get an entry; observed distances keep their count, missing ones get 1 |
| PositionRecognition.Uint16Round | item/classifier/position_recognition.py:87 | the stored value is in 0..65535; when the mean fits it is the mean rounded half to even, so within 0.5 of it |
| PositionRecognition.WeightHistogram | item/classifier/position_recognition.py:86-87 | one uint16 value per bucket: where the sum is non-negative and the mean fits, it is within 0.5 of sum / count and even on a tie (np.round) |
| PositionRecognition.PositiveCells | item/classifier/position_recognition.py:63-64 | the listed cells are exactly the positive cells of the image, each once, in row-major order (np.where(image > 0)) |
| PositionRecognition.PositiveCellsEmpty | item/classifier/position_recognition.py:63-69 | no cell is listed exactly when no cell of the image is positive |
| PositionRecognition.RoundSqrt | item/classifier/position_recognition.py:62-64 | the result is the integer nearest to the square root of d2, an even one on a tie |
| PositionRecognition.CellDistances | item/classifier/position_recognition.py:62-64 | one distance per cell, each in 0..255 after the uint8 cast |
| PositionRecognition.UniqueFrom | item/classifier/position_recognition.py:69 | values strictly increasing, each occurring, with its count (>= 1); every occurring value of the range is listed |
| PositionRecognition.UniqueCovers | item/classifier/position_recognition.py:69-75 | for uint8 distances the values are not empty, and the largest bounds every distance and occurs |
| PositionRecognition.HistogramBinIsValue | item/classifier/position_recognition.py:86 | `np.histogram` with max + 1 bins over (0, max) puts an integer distance d into bin d |
| PositionRecognition.BinSumIsSumAt | item/classifier/position_recognition.py:86 | each bin's weight sum is the sum of the weights at that distance |
| PositionRecognition.GapFilledCounts | item/classifier/position_recognition.py:69-83 | after gap filling, each bucket's divisor is the number of cells at that distance, or 1 where there are none |
| PositionRecognition.HistogramOfWeight | item/classifier/position_recognition.py:60-96 | None (Python raises on the empty `max(nrs)`) exactly when the image has no positive cell; otherwise a non-empty histogram |
| PositionRecognition.HistogramCoversDistances | item/classifier/position_recognition.py:69-86 | one bucket per distance from 0 to the largest, which occurs |
| PositionRecognition.HistogramIsMeanIntensity | item/classifier/position_recognition.py:67-87 | bucket i is the uint16-rounded mean of the weights at distance i, and 0 where no cell is at that distance |
| PositionRecognition.GetHistogramOfWeightFromPoint | item/classifier/position_recognition.py:60-96 | the step-by-step histogram is HistogramOfWeight of the image and point |
| PositionRecognition.WeightHistogramOfDistances | item/classifier/position_recognition.py:69-87 | np.unique, the gap-filling loop, the binning and the division build exactly HistogramOfDistances |
| PositionRecognition.MinSquaredDistanceToZero | item/classifier/position_recognition.py:53-57 | the result is the squared distance to some 0 cell and at most that of every 0 cell |
| PositionRecognition.GetDistanceToMask | item/classifier/position_recognition.py:48-57 | moves the caller's point by +1 in place; returns the least squared distance to a 0 of the padded mask, x against columns and y against rows; never negative |
| PositionRecognition.MinDistanceThreshold | item/classifier/position_recognition.py:148-153 | a threshold on the least distance holds exactly when some 0 cell lies within it |
| PositionRecognition.SumImageValuesOnMask | item/classifier/position_recognition.py:99-110 | the two sums are the image values on the mask's 0 cells and on its other cells, and together they make the total over the mask's shape |
| PositionRecognition.MaskedSumsPartition | item/classifier/position_recognition.py:104-109 | every cell of the mask's shape is counted in exactly one of the two sums |
| PositionRecognition.Wrap8 | item/classifier/position_recognition.py:115 | np.uint8 keeps the shape; each value lies in 0..255 and is congruent to the input mod 256 |
| PositionRecognition.MaxCell | item/classifier/position_recognition.py:121 | the cell holds the maximum of the 18 x 18 padded image, and every cell before it in row-major order holds less |
| PositionRecognition.DistanceTests | item/classifier/position_recognition.py:142-154 | the two distance tests hold exactly when a 0 of the padded stretched mask lies strictly within 5, or within peak + 2, of the centroid moved by +1 |
| PositionRecognition.CheckItemOnEdge | item/classifier/position_recognition.py:114-160 | the step-by-step edge check returns the ordered chain: max on a cleared cell, then the distance tests, then ring weight >= center weight; None where Python raises |
| PositionRecognition.CheckByCentroid | item/classifier/position_recognition.py:138-160 | the steps after the max-cell test return EdgeByCentroid: None when the stretched image has no mass or no positive cell, else near the border or a heavy ring |
| PositionRecognition.NearOrRing | item/classifier/position_recognition.py:141-160 | after the histogram, true when near the border by either distance test, else ring weight >= center weight |
| PositionRecognition.OnEdgeBlankImage | item/classifier/position_recognition.py:115-124 | an image that is 0 after the uint8 cast is reported on the edge: its first maximum is the padded corner, which the bordered mask clears |
| PositionRecognition.FindSidesOfTable | item/classifier/position_recognition.py:163-175 | the loop finds the transitions of the framed last column; the sides are [t0 + 1, t1 - 2], None when the list is empty or odd, and the warning fires on more than one pair |
| PositionRecognition.TableSidesOfFirstRun | item/classifier/position_recognition.py:165-175 | a first run of 1s on rows s..e gives sides [s+1, e-1]; the warning fires exactly when a later 1 exists |
| PositionRecognition.TableSidesEmptyColumn | item/classifier/position_recognition.py:166-169 | a 0/1 column has no sides exactly when it holds no 1 |
| PositionRecognition.RecognisePositionOutcome | item/classifier/position_recognition.py:178-202 | never `unknown`; None exactly when finding the sides, the edge check, the centroid or the histogram at the centroid raises; `edge` exactly when the edge check is true |
| PositionRecognition.RecognisePositionIgnoresImageMask | item/classifier/position_recognition.py:178-189 | the `image_mask` argument never changes the answer |
| PositionRecognition.OffEdgeBySides | item/classifier/position_recognition.py:186-201 | when every step succeeds and the item is off the edge, `side` when the rounded centroid row is strictly outside the sides, else `center` |
| PositionRecognition.SideOrCenter | item/classifier/position_recognition.py:195-201 | off the edge, `side` when the rounded centroid row is strictly outside [s+1, e-1], else `center`, boundaries included |
| Table.AfterOnSignal | nodes/table.py:118-122 | switching on only moves table_off to table_working; switching off only moves working or calibrating to table_off |
| Table.AfterCalibrateSignal | nodes/table.py:128-134 | calibrate=true only moves working to calibrating; calibrate=false gives working when on, else off, from any status |
| Table.HealthCheck | nodes/table.py:218-234 | true exactly when USB is connected, the status is not crashed and the node is on, and then the status is unchanged; no USB gives crashed_connection; any other failure gives table_off |
| Table.TransitionsKeepRunningNeedsOn | nodes/table.py:113-134 | switching on or off always leaves "working or calibrating implies on_flag" true; the calibrate signal and the health check keep it |
| Table.ReconnectionNeedsTwoChecks | nodes/table.py:220-234 | a lost connection reports crashed; the first check after reconnection fails and sets table_off; a later check of a switched-on node passes and leaves table_off as it is |
| Table.CalibrationRoundTrip | nodes/table.py:124-134 | starting and stopping calibration returns a working table to work while it stays on |
| Table.SignalsIdempotent | nodes/table.py:113-134 | repeating a signal changes the status no further |
| Table.Truncate | nodes/table.py:207 | Python `int` of a float truncates toward zero |
| Table.PredictedWeight | nodes/table.py:182-186 | never negative; 0 for a weight <= 0; else within 0.5 of the weight and even on a tie (Python 3 `round`) |
| Table.TableNode.constructor | nodes/table.py:31-106 | the node starts working when turned on by default, else off, with no item and the counter at 1 |
| Table.TableNode.SgnOnCallback | nodes/table.py:113-122 | a Bool sets on_flag and clears new_image_flag; the status follows AfterOnSignal; the invariant is kept |
| Table.TableNode.SgnCalibrateCallback | nodes/table.py:124-134 | a Bool sets calibrate_flag; the status follows AfterCalibrateSignal |
| Table.TableNode.NewImageFromSensor | nodes/table.py:160-161 | sets new_image_flag and nothing else |
| Table.TableNode.CheckNodeWorkProperly | nodes/table.py:218-234 | returns and leaves exactly what HealthCheck says; flags unchanged |
| Table.TableNode.ExtractImageFromSensorData | nodes/table.py:188-195 | the new item gets id = item_cnt, the counter moves on by 1, and the handed-out ids stay 1, 2, 3, ... |
| Table.TableNode.IsItemPlaced | nodes/table.py:163-168 | true exactly when some cell of the extracted image is above 10 |
| Table.TableNode.GetPredictedWeight | nodes/table.py:182-186 | the current item's weight: never negative, 0 when the weight is <= 0, else the weight rounded half to even |
| Table.TableNode.MakeRecognitionOfImage | nodes/table.py:197-216 | unplaced items are untouched; otherwise the placement, the mode's weight (neuron: truncated) and the prediction are set, or recognition raises first |
| Table.TableNode.RunStep | nodes/table.py:241-263 | status per HealthCheck; a frame is processed exactly when the health check passes and one is announced, and it clears new_image_flag, which otherwise stays as it was; the new item carries id item_cnt, the images, and either the recognised type, the mode's weight and the predicted placement, or unknown / 0 / none when nothing is placed; the report is (placed, predicted weight >= 0, type, placement) of that item; a raising recognition leaves the fresh unrecognised item and no report; the counter goes round 0..9 and status is published on wrap |
| Table.TableNode.Run | nodes/table.py:236-263 | after n passes the status was published n / 10 times; every report's weight is >= 0; the counter grew by one per processed frame |
| Table.IdsIncrease | nodes/table.py:188-195 | ids start at 1, strictly increase, and the last one is item_cnt - 1 |

## Left out

- PositionRecognition.GetDistanceToMask: returns the exact squared distance. The source takes `sqrt` and rounds to two decimals (position_recognition.py:53-56). A distance just below 5.0 that rounds to 5.00 therefore counts as near here but not in the source. In the other direction, a distance less than 0.005 above `peak + 2` rounds down to `peak + 2.00`, so the source counts it as near and the model does not.
- PositionRecognition.RoundSqrt: `np.sqrt` and `np.round` are taken on exact reals. Floating-point rounding of the square root is not modelled, so a squared distance whose root lies within an ulp of a half-integer may round the other way in the source.
- PositionRecognition.HistogramIsMeanIntensity: the bin sums and the division are exact. `np.histogram` with uint32 weights casts each bin sum back to uint32, so the model and the source agree only while every bin sum is below 2^32; a larger sum wraps modulo 2^32 in the source. The float quotient may also differ from the exact one in its last bit. The uint32 cast of each weight is modelled (`CellIntensities`).
- PositionRecognition.RoundTo2: `round(x, 2)` is taken on the exact value. Python rounds the binary float, so a value whose third decimal is a 5 may round the other way in the source.
- `stretch_image` (item/classifier/image_utils) is a parameter; image_utils is not part of this model.
- `cv2.fillPoly`: the two filled polygons are inputs of `BuildImageMask`, and the polygon vertices (params.py:34, 49) are not modelled.
- `cv2.moments` is restated as exact integer sums. OpenCV computes them in floating point.
- PositionRecognition.SumImageValuesOnMask: the sums are exact integers, as NumPy 1.x promotes a Python int plus a uint8 scalar. Under NumPy 2 promotion rules they would wrap modulo 256.
- The peak computed at position_recognition.py:192 is never used and is not modelled. The histogram of line 191 is never used either; it is modelled only for the exception it raises on an image with no positive cell.
- The test `len(nrs) is not max(nrs) + 1` (position_recognition.py:72) compares object identity between a Python int and a numpy scalar, so it is always true. The gap-filling loop is modelled as always running. When no bucket is missing it changes nothing.
- The unused `max_image_val` and the commented-out block of `check_item_on_edge` are not modelled.
- Debug logging is left out. The one warning of `find_sides_of_table` is the `inconsistent` result.
- ROS publishing, topics, `rospkg`, `load_model`, the Keras weight network and the image classifier are left out. Their results are inputs of a frame (`Frame.internalWeight`, `Frame.neuronWeight`, `Frame.prediction`). So is `estimate_weight` from item/classifier/weight_estimation, which is not part of this model.
- `sensor.calibrate_sensor` (table.py:244-245) is left out. Its effect reaches the node only through the calibrated images, which are inputs.
- item/item.py is not part of this model. `Item.setExtractedImage` is an input (`Frame.extracted`). A fresh item is taken to have placement `unknown`, weight 0.0 and type `none`.
- `get_predicted_item` and `get_predicted_location` only look the type and placement up in translation dictionaries. The report carries the untranslated values.
- `flatten` from sensor/data_parsing is not part of this model. It is taken to list every cell once (row-major `Grids.Flatten`); only the presence of a value above 10 matters to `is_item_placed` (`FlattenHasAbove`).
- `get_calibration_flag`, `get_on_flag` and the `publish_*` helpers only read fields or publish. They are not modelled.
- `set_sensor` (table.py:109-111) stores the sensor and registers the node with it through `set_parent_node`. The sensor object is not part of this model; its images reach the node as inputs of a frame.
- The `else` branch giving weight 0 (table.py:208-209) is not modelled: the constructor only sets the modes "internal" and "neuron". The same holds for the `item_classifier is None` branch (table.py:215-216): the constructor always sets a classifier.
- The signal callbacks run on ROS threads. The model delivers them between passes of the run loop, in the order on, calibrate, new image.
- Table.TableNode.Run: the loop's contract tracks only the counters, the status publications and the weight bound of the reports; each report's content is stated per pass by RunStep.
- `time.sleep` and `exitFlag`: `run` is modelled over a finite sequence of passes and stops early when position recognition raises.
- auxiliary_scripts/test_gui.py and auxiliary_scripts/train_weight.py (GUI, serial port, model training) are outside the core.
