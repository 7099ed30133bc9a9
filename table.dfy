/** The table node of nodes/table.py: the status machine driven by the
    `sgn_on` and `sgn_calibrate` signals and the USB connection check, the
    item-id counter, and one pass of the run loop. The sensor, the classifier,
    the weight estimators and ROS publishing are inputs and outputs of the
    model; position recognition is fixed, with its foreign calls, when the
    node is built. */
module Table {
  import opened Grids
  import opened Params
  import opened PositionRecognition

  /** TableStatus, with the two NodeStatus values it inherits. */
  datatype TableStatus = Initializing | CrashedConnection | TableWorking | TableCalibrating | TableOff

  /** The two `weight_calculation_mode`s the constructor can set. */
  datatype WeightMode = Internal | Neuron

  /** ItemType of item/item.py: `none`, `unknown` or a class the classifier names. */
  datatype ItemType = NoItem | UnknownItem | Kind(name: string)

  /** The fields of an Item the node reads and writes. */
  datatype Item = Item(id: int, image: Grid, rawImage: Grid, extracted: Grid,
                       placement: Placement, weight: real, itemType: ItemType)

  /** What one processed frame publishes: `is_placed`, `weight`, the
      predicted item and its location (before translation into words). */
  datatype Report = Report(isPlaced: bool, weight: int, itemType: ItemType, placement: Placement)

  /** What the sensor and the learned models deliver for one frame: the
      calibrated image, the raw calibrated image, the image Item extracts from
      them, the internal weight estimate, the weight network's output and the
      classifier's prediction. */
  datatype Frame = Frame(image: Grid, raw: Grid, extracted: Grid,
                         internalWeight: real, neuronWeight: real, prediction: ItemType)

  /** One pass of the run loop with the signals that arrived before it. */
  datatype Tick = Tick(onMsg: Option<bool>, calibrateMsg: Option<bool>, newImage: bool,
                       usbConnected: bool, frame: Frame)

  // ---------------------------------------------------------------------
  // Status transitions as functions of the old status and the flags
  // ---------------------------------------------------------------------

  /** The status after sgn_on_callback, `on` being the new `on_flag`: switching
      on only wakes a table that is off, switching off only stops a working or
      calibrating table. */
  function AfterOnSignal(status: TableStatus, on: bool): (s: TableStatus)
    ensures s == status || (status == TableOff && s == TableWorking) ||
            ((status == TableWorking || status == TableCalibrating) && s == TableOff)
    ensures on ==> s != TableOff
    ensures !on ==> s != TableWorking && s != TableCalibrating
  {
    if on && status == TableOff then TableWorking
    else if !on && (status == TableWorking || status == TableCalibrating) then TableOff
    else status
  }

  /** The status after sgn_calibrate_callback: calibration starts only from a
      working table; stopping it gives `table_working` or `table_off` from any
      status, according to `on`. */
  function AfterCalibrateSignal(status: TableStatus, calibrate: bool, on: bool): (s: TableStatus)
    ensures calibrate ==> s == status || (status == TableWorking && s == TableCalibrating)
    ensures calibrate ==> s != TableWorking
    ensures !calibrate ==> (s == TableWorking <==> on) && (s == TableOff <==> !on)
  {
    if calibrate then (if status == TableWorking then TableCalibrating else status)
    else if on then TableWorking
    else TableOff
  }

  /** check_node_work_properly: the verdict and the status it leaves. */
  function HealthCheck(status: TableStatus, usbConnected: bool, on: bool): (r: (bool, TableStatus))
    ensures r.0 <==> usbConnected && status != CrashedConnection && on
    ensures r.0 ==> r.1 == status
    ensures !usbConnected ==> r.1 == CrashedConnection
    ensures usbConnected && !r.0 ==> r.1 == TableOff
  {
    if !usbConnected then (false, CrashedConnection)
    else if status == CrashedConnection then (false, TableOff)
    else if !on then (false, TableOff)
    else (true, status)
  }

  /** A working or calibrating status implies `on_flag`: the invariant the
      three transitions keep. */
  predicate RunningNeedsOn(status: TableStatus, on: bool)
  {
    (status == TableWorking || status == TableCalibrating) ==> on
  }

  /** The on signal establishes the invariant for the new `on_flag` whatever
      the status was; the calibrate signal and the health check, which leave
      `on_flag` alone, keep it. */
  lemma TransitionsKeepRunningNeedsOn(status: TableStatus, on: bool, calibrate: bool, usbConnected: bool)
    ensures RunningNeedsOn(AfterOnSignal(status, on), on)
    ensures RunningNeedsOn(status, on) ==> RunningNeedsOn(AfterCalibrateSignal(status, calibrate, on), on)
    ensures RunningNeedsOn(status, on) ==> RunningNeedsOn(HealthCheck(status, usbConnected, on).1, on)
  {
  }

  /** A lost connection is reported before anything else, and the first check
      after reconnection always fails and turns the table off, whatever the
      flags say. */
  lemma ReconnectionNeedsTwoChecks(status: TableStatus, on: bool)
    ensures HealthCheck(status, false, on) == (false, CrashedConnection)
    ensures HealthCheck(CrashedConnection, true, on) == (false, TableOff)
    ensures on ==> HealthCheck(TableOff, true, on) == (true, TableOff)
  {
  }

  /** Starting calibration and stopping it again returns a working table to
      work, as long as it stays switched on. */
  lemma CalibrationRoundTrip(on: bool)
    ensures AfterCalibrateSignal(AfterCalibrateSignal(TableWorking, true, on), false, on) ==
            (if on then TableWorking else TableOff)
  {
  }

  /** Repeating a signal changes nothing more. */
  lemma SignalsIdempotent(status: TableStatus, on: bool, calibrate: bool)
    ensures AfterOnSignal(AfterOnSignal(status, on), on) == AfterOnSignal(status, on)
    ensures AfterCalibrateSignal(AfterCalibrateSignal(status, calibrate, on), calibrate, on) ==
            AfterCalibrateSignal(status, calibrate, on)
  {
  }

  /** Python's `int` on a float: truncation toward zero. */
  function Truncate(x: real): (n: int)
    ensures x >= 0.0 ==> 0 <= n && n as real <= x < n as real + 1.0
    ensures x < 0.0 ==> n <= 0 && n as real - 1.0 < x <= n as real
  {
    if x >= 0.0 then x.Floor else -((-x).Floor)
  }

  /** get_predicted_weight on an item's weight: nothing below 0, else the
      weight rounded half to even. */
  function PredictedWeight(weight: real): (w: int)
    ensures w >= 0
    ensures weight <= 0.0 ==> w == 0
    ensures weight > 0.0 ==> -0.5 <= weight - w as real <= 0.5
    ensures weight > 0.0 && (weight - w as real == 0.5 || w as real - weight == 0.5) ==> w % 2 == 0
  {
    if weight > 0.0 then RoundHalfEven(weight) else 0
  }

  /** The weight make_recognition_of_image stores for the mode in use. */
  function RecognisedWeight(mode: WeightMode, frame: Frame): real
  {
    match mode
    case Internal => frame.internalWeight
    case Neuron => Truncate(frame.neuronWeight) as real
  }

  class TableNode {
    var onFlag: bool
    var calibrateFlag: bool
    var newImageFlag: bool
    var status: TableStatus
    var itemCnt: int
    var actualItem: Option<Item>
    const masks: ImageMask
    const weightMode: WeightMode
    /** recognise_position as the node calls it: its ImageMask, the field
        size [1.5, 2.5], and the foreign `stretch` fixed when
        the node is built. */
    const recognise: Grid -> Option<Placement>
    /** The ids handed out so far, in order. */
    ghost var ids: seq<int>

    ghost predicate Valid()
      reads this
    {
      && ValidImageMask(masks)
      && status != Initializing
      && RunningNeedsOn(status, onFlag)
      && itemCnt == |ids| + 1
      && (forall k :: 0 <= k < |ids| ==> ids[k] == k + 1)
      && (actualItem.Some? ==>
            |ids| > 0 && actualItem.value.id == ids[|ids| - 1] && IsGrid(actualItem.value.extracted, 16, 16))
    }

    /** __init__: the node starts working when `default_turn_on`, else off;
        no item yet, and the first id will be 1. */
    constructor (defaultTurnOn: bool, neuron: bool, masks: ImageMask,
                 stretch: (Grid, real, real) -> Grid)
      requires ValidImageMask(masks)
      ensures Valid()
      ensures onFlag == defaultTurnOn && !calibrateFlag && !newImageFlag
      ensures status == if defaultTurnOn then TableWorking else TableOff
      ensures itemCnt == 1 && ids == [] && actualItem == None
      ensures this.masks == masks && weightMode == (if neuron then Neuron else Internal)
      ensures forall g :: IsGrid(g, 16, 16) ==>
                recognise(g) == RecognisePosition(g, masks.mask, (1.5, 2.5), masks, stretch)
    {
      this.masks := masks;
      recognise := g => if IsGrid(g, 16, 16) then RecognisePosition(g, masks.mask, (1.5, 2.5), masks, stretch)
                        else None;
      weightMode := if neuron then Neuron else Internal;
      onFlag, calibrateFlag, newImageFlag := false, false, false;
      itemCnt := 1;
      actualItem := None;
      ids := [];
      status := Initializing;
      new;
      if defaultTurnOn {
        onFlag := defaultTurnOn;
        status := TableWorking;
      } else {
        status := TableOff;
      }
    }

    /** sgn_on_callback. A message that is not a Bool (None) leaves the flags
        alone but the status still follows `on_flag`. */
    method SgnOnCallback(data: Option<bool>)
      requires Valid()
      modifies this
      ensures Valid()
      ensures onFlag == (if data.Some? then data.value else old(onFlag))
      ensures newImageFlag == (if data.Some? then false else old(newImageFlag))
      ensures status == AfterOnSignal(old(status), onFlag)
      ensures calibrateFlag == old(calibrateFlag) && itemCnt == old(itemCnt)
      ensures actualItem == old(actualItem) && ids == old(ids)
    {
      if data.Some? {
        onFlag := data.value;
        newImageFlag := false;
      }
      if onFlag && status == TableOff {
        status := TableWorking;
      }
      if !onFlag && (status == TableWorking || status == TableCalibrating) {
        status := TableOff;
      }
    }

    /** sgn_calibrate_callback. */
    method SgnCalibrateCallback(data: Option<bool>)
      requires Valid()
      modifies this
      ensures Valid()
      ensures calibrateFlag == (if data.Some? then data.value else old(calibrateFlag))
      ensures status == AfterCalibrateSignal(old(status), calibrateFlag, onFlag)
      ensures onFlag == old(onFlag) && newImageFlag == old(newImageFlag) && itemCnt == old(itemCnt)
      ensures actualItem == old(actualItem) && ids == old(ids)
    {
      if data.Some? {
        calibrateFlag := data.value;
      }
      if calibrateFlag && status == TableWorking {
        status := TableCalibrating;
      }
      if !calibrateFlag {
        if onFlag {
          status := TableWorking;
        } else {
          status := TableOff;
        }
      }
    }

    /** new_image_from_sensor: the sensor thread announces a frame. */
    method NewImageFromSensor()
      requires Valid()
      modifies this
      ensures Valid()
      ensures newImageFlag
      ensures onFlag == old(onFlag) && calibrateFlag == old(calibrateFlag) && status == old(status)
      ensures itemCnt == old(itemCnt) && actualItem == old(actualItem) && ids == old(ids)
    {
      newImageFlag := true;
    }

    /** check_node_work_properly, with the sensor's `get_usb_connected()`
        as a parameter. */
    method CheckNodeWorkProperly(usbConnected: bool) returns (ok: bool)
      requires Valid()
      modifies this
      ensures Valid()
      ensures (ok, status) == HealthCheck(old(status), usbConnected, onFlag)
      ensures onFlag == old(onFlag) && calibrateFlag == old(calibrateFlag) && newImageFlag == old(newImageFlag)
      ensures itemCnt == old(itemCnt) && actualItem == old(actualItem) && ids == old(ids)
    {
      if !usbConnected {
        status := CrashedConnection;
        return false;
      }
      if status == CrashedConnection {
        status := TableOff;
        return false;
      }
      if !onFlag {
        status := TableOff;
        return false;
      }
      return true;
    }

    /** exstract_image_from_sensor_data: a new item from the frame gets the
        next id, and the counter moves on. A fresh Item's placement, weight
        and type are `unknown`, 0.0 and `none`. */
    method ExtractImageFromSensorData(frame: Frame)
      requires Valid() && IsGrid(frame.extracted, 16, 16)
      modifies this
      ensures Valid()
      ensures actualItem == Some(Item(old(itemCnt), frame.image, frame.raw, frame.extracted, Unknown, 0.0, NoItem))
      ensures itemCnt == old(itemCnt) + 1 && ids == old(ids) + [old(itemCnt)]
      ensures onFlag == old(onFlag) && calibrateFlag == old(calibrateFlag) && newImageFlag == old(newImageFlag)
      ensures status == old(status)
    {
      actualItem := Some(Item(itemCnt, frame.image, frame.raw, frame.extracted, Unknown, 0.0, NoItem));
      ids := ids + [itemCnt];
      itemCnt := itemCnt + 1;
    }

    /** is_item_placed: scans the flattened extracted image for a value above 10. */
    method IsItemPlaced() returns (placed: bool)
      requires actualItem.Some?
      ensures placed <==> Placed(actualItem.value.extracted)
    {
      var cells := Flatten(actualItem.value.extracted);
      FlattenHasAbove(actualItem.value.extracted, 10);
      var i := 0;
      while i < |cells|
        invariant 0 <= i <= |cells|
        invariant forall k :: 0 <= k < i ==> cells[k] <= 10
      {
        if cells[i] > 10 {
          return true;
        }
        i := i + 1;
      }
      return false;
    }

    /** get_predicted_weight. */
    function GetPredictedWeight(): (w: int)
      reads this
      requires actualItem.Some?
      ensures w == PredictedWeight(actualItem.value.weight)
      ensures w >= 0 && (actualItem.value.weight <= 0.0 ==> w == 0)
      ensures actualItem.value.weight > 0.0 ==> w == RoundHalfEven(actualItem.value.weight)
    {
      PredictedWeight(actualItem.value.weight)
    }

    /** make_recognition_of_image. When no cell is above 10 the item keeps
        its fresh values. Otherwise placement, weight and type are set; a
        position recognition that raises ends it with `raised`, before the
        weight and type are set. */
    method MakeRecognitionOfImage(frame: Frame) returns (raised: bool)
      requires Valid() && actualItem.Some?
      modifies this
      ensures Valid()
      ensures !Placed(old(actualItem.value.extracted)) ==> !raised && actualItem == old(actualItem)
      ensures Placed(old(actualItem.value.extracted)) && recognise(old(actualItem.value.extracted)).None? ==>
                raised && actualItem == old(actualItem)
      ensures Placed(old(actualItem.value.extracted)) && recognise(old(actualItem.value.extracted)).Some? ==>
                !raised && actualItem == Some(old(actualItem.value).(
                                             placement := recognise(old(actualItem.value.extracted)).value,
                                             weight := RecognisedWeight(weightMode, frame),
                                             itemType := frame.prediction))
      ensures onFlag == old(onFlag) && calibrateFlag == old(calibrateFlag) && newImageFlag == old(newImageFlag)
      ensures status == old(status) && itemCnt == old(itemCnt) && ids == old(ids)
    {
      var placed := IsItemPlaced();
      raised := false;
      if placed {
        var it := actualItem.value;
        var pos := recognise(it.extracted);
        if pos.None? {
          return true;
        }
        var weight: real;
        if weightMode == Internal {
          weight := frame.internalWeight;
        } else {
          weight := Truncate(frame.neuronWeight) as real;
        }
        assert weight == RecognisedWeight(weightMode, frame);
        actualItem := Some(it.(placement := pos.value, weight := weight, itemType := frame.prediction));
      }
    }

    /** One pass of the run loop after the signals have been handled: the
        health check, then the frame if one is announced, then the status
        counter `i`. `report` is what the frame publishes; `raised` means
        position recognition raised and ended the loop mid-pass. */
    method RunStep(i: nat, usbConnected: bool, frame: Frame)
      returns (next: nat, statusPublished: bool, report: Option<Report>, raised: bool)
      requires Valid() && i < 10 && IsGrid(frame.extracted, 16, 16)
      modifies this
      ensures Valid()
      ensures var check := HealthCheck(old(status), usbConnected, onFlag);
              && status == check.1
              && (report.Some? || raised <==> check.0 && old(newImageFlag))
      ensures !raised ==> next == (i + 1) % 10 && (statusPublished <==> i == 9)
      ensures raised ==> report.None? && !statusPublished
      ensures report.Some? ==> !newImageFlag && report.value.weight >= 0
      ensures report.Some? ==>
                && actualItem.Some?
                && (Placed(frame.extracted) ==> recognise(frame.extracted).Some?)
                && actualItem.value == (if Placed(frame.extracted)
                    then Item(old(itemCnt), frame.image, frame.raw, frame.extracted,
                              recognise(frame.extracted).value, RecognisedWeight(weightMode, frame), frame.prediction)
                    else Item(old(itemCnt), frame.image, frame.raw, frame.extracted, Unknown, 0.0, NoItem))
                && report.value == Report(Placed(frame.extracted), PredictedWeight(actualItem.value.weight),
                                          actualItem.value.itemType, actualItem.value.placement)
      ensures raised ==> Placed(frame.extracted) && recognise(frame.extracted).None? &&
                         actualItem == Some(Item(old(itemCnt), frame.image, frame.raw, frame.extracted,
                                                 Unknown, 0.0, NoItem))
      ensures report.None? && !raised ==> actualItem == old(actualItem)
      ensures report.None? ==> newImageFlag == old(newImageFlag)
      ensures onFlag == old(onFlag) && calibrateFlag == old(calibrateFlag)
      ensures itemCnt == old(itemCnt) + (if report.Some? || raised then 1 else 0)
      ensures ids == old(ids) + (if report.Some? || raised then [old(itemCnt)] else [])
    {
      report, raised, statusPublished := None, false, false;
      next := i;
      var ok := CheckNodeWorkProperly(usbConnected);
      if ok && newImageFlag {
        ExtractImageFromSensorData(frame);
        raised := MakeRecognitionOfImage(frame);
        if raised {
          return;
        }
        var placed := IsItemPlaced();
        var it := actualItem.value;
        report := Some(Report(placed, GetPredictedWeight(), it.itemType, it.placement));
        newImageFlag := false;
      }
      next := i + 1;
      if next == 10 {
        statusPublished := true;
        next := 0;
      }
    }

    /** run, over a finite sequence of passes: before each pass the
        signals of its tick are delivered; the loop ends after the last tick
        or when a pass raises. Returns the passes completed, how often the
        status was published, and the frames' reports in order. */
    method Run(ticks: seq<Tick>) returns (steps: nat, statusPublications: nat, reports: seq<Report>, raised: bool)
      requires Valid()
      requires forall k :: 0 <= k < |ticks| ==> IsGrid(ticks[k].frame.extracted, 16, 16)
      modifies this
      ensures Valid()
      ensures steps <= |ticks| && (!raised ==> steps == |ticks|)
      ensures statusPublications == steps / 10
      ensures forall k :: 0 <= k < |reports| ==> reports[k].weight >= 0
      ensures itemCnt == old(itemCnt) + |reports| + (if raised then 1 else 0)
      ensures |ids| == |old(ids)| + |reports| + (if raised then 1 else 0)
    {
      var i: nat := 0;
      steps, statusPublications, reports, raised := 0, 0, [], false;
      while steps < |ticks| && !raised
        invariant Valid()
        invariant steps <= |ticks|
        invariant !raised ==> i == steps % 10
        invariant statusPublications == steps / 10
        invariant forall k :: 0 <= k < |reports| ==> reports[k].weight >= 0
        invariant itemCnt == old(itemCnt) + |reports| + (if raised then 1 else 0)
        invariant |ids| == |old(ids)| + |reports| + (if raised then 1 else 0)
        decreases |ticks| - steps, if raised then 0 else 1
      {
        var tick := ticks[steps];
        SgnOnCallback(tick.onMsg);
        SgnCalibrateCallback(tick.calibrateMsg);
        if tick.newImage {
          NewImageFromSensor();
        }
        var next, published, report, r := RunStep(i, tick.usbConnected, tick.frame);
        if r {
          raised := true;
        } else {
          if published {
            statusPublications := statusPublications + 1;
          }
          if report.Some? {
            reports := reports + [report.value];
          }
          i := next;
          steps := steps + 1;
        }
      }
    }
  }

  /** The item the node holds after a frame has the latest id handed out,
      and ids are 1, 2, 3, ... in order: strictly increasing from 1. */
  lemma IdsIncrease(node: TableNode, a: int, b: int)
    requires node.Valid() && 0 <= a < b < |node.ids|
    ensures node.ids[0] == 1 && node.ids[a] < node.ids[b] && node.ids[|node.ids| - 1] == node.itemCnt - 1
  {
  }

  /** The extracted image has a value above 10. */
  predicate Placed(g: Grid)
  {
    exists r, c :: 0 <= r < |g| && 0 <= c < |g[r]| && g[r][c] > 10
  }
}
