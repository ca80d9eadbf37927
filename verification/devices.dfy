/** `split_devices`: route the rows of a loaded table by their device number
    into an EXG stream (EEG or EMG channels) and an IMU stream per device. */
module Devices {
  import opened Wrappers
  import opened Numbers
  import opened Sequences
  import opened Tables
  import opened Maps

  /** DEVICE_ROLES: the EXG stream name of each device. */
  const DeviceRoles: map<int, string> := map[1 := "EEG_1", 2 := "EMG_2", 3 := "EMG_3"]

  /** IMU_ROLES: the IMU stream name of each device. */
  const ImuRoles: map<int, string> := map[1 := "IMU_1", 2 := "IMU_2", 3 := "IMU_3"]

  /** The order in which `DEVICE_ROLES.items()` visits the devices. */
  const DeviceOrder: seq<int> := [1, 2, 3]

  const AllRoles: set<string> := {"EEG_1", "EMG_2", "EMG_3", "IMU_1", "IMU_2", "IMU_3"}

  /** EXG_COLS */
  const ExgCols: seq<string> := ["Channel1", "Channel2", "Channel3", "Channel4",
                                 "Channel5", "Channel6", "Channel7", "Channel8"]

  /** IMU_COLS */
  const ImuCols: seq<string> := ["GyroX", "GyroY", "GyroZ", "AccX", "AccY", "AccZ"]

  const DeviceColumn: string := "Device number"
  const TimestampColumn: string := "Timestamp"

  /** The columns coerced to numbers on each device's selection. */
  const NumericCols: seq<string> := ExgCols + ImuCols + [TimestampColumn]

  /** The EXG projection: the EEG role keeps Channel1..Channel6, the EMG roles all eight. */
  function ExgColumnsFor(role: string): seq<string> {
    if role == "EEG_1" then [TimestampColumn] + ExgCols[..6] else [TimestampColumn] + ExgCols
  }

  const ImuStreamColumns: seq<string> := [TimestampColumn] + ImuCols

  /** `df_raw["Device number"] == d` for one row: the cell is a number equal to `d`. */
  predicate IsDevice(r: Row, d: int) {
    DeviceColumn in r && r[DeviceColumn].Num? && ValueIs(r[DeviceColumn].num, d)
  }

  function OnDevice(d: int): Row -> bool {
    r => IsDevice(r, d)
  }

  /** The row belongs to device `d` and survives `dropna(subset=["Timestamp"])`. */
  predicate Routed(r: Row, d: int) {
    IsDevice(r, d) && HasValue(CoerceRow(r, NumericCols), TimestampColumn)
  }

  function RoutedTo(d: int): Row -> bool {
    r => Routed(r, d)
  }

  const TimestampKnown: Row -> bool := r => HasValue(CoerceRow(r, NumericCols), TimestampColumn)

  /** What a routed row becomes in a stream: coerced, then cut down to `cols`. */
  function Prepare(cols: seq<string>): Row -> Row {
    r => ProjectRow(CoerceRow(r, NumericCols), cols)
  }

  /** Reference definition of a stream: one row per input row routed to `d`, in
      input order, projected onto `cols`. */
  function StreamOf(t: Table, d: int, cols: seq<string>): Table {
    Table(cols, Map(Filter(t.rows, RoutedTo(d)), Prepare(cols)))
  }

  function ExgStream(t: Table, d: int): Table
    requires d in DeviceRoles
  {
    StreamOf(t, d, ExgColumnsFor(DeviceRoles[d]))
  }

  function ImuStream(t: Table, d: int): Table {
    StreamOf(t, d, ImuStreamColumns)
  }

  predicate HasRows(t: Table, d: int) {
    exists i :: 0 <= i < |t.rows| && IsDevice(t.rows[i], d)
  }

  /** The table has every column either stream of device `d` selects. */
  predicate HasStreamColumns(t: Table, d: int)
    requires d in DeviceRoles
  {
    forall c :: c in ExgColumnsFor(DeviceRoles[d]) + ImuStreamColumns ==> c in t.columns
  }

  /** The digit character of a device number. */
  function DeviceDigit(d: int): char
    requires 0 <= d <= 9
  {
    (48 + d) as char
  }

  /** Every role name has five characters: `E` for an EXG stream or `I` for an
      IMU stream first, the device's digit last. */
  lemma RoleShape(d: int)
    requires d in DeviceRoles
    ensures 1 <= d <= 3
    ensures |DeviceRoles[d]| == 5 && DeviceRoles[d][0] == 'E' && DeviceRoles[d][4] == DeviceDigit(d)
    ensures |ImuRoles[d]| == 5 && ImuRoles[d][0] == 'I' && ImuRoles[d][4] == DeviceDigit(d)
  {
  }

  /** The six role names are pairwise distinct. */
  lemma RolesDistinct(d: int, e: int)
    requires d in DeviceRoles && e in DeviceRoles
    ensures DeviceRoles[d] != ImuRoles[e]
    ensures d != e ==> DeviceRoles[d] != DeviceRoles[e] && ImuRoles[d] != ImuRoles[e]
  {
    RoleShape(d);
    RoleShape(e);
    if d != e {
      assert DeviceRoles[d][4] != DeviceRoles[e][4];
      assert ImuRoles[d][4] != ImuRoles[e][4];
    }
    assert DeviceRoles[d][0] != ImuRoles[e][0];
  }

  /** The stream pipeline of the source (select the device's rows, coerce,
      project, drop rows without a timestamp) computes the reference stream. */
  lemma {:induction false} StreamPipeline(t: Table, d: int, cols: seq<string>)
    requires WellFormed(t)
    requires TimestampColumn in cols
    requires forall c :: c in cols ==> c in t.columns
    ensures var numeric := CoerceColumns(Table(t.columns, Filter(t.rows, OnDevice(d))), NumericCols);
            forall c :: c in cols ==> c in numeric.columns
    ensures var numeric := CoerceColumns(Table(t.columns, Filter(t.rows, OnDevice(d))), NumericCols);
            DropMissing(Table(cols, Map(numeric.rows, Projection(cols))), TimestampColumn) == StreamOf(t, d, cols)
  {
    var selected := Filter(t.rows, OnDevice(d));
    MapMap(selected, Coercion(NumericCols), Projection(cols), Prepare(cols));
    FilterMap(selected, Prepare(cols), Present(TimestampColumn), TimestampKnown);
    FilterFilter(t.rows, OnDevice(d), TimestampKnown, RoutedTo(d));
  }

  /** The selection `df_raw[df_raw["Device number"] == d]`, with the table's columns. */
  function Selection(t: Table, d: int): Table {
    Table(t.columns, Filter(t.rows, OnDevice(d)))
  }

  /** The loop body of the source on a device's selection: nothing for an empty
      selection, otherwise coerce, project onto each stream's columns and drop
      the rows without a timestamp. */
  function SelectedStreams(selected: Table, d: int): Result<Option<(Table, Table)>, Error>
    requires WellFormed(selected) && d in DeviceRoles
  {
    if |selected.rows| == 0 then Success(None)
    else
      var numeric := CoerceColumns(selected, NumericCols);
      var exg :- Project(numeric, ExgColumnsFor(DeviceRoles[d]));
      var imu :- Project(numeric, ImuStreamColumns);
      Success(Some((DropMissing(exg, TimestampColumn), DropMissing(imu, TimestampColumn))))
  }

  lemma SelectionWellFormed(t: Table, d: int)
    requires WellFormed(t)
    ensures WellFormed(Selection(t, d))
    ensures |Selection(t, d).rows| == 0 <==> !HasRows(t, d)
  {
    var selected := Selection(t, d);
    forall i | 0 <= i < |selected.rows| ensures selected.rows[i].Keys == ColumnSet(t.columns) {
      assert selected.rows[i] in t.rows;
    }
    if |selected.rows| == 0 {
      forall i | 0 <= i < |t.rows| ensures !IsDevice(t.rows[i], d) {
        assert t.rows[i] in t.rows;
      }
    } else {
      assert selected.rows[0] in t.rows;
    }
  }

  /** One device's streams. `None` when the device has no rows (the source warns
      and skips it); a KeyError when it has rows but the table lacks a column a
      stream selects; otherwise the EXG and IMU reference streams. */
  function DeviceStreams(t: Table, d: int): (r: Result<Option<(Table, Table)>, Error>)
    requires WellFormed(t) && d in DeviceRoles
    ensures r == Success(None) <==> !HasRows(t, d)
    ensures r.Failure? <==> HasRows(t, d) && !HasStreamColumns(t, d)
    ensures r.Failure? ==> r.error.KeyError?
    ensures r.Success? && r.value.Some? ==> r.value.value == (ExgStream(t, d), ImuStream(t, d))
  {
    SelectionWellFormed(t, d);
    var r := SelectedStreams(Selection(t, d), d);
    if r.Success? && r.value.Some? then
      StreamPipeline(t, d, ExgColumnsFor(DeviceRoles[d]));
      StreamPipeline(t, d, ImuStreamColumns);
      r
    else r
  }

  /** The streams device `d` contributes: both of its streams when it has rows,
      nothing otherwise. */
  function Contribution(t: Table, d: int): map<string, Table>
    requires d in DeviceRoles
  {
    if HasRows(t, d) then map[DeviceRoles[d] := ExgStream(t, d), ImuRoles[d] := ImuStream(t, d)] else map[]
  }

  /** The contributions of the devices `ids`. */
  function Contributions(t: Table, ids: seq<int>): map<string, Table>
    requires forall i :: 0 <= i < |ids| ==> ids[i] in DeviceRoles
    decreases |ids|
  {
    if |ids| == 0 then map[] else Contribution(t, ids[0]) + Contributions(t, ids[1..])
  }

  /** Storing one device's streams into `acc` adds that device's contribution. */
  lemma StoreStreams(t: Table, d: int, acc: map<string, Table>)
    requires WellFormed(t) && d in DeviceRoles
    ensures DeviceStreams(t, d).Success? ==> acc + Contribution(t, d) == Store(acc, d, DeviceStreams(t, d).value)
  {
    if DeviceStreams(t, d).Success? {
      match DeviceStreams(t, d).value
      case None =>
        UnionAssociative(acc, map[], map[]);
      case Some((exg, imu)) =>
        UpdateIsUnion(acc, DeviceRoles[d], exg, ImuRoles[d], imu);
    }
  }

  /** `streams[role_name] = exg_df; streams[imu_role] = imu_df`, or nothing for a skipped device. */
  function Store(acc: map<string, Table>, d: int, found: Option<(Table, Table)>): map<string, Table>
    requires d in DeviceRoles
  {
    match found
    case None => acc
    case Some((exg, imu)) => acc[DeviceRoles[d] := exg][ImuRoles[d] := imu]
  }

  /** Some device among `ids` has rows but lacks a column its streams select. */
  predicate SomeDeviceFails(t: Table, ids: seq<int>)
    requires forall i :: 0 <= i < |ids| ==> ids[i] in DeviceRoles
    decreases |ids|
  {
    |ids| > 0 && ((HasRows(t, ids[0]) && !HasStreamColumns(t, ids[0])) || SomeDeviceFails(t, ids[1..]))
  }

  /** The loop over `DEVICE_ROLES.items()`, from the devices still to visit and
      the streams gathered so far: it adds the contribution of every device it
      visits, and fails exactly when some visited device's streams fail. */
  function SplitFrom(t: Table, ids: seq<int>, acc: map<string, Table>): (r: Result<map<string, Table>, Error>)
    requires WellFormed(t)
    requires forall i :: 0 <= i < |ids| ==> ids[i] in DeviceRoles
    ensures r.Failure? <==> SomeDeviceFails(t, ids)
    ensures r.Failure? ==> r.error.KeyError?
    ensures r.Success? ==> r.value == acc + Contributions(t, ids)
    decreases |ids|
  {
    if |ids| == 0 then Success(acc)
    else
      var d := ids[0];
      var found :- DeviceStreams(t, d);
      StoreStreams(t, d, acc);
      UnionAssociative(acc, Contribution(t, d), Contributions(t, ids[1..]));
      SplitFrom(t, ids[1..], Store(acc, d, found))
  }

  /** The streams of devices 1, 2 and 3 together. */
  function AllContributions(t: Table): map<string, Table> {
    Contribution(t, 1) + Contribution(t, 2) + Contribution(t, 3)
  }

  lemma DeviceOrderFails(t: Table)
    ensures SomeDeviceFails(t, DeviceOrder) <==> exists d :: d in DeviceRoles && HasRows(t, d) && !HasStreamColumns(t, d)
  {
    assert DeviceOrder[1..] == [2, 3] && DeviceOrder[2..] == [3] && DeviceOrder[3..] == [];
  }

  lemma DeviceOrderContributions(t: Table)
    ensures Contributions(t, DeviceOrder) == AllContributions(t)
  {
    assert DeviceOrder[1..] == [2, 3] && DeviceOrder[2..] == [3] && DeviceOrder[3..] == [];
    var c1, c2, c3 := Contribution(t, 1), Contribution(t, 2), Contribution(t, 3);
    assert Contributions(t, DeviceOrder) == c1 + (c2 + (c3 + map[]));
    UnionAssociative(c3, map[], map[]);
    UnionAssociative(c1, c2, c3);
  }

  /** split_devices. It fails only with a KeyError: when the table has no device
      column, or when a device with rows lacks a column its streams select. On
      success the result is the contribution of devices 1, 2 and 3. */
  function SplitDevices(t: Table): (r: Result<map<string, Table>, Error>)
    requires WellFormed(t)
    ensures r.Failure? <==>
              || DeviceColumn !in t.columns
              || exists d :: d in DeviceRoles && HasRows(t, d) && !HasStreamColumns(t, d)
    ensures r.Failure? ==> r.error.KeyError?
    ensures r.Success? ==> r.value == AllContributions(t)
  {
    if DeviceColumn !in t.columns then Failure(KeyError([DeviceColumn]))
    else
      SplitFromDeviceOrder(t);
      SplitFrom(t, DeviceOrder, map[])
  }

  /** The loop over devices 1, 2 and 3 from no streams. */
  lemma SplitFromDeviceOrder(t: Table)
    requires WellFormed(t)
    ensures SplitFrom(t, DeviceOrder, map[]).Failure? <==>
              exists d :: d in DeviceRoles && HasRows(t, d) && !HasStreamColumns(t, d)
    ensures SplitFrom(t, DeviceOrder, map[]).Success? ==>
              SplitFrom(t, DeviceOrder, map[]).value == AllContributions(t)
  {
    assert SplitFrom(t, DeviceOrder, map[]).Failure? <==>
             exists d :: d in DeviceRoles && HasRows(t, d) && !HasStreamColumns(t, d) by {
      DeviceOrderFails(t);
    }
    if SplitFrom(t, DeviceOrder, map[]).Success? {
      DeviceOrderContributions(t);
      UnionAssociative(map[], Contributions(t, DeviceOrder), map[]);
    }
  }

  // ---------------------------------------------------------------------------
  // Properties of the streams

  /** The keys of the result: a device with rows contributes both of its role
      names and a device without rows neither; each key holds the reference
      stream; no key outside the six roles appears. */
  lemma SplitDevicesKeys(t: Table)
    requires WellFormed(t) && SplitDevices(t).Success?
    ensures forall d :: d in DeviceRoles ==>
              && (DeviceRoles[d] in SplitDevices(t).value <==> HasRows(t, d))
              && (ImuRoles[d] in SplitDevices(t).value <==> HasRows(t, d))
    ensures forall d :: d in DeviceRoles && HasRows(t, d) ==>
              && SplitDevices(t).value[DeviceRoles[d]] == ExgStream(t, d)
              && SplitDevices(t).value[ImuRoles[d]] == ImuStream(t, d)
    ensures SplitDevices(t).value.Keys <= AllRoles
  {
    var m := SplitDevices(t).value;
    forall d | d in DeviceRoles
      ensures DeviceRoles[d] in m <==> HasRows(t, d)
      ensures ImuRoles[d] in m <==> HasRows(t, d)
      ensures HasRows(t, d) ==> m[DeviceRoles[d]] == ExgStream(t, d) && m[ImuRoles[d]] == ImuStream(t, d)
    {
      UnionAt(t, m, d);
    }
    ContributionKeySet(t, 1);
    ContributionKeySet(t, 2);
    ContributionKeySet(t, 3);
    assert {DeviceRoles[1], ImuRoles[1]} + {DeviceRoles[2], ImuRoles[2]} + {DeviceRoles[3], ImuRoles[3]} == AllRoles;
  }

  /** Reading one device's role names from the union of the contributions. */
  lemma UnionAt(t: Table, m: map<string, Table>, d: int)
    requires m == AllContributions(t)
    requires d in DeviceRoles
    ensures DeviceRoles[d] in m <==> HasRows(t, d)
    ensures ImuRoles[d] in m <==> HasRows(t, d)
    ensures HasRows(t, d) ==> m[DeviceRoles[d]] == ExgStream(t, d) && m[ImuRoles[d]] == ImuStream(t, d)
  {
    var c1, c2, c3 := Contribution(t, 1), Contribution(t, 2), Contribution(t, 3);
    ContributionKeys(t, d);
    forall e | e in DeviceRoles && e != d
      ensures DeviceRoles[d] !in Contribution(t, e) && ImuRoles[d] !in Contribution(t, e)
    {
      RoleNotElsewhere(t, d, e);
    }
    LookupUnion(c1, c2, c3, DeviceRoles[d], d);
    LookupUnion(c1, c2, c3, ImuRoles[d], d);
  }

  /** Another device contributes neither of the role names of device `d`. */
  lemma RoleNotElsewhere(t: Table, d: int, e: int)
    requires d in DeviceRoles && e in DeviceRoles && d != e
    ensures DeviceRoles[d] !in Contribution(t, e) && ImuRoles[d] !in Contribution(t, e)
  {
    ContributionKeySet(t, e);
    RolesDistinct(d, e);
    RolesDistinct(e, d);
  }

  /** The keys and values one device contributes. */
  lemma ContributionKeySet(t: Table, d: int)
    requires d in DeviceRoles
    ensures Contribution(t, d).Keys <= {DeviceRoles[d], ImuRoles[d]}
  {
  }

  lemma ContributionKeys(t: Table, d: int)
    requires d in DeviceRoles
    ensures DeviceRoles[d] in Contribution(t, d) <==> HasRows(t, d)
    ensures ImuRoles[d] in Contribution(t, d) <==> HasRows(t, d)
    ensures HasRows(t, d) ==> Contribution(t, d)[DeviceRoles[d]] == ExgStream(t, d)
                              && Contribution(t, d)[ImuRoles[d]] == ImuStream(t, d)
  {
    RolesDistinct(d, d);
  }

  /** `df_raw["Device number"] == dev_num` holds for at most one device number. */
  lemma OneDevicePerRow(r: Row, d1: int, d2: int)
    requires IsDevice(r, d1) && IsDevice(r, d2)
    ensures d1 == d2
  {
    ValueIsUnique(r[DeviceColumn].num, d1, d2);
  }

  const RoutedToFirstTwo: Row -> bool := r => Routed(r, 1) || Routed(r, 2)

  /** The row is routed to one of the three devices. */
  const RoutedToAny: Row -> bool := r => Routed(r, 1) || Routed(r, 2) || Routed(r, 3)

  /** No input row feeds two devices: the EXG streams of the three devices
      together hold exactly the routed input rows, hence no more than the input. */
  lemma StreamsPartition(t: Table)
    ensures |ExgStream(t, 1).rows| + |ExgStream(t, 2).rows| + |ExgStream(t, 3).rows|
            == |Filter(t.rows, RoutedToAny)|
    ensures |Filter(t.rows, RoutedToAny)| <= |t.rows|
  {
    forall r | Routed(r, 1) && Routed(r, 2) ensures false { OneDevicePerRow(r, 1, 2); }
    forall r | RoutedToFirstTwo(r) && Routed(r, 3) ensures false {
      if Routed(r, 1) { OneDevicePerRow(r, 1, 3); } else { OneDevicePerRow(r, 2, 3); }
    }
    FilterDisjointCount(t.rows, RoutedTo(1), RoutedTo(2), RoutedToFirstTwo);
    FilterDisjointCount(t.rows, RoutedToFirstTwo, RoutedTo(3), RoutedToAny);
  }

  /** Input row `i` is of device `d` and has a timestamp once coerced. */
  predicate Feeds(t: Table, i: int, d: int) {
    0 <= i < |t.rows| && Routed(t.rows[i], d)
  }

  /** Where the rows of a stream come from: row `j` is the coerced and
      projected image of an input row of device `d` with a timestamp. */
  lemma StreamProvenance(t: Table, d: int, cols: seq<string>, j: int)
    requires 0 <= j < |StreamOf(t, d, cols).rows|
    ensures exists i :: Feeds(t, i, d) && StreamOf(t, d, cols).rows[j] == Prepare(cols)(t.rows[i])
  {
    MapFilterOrigin(t.rows, RoutedTo(d), Prepare(cols), j);
  }

  /** Every input row of device `d` with a timestamp has its image in the stream. */
  lemma StreamComplete(t: Table, d: int, cols: seq<string>, i: int)
    requires Feeds(t, i, d)
    ensures Prepare(cols)(t.rows[i]) in StreamOf(t, d, cols).rows
  {
    MapFilterComplete(t.rows, RoutedTo(d), Prepare(cols), i);
  }

  /** The shape of a stream row: exactly the stream's columns, a numeric
      timestamp, and no unparsed text in any stream column. */
  lemma StreamShape(t: Table, d: int, cols: seq<string>)
    requires WellFormed(t)
    requires TimestampColumn in cols
    requires forall c :: c in cols ==> c in t.columns && c in NumericCols
    ensures forall j :: 0 <= j < |StreamOf(t, d, cols).rows| ==>
              && StreamOf(t, d, cols).rows[j].Keys == ColumnSet(cols)
              && StreamOf(t, d, cols).rows[j][TimestampColumn].Num?
              && forall c :: c in cols ==> !StreamOf(t, d, cols).rows[j][c].Text?
  {
    var selected := Filter(t.rows, RoutedTo(d));
    forall j | 0 <= j < |selected|
      ensures && Prepare(cols)(selected[j]).Keys == ColumnSet(cols)
              && Prepare(cols)(selected[j])[TimestampColumn].Num?
              && forall c :: c in cols ==> !Prepare(cols)(selected[j])[c].Text?
    {
      assert selected[j] in t.rows;
      PreparedRowShape(selected[j], d, cols);
    }
  }

  /** A routed row with every stream column, once prepared for the stream. */
  lemma PreparedRowShape(r: Row, d: int, cols: seq<string>)
    requires Routed(r, d)
    requires TimestampColumn in cols
    requires forall c :: c in cols ==> c in r && c in NumericCols
    ensures Prepare(cols)(r).Keys == ColumnSet(cols)
    ensures Prepare(cols)(r)[TimestampColumn].Num?
    ensures forall c :: c in cols ==> !Prepare(cols)(r)[c].Text?
  {
    ProjectCoercedRow(r, NumericCols, cols);
    assert CoerceCell(r[TimestampColumn]) != Missing by {
      assert CoerceRow(r, NumericCols)[TimestampColumn] == CoerceCell(r[TimestampColumn]);
    }
  }

  /** The EXG and IMU streams of one device are cut from the same rows: they
      have the same length and the same timestamp in every position. */
  lemma StreamPairAligned(t: Table, d: int)
    requires d in DeviceRoles
    ensures |ExgStream(t, d).rows| == |ImuStream(t, d).rows|
    ensures forall j :: 0 <= j < |ExgStream(t, d).rows| ==>
              && TimestampColumn in ExgStream(t, d).rows[j] && TimestampColumn in ImuStream(t, d).rows[j]
              && ExgStream(t, d).rows[j][TimestampColumn] == ImuStream(t, d).rows[j][TimestampColumn]
  {
  }

  /** `dropna(subset=["Timestamp"])` only removes rows: a stream is no longer
      than the device's selection, and exactly as long when every selected row
      has a timestamp. */
  lemma StreamLength(t: Table, d: int, cols: seq<string>)
    ensures |StreamOf(t, d, cols).rows| <= |Filter(t.rows, OnDevice(d))|
    ensures |StreamOf(t, d, cols).rows| == |Filter(t.rows, OnDevice(d))| <==>
              forall i :: 0 <= i < |t.rows| && IsDevice(t.rows[i], d) ==>
                HasValue(CoerceRow(t.rows[i], NumericCols), TimestampColumn)
  {
    FilterFilter(t.rows, OnDevice(d), TimestampKnown, RoutedTo(d));
    FilterCountAllWithin(t.rows, OnDevice(d), TimestampKnown);
  }

  /** The row belongs to device 1, 2 or 3. */
  const OnKnownDevice: Row -> bool := r => IsDevice(r, 1) || IsDevice(r, 2) || IsDevice(r, 3)

  /** A device's streams depend only on the columns and on that device's rows. */
  lemma DeviceStreamsOfSelection(t: Table, u: Table, d: int)
    requires WellFormed(t) && WellFormed(u) && d in DeviceRoles
    requires t.columns == u.columns && Filter(t.rows, OnDevice(d)) == Filter(u.rows, OnDevice(d))
    ensures DeviceStreams(t, d) == DeviceStreams(u, d)
  {
    assert Selection(t, d) == Selection(u, d);
  }

  lemma {:induction false} SplitFromOfSelection(t: Table, u: Table, ids: seq<int>, acc: map<string, Table>)
    requires WellFormed(t) && WellFormed(u)
    requires forall i :: 0 <= i < |ids| ==> ids[i] in DeviceRoles
    requires forall i :: 0 <= i < |ids| ==> DeviceStreams(t, ids[i]) == DeviceStreams(u, ids[i])
    ensures SplitFrom(t, ids, acc) == SplitFrom(u, ids, acc)
    decreases |ids|
  {
    if |ids| > 0 && DeviceStreams(t, ids[0]).Success? {
      SplitFromOfSelection(t, u, ids[1..], Store(acc, ids[0], DeviceStreams(t, ids[0]).value));
    }
  }

  /** Rows of any other device number, or with no usable device number, are
      ignored: removing them leaves the result unchanged. */
  lemma ForeignRowsIgnored(t: Table)
    requires WellFormed(t)
    ensures WellFormed(Table(t.columns, Filter(t.rows, OnKnownDevice)))
    ensures SplitDevices(Table(t.columns, Filter(t.rows, OnKnownDevice))) == SplitDevices(t)
  {
    var u := Table(t.columns, Filter(t.rows, OnKnownDevice));
    forall i | 0 <= i < |u.rows| ensures u.rows[i].Keys == ColumnSet(u.columns) {
      assert u.rows[i] in t.rows;
    }
    forall d | d in DeviceRoles ensures DeviceStreams(t, d) == DeviceStreams(u, d) {
      FilterFilter(t.rows, OnKnownDevice, OnDevice(d), OnDevice(d));
      DeviceStreamsOfSelection(t, u, d);
    }
    SplitFromOfSelection(t, u, DeviceOrder, map[]);
  }
}
