/** How the loader and the splitter fit together: every table the loader
    produces can be split. */
module Pipeline {
  import opened Wrappers
  import opened Tables
  import opened Loader
  import opened Devices

  /** The column constants of the splitter are names of the canonical header:
      the device number comes first, then the eight channels, the six IMU axes
      and the timestamp. */
  lemma ColumnsInHeader()
    ensures HeaderSimple == [DeviceColumn] + ExgCols + ImuCols + [TimestampColumn]
    ensures forall d, c :: d in DeviceRoles && c in ExgColumnsFor(DeviceRoles[d]) + ImuStreamColumns ==> c in HeaderSimple
  {
    var hs := [DeviceColumn] + ExgCols + ImuCols + [TimestampColumn];
    assert HeaderSimple == hs;
    forall d, c | d in DeviceRoles && c in ExgColumnsFor(DeviceRoles[d]) + ImuStreamColumns
      ensures c in HeaderSimple
    {
      assert c in ExgCols || c in ImuCols || c == TimestampColumn;
    }
  }

  /** A table read by the loader never makes the splitter fail: it has the device
      column and every column a stream selects. */
  lemma LoadedTableSplits(lines: seq<string>)
    ensures LoadSimple(lines).Success? ==> SplitDevices(LoadSimple(lines).value).Success?
  {
    if LoadSimple(lines).Success? {
      var t := LoadSimple(lines).value;
      ColumnsInHeader();
      assert DeviceColumn in t.columns;
      forall d | d in DeviceRoles ensures HasStreamColumns(t, d) {
      }
    }
  }

  /** The splitter's own coercion of the numeric columns changes no row the
      loader returned. */
  lemma LoadedRowsStayCoerced(lines: seq<string>)
    ensures LoadSimple(lines).Success? ==>
              forall i :: 0 <= i < |LoadSimple(lines).value.rows| ==>
                CoerceRow(LoadSimple(lines).value.rows[i], NumericCols) == LoadSimple(lines).value.rows[i]
  {
    if LoadSimple(lines).Success? {
      var rows := LoadSimple(lines).value.rows;
      forall i | 0 <= i < |rows| ensures CoerceRow(rows[i], NumericCols) == rows[i] {
        CoerceRowWithoutText(rows[i], NumericCols);
      }
    }
  }
}
