/** The training table and the loop that builds it from CSV records
    (`InputData::from_file`, src/lib.rs:25-68). The CSV reader is replaced by
    the sequence of records it yields; every field is kept verbatim. */
module Dataset {
  import opened Collections

  /** One attribute's entry in the schema: its distinct values, first-seen first. */
  datatype Attribute = Attribute(variants: seq<string>)

  /** One observation: its label and its value for each attribute. */
  datatype Row = Row(result: string, values: map<string, string>)

  /** The schema and the rows, filled in place by the loader. */
  class InputData {
    var attributeNames: seq<string>
    var attributeMap: map<string, Attribute>
    var resultName: string
    var resultVariants: seq<string>
    var rows: seq<Row>

    constructor ()
      ensures attributeNames == [] && attributeMap == map[] && resultName == ""
      ensures resultVariants == [] && rows == []
    {
      attributeNames := [];
      attributeMap := map[];
      resultName := "";
      resultVariants := [];
      rows := [];
    }

    /** The schema fields hold exactly what scanning `header` and then the
        records `later` produces: the header names the result column and the
        attributes, every later record contributes its values, each list
        kept in first-seen order without repeats. */
    ghost predicate Describes(header: seq<string>, later: seq<seq<string>>, pos: nat)
      reads this`attributeNames, this`attributeMap, this`resultName, this`resultVariants
    {
      && attributeNames == HeaderNames(header, pos)
      && resultName == (if pos < |header| then header[pos] else "")
      && resultVariants == Dedup(ResultValues(later, pos))
      && attributeMap.Keys == Elements(attributeNames)
      && forall a :: a in attributeMap ==>
           attributeMap[a].variants == Dedup(AttributeValues(later, pos, attributeNames, a))
    }

    /** A header field (record 0, src/lib.rs:33-40): the result column's
        field becomes the result name, any other is appended as an
        attribute with no variants yet. */
    method ScanHeaderField(header: seq<string>, j: nat, pos: nat)
      requires j < |header| && Describes(header[..j], [], pos)
      modifies this`resultName, this`attributeNames, this`attributeMap
      ensures Describes(header[..j + 1], [], pos)
    {
      HeaderFieldStep(header, j, pos);
      var field := header[j];
      if j == pos {
        resultName := field;
      } else {
        attributeNames := attributeNames + [field];
        attributeMap := attributeMap[field := Attribute([])];
      }
    }

    /** The field loop over record 0 (src/lib.rs:32-40). */
    method ScanHeader(header: seq<string>, pos: nat)
      requires Describes([], [], pos)
      modifies this`resultName, this`attributeNames, this`attributeMap
      ensures Describes(header, [], pos)
    {
      assert header[..0] == [];
      var fieldIdx := 0;
      while fieldIdx < |header|
        invariant fieldIdx <= |header| && Describes(header[..fieldIdx], [], pos)
      {
        ScanHeaderField(header, fieldIdx, pos);
        fieldIdx := fieldIdx + 1;
      }
      assert header[..|header|] == header;
    }

    /** The state while a later record is being scanned: the records `later`
        are done and `partial`, the first fields of the next one, has been
        added as well. */
    ghost predicate Scanned(header: seq<string>, later: seq<seq<string>>, partial: seq<string>, pos: nat)
      reads this`attributeNames, this`attributeMap, this`resultName, this`resultVariants
    {
      && attributeNames == HeaderNames(header, pos)
      && resultName == (if pos < |header| then header[pos] else "")
      && resultVariants == ResultColumn(later, partial, pos)
      && attributeMap.Keys == Elements(attributeNames)
      && forall a :: a in attributeMap ==> attributeMap[a].variants == Column(later, partial, pos, attributeNames, a)
    }

    lemma StartRecord(header: seq<string>, later: seq<seq<string>>, pos: nat)
      requires Describes(header, later, pos)
      ensures Scanned(header, later, [], pos)
    {
      assert ResultValues(later, pos) + ResultPart([], pos) == ResultValues(later, pos);
      forall a | a in attributeMap
        ensures attributeMap[a].variants == Column(later, [], pos, attributeNames, a)
      {
        assert AttributeValues(later, pos, attributeNames, a) + AttributePart([], pos, attributeNames, a) ==
               AttributeValues(later, pos, attributeNames, a);
      }
    }

    lemma FinishRecord(header: seq<string>, later: seq<seq<string>>, rec: seq<string>, pos: nat)
      requires Scanned(header, later, rec, pos)
      ensures Describes(header, later + [rec], pos)
    {
      ValuesSnoc(later, rec, pos);
    }

    /** A field of a later record (src/lib.rs:42-63), the one at index `j`
        after the fields `partial`: the result field joins `resultVariants`
        if new; any other field is looked up by the shifted index and joins
        that attribute's variants if new. `overflow` is the `unwrap` of an
        index with no attribute name. The row being filled is passed in and
        out. */
    method ScanLaterField(ghost header: seq<string>, ghost later: seq<seq<string>>, ghost partial: seq<string>,
                          field: string, j: nat, pos: nat, row: Row)
      returns (overflow: bool, row': Row)
      requires j == |partial| && Scanned(header, later, partial, pos)
      modifies this`resultVariants, this`attributeMap
      ensures overflow <==> j != pos && AttributeIndex(j, pos) >= |HeaderNames(header, pos)|
      ensures !overflow ==> Scanned(header, later, partial + [field], pos)
      ensures !overflow ==> row' == FillRow(row, field, j, pos, HeaderNames(header, pos))
    {
      row' := row;
      overflow := false;
      if j == pos {
        row' := row'.(result := field);
        ScanResultField(header, later, partial, field, pos);
      } else {
        var lookupIdx: nat;
        if j < pos {
          lookupIdx := j;
        } else {
          lookupIdx := j - 1;
        }
        if lookupIdx >= |attributeNames| {
          overflow := true;
          return;
        }
        var attributeName := attributeNames[lookupIdx];
        row' := row'.(values := row'.values[attributeName := field]);
        ScanAttributeField(header, later, partial, field, attributeName, pos);
      }
    }

    /** The result field joins `resultVariants` if it is new
        (src/lib.rs:44-47). */
    method ScanResultField(ghost header: seq<string>, ghost later: seq<seq<string>>, ghost partial: seq<string>,
                           field: string, ghost pos: nat)
      requires |partial| == pos && Scanned(header, later, partial, pos)
      modifies this`resultVariants
      ensures Scanned(header, later, partial + [field], pos)
    {
      ResultColumnSnoc(later, partial, field, pos);
      ColumnsSnoc(attributeMap, later, partial, field, pos, attributeNames);
      if field !in resultVariants {
        resultVariants := resultVariants + [field];
      }
    }

    /** Any other field joins the variants of its attribute `name` if it is
        new (src/lib.rs:49-62). */
    method ScanAttributeField(ghost header: seq<string>, ghost later: seq<seq<string>>, ghost partial: seq<string>,
                              field: string, name: string, ghost pos: nat)
      requires |partial| != pos && AttributeIndex(|partial|, pos) < |attributeNames|
      requires name == attributeNames[AttributeIndex(|partial|, pos)]
      requires Scanned(header, later, partial, pos)
      modifies this`attributeMap
      ensures Scanned(header, later, partial + [field], pos)
    {
      ResultColumnSnoc(later, partial, field, pos);
      ghost var before := attributeMap;
      var variants := attributeMap[name].variants;
      if field !in variants {
        attributeMap := attributeMap[name := Attribute(variants + [field])];
      }
      ColumnsUpdated(before, attributeMap, later, partial, field, pos, attributeNames, name);
    }

    /** The field loop over a later record as written (src/lib.rs:31-64): a
        fresh row is made for every field and dropped, so nothing of the
        record reaches `rows`. */
    method ScanRecordDiscardingRow(ghost header: seq<string>, ghost later: seq<seq<string>>, rec: seq<string>, pos: nat)
      returns (overflow: bool)
      requires Describes(header, later, pos)
      modifies this`resultVariants, this`attributeMap
      ensures overflow <==> Overflows(rec, pos, |HeaderNames(header, pos)|)
      ensures !overflow ==> Describes(header, later + [rec], pos)
    {
      StartRecord(header, later, pos);
      ghost var names := HeaderNames(header, pos);
      ghost var partial: seq<string> := [];
      var row: Row;
      overflow := false;
      var fieldIdx := 0;
      while fieldIdx < |rec|
        invariant fieldIdx <= |rec| && partial == rec[..fieldIdx]
        invariant Scanned(header, later, partial, pos)
        invariant forall i :: 0 <= i < fieldIdx && i != pos ==> AttributeIndex(i, pos) < |names|
      {
        row := Row("", map[]);
        overflow, row := ScanLaterField(header, later, partial, rec[fieldIdx], fieldIdx, pos, row);
        if overflow {
          return;
        }
        TakeSnoc(rec, fieldIdx);
        partial := partial + [rec[fieldIdx]];
        fieldIdx := fieldIdx + 1;
      }
      assert partial == rec;
      FinishRecord(header, later, rec, pos);
    }

    /** The field loop over a later record with one row per record: the row
        is made before the first field, filled by every field and appended
        to `rows` once the record is scanned. */
    method ScanRecordKeepingRow(ghost header: seq<string>, ghost later: seq<seq<string>>, rec: seq<string>, pos: nat)
      returns (overflow: bool)
      requires Describes(header, later, pos)
      modifies this`resultVariants, this`attributeMap, this`rows
      ensures overflow <==> Overflows(rec, pos, |HeaderNames(header, pos)|)
      ensures !overflow ==> Describes(header, later + [rec], pos)
      ensures !overflow ==> rows == old(rows) + [RowOf(rec, pos, HeaderNames(header, pos))]
    {
      var row;
      overflow, row := ScanRecordFillingRow(header, later, rec, pos);
      if !overflow {
        rows := rows + [row];
      }
    }

    /** The fields of a later record scanned into the schema and into one
        row, made before the first field. */
    method ScanRecordFillingRow(ghost header: seq<string>, ghost later: seq<seq<string>>, rec: seq<string>, pos: nat)
      returns (overflow: bool, row: Row)
      requires Describes(header, later, pos)
      modifies this`resultVariants, this`attributeMap
      ensures overflow <==> Overflows(rec, pos, |HeaderNames(header, pos)|)
      ensures !overflow ==> Describes(header, later + [rec], pos)
      ensures !overflow ==> row == RowOf(rec, pos, HeaderNames(header, pos))
    {
      StartRecord(header, later, pos);
      ghost var names := HeaderNames(header, pos);
      ghost var partial: seq<string> := [];
      row := Row("", map[]);
      overflow := false;
      var fieldIdx := 0;
      while fieldIdx < |rec|
        invariant fieldIdx <= |rec| && partial == rec[..fieldIdx]
        invariant Scanned(header, later, partial, pos)
        invariant row == RowOf(partial, pos, names)
        invariant forall i :: 0 <= i < fieldIdx && i != pos ==> AttributeIndex(i, pos) < |names|
      {
        RowOfSnoc(partial, rec[fieldIdx], pos, names);
        overflow, row := ScanLaterField(header, later, partial, rec[fieldIdx], fieldIdx, pos, row);
        if overflow {
          return;
        }
        TakeSnoc(rec, fieldIdx);
        partial := partial + [rec[fieldIdx]];
        fieldIdx := fieldIdx + 1;
      }
      assert partial == rec;
      FinishRecord(header, later, rec, pos);
    }

    /** The first `n` records are loaded: the schema describes them and
        none of the later ones among them made the loader panic. */
    ghost predicate Loaded(records: seq<seq<string>>, n: nat, pos: nat)
      requires n <= |records|
      reads this`attributeNames, this`attributeMap, this`resultName, this`resultVariants
    {
      && Describes(Header(records[..n]), Later(records[..n]), pos)
      && (n > 0 ==> !PanicsBefore(records, n, pos))
    }

    /** As `Loaded`, and `rows` holds one row per later record. */
    ghost predicate LoadedWithRows(records: seq<seq<string>>, n: nat, pos: nat)
      requires n <= |records|
      reads this`attributeNames, this`attributeMap, this`resultName, this`resultVariants, this`rows
    {
      && Loaded(records, n, pos)
      && rows == RowsOf(Later(records[..n]), pos, HeaderNames(Header(records[..n]), pos))
    }

    /** Loaded from records that all have the header's width, with the result
        column inside it, the table is what the partitioning step relies on:
        every row has a listed value for every attribute and a listed label. */
    lemma LoadedTableConforms(records: seq<seq<string>>, pos: nat)
      requires |records| > 0 && pos < |records[0]|
      requires forall k :: 0 <= k < |records| ==> |records[k]| == |records[0]|
      requires Describes(records[0], Later(records), pos)
      requires rows == RowsOf(Later(records), pos, attributeNames)
      ensures Conforms(rows, attributeNames, attributeMap)
      ensures forall i :: 0 <= i < |rows| ==> rows[i].result in resultVariants
    {
      var header, later, names := records[0], Later(records), attributeNames;
      HeaderNamesAt(header, pos);
      RowsOfAt(later, pos, names);
      DedupProperties(ResultValues(later, pos));
      forall i, a | 0 <= i < |rows| && a in names
        ensures a in rows[i].values && rows[i].values[a] in attributeMap[a].variants
      {
        var rec := later[i];
        assert rec == records[i + 1];
        var l :| 0 <= l < |names| && names[l] == a;
        FieldOfAttribute(header, pos, l);
        var f := if l < pos then l else l + 1;
        RowOfHas(rec, pos, names, f);
        RowOfValue(rec, pos, names, a);
        PartInValues(later, i, pos, names, a);
        DedupProperties(AttributeValues(later, pos, names, a));
      }
      forall i | 0 <= i < |rows|
        ensures rows[i].result in resultVariants
      {
        assert later[i] == records[i + 1];
        RowOfResult(later[i], pos, names);
        ResultInValues(later, i, pos);
      }
    }

    /** One iteration of the record loop (src/lib.rs:31-65): record 0 is the
        header, any other record is scanned for values with its row
        dropped; `overflow` is the panic of a field with no attribute. */
    method ScanRecordAt(records: seq<seq<string>>, idx: nat, pos: nat) returns (overflow: bool)
      requires idx < |records| && Loaded(records, idx, pos)
      modifies this`resultName, this`attributeNames, this`attributeMap, this`resultVariants
      ensures overflow <==> idx > 0 && Overflows(records[idx], pos, |HeaderNames(records[0], pos)|)
      ensures !overflow ==> Loaded(records, idx + 1, pos)
    {
      LoaderPrefixSnoc(records, idx);
      overflow := false;
      if idx == 0 {
        ScanHeader(records[idx], pos);
      } else {
        PanicsBeforeSnoc(records, idx, pos);
        overflow := ScanRecordDiscardingRow(records[0], Later(records[..idx]), records[idx], pos);
      }
    }

    /** The same iteration, appending the record's row to `rows`. */
    method ScanRecordKeepingRowAt(records: seq<seq<string>>, idx: nat, pos: nat) returns (overflow: bool)
      requires idx < |records| && LoadedWithRows(records, idx, pos)
      modifies this`resultName, this`attributeNames, this`attributeMap, this`resultVariants, this`rows
      ensures overflow <==> idx > 0 && Overflows(records[idx], pos, |HeaderNames(records[0], pos)|)
      ensures !overflow ==> LoadedWithRows(records, idx + 1, pos)
    {
      LoaderPrefixSnoc(records, idx);
      overflow := false;
      if idx == 0 {
        ScanHeader(records[idx], pos);
      } else {
        PanicsBeforeSnoc(records, idx, pos);
        RowsOfAppend(Later(records[..idx]), records[idx], pos, HeaderNames(records[0], pos));
        overflow := ScanRecordKeepingRow(records[0], Later(records[..idx]), records[idx], pos);
      }
    }
  }

  /** Every row has a value for every attribute, and that value is one of the
      attribute's listed variants: what the `unwrap`s of the partitioning step
      rely on. */
  ghost predicate Conforms(rows: seq<Row>, names: seq<string>, amap: map<string, Attribute>)
  {
    && (forall a :: a in names ==> a in amap)
    && forall i, a :: 0 <= i < |rows| && a in names ==>
         a in rows[i].values && rows[i].values[a] in amap[a].variants
  }

  // ---------------------------------------------------------------------
  // What the record loop computes, column by column

  /** Position in `attributeNames` of the attribute that field `fieldIdx`
      belongs to: the result column is skipped, so later fields shift down. */
  function AttributeIndex(fieldIdx: nat, pos: nat): nat
    requires fieldIdx != pos
  {
    if fieldIdx < pos then fieldIdx else fieldIdx - 1
  }

  /** The header fields other than the result column, in order. */
  function HeaderNames(header: seq<string>, pos: nat): seq<string>
  {
    if header == [] then []
    else
      var i := |header| - 1;
      var prev := HeaderNames(header[..i], pos);
      if i == pos then prev else prev + [header[i]]
  }

  /** The result field of one record, if it has one. */
  function ResultPart(rec: seq<string>, pos: nat): seq<string>
  {
    if pos < |rec| then [rec[pos]] else []
  }

  /** The result fields of `recs`, in scan order. */
  function ResultValues(recs: seq<seq<string>>, pos: nat): seq<string>
  {
    if recs == [] then []
    else ResultValues(recs[..|recs| - 1], pos) + ResultPart(recs[|recs| - 1], pos)
  }

  /** The fields of one record that belong to attribute `a`, in order. */
  function AttributePart(rec: seq<string>, pos: nat, names: seq<string>, a: string): seq<string>
  {
    if rec == [] then []
    else
      var i := |rec| - 1;
      var prev := AttributePart(rec[..i], pos, names, a);
      if i != pos && AttributeIndex(i, pos) < |names| && names[AttributeIndex(i, pos)] == a
      then prev + [rec[i]] else prev
  }

  /** The fields of `recs` that belong to attribute `a`, in scan order. */
  function AttributeValues(recs: seq<seq<string>>, pos: nat, names: seq<string>, a: string): seq<string>
  {
    if recs == [] then []
    else AttributeValues(recs[..|recs| - 1], pos, names, a) + AttributePart(recs[|recs| - 1], pos, names, a)
  }

  /** Some field of a later record maps past the end of the attribute list. */
  ghost predicate Overflows(rec: seq<string>, pos: nat, width: nat)
  {
    exists i :: 0 <= i < |rec| && i != pos && AttributeIndex(i, pos) >= width
  }

  /** The loader panics: a later record has a field for which no attribute
      name exists (`attribute_names.get(..).unwrap()` on `None`). */
  ghost predicate Panics(records: seq<seq<string>>, pos: nat)
  {
    records != [] && PanicsBefore(records, |records|, pos)
  }

  /** One of the later records before index `n` overflows. */
  ghost predicate PanicsBefore(records: seq<seq<string>>, n: nat, pos: nat)
    requires 0 < |records| && n <= |records|
  {
    exists k :: 1 <= k < n && Overflows(records[k], pos, |HeaderNames(records[0], pos)|)
  }

  /** Scanning one more record panics iff an earlier one did or it overflows. */
  lemma PanicsBeforeSnoc(records: seq<seq<string>>, n: nat, pos: nat)
    requires 0 < n < |records|
    ensures PanicsBefore(records, n + 1, pos) <==>
            PanicsBefore(records, n, pos) || Overflows(records[n], pos, |HeaderNames(records[0], pos)|)
  {
  }

  /** Records that all have the header's width never make the loader panic:
      every non-result field has an attribute name. */
  lemma RectangularNeverPanics(records: seq<seq<string>>, pos: nat)
    requires forall k :: 0 <= k < |records| ==> |records[k]| == |records[0]|
    ensures !Panics(records, pos)
  {
    if records != [] {
      HeaderNamesAt(records[0], pos);
    }
  }

  /** Field `i` of a record, holding `field`, entered into a row: as its
      label if it is the result field, else under its attribute's name. */
  function FillRow(row: Row, field: string, i: nat, pos: nat, names: seq<string>): Row
  {
    if i == pos then row.(result := field)
    else if AttributeIndex(i, pos) < |names| then
      row.(values := row.values[names[AttributeIndex(i, pos)] := field])
    else row
  }

  /** The row the loader would build from one record. */
  function RowOf(rec: seq<string>, pos: nat, names: seq<string>): Row
  {
    if rec == [] then Row("", map[])
    else
      var i := |rec| - 1;
      FillRow(RowOf(rec[..i], pos, names), rec[i], i, pos, names)
  }

  /** The rows the loader would build from `recs`, one per record. */
  function RowsOf(recs: seq<seq<string>>, pos: nat, names: seq<string>): seq<Row>
  {
    if recs == [] then [] else RowsOf(recs[..|recs| - 1], pos, names) + [RowOf(recs[|recs| - 1], pos, names)]
  }

  // ---------------------------------------------------------------------
  // Lemmas about the column functions

  /** The index shift: the header has one name per field except the result
      field, and field `i` names attribute `AttributeIndex(i, pos)`. */
  lemma {:induction false} HeaderNamesAt(header: seq<string>, pos: nat)
    ensures |HeaderNames(header, pos)| == if pos < |header| then |header| - 1 else |header|
    ensures forall i :: 0 <= i < |header| && i != pos ==>
              HeaderNames(header, pos)[AttributeIndex(i, pos)] == header[i]
  {
    if header != [] {
      var n := |header| - 1;
      HeaderNamesAt(header[..n], pos);
    }
  }

  /** Every attribute position is reached by exactly the field the shift
      predicts. */
  lemma FieldOfAttribute(header: seq<string>, pos: nat, l: nat)
    requires pos < |header| && l < |header| - 1
    ensures var i := if l < pos then l else l + 1;
      i < |header| && i != pos && AttributeIndex(i, pos) == l
  {
  }

  /** One more header field: it is the result name or the next attribute. */
  lemma HeaderFieldStep(header: seq<string>, j: nat, pos: nat)
    requires j < |header|
    ensures HeaderNames(header[..j + 1], pos) ==
            if j == pos then HeaderNames(header[..j], pos) else HeaderNames(header[..j], pos) + [header[j]]
  {
    assert header[..j + 1][..j] == header[..j];
  }

  /** Appending a record appends its parts to every column. */
  lemma ValuesSnoc(later: seq<seq<string>>, rec: seq<string>, pos: nat)
    ensures ResultValues(later + [rec], pos) == ResultValues(later, pos) + ResultPart(rec, pos)
    ensures forall names, a :: AttributeValues(later + [rec], pos, names, a) ==
                               AttributeValues(later, pos, names, a) + AttributePart(rec, pos, names, a)
  {
    assert (later + [rec])[..|later|] == later;
  }

  /** One more field of a record extends the part of the attribute it maps
      to, and no other part. */
  lemma PartSnoc(partial: seq<string>, field: string, pos: nat, names: seq<string>)
    ensures forall a :: AttributePart(partial + [field], pos, names, a) ==
                        var j := |partial|;
                        if j != pos && AttributeIndex(j, pos) < |names| && names[AttributeIndex(j, pos)] == a
                        then AttributePart(partial, pos, names, a) + [field]
                        else AttributePart(partial, pos, names, a)
  {
    assert (partial + [field])[..|partial|] == partial;
  }

  /** The result field is the one that first gives a record its result part. */
  lemma ResultPartSnoc(partial: seq<string>, field: string, pos: nat)
    ensures |partial| == pos ==> ResultPart(partial, pos) == [] && ResultPart(partial + [field], pos) == [field]
    ensures |partial| != pos ==> ResultPart(partial + [field], pos) == ResultPart(partial, pos)
  {
    if pos < |partial| {
      assert (partial + [field])[pos] == partial[pos];
    }
  }

  /** The variants of attribute `a` once the records `later` and the first
      fields `partial` of the next record are scanned. */
  ghost function Column(later: seq<seq<string>>, partial: seq<string>, pos: nat, names: seq<string>, a: string): seq<string>
  {
    Dedup(AttributeValues(later, pos, names, a) + AttributePart(partial, pos, names, a))
  }

  /** The result variants at the same point. */
  ghost function ResultColumn(later: seq<seq<string>>, partial: seq<string>, pos: nat): seq<string>
  {
    Dedup(ResultValues(later, pos) + ResultPart(partial, pos))
  }

  /** A field gives the result column its value if it is the result field,
      and leaves it alone otherwise. */
  lemma ResultColumnSnoc(later: seq<seq<string>>, partial: seq<string>, field: string, pos: nat)
    ensures ResultColumn(later, partial + [field], pos) ==
            if |partial| != pos then ResultColumn(later, partial, pos)
            else if field in ResultColumn(later, partial, pos) then ResultColumn(later, partial, pos)
            else ResultColumn(later, partial, pos) + [field]
  {
    ResultPartSnoc(partial, field, pos);
    var values := ResultValues(later, pos);
    if |partial| == pos {
      assert values + ResultPart(partial + [field], pos) == (values + ResultPart(partial, pos)) + [field];
      DedupAppend(values + ResultPart(partial, pos), field);
    }
  }

  /** A field gives the attribute it maps to its value, and leaves every other
      attribute alone; stated over a map that holds the columns. */
  lemma ColumnsSnoc(m: map<string, Attribute>, later: seq<seq<string>>, partial: seq<string>, field: string,
                    pos: nat, names: seq<string>)
    requires forall a :: a in m ==> m[a].variants == Column(later, partial, pos, names, a)
    ensures forall a :: a in m && (|partial| == pos || AttributeIndex(|partial|, pos) >= |names| ||
                                   names[AttributeIndex(|partial|, pos)] != a) ==>
              m[a].variants == Column(later, partial + [field], pos, names, a)
    ensures forall a :: a in m && |partial| != pos && AttributeIndex(|partial|, pos) < |names| &&
                        names[AttributeIndex(|partial|, pos)] == a ==>
              Column(later, partial + [field], pos, names, a) ==
              if field in m[a].variants then m[a].variants else m[a].variants + [field]
  {
    forall a | a in m
      ensures Column(later, partial + [field], pos, names, a) ==
              if |partial| != pos && AttributeIndex(|partial|, pos) < |names| && names[AttributeIndex(|partial|, pos)] == a
              then (if field in Column(later, partial, pos, names, a) then Column(later, partial, pos, names, a)
                    else Column(later, partial, pos, names, a) + [field])
              else Column(later, partial, pos, names, a)
    {
      ColumnSnoc(later, partial, field, pos, names, a);
    }
  }

  /** One more field extends the column of the attribute it maps to, if it
      is new there, and leaves every other column as it is. */
  lemma ColumnSnoc(later: seq<seq<string>>, partial: seq<string>, field: string, pos: nat, names: seq<string>, a: string)
    ensures Column(later, partial + [field], pos, names, a) ==
            if |partial| != pos && AttributeIndex(|partial|, pos) < |names| && names[AttributeIndex(|partial|, pos)] == a
            then (if field in Column(later, partial, pos, names, a) then Column(later, partial, pos, names, a)
                  else Column(later, partial, pos, names, a) + [field])
            else Column(later, partial, pos, names, a)
  {
    PartSnoc(partial, field, pos, names);
    var values := AttributeValues(later, pos, names, a);
    var part := AttributePart(partial, pos, names, a);
    if AttributePart(partial + [field], pos, names, a) != part {
      assert values + AttributePart(partial + [field], pos, names, a) == (values + part) + [field];
      DedupAppend(values + part, field);
    }
  }

  /** The attribute map after one field is added to the variants of its
      attribute `name`, if new, holds the columns one field further. */
  lemma ColumnsUpdated(before: map<string, Attribute>, after: map<string, Attribute>, later: seq<seq<string>>,
                       partial: seq<string>, field: string, pos: nat, names: seq<string>, name: string)
    requires |partial| != pos && AttributeIndex(|partial|, pos) < |names| && name == names[AttributeIndex(|partial|, pos)]
    requires name in before
    requires forall a :: a in before ==> before[a].variants == Column(later, partial, pos, names, a)
    requires after == if field in before[name].variants then before
                      else before[name := Attribute(before[name].variants + [field])]
    ensures after.Keys == before.Keys
    ensures forall a :: a in after ==> after[a].variants == Column(later, partial + [field], pos, names, a)
  {
    ColumnsSnoc(before, later, partial, field, pos, names);
    if field !in before[name].variants {
      forall a | a in after
        ensures after[a].variants == Column(later, partial + [field], pos, names, a)
      {
        if a != name {
          assert after[a] == before[a];
        }
      }
    }
  }

  /** A record's attribute fields appear in the column of the whole scan. */
  lemma {:induction false} PartInValues(recs: seq<seq<string>>, k: nat, pos: nat, names: seq<string>, a: string)
    requires k < |recs|
    ensures forall x :: x in AttributePart(recs[k], pos, names, a) ==> x in AttributeValues(recs, pos, names, a)
  {
    if k < |recs| - 1 {
      PartInValues(recs[..|recs| - 1], k, pos, names, a);
    }
  }

  /** A record's result field appears in the result column of the scan. */
  lemma {:induction false} ResultInValues(recs: seq<seq<string>>, k: nat, pos: nat)
    requires k < |recs| && pos < |recs[k]|
    ensures recs[k][pos] in ResultValues(recs, pos)
  {
    if k < |recs| - 1 {
      ResultInValues(recs[..|recs| - 1], k, pos);
    }
  }

  /** The value a row records for an attribute is one of that attribute's
      fields in the record. */
  lemma {:induction false} RowOfValue(rec: seq<string>, pos: nat, names: seq<string>, a: string)
    requires a in RowOf(rec, pos, names).values
    ensures RowOf(rec, pos, names).values[a] in AttributePart(rec, pos, names, a)
  {
    var i := |rec| - 1;
    var prev := RowOf(rec[..i], pos, names);
    if i != pos && AttributeIndex(i, pos) < |names| && names[AttributeIndex(i, pos)] == a {
    } else {
      RowOfValue(rec[..i], pos, names, a);
    }
  }

  /** Every field that maps to an attribute gives the row a value for it. */
  lemma {:induction false} RowOfHas(rec: seq<string>, pos: nat, names: seq<string>, i: nat)
    requires i < |rec| && i != pos && AttributeIndex(i, pos) < |names|
    ensures names[AttributeIndex(i, pos)] in RowOf(rec, pos, names).values
  {
    var n := |rec| - 1;
    if i < n {
      assert rec[..n][i] == rec[i];
      RowOfHas(rec[..n], pos, names, i);
    }
  }

  /** The row's label is the record's result field. */
  lemma {:induction false} RowOfResult(rec: seq<string>, pos: nat, names: seq<string>)
    requires pos < |rec|
    ensures RowOf(rec, pos, names).result == rec[pos]
  {
    var n := |rec| - 1;
    if pos < n {
      assert rec[..n][pos] == rec[pos];
      RowOfResult(rec[..n], pos, names);
    }
  }

  // ---------------------------------------------------------------------
  // The record loop

  /** The first record the reader yields: the one the loader reads names from. */
  function Header(records: seq<seq<string>>): seq<string>
  {
    if records == [] then [] else records[0]
  }

  /** The records after the first one: the ones the loader reads values from. */
  function Later(records: seq<seq<string>>): seq<seq<string>>
  {
    if records == [] then [] else records[1..]
  }

  /** Filling a row with one more field. */
  lemma RowOfSnoc(partial: seq<string>, field: string, pos: nat, names: seq<string>)
    ensures RowOf(partial + [field], pos, names) == FillRow(RowOf(partial, pos, names), field, |partial|, pos, names)
  {
    assert (partial + [field])[..|partial|] == partial;
  }

  /** One row per record, in record order. */
  lemma {:induction false} RowsOfAt(recs: seq<seq<string>>, pos: nat, names: seq<string>)
    ensures |RowsOf(recs, pos, names)| == |recs|
    ensures forall i :: 0 <= i < |recs| ==> RowsOf(recs, pos, names)[i] == RowOf(recs[i], pos, names)
  {
    if recs != [] {
      RowsOfAt(recs[..|recs| - 1], pos, names);
    }
  }

  lemma RowsOfAppend(recs: seq<seq<string>>, rec: seq<string>, pos: nat, names: seq<string>)
    ensures RowsOf(recs + [rec], pos, names) == RowsOf(recs, pos, names) + [RowOf(rec, pos, names)]
  {
    assert (recs + [rec])[..|recs|] == recs;
  }

  /** `InputData::from_file` as written (src/lib.rs:26-67): record 0 names
      the columns, every later record adds its values to the schema, but the
      row built for it is thrown away, so `rows` stays empty. A field whose
      attribute index is out of range makes the `unwrap` panic. */
  method FromRecords(records: seq<seq<string>>, resultPosition: nat) returns (data: InputData, panicked: bool)
    ensures fresh(data)
    ensures panicked <==> Panics(records, resultPosition)
    ensures !panicked ==> data.Describes(Header(records), Later(records), resultPosition) && data.rows == []
  {
    data := new InputData();
    panicked := false;
    var idx := 0;
    while idx < |records|
      invariant idx <= |records| && data.rows == [] && data.Loaded(records, idx, resultPosition)
    {
      var overflow := data.ScanRecordAt(records, idx, resultPosition);
      if overflow {
        panicked := true;
        return;
      }
      idx := idx + 1;
    }
    assert records[..idx] == records;
  }

  /** The loader with the evident intent restored: one row per later record,
      filled field by field and appended once the record is scanned. */
  method FromRecordsKeepingRows(records: seq<seq<string>>, resultPosition: nat) returns (data: InputData, panicked: bool)
    ensures fresh(data)
    ensures panicked <==> Panics(records, resultPosition)
    ensures !panicked ==> data.Describes(Header(records), Later(records), resultPosition)
    ensures !panicked ==> data.rows == RowsOf(Later(records), resultPosition, data.attributeNames)
  {
    data := new InputData();
    panicked := false;
    var idx := 0;
    while idx < |records|
      invariant idx <= |records| && data.LoadedWithRows(records, idx, resultPosition)
    {
      var overflow := data.ScanRecordKeepingRowAt(records, idx, resultPosition);
      if overflow {
        panicked := true;
        return;
      }
      idx := idx + 1;
    }
    assert records[..idx] == records;
  }

  /** One more record: the first one becomes the header, any other is
      appended to the later ones. */
  lemma LoaderPrefixSnoc(records: seq<seq<string>>, idx: nat)
    requires idx < |records|
    ensures Header(records[..idx + 1]) == records[0]
    ensures idx == 0 ==> Later(records[..idx + 1]) == []
    ensures idx > 0 ==> Header(records[..idx]) == records[0]
    ensures idx > 0 ==> Later(records[..idx + 1]) == Later(records[..idx]) + [records[idx]]
  {
    if idx > 0 {
      assert records[..idx + 1][1..] == records[..idx][1..] + [records[idx]];
    }
  }
}
