// The concatenating union operator: the row type it declares for two inputs, and the
// cursor that yields every row of the first input and then every row of the second,
// each row presented under the declared output type.

module UnionAllDefault {
  import opened Wrappers
  import opened Rows
  import opened Cursors

  /** The two exceptions of the operator: IllegalArgumentException "RowTypes not of same
      shape" and WrongRowTypeException. */
  datatype UnionError =
    | NotSameShape(rt1: RowType, rt2: RowType)
    | WrongRowType(row: Row, expected: RowType)

  // ---------------------------------------------------------------- row-type unification

  /** Two field types can be merged: they are equal, or at least one is unknown. */
  predicate Compatible(t1: FieldType, t2: FieldType) {
    t1 == t2 || t1.None? || t2.None?
  }

  /** The merged type of one field: an unknown type gives way to the other side's. */
  function MergeField(t1: FieldType, t2: FieldType): FieldType
    requires Compatible(t1, t2)
  {
    if t1 == t2 then t1 else if t1.None? then t2 else t1
  }

  /** Same number of fields, and every pair of corresponding field types compatible. */
  predicate SameShape(rt1: RowType, rt2: RowType) {
    rt1.NFields() == rt2.NFields() &&
    forall i :: 0 <= i < rt1.NFields() ==> Compatible(rt1.fields[i], rt2.fields[i])
  }

  /** The reference definition of the merged field list, first field first. */
  function MergedFields(f1: seq<FieldType>, f2: seq<FieldType>): (m: seq<FieldType>)
    requires |f1| == |f2|
    requires forall i :: 0 <= i < |f1| ==> Compatible(f1[i], f2[i])
    ensures |m| == |f1|
  {
    if f1 == [] then [] else [MergeField(f1[0], f2[0])] + MergedFields(f1[1..], f2[1..])
  }

  /** The type rowType(rowType1, rowType2) returns (or the error it throws), where
      `newTypeId` is the identity schema().newValuesType gives the type it builds. */
  function Unified(rt1: RowType, rt2: RowType, newTypeId: nat): Result<RowType, UnionError> {
    if rt1 == rt2 then Ok(rt1)
    else if !SameShape(rt1, rt2) then Err(NotSameShape(rt1, rt2))
    else Ok(RowType(newTypeId, MergedFields(rt1.fields, rt2.fields)))
  }

  lemma {:induction false} MergedFieldsAt(f1: seq<FieldType>, f2: seq<FieldType>, i: nat)
    requires |f1| == |f2| && i < |f1|
    requires forall j :: 0 <= j < |f1| ==> Compatible(f1[j], f2[j])
    ensures |MergedFields(f1, f2)| == |f1|
    ensures MergedFields(f1, f2)[i] == MergeField(f1[i], f2[i])
  {
    if i > 0 {
      MergedFieldsAt(f1[1..], f2[1..], i - 1);
    } else if |f1| > 1 {
      MergedFieldsAt(f1[1..], f2[1..], 0);
    } else {
      assert MergedFields(f1[1..], f2[1..]) == [];
    }
  }

  /** MergedFields is the field-by-field merge: any list with the right length and the
      merged type at every index is it. */
  lemma MergedFieldsIs(f1: seq<FieldType>, f2: seq<FieldType>, m: seq<FieldType>)
    requires |f1| == |f2| == |m|
    requires forall j :: 0 <= j < |f1| ==> Compatible(f1[j], f2[j])
    requires forall j :: 0 <= j < |m| ==> m[j] == MergeField(f1[j], f2[j])
    ensures MergedFields(f1, f2) == m
  {
    if |f1| == 0 {
    } else {
      forall j | 0 <= j < |m| ensures MergedFields(f1, f2)[j] == m[j] {
        MergedFieldsAt(f1, f2, j);
      }
      MergedFieldsAt(f1, f2, 0);
    }
  }

  /** rowTypeNew: builds the merged field list in an array, first field first, and fails
      with the shape error at the first pair of different known field types. */
  method RowTypeNew(rt1: RowType, rt2: RowType, newTypeId: nat) returns (r: Result<RowType, UnionError>)
    requires rt1.NFields() == rt2.NFields()
    ensures r.Ok? <==> SameShape(rt1, rt2)
    ensures r.Ok? ==> r.value == RowType(newTypeId, MergedFields(rt1.fields, rt2.fields))
    ensures r.Err? ==> r.error == NotSameShape(rt1, rt2)
  {
    var types := new FieldType[rt1.NFields()];
    for i := 0 to types.Length
      invariant forall j :: 0 <= j < i ==> Compatible(rt1.fields[j], rt2.fields[j])
      invariant forall j :: 0 <= j < i ==> types[j] == MergeField(rt1.fields[j], rt2.fields[j])
    {
      var tInst1 := rt1.TypeInstanceAt(i);
      var tInst2 := rt2.TypeInstanceAt(i);
      if tInst1 == tInst2 {
        types[i] := tInst1;
      } else if tInst1.None? {
        types[i] := tInst2;
      } else if tInst2.None? {
        types[i] := tInst1;
      } else {
        return Err(NotSameShape(rt1, rt2));
      }
    }
    MergedFieldsIs(rt1.fields, rt2.fields, types[..]);
    return Ok(RowType(newTypeId, types[..]));
  }

  /** rowType(rowType1, rowType2): the same object for identical types, the shape error for
      different field counts, and otherwise rowTypeNew. */
  method UnionRowType(rt1: RowType, rt2: RowType, newTypeId: nat) returns (r: Result<RowType, UnionError>)
    ensures r == Unified(rt1, rt2, newTypeId)
  {
    if rt1 == rt2 {
      return Ok(rt1);
    }
    if rt1.NFields() != rt2.NFields() {
      return Err(NotSameShape(rt1, rt2));
    }
    r := RowTypeNew(rt1, rt2, newTypeId);
  }

  /** A type unified with itself is that very type; no new type is built. */
  lemma UnifiedSelf(rt: RowType, newTypeId: nat)
    ensures Unified(rt, rt, newTypeId) == Ok(rt)
  {
  }

  /** Different field counts are a shape error; a unified type has the inputs' field count. */
  lemma UnifiedArity(rt1: RowType, rt2: RowType, newTypeId: nat)
    ensures rt1.NFields() != rt2.NFields() ==> Unified(rt1, rt2, newTypeId) == Err(NotSameShape(rt1, rt2))
    ensures Unified(rt1, rt2, newTypeId).Ok? ==>
      Unified(rt1, rt2, newTypeId).value.NFields() == rt1.NFields() == rt2.NFields()
  {
    if rt1 != rt2 && SameShape(rt1, rt2) && rt1.NFields() > 0 {
      MergedFieldsAt(rt1.fields, rt2.fields, 0);
    }
  }

  /** Field by field: equal types are kept, an unknown type gives way to the other side's,
      and two different known types make the unification fail. */
  lemma UnifiedFieldwise(rt1: RowType, rt2: RowType, newTypeId: nat)
    requires rt1 != rt2 && rt1.NFields() == rt2.NFields()
    ensures Unified(rt1, rt2, newTypeId).Err? <==>
      exists i :: 0 <= i < rt1.NFields() && rt1.fields[i].Some? && rt2.fields[i].Some? && rt1.fields[i] != rt2.fields[i]
    ensures Unified(rt1, rt2, newTypeId).Err? ==> Unified(rt1, rt2, newTypeId).error == NotSameShape(rt1, rt2)
    ensures var r := Unified(rt1, rt2, newTypeId);
      r.Ok? ==> (r.value.typeId == newTypeId && |r.value.fields| == rt1.NFields() &&
        forall i :: 0 <= i < rt1.NFields() ==>
          (rt1.fields[i] == rt2.fields[i] ==> r.value.fields[i] == rt1.fields[i]) &&
          (rt1.fields[i].None? ==> r.value.fields[i] == rt2.fields[i]) &&
          (rt2.fields[i].None? ==> r.value.fields[i] == rt1.fields[i]))
  {
    if SameShape(rt1, rt2) {
      forall i | 0 <= i < rt1.NFields() ensures |MergedFields(rt1.fields, rt2.fields)| == rt1.NFields() &&
        MergedFields(rt1.fields, rt2.fields)[i] == MergeField(rt1.fields[i], rt2.fields[i]) {
        MergedFieldsAt(rt1.fields, rt2.fields, i);
      }
      if rt1.NFields() == 0 {
        assert MergedFields(rt1.fields, rt2.fields) == [];
      }
    }
  }

  /** Whenever unification succeeds, the result's fields are the merged fields, also in
      the identity case. */
  lemma UnifiedOk(rt1: RowType, rt2: RowType, newTypeId: nat)
    ensures Unified(rt1, rt2, newTypeId).Ok? <==> SameShape(rt1, rt2)
    ensures SameShape(rt1, rt2) ==> Unified(rt1, rt2, newTypeId).value.fields == MergedFields(rt1.fields, rt2.fields)
  {
    if rt1 == rt2 {
      MergedFieldsIs(rt1.fields, rt1.fields, rt1.fields);
    }
  }

  /** Unification is commutative up to the identity of the type it builds. */
  lemma UnifiedCommutes(rt1: RowType, rt2: RowType, id1: nat, id2: nat)
    ensures Unified(rt1, rt2, id1).Ok? <==> Unified(rt2, rt1, id2).Ok?
    ensures Unified(rt1, rt2, id1).Ok? ==> Unified(rt1, rt2, id1).value.fields == Unified(rt2, rt1, id2).value.fields
  {
    UnifiedOk(rt1, rt2, id1);
    UnifiedOk(rt2, rt1, id2);
    if SameShape(rt1, rt2) {
      forall j | 0 <= j < rt1.NFields() ensures MergedFields(rt2.fields, rt1.fields)[j] == MergeField(rt1.fields[j], rt2.fields[j]) {
        MergedFieldsAt(rt2.fields, rt1.fields, j);
      }
      MergedFieldsIs(rt1.fields, rt2.fields, MergedFields(rt2.fields, rt1.fields));
    }
  }

  /** The field merge is associative, failures included. */
  lemma MergeFieldAssociates(x: FieldType, y: FieldType, z: FieldType)
    ensures (Compatible(x, y) && Compatible(MergeField(x, y), z)) <==> (Compatible(y, z) && Compatible(x, MergeField(y, z)))
    ensures Compatible(x, y) && Compatible(MergeField(x, y), z) ==>
      MergeField(MergeField(x, y), z) == MergeField(x, MergeField(y, z))
  {
  }

  /** Unification is associative up to the identities of the types it builds: both orders
      of pairwise reduction succeed or fail together and give the same fields. */
  lemma UnifiedAssociates(a: RowType, b: RowType, c: RowType, i1: nat, i2: nat, i3: nat, i4: nat)
    ensures var ab := Unified(a, b, i1); var bc := Unified(b, c, i2);
      (ab.Ok? && Unified(ab.value, c, i3).Ok?) <==> (bc.Ok? && Unified(a, bc.value, i4).Ok?)
    ensures var ab := Unified(a, b, i1); var bc := Unified(b, c, i2);
      ab.Ok? && Unified(ab.value, c, i3).Ok? ==>
        Unified(ab.value, c, i3).value.fields == Unified(a, bc.value, i4).value.fields
  {
    var ab := Unified(a, b, i1);
    var bc := Unified(b, c, i2);
    UnifiedOk(a, b, i1);
    UnifiedOk(b, c, i2);
    if ab.Ok? {
      UnifiedOk(ab.value, c, i3);
      forall j | 0 <= j < a.NFields() ensures ab.value.fields[j] == MergeField(a.fields[j], b.fields[j]) {
        MergedFieldsAt(a.fields, b.fields, j);
      }
      if SameShape(ab.value, c) {
        forall j | 0 <= j < b.NFields() ensures Compatible(b.fields[j], c.fields[j]) {
          MergeFieldAssociates(a.fields[j], b.fields[j], c.fields[j]);
        }
      }
    }
    if bc.Ok? {
      UnifiedOk(a, bc.value, i4);
      forall j | 0 <= j < b.NFields() ensures bc.value.fields[j] == MergeField(b.fields[j], c.fields[j]) {
        MergedFieldsAt(b.fields, c.fields, j);
      }
      if SameShape(a, bc.value) {
        forall j | 0 <= j < a.NFields() ensures Compatible(a.fields[j], b.fields[j]) {
          MergeFieldAssociates(a.fields[j], b.fields[j], c.fields[j]);
        }
      }
    }
    if ab.Ok? && SameShape(ab.value, c) {
      assert bc.Ok?;
      forall j | 0 <= j < a.NFields() ensures Compatible(a.fields[j], bc.value.fields[j]) {
        MergeFieldAssociates(a.fields[j], b.fields[j], c.fields[j]);
      }
      assert SameShape(a, bc.value);
      var l := MergedFields(ab.value.fields, c.fields);
      forall j | 0 <= j < a.NFields() ensures l[j] == MergeField(a.fields[j], bc.value.fields[j]) {
        MergedFieldsAt(ab.value.fields, c.fields, j);
        MergeFieldAssociates(a.fields[j], b.fields[j], c.fields[j]);
      }
      MergedFieldsIs(a.fields, bc.value.fields, l);
    }
    if bc.Ok? && SameShape(a, bc.value) {
      assert ab.Ok?;
      forall j | 0 <= j < a.NFields() ensures Compatible(ab.value.fields[j], c.fields[j]) {
        MergeFieldAssociates(a.fields[j], b.fields[j], c.fields[j]);
      }
      assert SameShape(ab.value, c);
    }
  }

  /** newValuesType builds a new object: with an identity unlike both inputs', two different
      types that unify give a type that is neither of them. */
  lemma UnifiedIsNew(rt1: RowType, rt2: RowType, newTypeId: nat)
    requires rt1 != rt2 && newTypeId != rt1.typeId && newTypeId != rt2.typeId
    ensures var r := Unified(rt1, rt2, newTypeId);
      r.Ok? ==> r.value.typeId == newTypeId && r.value != rt1 && r.value != rt2
  {
  }

  // ---------------------------------------------------------------- the operator

  /** The operator as built: its input row types, the unified output type and whether both
      inputs are opened together. The input operators themselves are represented, when a
      cursor is made, by the rows each one yields. */
  datatype UnionAll = UnionAll(inputTypes: seq<RowType>, outputRowType: RowType, openBoth: bool)

  /** UnionAll_Default(input1, input1Type, input2, input2Type, openBoth): the output type is
      the unification of the two input types, and construction fails with its shape error. */
  method NewUnionAll(input1Type: RowType, input2Type: RowType, openBoth: bool, newTypeId: nat)
    returns (r: Result<UnionAll, UnionError>)
    requires newTypeId != input1Type.typeId && newTypeId != input2Type.typeId
    ensures var u := Unified(input1Type, input2Type, newTypeId);
      (r.Ok? <==> u.Ok?) &&
      (r.Ok? ==> r.value == UnionAll([input1Type, input2Type], u.value, openBoth)) &&
      (r.Err? ==> r.error == u.error)
    ensures r.Ok? && input1Type != input2Type ==>
      r.value.outputRowType != input1Type && r.value.outputRowType != input2Type
  {
    var outputRowType := UnionRowType(input1Type, input2Type, newTypeId);
    if outputRowType.Err? {
      return Err(outputRowType.error);
    }
    return Ok(UnionAll([input1Type, input2Type], outputRowType.value, openBoth));
  }

  /** wrapped(inputRow): a row of the wrong type is an error; a row whose input type is the
      output type itself is passed on as it is; any other row is wrapped in a
      MasqueradingRow that carries the output type and the same values. */
  function Wrapped(inputRow: Row, currentInputRowType: RowType, outputRowType: RowType): (r: Result<Row, UnionError>)
    ensures r.Ok? <==> inputRow.RowTypeOf() == currentInputRowType
    ensures r.Err? ==> r.error == WrongRowType(inputRow, currentInputRowType)
    ensures r.Ok? ==> r.value.RowTypeOf() == outputRowType && r.value.Values() == inputRow.Values()
    ensures r.Ok? && currentInputRowType == outputRowType ==> r.value == inputRow
    ensures r.Ok? && currentInputRowType != outputRowType ==> r.value == MasqueradingRow(outputRowType, inputRow)
  {
    if inputRow.RowTypeOf() != currentInputRowType then Err(WrongRowType(inputRow, currentInputRowType))
    else if currentInputRowType == outputRowType then Ok(inputRow)
    else Ok(MasqueradingRow(outputRowType, inputRow))
  }

  /** A row still to come, with the declared type of the input it comes from. */
  datatype Pending = Pending(row: Row, inputType: RowType)

  function Tagged(rows: seq<Row>, t: RowType): (ps: seq<Pending>)
    ensures |ps| == |rows|
  {
    seq(|rows|, i requires 0 <= i < |rows| => Pending(rows[i], t))
  }

  /** The rows of inputs k, k+1, ... in that order, each tagged with its input's type. */
  function Stream(inputs: seq<seq<Row>>, types: seq<RowType>, k: nat): seq<Pending>
    requires |inputs| == |types| && k <= |inputs|
    decreases |inputs| - k
  {
    if k == |inputs| then [] else Tagged(inputs[k], types[k]) + Stream(inputs, types, k + 1)
  }

  /** What next() returns for the row `p`: the wrapped row, or the error wrapped throws. */
  function Emit(p: Pending, outputRowType: RowType): Result<Option<Row>, UnionError> {
    match Wrapped(p.row, p.inputType, outputRowType)
    case Ok(row) => Ok(Some(row))
    case Err(e) => Err(e)
  }

  lemma TaggedFrom(rows: seq<Row>, pos: nat, t: RowType)
    requires pos < |rows|
    ensures Tagged(rows[pos..], t) == [Pending(rows[pos], t)] + Tagged(rows[pos + 1..], t)
  {
    assert Tagged(rows[pos..], t)[1..] == Tagged(rows[pos + 1..], t);
  }

  lemma TaggedTail(rows: seq<Row>, t: RowType)
    requires rows != []
    ensures Tagged(rows, t)[1..] == Tagged(rows[1..], t)
  {
    var a, b := Tagged(rows, t)[1..], Tagged(rows[1..], t);
    assert |a| == |b|;
    forall i | 0 <= i < |a| ensures a[i] == b[i] {
      assert a[i] == Tagged(rows, t)[i + 1];
    }
  }

  /** The stream from input k on is that input's rows followed by the stream from k + 1. */
  lemma StreamStep(inputs: seq<seq<Row>>, types: seq<RowType>, k: nat)
    requires |inputs| == |types| && k < |inputs|
    ensures inputs[k] == [] ==> Stream(inputs, types, k) == Stream(inputs, types, k + 1)
    ensures inputs[k] != [] ==>
      Stream(inputs, types, k) != [] &&
      Stream(inputs, types, k)[0] == Pending(inputs[k][0], types[k]) &&
      Stream(inputs, types, k)[1..] == Tagged(inputs[k][1..], types[k]) + Stream(inputs, types, k + 1)
  {
    var tagged, rest := Tagged(inputs[k], types[k]), Stream(inputs, types, k + 1);
    assert Stream(inputs, types, k) == tagged + rest;
    if inputs[k] == [] {
      assert tagged + rest == rest;
    } else {
      TaggedTail(inputs[k], types[k]);
      assert (tagged + rest)[1..] == tagged[1..] + rest;
    }
  }

  /** Every child reads its own input's rows and the shared bindings, and is destroyed
      exactly when the operator's cursor is. */
  ghost predicate ChildrenAgree(cs: seq<ChildCursor>, inputRows: seq<seq<Row>>, destroyed: bool,
                               bindings: seq<Bindings>, bindingsPos: nat)
  {
    |cs| == |inputRows| &&
    forall j :: 0 <= j < |cs| ==>
      cs[j].rows == inputRows[j] && cs[j].pos <= |inputRows[j]| && cs[j].destroyed == destroyed &&
      cs[j].activations == bindings && cs[j].bindingsPos == bindingsPos
  }

  /** A child not yet reached: open at its first row when both inputs are opened together,
      otherwise still closed. */
  predicate Waiting(c: ChildCursor, openBoth: bool) {
    if openBoth then c.isOpen && c.pos == 0 else !c.isOpen
  }

  /** The children relative to the index: closed before it, open or closed (as `current`
      says) at it, not yet reached after it. */
  ghost predicate ChildrenAround(cs: seq<ChildCursor>, index: int, current: bool, openBoth: bool) {
    forall j :: 0 <= j < |cs| ==>
      if j < index then !cs[j].isOpen
      else if j == index then cs[j].isOpen == current
      else Waiting(cs[j], openBoth)
  }

  /** Replacing one child by a later state of itself keeps the children in agreement. */
  lemma AgreeAfterStep(cs: seq<ChildCursor>, inputRows: seq<seq<Row>>, destroyed: bool,
                       bindings: seq<Bindings>, bindingsPos: nat, k: nat, c: ChildCursor)
    requires ChildrenAgree(cs, inputRows, destroyed, bindings, bindingsPos) && k < |cs|
    requires c.rows == cs[k].rows && c.pos <= |c.rows| && c.destroyed == cs[k].destroyed
    requires c.activations == cs[k].activations && c.bindingsPos == cs[k].bindingsPos
    ensures ChildrenAgree(cs[k := c], inputRows, destroyed, bindings, bindingsPos)
  {
  }

  /** Moving the index onto child k, which is then open (the current input) or closed. */
  lemma AroundAfterStep(cs: seq<ChildCursor>, k: nat, c: ChildCursor, openBoth: bool)
    requires ChildrenAround(cs, k - 1, false, openBoth) && k < |cs|
    ensures ChildrenAround(cs[k := c], k, c.isOpen, openBoth)
  {
  }

  /** Closing every child keeps them in agreement and leaves them all closed. */
  lemma ClosedAround(cs: seq<ChildCursor>, closed: seq<ChildCursor>, inputRows: seq<seq<Row>>,
                     bindings: seq<Bindings>, bindingsPos: nat, openBoth: bool)
    requires ChildrenAgree(cs, inputRows, false, bindings, bindingsPos)
    requires |closed| == |cs| && forall j :: 0 <= j < |cs| ==> closed[j] == cs[j].Close()
    ensures ChildrenAgree(closed, inputRows, false, bindings, bindingsPos)
    ensures ChildrenAround(closed, |closed|, false, openBoth)
  {
  }

  /** Advancing every child to the next activation keeps them in agreement with the shared
      bindings cursor, and changes neither their rows nor whether they are open. */
  lemma AdvancedAround(cs: seq<ChildCursor>, advanced: seq<ChildCursor>, inputRows: seq<seq<Row>>,
                       destroyed: bool, bindings: seq<Bindings>, bindingsPos: nat,
                       index: int, current: bool, openBoth: bool)
    requires ChildrenAgree(cs, inputRows, destroyed, bindings, bindingsPos)
    requires ChildrenAround(cs, index, current, openBoth)
    requires |advanced| == |cs| && forall j :: 0 <= j < |cs| ==> advanced[j] == cs[j].NextBindings().1
    ensures ChildrenAgree(advanced, inputRows, destroyed, bindings,
                          if bindingsPos < |bindings| then bindingsPos + 1 else bindingsPos)
    ensures ChildrenAround(advanced, index, current, openBoth)
    ensures forall j :: 0 <= j < |cs| ==> advanced[j].pos == cs[j].pos
  {
  }

  /** The rows still to come, split into the current input's and the later inputs'. */
  lemma RemainingSplit(rem: seq<Pending>, cur: seq<Pending>, up: seq<Pending>)
    requires rem == cur + up
    ensures cur == [] ==> rem == up
    ensures cur != [] ==> rem != [] && rem[0] == cur[0] && rem[1..] == cur[1..] + up
  {
    if cur != [] {
      assert rem[1..] == cur[1..] + up;
    }
  }

  /** The cursor of the operator. */
  class Execution {
    const inputTypes: seq<RowType>
    const outputRowType: RowType
    const openBoth: bool
    /** The child cursors, one per input. */
    const cursors: array<ChildCursor>
    /** The rows each input yields. */
    ghost const inputRows: seq<seq<Row>>
    /** The activations of the shared bindings cursor and its position. */
    const bindings: seq<Bindings>
    var bindingsPos: nat
    var inputOperatorsIndex: int
    /** The index of currentCursor in `cursors`; None is a Java null. */
    var currentCursor: Option<nat>
    var currentInputRowType: Option<RowType>
    var idle: bool
    var destroyed: bool

    /** What holds in every state, also between the steps of next(). */
    ghost predicate Consistent()
      reads this, cursors
    {
      |inputTypes| == |inputRows| == cursors.Length &&
      -1 <= inputOperatorsIndex <= cursors.Length &&
      (currentCursor.Some? ==> currentCursor.value < cursors.Length) &&
      ChildrenAgree(cursors[..], inputRows, destroyed, bindings, bindingsPos)
    }

    ghost predicate Valid()
      reads this, cursors
    {
      Consistent() &&
      (idle ==>
        inputOperatorsIndex == -1 && currentCursor.None? && currentInputRowType.None? &&
        ChildrenAround(cursors[..], cursors.Length, false, openBoth)) &&
      (!idle ==>
        !destroyed && inputOperatorsIndex < cursors.Length &&
        (currentCursor.None? ==> inputOperatorsIndex == -1 && currentInputRowType.None?) &&
        (currentCursor.Some? ==>
          currentCursor.value == inputOperatorsIndex &&
          currentInputRowType == Some(inputTypes[inputOperatorsIndex])) &&
        ChildrenAround(cursors[..], inputOperatorsIndex, true, openBoth))
    }

    /** The state nextCursorFirstRow() starts in: every child up to the index is closed. */
    ghost predicate ReadyToAdvance()
      reads this, cursors
    {
      Consistent() && !idle && !destroyed && inputOperatorsIndex < cursors.Length &&
      ChildrenAround(cursors[..], inputOperatorsIndex, false, openBoth)
    }

    /** The state next() has reached when no input has a row left. */
    ghost predicate Drained()
      reads this, cursors
    {
      Consistent() && !idle && !destroyed && inputOperatorsIndex == cursors.Length &&
      ChildrenAround(cursors[..], cursors.Length, false, openBoth)
    }

    /** The rows of the inputs after the current index. */
    ghost function Upcoming(): seq<Pending>
      reads this
      requires |inputRows| == |inputTypes| && -1 <= inputOperatorsIndex < |inputRows|
    {
      Stream(inputRows, inputTypes, inputOperatorsIndex + 1)
    }

    /** The rows the current input has still to yield. */
    ghost function CurrentRows(): seq<Pending>
      reads this, cursors
      requires Valid() && !idle
    {
      match currentCursor
      case None => []
      case Some(k) => Tagged(inputRows[k][cursors[k].pos..], inputTypes[k])
    }

    /** The rows the cursor has still to yield, in order. */
    ghost function Remaining(): seq<Pending>
      reads this, cursors
      requires Valid()
    {
      if idle then [] else CurrentRows() + Upcoming()
    }

    predicate IsIdle()
      reads this
    {
      !destroyed && idle
    }

    predicate IsActive()
      reads this
    {
      !destroyed && !idle
    }

    predicate IsDestroyed()
      reads this
    {
      destroyed
    }

    /** A new cursor: idle, before the first input, one idle child per input, every child
        fed from the same bindings. */
    constructor (inputTypes: seq<RowType>, inputRows: seq<seq<Row>>, outputRowType: RowType, openBoth: bool, bindings: seq<Bindings>)
      requires |inputTypes| == |inputRows|
      ensures Valid() && IsIdle() && fresh(cursors)
      ensures this.inputTypes == inputTypes && this.inputRows == inputRows
      ensures this.outputRowType == outputRowType && this.openBoth == openBoth && this.bindings == bindings
      ensures bindingsPos == 0
      ensures forall j :: 0 <= j < cursors.Length ==> cursors[j] == ChildCursor(inputRows[j], 0, false, false, bindings, 0)
    {
      this.inputTypes := inputTypes;
      this.inputRows := inputRows;
      this.outputRowType := outputRowType;
      this.openBoth := openBoth;
      this.bindings := bindings;
      this.cursors := new ChildCursor[|inputRows|](j requires 0 <= j < |inputRows| => ChildCursor(inputRows[j], 0, false, false, bindings, 0));
      bindingsPos := 0;
      inputOperatorsIndex := -1;
      currentCursor := None;
      currentInputRowType := None;
      idle := true;
      destroyed := false;
    }

    /** open(): legal only when idle; the cursor becomes active with every row of every
        input still to come, and opens every child at once when openBoth is set. */
    method Open()
      requires Valid() && IsIdle()
      modifies this`idle, cursors
      ensures Valid() && IsActive()
      ensures Remaining() == Stream(inputRows, inputTypes, 0)
      ensures forall j :: 0 <= j < cursors.Length ==>
        cursors[j] == if openBoth then old(cursors[j]).Open() else old(cursors[j])
      ensures inputOperatorsIndex == -1 && currentCursor.None?
    {
      idle := false;
      if openBoth {
        for i := 0 to cursors.Length
          modifies cursors
          invariant forall j :: 0 <= j < i ==> cursors[j] == old(cursors[j]).Open()
          invariant forall j :: i <= j < cursors.Length ==> cursors[j] == old(cursors[j])
        {
          cursors[i] := cursors[i].Open();
        }
      }
    }

    /** nextCursorFirstRow(): advances over the inputs, opening each one first unless
        openBoth did, and closing each one that yields nothing, until one yields a row; that
        input becomes the current one. Without such an input it returns None with the
        index past the last input. */
    method NextCursorFirstRow() returns (row: Option<Row>)
      requires ReadyToAdvance()
      modifies this`inputOperatorsIndex, this`currentCursor, this`currentInputRowType, cursors
      ensures old(Upcoming()) == [] ==>
        row.None? && Drained() && currentCursor == old(currentCursor) &&
        currentInputRowType == old(currentInputRowType)
      ensures old(Upcoming()) != [] ==>
        row == Some(old(Upcoming())[0].row) && Valid() && IsActive() &&
        currentInputRowType == Some(old(Upcoming())[0].inputType) && Remaining() == old(Upcoming())[1..]
    {
      ghost var up := Upcoming();
      var i := inputOperatorsIndex + 1;
      row := None;
      while i < cursors.Length
        modifies cursors
        invariant 0 <= i <= cursors.Length && row.None?
        invariant ChildrenAgree(cursors[..], inputRows, destroyed, bindings, bindingsPos)
        invariant Stream(inputRows, inputTypes, i) == up
        invariant ChildrenAround(cursors[..], i - 1, false, openBoth)
        decreases cursors.Length - i
      {
        ghost var cs := cursors[..];
        StreamStep(inputRows, inputTypes, i);
        row := FirstRowOf(i);
        AroundAfterStep(cs, i, cursors[i], openBoth);
        if row.Some? {
          break;
        }
        i := i + 1;
      }
      if row.Some? {
        BecomeCurrent(i);
      } else {
        inputOperatorsIndex := i;
      }
    }

    /** The end of nextCursorFirstRow() when input k has yielded a row: k becomes the
        current input. */
    method BecomeCurrent(k: nat)
      requires |inputTypes| == |inputRows| == cursors.Length && k < cursors.Length
      requires !idle && !destroyed
      requires ChildrenAgree(cursors[..], inputRows, destroyed, bindings, bindingsPos)
      requires ChildrenAround(cursors[..], k, true, openBoth)
      modifies this`inputOperatorsIndex, this`currentCursor, this`currentInputRowType
      ensures Valid() && IsActive()
      ensures inputOperatorsIndex == k && currentCursor == Some(k) && currentInputRowType == Some(inputTypes[k])
      ensures CurrentRows() == Tagged(inputRows[k][cursors[k].pos..], inputTypes[k])
      ensures Upcoming() == Stream(inputRows, inputTypes, k + 1)
    {
      inputOperatorsIndex := k;
      currentCursor := Some(k);
      currentInputRowType := Some(inputTypes[k]);
    }

    /** The body of nextCursorFirstRow()'s loop for input k: opens it unless openBoth did,
        asks it for a row and closes it when it has none. */
    method FirstRowOf(k: nat) returns (nextRow: Option<Row>)
      requires Consistent() && !destroyed && k < cursors.Length && Waiting(cursors[k], openBoth)
      modifies cursors
      ensures Consistent()
      ensures nextRow == if inputRows[k] == [] then None else Some(inputRows[k][0])
      ensures cursors[..] == old(cursors[..])[k := cursors[k]]
      ensures cursors[k].isOpen == nextRow.Some? && (nextRow.Some? ==> cursors[k].pos == 1)
    {
      ghost var cs := cursors[..];
      var nextCursor := cursors[k];
      if !openBoth {
        nextCursor := nextCursor.Open();
      }
      var (row, c) := nextCursor.Next();
      nextRow := row;
      nextCursor := c;
      if nextRow.None? {
        nextCursor := nextCursor.Close();
      }
      AgreeAfterStep(cs, inputRows, destroyed, bindings, bindingsPos, k, nextCursor);
      cursors[k] := nextCursor;
      assert cursors[..] == cs[k := nextCursor];
    }

    /** currentCursor.next(), closing the current input when it has no row left. */
    method PullCurrent() returns (row: Option<Row>)
      requires Valid() && IsActive() && currentCursor.Some?
      modifies cursors
      ensures var cur := old(CurrentRows());
        if cur == [] then row.None? && ReadyToAdvance()
        else row == Some(cur[0].row) && Valid() && CurrentRows() == cur[1..]
    {
      var k := currentCursor.value;
      ghost var cs := cursors[..];
      var (nextRow, c) := cursors[k].Next();
      row := nextRow;
      if row.None? {
        c := c.Close();
      } else {
        TaggedFrom(inputRows[k], cursors[k].pos, inputTypes[k]);
      }
      AgreeAfterStep(cs, inputRows, destroyed, bindings, bindingsPos, k, c);
      cursors[k] := c;
      assert cursors[..] == cs[k := c];
    }

    /** The first half of next(): the next row of the current input, or else the first row
        of the next input that has one; None, with every input closed, when none is left. */
    method FetchRow() returns (outputRow: Option<Row>)
      requires Valid() && IsActive()
      modifies this`inputOperatorsIndex, this`currentCursor, this`currentInputRowType, cursors
      ensures old(Remaining()) == [] ==> outputRow.None? && Drained()
      ensures old(Remaining()) != [] ==>
        outputRow == Some(old(Remaining()[0]).row) && Valid() && IsActive() &&
        currentInputRowType == Some(old(Remaining()[0]).inputType) &&
        Remaining() == old(Remaining()[1..])
    {
      if currentCursor.None? {
        assert Remaining() == [] + Upcoming();
        assert [] + Upcoming() == Upcoming();
        outputRow := NextCursorFirstRow();
      } else {
        outputRow := PullOrAdvance();
      }
    }

    /** FetchRow() with a current input: its next row, or else the next input's first. */
    method PullOrAdvance() returns (outputRow: Option<Row>)
      requires Valid() && IsActive() && currentCursor.Some?
      modifies this`inputOperatorsIndex, this`currentCursor, this`currentInputRowType, cursors
      ensures old(Remaining()) == [] ==> outputRow.None? && Drained()
      ensures old(Remaining()) != [] ==>
        outputRow == Some(old(Remaining()[0]).row) && Valid() && IsActive() &&
        currentInputRowType == Some(old(Remaining()[0]).inputType) &&
        Remaining() == old(Remaining()[1..])
    {
      ghost var cur, up := CurrentRows(), Upcoming();
      RemainingSplit(Remaining(), cur, up);
      outputRow := PullCurrent();
      if outputRow.None? {
        outputRow := NextCursorFirstRow();
      } else {
        assert Remaining() == CurrentRows() + up;
      }
    }

    /** next(): the next row of the concatenated inputs under the output type, or None once
        every input is exhausted, in which case the cursor has closed itself and is idle. */
    method Next() returns (r: Result<Option<Row>, UnionError>)
      requires Valid() && IsActive()
      modifies this`inputOperatorsIndex, this`currentCursor, this`currentInputRowType, this`idle, cursors
      ensures Valid()
      ensures old(Remaining()) == [] ==>
        r == Ok(None) && IsIdle() && inputOperatorsIndex == -1 && currentCursor.None? &&
        currentInputRowType.None? && forall j :: 0 <= j < cursors.Length ==> !cursors[j].isOpen
      ensures old(Remaining()) != [] ==>
        r == Emit(old(Remaining()[0]), outputRowType) && IsActive() &&
        Remaining() == old(Remaining()[1..])
    {
      var outputRow := FetchRow();
      if outputRow.None? {
        Close();
        idle := true;
        return Ok(None);
      }
      var w := Wrapped(outputRow.value, currentInputRowType.value, outputRowType);
      if w.Err? {
        return Err(w.error);
      }
      return Ok(Some(w.value));
    }

    /** close(): legal when idle or active (and in the drained state next() leaves);
        closes the current input and, when openBoth, every input after it, then goes back
        before the first input, idle. */
    method Close()
      requires Valid() || Drained()
      requires !destroyed
      modifies this`inputOperatorsIndex, this`currentCursor, this`currentInputRowType, this`idle, cursors
      ensures Valid() && IsIdle()
      ensures inputOperatorsIndex == -1 && currentCursor.None? && currentInputRowType.None?
      ensures forall j :: 0 <= j < cursors.Length ==> cursors[j] == old(cursors[j]).Close()
    {
      ghost var cs := cursors[..];
      if currentCursor.Some? {
        cursors[currentCursor.value] := cursors[currentCursor.value].Close();
        currentCursor := None;
      }
      assert forall j :: 0 <= j < cursors.Length ==>
        if j <= inputOperatorsIndex || !openBoth then cursors[j] == old(cursors[j]).Close() else cursors[j] == old(cursors[j]);
      if openBoth {
        inputOperatorsIndex := inputOperatorsIndex + 1;
        while inputOperatorsIndex < cursors.Length
          invariant 0 <= inputOperatorsIndex <= cursors.Length + 1
          invariant currentCursor.None? && idle == old(idle) && destroyed == old(destroyed)
          invariant forall j :: 0 <= j < cursors.Length ==>
            if j < inputOperatorsIndex then cursors[j] == old(cursors[j]).Close() else cursors[j] == old(cursors[j])
          decreases cursors.Length - inputOperatorsIndex
        {
          cursors[inputOperatorsIndex] := cursors[inputOperatorsIndex].Close();
          inputOperatorsIndex := inputOperatorsIndex + 1;
        }
      }
      ClosedAround(cs, cursors[..], inputRows, bindings, bindingsPos, openBoth);
      BecomeIdle();
    }

    /** The end of close(): every child is closed and the cursor is idle again, before the
        first input. */
    method BecomeIdle()
      requires |inputTypes| == |inputRows| == cursors.Length && !destroyed && currentCursor.None?
      requires ChildrenAgree(cursors[..], inputRows, destroyed, bindings, bindingsPos)
      requires ChildrenAround(cursors[..], cursors.Length, false, openBoth)
      modifies this`inputOperatorsIndex, this`currentCursor, this`currentInputRowType, this`idle
      ensures Valid() && IsIdle()
      ensures inputOperatorsIndex == -1 && currentCursor.None? && currentInputRowType.None?
    {
      inputOperatorsIndex := -1;
      currentInputRowType := None;
      idle := true;
    }

    /** destroy(): closes, destroys every child and becomes destroyed: neither idle nor
        active any more. */
    method Destroy()
      requires Valid() && !destroyed
      modifies this`inputOperatorsIndex, this`currentCursor, this`currentInputRowType, this`idle, this`destroyed, cursors
      ensures Valid() && IsDestroyed() && !IsIdle() && !IsActive()
      ensures forall j :: 0 <= j < cursors.Length ==> cursors[j] == old(cursors[j]).Destroy()
    {
      Close();
      for i := 0 to cursors.Length
        modifies cursors
        invariant forall j :: 0 <= j < i ==> cursors[j] == old(cursors[j]).Destroy()
        invariant forall j :: i <= j < cursors.Length ==> cursors[j] == old(cursors[j]).Close()
      {
        cursors[i] := cursors[i].Destroy();
      }
      destroyed := true;
    }

    /** nextBindings(): the next activation of the shared bindings cursor (None at its end),
        after advancing every child to the same activation; each child yields the very same
        bindings, which the source asserts. */
    method NextBindings() returns (b: Option<Bindings>)
      requires Valid()
      modifies this`bindingsPos, cursors
      ensures Valid()
      ensures b == if old(bindingsPos) < |bindings| then Some(bindings[old(bindingsPos)]) else None
      ensures bindingsPos == if b.Some? then old(bindingsPos) + 1 else old(bindingsPos)
      ensures forall j :: 0 <= j < cursors.Length ==> cursors[j] == old(cursors[j]).NextBindings().1
      ensures Remaining() == old(Remaining())
    {
      ghost var cs, bp := cursors[..], bindingsPos;
      if bindingsPos < |bindings| {
        b := Some(bindings[bindingsPos]);
        bindingsPos := bindingsPos + 1;
      } else {
        b := None;
      }
      AdvanceChildren(b, bp);
      if idle {
        AdvancedAround(cs, cursors[..], inputRows, destroyed, bindings, bp, cursors.Length, false, openBoth);
      } else {
        AdvancedAround(cs, cursors[..], inputRows, destroyed, bindings, bp, inputOperatorsIndex, true, openBoth);
        assert CurrentRows() == old(CurrentRows());
      }
    }

    /** The loop of nextBindings(): every child moves to its next activation, which is the
        same bindings `b` the shared cursor has just handed out. */
    method AdvanceChildren(b: Option<Bindings>, ghost bp: nat)
      requires forall j :: 0 <= j < cursors.Length ==> cursors[j].activations == bindings && cursors[j].bindingsPos == bp
      requires b == if bp < |bindings| then Some(bindings[bp]) else None
      modifies cursors
      ensures forall j :: 0 <= j < cursors.Length ==> cursors[j] == old(cursors[j]).NextBindings().1
    {
      for i := 0 to cursors.Length
        invariant forall j :: 0 <= j < i ==> cursors[j] == old(cursors[j]).NextBindings().1
        invariant forall j :: i <= j < cursors.Length ==> cursors[j] == old(cursors[j])
      {
        var (other, c) := cursors[i].NextBindings();
        cursors[i] := c;
        assert other == b;
      }
    }
  }

  // ---------------------------------------------------------------- a whole run

  /** The outcome of a run that has still to deliver the rows `ps`: each row wrapped in
      turn, or the error of the first row whose type is not its input's. */
  function Expected(ps: seq<Pending>, outputRowType: RowType): Result<seq<Row>, UnionError> {
    if ps == [] then Ok([])
    else match Wrapped(ps[0].row, ps[0].inputType, outputRowType)
      case Err(e) => Err(e)
      case Ok(row) => Prefixed([row], Expected(ps[1..], outputRowType))
  }

  /** The rows already delivered, in front of the outcome of the rest of a run. */
  function Prefixed(done: seq<Row>, rest: Result<seq<Row>, UnionError>): Result<seq<Row>, UnionError> {
    match rest
    case Ok(rows) => Ok(done + rows)
    case Err(e) => Err(e)
  }

  lemma PrefixedPrefixed(a: seq<Row>, b: seq<Row>, rest: Result<seq<Row>, UnionError>)
    ensures Prefixed(a, Prefixed(b, rest)) == Prefixed(a + b, rest)
  {
    if rest.Ok? {
      assert a + (b + rest.value) == (a + b) + rest.value;
    }
  }

  /** The outcome of a run is decided by what next() makes of its first row. */
  lemma ExpectedStep(ps: seq<Pending>, outputRowType: RowType)
    requires ps != []
    ensures var r := Emit(ps[0], outputRowType);
      (r.Err? ==> Expected(ps, outputRowType) == Err(r.error)) &&
      (r.Ok? ==> r.value.Some? && Expected(ps, outputRowType) == Prefixed([r.value.value], Expected(ps[1..], outputRowType)))
  {
  }

  lemma PrefixedNothing(rest: Result<seq<Row>, UnionError>)
    ensures Prefixed([], rest) == rest
  {
    if rest.Ok? {
      assert [] + rest.value == rest.value;
    }
  }

  /** Opening a cursor over the operator and calling next() until it returns null: the rows
      it returns are the expected ones, or the run stops with the first error next() throws. */
  method RunUnionAll(op: UnionAll, inputRows: seq<seq<Row>>, bindings: seq<Bindings>)
    returns (out: Result<seq<Row>, UnionError>)
    requires |inputRows| == |op.inputTypes|
    ensures out == Expected(Stream(inputRows, op.inputTypes, 0), op.outputRowType)
  {
    var e := new Execution(op.inputTypes, inputRows, op.outputRowType, op.openBoth, bindings);
    e.Open();
    ghost var all := Expected(Stream(inputRows, op.inputTypes, 0), op.outputRowType);
    var done: seq<Row> := [];
    PrefixedNothing(all);
    while true
      invariant fresh(e) && fresh(e.cursors) && e.Valid() && e.IsActive()
      invariant e.outputRowType == op.outputRowType
      invariant Prefixed(done, Expected(e.Remaining(), op.outputRowType)) == all
      decreases |e.Remaining()|
    {
      ghost var rem := e.Remaining();
      var r := e.Next();
      if rem != [] {
        ExpectedStep(rem, op.outputRowType);
      }
      if r.Err? {
        return Err(r.error);
      }
      if r.value.None? {
        assert done + [] == done;
        return Ok(done);
      }
      PrefixedPrefixed(done, [r.value.value], Expected(rem[1..], op.outputRowType));
      done := done + [r.value.value];
    }
  }

  /** A run fails exactly when some row's type is not the declared type of its input; when
      every row is well typed it delivers one row per row, in the same order, each under the
      output type with the same values, and the row itself when its input's type is the
      output type. */
  lemma {:induction false} ExpectedRows(ps: seq<Pending>, outputRowType: RowType)
    ensures Expected(ps, outputRowType).Ok? <==> forall i :: 0 <= i < |ps| ==> ps[i].row.RowTypeOf() == ps[i].inputType
    ensures Expected(ps, outputRowType).Ok? ==>
      var out := Expected(ps, outputRowType).value;
      |out| == |ps| &&
      forall i :: 0 <= i < |ps| ==>
        out[i].RowTypeOf() == outputRowType && out[i].Values() == ps[i].row.Values() &&
        (ps[i].inputType == outputRowType ==> out[i] == ps[i].row)
  {
    if ps != [] {
      ExpectedRows(ps[1..], outputRowType);
      var w := Wrapped(ps[0].row, ps[0].inputType, outputRowType);
      if w.Ok? {
        var rest := Expected(ps[1..], outputRowType);
        assert Expected(ps, outputRowType) == Prefixed([w.value], rest);
        assert forall i :: 1 <= i < |ps| ==> ps[i] == ps[1..][i - 1];
        if rest.Ok? {
          var out := [w.value] + rest.value;
          assert forall i :: 1 <= i < |ps| ==> out[i] == rest.value[i - 1];
        } else {
          var i :| 0 <= i < |ps[1..]| && ps[1..][i].row.RowTypeOf() != ps[1..][i].inputType;
          assert ps[i + 1] == ps[1..][i];
        }
      }
    }
  }

  /** The rows of the inputs from index k on: those of input k, then those of the rest. */
  lemma {:induction false} StreamIndexed(inputs: seq<seq<Row>>, types: seq<RowType>)
    requires |inputs| == |types| == 2
    ensures Stream(inputs, types, 0) == Tagged(inputs[0], types[0]) + Tagged(inputs[1], types[1])
  {
    assert Stream(inputs, types, 2) == [];
    assert Stream(inputs, types, 1) == Tagged(inputs[1], types[1]) + [];
  }

  /** The output of a union of two inputs whose rows are of their inputs' declared types:
      every row of the first input, then every row of the second, in order, each under the
      output type and with its values unchanged. */
  lemma UnionOfTwo(op: UnionAll, rows1: seq<Row>, rows2: seq<Row>)
    requires |op.inputTypes| == 2
    requires forall i :: 0 <= i < |rows1| ==> rows1[i].RowTypeOf() == op.inputTypes[0]
    requires forall i :: 0 <= i < |rows2| ==> rows2[i].RowTypeOf() == op.inputTypes[1]
    ensures var r := Expected(Stream([rows1, rows2], op.inputTypes, 0), op.outputRowType);
      r.Ok? && |r.value| == |rows1| + |rows2| &&
      (forall i :: 0 <= i < |r.value| ==> r.value[i].RowTypeOf() == op.outputRowType) &&
      (forall i :: 0 <= i < |rows1| ==> r.value[i].Values() == rows1[i].Values()) &&
      (forall i :: 0 <= i < |rows2| ==> r.value[|rows1| + i].Values() == rows2[i].Values())
  {
    var ps := Stream([rows1, rows2], op.inputTypes, 0);
    StreamIndexed([rows1, rows2], op.inputTypes);
    assert forall i :: 0 <= i < |rows2| ==> ps[|rows1| + i] == Pending(rows2[i], op.inputTypes[1]);
    ExpectedRows(ps, op.outputRowType);
  }

  /** A cursor is in exactly one of the three lifecycle states. */
  lemma LifecycleStates(e: Execution)
    ensures e.IsIdle() || e.IsActive() || e.IsDestroyed()
    ensures !(e.IsIdle() && e.IsActive()) && !(e.IsIdle() && e.IsDestroyed()) && !(e.IsActive() && e.IsDestroyed())
  {
  }
}
