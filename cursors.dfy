// The child cursors the union operator drives. Their implementation is not part of this
// model; each is an abstract finite stream of rows with the lifecycle every cursor of the
// engine follows (idle, active, destroyed), plus its view of the shared bindings stream.

module Cursors {
  import opened Wrappers
  import opened Rows

  /** A QueryBindings object, identified by its identity only. */
  type Bindings = nat

  /** A child cursor: the rows its input yields, the next row's position, whether it is open
      (active) or destroyed, and its position in the activations fanned out to it. */
  datatype ChildCursor = ChildCursor(
    rows: seq<Row>, pos: nat, isOpen: bool, destroyed: bool,
    activations: seq<Bindings>, bindingsPos: nat)
  {
    predicate Idle() { !isOpen && !destroyed }

    /** open(): legal only when idle; starts the stream from its first row. */
    function Open(): (c: ChildCursor)
      requires Idle()
      ensures c.isOpen && c.pos == 0 && c.rows == rows && !c.destroyed
    {
      this.(isOpen := true, pos := 0)
    }

    /** next(): the next row, or None once the stream is exhausted, in which case the
        cursor closes itself. */
    function Next(): (p: (Option<Row>, ChildCursor))
      requires isOpen && !destroyed && pos <= |rows|
      ensures p.0.Some? <==> pos < |rows|
      ensures p.0.Some? ==> p.0.value == rows[pos] && p.1 == this.(pos := pos + 1)
      ensures p.0.None? ==> p.1 == Close()
    {
      if pos < |rows| then (Some(rows[pos]), this.(pos := pos + 1)) else (None, Close())
    }

    /** close(): legal when idle or active; leaves the cursor idle (a no-op when idle). */
    function Close(): ChildCursor
      requires !destroyed
    {
      this.(isOpen := false)
    }

    /** destroy(): closes, then becomes destroyed for good. */
    function Destroy(): ChildCursor
      requires !destroyed
    {
      Close().(destroyed := true)
    }

    /** nextBindings(): the activation at this cursor's position in the fan-out, if any. */
    function NextBindings(): (p: (Option<Bindings>, ChildCursor))
      ensures p.0.Some? <==> bindingsPos < |activations|
      ensures p.0.Some? ==> p.0.value == activations[bindingsPos] && p.1 == this.(bindingsPos := bindingsPos + 1)
      ensures p.0.None? ==> p.1 == this
    {
      if bindingsPos < |activations| then (Some(activations[bindingsPos]), this.(bindingsPos := bindingsPos + 1))
      else (None, this)
    }
  }
}
