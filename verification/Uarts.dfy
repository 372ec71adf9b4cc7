/** The UART adapter: byte strings go into its transmit ring and come out of its receive ring. */
module Uarts {
  import opened Basics
  import opened Fragments
  import opened RingBuffers
  import opened StringBuilders
  import UartPipes

  class UARTAdapter {
    const txCapable: bool
    const txBuffer: RingBuffer<Byte>
    const rxBuffer: RingBuffer<Byte>
    var readCb: UARTAdapter?

    ghost predicate Valid()
      reads this, txBuffer, txBuffer.pool, rxBuffer, rxBuffer.pool
    {
      txBuffer.Valid() && rxBuffer.Valid() && txBuffer != rxBuffer && txBuffer.pool != rxBuffer.pool
    }

    constructor (txCapacity: nat, rxCapacity: nat, txCapable: bool)
      requires 0 < txCapacity && 0 < rxCapacity
      ensures Valid() && txBuffer.contents == [] && rxBuffer.contents == [] && readCb == null
    {
      this.txCapable := txCapable;
      txBuffer := new RingBuffer(txCapacity, 0);
      rxBuffer := new RingBuffer(rxCapacity, 0);
      readCb := null;
    }

    function BufferAvailable(): int
      reads txBuffer
    {
      txBuffer.Vacancy()
    }

    /** Moves as much of the buffer as there is room for into the transmit ring.  1 means all of it, 0
        a part, -1 nothing. */
    method PushBuffer(buf: StringBuilder) returns (ret: int)
      requires txBuffer.Valid() && buf.Valid()
      modifies txBuffer, txBuffer.pool, buf, buf.nodes`next
      ensures txBuffer.Valid() && buf.Valid()
      ensures var n :=
          if txCapable then Min(txBuffer.capacity - |old(txBuffer.contents)|, |old(buf.Text())|) else 0;
        && txBuffer.contents == old(txBuffer.contents) + old(buf.Text())[..n]
        && buf.Text() == old(buf.Text())[n..]
        && ret == if n == 0 then -1 else if n < |old(buf.Text())| then 0 else 1
      ensures
        var p := UartPipes.Pipe(old(buf.Text()), old(txBuffer.contents), [], [], []);
        var q := UartPipes.Pipe(buf.Text(), txBuffer.contents, [], [], []);
        txCapable ==> q == UartPipes.Step(p, UartPipes.Capacity(txBuffer.capacity, 0, 0), UartPipes.Push)
    {
      ret := -1;
      if txCapable {
        var fullLength := buf.Length();
        var toTake := Min(BufferAvailable(), fullLength);
        if 0 < toTake {
          var taken := 0;
          ghost var text := buf.Text();
          while taken < toTake
            invariant 0 <= taken <= toTake && txBuffer.Valid() && buf.Valid()
            invariant forall i :: 0 <= i < |buf.nodes| ==> buf.nodes[i] in old(buf.nodes) || fresh(buf.nodes[i])
            invariant txBuffer.contents == old(txBuffer.contents) + text[..taken] && buf.Text() == text[taken..]
          {
            var n := PushFragment(buf, toTake - taken);
            SliceGrows(text, 0, taken, taken + n);
            taken := taken + n;
          }
          ret := if fullLength > taken then 0 else 1;
        }
      }
    }

    /** Moves up to limit bytes of the first fragment over. */
    method PushFragment(buf: StringBuilder, limit: nat) returns (n: nat)
      requires txBuffer.Valid() && buf.Valid()
      requires 0 < limit <= txBuffer.capacity - txBuffer.count && limit <= |buf.Text()|
      modifies txBuffer, txBuffer.pool, buf, buf.nodes`next
      ensures txBuffer.Valid() && buf.Valid() && 0 < n <= limit
      ensures txBuffer.contents == old(txBuffer.contents) + old(buf.Text())[..n]
      ensures buf.Text() == old(buf.Text())[n..]
      ensures forall i :: 0 <= i < |buf.nodes| ==> buf.nodes[i] in old(buf.nodes) || fresh(buf.nodes[i])
    {
      var frag := buf.Position(0);
      FirstFragment(buf.fragments);
      var toInsert := Min(|frag|, limit);
      var inserted := txBuffer.InsertMany(frag[..toInsert]);
      n := inserted;
      if inserted == |frag| {
        var dropped := buf.DropPosition(0);
      } else {
        buf.Cull(inserted);
      }
    }

    /** Pushes and returns how many bytes were taken. */
    method WriteBuilder(buf: StringBuilder) returns (n: nat)
      requires txBuffer.Valid() && buf.Valid()
      modifies txBuffer, txBuffer.pool, buf, buf.nodes`next
      ensures txBuffer.Valid() && buf.Valid()
      ensures n == if txCapable then Min(txBuffer.capacity - |old(txBuffer.contents)|, |old(buf.Text())|) else 0
      ensures txBuffer.contents == old(txBuffer.contents) + old(buf.Text())[..n] && buf.Text() == old(buf.Text())[n..]
    {
      var starting := buf.Length();
      var code := PushBuffer(buf);
      var ending := buf.Length();
      n := if starting >= ending then starting - ending else 0;
    }

    /** Takes bytes out of the receive ring, at most n. */
    method Read(n: nat) returns (got: nat, d: Bytes)
      requires rxBuffer.Valid()
      modifies rxBuffer`r, rxBuffer`count, rxBuffer`contents
      ensures rxBuffer.Valid() && got == |d| == Min(n, |old(rxBuffer.contents)|)
      ensures d + rxBuffer.contents == old(rxBuffer.contents)
    {
      var xfer := Min(n, rxBuffer.count);
      got, d := 0, [];
      if 0 < xfer {
        var code;
        code, d := rxBuffer.GetMany(xfer);
        got := xfer;
      }
    }

    /** Empties the receive ring into one new fragment at the end of a builder. */
    method ReadBuilder(buf: StringBuilder) returns (n: nat)
      requires rxBuffer.Valid() && buf.Valid()
      modifies rxBuffer`r, rxBuffer`count, rxBuffer`contents, buf, buf.nodes`next
      ensures rxBuffer.Valid() && buf.Valid() && rxBuffer.contents == [] && n == |old(rxBuffer.contents)|
      ensures buf.fragments == if n == 0 then old(buf.fragments) else old(buf.fragments) + [old(rxBuffer.contents)]
    {
      n := 0;
      if 0 < rxBuffer.count {
        var code, temp := rxBuffer.GetMany(rxBuffer.count);
        n := code;
        assert temp == old(rxBuffer.contents);
        buf.Concat(temp);
      }
    }

    ghost predicate Downstream()
      reads this, rxBuffer, rxBuffer.pool, readCb,
            if readCb == null then {} else {readCb.txBuffer, readCb.txBuffer.pool}
    {
      rxBuffer.Valid() && (readCb != null ==>
        readCb.txBuffer.Valid() && readCb.txBuffer != rxBuffer && readCb.txBuffer.pool != rxBuffer.pool)
    }

    /** Pushes what was received on to the downstream adapter, as far as that has room, and drops from
        the receive ring exactly what was taken. */
    method HandleRxPush() returns (moved: nat)
      requires Downstream()
      modifies rxBuffer`r, rxBuffer`count, rxBuffer`contents
      modifies if readCb == null then {} else {readCb.txBuffer, readCb.txBuffer.pool}
      ensures Downstream()
      ensures moved == if readCb == null || !readCb.txCapable then 0
        else Min(readCb.txBuffer.capacity - |old(readCb.txBuffer.contents)|, |old(rxBuffer.contents)|)
      ensures rxBuffer.contents == old(rxBuffer.contents)[moved..]
      ensures readCb != null ==>
       readCb.txBuffer.contents == old(readCb.txBuffer.contents) + old(rxBuffer.contents)[..moved]
      ensures readCb != null && readCb.txCapable ==>
        var p := UartPipes.Pipe([], [], old(rxBuffer.contents), old(readCb.txBuffer.contents), []);
        var q := UartPipes.Pipe([], [], rxBuffer.contents, readCb.txBuffer.contents, []);
        q == UartPipes.Step(p, UartPipes.Capacity(0, rxBuffer.capacity, readCb.txBuffer.capacity), UartPipes.Relay)
    {
      moved := 0;
      if 0 < rxBuffer.count && readCb != null {
        var safe := Min(readCb.BufferAvailable(), rxBuffer.count);
        if safe != 0 {
          moved := Relay(readCb, safe);
        }
      }
    }

    /** Peeks at the first bytes, pushes them, and culls what the push took. */
    method Relay(cb: UARTAdapter, safe: nat) returns (moved: nat)
      requires rxBuffer.Valid() && cb.txBuffer.Valid() && cb.txBuffer != rxBuffer && cb.txBuffer.pool != rxBuffer.pool
      requires safe == Min(cb.txBuffer.capacity - cb.txBuffer.count, rxBuffer.count) > 0
      modifies rxBuffer`r, rxBuffer`count, rxBuffer`contents, cb.txBuffer, cb.txBuffer.pool
      ensures rxBuffer.Valid() && cb.txBuffer.Valid() && moved == if cb.txCapable then safe else 0
      ensures rxBuffer.contents == old(rxBuffer.contents)[moved..]
      ensures cb.txBuffer.contents == old(cb.txBuffer.contents) + old(rxBuffer.contents)[..moved]
    {
      var unpushed := new StringBuilder();
      var fromRing, temp := rxBuffer.PeekMany(safe);
      var nu := unpushed.Append(temp);
      FlattenOne(temp);
      assert unpushed.fragments == [temp];
      var code := cb.PushBuffer(unpushed);
      var left := unpushed.Length();
      moved := fromRing - left;
      var culled := rxBuffer.Cull(moved);
    }
  }

  lemma FirstFragment(fr: seq<Bytes>)
    requires NonEmpty(fr) && Flatten(fr) != []
    ensures fr != [] && Flatten(fr) == fr[0] + Flatten(Kept(fr, 0, 1))
  {
    TakenAndKept(fr, 0, 1);
    assert fr[..0] + fr[1..] == fr[1..];
  }
}
