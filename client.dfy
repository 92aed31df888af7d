/** The simulator client of core/client.py: the one-message outbound slot
    (`send` / `flush_msg`), the immediate sends of the `send_*` builders, and
    one cycle of the `proc_msg` loop with its receive, dispatch, snapshot and
    abort handling. The socket is replaced by `sent` (everything written to
    it, in order) and by the chunks handed to `ReceiveChunk`; `json.loads`,
    `json.dumps` and image decoding are the client's `codec`. */
module ProtocolClient {
  import opened Wrappers
  import opened PyText
  import opened Json
  import opened Foreign
  import FloatNotation
  import Framing
  import Messages

  /** An operation on the outbound slot: `send(m)`, or `flush_msg` with or
      without a writable socket. */
  datatype SlotOp = Put(m: string) | Flush(writable: bool)

  /** The slot after one operation, and what that operation wrote. */
  datatype SlotState = SlotState(slot: Option<string>, wire: seq<string>)

  function StepSlot(slot: Option<string>, op: SlotOp): (r: SlotState)
    ensures op.Put? ==> r.wire == []
    ensures |r.wire| <= 1
  {
    match op
    case Put(m) => SlotState(Some(m), [])
    case Flush(w) => if w && slot.Some? then SlotState(None, [slot.value]) else SlotState(slot, [])
  }

  /** A sequence of slot operations, from a given slot. */
  function RunSlot(slot: Option<string>, ops: seq<SlotOp>): SlotState
    decreases |ops|
  {
    if ops == [] then SlotState(slot, [])
    else
      var s := StepSlot(slot, ops[0]);
      var rest := RunSlot(s.slot, ops[1..]);
      SlotState(rest.slot, s.wire + rest.wire)
  }

  /** The last `send` wins: a message overwritten before a flush never
      reaches the socket. */
  lemma LastWriteWins(slot: Option<string>, a: string, b: string, ops: seq<SlotOp>)
    ensures RunSlot(slot, [Put(a), Put(b)] + ops) == RunSlot(slot, [Put(b)] + ops)
  {
    assert ([Put(a), Put(b)] + ops)[1..] == [Put(b)] + ops;
  }

  /** A flush empties the slot, so a second flush writes nothing more. */
  lemma FlushTwice(slot: Option<string>, ops: seq<SlotOp>)
    ensures RunSlot(slot, [Flush(true), Flush(true)] + ops) == RunSlot(slot, [Flush(true)] + ops)
  {
    var once := [Flush(true)] + ops;
    assert ([Flush(true), Flush(true)] + ops)[1..] == once;
    assert once[1..] == ops;
    var first := StepSlot(slot, Flush(true));
    assert StepSlot(first.slot, Flush(true)) == SlotState(first.slot, []);
    assert RunSlot(first.slot, once) == RunSlot(first.slot, ops);
  }

  /** Without a writable socket nothing is written, and the slot holds the
      last message put, if any. */
  lemma {:induction false} NoWritableNoWrite(slot: Option<string>, ops: seq<SlotOp>)
    requires forall k | 0 <= k < |ops| :: ops[k] != Flush(true)
    ensures RunSlot(slot, ops).wire == []
    ensures RunSlot(slot, ops).slot == LastPut(slot, ops)
    decreases |ops|
  {
    if ops != [] {
      NoWritableNoWrite(StepSlot(slot, ops[0]).slot, ops[1..]);
      LastPutCons(slot, ops);
    }
  }

  /** The message the last `send` left in the slot, or the initial slot. */
  function LastPut(slot: Option<string>, ops: seq<SlotOp>): Option<string>
    decreases |ops|
  {
    if ops == [] then slot
    else if ops[|ops| - 1].Put? then Some(ops[|ops| - 1].m)
    else LastPut(slot, ops[..|ops| - 1])
  }

  lemma {:induction false} LastPutCons(slot: Option<string>, ops: seq<SlotOp>)
    requires ops != [] && ops[0] != Flush(true)
    ensures LastPut(slot, ops) == LastPut(StepSlot(slot, ops[0]).slot, ops[1..])
    decreases |ops|
  {
    if |ops| > 1 {
      var front := ops[..|ops| - 1];
      LastPutCons(slot, front);
      assert front[1..] == ops[1..][..|ops[1..]| - 1];
      assert front[0] == ops[0];
    }
  }

  /** Nothing is written twice and nothing is invented: every written
      message was in the slot at the start or was put by a `send`, and there
      are no more writes than those messages. */
  lemma {:induction false} WireFromPuts(slot: Option<string>, ops: seq<SlotOp>)
    ensures |RunSlot(slot, ops).wire| <= Puts(ops) + (if slot.Some? then 1 else 0)
    ensures forall w | w in RunSlot(slot, ops).wire ::
      Some(w) == slot || exists k | 0 <= k < |ops| :: ops[k] == Put(w)
    decreases |ops|
  {
    if ops != [] {
      var s := StepSlot(slot, ops[0]);
      WireFromPuts(s.slot, ops[1..]);
      assert Puts(ops) == (if ops[0].Put? then 1 else 0) + Puts(ops[1..]);
      forall w | w in RunSlot(slot, ops).wire
        ensures Some(w) == slot || exists k | 0 <= k < |ops| :: ops[k] == Put(w)
      {
        if w !in s.wire {
          if Some(w) != s.slot {
            var k :| 0 <= k < |ops[1..]| && ops[1..][k] == Put(w);
            assert ops[k + 1] == Put(w);
          } else if ops[0].Put? {
            assert ops[0] == Put(w);
          }
        }
      }
    }
  }

  /** How many `send` calls a sequence holds. */
  function Puts(ops: seq<SlotOp>): nat
    decreases |ops|
  {
    if ops == [] then 0 else (if ops[0].Put? then 1 else 0) + Puts(ops[1..])
  }

  /** The object `proc_msg` reports when its loop dies. */
  const Aborted: Object := Object([Field(MsgType, Str("aborted"))])

  class Client {
    /** The pending outbound message (`self.msg`). */
    var msg: Option<string>
    /** Everything written to the socket so far, in order. */
    var sent: seq<string>
    /** Every object `on_msg_recv` handled without raising, in order. */
    var received: seq<Object>
    /** The latest camera frame and the telemetry it came with. */
    var img: Option<Image>
    var data: Option<Object>
    var aborted: bool
    const convertJson2Img: bool
    const codec: Codec

    constructor (convertJson2Img: bool, codec: Codec)
      ensures msg.None? && sent == [] && received == []
      ensures img.None? && data.None? && !aborted
      ensures this.convertJson2Img == convertJson2Img && this.codec == codec
    {
      msg := None;
      sent := [];
      received := [];
      img := None;
      data := None;
      aborted := false;
      this.convertJson2Img := convertJson2Img;
      this.codec := codec;
    }

    /** `send(m)`: queue m in the slot, replacing whatever was there. */
    method Send(m: string)
      modifies this`msg
      ensures msg == StepSlot(old(msg), Put(m)).slot
    {
      msg := Some(m);
    }

    /** `flush_msg(writable)`: write the pending message, if any, once per
      writable socket (there is at most one) and empty the slot. */
    method FlushMsg(writable: bool)
      modifies this`msg, this`sent
      ensures msg == StepSlot(old(msg), Flush(writable)).slot
      ensures sent == old(sent) + StepSlot(old(msg), Flush(writable)).wire
    {
      if writable && msg.Some? {
        SendNow(msg.value);
        msg := None;
      }
    }

    /** `send_now(m)`: write m to the socket at once, bypassing the slot. */
    method SendNow(m: string)
      modifies this`sent
      ensures sent == old(sent) + [m]
    {
      sent := sent + [m];
    }

    method SendCarControl(angle: Value, throttle: Value, brake: Value)
      modifies this`sent
      ensures sent == old(sent) + [codec.dumps(Messages.CarControl(angle, throttle, brake))]
    {
      SendNow(codec.dumps(Messages.CarControl(angle, throttle, brake)));
    }

    method SendCarConfig(bodyStyle: Value, bodyR: Value, bodyG: Value, bodyB: Value,
                         carName: Value, fontSize: Value)
      modifies this`sent
      ensures sent == old(sent) +
        [codec.dumps(Messages.CarConfig(bodyStyle, bodyR, bodyG, bodyB, carName, fontSize))]
    {
      SendNow(codec.dumps(Messages.CarConfig(bodyStyle, bodyR, bodyG, bodyB, carName, fontSize)));
    }

    method SendReset()
      modifies this`sent
      ensures sent == old(sent) + [codec.dumps(Messages.Reset())]
    {
      SendNow(codec.dumps(Messages.Reset()));
    }

    method SendExitApp()
      modifies this`sent
      ensures sent == old(sent) + [codec.dumps(Messages.ExitApp())]
    {
      SendNow(codec.dumps(Messages.ExitApp()));
    }

    method SendExitScene()
      modifies this`sent
      ensures sent == old(sent) + [codec.dumps(Messages.ExitSceneMessage())]
    {
      SendNow(codec.dumps(Messages.ExitSceneMessage()));
    }

    /** `on_msg_recv(j)`: the base class logs `"got:" + j['msg_type']`.
      The lookup raises for a missing key and the concatenation for a kind
      that is not a string; `received` holds the messages it handled. */
    method OnMsgRecv(j: Object) returns (raised: bool)
      modifies this`received
      ensures raised <==> Kind(j).None?
      ensures received == old(received) + (if raised then [] else [j])
    {
      match Get(j, MsgType)
      case Some(Str(_)) =>
        received := received + [j];
        raised := false;
      case _ =>
        raised := true;
    }

    /** The body of `for s in readable` for one received chunk: append it to
      the buffer, cut out the complete messages, hand each parsed message
      with a `msg_type` to `on_msg_recv`, and finally update the snapshot
      from the last parsed piece. `raised` is set where the source raises
      out of the loop: in `on_msg_recv`, or in the snapshot step. */
    method ReceiveChunk(buffer: string, chunk: string) returns (newBuffer: string, raised: bool)
      modifies this`received, this`img, this`data
      ensures var f := Framing.Reframe(buffer, chunk);
        newBuffer == f.buffer &&
        received == old(received) + Framing.Dispatched(f.pieces, Framing.Parser(codec.loads))
      ensures var f := Framing.Reframe(buffer, chunk);
        var end := Framing.BatchEnd(f.pieces, Framing.Parser(codec.loads), convertJson2Img, codec.decodeImage);
        (raised <==> end.Raise?) &&
        (if end.Store? then img == Some(end.img) && data == Some(end.data)
         else img == old(img) && data == old(data))
    {
      var localbuffer := buffer + chunk;
      var n0 := Find(localbuffer, '{');
      var n1 := RFind(localbuffer, '}');
      if n1 >= 0 && n0 >= 0 && n0 < n1 {
        var msgs := Split(localbuffer[n0..n1 + 1], '\n');
        newBuffer := localbuffer[n1..];
        assert Framing.Reframe(buffer, chunk) == Framing.Frame(newBuffer, msgs);
        var j;
        j, raised := DispatchAll(msgs);
        if !raised {
          raised := TakeSnapshot(j);
        }
      } else {
        newBuffer := localbuffer;
        raised := false;
        assert Framing.Reframe(buffer, chunk) == Framing.Frame(newBuffer, []);
      }
    }

    /** The `for m in msgs` loop: skip short pieces, repair decimal commas,
      parse, remember the parse in `j`, and dispatch the objects that carry
      a `msg_type`, until `on_msg_recv` raises. */
    method DispatchAll(msgs: seq<string>) returns (j: Option<Object>, raised: bool)
      modifies this`received
      ensures received == old(received) + Framing.Dispatched(msgs, Framing.Parser(codec.loads))
      ensures raised == Framing.DispatchRaises(msgs, Framing.Parser(codec.loads))
      ensures !raised ==> j == Framing.LastParsed(msgs, Framing.Parser(codec.loads))
    {
      j := None;
      raised := false;
      var i := 0;
      while i < |msgs| && !raised
        invariant i <= |msgs|
        invariant received == old(received) + Framing.Dispatched(msgs[..i], Framing.Parser(codec.loads))
        invariant raised == Framing.DispatchRaises(msgs[..i], Framing.Parser(codec.loads))
        invariant !raised ==> j == Framing.LastParsed(msgs[..i], Framing.Parser(codec.loads))
      {
        var m := msgs[i];
        ghost var d := Framing.Decode(m, codec.loads);
        assert Framing.Parser(codec.loads)(m) == d;
        Framing.DispatchStep(msgs, Framing.Parser(codec.loads), i);
        i := i + 1;
        if |m| <= 2 {
          continue;
        }
        m := FloatNotation.ReplaceFloatNotation(m);
        var parsed := codec.loads(m);
        assert parsed == d;
        if parsed.None? {
          continue;
        }
        j := parsed;
        if !HasKey(parsed.value, MsgType) {
          continue;
        }
        raised := OnMsgRecv(parsed.value);
      }
      Framing.DispatchStops(msgs, Framing.Parser(codec.loads), i);
    }

    /** The statement after the loop: with conversion on, the last parsed
      object's `msg_type` is looked up, and a telemetry message's image is
      decoded into the snapshot. `raised` marks the lookups and decodings
      that raise. */
    method TakeSnapshot(j: Option<Object>) returns (raised: bool)
      modifies this`img, this`data
      ensures var snap := Framing.AfterBatch(j, convertJson2Img, codec.decodeImage);
        (raised <==> snap.Raise?) &&
        (if snap.Store? then img == Some(snap.img) && data == Some(snap.data)
         else img == old(img) && data == old(data))
    {
      raised := false;
      if j.Some? && convertJson2Img {
        var kind := Get(j.value, MsgType);
        if kind.None? {
          raised := true;
        } else if kind.value == Str(Telemetry) {
          var encoded := Get(j.value, "image");
          if encoded.None? {
            raised := true;
          } else {
            var image := codec.decodeImage(encoded.value);
            if image.None? {
              raised := true;
            } else {
              img := image;
              data := j;
            }
          }
        }
      }
    }

    /** One pass of the `while self.do_process_msgs` loop after `select`:
      the chunk read from the readable socket, if any, then `flush_msg`.
      An exception sets `aborted`, reports the abort to `on_msg_recv` and
      ends the loop before the flush. */
    method PollCycle(buffer: string, chunk: Option<string>, writable: bool) returns (newBuffer: string, stop: bool)
      modifies this`msg, this`sent, this`received, this`img, this`data, this`aborted
      ensures chunk.None? ==>
        newBuffer == buffer && !stop &&
        received == old(received) && img == old(img) && data == old(data)
      ensures chunk.Some? ==> newBuffer == Framing.Reframe(buffer, chunk.value).buffer
      ensures stop <==>
        chunk.Some? &&
        Framing.BatchEnd(Framing.Reframe(buffer, chunk.value).pieces, Framing.Parser(codec.loads),
                         convertJson2Img, codec.decodeImage).Raise?
      ensures stop ==>
        aborted && msg == old(msg) && sent == old(sent) &&
        received == old(received) + Framing.Dispatched(Framing.Reframe(buffer, chunk.value).pieces, Framing.Parser(codec.loads)) + [Aborted]
      ensures !stop ==>
        aborted == old(aborted) &&
        msg == StepSlot(old(msg), Flush(writable)).slot &&
        sent == old(sent) + StepSlot(old(msg), Flush(writable)).wire
      ensures chunk.Some? ==>
        var f := Framing.Reframe(buffer, chunk.value);
        var end := Framing.BatchEnd(f.pieces, Framing.Parser(codec.loads), convertJson2Img, codec.decodeImage);
        (!stop ==> received == old(received) + Framing.Dispatched(f.pieces, Framing.Parser(codec.loads))) &&
        (if end.Store? then img == Some(end.img) && data == Some(end.data)
         else img == old(img) && data == old(data))
    {
      newBuffer := buffer;
      stop := false;
      if chunk.Some? {
        var raised;
        newBuffer, raised := ReceiveChunk(buffer, chunk.value);
        if raised {
          aborted := true;
          var _ := OnMsgRecv(Aborted);
          stop := true;
          return;
        }
      }
      FlushMsg(writable);
    }

    /** The `while self.do_process_msgs` loop over a finite run of cycles,
      each given by the chunk read (if the socket was readable) and whether
      the socket was writable. The loop ends early, with `aborted` set and
      the abort reported last, exactly when a cycle raises. */
    method ProcMsg(cycles: seq<(Option<string>, bool)>) returns (buffer: string, ran: nat, stopped: bool)
      modifies this`msg, this`sent, this`received, this`img, this`data, this`aborted
      ensures 1 <= ran <= |cycles| || (ran == 0 && cycles == [])
      ensures stopped ==> aborted && |received| > 0 && received[|received| - 1] == Aborted
      ensures !stopped ==> ran == |cycles| && aborted == old(aborted)
      ensures |old(received)| <= |received| && received[..|old(received)|] == old(received)
      ensures |old(sent)| <= |sent| && sent[..|old(sent)|] == old(sent)
    {
      buffer := "";
      ran := 0;
      stopped := false;
      while ran < |cycles| && !stopped
        invariant ran <= |cycles|
        invariant stopped ==> ran >= 1 && aborted && |received| > 0 && received[|received| - 1] == Aborted
        invariant !stopped ==> aborted == old(aborted)
        invariant |old(received)| <= |received| && received[..|old(received)|] == old(received)
        invariant |old(sent)| <= |sent| && sent[..|old(sent)|] == old(sent)
        decreases |cycles| - ran, !stopped
      {
        buffer, stopped := PollCycle(buffer, cycles[ran].0, cycles[ran].1);
        ran := ran + 1;
      }
    }
  }
}
