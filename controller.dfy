/** The manual drive loop of controller.py: while running, each tick reads
    the three hardware axes and sends them as one control message, then reads
    the exit flag; when it is set, `quit_app` is sent and the loop stops.
    The hardware is a finite sequence of readings, one per tick. */
module DriveController {
  import opened Json
  import Messages
  import ProtocolClient

  /** What one tick reads from the hardware: the three axes, then the exit
      flag. */
  datatype Reading = Reading(angle: Value, throttle: Value, brake: Value, exit: bool)

  function ControlOf(r: Reading): Object {
    Messages.CarControl(r.angle, r.throttle, r.brake)
  }

  /** The messages a run sends, in order: one control message per tick, and
      `quit_app` right after the control message of the first tick whose
      exit flag is set, after which nothing more is sent. */
  function Session(readings: seq<Reading>): seq<Object>
    decreases |readings|
  {
    if readings == [] then []
    else if readings[0].exit then [ControlOf(readings[0]), Messages.ExitApp()]
    else [ControlOf(readings[0])] + Session(readings[1..])
  }

  predicate NoExit(readings: seq<Reading>) {
    forall k | 0 <= k < |readings| :: !readings[k].exit
  }

  /** How many ticks a run lasts: every reading when none has the exit flag,
      otherwise up to and including the first one that has. */
  function Ticks(readings: seq<Reading>): (n: nat)
    ensures n <= |readings|
    ensures NoExit(readings) ==> n == |readings|
    ensures !NoExit(readings) ==> n > 0 && readings[n - 1].exit && NoExit(readings[..n - 1])
    decreases |readings|
  {
    if readings == [] then 0
    else if readings[0].exit then 1
    else 1 + Ticks(readings[1..])
  }

  /** The wire form of a sequence of messages. */
  function Wire(dumps: Object -> string, msgs: seq<Object>): (w: seq<string>)
    ensures |w| == |msgs|
  {
    seq(|msgs|, i requires 0 <= i < |msgs| => dumps(msgs[i]))
  }

  lemma WireAppend(dumps: Object -> string, a: seq<Object>, b: seq<Object>)
    ensures Wire(dumps, a + b) == Wire(dumps, a) + Wire(dumps, b)
  {
  }

  /** What one tick sends: its control message, then `quit_app` if the
      exit flag is set. */
  function TickMessages(r: Reading): seq<Object> {
    [ControlOf(r)] + (if r.exit then [Messages.ExitApp()] else [])
  }

  /** Extending an exit-free run by one tick adds that tick's control
      message, followed by `quit_app` if the tick reads the exit flag. */
  lemma {:induction false} SessionSnoc(readings: seq<Reading>, r: Reading)
    requires NoExit(readings)
    ensures Session(readings + [r]) == Session(readings) + TickMessages(r)
    decreases |readings|
  {
    if readings != [] {
      SessionSnoc(readings[1..], r);
      assert (readings + [r])[1..] == readings[1..] + [r];
    }
  }

  /** Tick k's control message carries exactly the values read at tick k,
      and there is one control message per tick. */
  lemma {:induction false} SessionControls(readings: seq<Reading>)
    ensures |Session(readings)| == Ticks(readings) + (if NoExit(readings) then 0 else 1)
    ensures forall k | 0 <= k < Ticks(readings) :: Session(readings)[k] == ControlOf(readings[k])
    decreases |readings|
  {
    if readings != [] && !readings[0].exit {
      SessionControls(readings[1..]);
      NoExitCons(readings);
      var s := Session(readings);
      assert s == [ControlOf(readings[0])] + Session(readings[1..]);
      forall k | 0 <= k < Ticks(readings)
        ensures s[k] == ControlOf(readings[k])
      {
        if k > 0 {
          assert s[k] == Session(readings[1..])[k - 1];
          assert readings[k] == readings[1..][k - 1];
        }
      }
    }
  }

  lemma NoExitCons(readings: seq<Reading>)
    requires readings != []
    ensures NoExit(readings) <==> !readings[0].exit && NoExit(readings[1..])
  {
    if !readings[0].exit && NoExit(readings[1..]) {
      forall k | 0 <= k < |readings|
        ensures !readings[k].exit
      {
        if k > 0 {
          assert readings[k] == readings[1..][k - 1];
        }
      }
    }
  }

  /** `quit_app` is sent at most once, and only as the very last message,
      right after a control message. */
  lemma {:induction false} QuitAppLast(readings: seq<Reading>)
    ensures forall k | 0 <= k < |Session(readings)| && Session(readings)[k] == Messages.ExitApp() ::
      k == |Session(readings)| - 1 && k > 0 && Session(readings)[k - 1] == ControlOf(readings[Ticks(readings) - 1])
    decreases |readings|
  {
    if readings != [] {
      var r := readings[0];
      Messages.CarControlShape(r.angle, r.throttle, r.brake);
      Messages.BareMessagesShape();
      assert ControlOf(r) != Messages.ExitApp() by {
        assert ControlOf(r).fields[0] != Messages.ExitApp().fields[0];
      }
      if !r.exit {
        QuitAppLast(readings[1..]);
        var s := Session(readings);
        forall k | 0 <= k < |s| && s[k] == Messages.ExitApp()
          ensures k == |s| - 1 && k > 0 && s[k - 1] == ControlOf(readings[Ticks(readings) - 1])
        {
          assert k > 0;
          assert s[k] == Session(readings[1..])[k - 1];
          assert Ticks(readings) - 1 == 1 + Ticks(readings[1..]) - 1;
          if k - 1 > 0 {
            assert s[k - 1] == Session(readings[1..])[k - 2];
          } else {
            assert false;
          }
        }
      }
    }
  }

  class Controller {
    const client: ProtocolClient.Client
    var running: bool

    /** The constructor also starts `loop` on a thread; here the loop is
      run by calling `Loop`. */
    constructor (client: ProtocolClient.Client)
      ensures this.client == client && running
    {
      this.client := client;
      running := true;
    }

    /** `manual_mode`: read the axes and send them at once. */
    method ManualMode(r: Reading)
      modifies client`sent
      ensures client.sent == old(client.sent) + [client.codec.dumps(ControlOf(r))]
    {
      client.SendCarControl(r.angle, r.throttle, r.brake);
    }

    /** One pass of the loop body: `manual_mode`, then the exit check. */
    method Tick(r: Reading)
      requires running
      modifies this`running, client`sent
      ensures client.sent == old(client.sent) + Wire(client.codec.dumps, TickMessages(r))
      ensures running == !r.exit
    {
      ManualMode(r);
      if r.exit {
        client.SendExitApp();
        running := false;
      }
    }

    /** `loop`, fed one reading per tick until the readings run out. From a
      running controller it sends the run's session, lasts the run's ticks
      and stops exactly when an exit flag was read; a stopped controller
      sends nothing. */
    method Loop(readings: seq<Reading>) returns (ticks: nat)
      modifies this`running, client`sent
      ensures !old(running) ==> ticks == 0 && client.sent == old(client.sent) && !running
      ensures old(running) ==>
        ticks == Ticks(readings) &&
        client.sent == old(client.sent) + Wire(client.codec.dumps, Session(readings)) &&
        (running <==> NoExit(readings))
    {
      ticks := 0;
      ghost var dumps := client.codec.dumps;
      ghost var log: seq<Object> := [];
      while running && ticks < |readings|
        invariant ticks <= |readings|
        invariant client.sent == old(client.sent) + Wire(dumps, log)
        invariant !old(running) ==> ticks == 0 && log == [] && !running
        invariant old(running) && running ==> NoExit(readings[..ticks]) && log == Session(readings[..ticks])
        invariant old(running) && !running ==>
          ticks == Ticks(readings) && !NoExit(readings) && log == Session(readings)
        decreases |readings| - ticks
      {
        var r := readings[ticks];
        Tick(r);
        WireAppend(dumps, log, TickMessages(r));
        SessionPrefixStep(readings, ticks);
        if r.exit {
          TicksAtFirstExit(readings, ticks);
        } else {
          NoExitStep(readings, ticks);
        }
        log := log + TickMessages(r);
        ticks := ticks + 1;
      }
      if running {
        assert readings[..ticks] == readings;
      }
    }
  }

  /** One more tick of an exit-free run adds that tick's messages. */
  lemma SessionPrefixStep(readings: seq<Reading>, i: nat)
    requires i < |readings| && NoExit(readings[..i])
    ensures Session(readings[..i + 1]) == Session(readings[..i]) + TickMessages(readings[i])
  {
    assert readings[..i + 1] == readings[..i] + [readings[i]];
    SessionSnoc(readings[..i], readings[i]);
  }

  lemma NoExitStep(readings: seq<Reading>, i: nat)
    requires i < |readings| && NoExit(readings[..i]) && !readings[i].exit
    ensures NoExit(readings[..i + 1])
  {
    var prefix := readings[..i + 1];
    forall k | 0 <= k < |prefix|
      ensures !prefix[k].exit
    {
      if k < i {
        assert prefix[k] == readings[..i][k];
      }
    }
  }

  /** When the first exit is at tick i, the run is the ticks up to i and its
      session is that of the prefix. */
  lemma {:induction false} TicksAtFirstExit(readings: seq<Reading>, i: nat)
    requires i < |readings| && readings[i].exit && NoExit(readings[..i])
    ensures Ticks(readings) == i + 1 && !NoExit(readings)
    ensures Session(readings) == Session(readings[..i + 1])
    decreases i
  {
    if i > 0 {
      TicksAtFirstExit(readings[1..], i - 1);
      assert readings[1..][..i - 1] == readings[..i][1..];
      assert readings[1..][..i] == readings[..i + 1][1..];
      assert !readings[..i][0].exit;
    }
  }
}
