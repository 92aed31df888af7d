/** The outbound messages of core/client.py (`send_car_control`,
    `send_car_config`, `send_reset`, `send_exit_app`, `send_exit_scene`)
    and the dict-building idiom they share with core/camconf.py: start from
    an empty dict, assign `msg_type`, then assign `str()` of each argument
    under its own key. */
module Messages {
  import opened Wrappers
  import opened Json

  /** `d = dict()` followed by `d[k] = v` for each pair, in order. */
  function Build(assignments: seq<(string, Value)>): Object
    decreases |assignments|
  {
    if assignments == [] then Object([])
    else
      var last := assignments[|assignments| - 1];
      Set(Build(assignments[..|assignments| - 1]), last.0, last.1)
  }

  predicate DistinctKeys(assignments: seq<(string, Value)>) {
    forall i, j | 0 <= i < j < |assignments| :: assignments[i].0 != assignments[j].0
  }

  /** When every key is assigned once, the dict holds exactly the
      assignments, in the order they were made. */
  lemma {:induction false} BuildDistinct(assignments: seq<(string, Value)>)
    requires DistinctKeys(assignments)
    ensures |Build(assignments).fields| == |assignments|
    ensures forall i | 0 <= i < |assignments| ::
      Build(assignments).fields[i] == Field(assignments[i].0, assignments[i].1)
    decreases |assignments|
  {
    if assignments != [] {
      var front := assignments[..|assignments| - 1];
      var last := assignments[|assignments| - 1];
      BuildDistinct(front);
      var o := Build(front);
      assert !HasKey(o, last.0) by {
        forall i | 0 <= i < |o.fields|
          ensures Keys(o)[i] != last.0
        {
          KeysOfAt(o.fields, i);
        }
      }
      KeysSet(o, last.0, last.1);
      SetAbsent(o.fields, last.0, last.1);
    }
  }

  /** Assigning a key that is absent appends the field. */
  lemma {:induction false} SetAbsent(fs: seq<Field>, k: string, v: Value)
    requires k !in KeysOf(fs)
    ensures SetIn(fs, k, v) == fs + [Field(k, v)]
  {
    if fs != [] {
      SetAbsent(fs[1..], k, v);
      assert fs == [fs[0]] + fs[1..];
    }
  }

  /** `str()` of each argument, under its key, after `msg_type`. */
  function Message(kind: string, args: seq<(string, Value)>): Object {
    Build([(MsgType, Str(kind))] + StrArgs(args))
  }

  function StrArgs(args: seq<(string, Value)>): (r: seq<(string, Value)>)
    ensures |r| == |args|
    ensures forall i | 0 <= i < |args| :: r[i] == (args[i].0, Str(PyStr(args[i].1)))
  {
    seq(|args|, i requires 0 <= i < |args| => (args[i].0, Str(PyStr(args[i].1))))
  }

  /** The fields that key-value assignments become, in order. */
  function AsFields(assignments: seq<(string, Value)>): seq<Field> {
    seq(|assignments|, i requires 0 <= i < |assignments| => Field(assignments[i].0, assignments[i].1))
  }

  /** The fields a message holds after `msg_type`: `str()` of each argument
      under its key, in argument order. */
  function ArgFields(args: seq<(string, Value)>): (fs: seq<Field>)
    ensures |fs| == |args|
    ensures forall i | 0 <= i < |args| :: fs[i] == Field(args[i].0, Str(PyStr(args[i].1)))
  {
    AsFields(StrArgs(args))
  }

  function ArgKeys(args: seq<(string, Value)>): (ks: seq<string>)
    ensures |ks| == |args|
  {
    seq(|args|, i requires 0 <= i < |args| => args[i].0)
  }

  /** When `msg_type` and the argument keys are all different, the message is
      exactly `msg_type` followed by the stringified arguments, in order. */
  lemma MessageFields(kind: string, args: seq<(string, Value)>)
    requires MsgType !in ArgKeys(args)
    requires forall i, j | 0 <= i < j < |args| :: args[i].0 != args[j].0
    ensures Message(kind, args).fields == [Field(MsgType, Str(kind))] + ArgFields(args)
  {
    var a := [(MsgType, Str(kind))] + StrArgs(args);
    assert DistinctKeys(a) by {
      forall i, j | 0 <= i < j < |a|
        ensures a[i].0 != a[j].0
      {
        if i == 0 {
          assert a[j].0 == ArgKeys(args)[j - 1];
        }
      }
    }
    BuildDistinct(a);
  }

  const Control: string := "control"
  const CarConfigKind: string := "car_config"
  const ResetCar: string := "reset_car"
  const QuitApp: string := "quit_app"
  const ExitScene: string := "exit_scene"

  /** `send_car_control(angle, throttle, brake)`; the angle goes out under
      the key `steering`. */
  function CarControl(angle: Value, throttle: Value, brake: Value): Object {
    Message(Control, [("steering", angle), ("throttle", throttle), ("brake", brake)])
  }

  /** `send_car_config(body_style, body_r, body_g, body_b, car_name, font_size)`. */
  function CarConfig(bodyStyle: Value, bodyR: Value, bodyG: Value, bodyB: Value,
                     carName: Value, fontSize: Value): Object
  {
    Message(CarConfigKind, [("body_style", bodyStyle), ("body_r", bodyR), ("body_g", bodyG),
                            ("body_b", bodyB), ("car_name", carName), ("font_size", fontSize)])
  }

  /** `send_reset()`. */
  function Reset(): Object {
    Message(ResetCar, [])
  }

  /** `send_exit_app()`. */
  function ExitApp(): Object {
    Message(QuitApp, [])
  }

  /** `send_exit_scene()`. */
  function ExitSceneMessage(): Object {
    Message(ExitScene, [])
  }

  /** A message's kind is read from its leading `msg_type` field. */
  lemma KindOfMessage(kind: string, args: seq<(string, Value)>)
    requires MsgType !in ArgKeys(args)
    requires forall i, j | 0 <= i < j < |args| :: args[i].0 != args[j].0
    ensures Kind(Message(kind, args)) == Some(kind)
    ensures AllStrings(Message(kind, args))
  {
    MessageFields(kind, args);
  }

  /** A control message is `msg_type`, `steering`, `throttle`, `brake`, in
      that order, each holding `str()` of its argument. */
  lemma CarControlShape(angle: Value, throttle: Value, brake: Value)
    ensures CarControl(angle, throttle, brake).fields ==
      [Field(MsgType, Str(Control)), Field("steering", Str(PyStr(angle))),
       Field("throttle", Str(PyStr(throttle))), Field("brake", Str(PyStr(brake)))]
    ensures Kind(CarControl(angle, throttle, brake)) == Some(Control)
  {
    var args := [("steering", angle), ("throttle", throttle), ("brake", brake)];
    assert ArgKeys(args) == ["steering", "throttle", "brake"];
    MessageFields(Control, args);
    KindOfMessage(Control, args);
  }

  /** A car configuration message carries its six visual settings as
      strings, in order, after `msg_type`. */
  lemma CarConfigShape(bodyStyle: Value, bodyR: Value, bodyG: Value, bodyB: Value,
                       carName: Value, fontSize: Value)
    ensures CarConfig(bodyStyle, bodyR, bodyG, bodyB, carName, fontSize).fields ==
      [Field(MsgType, Str(CarConfigKind)), Field("body_style", Str(PyStr(bodyStyle))),
       Field("body_r", Str(PyStr(bodyR))), Field("body_g", Str(PyStr(bodyG))),
       Field("body_b", Str(PyStr(bodyB))), Field("car_name", Str(PyStr(carName))),
       Field("font_size", Str(PyStr(fontSize)))]
  {
    var args := [("body_style", bodyStyle), ("body_r", bodyR), ("body_g", bodyG),
                 ("body_b", bodyB), ("car_name", carName), ("font_size", fontSize)];
    CarConfigKeys(args);
    MessageFields(CarConfigKind, args);
    var fs := Message(CarConfigKind, args).fields;
    var expected :=
      [Field(MsgType, Str(CarConfigKind)), Field("body_style", Str(PyStr(bodyStyle))),
       Field("body_r", Str(PyStr(bodyR))), Field("body_g", Str(PyStr(bodyG))),
       Field("body_b", Str(PyStr(bodyB))), Field("car_name", Str(PyStr(carName))),
       Field("font_size", Str(PyStr(fontSize)))];
    forall i | 1 <= i < 7
      ensures fs[i] == expected[i]
    {
      assert fs[i] == ArgFields(args)[i - 1];
    }
  }

  /** The car configuration keys differ from each other and from
      `msg_type`. */
  lemma CarConfigKeys(args: seq<(string, Value)>)
    requires |args| == 6
    requires ArgKeys(args) == ["body_style", "body_r", "body_g", "body_b", "car_name", "font_size"]
    ensures MsgType !in ArgKeys(args)
    ensures forall i, j | 0 <= i < j < |args| :: args[i].0 != args[j].0
  {
    var ks := ArgKeys(args);
    assert forall i | 0 <= i < 6 :: args[i].0 == ks[i];
    assert ks[1][5] == 'r' && ks[2][5] == 'g' && ks[3][5] == 'b';
    assert "car_name"[0] != MsgType[0];
  }

  /** The three argument-free requests hold nothing but their kind. */
  lemma BareMessagesShape()
    ensures Reset() == Object([Field(MsgType, Str(ResetCar))])
    ensures ExitApp() == Object([Field(MsgType, Str(QuitApp))])
    ensures ExitSceneMessage() == Object([Field(MsgType, Str(ExitScene))])
  {
    MessageFields(ResetCar, []);
    MessageFields(QuitApp, []);
    MessageFields(ExitScene, []);
  }
}
