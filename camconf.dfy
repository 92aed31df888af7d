/** The camera configuration request of core/camconf.py: a fixed mapping
    from the eleven camera parameters to their `str()` forms under
    `msg_type = "cam_config"`, serialised once when the object is built. */
module CamConfig {
  import opened Wrappers
  import opened Json
  import Messages

  /** The constructor's eleven keyword arguments. */
  datatype CamParams = CamParams(
    fov: Value, fishEyeX: Value, fishEyeY: Value,
    imgW: Value, imgH: Value, imgD: Value, imgEnc: Value,
    offsetX: Value, offsetY: Value, offsetZ: Value, rotX: Value)

  /** The values the constructor takes for omitted arguments. */
  const Defaults: CamParams := CamParams(
    Int(100), Int(0), Int(0),
    Int(160), Int(120), Int(3), Str("PNG"),
    Float("0.0"), Float("3.5"), Float("0.0"), Float("90.0"))

  const CamConfigKind: string := "cam_config"

  /** The parameter keys, in the order the constructor assigns them. */
  const ParamKeys: seq<string> :=
    ["fov", "fish_eye_x", "fish_eye_y", "img_w", "img_h", "img_d", "img_enc",
     "offset_x", "offset_y", "offset_z", "rot_x"]

  function Args(p: CamParams): seq<(string, Value)> {
    [("fov", p.fov), ("fish_eye_x", p.fishEyeX), ("fish_eye_y", p.fishEyeY),
     ("img_w", p.imgW), ("img_h", p.imgH), ("img_d", p.imgD), ("img_enc", p.imgEnc),
     ("offset_x", p.offsetX), ("offset_y", p.offsetY), ("offset_z", p.offsetZ), ("rot_x", p.rotX)]
  }

  /** `self.conf`, built field by field. */
  function Conf(p: CamParams): Object {
    Messages.Message(CamConfigKind, Args(p))
  }

  /** A constructed `CamConf`: the mapping and its JSON text, taken from the
      mapping as it stands at the end of construction. */
  datatype CamConf = CamConf(conf: Object, confJson: string)

  function Make(p: CamParams, dumps: Object -> string): (c: CamConf)
    ensures c.conf == Conf(p)
    ensures c.confJson == dumps(c.conf)
  {
    var conf := Conf(p);
    CamConf(conf, dumps(conf))
  }

  /** The mapping has exactly twelve keys, `msg_type` first and set to
      `cam_config`, then the eleven parameters in constructor order, each
      holding `str()` of its argument and never a number. */
  lemma ConfShape(p: CamParams)
    ensures Keys(Conf(p)) == [MsgType] + ParamKeys
    ensures Kind(Conf(p)) == Some(CamConfigKind)
    ensures AllStrings(Conf(p))
    ensures forall i | 0 <= i < |Args(p)| :: Conf(p).fields[i + 1] == Field(Args(p)[i].0, Str(PyStr(Args(p)[i].1)))
  {
    var args := Args(p);
    assert Messages.ArgKeys(args) == ParamKeys;
    Messages.MessageFields(CamConfigKind, args);
    Messages.KindOfMessage(CamConfigKind, args);
    var m := Conf(p);
    forall i | 0 <= i < |m.fields|
      ensures Keys(m)[i] == ([MsgType] + ParamKeys)[i]
    {
      KeysOfAt(m.fields, i);
    }
  }

  /** With every argument omitted, the request asks for a 160x120 PNG image
      with three channels, a 100 degree field of view and the camera rotated
      by 90.0 degrees around x, 3.5 above the car. */
  lemma DefaultConf()
    ensures Conf(Defaults).fields ==
      [Field(MsgType, Str(CamConfigKind))] + DefaultFields
  {
    var args := Args(Defaults);
    assert Messages.ArgKeys(args) == ParamKeys;
    Messages.MessageFields(CamConfigKind, args);
    DefaultArgFields();
  }

  const DefaultFields: seq<Field> :=
    [Field("fov", Str("100")), Field("fish_eye_x", Str("0")), Field("fish_eye_y", Str("0")),
     Field("img_w", Str("160")), Field("img_h", Str("120")), Field("img_d", Str("3")),
     Field("img_enc", Str("PNG")),
     Field("offset_x", Str("0.0")), Field("offset_y", Str("3.5")), Field("offset_z", Str("0.0")),
     Field("rot_x", Str("90.0"))]

  lemma DefaultArgFields()
    ensures Messages.ArgFields(Args(Defaults)) == DefaultFields
  {
    ThreeDigits();
    var fs := Messages.ArgFields(Args(Defaults));
    forall i | 0 <= i < 11
      ensures fs[i] == DefaultFields[i]
    {
    }
  }

  lemma ThreeDigits()
    ensures PyStr(Int(100)) == "100" && PyStr(Int(160)) == "160" && PyStr(Int(120)) == "120"
  {
    assert PyText.NatToString(10) == "10";
    assert PyText.NatToString(16) == "16";
    assert PyText.NatToString(12) == "12";
  }
}
