/** The post-processing step of brain/brain.py (`output_transformer`): the
    network's steering prediction is passed through unchanged, the throttle
    falls linearly with the steering magnitude down to a floor, and the brake
    is never applied. Python floats are modelled as reals. */
module Brain {
  import opened Wrappers

  /** The tuple `(angle, throttle, brake)` handed back to the caller. */
  datatype Command = Command(angle: real, throttle: real, brake: real)

  function Abs(x: real): (r: real)
    ensures r >= 0.0 && (r == x || r == -x)
  {
    if x < 0.0 then -x else x
  }

  /** The steering magnitude, capped at 0.4. */
  function Saturated(angle: real): (s: real)
    ensures 0.0 <= s <= 0.4
    ensures s <= Abs(angle)
  {
    if Abs(angle) > 0.4 then 0.4 else Abs(angle)
  }

  /** Throttle for a steering angle: 0.6 less the steering magnitude for
      gentle turns, and a constant 0.2 once the magnitude exceeds 0.4. */
  function Throttle(angle: real): (t: real)
    ensures 0.2 <= t <= 0.6
    ensures Abs(angle) <= 0.4 ==> t == 0.6 - Abs(angle)
    ensures Abs(angle) > 0.4 ==> t == 0.2
  {
    0.6 - Saturated(angle)
  }

  /** `output_transformer(output)` given `output['angle']`: the prediction
      for the first sample, first output. Indexing an empty prediction
      raises, modelled as None. */
  function OutputTransformer(angles: seq<seq<real>>): (r: Option<Command>)
    ensures r.None? <==> |angles| == 0 || |angles[0]| == 0
    ensures r.Some? ==>
      r.value.angle == angles[0][0] && r.value.brake == 0.0 &&
      r.value.throttle == Throttle(angles[0][0])
  {
    if |angles| == 0 || |angles[0]| == 0 then None
    else
      var angle := angles[0][0];
      Some(Command(angle, Throttle(angle), 0.0))
  }

  /** Turning left or right by the same amount gives the same throttle. */
  lemma ThrottleSymmetric(angle: real)
    ensures Throttle(-angle) == Throttle(angle)
  {
  }

  /** Sharper steering never gives more throttle. */
  lemma ThrottleMonotone(a: real, b: real)
    requires Abs(a) <= Abs(b)
    ensures Throttle(b) <= Throttle(a)
  {
  }
}
