/** Small shared datatypes: an optional value, and the (output, next state)
    pair that every per-frame update of the pipeline returns. */
module Base {

  /** An absent or present value; Python's `Optional[...]`. */
  datatype Option<+T> = None | Some(value: T)

  /** The result of one update of a stateful component: what the call
      returns, and the component's state after the call. */
  datatype Step<+S, +O> = Step(output: O, next: S)

  /** `max(0.0, v)` */
  function Max0(v: real): (r: real)
    ensures r >= 0.0 && r >= v
    ensures r == 0.0 || r == v
  {
    if v > 0.0 then v else 0.0
  }
}
