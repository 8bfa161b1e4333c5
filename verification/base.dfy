/** Small shared vocabulary: failure-compatible Option/Result types and
    three-component real vectors, used by every other module. */
module Base {

  /** An optional value; `None` stands for a null pointer, `npos` or a missing key. */
  datatype Option<+T> = None | Some(value: T) {
    predicate IsFailure() { None? }

    function PropagateFailure<U>(): Option<U>
      requires None?
    {
      None
    }

    function Extract(): T
      requires Some?
    {
      value
    }
  }

  /** The outcome of an operation that can fail with a message (a C++ exception
      or undefined behaviour in the source becomes `Err`). */
  datatype Result<+T> = Ok(value: T) | Err(msg: string) {
    predicate IsFailure() { Err? }

    function PropagateFailure<U>(): Result<U>
      requires Err?
    {
      Err(msg)
    }

    function Extract(): T
      requires Ok?
    {
      value
    }
  }

  /** A `math::vec3` over the reals; floating point rounding is not modelled. */
  datatype Vec3 = Vec3(x: real, y: real, z: real)

  const Zero3: Vec3 := Vec3(0.0, 0.0, 0.0)

  function Add(a: Vec3, b: Vec3): Vec3 {
    Vec3(a.x + b.x, a.y + b.y, a.z + b.z)
  }

  function Scale(a: Vec3, k: real): Vec3 {
    Vec3(a.x * k, a.y * k, a.z * k)
  }

  function Dot(a: Vec3, b: Vec3): real {
    a.x * b.x + a.y * b.y + a.z * b.z
  }

  /** Component-wise midpoint, `(min + max) * 0.5`. */
  function Mid(a: Vec3, b: Vec3): Vec3 {
    Vec3((a.x + b.x) * 0.5, (a.y + b.y) * 0.5, (a.z + b.z) * 0.5)
  }
}
