/** Component replacement and deconstruction on `System.Numerics.Vector4`
    (Numerics/Vector4Extensions.cs). A component is a 32-bit float; these
    operations only copy components, so each is held as its IEEE 754 bit
    pattern and no float arithmetic is modelled. */
module Vector4Ops {
  type Single = bv32

  datatype Vector4 = Vector4(X: Single, Y: Single, Z: Single, W: Single)

  /** The four components, in order. */
  method Deconstruct(vector: Vector4) returns (x: Single, y: Single, z: Single, w: Single)
    ensures Vector4(x, y, z, w) == vector
  {
    x := vector.X;
    y := vector.Y;
    z := vector.Z;
    w := vector.W;
  }

  function WithX(vector: Vector4, x: Single): (r: Vector4)
    ensures r.X == x && r.Y == vector.Y && r.Z == vector.Z && r.W == vector.W
  {
    vector.(X := x)
  }

  function WithY(vector: Vector4, y: Single): (r: Vector4)
    ensures r.X == vector.X && r.Y == y && r.Z == vector.Z && r.W == vector.W
  {
    vector.(Y := y)
  }

  function WithZ(vector: Vector4, z: Single): (r: Vector4)
    ensures r.X == vector.X && r.Y == vector.Y && r.Z == z && r.W == vector.W
  {
    vector.(Z := z)
  }

  function WithW(vector: Vector4, w: Single): (r: Vector4)
    ensures r.X == vector.X && r.Y == vector.Y && r.Z == vector.Z && r.W == w
  {
    vector.(W := w)
  }

  /** Writing a component's own value back changes nothing. */
  lemma WithOwnIsIdentity(v: Vector4)
    ensures WithX(v, v.X) == v && WithY(v, v.Y) == v
    ensures WithZ(v, v.Z) == v && WithW(v, v.W) == v
  {
  }

  /** Of two writes to the same component, the last one wins. */
  lemma LastWriteWins(v: Vector4, a: Single, b: Single)
    ensures WithX(WithX(v, a), b) == WithX(v, b)
    ensures WithY(WithY(v, a), b) == WithY(v, b)
    ensures WithZ(WithZ(v, a), b) == WithZ(v, b)
    ensures WithW(WithW(v, a), b) == WithW(v, b)
  {
  }

  /** Writes to different components commute. */
  lemma WritesCommute(v: Vector4, a: Single, b: Single)
    ensures WithX(WithY(v, b), a) == WithY(WithX(v, a), b)
    ensures WithX(WithZ(v, b), a) == WithZ(WithX(v, a), b)
    ensures WithX(WithW(v, b), a) == WithW(WithX(v, a), b)
    ensures WithY(WithZ(v, b), a) == WithZ(WithY(v, a), b)
    ensures WithY(WithW(v, b), a) == WithW(WithY(v, a), b)
    ensures WithZ(WithW(v, b), a) == WithW(WithZ(v, a), b)
  {
  }
}
