/** `bool.ToInt32` (BooleanExtensions.cs). */
module Booleans {
  import opened Common

  /** 1 for true, 0 for false. */
  function ToInt32(value: bool): (r: Int32)
    ensures r == 0 || r == 1
    ensures r != 0 <==> value
  {
    if value then 1 else 0
  }

  /** The encoding loses nothing: equal integers come from equal booleans,
      and `!= 0` decodes it. */
  lemma ToInt32Injective(a: bool, b: bool)
    ensures ToInt32(a) == ToInt32(b) <==> a == b
    ensures (ToInt32(a) != 0) == a
  {
  }
}
