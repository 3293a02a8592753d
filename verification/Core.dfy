/** Failure values and byte strings shared by the models. */
module Core {

  datatype Option<+T> = None | Some(value: T)

  datatype Result<+T, +E> = Ok(value: T) | Err(error: E)

  type Byte = b: int | 0 <= b < 256

  /** The bytes of a Rust string. */
  type Text = seq<Byte>

  predicate IsDigit(b: Byte) {
    48 <= b <= 57
  }

  /** Splitting at the last hyphen. */
  lemma LastHyphen(a: Text, x: Text, b: Text, y: Text)
    requires a + [45] + x == b + [45] + y && 45 !in x && 45 !in y
    ensures a == b && x == y
  {
    var s := a + [45] + x;
    assert s[|a|] == 45 && s[|b|] == 45;
    assert forall i :: |a| < i < |s| ==> s[i] == x[i - |a| - 1];
    assert forall i :: |b| < i < |s| ==> s[i] == y[i - |b| - 1];
    assert |a| == |b|;
    assert s[..|a|] == a && s[..|b|] == b && s[|a| + 1..] == x && s[|b| + 1..] == y;
  }
}
