/** Types and sequence facts shared by every component. */
module Base {

  /** One octet. */
  type byte = x: int | 0 <= x < 256

  /** Number of values of the source's 64-bit counters. */
  const U64_LIMIT: nat := 0x1_0000_0000_0000_0000

  datatype Option<+T> = None | Some(value: T)

  datatype Result<+T, +E> = Ok(value: T) | Err(error: E)

  /** All parts joined, in order. */
  function Flatten<T>(parts: seq<seq<T>>): seq<T> {
    if parts == [] then [] else parts[0] + Flatten(parts[1..])
  }

  lemma {:induction false} FlattenAppend<T>(a: seq<seq<T>>, b: seq<seq<T>>)
    ensures Flatten(a + b) == Flatten(a) + Flatten(b)
  {
    if a == [] {
      assert a + b == b;
    } else {
      assert (a + b)[0] == a[0] && (a + b)[1..] == a[1..] + b;
      FlattenAppend(a[1..], b);
    }
  }

  lemma FlattenSnoc<T>(a: seq<seq<T>>, part: seq<T>)
    ensures Flatten(a + [part]) == Flatten(a) + part
  {
    FlattenAppend(a, [part]);
    assert Flatten([part]) == part + Flatten([]);
  }
}
