/** Types shared by every module of the model. */
module Core {

  datatype Option<+T> = None | Some(value: T)

  /** A file or wire byte. */
  type Byte = b: int | 0 <= b < 256

  /** A projected coordinate: two 64-bit words, compared for equality only. */
  type Word = w: int | 0 <= w < 0x1_0000_0000_0000_0000

  datatype Coord = Coord(x: Word, y: Word)

  /** A node record as the shard, regional and temporary files carry it. */
  datatype Rec = Rec(id: int, at: Coord)

  /** The concatenation of a list of lists. */
  function Flatten<T>(parts: seq<seq<T>>): seq<T> {
    if parts == [] then [] else parts[0] + Flatten(parts[1..])
  }

  lemma {:induction false} FlattenAppend<T>(a: seq<seq<T>>, b: seq<seq<T>>)
    ensures Flatten(a + b) == Flatten(a) + Flatten(b)
  {
    if a == [] {
      assert a + b == b;
    } else {
      FlattenAppend(a[1..], b);
      assert (a + b)[1..] == a[1..] + b;
      assert Flatten(a) + Flatten(b) == a[0] + (Flatten(a[1..]) + Flatten(b));
    }
  }

  lemma FlattenSnoc<T>(a: seq<seq<T>>, x: seq<T>)
    ensures Flatten(a + [x]) == Flatten(a) + x
  {
    FlattenAppend(a, [x]);
    assert Flatten([x]) == x + Flatten<T>([]);
  }
}
