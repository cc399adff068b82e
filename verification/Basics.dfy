/** Datatypes and sequence facts shared by the component models. */
module Basics {
  datatype Option<+T> = None | Some(value: T)

  type byte = x: int | 0 <= x < 256

  /** The bytes are the characters of the text, one each. */
  ghost predicate Spells(bytes: seq<byte>, text: string) {
    |bytes| == |text| && forall i :: 0 <= i < |bytes| ==> bytes[i] == text[i] as int
  }

  /** The number in the first two bytes, in the byte order of the machine. */
  function U16(le: bool, s: seq<byte>): (n: nat)
    requires |s| >= 2
    ensures n < 0x1_0000
  {
    if le then s[0] as int + 256 * s[1] as int else 256 * s[0] as int + s[1] as int
  }

  /** The concatenation of a list of pieces, in order. */
  function Flatten<T>(pieces: seq<seq<T>>): seq<T> {
    if pieces == [] then [] else pieces[0] + Flatten(pieces[1..])
  }

  lemma {:induction false} FlattenAppend<T>(a: seq<seq<T>>, b: seq<seq<T>>)
    ensures Flatten(a + b) == Flatten(a) + Flatten(b)
  {
    if a == [] {
      assert a + b == b;
    } else {
      var rest := a[1..];
      assert (a + b)[1..] == rest + b;
      FlattenAppend(rest, b);
      assert a[0] + (Flatten(rest) + Flatten(b)) == a[0] + Flatten(rest) + Flatten(b);
    }
  }

  /** Part of a slice of an array is a slice of the array. */
  lemma SubSlice<T>(a: array<T>, lo: nat, hi: nat, i: nat, j: nat)
    requires i <= j && lo + j <= hi <= a.Length
    ensures a[lo + i..lo + j] == a[lo..hi][i..j]
  {
    forall k | 0 <= k < j - i
      ensures a[lo + i..lo + j][k] == a[lo..hi][i..j][k]
    {
    }
  }
}
