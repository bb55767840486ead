/** Values that may be missing, and positions in sequences. */
module Collections {

  datatype Option<T> = None | Some(value: T)

  function InsertAt<X>(s: seq<X>, k: nat, x: X): seq<X>
    requires k <= |s|
  {
    s[..k] + [x] + s[k..]
  }

  function RemoveAt<X>(s: seq<X>, k: nat): seq<X>
    requires k < |s|
  {
    s[..k] + s[k + 1..]
  }

  /** The position of the first occurrence of `x`. */
  function IndexOf<X(==)>(s: seq<X>, x: X): (k: nat)
    requires x in s
    ensures k < |s| && s[k] == x && x !in s[..k]
  {
    if s[0] == x then 0 else 1 + IndexOf(s[1..], x)
  }

  lemma Regroup<X>(a: seq<X>, b: seq<X>, c: seq<X>)
    ensures a + (b + c) == (a + b) + c
  {
  }
}
