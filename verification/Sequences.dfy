/** The few general definitions shared by the other modules. */
module Sequences {

  datatype Option<+T> = None | Some(value: T)

  function Last<T>(s: seq<T>): T
    requires s != []
  {
    s[|s| - 1]
  }

  function Front<T>(s: seq<T>): seq<T>
    requires s != []
  {
    s[..|s| - 1]
  }

  /** Concatenation of all the members of `parts`, in order. */
  function Flatten<T>(parts: seq<seq<T>>): seq<T> {
    if parts == [] then [] else Flatten(Front(parts)) + Last(parts)
  }

  lemma FlattenAppend<T>(parts: seq<seq<T>>, part: seq<T>)
    ensures Flatten(parts + [part]) == Flatten(parts) + part
  {
    assert Front(parts + [part]) == parts;
  }

  /** `s` is a subsequence of `t`: some members of `t` left out, the order kept. */
  ghost predicate Subsequence<T(!new)>(s: seq<T>, t: seq<T>) {
    exists at: seq<int> ::
      && |at| == |s|
      && (forall i :: 0 <= i < |at| ==> 0 <= at[i] < |t| && s[i] == t[at[i]])
      && (forall i, j :: 0 <= i < j < |at| ==> at[i] < at[j])
  }

  lemma Slices<T>(a: seq<T>, b: seq<T>, c: seq<T>)
    ensures var all := a + b + c;
            all[..|a|] == a && all[|a|..|a| + |b|] == b && all[|a| + |b|..] == c && all[|a|..] == b + c
  {}
}
