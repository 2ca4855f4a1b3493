/** What several components share. */
module Common {

  datatype Option<T> = None | Some(value: T)

  ghost predicate Distinct<T>(l: seq<T>) {
    forall i, j | 0 <= i < j < |l| :: l[i] != l[j]
  }

  lemma Assoc<T>(a: seq<T>, b: seq<T>, c: seq<T>)
    ensures a + b + c == a + (b + c)
  {
  }

  lemma SplitFirst<T>(acc: seq<T>, s: seq<T>)
    requires s != []
    ensures acc + [s[0]] + s[1..] == acc + s
  {
  }
}
