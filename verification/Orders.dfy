/** The lexicographic order of identifiers, shared by the ordered maps of the runtime. */
module Orders {

  type Id = string

  /** Lexicographic order on identifiers. */
  predicate IdLe(a: Id, b: Id) {
    a == [] || (b != [] && (a[0] < b[0] || (a[0] == b[0] && IdLe(a[1..], b[1..]))))
  }

  lemma {:induction false} IdLeTotal(a: Id, b: Id)
    ensures IdLe(a, b) || IdLe(b, a)
    ensures IdLe(a, b) && IdLe(b, a) ==> a == b
  {
    if a != [] && b != [] {
      IdLeTotal(a[1..], b[1..]);
      assert a == [a[0]] + a[1..] && b == [b[0]] + b[1..];
    }
  }

  lemma {:induction false} IdLeTransitive(a: Id, b: Id, c: Id)
    requires IdLe(a, b) && IdLe(b, c)
    ensures IdLe(a, c)
  {
    if a != [] && a[0] == b[0] && b[0] == c[0] {
      IdLeTransitive(a[1..], b[1..], c[1..]);
    }
  }
}
