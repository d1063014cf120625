/**
 * Three-way comparisons in the shape lodash's comparators use (-1, 0, 1),
 * the total preorders they are expected to be, and the ways sortBy combines
 * them: a missing key sorts last, several criteria are compared in turn, and
 * a comparison on elements is derived from one on a key.
 */
module Compare {
  import opened Wrappers

  datatype Ordering = Less | Equal | Greater

  function Flip(o: Ordering): Ordering {
    match o
    case Less => Greater
    case Equal => Equal
    case Greater => Less
  }

  /** Swapping the operands flips the outcome. */
  ghost predicate FlipConsistent<T(!new)>(cmp: (T, T) -> Ordering) {
    forall a, b :: cmp(b, a) == Flip(cmp(a, b))
  }

  /** "Not after" is transitive. */
  ghost predicate Transitive<T(!new)>(cmp: (T, T) -> Ordering) {
    forall a, b, c :: cmp(a, b) != Greater && cmp(b, c) != Greater ==> cmp(a, c) != Greater
  }

  /** A total preorder given as a three-way comparison: ties are allowed between distinct values. */
  ghost predicate TotalPreorder<T(!new)>(cmp: (T, T) -> Ordering) {
    FlipConsistent(cmp) && Transitive(cmp)
  }

  /** The comparison on original positions, `object.index - other.index` in lodash. */
  function CompareNat(m: nat, n: nat): Ordering {
    if m < n then Less else if m == n then Equal else Greater
  }

  /** A comparison on optional keys in which an absent key sorts after every present one. */
  function MissingLast<T>(cmp: (T, T) -> Ordering): (Option<T>, Option<T>) -> Ordering {
    (a: Option<T>, b: Option<T>) =>
      match (a, b)
      case (None, None) => Equal
      case (None, Some(_)) => Greater
      case (Some(_), None) => Less
      case (Some(x), Some(y)) => cmp(x, y)
  }

  /** Compares by `first`; `second` decides only the ties of `first`. */
  function Lex<T>(first: (T, T) -> Ordering, second: (T, T) -> Ordering): (T, T) -> Ordering {
    (a: T, b: T) => if first(a, b) == Equal then second(a, b) else first(a, b)
  }

  /** Compares elements by comparing a key computed from each. */
  function ByKey<T, K>(cmp: (K, K) -> Ordering, key: T -> K): (T, T) -> Ordering {
    (a: T, b: T) => cmp(key(a), key(b))
  }

  lemma NatPreorder()
    ensures TotalPreorder(CompareNat)
    ensures forall m, n :: CompareNat(m, n) == Equal ==> m == n
  {
  }

  /** Strictly before, then not after, gives strictly before. */
  lemma {:induction false} LessThenNotGreater<T(!new)>(cmp: (T, T) -> Ordering, a: T, b: T, c: T)
    requires TotalPreorder(cmp)
    requires cmp(a, b) == Less && cmp(b, c) != Greater
    ensures cmp(a, c) == Less
  {
  }

  lemma {:induction false} MissingLastPreorder<T(!new)>(cmp: (T, T) -> Ordering)
    requires TotalPreorder(cmp)
    ensures TotalPreorder(MissingLast(cmp))
  {
  }

  lemma {:induction false} LexPreorder<T(!new)>(first: (T, T) -> Ordering, second: (T, T) -> Ordering)
    requires TotalPreorder(first) && TotalPreorder(second)
    ensures TotalPreorder(Lex(first, second))
  {
  }

  lemma {:induction false} ByKeyPreorder<T(!new), K(!new)>(cmp: (K, K) -> Ordering, key: T -> K)
    requires TotalPreorder(cmp)
    ensures TotalPreorder(ByKey(cmp, key))
  {
  }
}
