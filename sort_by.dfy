/**
 * lodash's `sortBy`: each element is paired with its original position, the
 * pairs are ordered by the criteria and then by position, and the elements are
 * read back in that order. Comparing positions last is what makes the sort
 * stable; it also makes the order on pairs strict, so the result does not
 * depend on the sorting algorithm the JavaScript engine runs (lemma
 * StrictOrderIsUnique). The model sorts by insertion.
 */
module Sorting {
  import opened Compare

  /** An element together with its position in the input. */
  datatype Entry<T> = Entry(index: nat, value: T)

  function IndexOf<T>(e: Entry<T>): nat { e.index }

  function ValueOf<T>(e: Entry<T>): T { e.value }

  /** The elements of `xs` paired with their positions, counted from `from`. */
  function Decorate<T>(xs: seq<T>, from: nat): (es: seq<Entry<T>>)
    ensures |es| == |xs|
    ensures forall i :: 0 <= i < |xs| ==> es[i] == Entry(from + i, xs[i])
  {
    if xs == [] then [] else [Entry(from, xs[0])] + Decorate(xs[1..], from + 1)
  }

  /** The elements of a sequence of entries, in order. */
  function Values<T>(es: seq<Entry<T>>): (xs: seq<T>)
    ensures |xs| == |es|
    ensures forall i :: 0 <= i < |es| ==> xs[i] == es[i].value
  {
    if es == [] then [] else [es[0].value] + Values(es[1..])
  }

  /** lodash's compareMultiple: the criteria decide, and the original position breaks ties. */
  function CriteriaThenIndex<T>(cmp: (T, T) -> Ordering): (Entry<T>, Entry<T>) -> Ordering {
    Lex(ByKey(cmp, ValueOf), ByKey(CompareNat, IndexOf))
  }

  /** Every element is strictly before every later one. */
  ghost predicate StrictlySorted<T>(cmp: (T, T) -> Ordering, s: seq<T>) {
    forall i, j :: 0 <= i < j < |s| ==> cmp(s[i], s[j]) == Less
  }

  /** Places `x` in front of the first element it is not after. */
  function Insert<T>(cmp: (T, T) -> Ordering, x: T, s: seq<T>): (r: seq<T>)
    ensures multiset(r) == multiset(s) + multiset{x}
  {
    if s == [] then [x]
    else if cmp(x, s[0]) != Greater then [x] + s
    else
      assert s == [s[0]] + s[1..];
      [s[0]] + Insert(cmp, x, s[1..])
  }

  function InsertionSort<T>(cmp: (T, T) -> Ordering, s: seq<T>): (r: seq<T>)
    ensures multiset(r) == multiset(s)
  {
    if s == [] then []
    else
      assert s == [s[0]] + s[1..];
      Insert(cmp, s[0], InsertionSort(cmp, s[1..]))
  }

  /** The entries of `xs` in sorted order; lodash's baseSortBy before it drops the positions. */
  function SortedEntries<T>(cmp: (T, T) -> Ordering, xs: seq<T>): seq<Entry<T>> {
    InsertionSort(CriteriaThenIndex(cmp), Decorate(xs, 0))
  }

  /**
   * `_sortBy(xs, criteria)`, with the criteria given as one comparison on
   * elements. It returns as many elements as it was given, and the same ones.
   */
  function SortBy<T>(cmp: (T, T) -> Ordering, xs: seq<T>): (r: seq<T>)
    ensures |r| == |xs|
    ensures multiset(r) == multiset(xs)
  {
    var ds := Decorate(xs, 0);
    var es := SortedEntries(cmp, xs);
    assert |es| == |multiset(es)| == |multiset(ds)| == |xs|;
    ValuesPermutation(es, ds);
    assert Values(ds) == xs;
    Values(es)
  }

  /** For each position of the sorted output, the position in `xs` its element came from. */
  ghost function Origins<T>(cmp: (T, T) -> Ordering, xs: seq<T>): (o: seq<nat>)
    ensures |o| == |SortedEntries(cmp, xs)|
  {
    var es := SortedEntries(cmp, xs);
    seq(|es|, i requires 0 <= i < |es| => es[i].index)
  }

  lemma {:induction false} EntryOrderIsPreorder<T(!new)>(cmp: (T, T) -> Ordering)
    requires TotalPreorder(cmp)
    ensures TotalPreorder(CriteriaThenIndex(cmp))
    ensures forall a, b :: CriteriaThenIndex(cmp)(a, b) == Equal ==> a.index == b.index
  {
    ByKeyPreorder(cmp, ValueOf<T>);
    NatPreorder();
    ByKeyPreorder(CompareNat, IndexOf<T>);
    LexPreorder(ByKey(cmp, ValueOf<T>), ByKey(CompareNat, IndexOf<T>));
    forall a: Entry<T>, b: Entry<T> | CriteriaThenIndex(cmp)(a, b) == Equal
      ensures a.index == b.index
    {
      var byValue, byIndex := ByKey(cmp, ValueOf<T>), ByKey(CompareNat, IndexOf<T>);
      assert byIndex(a, b) == CompareNat(a.index, b.index);
      assert Lex(byValue, byIndex)(a, b) == if byValue(a, b) == Equal then byIndex(a, b) else byValue(a, b);
    }
  }

  /** Inserting an element that ties with nothing keeps a sequence strictly sorted. */
  lemma {:induction false} InsertStrictlySorted<T(!new)>(cmp: (T, T) -> Ordering, x: T, s: seq<T>)
    requires TotalPreorder(cmp) && StrictlySorted(cmp, s)
    requires forall y :: y in s ==> cmp(x, y) != Equal
    ensures StrictlySorted(cmp, Insert(cmp, x, s))
  {
    if s == [] {
    } else if cmp(x, s[0]) != Greater {
      forall j | 0 < j < |s| ensures cmp(x, s[j]) == Less {
        LessThenNotGreater(cmp, x, s[0], s[j]);
      }
    } else {
      InsertStrictlySorted(cmp, x, s[1..]);
      var t := Insert(cmp, x, s[1..]);
      assert cmp(s[0], x) == Flip(cmp(x, s[0]));
      forall j | 0 <= j < |t| ensures cmp(s[0], t[j]) == Less {
        assert t[j] in multiset(t);
        if t[j] != x {
          assert t[j] in s[1..];
        }
      }
    }
  }

  /** Sorting entries whose positions start at `from` gives a strictly sorted sequence. */
  lemma {:induction false} SortedEntriesStrict<T(!new)>(cmp: (T, T) -> Ordering, xs: seq<T>, from: nat)
    requires TotalPreorder(cmp)
    ensures StrictlySorted(CriteriaThenIndex(cmp), InsertionSort(CriteriaThenIndex(cmp), Decorate(xs, from)))
  {
    var c := CriteriaThenIndex(cmp);
    EntryOrderIsPreorder(cmp);
    var ds := Decorate(xs, from);
    if xs != [] {
      assert ds[1..] == Decorate(xs[1..], from + 1);
      SortedEntriesStrict(cmp, xs[1..], from + 1);
      var t := InsertionSort(c, ds[1..]);
      forall y | y in t ensures c(ds[0], y) != Equal {
        assert y in multiset(ds[1..]);
        var k :| 0 <= k < |ds[1..]| && ds[1..][k] == y;
      }
      InsertStrictlySorted(c, ds[0], t);
    }
  }

  /** Two strictly sorted arrangements of the same elements start with the same element. */
  lemma HeadsAgree<T(!new)>(cmp: (T, T) -> Ordering, a: seq<T>, b: seq<T>)
    requires FlipConsistent(cmp)
    requires a != [] && b != []
    requires a[0] in b && b[0] in a
    requires StrictlySorted(cmp, a) && StrictlySorted(cmp, b)
    ensures a[0] == b[0]
  {
  }

  /**
   * Two arrangements of the same elements that are both strictly sorted are
   * the same sequence: with the position tie-break any correct sorting
   * algorithm yields the order the model computes.
   */
  lemma {:induction false} StrictOrderIsUnique<T(!new)>(cmp: (T, T) -> Ordering, a: seq<T>, b: seq<T>)
    requires FlipConsistent(cmp)
    requires multiset(a) == multiset(b)
    requires StrictlySorted(cmp, a) && StrictlySorted(cmp, b)
    ensures a == b
  {
    if a != [] {
      assert |b| == |multiset(b)| == |a|;
      assert a[0] in multiset(b) && b[0] in multiset(a);
      HeadsAgree(cmp, a, b);
      TailsPermuted(a, b);
      StrictOrderIsUnique(cmp, a[1..], b[1..]);
    }
  }

  /** Removing the same first element from two arrangements of the same elements leaves arrangements of the same elements. */
  lemma TailsPermuted<T>(a: seq<T>, b: seq<T>)
    requires a != [] && b != [] && a[0] == b[0]
    requires multiset(a) == multiset(b)
    ensures multiset(a[1..]) == multiset(b[1..])
  {
    assert a == [a[0]] + a[1..] && b == [b[0]] + b[1..];
    assert multiset(a) == multiset{a[0]} + multiset(a[1..]);
    assert multiset(b) == multiset{a[0]} + multiset(b[1..]);
    assert multiset(a[1..]) == multiset(a) - multiset{a[0]};
  }

  lemma {:induction false} ValuesConcat<T>(p: seq<Entry<T>>, q: seq<Entry<T>>)
    ensures Values(p + q) == Values(p) + Values(q)
  {
  }

  /** Rearranging entries rearranges their elements the same way. */
  lemma {:induction false} ValuesPermutation<T>(p: seq<Entry<T>>, q: seq<Entry<T>>)
    requires multiset(p) == multiset(q)
    ensures multiset(Values(p)) == multiset(Values(q))
  {
    if p == [] {
      assert |q| == |multiset(q)| == 0;
    } else {
      var e := p[0];
      assert e in multiset(q);
      var j :| 0 <= j < |q| && q[j] == e;
      var rest := q[..j] + q[j + 1..];
      assert q == q[..j] + [e] + q[j + 1..];
      assert p == [e] + p[1..];
      assert multiset(q) == multiset(q[..j]) + multiset{e} + multiset(q[j + 1..]);
      assert multiset(p) == multiset{e} + multiset(p[1..]);
      assert multiset(rest) == multiset(q[..j]) + multiset(q[j + 1..]);
      assert multiset(p[1..]) == multiset(p) - multiset{e};
      ValuesPermutation(p[1..], rest);
      ValuesConcat(q[..j] + [e], q[j + 1..]);
      ValuesConcat(q[..j], [e]);
      ValuesConcat(q[..j], q[j + 1..]);
      ValuesConcat([e], p[1..]);
    }
  }

  /** Each sorted entry is an element of `xs` with its position, and the entries are strictly sorted. */
  lemma {:induction false} SortedEntriesFacts<T(!new)>(cmp: (T, T) -> Ordering, xs: seq<T>)
    requires TotalPreorder(cmp)
    ensures var es := SortedEntries(cmp, xs);
      && |es| == |xs|
      && StrictlySorted(CriteriaThenIndex(cmp), es)
      && forall i :: 0 <= i < |es| ==> es[i].index < |xs| && es[i].value == xs[es[i].index]
  {
    var ds := Decorate(xs, 0);
    var es := SortedEntries(cmp, xs);
    assert |es| == |multiset(es)| == |multiset(ds)| == |xs|;
    SortedEntriesStrict(cmp, xs, 0);
    forall i | 0 <= i < |es| ensures es[i].index < |xs| && es[i].value == xs[es[i].index] {
      assert es[i] in multiset(ds);
    }
  }

  /** Each output element is the input element at its origin. */
  lemma {:induction false} SortByOrigins<T(!new)>(cmp: (T, T) -> Ordering, xs: seq<T>)
    requires TotalPreorder(cmp)
    ensures var r, o := SortBy(cmp, xs), Origins(cmp, xs);
      && |r| == |o| == |xs|
      && forall i :: 0 <= i < |r| ==> o[i] < |xs| && r[i] == xs[o[i]]
  {
    SortedEntriesFacts(cmp, xs);
  }

  /** No two output positions come from the same input position. */
  lemma {:induction false} OriginsDistinct<T(!new)>(cmp: (T, T) -> Ordering, xs: seq<T>)
    requires TotalPreorder(cmp)
    ensures var o := Origins(cmp, xs);
      forall i, j :: 0 <= i < |o| && 0 <= j < |o| && i != j ==> o[i] != o[j]
  {
    var c := CriteriaThenIndex(cmp);
    var es := SortedEntries(cmp, xs);
    var o := Origins(cmp, xs);
    SortedEntriesFacts(cmp, xs);
    EntryOrderIsPreorder(cmp);
    forall i, j | 0 <= i < |o| && 0 <= j < |o| && i != j ensures o[i] != o[j] {
      if i < j {
        assert c(es[i], es[j]) == Less;
      } else {
        assert c(es[j], es[i]) == Less;
      }
    }
  }

  /** What one entry being strictly before another says about their elements and positions. */
  lemma EntryBefore<T>(cmp: (T, T) -> Ordering, a: Entry<T>, b: Entry<T>)
    requires CriteriaThenIndex(cmp)(a, b) == Less
    ensures cmp(a.value, b.value) != Greater
    ensures cmp(a.value, b.value) == Equal ==> a.index < b.index
  {
    var byValue, byIndex := ByKey(cmp, ValueOf<T>), ByKey(CompareNat, IndexOf<T>);
    assert byValue(a, b) == cmp(a.value, b.value);
    assert byIndex(a, b) == CompareNat(a.index, b.index);
    assert Lex(byValue, byIndex)(a, b) == if byValue(a, b) == Equal then byIndex(a, b) else byValue(a, b);
  }

  /**
   * sortBy's output is ordered by the criteria, and it is stable: two
   * elements the criteria tie keep their input order.
   */
  lemma {:induction false} SortByOrderedAndStable<T(!new)>(cmp: (T, T) -> Ordering, xs: seq<T>)
    requires TotalPreorder(cmp)
    ensures var r, o := SortBy(cmp, xs), Origins(cmp, xs);
      && |r| == |o|
      && (forall i, j :: 0 <= i < j < |r| ==> cmp(r[i], r[j]) != Greater)
      && (forall i, j :: 0 <= i < j < |r| && cmp(r[i], r[j]) == Equal ==> o[i] < o[j])
  {
    var es := SortedEntries(cmp, xs);
    SortedEntriesFacts(cmp, xs);
    forall i, j | 0 <= i < j < |es|
      ensures cmp(es[i].value, es[j].value) != Greater
      ensures cmp(es[i].value, es[j].value) == Equal ==> es[i].index < es[j].index
    {
      EntryBefore(cmp, es[i], es[j]);
    }
  }
}
