/**
 * The list idiom the program uses wherever it gathers identifiers:
 * `if x not in xs: xs.append(x)`, applied to each candidate in turn.
 */
module Lists {

  ghost predicate NoDup<T>(s: seq<T>) {
    forall i, j :: 0 <= i < j < |s| ==> s[i] != s[j]
  }

  /** `xs` extended, in order, by each of `items` not already present at its turn. */
  function AppendNew<T(==)>(xs: seq<T>, items: seq<T>): seq<T>
    decreases |items|
  {
    if items == [] then xs
    else AppendNew(if items[0] in xs then xs else xs + [items[0]], items[1..])
  }

  /** Reference definition: the entries of `s` that do not occur earlier in `s`, in order. */
  function Firsts<T(==)>(s: seq<T>): seq<T>
    decreases |s|
  {
    if s == [] then []
    else
      var init := s[..|s| - 1];
      Firsts(init) + (if s[|s| - 1] in init then [] else [s[|s| - 1]])
  }

  /** Adding one more candidate at the end. */
  lemma {:induction false} AppendNewSnoc<T>(xs: seq<T>, items: seq<T>, x: T)
    ensures AppendNew(xs, items + [x])
         == (var r := AppendNew(xs, items); if x in r then r else r + [x])
    decreases |items|
  {
    if items == [] {
      assert items + [x] == [x];
    } else {
      var step := if items[0] in xs then xs else xs + [items[0]];
      assert (items + [x])[0] == items[0];
      assert (items + [x])[1..] == items[1..] + [x];
      AppendNewSnoc(step, items[1..], x);
    }
  }

  /** Gathering `a` and then `b` is gathering `a + b`. */
  lemma {:induction false} AppendNewConcat<T>(xs: seq<T>, a: seq<T>, b: seq<T>)
    ensures AppendNew(xs, a + b) == AppendNew(AppendNew(xs, a), b)
    decreases |a|
  {
    if a == [] {
      assert a + b == b;
    } else {
      var step := if a[0] in xs then xs else xs + [a[0]];
      assert (a + b)[0] == a[0];
      assert (a + b)[1..] == a[1..] + b;
      AppendNewConcat(step, a[1..], b);
    }
  }

  /** Nothing already gathered is lost or moved, and exactly the candidates are added. */
  lemma {:induction false} AppendNewElements<T>(xs: seq<T>, items: seq<T>)
    ensures |xs| <= |AppendNew(xs, items)|
    ensures AppendNew(xs, items)[..|xs|] == xs
    ensures forall y :: y in AppendNew(xs, items) <==> y in xs || y in items
    decreases |items|
  {
    if items != [] {
      var step := if items[0] in xs then xs else xs + [items[0]];
      AppendNewElements(step, items[1..]);
      assert step[..|xs|] == xs;
      assert forall y :: y in items <==> y == items[0] || y in items[1..];
    }
  }

  /** A duplicate-free list stays duplicate-free. */
  lemma {:induction false} AppendNewNoDup<T>(xs: seq<T>, items: seq<T>)
    requires NoDup(xs)
    ensures NoDup(AppendNew(xs, items))
    decreases |items|
  {
    if items != [] {
      var step := if items[0] in xs then xs else xs + [items[0]];
      assert NoDup(step);
      AppendNewNoDup(step, items[1..]);
    }
  }

  lemma {:induction false} FirstsOfNoDup<T>(s: seq<T>)
    requires NoDup(s)
    ensures Firsts(s) == s
    decreases |s|
  {
    if s != [] {
      var init := s[..|s| - 1];
      assert NoDup(init);
      FirstsOfNoDup(init);
      assert s[|s| - 1] !in init;
      assert init + [s[|s| - 1]] == s;
    }
  }

  /**
   * Gathering into a duplicate-free list keeps exactly the first occurrence of
   * every identifier, in the order of first appearance.
   */
  lemma {:induction false} AppendNewIsFirsts<T>(xs: seq<T>, items: seq<T>)
    requires NoDup(xs)
    ensures AppendNew(xs, items) == Firsts(xs + items)
    decreases |items|
  {
    if items == [] {
      assert xs + items == xs;
      FirstsOfNoDup(xs);
    } else {
      var p, x := items[..|items| - 1], items[|items| - 1];
      var whole := xs + items;
      assert items == p + [x];
      assert whole[..|whole| - 1] == xs + p && whole[|whole| - 1] == x;
      assert Firsts(whole) == Firsts(xs + p) + (if x in xs + p then [] else [x]);
      assert AppendNew(xs, p) == Firsts(xs + p) by {
        AppendNewIsFirsts(xs, p);
      }
      assert x in AppendNew(xs, p) <==> x in xs + p by {
        AppendNewElements(xs, p);
      }
      assert AppendNew(xs, items) == AppendNew(xs, p) + (if x in AppendNew(xs, p) then [] else [x]) by {
        AppendNewSnoc(xs, p, x);
      }
    }
  }
}
