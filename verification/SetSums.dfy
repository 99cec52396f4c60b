/** Sums over finite sets of IDs. */
module SetSums {
  ghost function Sum(s: set<string>, f: string -> int): int {
    if s == {} then 0 else var x :| x in s; f(x) + Sum(s - {x}, f)
  }

  lemma {:induction false} SumRemove(s: set<string>, f: string -> int, x: string)
    requires x in s
    ensures Sum(s, f) == f(x) + Sum(s - {x}, f)
    decreases |s|
  {
    var y :| y in s && Sum(s, f) == f(y) + Sum(s - {y}, f);
    if y != x {
      SumRemove(s - {y}, f, x);
      SumRemove(s - {x}, f, y);
      assert s - {y} - {x} == s - {x} - {y};
    }
  }

  /** A pointwise bound, with one element allowed an excess. */
  lemma {:induction false} SumAtMost(s: set<string>, f: string -> int, g: string -> int, x: string, excess: int)
    requires excess >= 0 && forall y | y in s :: f(y) <= g(y) + if y == x then excess else 0
    ensures Sum(s, f) <= Sum(s, g) + if x in s then excess else 0
    decreases |s|
  {
    if s != {} {
      var y :| y in s;
      SumRemove(s, f, y);
      SumRemove(s, g, y);
      SumAtMost(s - {y}, f, g, x, excess);
    }
  }

  lemma {:induction false} SumOfSums(s: set<string>, f: string -> int, g: string -> int, h: string -> int)
    requires forall y | y in s :: h(y) == f(y) + g(y)
    ensures Sum(s, h) == Sum(s, f) + Sum(s, g)
    decreases |s|
  {
    if s != {} {
      var y :| y in s;
      SumRemove(s, f, y);
      SumRemove(s, g, y);
      SumRemove(s, h, y);
      SumOfSums(s - {y}, f, g, h);
    }
  }

  /** Elements that contribute nothing do not matter. */
  lemma {:induction false} SumExtend(s: set<string>, more: set<string>, f: string -> int)
    requires s <= more && forall y | y in more && y !in s :: f(y) == 0
    ensures Sum(s, f) == Sum(more, f)
    decreases |more - s|
  {
    if s != more {
      var y :| y in more && y !in s;
      SumRemove(more, f, y);
      SumExtend(s, more - {y}, f);
    }
  }
}
