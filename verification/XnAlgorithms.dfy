/** XnAlgorithms::BubbleSort, which swaps neighbours unless the comparer puts the first before the second. */
module XnAlgorithms {

  predicate Transitive<T>(comp: (T, T) -> bool, x: T, y: T, z: T) {
    && (comp(x, y) && comp(y, z) ==> comp(x, z))
    && (!comp(x, y) && !comp(y, z) ==> !comp(x, z))
  }

  /** A comparer that orders, with the elements it cannot tell apart forming classes. */
  ghost predicate StrictWeakOrder<T(!new)>(comp: (T, T) -> bool) {
    && (forall x :: !comp(x, x))
    && (forall x, y, z {:trigger Transitive(comp, x, y, z)} :: Transitive(comp, x, y, z))
  }

  ghost predicate Sorted<T>(s: seq<T>, comp: (T, T) -> bool) {
    forall i, j :: 0 <= i < j < |s| ==> !comp(s[j], s[i])
  }

  /** Element `m` belongs in front of none of the elements up to it. */
  ghost predicate Greatest<T>(s: seq<T>, m: nat, comp: (T, T) -> bool)
    requires m < |s|
  {
    forall i :: 0 <= i <= m ==> !comp(s[m], s[i])
  }

  /** From `n` on everything is in place: it belongs in front of nothing that stands before it. */
  ghost predicate InPlace<T>(s: seq<T>, n: nat, comp: (T, T) -> bool) {
    forall i, j :: 0 <= i < j < |s| && n <= j ==> !comp(s[j], s[i])
  }

  /** `t` is `s` with its first `n` elements rearranged. */
  ghost predicate Rearranged<T>(s: seq<T>, t: seq<T>, n: nat) {
    |s| == |t| && n <= |s| && multiset(s[..n]) == multiset(t[..n]) && s[n..] == t[n..]
  }

  /** One comparison of neighbours. */
  function Step<T>(s: seq<T>, i: nat, comp: (T, T) -> bool): seq<T>
    requires i + 1 < |s|
  {
    if comp(s[i], s[i + 1]) then s else s[i := s[i + 1]][i + 1 := s[i]]
  }

  lemma StepRearranges<T>(s: seq<T>, i: nat, n: nat, comp: (T, T) -> bool)
    requires i + 1 < n <= |s|
    ensures Rearranged(s, Step(s, i, comp), n)
  {
    var p := s[..n];
    assert Step(s, i, comp)[..n] == Step(p, i, comp);
    assert multiset(p[i := p[i + 1]][i + 1 := p[i]]) == multiset(p);
  }

  /** Rearranging the elements before `n` leaves what stands from `n` on in place. */
  lemma RearrangedInPlace<T>(s: seq<T>, t: seq<T>, n: nat, comp: (T, T) -> bool)
    requires Rearranged(s, t, n) && InPlace(s, n, comp)
    ensures InPlace(t, n, comp)
  {
    forall i, j | 0 <= i < j < |t| && n <= j
      ensures !comp(t[j], t[i])
    {
      assert t[j] == t[n..][j - n] == s[n..][j - n] == s[j];
      if i < n {
        assert t[i] in multiset(t[..n]);
        assert t[i] in s[..n];
        var k :| 0 <= k < n && s[k] == t[i];
      } else {
        assert t[i] == t[n..][i - n] == s[n..][i - n] == s[i];
      }
    }
  }

  lemma RearrangedTrans<T>(s: seq<T>, t: seq<T>, u: seq<T>, n: nat)
    requires Rearranged(s, t, n) && Rearranged(t, u, n)
    ensures Rearranged(s, u, n)
  {
  }

  /** Neighbours in order from the first to the last of a prefix, and the rest in place: everything is sorted. */
  lemma {:induction false} NeighboursSorted<T(!new)>(s: seq<T>, n: nat, comp: (T, T) -> bool)
    requires StrictWeakOrder(comp) && n <= |s| && InPlace(s, n, comp)
    requires forall i :: 0 <= i < n - 1 ==> comp(s[i], s[i + 1])
    ensures Sorted(s, comp)
    decreases n
  {
    if n > 0 {
      forall i, j | 0 <= i < j < |s| && n - 1 <= j
        ensures !comp(s[j], s[i])
      {
        if j == n - 1 {
          Chain(s, i, j, comp);
        }
      }
      NeighboursSorted(s, n - 1, comp);
    }
  }

  lemma {:induction false} Chain<T(!new)>(s: seq<T>, i: nat, j: nat, comp: (T, T) -> bool)
    requires StrictWeakOrder(comp) && i < j < |s|
    requires forall k :: i <= k < j ==> comp(s[k], s[k + 1])
    ensures comp(s[i], s[j]) && !comp(s[j], s[i])
    decreases j
  {
    if i < j - 1 {
      Chain(s, i, j - 1, comp);
      assert Transitive(comp, s[i], s[j - 1], s[j]);
    }
    assert Transitive(comp, s[j], s[i], s[j]);
  }

  // ----- what a pass does -----

  /** The first `i` comparisons of a pass. */
  function Carried<T>(s: seq<T>, i: nat, comp: (T, T) -> bool): (r: seq<T>)
    requires i < |s|
    ensures |r| == |s|
  {
    if i == 0 then s else Step(Carried(s, i - 1, comp), i - 1, comp)
  }

  /** Which of the first `n` elements a pass holds by then: it changes hands only for one that it comes before. */
  function Held<T>(s: seq<T>, n: nat, comp: (T, T) -> bool): (g: nat)
    requires 0 < n <= |s|
    ensures g < n
  {
    if n == 1 then 0
    else
      var g := Held(s, n - 1, comp);
      if comp(s[g], s[n - 1]) then n - 1 else g
  }

  /** What stands at place `j` after `i` comparisons. */
  function CarriedTo<T>(s: seq<T>, i: nat, j: nat, comp: (T, T) -> bool): T
    requires i < |s| && j < |s|
  {
    if j > i then s[j]
    else
      var held := s[Held(s, j + 1, comp)];
      if j == i || comp(held, s[j + 1]) then held else s[j + 1]
  }

  /** For every comparer, place by place: the held element stays where it is relieved, and all others move up. */
  lemma {:induction false} CarriedAt<T>(s: seq<T>, i: nat, j: nat, comp: (T, T) -> bool)
    requires i < |s| && j < |s|
    ensures Carried(s, i, comp)[j] == CarriedTo(s, i, j, comp)
  {
    if i > 0 {
      CarriedAt(s, i - 1, j, comp);
      CarriedAt(s, i - 1, i - 1, comp);
      CarriedAt(s, i - 1, i, comp);
    }
  }

  ghost predicate IsCarried<T>(s: seq<T>, i: nat, t: seq<T>, comp: (T, T) -> bool) {
    && i < |s| == |t|
    && forall j {:trigger CarriedTo(s, i, j, comp)} :: 0 <= j < |s| ==> t[j] == CarriedTo(s, i, j, comp)
  }

  lemma CarriedIs<T>(s: seq<T>, i: nat, comp: (T, T) -> bool)
    requires i < |s|
    ensures IsCarried(s, i, Carried(s, i, comp), comp)
  {
    forall j | 0 <= j < |s|
      ensures Carried(s, i, comp)[j] == CarriedTo(s, i, j, comp)
    {
      CarriedAt(s, i, j, comp);
    }
  }

  /** For a strict weak order the held element is the first among the greatest. */
  lemma {:induction false} HeldIsFirst<T(!new)>(s: seq<T>, n: nat, comp: (T, T) -> bool)
    requires StrictWeakOrder(comp) && 0 < n <= |s|
    ensures forall i :: 0 <= i < n ==> !comp(s[Held(s, n, comp)], s[i])
    ensures forall i :: 0 <= i < Held(s, n, comp) ==> comp(s[i], s[Held(s, n, comp)])
  {
    if n > 1 {
      var g := Held(s, n - 1, comp);
      HeldIsFirst(s, n - 1, comp);
      forall i | 0 <= i < n - 1
        ensures comp(s[g], s[n - 1]) ==> comp(s[i], s[n - 1]) && !comp(s[n - 1], s[i])
      {
        // s[i] does not come behind s[g], which comes before s[n - 1]
        assert Transitive(comp, s[g], s[i], s[n - 1]);
        assert Transitive(comp, s[n - 1], s[i], s[n - 1]);
        assert Transitive(comp, s[i], s[n - 1], s[i]);
      }
    }
  }

  /** Behind the first greatest element nothing relieves it any more. */
  lemma {:induction false} HeldStays<T(!new)>(s: seq<T>, m: nat, n: nat, comp: (T, T) -> bool)
    requires StrictWeakOrder(comp) && 0 < m <= n <= |s| && Held(s, n, comp) < m
    ensures Held(s, m, comp) == Held(s, n, comp)
    decreases n
  {
    if m < n {
      HeldIsFirst(s, n, comp);
      HeldStays(s, m, n - 1, comp);
    }
  }

  /** After the passes over the first |s|, |s| - 1, ... elements. */
  function AfterPasses<T>(s: seq<T>, passes: nat, comp: (T, T) -> bool): (r: seq<T>)
    requires passes <= |s|
    ensures |r| == |s|
  {
    if passes == 0 then s else Carried(AfterPasses(s, passes - 1, comp), |s| - passes, comp)
  }

  // ----- where elements that the comparer does not tell apart end up -----

  predicate Tie<T>(x: T, y: T, comp: (T, T) -> bool) {
    !comp(x, y) && !comp(y, x)
  }

  /** The elements of `s` that tie with `x`, in order. */
  function Ties<T>(s: seq<T>, x: T, comp: (T, T) -> bool): seq<T> {
    if s == [] then []
    else (if Tie(s[0], x, comp) then [s[0]] else []) + Ties(s[1..], x, comp)
  }

  function Backwards<T>(s: seq<T>): (r: seq<T>)
    ensures |r| == |s| && forall i :: 0 <= i < |s| ==> r[i] == s[|s| - 1 - i]
  {
    if s == [] then [] else Backwards(s[1..]) + [s[0]]
  }

  lemma {:induction false} TiesConcat<T>(s: seq<T>, t: seq<T>, x: T, comp: (T, T) -> bool)
    ensures Ties(s + t, x, comp) == Ties(s, x, comp) + Ties(t, x, comp)
  {
    if s == [] {
      assert s + t == t;
    } else {
      var one, rest := if Tie(s[0], x, comp) then [s[0]] else [], Ties(s[1..], x, comp);
      assert (s + t)[0] == s[0] && (s + t)[1..] == s[1..] + t;
      TiesConcat(s[1..], t, x, comp);
      assert one + (rest + Ties(t, x, comp)) == (one + rest) + Ties(t, x, comp);
    }
  }

  lemma {:induction false} NoTies<T>(s: seq<T>, x: T, comp: (T, T) -> bool)
    requires forall i :: 0 <= i < |s| ==> !Tie(s[i], x, comp)
    ensures Ties(s, x, comp) == []
  {
    if s != [] {
      NoTies(s[1..], x, comp);
    }
  }

  /** Nothing in `s` comes behind `x`. */
  ghost predicate Top<T>(s: seq<T>, x: T, comp: (T, T) -> bool) {
    forall i :: 0 <= i < |s| ==> !comp(x, s[i])
  }

  lemma {:induction false} CarriedCut<T>(s: seq<T>, m: nat, i: nat, comp: (T, T) -> bool)
    requires i < m <= |s|
    ensures Carried(s, i, comp)[..m] == Carried(s[..m], i, comp) && Carried(s, i, comp)[m..] == s[m..]
  {
    if i > 0 {
      CarriedCut(s, m, i - 1, comp);
    }
  }

  /** In front of the first of the greatest there is nothing that ties with an element nothing comes behind. */
  lemma FrontHasNone<T(!new)>(x: T, y: T, front: seq<T>, comp: (T, T) -> bool)
    requires StrictWeakOrder(comp) && !comp(x, y)
    requires forall j :: 0 <= j < |front| ==> comp(front[j], y)
    ensures Ties(front, x, comp) == []
  {
    forall j | 0 <= j < |front|
      ensures !Tie(front[j], x, comp)
    {
      assert Transitive(comp, front[j], x, y);
    }
    NoTies(front, x, comp);
  }

  /** What a pass leaves in front of the first of the greatest came from there. */
  lemma LowFront<T(!new)>(s: seq<T>, t: seq<T>, g: nat, comp: (T, T) -> bool)
    requires StrictWeakOrder(comp) && s != [] && IsCarried(s, |s| - 1, t, comp) && g == Held(s, |s|, comp)
    ensures forall j :: 0 <= j < g ==> comp(t[j], s[g])
  {
    HeldIsFirst(s, |s|, comp);
    forall j | 0 <= j < g
      ensures comp(t[j], s[g])
    {
      assert t[j] == CarriedTo(s, |s| - 1, j, comp);
    }
  }

  lemma MovesUp<T(!new)>(s: seq<T>, g: nat, j: nat, comp: (T, T) -> bool)
    requires StrictWeakOrder(comp) && s != [] && g == Held(s, |s|, comp) && g <= j < |s| - 1
    ensures CarriedTo(s, |s| - 1, j, comp) == s[j + 1]
  {
    HeldStays(s, j + 1, |s|, comp);
    HeldIsFirst(s, |s|, comp);
  }

  /** What stands behind it moves up by one. */
  lemma MovedUp<T(!new)>(s: seq<T>, t: seq<T>, g: nat, comp: (T, T) -> bool)
    requires StrictWeakOrder(comp) && s != [] && IsCarried(s, |s| - 1, t, comp) && g == Held(s, |s|, comp)
    ensures t[|s| - 1] == s[g] && t[g..|s| - 1] == s[g + 1..]
  {
    assert t[|s| - 1] == CarriedTo(s, |s| - 1, |s| - 1, comp);
    forall j | g <= j < |s| - 1
      ensures t[j] == s[j + 1]
    {
      assert t[j] == CarriedTo(s, |s| - 1, j, comp);
      MovesUp(s, g, j, comp);
    }
  }

  lemma TiesAround<T>(front: seq<T>, y: T, back: seq<T>, x: T, comp: (T, T) -> bool)
    requires Ties(front, x, comp) == []
    ensures Ties(front + ([y] + back), x, comp) == Ties([y], x, comp) + Ties(back, x, comp)
    ensures Ties(front + back, x, comp) == Ties(back, x, comp)
  {
    TiesConcat(front, [y] + back, x, comp);
    TiesConcat([y], back, x, comp);
    TiesConcat(front, back, x, comp);
  }

  /** A pass takes the first of the greatest out of the row and puts it behind the others. */
  lemma PassTurns<T(!new)>(s: seq<T>, t: seq<T>, x: T, comp: (T, T) -> bool)
    requires StrictWeakOrder(comp) && s != [] && Top(s, x, comp) && IsCarried(s, |s| - 1, t, comp)
    ensures Ties(s, x, comp) == Ties([t[|s| - 1]], x, comp) + Ties(t[..|s| - 1], x, comp)
  {
    var n, g := |s|, Held(s, |s|, comp);
    HeldIsFirst(s, n, comp);
    MovedUp(s, t, g, comp);
    LowFront(s, t, g, comp);
    var back := s[g + 1..];
    FrontHasNone(x, s[g], s[..g], comp);
    FrontHasNone(x, s[g], t[..g], comp);
    TiesAround(s[..g], s[g], back, x, comp);
    TiesAround(t[..g], s[g], back, x, comp);
    Around(s, g, n);
    Around(t, g, n - 1);
  }

  lemma Around<T>(s: seq<T>, g: nat, n: nat)
    requires g <= n <= |s|
    ensures s[..n] == s[..g] + s[g..n]
    ensures n == |s| > g ==> s == s[..g] + ([s[g]] + s[g + 1..])
  {
  }

  lemma {:induction false} BackwardsConcat<T>(s: seq<T>, t: seq<T>)
    ensures Backwards(s + t) == Backwards(t) + Backwards(s)
  {
    if s == [] {
      assert s + t == t;
    } else {
      assert (s + t)[0] == s[0] && (s + t)[1..] == s[1..] + t;
      BackwardsConcat(s[1..], t);
    }
  }

  lemma TopCarried<T(!new)>(s: seq<T>, t: seq<T>, i: nat, x: T, comp: (T, T) -> bool)
    requires IsCarried(s, i, t, comp) && Top(s, x, comp)
    ensures Top(t, x, comp)
  {
    forall j | 0 <= j < |t|
      ensures !comp(x, t[j])
    {
      assert t[j] == CarriedTo(s, i, j, comp);
    }
  }

  /** The passes keep the elements: nothing comes behind `x` before them or after. */
  lemma {:induction false} TopAfter<T(!new)>(s: seq<T>, k: nat, x: T, comp: (T, T) -> bool)
    requires k <= |s| && Top(s, x, comp)
    ensures Top(AfterPasses(s, k, comp), x, comp)
  {
    if k > 0 {
      TopAfter(s, k - 1, x, comp);
      CarriedIs(AfterPasses(s, k - 1, comp), |s| - k, comp);
      TopCarried(AfterPasses(s, k - 1, comp), AfterPasses(s, k, comp), |s| - k, x, comp);
    }
  }

  /** One more pass: the element it places is the next tie, or none. */
  lemma TiesNext<T(!new)>(all: seq<T>, front: seq<T>, back: seq<T>, next: seq<T>, x: T, comp: (T, T) -> bool)
    requires StrictWeakOrder(comp) && front != [] && Top(front, x, comp) && IsCarried(front, |front| - 1, next, comp)
    requires all == Backwards(Ties(back, x, comp)) + Ties(front, x, comp)
    ensures var n := |front| - 1;
            all == Backwards(Ties([next[n]] + back, x, comp)) + Ties(next[..n], x, comp)
  {
    var n := |front| - 1;
    var y := Ties([next[n]], x, comp);
    PassTurns(front, next, x, comp);
    TiesConcat([next[n]], back, x, comp);
    TurnOne(all, y, Ties(back, x, comp), Ties(next[..n], x, comp));
  }

  lemma TurnOne<T>(all: seq<T>, y: seq<T>, back: seq<T>, front: seq<T>)
    requires |y| <= 1 && all == Backwards(back) + (y + front)
    ensures all == Backwards(y + back) + front
  {
    BackwardsConcat(y, back);
    assert Backwards(y) == y;
    assert Backwards(back) + (y + front) == (Backwards(back) + y) + front;
  }

  lemma PassApart<T>(t: seq<T>, n: nat, comp: (T, T) -> bool)
    requires 0 < n <= |t|
    ensures var u, v := Carried(t, n - 1, comp), Carried(t[..n], n - 1, comp);
            u[n - 1..] == [v[n - 1]] + t[n..] && u[..n - 1] == v[..n - 1]
  {
    var u, v := Carried(t, n - 1, comp), Carried(t[..n], n - 1, comp);
    CarriedCut(t, n, n - 1, comp);
    assert u[n - 1..] == [u[n - 1]] + u[n..];
    assert u[..n][..n - 1] == u[..n - 1];
  }

  lemma OneMorePass<T>(s: seq<T>, k: nat, n: nat, comp: (T, T) -> bool)
    requires k < |s| && n == |s| - k
    ensures AfterPasses(s, k + 1, comp) == Carried(AfterPasses(s, k, comp), n - 1, comp)
  {
  }

  /** What has not been put behind yet, and what has. */
  function Front<T>(s: seq<T>, k: nat, comp: (T, T) -> bool): seq<T>
    requires k <= |s|
  {
    AfterPasses(s, k, comp)[..|s| - k]
  }

  function Behind<T>(s: seq<T>, k: nat, comp: (T, T) -> bool): seq<T>
    requires k <= |s|
  {
    AfterPasses(s, k, comp)[|s| - k..]
  }

  /** Pass `k`, the one after the first `m`. */
  lemma OneMoreBehind<T>(s: seq<T>, m: nat, k: nat, n: nat, comp: (T, T) -> bool)
    requires k == m + 1 && |s| == k + n
    ensures var next := Carried(Front(s, m, comp), n, comp);
            Front(s, k, comp) == next[..n] && Behind(s, k, comp) == [next[n]] + Behind(s, m, comp)
  {
    PassApart(AfterPasses(s, m, comp), n + 1, comp);
  }

  /** The ties `all`: those behind, backwards, and those in front as they were. */
  ghost predicate Half<T>(all: seq<T>, front: seq<T>, back: seq<T>, x: T, comp: (T, T) -> bool) {
    all == Backwards(Ties(back, x, comp)) + Ties(front, x, comp)
  }

  lemma TiesOn<T(!new)>(all: seq<T>, front: seq<T>, back: seq<T>, x: T, comp: (T, T) -> bool)
    requires StrictWeakOrder(comp) && front != [] && Top(front, x, comp) && Half(all, front, back, x, comp)
    ensures var n := |front| - 1;
            var next := Carried(front, n, comp);
            Half(all, next[..n], [next[n]] + back, x, comp)
  {
    CarriedIs(front, |front| - 1, comp);
    TiesNext(all, front, back, Carried(front, |front| - 1, comp), x, comp);
  }

  lemma TiesStart<T>(s: seq<T>, x: T, comp: (T, T) -> bool)
    ensures Half(Ties(s, x, comp), Front(s, 0, comp), Behind(s, 0, comp), x, comp)
  {
    assert Behind(s, 0, comp) == [] && Front(s, 0, comp) == s;
  }

  lemma TopFront<T(!new)>(s: seq<T>, k: nat, x: T, comp: (T, T) -> bool)
    requires k <= |s| && Top(s, x, comp)
    ensures Top(Front(s, k, comp), x, comp)
  {
    TopAfter(s, k, x, comp);
  }

  /** The ties of the greatest elements: what was put behind, backwards, and what is still in front, as it was. */
  lemma {:induction false} TiesAfter<T(!new)>(s: seq<T>, k: nat, x: T, comp: (T, T) -> bool)
    requires StrictWeakOrder(comp) && k <= |s| && Top(s, x, comp)
    ensures Half(Ties(s, x, comp), Front(s, k, comp), Behind(s, k, comp), x, comp)
  {
    if k == 0 {
      TiesStart(s, x, comp);
    } else {
      var before: nat := k - 1;
      TiesAfter(s, before, x, comp);
      TopFront(s, before, x, comp);
      TiesOn(Ties(s, x, comp), Front(s, before, comp), Behind(s, before, comp), x, comp);
      OneMoreBehind(s, before, k, |s| - k, comp);
    }
  }

  /** Neighbours in order: no two of these elements tie. */
  lemma {:induction false} OneTie<T(!new)>(s: seq<T>, x: T, comp: (T, T) -> bool)
    requires StrictWeakOrder(comp) && forall i :: 0 <= i < |s| - 1 ==> comp(s[i], s[i + 1])
    ensures |Ties(s, x, comp)| <= 1
  {
    if s != [] {
      OneTie(s[1..], x, comp);
      if Tie(s[0], x, comp) {
        forall i | 1 <= i < |s|
          ensures !Tie(s[i], x, comp)
        {
          Chain(s, 0, i, comp);
          assert Transitive(comp, s[0], x, s[i]);
        }
        NoTies(s[1..], x, comp);
      }
    }
  }

  /** Neighbours in order over the first `n` comparisons. */
  ghost predicate InOrder<T>(s: seq<T>, n: nat, comp: (T, T) -> bool) {
    n < |s| && forall i :: 0 <= i < n ==> comp(s[i], s[i + 1])
  }

  /** The sort is over: every pass has been made, or the last one found its neighbours in order. */
  ghost predicate Over<T>(s: seq<T>, k: nat, comp: (T, T) -> bool) {
    k == |s| || (0 < k < |s| && InOrder(AfterPasses(s, k, comp), |s| - k, comp))
  }

  /** Among the greatest elements, those that are sorted last, the order is turned round. */
  lemma GreatestTurned<T(!new)>(s: seq<T>, k: nat, x: T, comp: (T, T) -> bool)
    requires StrictWeakOrder(comp) && Over(s, k, comp) && Top(s, x, comp)
    ensures Ties(AfterPasses(s, k, comp), x, comp) == Backwards(Ties(s, x, comp))
  {
    var front, back := Front(s, k, comp), Behind(s, k, comp);
    TiesAfter(s, k, x, comp);
    OneTie(front, x, comp);
    assert AfterPasses(s, k, comp) == front + back;
    TiesConcat(front, back, x, comp);
    Turned(Ties(front, x, comp), Ties(back, x, comp));
  }

  lemma Turned<T>(front: seq<T>, back: seq<T>)
    requires |front| <= 1
    ensures front + back == Backwards(Backwards(back) + front)
  {
    BackwardsConcat(Backwards(back), front);
    BackwardsTwice(back);
    assert Backwards(front) == front;
  }

  lemma {:induction false} BackwardsTwice<T>(s: seq<T>)
    ensures Backwards(Backwards(s)) == s
  {
  }

  lemma {:induction false} AllTie<T>(s: seq<T>, x: T, comp: (T, T) -> bool)
    requires forall i :: 0 <= i < |s| ==> Tie(s[i], x, comp)
    ensures Ties(s, x, comp) == s
  {
    if s != [] {
      AllTie(s[1..], x, comp);
    }
  }

  /** A comparer that tells nothing apart turns the whole row round. */
  lemma NothingToldApart<T(!new)>(s: seq<T>, k: nat, comp: (T, T) -> bool)
    requires Over(s, k, comp) && forall x, y :: !comp(x, y)
    ensures AfterPasses(s, k, comp) == Backwards(s)
  {
    if s != [] {
      var x := s[0];
      GreatestTurned(s, k, x, comp);
      AllTie(s, x, comp);
      AllTie(AfterPasses(s, k, comp), x, comp);
    }
  }

  // ----- ties of an element that greater ones come behind -----

  /** How many elements come behind `x`. */
  function Above<T>(s: seq<T>, x: T, comp: (T, T) -> bool): (r: nat)
    ensures r <= |s|
    ensures r == 0 <==> forall i :: 0 <= i < |s| ==> !comp(x, s[i])
    ensures r == |s| <==> forall i :: 0 <= i < |s| ==> comp(x, s[i])
  {
    if s == [] then 0 else (if comp(x, s[0]) then 1 else 0) + Above(s[1..], x, comp)
  }

  lemma {:induction false} AboveConcat<T>(s: seq<T>, t: seq<T>, x: T, comp: (T, T) -> bool)
    ensures Above(s + t, x, comp) == Above(s, x, comp) + Above(t, x, comp)
  {
    if s == [] {
      assert s + t == t;
    } else {
      assert (s + t)[0] == s[0] && (s + t)[1..] == s[1..] + t;
      AboveConcat(s[1..], t, x, comp);
    }
  }

  /** The row around the neighbours at `i`, in either order. */
  lemma Neighbours<T>(s: seq<T>, i: nat, comp: (T, T) -> bool)
    requires i + 1 < |s|
    ensures s == s[..i] + (([s[i]] + [s[i + 1]]) + s[i + 2..])
    ensures !comp(s[i], s[i + 1]) ==> Step(s, i, comp) == s[..i] + (([s[i + 1]] + [s[i]]) + s[i + 2..])
  {
  }

  lemma AboveStep<T>(s: seq<T>, i: nat, x: T, comp: (T, T) -> bool)
    requires i + 1 < |s|
    ensures Above(Step(s, i, comp), x, comp) == Above(s, x, comp)
  {
    var a, b, back := [s[i]], [s[i + 1]], s[i + 2..];
    Neighbours(s, i, comp);
    AboveConcat(s[..i], (a + b) + back, x, comp);
    AboveConcat(s[..i], (b + a) + back, x, comp);
    AboveConcat(a + b, back, x, comp);
    AboveConcat(b + a, back, x, comp);
    AboveConcat(a, b, x, comp);
    AboveConcat(b, a, x, comp);
  }

  lemma {:induction false} AboveCarried<T>(s: seq<T>, i: nat, x: T, comp: (T, T) -> bool)
    requires i < |s|
    ensures Above(Carried(s, i, comp), x, comp) == Above(s, x, comp)
  {
    if i > 0 {
      AboveCarried(s, i - 1, x, comp);
      AboveStep(Carried(s, i - 1, comp), i - 1, x, comp);
    }
  }

  lemma AboveLast<T>(t: seq<T>, n: nat, x: T, comp: (T, T) -> bool)
    requires |t| == n + 1
    ensures Above(t, x, comp) == Above(t[..n], x, comp) + (if comp(x, t[n]) then 1 else 0)
  {
    AboveConcat(t[..n], [t[n]], x, comp);
    assert t == t[..n] + [t[n]];
  }

  lemma GreatestAbove<T(!new)>(t: seq<T>, n: nat, x: T, comp: (T, T) -> bool)
    requires StrictWeakOrder(comp) && |t| == n + 1 && Greatest(t, n, comp) && Above(t, x, comp) > 0
    ensures comp(x, t[n]) && Above(t[..n], x, comp) == Above(t, x, comp) - 1
  {
    var i :| 0 <= i < |t| && comp(x, t[i]);
    assert Transitive(comp, x, t[n], t[i]);
    AboveLast(t, n, x, comp);
  }

  /** A pass over a row with elements that come behind `x` carries one of those to the end. */
  lemma CarriesAbove<T(!new)>(s: seq<T>, n: nat, x: T, comp: (T, T) -> bool)
    requires StrictWeakOrder(comp) && |s| == n + 1 && Above(s, x, comp) > 0
    ensures comp(x, Carried(s, n, comp)[n])
    ensures Above(Carried(s, n, comp)[..n], x, comp) == Above(s, x, comp) - 1
  {
    AboveCarried(s, n, x, comp);
    HeldIsGreatest(s, n + 1, comp);
    GreatestAbove(Carried(s, n, comp), n, x, comp);
  }

  lemma AboveOne<T>(s: seq<T>, x: T, comp: (T, T) -> bool)
    requires |s| == 1
    ensures Above(s, x, comp) == if comp(x, s[0]) then 1 else 0
  {
  }

  /** Pass `k`, the one after the first `m`. */
  lemma AboveNext<T(!new)>(s: seq<T>, m: nat, k: nat, n: nat, x: T, comp: (T, T) -> bool)
    requires StrictWeakOrder(comp) && k == m + 1 && |s| == k + n && Above(Front(s, m, comp), x, comp) > 0
    ensures Above(Front(s, k, comp), x, comp) == Above(Front(s, m, comp), x, comp) - 1
    ensures Above(Behind(s, k, comp), x, comp) == Above(Behind(s, m, comp), x, comp) + 1
  {
    var placed := [Carried(Front(s, m, comp), n, comp)[n]];
    CarriesAbove(Front(s, m, comp), n, x, comp);
    OneMoreBehind(s, m, k, n, comp);
    AboveConcat(placed, Behind(s, m, comp), x, comp);
    AboveOne(placed, x, comp);
  }

  /** The first passes put the elements behind that come behind `x`, one each. */
  lemma {:induction false} AboveLeaves<T(!new)>(s: seq<T>, k: nat, x: T, comp: (T, T) -> bool)
    requires StrictWeakOrder(comp) && k <= Above(s, x, comp)
    ensures Above(Front(s, k, comp), x, comp) == Above(s, x, comp) - k
    ensures Above(Behind(s, k, comp), x, comp) == k
  {
    if k == 0 {
      assert Behind(s, 0, comp) == [] && Front(s, 0, comp) == s;
    } else {
      var m: nat := k - 1;
      AboveLeaves(s, m, x, comp);
      AboveNext(s, m, k, |s| - k, x, comp);
    }
  }

  lemma AboveNoTies<T>(s: seq<T>, x: T, comp: (T, T) -> bool)
    requires Above(s, x, comp) == |s|
    ensures Ties(s, x, comp) == []
  {
    NoTies(s, x, comp);
  }

  lemma CarriedInFront<T>(front: seq<T>, back: seq<T>, i: nat, comp: (T, T) -> bool)
    requires i < |front|
    ensures Carried(front + back, i, comp) == Carried(front, i, comp) + back
  {
    var all := Carried(front + back, i, comp);
    CarriedCut(front + back, |front|, i, comp);
    assert (front + back)[..|front|] == front && (front + back)[|front|..] == back;
    assert all == all[..|front|] + all[|front|..];
  }

  /** The passes after the first `p` are passes over what is then in front. */
  lemma {:induction false} PassesSplit<T>(s: seq<T>, p: nat, k: nat, comp: (T, T) -> bool)
    requires p <= k <= |s|
    ensures AfterPasses(s, k, comp) == AfterPasses(Front(s, p, comp), k - p, comp) + Behind(s, p, comp)
    decreases k
  {
    if p == k {
      assert AfterPasses(s, k, comp) == Front(s, k, comp) + Behind(s, k, comp);
    } else {
      PassesSplit(s, p, k - 1, comp);
      CarriedInFront(AfterPasses(Front(s, p, comp), k - 1 - p, comp), Behind(s, p, comp), |s| - k, comp);
    }
  }

  lemma OverSplit<T>(s: seq<T>, p: nat, k: nat, comp: (T, T) -> bool)
    requires Over(s, k, comp) && p < k
    ensures Over(Front(s, p, comp), k - p, comp)
  {
    var whole, front := AfterPasses(s, k, comp), AfterPasses(Front(s, p, comp), k - p, comp);
    PassesSplit(s, p, k, comp);
    assert forall i :: 0 <= i < |front| ==> front[i] == whole[i];
    if k < |s| {
      assert InOrder(front, |s| - k, comp);
    }
  }

  /** When the last pass found its neighbours in order, no two elements in front tie. */
  lemma LastPass<T(!new)>(s: seq<T>, k: nat, x: T, comp: (T, T) -> bool)
    requires StrictWeakOrder(comp) && Over(s, k, comp)
    ensures |Ties(Front(s, k, comp), x, comp)| <= 1
  {
    OneTie(Front(s, k, comp), x, comp);
  }

  lemma BackwardsSame<T>(s: seq<T>)
    requires |s| <= 1
    ensures Backwards(s) == s
  {
  }

  /** The ties of `x` in `t`, where `k` passes have ended, are those that the first passes leave, backwards. */
  ghost predicate TiesEnd<T>(s: seq<T>, t: seq<T>, k: nat, x: T, comp: (T, T) -> bool) {
    var p := Above(s, x, comp);
    if p <= k then Ties(t, x, comp) == Backwards(Ties(AfterPasses(s, p, comp), x, comp)) else |Ties(t, x, comp)| <= 1
  }

  /**
   * Where the ties of any element end up. The first passes place the elements that come behind it, one each;
   * what order they leave is then turned round. When fewer passes were made there are no two ties.
   */
  lemma TiesTurned<T(!new)>(s: seq<T>, k: nat, x: T, comp: (T, T) -> bool)
    requires StrictWeakOrder(comp) && Over(s, k, comp)
    ensures TiesEnd(s, AfterPasses(s, k, comp), k, x, comp)
  {
    var p := Above(s, x, comp);
    if p <= k {
      TurnedAfter(s, p, k, x, comp);
    } else {
      AboveLeaves(s, k, x, comp);
      LastPass(s, k, x, comp);
      TiesInFront(s, k, x, comp);
    }
  }

  /** So they end up in reverse exactly when those first passes leave them in their order. */
  lemma ReversedExactly<T(!new)>(s: seq<T>, k: nat, x: T, comp: (T, T) -> bool)
    requires StrictWeakOrder(comp) && Over(s, k, comp) && Above(s, x, comp) <= k
    ensures Ties(AfterPasses(s, k, comp), x, comp) == Backwards(Ties(s, x, comp))
       <==> Ties(AfterPasses(s, Above(s, x, comp), comp), x, comp) == Ties(s, x, comp)
  {
    TiesTurned(s, k, x, comp);
    BackwardsTwice(Ties(s, x, comp));
    BackwardsTwice(Ties(AfterPasses(s, Above(s, x, comp), comp), x, comp));
  }

  /** As long as only elements that come behind `x` were put behind, its ties are in front. */
  lemma TiesInFront<T(!new)>(s: seq<T>, k: nat, x: T, comp: (T, T) -> bool)
    requires StrictWeakOrder(comp) && k <= Above(s, x, comp)
    ensures Ties(AfterPasses(s, k, comp), x, comp) == Ties(Front(s, k, comp), x, comp)
  {
    var front, back := Front(s, k, comp), Behind(s, k, comp);
    AboveLeaves(s, k, x, comp);
    AboveNoTies(back, x, comp);
    TiesConcat(front, back, x, comp);
    assert AfterPasses(s, k, comp) == front + back;
  }

  lemma TurnedInFront<T(!new)>(s: seq<T>, p: nat, k: nat, x: T, comp: (T, T) -> bool)
    requires StrictWeakOrder(comp) && Over(s, k, comp) && p < k && Top(Front(s, p, comp), x, comp)
    requires Ties(Behind(s, p, comp), x, comp) == []
    ensures Ties(AfterPasses(s, k, comp), x, comp) == Backwards(Ties(Front(s, p, comp), x, comp))
  {
    OverSplit(s, p, k, comp);
    GreatestTurned(Front(s, p, comp), k - p, x, comp);
    PassesSplit(s, p, k, comp);
    TiesConcat(AfterPasses(Front(s, p, comp), k - p, comp), Behind(s, p, comp), x, comp);
  }

  lemma TurnedAfter<T(!new)>(s: seq<T>, p: nat, k: nat, x: T, comp: (T, T) -> bool)
    requires StrictWeakOrder(comp) && Over(s, k, comp) && p == Above(s, x, comp) && p <= k
    ensures Ties(AfterPasses(s, k, comp), x, comp) == Backwards(Ties(AfterPasses(s, p, comp), x, comp))
  {
    TiesInFront(s, p, x, comp);
    AboveLeaves(s, p, x, comp);
    if p == k {
      LastPass(s, k, x, comp);
      BackwardsSame(Ties(Front(s, k, comp), x, comp));
    } else {
      AboveNoTies(Behind(s, p, comp), x, comp);
      TurnedInFront(s, p, k, x, comp);
    }
  }

  // ----- what those first passes do to the ties -----

  function Turn<T>(s: seq<T>): seq<T> {
    if s == [] then [] else s[1..] + [s[0]]
  }

  lemma TiesMiddle<T>(front: seq<T>, a: seq<T>, b: seq<T>, back: seq<T>, x: T, comp: (T, T) -> bool)
    ensures Ties(front + ((a + b) + back), x, comp)
         == Ties(front, x, comp) + ((Ties(a, x, comp) + Ties(b, x, comp)) + Ties(back, x, comp))
  {
    TiesConcat(front, (a + b) + back, x, comp);
    TiesConcat(a + b, back, x, comp);
    TiesConcat(a, b, x, comp);
  }

  lemma TiesStep<T>(s: seq<T>, i: nat, x: T, comp: (T, T) -> bool)
    requires i + 1 < |s| && comp(x, s[i])
    ensures Ties(Step(s, i, comp), x, comp) == Ties(s, x, comp)
  {
    var a, b, back := [s[i]], [s[i + 1]], s[i + 2..];
    var front := s[..i];
    Neighbours(s, i, comp);
    NoTies(a, x, comp);
    TiesMiddle(front, a, b, back, x, comp);
    TiesMiddle(front, b, a, back, x, comp);
    assert [] + Ties(b, x, comp) == Ties(b, x, comp) + [];
  }

  /** An element that comes behind `x` changes hands only for another one. */
  lemma StaysAbove<T(!new)>(s: seq<T>, i: nat, x: T, comp: (T, T) -> bool)
    requires StrictWeakOrder(comp) && i + 1 < |s| && comp(x, s[i])
    ensures comp(x, Step(s, i, comp)[i + 1])
  {
    assert Transitive(comp, x, s[i], s[i + 1]);
  }

  /** Once a pass holds an element that comes behind `x`, it leaves the ties of `x` in their order. */
  lemma {:induction false} TiesCarriedOn<T(!new)>(s: seq<T>, g: nat, i: nat, x: T, comp: (T, T) -> bool)
    requires StrictWeakOrder(comp) && g <= i < |s| && comp(x, Carried(s, g, comp)[g])
    ensures Ties(Carried(s, i, comp), x, comp) == Ties(Carried(s, g, comp), x, comp)
    ensures comp(x, Carried(s, i, comp)[i])
    decreases i
  {
    if g < i {
      var before: nat := i - 1;
      TiesCarriedOn(s, g, before, x, comp);
      TiesStep(Carried(s, before, comp), before, x, comp);
      StaysAbove(Carried(s, before, comp), before, x, comp);
    }
  }

  /** The comparisons in front of the first element that comes behind `x`; with it nothing is exchanged. */
  lemma CarriedUpTo<T(!new)>(s: seq<T>, g: nat, m: nat, x: T, comp: (T, T) -> bool)
    requires StrictWeakOrder(comp) && g == m + 1 < |s| && Top(s[..g], x, comp) && comp(x, s[g])
    ensures Carried(s, g, comp) == Carried(s[..g], m, comp) + s[g..]
  {
    var u := Carried(s[..g], m, comp);
    CarriedCut(s, g, m, comp);
    assert Carried(s, m, comp) == u + s[g..];
    CarriedIs(s[..g], m, comp);
    TopCarried(s[..g], u, m, x, comp);
    assert Transitive(comp, x, u[m], s[g]);
  }

  /** When a pass carries an element to the end that is before `x`, there are no ties of `x`. */
  lemma LowRow<T(!new)>(s: seq<T>, m: nat, x: T, comp: (T, T) -> bool)
    requires StrictWeakOrder(comp) && |s| == m + 1 && comp(Carried(s, m, comp)[m], x)
    ensures forall i :: 0 <= i < m ==> !Tie(Carried(s, m, comp)[i], x, comp)
  {
    var u := Carried(s, m, comp);
    HeldIsGreatest(s, m + 1, comp);
    forall i | 0 <= i < m
      ensures !Tie(u[i], x, comp)
    {
      assert Transitive(comp, u[m], u[i], x);
    }
  }

  lemma TiesTurn<T(!new)>(s: seq<T>, m: nat, x: T, comp: (T, T) -> bool)
    requires StrictWeakOrder(comp) && |s| == m + 1 && Top(s, x, comp)
    ensures Ties(Carried(s, m, comp), x, comp) == Turn(Ties(s, x, comp))
  {
    var u := Carried(s, m, comp);
    CarriedIs(s, m, comp);
    TopCarried(s, u, m, x, comp);
    PassTurns(s, u, x, comp);
    TiesConcat(u[..m], [u[m]], x, comp);
    assert u == u[..m] + [u[m]];
    if !Tie(u[m], x, comp) {
      LowRow(s, m, x, comp);
      NoTies(u[..m], x, comp);
    }
  }

  lemma TiesUpTo<T(!new)>(s: seq<T>, g: nat, x: T, comp: (T, T) -> bool)
    requires StrictWeakOrder(comp) && g < |s| && Top(s[..g], x, comp) && comp(x, s[g])
    ensures comp(x, Carried(s, g, comp)[g])
    ensures Ties(Carried(s, g, comp), x, comp) == Turn(Ties(s[..g], x, comp)) + Ties(s[g..], x, comp)
  {
    if g == 0 {
      assert s[..0] == [] && s[0..] == s;
    } else {
      var m: nat := g - 1;
      CarriedUpTo(s, g, m, x, comp);
      TiesTurn(s[..g], m, x, comp);
      TiesConcat(Carried(s[..g], m, comp), s[g..], x, comp);
    }
  }

  /**
   * A pass that meets an element behind `x` takes the first of the ties that stand before it behind the others
   * of those, and leaves the rest of the ties as they are.
   */
  lemma LowerTies<T(!new)>(s: seq<T>, g: nat, n: nat, x: T, comp: (T, T) -> bool)
    requires StrictWeakOrder(comp) && g <= n && |s| == n + 1 && Top(s[..g], x, comp) && comp(x, s[g])
    ensures Ties(Carried(s, n, comp), x, comp) == Turn(Ties(s[..g], x, comp)) + Ties(s[g..], x, comp)
  {
    TiesUpTo(s, g, x, comp);
    TiesCarriedOn(s, g, n, x, comp);
  }

  /**
   * Ties below a greater element can be turned more than once: of (5, 0), (5, 1), (7, 2), compared by their
   * first component, the first pass turns the fives, and the second turns them back.
   */
  lemma LowerTiesMayStay(comp: ((int, int), (int, int)) -> bool)
    requires forall x, y :: comp(x, y) <==> x.0 < y.0
    ensures var s := [(5, 0), (5, 1), (7, 2)];
            StrictWeakOrder(comp) && Over(s, 3, comp) && AfterPasses(s, 3, comp) == s
  {
    var s := [(5, 0), (5, 1), (7, 2)];
    assert Carried(s, 1, comp) == [(5, 1), (5, 0), (7, 2)];
    assert AfterPasses(s, 1, comp) == Carried(s, 2, comp) == [(5, 1), (5, 0), (7, 2)];
    assert AfterPasses(s, 2, comp) == Carried(AfterPasses(s, 1, comp), 1, comp) == s;
    assert AfterPasses(s, 3, comp) == Carried(AfterPasses(s, 2, comp), 0, comp);
  }

  /** The body of the inner loop: neighbours change places unless the first comes before the second. */
  method CompareAndSwap<T(!new)>(a: array<T>, i: nat, comp: (T, T) -> bool) returns (swapped: bool)
    requires i + 1 < a.Length
    modifies a
    ensures a[..] == Step(old(a[..]), i, comp)
    ensures swapped <==> !comp(old(a[i]), old(a[i + 1]))
  {
    swapped := !comp(a[i], a[i + 1]);
    if swapped {
      var temp := a[i];
      a[i] := a[i + 1];
      a[i + 1] := temp;
    }
  }

  /** Whether the first `i` comparisons of a pass made an exchange. */
  predicate Exchanged<T>(s: seq<T>, i: nat, comp: (T, T) -> bool)
    requires i < |s|
  {
    i > 0 && (Exchanged(s, i - 1, comp) || !comp(Carried(s, i - 1, comp)[i - 1], Carried(s, i - 1, comp)[i]))
  }

  lemma {:induction false} NothingExchanged<T>(s: seq<T>, i: nat, comp: (T, T) -> bool)
    requires i < |s| && !Exchanged(s, i, comp)
    ensures Carried(s, i, comp) == s && InOrder(s, i, comp)
  {
    if i > 0 {
      NothingExchanged(s, i - 1, comp);
    }
  }

  lemma CarriedRearranges<T>(s: seq<T>, i: nat, n: nat, comp: (T, T) -> bool)
    requires i < n <= |s|
    ensures Rearranged(s, Carried(s, i, comp), n)
  {
    var j := 0;
    while j < i
      invariant j <= i && Rearranged(s, Carried(s, j, comp), n)
    {
      RearrangedOn(s, Carried(s, j, comp), j, n, comp);
      j := j + 1;
    }
  }

  lemma RearrangedOn<T>(s: seq<T>, t: seq<T>, i: nat, n: nat, comp: (T, T) -> bool)
    requires Rearranged(s, t, n) && i + 1 < n
    ensures Rearranged(s, Step(t, i, comp), n)
  {
    StepRearranges(t, i, n, comp);
    RearrangedTrans(s, t, Step(t, i, comp), n);
  }

  /** One pass over the first `n` elements. */
  method Pass<T(!new)>(a: array<T>, n: nat, comp: (T, T) -> bool) returns (swapped: bool)
    requires 1 <= n <= a.Length
    modifies a
    ensures a[..] == Carried(old(a[..]), n - 1, comp)
    ensures swapped <==> Exchanged(old(a[..]), n - 1, comp)
  {
    ghost var start := a[..];
    swapped := false;
    var i := 0;
    while i < n - 1
      invariant 0 <= i <= n - 1
      invariant a[..] == Carried(start, i, comp)
      invariant swapped <==> Exchanged(start, i, comp)
    {
      var exchanged := CompareAndSwap(a, i, comp);
      swapped := swapped || exchanged;
      i := i + 1;
    }
  }

  lemma HeldIsGreatest<T(!new)>(s: seq<T>, n: nat, comp: (T, T) -> bool)
    requires StrictWeakOrder(comp) && 0 < n <= |s|
    ensures Greatest(Carried(s, n - 1, comp), n - 1, comp)
  {
    var t := Carried(s, n - 1, comp);
    HeldIsFirst(s, n, comp);
    CarriedIs(s, n - 1, comp);
    assert t[n - 1] == CarriedTo(s, n - 1, n - 1, comp);
    forall i | 0 <= i <= n - 1
      ensures !comp(t[n - 1], t[i])
    {
      assert t[i] == CarriedTo(s, n - 1, i, comp);
    }
  }

  lemma PassesKeep<T>(s: seq<T>, t: seq<T>)
    requires Rearranged(s, t, |s|)
    ensures multiset(s) == multiset(t)
  {
    assert s[..|s|] == s && t[..|s|] == t;
  }

  /** The elements of a row, each as often as it occurs. */
  ghost function Elements<T>(s: seq<T>): multiset<T> {
    if s == [] then multiset{} else Elements(s[1..]) + multiset{s[0]}
  }

  lemma {:induction false} ElementsAre<T>(s: seq<T>)
    ensures Elements(s) == multiset(s)
  {
    if s != [] {
      ElementsAre(s[1..]);
      assert s == [s[0]] + s[1..];
    }
  }

  lemma CarriedKeeps<T>(t: seq<T>, i: nat, comp: (T, T) -> bool)
    requires i < |t|
    ensures Elements(Carried(t, i, comp)) == Elements(t)
  {
    CarriedRearranges(t, i, |t|, comp);
    PassesKeep(t, Carried(t, i, comp));
    ElementsAre(t);
    ElementsAre(Carried(t, i, comp));
  }

  lemma PassKeeps<T>(s: seq<T>, m: nat, k: nat, comp: (T, T) -> bool)
    requires k == m + 1 <= |s|
    ensures Elements(AfterPasses(s, k, comp)) == Elements(AfterPasses(s, m, comp))
  {
    CarriedKeeps(AfterPasses(s, m, comp), |s| - k, comp);
  }

  /** The passes keep the elements. */
  lemma {:induction false} PassesRearrange<T>(s: seq<T>, k: nat, comp: (T, T) -> bool)
    requires k <= |s|
    ensures Elements(AfterPasses(s, k, comp)) == Elements(s)
  {
    if k > 0 {
      var m: nat := k - 1;
      PassesRearrange(s, m, comp);
      PassKeeps(s, m, k, comp);
    }
  }

  lemma PlaceNext<T(!new)>(t: seq<T>, n: nat, comp: (T, T) -> bool)
    requires StrictWeakOrder(comp) && n < |t| && InPlace(t, n + 1, comp)
    ensures InPlace(Carried(t, n, comp), n, comp)
  {
    HeldIsGreatest(t, n + 1, comp);
    CarriedRearranges(t, n, n + 1, comp);
    PassPlaces(t, Carried(t, n, comp), n, comp);
  }

  /** Each pass puts one more element in its place. */
  lemma {:induction false} PassesPlace<T(!new)>(s: seq<T>, k: nat, comp: (T, T) -> bool)
    requires StrictWeakOrder(comp) && k <= |s|
    ensures InPlace(AfterPasses(s, k, comp), |s| - k, comp)
  {
    if k > 0 {
      PassesPlace(s, k - 1, comp);
      PlaceNext(AfterPasses(s, k - 1, comp), |s| - k, comp);
    }
  }

  lemma OverIsSorted<T(!new)>(s: seq<T>, k: nat, comp: (T, T) -> bool)
    requires StrictWeakOrder(comp) && Over(s, k, comp)
    ensures Sorted(AfterPasses(s, k, comp), comp)
  {
    PassesPlace(s, k, comp);
    NeighboursSorted(AfterPasses(s, k, comp), |s| - k, comp);
  }

  /**
   * Sorts the first `count` elements. For every comparer it ends after at most `count` passes, with `n`
   * at least 1 whenever a pass begins, and leaves what those passes make of the elements. A strict weak order
   * makes the result sorted, and the ties of each element end as `TiesTurned` says; and a comparer that tells
   * nothing apart, which makes every comparison a swap, costs exactly `count` passes and turns the row round.
   */
  method BubbleSort<T(!new)>(a: array<T>, count: nat, comp: (T, T) -> bool) returns (ghost passes: nat)
    requires count <= a.Length
    modifies a
    ensures a[count..] == old(a[count..]) && multiset(a[..count]) == multiset(old(a[..count]))
    ensures Over(old(a[..count]), passes, comp) && a[..count] == AfterPasses(old(a[..count]), passes, comp)
    ensures StrictWeakOrder(comp) ==> Sorted(a[..count], comp)
    ensures StrictWeakOrder(comp) ==>
              forall x :: TiesEnd(old(a[..count]), a[..count], passes, x, comp)
    ensures (forall x, y :: !comp(x, y)) ==> passes == count && a[..count] == Backwards(old(a[..count]))
  {
    ghost var start := a[..count];
    passes := Passes(a, count, comp);
    Told(start, passes, comp);
  }

  lemma Told<T(!new)>(s: seq<T>, k: nat, comp: (T, T) -> bool)
    requires Over(s, k, comp)
    ensures multiset(AfterPasses(s, k, comp)) == multiset(s)
    ensures StrictWeakOrder(comp) ==> Sorted(AfterPasses(s, k, comp), comp)
    ensures StrictWeakOrder(comp) ==> forall x :: TiesEnd(s, AfterPasses(s, k, comp), k, x, comp)
    ensures (forall x, y :: !comp(x, y)) ==> AfterPasses(s, k, comp) == Backwards(s)
  {
    PassesRearrange(s, k, comp);
    ElementsAre(s);
    ElementsAre(AfterPasses(s, k, comp));
    if StrictWeakOrder(comp) {
      OverIsSorted(s, k, comp);
      forall x
        ensures TiesEnd(s, AfterPasses(s, k, comp), k, x, comp)
      {
        TiesTurned(s, k, x, comp);
      }
    }
    if forall x, y :: !comp(x, y) {
      NothingToldApart(s, k, comp);
    }
  }

  /** The outer loop. */
  method Passes<T(!new)>(a: array<T>, count: nat, comp: (T, T) -> bool) returns (ghost passes: nat)
    requires count <= a.Length
    modifies a
    ensures a[count..] == old(a[count..])
    ensures Over(old(a[..count]), passes, comp) && a[..count] == AfterPasses(old(a[..count]), passes, comp)
    ensures (forall x, y :: !comp(x, y)) ==> passes == count
  {
    var n := count;
    passes := 0;
    if count == 0 {
      return;
    }
    ghost var start := a[..count];
    var swapped := true;
    while swapped
      invariant 0 <= n && passes + n == count && (swapped ==> n >= 1)
      invariant a[count..] == old(a[count..]) && a[..count] == AfterPasses(start, passes, comp)
      invariant !swapped ==> Over(start, passes, comp)
      invariant !swapped ==> n == 0 || exists x, y :: comp(x, y)
      decreases n
    {
      ghost var s := a[..];
      swapped := Pass(a, n, comp);
      PassOn(s, start, passes, n, comp);
      n := n - 1;
      passes := passes + 1;
    }
  }

  /** What one turn of the outer loop means for the first |start| elements. */
  lemma PassOn<T(!new)>(s: seq<T>, start: seq<T>, k: nat, n: nat, comp: (T, T) -> bool)
    requires k < |start| <= |s| && n == |start| - k && s[..|start|] == AfterPasses(start, k, comp)
    ensures Carried(s, n - 1, comp)[..|start|] == AfterPasses(start, k + 1, comp)
    ensures Carried(s, n - 1, comp)[|start|..] == s[|start|..]
    ensures n == 1 ==> !Exchanged(s, n - 1, comp)
    ensures !Exchanged(s, n - 1, comp) ==> Over(start, k + 1, comp)
    ensures !Exchanged(s, n - 1, comp) && n > 1 ==> exists x, y :: comp(x, y)
  {
    CarriedCut(s, |start|, n - 1, comp);
    OneMorePass(start, k, n, comp);
    if !Exchanged(s, n - 1, comp) {
      NothingExchanged(s, n - 1, comp);
      if n > 1 {
        assert comp(s[0], s[1]);
      }
      assert InOrder(s[..|start|], n - 1, comp);
    }
  }

  /** After a pass one more element is in place. */
  lemma PassPlaces<T(!new)>(s: seq<T>, t: seq<T>, n: nat, comp: (T, T) -> bool)
    requires StrictWeakOrder(comp) && n < |s| && Rearranged(s, t, n + 1) && InPlace(s, n + 1, comp)
    requires Greatest(t, n, comp)
    ensures InPlace(t, n, comp)
  {
    RearrangedInPlace(s, t, n + 1, comp);
  }
}
