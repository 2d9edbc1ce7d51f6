/** The exact one-sided permutation test on the difference of two means. */
module PermutationTest {
  import opened Options

  function Total(s: seq<real>): real {
    if s == [] then 0.0 else Total(s[..|s| - 1]) + s[|s| - 1]
  }

  function Mean(s: seq<real>): real
    requires s != []
  {
    Total(s) / |s| as real
  }

  function Min(s: seq<real>): (m: real)
    requires s != []
    ensures m in s && forall i | 0 <= i < |s| :: m <= s[i]
  {
    if |s| == 1 then s[0]
    else
      var rest := Min(s[..|s| - 1]);
      if rest <= s[|s| - 1] then rest else s[|s| - 1]
  }

  function Max(s: seq<real>): (m: real)
    requires s != []
    ensures m in s && forall i | 0 <= i < |s| :: s[i] <= m
  {
    if |s| == 1 then s[0]
    else
      var rest := Max(s[..|s| - 1]);
      if rest >= s[|s| - 1] then rest else s[|s| - 1]
  }

  // ----- The ways to choose k of n positions

  function Prefixed(x: nat, choices: seq<seq<nat>>): (r: seq<seq<nat>>)
    ensures |r| == |choices| && forall i | 0 <= i < |r| :: r[i] == [x] + choices[i]
  {
    seq(|choices|, i requires 0 <= i < |choices| => [x] + choices[i])
  }

  /** All increasing choices of k positions from lo to n - 1, in lexicographic order. */
  function Combinations(lo: nat, n: nat, k: nat): seq<seq<nat>>
    decreases n - lo
  {
    if k == 0 then [[]]
    else if lo >= n then []
    else Prefixed(lo, Combinations(lo + 1, n, k - 1)) + Combinations(lo + 1, n, k)
  }

  function Binomial(n: nat, k: nat): nat {
    if k == 0 then 1 else if n == 0 then 0 else Binomial(n - 1, k - 1) + Binomial(n - 1, k)
  }

  ghost predicate Choice(c: seq<nat>, lo: nat, n: nat, k: nat) {
    && |c| == k
    && (forall i | 0 <= i < k :: lo <= c[i] < n)
    && forall i, j | 0 <= i < j < k :: c[i] < c[j]
  }

  lemma {:induction false} CombinationsCount(lo: nat, n: nat, k: nat)
    requires lo <= n
    ensures |Combinations(lo, n, k)| == Binomial(n - lo, k)
    decreases n - lo
  {
    if k > 0 && lo < n {
      CombinationsCount(lo + 1, n, k - 1);
      CombinationsCount(lo + 1, n, k);
    }
  }

  /** Where a choice sits in the list: with lo first, then without it. */
  lemma CombinationAt(lo: nat, n: nat, k: nat, x: nat)
    requires k > 0 && lo < n
    ensures |Combinations(lo, n, k)| == |Combinations(lo + 1, n, k - 1)| + |Combinations(lo + 1, n, k)|
    ensures x < |Combinations(lo + 1, n, k - 1)| ==>
              Combinations(lo, n, k)[x] == [lo] + Combinations(lo + 1, n, k - 1)[x]
    ensures |Combinations(lo + 1, n, k - 1)| <= x < |Combinations(lo, n, k)| ==>
              Combinations(lo, n, k)[x] == Combinations(lo + 1, n, k)[x - |Combinations(lo + 1, n, k - 1)|]
  {
  }

  lemma CombinationsEnd(lo: nat, n: nat, k: nat)
    ensures k == 0 ==> Combinations(lo, n, k) == [[]]
    ensures k > 0 && lo >= n ==> Combinations(lo, n, k) == []
  {
  }

  lemma {:induction false} CombinationsAreChoices(lo: nat, n: nat, k: nat, x: nat)
    requires x < |Combinations(lo, n, k)|
    ensures Choice(Combinations(lo, n, k)[x], lo, n, k)
    decreases n - lo
  {
    hide Combinations;
    CombinationsEnd(lo, n, k);
    if k > 0 && lo < n {
      CombinationAt(lo, n, k, x);
      var with := |Combinations(lo + 1, n, k - 1)|;
      if x < with {
        CombinationsAreChoices(lo + 1, n, k - 1, x);
      } else {
        CombinationsAreChoices(lo + 1, n, k, x - with);
      }
    }
  }

  lemma {:induction false} ChoicesAreCombinations(lo: nat, n: nat, k: nat, c: seq<nat>) returns (x: nat)
    requires Choice(c, lo, n, k)
    ensures x < |Combinations(lo, n, k)| && Combinations(lo, n, k)[x] == c
    decreases n - lo
  {
    hide Combinations;
    CombinationsEnd(lo, n, k);
    x := 0;
    if k > 0 {
      assert lo <= c[0] < n;
      if c[0] == lo {
        assert c == [lo] + c[1..];
        x := ChoicesAreCombinations(lo + 1, n, k - 1, c[1..]);
        CombinationAt(lo, n, k, x);
      } else {
        var y := ChoicesAreCombinations(lo + 1, n, k, c);
        x := |Combinations(lo + 1, n, k - 1)| + y;
        CombinationAt(lo, n, k, x);
      }
    }
  }

  /** No choice is listed twice. */
  lemma {:induction false} CombinationsDistinct(lo: nat, n: nat, k: nat, x: nat, y: nat)
    requires x < y < |Combinations(lo, n, k)|
    ensures Combinations(lo, n, k)[x] != Combinations(lo, n, k)[y]
    decreases n - lo
  {
    hide Combinations;
    CombinationsEnd(lo, n, k);
    CombinationAt(lo, n, k, x);
    CombinationAt(lo, n, k, y);
    var with := |Combinations(lo + 1, n, k - 1)|;
    if y < with {
      CombinationsDistinct(lo + 1, n, k - 1, x, y);
      var cx, cy := Combinations(lo + 1, n, k - 1)[x], Combinations(lo + 1, n, k - 1)[y];
      assert ([lo] + cx)[1..] == cx && ([lo] + cy)[1..] == cy;
    } else if x < with {
      CombinationsAreChoices(lo + 1, n, k, y - with);
      assert Combinations(lo, n, k)[x][0] == lo < Combinations(lo, n, k)[y][0];
    } else {
      CombinationsDistinct(lo + 1, n, k, x - with, y - with);
    }
  }

  // ----- One split of the pool

  predicate InPool(pool: seq<real>, c: seq<nat>) {
    forall i | 0 <= i < |c| :: c[i] < |pool|
  }

  function Pick(pool: seq<real>, c: seq<nat>): (r: seq<real>)
    requires InPool(pool, c)
    ensures |r| == |c| && forall i | 0 <= i < |c| :: r[i] == pool[c[i]]
  {
    seq(|c|, i requires 0 <= i < |c| => pool[c[i]])
  }

  /** The first n pool values whose position is not chosen. */
  function Others(pool: seq<real>, c: seq<nat>, n: nat): seq<real>
    requires n <= |pool|
  {
    if n == 0 then []
    else if n - 1 in c then Others(pool, c, n - 1)
    else Others(pool, c, n - 1) + [pool[n - 1]]
  }

  lemma TotalAppend(s: seq<real>, x: real)
    ensures Total(s + [x]) == Total(s) + x
  {
    assert (s + [x])[..|s|] == s;
  }

  /** An increasing choice climbs at least one position at a time. */
  lemma {:induction false} ChoiceClimbs(c: seq<nat>, lo: nat, n: nat, i: nat)
    requires Choice(c, lo, n, |c|) && i < |c|
    ensures lo + i <= c[i] <= n - |c| + i
  {
    Climbs(c, lo, n, i);
    Climbs(c, lo, n, |c| - 1);
    Falls(c, lo, n, i);
  }

  lemma {:induction false} Climbs(c: seq<nat>, lo: nat, n: nat, i: nat)
    requires Choice(c, lo, n, |c|) && i < |c|
    ensures lo + i <= c[i]
  {
    if i > 0 {
      Climbs(c, lo, n, i - 1);
    }
  }

  lemma {:induction false} Falls(c: seq<nat>, lo: nat, n: nat, i: nat)
    requires Choice(c, lo, n, |c|) && i < |c|
    ensures c[i] <= n - |c| + i
    decreases |c| - i
  {
    if i + 1 < |c| {
      Falls(c, lo, n, i + 1);
    }
  }

  lemma ChoiceFits(c: seq<nat>, n: nat)
    requires Choice(c, 0, n, |c|)
    ensures |c| <= n
  {
    if c != [] {
      Climbs(c, 0, n, |c| - 1);
    }
  }

  /** A choice and the rest share the pool's total. */
  lemma {:induction false} SplitTotals(pool: seq<real>, c: seq<nat>, n: nat)
    requires n <= |pool| && Choice(c, 0, n, |c|) && InPool(pool, c)
    ensures Total(Pick(pool, c)) + Total(Others(pool, c, n)) == Total(pool[..n])
    ensures |c| + |Others(pool, c, n)| == n
  {
    hide Total, Choice;
    ChoiceFits(c, n);
    if n == 0 {
      assert Pick(pool, c) == [] == pool[..n];
      TotalNone();
    } else {
      assert pool[..n] == pool[..n - 1] + [pool[n - 1]];
      TotalAppend(pool[..n - 1], pool[n - 1]);
      if n - 1 in c {
        var init := c[..|c| - 1];
        LastChosen(c, n);
        SplitTotals(pool, init, n - 1);
        OthersLocal(pool, c, init, n - 1);
        PickLast(pool, c, n);
        TotalAppend(Pick(pool, init), pool[n - 1]);
      } else {
        NotLast(c, n);
        SplitTotals(pool, c, n - 1);
        TotalAppend(Others(pool, c, n - 1), pool[n - 1]);
      }
    }
  }

  lemma TotalNone()
    ensures Total([]) == 0.0
  {
  }

  lemma PickLast(pool: seq<real>, c: seq<nat>, n: nat)
    requires 0 < n <= |pool| && c != [] && c[|c| - 1] == n - 1
    requires InPool(pool, c)
    ensures Pick(pool, c) == Pick(pool, c[..|c| - 1]) + [pool[n - 1]]
  {
  }

  lemma LastChosen(c: seq<nat>, n: nat)
    requires n > 0 && Choice(c, 0, n, |c|) && n - 1 in c
    ensures c != [] && c[|c| - 1] == n - 1 && Choice(c[..|c| - 1], 0, n - 1, |c| - 1)
    ensures forall k: nat | k < n - 1 :: k in c <==> k in c[..|c| - 1]
  {
    var i :| 0 <= i < |c| && c[i] == n - 1;
    Falls(c, 0, n, i);
    assert c == c[..|c| - 1] + [n - 1];
  }

  lemma NotLast(c: seq<nat>, n: nat)
    requires n > 0 && Choice(c, 0, n, |c|) && n - 1 !in c
    ensures Choice(c, 0, n - 1, |c|)
  {
    assert forall i | 0 <= i < |c| :: c[i] in c;
  }

  lemma {:induction false} OthersLocal(pool: seq<real>, c: seq<nat>, d: seq<nat>, n: nat)
    requires n <= |pool| && forall k: nat | k < n :: k in c <==> k in d
    ensures Others(pool, c, n) == Others(pool, d, n)
  {
    if n > 0 {
      OthersLocal(pool, c, d, n - 1);
    }
  }

  lemma {:induction false} TotalConcat(s: seq<real>, t: seq<real>)
    ensures Total(s + t) == Total(s) + Total(t)
  {
    if t == [] {
      assert s + t == s;
    } else {
      var init, last := t[..|t| - 1], t[|t| - 1];
      TotalConcat(s, init);
      assert s + t == (s + init) + [last];
      TotalAppend(s + init, last);
    }
  }

  // ----- The statistic

  /** Whether the split c of the pool shows a difference at least as large as the one observed. */
  predicate Reaches(a: seq<real>, b: seq<real>, c: seq<nat>)
    requires a != [] && b != [] && Choice(c, 0, |a| + |b|, |a|)
  {
    SplitKnown(a, b, c);
    Mean(Pick(a + b, c)) - Mean(Others(a + b, c, |a| + |b|)) >= Mean(a) - Mean(b)
  }

  lemma SplitKnown(a: seq<real>, b: seq<real>, c: seq<nat>)
    requires Choice(c, 0, |a| + |b|, |a|)
    ensures InPool(a + b, c) && |Pick(a + b, c)| == |a| && |Others(a + b, c, |a| + |b|)| == |b|
    ensures Total(Pick(a + b, c)) + Total(Others(a + b, c, |a| + |b|)) == Total(a) + Total(b)
  {
    SplitTotals(a + b, c, |a| + |b|);
    assert (a + b)[..|a| + |b|] == a + b;
    TotalConcat(a, b);
  }

  lemma DividingKeepsOrder(x: real, y: real, n: real)
    requires n > 0.0
    ensures x >= y <==> x / n >= y / n
  {
  }

  lemma DifferenceOrder(s: real, o: real, t: real, u: real, n: real, m: real)
    requires n > 0.0 && m > 0.0 && s + o == t + u
    ensures s / n - o / m >= t / n - u / m <==> s >= t
  {
    DividingKeepsOrder(s, t, n);
    DividingKeepsOrder(t, s, n);
    DividingKeepsOrder(o, u, m);
    DividingKeepsOrder(u, o, m);
  }

  /** A split reaches the observed difference exactly when its first group has the larger total. */
  lemma ReachesByTotal(a: seq<real>, b: seq<real>, c: seq<nat>)
    requires a != [] && b != [] && Choice(c, 0, |a| + |b|, |a|)
    ensures InPool(a + b, c) && (Reaches(a, b, c) <==> Total(Pick(a + b, c)) >= Total(a))
  {
    hide Total, Choice, Others, Pick, InPool;
    SplitKnown(a, b, c);
    var ga, gb := Pick(a + b, c), Others(a + b, c, |a| + |b|);
    var x, y, u, v := Total(ga), Total(gb), Total(a), Total(b);
    var n, m := |a| as real, |b| as real;
    assert Mean(ga) == x / n && Mean(gb) == y / m && Mean(a) == u / n && Mean(b) == v / m;
    assert Reaches(a, b, c) <==> x / n - y / m >= u / n - v / m;
    DifferenceOrder(x, y, u, v, n, m);
  }

  // ----- Separation makes every other split fall short

  function Identity(n: nat): (c: seq<nat>)
    ensures |c| == n && forall i | 0 <= i < n :: c[i] == i
  {
    seq(n, i => i)
  }

  lemma IdentityPicks(a: seq<real>, b: seq<real>)
    ensures Choice(Identity(|a|), 0, |a| + |b|, |a|)
    ensures InPool(a + b, Identity(|a|)) && Pick(a + b, Identity(|a|)) == a
  {
  }

  /** Any other split takes something from the second group. */
  lemma OtherSplitReachesOver(c: seq<nat>, n: nat, m: nat)
    requires n > 0 && Choice(c, 0, n + m, n)
    ensures c == Identity(n) || c[n - 1] >= n
  {
    if c[n - 1] < n {
      forall i | 0 <= i < n ensures c[i] < n {
        assert i == n - 1 || c[i] < c[n - 1];
      }
      forall i | 0 <= i < n ensures c[i] == i {
        ChoiceClimbs(c, 0, n, i);
      }
    }
  }

  /** The chosen values among the first i, each less a threshold. */
  ghost function Excess(pool: seq<real>, c: seq<nat>, t: real, i: nat): real
    requires i <= |pool|
  {
    if i == 0 then 0.0 else Excess(pool, c, t, i - 1) + if i - 1 in c then pool[i - 1] - t else 0.0
  }

  ghost function Repeated(n: nat, t: real): real {
    if n == 0 then 0.0 else Repeated(n - 1, t) + t
  }

  lemma {:induction false} ExcessLocal(pool: seq<real>, c: seq<nat>, d: seq<nat>, t: real, i: nat)
    requires i <= |pool| && forall k: nat | k < i :: k in c <==> k in d
    ensures Excess(pool, c, t, i) == Excess(pool, d, t, i)
  {
    if i > 0 {
      ExcessLocal(pool, c, d, t, i - 1);
    }
  }

  lemma {:induction false} TotalByExcess(pool: seq<real>, c: seq<nat>, t: real, n: nat)
    requires n <= |pool| && Choice(c, 0, n, |c|) && InPool(pool, c)
    ensures Total(Pick(pool, c)) == Excess(pool, c, t, n) + Repeated(|c|, t)
  {
    hide Total, Choice;
    ChoiceFits(c, n);
    if n == 0 {
      assert Pick(pool, c) == [];
      TotalNone();
    } else if n - 1 in c {
      var init := c[..|c| - 1];
      LastChosen(c, n);
      TotalByExcess(pool, init, t, n - 1);
      ExcessLocal(pool, c, init, t, n - 1);
      PickLast(pool, c, n);
      TotalAppend(Pick(pool, init), pool[n - 1]);
    } else {
      NotLast(c, n);
      TotalByExcess(pool, c, t, n - 1);
    }
  }

  /** Against the smallest value of a separated first group, no split exceeds the observed one. */
  lemma {:induction false} ExcessBelow(a: seq<real>, b: seq<real>, c: seq<nat>, t: real, i: nat)
    requires i <= |a| + |b|
    requires (forall k | 0 <= k < |a| :: a[k] >= t) && forall k | 0 <= k < |b| :: b[k] < t
    ensures Excess(a + b, c, t, i) <= Excess(a + b, Identity(|a|), t, i)
    ensures (exists k: nat :: |a| <= k < i && k in c) ==>
              Excess(a + b, c, t, i) < Excess(a + b, Identity(|a|), t, i)
  {
    if i > 0 {
      ExcessBelow(a, b, c, t, i - 1);
      IdentityHas(|a|, i - 1);
    }
  }

  lemma IdentityHas(n: nat, k: nat)
    ensures k in Identity(n) <==> k < n
  {
    assert k < n ==> Identity(n)[k] == k;
  }

  lemma SeparatedFallShort(a: seq<real>, b: seq<real>, c: seq<nat>)
    requires a != [] && b != [] && Choice(c, 0, |a| + |b|, |a|)
    requires Min(a) > Max(b) && c != Identity(|a|)
    ensures !Reaches(a, b, c)
  {
    hide Total, Excess, Repeated, Reaches, Choice;
    var t, n := Min(a), |a| + |b|;
    ReachesByTotal(a, b, c);
    IdentityPicks(a, b);
    ChoiceLength(c, 0, n, |a|);
    ChoiceLength(Identity(|a|), 0, n, |a|);
    TotalByExcess(a + b, c, t, n);
    TotalByExcess(a + b, Identity(|a|), t, n);
    ExcessBelow(a, b, c, t, n);
    OtherSplitReachesOver(c, |a|, |b|);
    ChoiceClimbs(c, 0, n, |a| - 1);
    assert c[|a| - 1] in c;
  }

  lemma ChoiceLength(c: seq<nat>, lo: nat, n: nat, k: nat)
    requires Choice(c, lo, n, k)
    ensures |c| == k
  {
  }

  // ----- Without separation a swap reaches too

  function Swapped(n: nat, i: nat, x: nat): (c: seq<nat>)
    requires i < n
    ensures |c| == n
  {
    seq(n, k requires 0 <= k < n => if k < i then k else if k < n - 1 then k + 1 else x)
  }

  lemma SwapIsChoice(i: nat, j: nat, n: nat, m: nat)
    requires i < n && j < m
    ensures Choice(Swapped(n, i, n + j), 0, n + m, n) && Swapped(n, i, n + j) != Identity(n)
  {
    assert Swapped(n, i, n + j)[n - 1] == n + j != Identity(n)[n - 1];
  }

  lemma SwapTotal(a: seq<real>, b: seq<real>, i: nat, j: nat)
    requires i < |a| && j < |b|
    ensures Total(a[..i] + a[i + 1..] + [b[j]]) == Total(a) - a[i] + b[j]
  {
    hide Total;
    TotalAppend(a[..i] + a[i + 1..], b[j]);
    TotalConcat(a[..i], a[i + 1..]);
    TotalConcat(a[..i] + [a[i]], a[i + 1..]);
    TotalAppend(a[..i], a[i]);
    assert a == (a[..i] + [a[i]]) + a[i + 1..];
  }

  lemma SwapReaches(a: seq<real>, b: seq<real>, i: nat, j: nat)
    requires i < |a| && j < |b| && a[i] <= b[j]
    ensures Choice(Swapped(|a|, i, |a| + j), 0, |a| + |b|, |a|)
    ensures Swapped(|a|, i, |a| + j) != Identity(|a|)
    ensures Reaches(a, b, Swapped(|a|, i, |a| + j))
  {
    hide *;
    SwapIsChoice(i, j, |a|, |b|);
    ReachesByTotal(a, b, Swapped(|a|, i, |a| + j));
    SwapPicks(a, b, i, j);
    SwapTotal(a, b, i, j);
  }

  lemma SwapPicks(a: seq<real>, b: seq<real>, i: nat, j: nat)
    requires i < |a| && j < |b|
    ensures InPool(a + b, Swapped(|a|, i, |a| + j))
    ensures Pick(a + b, Swapped(|a|, i, |a| + j)) == a[..i] + a[i + 1..] + [b[j]]
  {
  }

  // ----- Counting

  /** How many of the listed splits reach the observed difference. */
  ghost function Hits(a: seq<real>, b: seq<real>, cs: seq<seq<nat>>): nat
    requires a != [] && b != [] && Splits(a, b, cs)
  {
    if cs == [] then 0
    else Hits(a, b, cs[..|cs| - 1]) + if Reaches(a, b, cs[|cs| - 1]) then 1 else 0
  }

  ghost predicate Splits(a: seq<real>, b: seq<real>, cs: seq<seq<nat>>) {
    forall x | 0 <= x < |cs| :: Choice(cs[x], 0, |a| + |b|, |a|)
  }

  lemma {:induction false} HitsBounds(a: seq<real>, b: seq<real>, cs: seq<seq<nat>>, x: nat)
    requires a != [] && b != [] && Splits(a, b, cs) && x < |cs| && Reaches(a, b, cs[x])
    ensures 1 <= Hits(a, b, cs) <= |cs|
    ensures (forall y | 0 <= y < |cs| :: y != x ==> !Reaches(a, b, cs[y])) <==> Hits(a, b, cs) == 1
  {
    hide Reaches, Choice;
    var init := cs[..|cs| - 1];
    if x < |init| {
      HitsBounds(a, b, init, x);
    } else {
      NoHits(a, b, init);
    }
  }

  lemma {:induction false} NoHits(a: seq<real>, b: seq<real>, cs: seq<seq<nat>>)
    requires a != [] && b != [] && Splits(a, b, cs)
    ensures Hits(a, b, cs) <= |cs|
    ensures (forall y | 0 <= y < |cs| :: !Reaches(a, b, cs[y])) <==> Hits(a, b, cs) == 0
  {
    hide Reaches, Choice;
    if cs != [] {
      NoHits(a, b, cs[..|cs| - 1]);
    }
  }

  function AllSplits(a: seq<real>, b: seq<real>): seq<seq<nat>> {
    Combinations(0, |a| + |b|, |a|)
  }

  lemma AllSplitsAreSplits(a: seq<real>, b: seq<real>)
    ensures Splits(a, b, AllSplits(a, b)) && |AllSplits(a, b)| == Binomial(|a| + |b|, |a|)
  {
    hide Combinations;
    CombinationsCount(0, |a| + |b|, |a|);
    forall x | 0 <= x < |AllSplits(a, b)| ensures Choice(AllSplits(a, b)[x], 0, |a| + |b|, |a|) {
      CombinationsAreChoices(0, |a| + |b|, |a|, x);
    }
  }

  /** The observed split always counts; it is the only one exactly when every value of the first
      group exceeds every value of the second. */
  lemma OneHitIffSeparated(a: seq<real>, b: seq<real>)
    requires a != [] && b != []
    ensures Splits(a, b, AllSplits(a, b)) && 1 <= Hits(a, b, AllSplits(a, b)) <= |AllSplits(a, b)|
    ensures Hits(a, b, AllSplits(a, b)) == 1 <==> Min(a) > Max(b)
  {
    hide Combinations, Hits, Reaches, Choice;
    var cs, n := AllSplits(a, b), |a| + |b|;
    AllSplitsAreSplits(a, b);
    IdentityPicks(a, b);
    var x := ChoicesAreCombinations(0, n, |a|, Identity(|a|));
    ReachesByTotal(a, b, Identity(|a|));
    HitsBounds(a, b, cs, x);
    if Min(a) > Max(b) {
      forall y | 0 <= y < |cs| && y != x ensures !Reaches(a, b, cs[y]) {
        if x < y { CombinationsDistinct(0, n, |a|, x, y); } else { CombinationsDistinct(0, n, |a|, y, x); }
        SeparatedFallShort(a, b, cs[y]);
      }
    } else {
      var i: nat :| i < |a| && a[i] == Min(a);
      var j: nat :| j < |b| && b[j] == Max(b);
      SwapReaches(a, b, i, j);
      var y := ChoicesAreCombinations(0, n, |a|, Swapped(|a|, i, |a| + j));
      assert y != x && Reaches(a, b, cs[y]);
    }
  }

  // ----- The loop

  lemma HitsNone(a: seq<real>, b: seq<real>, cs: seq<seq<nat>>)
    requires a != [] && b != [] && cs == []
    ensures Splits(a, b, cs) && Hits(a, b, cs) == 0
  {
  }

  lemma HitsStep(a: seq<real>, b: seq<real>, cs: seq<seq<nat>>, x: nat)
    requires a != [] && b != [] && Splits(a, b, cs) && x < |cs|
    ensures Splits(a, b, cs[..x]) && Splits(a, b, cs[..x + 1]) && Choice(cs[x], 0, |a| + |b|, |a|)
    ensures InPool(a + b, cs[x])
    ensures |Pick(a + b, cs[x])| == |a| && |Others(a + b, cs[x], |a| + |b|)| == |b|
    ensures Hits(a, b, cs[..x + 1]) == Hits(a, b, cs[..x]) +
              if Mean(Pick(a + b, cs[x])) - Mean(Others(a + b, cs[x], |a| + |b|)) >= Mean(a) - Mean(b) then 1 else 0
  {
    hide Choice, Mean, Pick, Others;
    assert cs[..x + 1][..x] == cs[..x];
    SplitKnown(a, b, cs[x]);
  }

  /** The source's p, or nothing for an empty sample, whose mean is undefined. */
  method PermutationP(a: seq<real>, b: seq<real>) returns (p: Option<real>)
    ensures p.None? <==> a == [] || b == []
    ensures p.Some? ==> Splits(a, b, AllSplits(a, b)) && |AllSplits(a, b)| == Binomial(|a| + |b|, |a|) > 0
    ensures p.Some? ==> p.value == Hits(a, b, AllSplits(a, b)) as real / |AllSplits(a, b)| as real
    ensures p.Some? ==> 1.0 / Binomial(|a| + |b|, |a|) as real <= p.value <= 1.0
    ensures p.Some? ==> (p.value == 1.0 / Binomial(|a| + |b|, |a|) as real <==> Min(a) > Max(b))
  {
    hide *;
    if a == [] || b == [] {
      return None;
    }
    var hits, total := 0, 0;
    var combos := AllSplits(a, b);
    AllSplitsAreSplits(a, b);
    HitsNone(a, b, combos[..0]);
    for x := 0 to |combos|
      invariant total == x && Splits(a, b, combos[..x]) && hits == Hits(a, b, combos[..x])
    {
      var combo := combos[x];
      HitsStep(a, b, combos, x);
      var ga, gb := Pick(a + b, combo), Others(a + b, combo, |a| + |b|);
      total := total + 1;
      if Mean(ga) - Mean(gb) >= Mean(a) - Mean(b) {
        hits := hits + 1;
      }
    }
    assert combos[..|combos|] == combos;
    OneHitIffSeparated(a, b);
    p := Some(hits as real / total as real);
    ShareIsLeast(hits, total);
  }

  lemma ShareIsLeast(hits: nat, total: nat)
    requires 1 <= hits <= total
    ensures 1.0 / total as real <= hits as real / total as real <= 1.0
    ensures hits as real / total as real == 1.0 / total as real <==> hits == 1
  {
    DividingKeepsOrder(hits as real, 1.0, total as real);
    DividingKeepsOrder(1.0, hits as real, total as real);
    DividingKeepsOrder(total as real, hits as real, total as real);
  }

  /** The source's test for complete separation, in either direction. */
  predicate Separated(a: seq<real>, b: seq<real>)
    requires a != [] && b != []
  {
    Min(a) > Max(b) || Min(b) > Max(a)
  }

  /** Two groups are separated exactly when the test in one direction has its smallest value. */
  lemma SeparatedIffSmallest(a: seq<real>, b: seq<real>)
    requires a != [] && b != []
    ensures Splits(a, b, AllSplits(a, b)) && Splits(b, a, AllSplits(b, a))
    ensures Separated(a, b) <==> Hits(a, b, AllSplits(a, b)) == 1 || Hits(b, a, AllSplits(b, a)) == 1
  {
    hide Hits, Combinations;
    OneHitIffSeparated(a, b);
    OneHitIffSeparated(b, a);
  }

  /** With three arms each there are twenty splits, so no p below 0.05 can be shown, and 0.05
      itself means complete separation. */
  lemma ThreeArms(a: seq<real>, b: seq<real>)
    requires |a| == 3 && |b| == 3
    ensures Splits(a, b, AllSplits(a, b)) && |AllSplits(a, b)| == 20
    ensures Hits(a, b, AllSplits(a, b)) as real / 20.0 >= 0.05
    ensures Hits(a, b, AllSplits(a, b)) as real / 20.0 == 0.05 <==> Min(a) > Max(b)
  {
    hide Hits, Combinations;
    AllSplitsAreSplits(a, b);
    OneHitIffSeparated(a, b);
    SmallBinomials();
  }

  lemma SmallBinomials()
    ensures Binomial(6, 3) == 20
  {
    assert Binomial(2, 1) == 2 && Binomial(2, 2) == 1;
    assert Binomial(3, 1) == 3 && Binomial(3, 2) == 3 && Binomial(3, 3) == 1;
    assert Binomial(4, 1) == 4 && Binomial(4, 2) == 6 && Binomial(4, 3) == 4;
    assert Binomial(5, 2) == 10 && Binomial(5, 3) == 10;
  }
}
