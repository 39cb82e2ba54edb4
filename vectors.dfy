/**
 * 24-slot ON/OFF schedule vectors: the shared vocabulary of the scheduling
 * engine.  A schedule is a sequence of Python ints indexed by hour of day;
 * 1 means the appliance is ON that hour.
 */
module Vectors {

  /** Number of hourly slots in a schedule. */
  const HoursPerDay: int := 24

  datatype Option<T> = None | Some(value: T)

  /** Python's `sum(arr)`, folded from the last element so that prefixes are easy to reason about. */
  function Sum(s: seq<int>): int
  {
    if s == [] then 0 else Sum(s[..|s| - 1]) + s[|s| - 1]
  }

  /** Every value is 0 or 1. */
  predicate IsBinary(s: seq<int>)
  {
    forall i :: 0 <= i < |s| ==> s[i] == 0 || s[i] == 1
  }

  /** A list of hour indices that can be used to index a 24-slot vector. */
  predicate ValidHours(hs: seq<int>)
  {
    InBounds(hs, HoursPerDay)
  }

  /** Every element of `hs` indexes a vector of length `n`. */
  predicate InBounds(hs: seq<int>, n: int)
  {
    forall k :: 0 <= k < |hs| ==> 0 <= hs[k] < n
  }

  predicate StrictlyAscending(hs: seq<int>)
  {
    forall i, j :: 0 <= i < j < |hs| ==> hs[i] < hs[j]
  }

  /** Pairwise distinct elements. */
  predicate Distinct(hs: seq<int>)
  {
    forall i, j :: 0 <= i < j < |hs| ==> hs[i] != hs[j]
  }

  /** `list(range(24))`. */
  function AllHours(): (r: seq<int>)
    ensures |r| == HoursPerDay
    ensures forall h :: 0 <= h < HoursPerDay ==> r[h] == h
    ensures ValidHours(r)
  {
    seq(HoursPerDay, h => h)
  }

  lemma InAllHours(h: int)
    requires 0 <= h < HoursPerDay
    ensures h in AllHours()
  {
    assert AllHours()[h] == h;
  }

  /**
   * `[h for h in hs if (h in xs) == inside]`: the elements of `hs` that are
   * (or, with `inside` false, are not) listed in `xs`, in their order.
   */
  function Select(hs: seq<int>, xs: seq<int>, inside: bool): (r: seq<int>)
    ensures forall h {:trigger h in r} :: h in r <==> h in hs && (h in xs <==> inside)
    ensures |r| <= |hs|
  {
    if hs == [] then []
    else
      var rest := Select(hs[1..], xs, inside);
      assert forall h :: h in hs <==> h == hs[0] || h in hs[1..];
      if (hs[0] in xs) == inside then [hs[0]] + rest else rest
  }

  /** Selecting from an ascending list gives an ascending list. */
  lemma {:induction false} SelectAscending(hs: seq<int>, xs: seq<int>, inside: bool)
    requires StrictlyAscending(hs)
    ensures StrictlyAscending(Select(hs, xs, inside))
  {
    if hs != [] {
      var tail := hs[1..];
      SelectAscending(tail, xs, inside);
      var rest := Select(tail, xs, inside);
      forall k | 0 <= k < |rest| ensures hs[0] < rest[k] {
        assert rest[k] in rest;
        var j :| 0 <= j < |tail| && tail[j] == rest[k];
        assert hs[j + 1] == rest[k];
      }
      if (hs[0] in xs) == inside {
        var r := [hs[0]] + rest;
        forall i, j | 0 <= i < j < |r| ensures r[i] < r[j] {
          if i > 0 {
            assert r[i] == rest[i - 1] && r[j] == rest[j - 1];
          }
        }
      }
    }
  }

  /** Selecting from a list of distinct elements gives distinct elements. */
  lemma {:induction false} SelectDistinct(hs: seq<int>, xs: seq<int>, inside: bool)
    requires Distinct(hs)
    ensures Distinct(Select(hs, xs, inside))
  {
    if hs != [] {
      var tail := hs[1..];
      SelectDistinct(tail, xs, inside);
      var rest := Select(tail, xs, inside);
      assert hs[0] !in tail by {
        forall j | 0 <= j < |tail| ensures tail[j] != hs[0] {
          assert tail[j] == hs[j + 1];
        }
      }
      if (hs[0] in xs) == inside {
        var r := [hs[0]] + rest;
        forall i, j | 0 <= i < j < |r| ensures r[i] != r[j] {
          if i > 0 {
            assert r[i] == rest[i - 1] && r[j] == rest[j - 1];
          } else {
            assert r[j] in rest;
          }
        }
      }
    }
  }

  /** Selecting from valid hours gives valid hours. */
  lemma SelectValid(hs: seq<int>, xs: seq<int>, inside: bool)
    requires ValidHours(hs)
    ensures ValidHours(Select(hs, xs, inside))
  {
    SelectInBounds(hs, xs, inside, HoursPerDay);
  }

  /** Selecting from indices of a vector gives indices of that vector. */
  lemma SelectInBounds(hs: seq<int>, xs: seq<int>, inside: bool, n: int)
    requires InBounds(hs, n)
    ensures InBounds(Select(hs, xs, inside), n)
  {
    var r := Select(hs, xs, inside);
    assert forall k :: 0 <= k < |r| ==> r[k] in r;
  }

  lemma AllHoursAscending()
    ensures StrictlyAscending(AllHours())
  {
  }

  /**
   * `[h for h in range(24) if (h in xs) == inside]`: the hours of the day
   * listed (or not listed) in `xs`, ascending.
   */
  function DayHours(xs: seq<int>, inside: bool): (r: seq<int>)
    ensures forall h {:trigger h in r} :: h in r <==> 0 <= h < HoursPerDay && (h in xs <==> inside)
    ensures ValidHours(r)
  {
    var r := Select(AllHours(), xs, inside);
    forall h | 0 <= h < HoursPerDay ensures h in AllHours() {
      InAllHours(h);
    }
    assert forall h :: h in AllHours() ==> 0 <= h < HoursPerDay;
    SelectValid(AllHours(), xs, inside);
    r
  }

  /** The hours `DayHours` picks come in ascending order. */
  lemma DayHoursAscending(xs: seq<int>, inside: bool)
    ensures StrictlyAscending(DayHours(xs, inside))
  {
    AllHoursAscending();
    SelectAscending(AllHours(), xs, inside);
  }

  function Zeros(n: nat): (r: seq<int>)
    ensures |r| == n
    ensures forall i :: 0 <= i < n ==> r[i] == 0
  {
    seq(n, _ => 0)
  }

  /**
   * `fix_length` of the agents that mask: every value becomes `int(x) & 1`,
   * a shortfall is padded with zeros and an overflow is dropped.
   * Python's `x & 1` on a (possibly negative) int is the low bit of its
   * two's-complement form, which is exactly the Euclidean `x % 2`.
   */
  function FixLength(xs: seq<int>): (r: seq<int>)
    ensures |r| == HoursPerDay
    ensures IsBinary(r)
    ensures forall i :: 0 <= i < |xs| && i < HoursPerDay ==> r[i] == xs[i] % 2
    ensures forall i :: |xs| <= i < HoursPerDay ==> r[i] == 0
  {
    var masked := seq(|xs|, i requires 0 <= i < |xs| => xs[i] % 2);
    if |masked| < HoursPerDay then masked + Zeros(HoursPerDay - |masked|)
    else masked[..HoursPerDay]
  }

  /** A binary 24-slot vector is left alone by `fix_length`. */
  lemma FixLengthKeepsSchedules(s: seq<int>)
    requires |s| == HoursPerDay && IsBinary(s)
    ensures FixLength(s) == s
  {
    var r := FixLength(s);
    forall i | 0 <= i < HoursPerDay
      ensures r[i] == s[i]
    {
      assert s[i] == 0 || s[i] == 1;
    }
  }

  /** `fix_length` is idempotent. */
  lemma FixLengthIdempotent(xs: seq<int>)
    ensures FixLength(FixLength(xs)) == FixLength(xs)
  {
    FixLengthKeepsSchedules(FixLength(xs));
  }

  // ---------------------------------------------------------------------
  // Facts about Sum

  lemma {:induction false} SumUpdate(s: seq<int>, i: int, v: int)
    requires 0 <= i < |s|
    ensures Sum(s[i := v]) == Sum(s) - s[i] + v
  {
    var t := s[i := v];
    if i == |s| - 1 {
      assert t[..|t| - 1] == s[..|s| - 1];
    } else {
      assert t[..|t| - 1] == s[..|s| - 1][i := v];
      SumUpdate(s[..|s| - 1], i, v);
    }
  }

  lemma {:induction false} SumAppend(a: seq<int>, b: seq<int>)
    ensures Sum(a + b) == Sum(a) + Sum(b)
  {
    if b != [] {
      assert (a + b)[..|a + b| - 1] == a + b[..|b| - 1];
      SumAppend(a, b[..|b| - 1]);
    } else {
      assert a + b == a;
    }
  }

  lemma {:induction false} SumBinaryBounds(s: seq<int>)
    requires IsBinary(s)
    ensures 0 <= Sum(s) <= |s|
  {
    if s != [] {
      SumBinaryBounds(s[..|s| - 1]);
    }
  }

  lemma {:induction false} SumOfZeros(s: seq<int>)
    requires forall i :: 0 <= i < |s| ==> s[i] == 0
    ensures Sum(s) == 0
  {
    if s != [] {
      SumOfZeros(s[..|s| - 1]);
    }
  }

  /** Number of hours in [0, n) that are not listed in `p`. */
  function CountOutside(p: seq<int>, n: nat): (c: nat)
    ensures c <= n
  {
    if n == 0 then 0
    else CountOutside(p, n - 1) + (if n - 1 in p then 0 else 1)
  }

  /** The whole day lies outside the empty list. */
  lemma {:induction false} CountOutsideNothing(n: nat)
    ensures CountOutside([], n) == n
  {
    if n > 0 {
      CountOutsideNothing(n - 1);
    }
  }

  /**
   * A binary vector that is ON everywhere outside `p` has at least as many ONs
   * as there are hours outside `p`.
   */
  lemma {:induction false} SumCoversOutside(s: seq<int>, p: seq<int>)
    requires IsBinary(s)
    requires forall i :: 0 <= i < |s| && i !in p ==> s[i] == 1
    ensures Sum(s) >= CountOutside(p, |s|)
  {
    if s != [] {
      var init := s[..|s| - 1];
      SumCoversOutside(init, p);
      SumBinaryBounds(init);
    }
  }

  /** A binary vector with no ON slot sums to zero. */
  lemma SumNoOnes(s: seq<int>)
    requires IsBinary(s)
    requires forall i :: 0 <= i < |s| ==> s[i] != 1
    ensures Sum(s) == 0
  {
    SumOfZeros(s);
  }

  /** A binary vector that is ON everywhere sums to its length. */
  lemma SumAllOnes(s: seq<int>)
    requires IsBinary(s)
    requires forall i :: 0 <= i < |s| ==> s[i] != 0
    ensures Sum(s) == |s|
  {
    SumCoversOutside(s, []);
    CountOutsideNothing(|s|);
    SumBinaryBounds(s);
  }

  /** The vector that is 1 exactly on the hours listed. */
  function Indicator(hs: seq<int>): (r: seq<int>)
    ensures |r| == HoursPerDay
    ensures IsBinary(r)
    ensures forall h :: 0 <= h < HoursPerDay ==> (r[h] == 1 <==> h in hs)
  {
    seq(HoursPerDay, h => if h in hs then 1 else 0)
  }

  /** Switching on a list of distinct hours switches on exactly that many slots. */
  lemma {:induction false} IndicatorSum(hs: seq<int>)
    requires ValidHours(hs) && Distinct(hs)
    ensures Sum(Indicator(hs)) == |hs|
  {
    if hs == [] {
      SumOfZeros(Indicator(hs));
    } else {
      var init := hs[..|hs| - 1];
      var h := hs[|hs| - 1];
      LastNotInInit(hs);
      IndicatorSum(init);
      IndicatorSnoc(init, h);
      assert init + [h] == hs;
      SumUpdate(Indicator(init), h, 1);
    }
  }

  /** Dropping the last hour of a list of distinct valid hours keeps it so, and loses that hour. */
  lemma LastNotInInit(hs: seq<int>)
    requires ValidHours(hs) && Distinct(hs) && hs != []
    ensures ValidHours(hs[..|hs| - 1]) && Distinct(hs[..|hs| - 1])
    ensures hs[|hs| - 1] !in hs[..|hs| - 1] && 0 <= hs[|hs| - 1] < HoursPerDay
  {
    var init := hs[..|hs| - 1];
    assert hs[|hs| - 1] in hs;
    assert forall k :: 0 <= k < |init| ==> init[k] == hs[k] != hs[|hs| - 1];
    forall x | x in init ensures 0 <= x < HoursPerDay {
      assert x in hs;
    }
  }

  /** Adding one more hour to the list switches on exactly that slot. */
  lemma IndicatorSnoc(init: seq<int>, h: int)
    requires 0 <= h < HoursPerDay
    ensures Indicator(init + [h]) == Indicator(init)[h := 1]
  {
    forall x | 0 <= x < HoursPerDay
      ensures Indicator(init + [h])[x] == Indicator(init)[h := 1][x]
    {
      assert x in init + [h] <==> x in init || x == h;
    }
  }

  // ---------------------------------------------------------------------
  // Mutable copies

  /** `arr[:]`: a fresh array holding the values of `s`, for the passes that update a schedule in place. */
  method CopyToArray(s: seq<int>) returns (a: array<int>)
    ensures fresh(a) && a[..] == s
  {
    a := new int[|s|](i requires 0 <= i < |s| => s[i]);
  }
}
