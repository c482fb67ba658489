/** Small helpers shared by the day modules: an option type, sums, counts,
    maxima, reversal, sequence facts and the least common multiple. */
module Common {

  datatype Option<+T> = None | Some(value: T)

  /** Sum of a sequence of integers, left to right. */
  function Sum(s: seq<int>): int
  {
    if |s| == 0 then 0 else s[0] + Sum(s[1..])
  }

  lemma SumAppend(a: seq<int>, b: seq<int>)
    ensures Sum(a + b) == Sum(a) + Sum(b)
  {
    if |a| == 0 {
      assert a + b == b;
    } else {
      assert (a + b)[1..] == a[1..] + b;
      SumAppend(a[1..], b);
    }
  }

  lemma SumNonNegative(s: seq<int>)
    requires forall i :: 0 <= i < |s| ==> s[i] >= 0
    ensures Sum(s) >= 0
  {
    if |s| > 0 {
      SumNonNegative(s[1..]);
    }
  }

  /** Number of occurrences of `x` in `s`. */
  function Count<T(==)>(s: seq<T>, x: T): nat
  {
    if |s| == 0 then 0 else (if s[0] == x then 1 else 0) + Count(s[1..], x)
  }

  lemma CountAppend<T>(a: seq<T>, b: seq<T>, x: T)
    ensures Count(a + b, x) == Count(a, x) + Count(b, x)
  {
    if |a| == 0 {
      assert a + b == b;
    } else {
      assert (a + b)[1..] == a[1..] + b;
      CountAppend(a[1..], b, x);
    }
  }

  /** A sequence is its prefix followed by the rest. */
  lemma SliceJoin<T>(s: seq<T>, n: nat)
    requires n <= |s|
    ensures s[..n] + s[n..] == s
  {
  }

  /** Concatenation after a first element regroups. */
  lemma ConsAppend<T>(x: T, a: seq<T>, b: seq<T>)
    ensures ([x] + a) + b == [x] + (a + b)
  {
  }

  /** A non-empty sequence is its head followed by its tail. */
  lemma HeadTail<T>(s: seq<T>)
    requires |s| > 0
    ensures [s[0]] + s[1..] == s
  {
  }

  /** A prefix extended by the next element is the longer prefix. */
  lemma SnocSlice<T>(s: seq<T>, i: nat)
    requires i < |s|
    ensures s[..i] + [s[i]] == s[..i + 1]
  {
  }

  /** s[::-1]: the sequence read back to front. */
  function Reverse<T>(s: seq<T>): (r: seq<T>)
    ensures |r| == |s| && forall k :: 0 <= k < |s| ==> r[k] == s[|s| - 1 - k]
  {
    seq(|s|, k requires 0 <= k < |s| => s[|s| - 1 - k])
  }

  /** An index into the left part of a concatenation reads the left part. */
  lemma IndexLeft<T>(m: seq<T>, a: seq<T>, b: seq<T>, i: nat)
    requires m == a + b && i < |a|
    ensures m[i] == a[i]
  {
  }

  /** An index past the first part of a three-part concatenation reads the
      concatenation of the other two. */
  lemma IndexRight<T>(m: seq<T>, a: seq<T>, b: seq<T>, c: seq<T>, j: nat)
    requires m == a + b + c && j < |b + c|
    ensures |a| + j < |m| && m[|a| + j] == (b + c)[j]
  {
  }

  /** A non-empty prefix is the head followed by a prefix of the tail. */
  lemma PrefixCons<T>(s: seq<T>, i: nat)
    requires 0 < i <= |s|
    ensures s[..i] == [s[0]] + s[1..][..i - 1]
  {
    var r := [s[0]] + s[1..][..i - 1];
    assert |r| == i;
    forall k | 0 <= k < i ensures s[..i][k] == r[k] {
      if k > 0 {
        assert r[k] == s[1..][k - 1];
      }
    }
  }

  /** Membership in a non-empty sequence: the head or the tail. */
  lemma InHeadTail<T>(s: seq<T>, x: T)
    requires |s| > 0
    ensures x in s <==> s[0] == x || x in s[1..]
  {
    assert s == [s[0]] + s[1..];
  }

  lemma CountZero<T>(s: seq<T>, x: T)
    ensures Count(s, x) == 0 <==> x !in s
  {
    if |s| > 0 {
      CountZero(s[1..], x);
      assert s == [s[0]] + s[1..];
    }
  }

  /** Largest element of a non-empty sequence. */
  function Max(s: seq<int>): (m: int)
    requires |s| > 0
    ensures forall i :: 0 <= i < |s| ==> s[i] <= m
    ensures exists i :: 0 <= i < |s| && s[i] == m
  {
    if |s| == 1 then s[0]
    else
      var rest := Max(s[1..]);
      assert forall i :: 1 <= i < |s| ==> s[i] == s[1..][i - 1];
      if s[0] >= rest then s[0] else rest
  }

  /** Smallest element of a non-empty sequence. */
  function Min(s: seq<int>): (m: int)
    requires |s| > 0
    ensures forall i :: 0 <= i < |s| ==> m <= s[i]
    ensures exists i :: 0 <= i < |s| && s[i] == m
  {
    if |s| == 1 then s[0]
    else
      var rest := Min(s[1..]);
      assert forall i :: 1 <= i < |s| ==> s[i] == s[1..][i - 1];
      if s[0] <= rest then s[0] else rest
  }

  function Abs(x: int): nat
  {
    if x < 0 then -x else x
  }

  /** Greatest common divisor (Euclid), with Gcd(0, 0) == 0 as in Python's math.gcd. */
  function Gcd(a: nat, b: nat): nat
    decreases b
  {
    if b == 0 then a else Gcd(b, a % b)
  }

  lemma GcdDivides(a: nat, b: nat)
    ensures Gcd(a, b) > 0 ==> a % Gcd(a, b) == 0 && b % Gcd(a, b) == 0
    ensures Gcd(a, b) == 0 <==> a == 0 && b == 0
    decreases b
  {
    if b != 0 {
      GcdDivides(b, a % b);
      var g := Gcd(b, a % b);
      if g > 0 {
        DivMod(a, b);
        CombinationDivisible(a, b, a % b, a / b, g);
      }
    }
  }

  lemma DivMod(a: int, b: int)
    requires b > 0
    ensures a == (a / b) * b + a % b
  {
  }

  /** Quotient and remainder are the only q, r with n == q*d + r, 0 <= r < d. */
  lemma DivModUnique(n: int, d: int, q: int, r: int)
    requires d > 0 && 0 <= r < d && n == q * d + r
    ensures n / d == q && n % d == r
  {
    DivMod(n, d);
    SubtractMultiples(q, n / d, d);
    MulSign(q - n / d, d);
  }

  /** A combination q*b + r of two multiples of g is a multiple of g. */
  lemma CombinationDivisible(a: int, b: int, r: int, q: int, g: int)
    requires g > 0 && b % g == 0 && r % g == 0 && a == q * b + r
    ensures a % g == 0
  {
    var kb := b / g;
    var kr := r / g;
    DivMod(b, g);
    DivMod(r, g);
    Distribute(q, kb, kr, g);
    ModOfMultiple(q * kb + kr, g);
  }

  lemma Distribute(q: int, kb: int, kr: int, g: int)
    ensures q * (kb * g) + kr * g == (q * kb + kr) * g
  {
  }

  lemma ModOfMultiple(k: int, g: int)
    requires g > 0
    ensures (k * g) % g == 0
  {
    var q := (k * g) / g;
    var m := (k * g) % g;
    DivMod(k * g, g);
    SubtractMultiples(k, q, g);
    MulSign(k - q, g);
  }

  lemma SubtractMultiples(k: int, q: int, g: int)
    ensures k * g - q * g == (k - q) * g
  {
  }

  lemma MulSign(d: int, g: int)
    requires g > 0
    ensures d >= 1 ==> d * g >= g
    ensures d <= -1 ==> d * g <= -g
    ensures d == 0 ==> d * g == 0
  {
  }

  /** Every common divisor of a and b divides their gcd. */
  lemma {:induction false} GcdGreatest(a: nat, b: nat, d: nat)
    requires d > 0 && a % d == 0 && b % d == 0
    ensures Gcd(a, b) % d == 0
    decreases b
  {
    if b != 0 {
      DivMod(a, b);
      SubtractMultiples(a / d, (a / b) * (b / d), d);
      DivMod(a, d);
      DivMod(b, d);
      assert a % b == (a / d) * d - (a / b) * ((b / d) * d);
      assert (a / b) * ((b / d) * d) == ((a / b) * (b / d)) * d;
      ModOfMultiple(a / d - (a / b) * (b / d), d);
      GcdGreatest(b, a % b, d);
    }
  }

  /** Bezout: the gcd is an integer combination x*a + y*b. */
  lemma {:induction false} Bezout(a: nat, b: nat) returns (x: int, y: int)
    ensures Gcd(a, b) == x * a + y * b
    decreases b
  {
    if b == 0 {
      x, y := 1, 0;
    } else {
      var x', y' := Bezout(b, a % b);
      DivMod(a, b);
      x, y := y', x' - y' * (a / b);
      BezoutStep(a, b, a / b, a % b, x', y');
    }
  }

  lemma BezoutStep(a: int, b: int, q: int, r: int, x': int, y': int)
    requires a == q * b + r
    ensures x' * b + y' * r == y' * a + (x' - y' * q) * b
  {
  }

  /** Least common multiple, with Lcm(0, x) == 0 as in Python's math.lcm:
      a common multiple that divides every other common multiple. */
  function Lcm(a: nat, b: nat): (r: nat)
    ensures a > 0 && b > 0 ==> r > 0 && r % a == 0 && r % b == 0
    ensures a > 0 && b > 0 ==> forall m: nat :: m % a == 0 && m % b == 0 ==> m % r == 0
    ensures a == 0 || b == 0 ==> r == 0
  {
    GcdDivides(a, b);
    if a == 0 || b == 0 then 0
    else
      var g := Gcd(a, b);
      var ka := a / g;
      assert a == ka * g;
      LcmIsMultiple(ka, g, b);
      LcmDividesMultiples(a, b, g, ka);
      ka * b
  }

  lemma LcmIsMultiple(ka: nat, g: nat, b: nat)
    requires g > 0 && ka > 0 && b > 0 && b % g == 0
    ensures (ka * b) % (ka * g) == 0 && (ka * b) % b == 0 && ka * b > 0
  {
    var kb := b / g;
    assert b == kb * g;
    assert ka * b == kb * (ka * g);
    ModOfMultiple(kb, ka * g);
    ModOfMultiple(ka, b);
  }

  /** (a / g) * b divides every common multiple of a and b, where g is their gcd. */
  lemma LcmDividesMultiples(a: nat, b: nat, g: nat, ka: nat)
    requires a > 0 && b > 0 && g == Gcd(a, b) && g > 0 && a == ka * g
    ensures ka * b > 0 && forall m: nat :: m % a == 0 && m % b == 0 ==> m % (ka * b) == 0
  {
    assert ka > 0;
    forall m: nat | m % a == 0 && m % b == 0
      ensures m % (ka * b) == 0
    {
      var x, y := Bezout(a, b);
      DivMod(m, a);
      DivMod(m, b);
      var p, q := m / a, m / b;
      var k := x * q + y * p;
      CommonMultipleTimesGcd(m, a, b, g, x, y, p, q);
      assert m * g == (k * (ka * b)) * g by {
        assert m * g == k * (a * b);
        assert a * b == (ka * b) * g;
      }
      CancelFactor(m, k * (ka * b), g);
      ModOfMultiple(k, ka * b);
    }
  }

  lemma CommonMultipleTimesGcd(m: int, a: int, b: int, g: int, x: int, y: int, p: int, q: int)
    requires g == x * a + y * b && m == p * a && m == q * b
    ensures m * g == (x * q + y * p) * (a * b)
  {
    assert m * g == x * (a * m) + y * (b * m);
    assert a * m == (a * b) * q;
    assert b * m == (a * b) * p;
  }

  lemma CancelFactor(u: int, v: int, g: int)
    requires g > 0 && u * g == v * g
    ensures u == v
  {
    SubtractMultiples(u, v, g);
    if u - v >= 1 || u - v <= -1 {
      MulSign(u - v, g);
    }
  }

  /** A positive multiple of d is at least d. */
  lemma MultipleAtLeast(m: nat, d: nat)
    requires d > 0 && m > 0 && m % d == 0
    ensures d <= m
  {
    DivMod(m, d);
    MulSign(m / d, d);
  }

  /** Python's math.lcm over a list: 1 for an empty list; otherwise a common
      multiple of the entries that divides every other common multiple. */
  function LcmAll(s: seq<nat>): (r: nat)
    ensures (forall i :: 0 <= i < |s| ==> s[i] > 0) ==> r > 0 && forall i :: 0 <= i < |s| ==> r % s[i] == 0
    ensures (forall i :: 0 <= i < |s| ==> s[i] > 0) ==>
      forall m: nat :: (forall i :: 0 <= i < |s| ==> m % s[i] == 0) ==> m % r == 0
  {
    if |s| == 0 then 1
    else
      var rest := LcmAll(s[1..]);
      var r := Lcm(s[0], rest);
      if forall i :: 0 <= i < |s| ==> s[i] > 0 then
        assert forall i :: 1 <= i < |s| ==> s[i] == s[1..][i - 1];
        assert forall i :: 1 <= i < |s| ==> rest % s[i] == 0;
        assert forall i :: 1 <= i < |s| ==> r % s[i] == 0 by {
          forall i | 1 <= i < |s| ensures r % s[i] == 0 {
            DividesTransitive(s[i], rest, r);
          }
        }
        assert forall m: nat :: (forall i :: 0 <= i < |s| ==> m % s[i] == 0) ==> m % rest == 0 by {
          forall m: nat | forall i :: 0 <= i < |s| ==> m % s[i] == 0
            ensures m % rest == 0
          {
            assert forall i :: 0 <= i < |s[1..]| ==> m % s[1..][i] == 0 by {
              forall i | 0 <= i < |s[1..]| ensures m % s[1..][i] == 0 {
                assert s[1..][i] == s[i + 1];
              }
            }
          }
        }
        r
      else r
  }

  lemma DividesTransitive(a: nat, b: nat, c: nat)
    requires a > 0 && b > 0 && b % a == 0 && c % b == 0
    ensures c % a == 0
  {
    var k := b / a;
    var m := c / b;
    assert b == k * a;
    assert c == m * b;
    assert c == (m * k) * a;
    ModOfMultiple(m * k, a);
  }

  /** A subset is no larger than its superset, and strictly smaller when proper. */
  lemma {:induction false} SubsetSize<T>(a: set<T>, b: set<T>)
    requires a <= b
    ensures |a| <= |b|
    ensures a < b ==> |a| < |b|
    decreases |b|
  {
    if a < b {
      var x :| x in b && x !in a;
      SubsetSize(a, b - {x});
      assert |b - {x}| == |b| - 1;
    } else {
      assert a == b;
    }
  }

  /** The cells `(x, y)` of row `y` with `0 <= x < w`. */
  function Row(w: nat, y: int): set<(int, int)>
  {
    if w == 0 then {} else Row(w - 1, y) + {(w - 1, y)}
  }

  /** The cells `(x, y)` with `0 <= x < w` and `0 <= y < h`. */
  function Rect(w: nat, h: nat): set<(int, int)>
  {
    if h == 0 then {} else Rect(w, h - 1) + Row(w, h - 1)
  }

  lemma {:induction false} RowMembers(w: nat, y: int, p: (int, int))
    ensures p in Row(w, y) <==> p.1 == y && 0 <= p.0 < w
  {
    if w > 0 {
      RowMembers(w - 1, y, p);
    }
  }

  lemma {:induction false} RectMembers(w: nat, h: nat, p: (int, int))
    ensures p in Rect(w, h) <==> 0 <= p.0 < w && 0 <= p.1 < h
  {
    if h > 0 {
      RectMembers(w, h - 1, p);
      RowMembers(w, h - 1, p);
    }
  }

  lemma {:induction false} RowSize(w: nat, y: int)
    ensures |Row(w, y)| == w
  {
    if w > 0 {
      RowSize(w - 1, y);
      RowMembers(w - 1, y, (w - 1, y));
    }
  }

  lemma {:induction false} RectSize(w: nat, h: nat)
    ensures |Rect(w, h)| == w * h
  {
    if h > 0 {
      RectSize(w, h - 1);
      RowSize(w, h - 1);
      var row, rest := Row(w, h - 1), Rect(w, h - 1);
      forall p | p in row
        ensures p !in rest
      {
        RowMembers(w, h - 1, p);
        RectMembers(w, h - 1, p);
      }
      assert w * h == w * (h - 1) + w;
    }
  }
}
