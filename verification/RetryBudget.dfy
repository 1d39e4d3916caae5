// How long a command is retried before the link is declared down, against the
// time the link API waits for the outcome.
module RetryBudget {
  import opened Numbers

  const MAX32: nat := 0xFFFF_FFFF
  const FOREVER: nat := 0xFFFF_FFFF   // the wait that never times out
  const LAST_RATIO: nat := 5
  const LAST_MIN: nat := 100

  function Saturate(n: int): int { if n > MAX32 then MAX32 else n }

  // The final window; t1 is a sixteen-bit number of milliseconds.
  function LastWindow(t1: nat): nat {
    Saturate(if t1 * LAST_RATIO < LAST_MIN then LAST_MIN else t1 * LAST_RATIO)
  }

  // The reply window armed with `retry` retries used; n2 is the retry limit.
  // The comparison is with the 32-bit maximum shifted right, the result a
  // 32-bit left shift.
  function Window(t1: nat, n2: nat, retry: nat): nat {
    if retry > 0 && retry >= n2 then LastWindow(t1)
    else if retry >= 32 || t1 > MAX32 / Pow2(retry) then MAX32
    else t1 * Pow2(retry)
  }

  // What the link API waits.
  function ApiTimeout(t1: nat, n2: nat): nat {
    if n2 >= 32 then MAX32
    else
      var last := if t1 * LAST_RATIO < LAST_MIN then LAST_MIN else t1 * LAST_RATIO;
      Saturate(t1 * (Pow2(n2) - 1) + last + 2 * t1)
  }

  // The windows waited through, one after the other, when nothing ever answers.
  function Windows(t1: nat, n2: nat, retry: nat): seq<nat>
    decreases n2 - retry
  {
    [Window(t1, n2, retry)] + (if retry >= n2 then [] else Windows(t1, n2, retry + 1))
  }

  function Exact(t1: nat, n2: nat): nat {
    t1 * (Pow2(n2) - 1) + LastWindow(t1)
  }

  lemma DivideMultiply(a: nat, b: nat, m: nat)
    requires b >= 1
    ensures a > m / b <==> a * b > m
  {
    var q := m / b;
    assert m == q * b + m % b && 0 <= m % b < b;
    if a > q {
      assert a * b >= (q + 1) * b == q * b + b;
    } else {
      assert a * b <= q * b;
    }
  }

  // Before the last retry the window is t1 shifted, cut off at 32 bits.
  lemma EarlyWindow(t1: nat, n2: nat, retry: nat)
    requires retry < n2
    ensures retry < 32 ==> Window(t1, n2, retry) == Saturate(t1 * Pow2(retry))
  {
    DivideMultiply(t1, Pow2(retry), MAX32);
  }

  // The first `k - retry` windows double: their sum is exact if nothing
  // saturates, and otherwise too long for 32 bits.
  lemma {:induction false} DoublingWindows(t1: nat, n2: nat, retry: nat, k: nat)
    requires retry <= k <= n2 && 1 <= k <= 32
    ensures
      var exact := t1 * (Pow2(k) - Pow2(retry)) + Sum(Windows(t1, n2, k));
      var sum := Sum(Windows(t1, n2, retry));
      exact >= LAST_MIN && (sum == exact || (sum > MAX32 && exact > MAX32))
    decreases k - retry
  {
    hide Window;
    hide Pow2;
    hide Sum;
    hide Windows;
    EndsWithLast(t1, n2, k);
    if retry < k {
      DoublingWindows(t1, n2, retry + 1, k);
      EarlyWindow(t1, n2, retry);
      var rest := Windows(t1, n2, retry + 1);
      FirstWindow(t1, n2, retry);
      SumCons(Window(t1, n2, retry), rest);
      PowGrows(retry + 1, k);
      PowDoubles(retry);
      Split(t1, Pow2(retry), Pow2(k));
    }
  }

  lemma FirstWindow(t1: nat, n2: nat, retry: nat)
    requires retry < n2
    ensures Windows(t1, n2, retry) == [Window(t1, n2, retry)] + Windows(t1, n2, retry + 1)
  {
  }

  lemma SumCons(x: nat, s: seq<nat>)
    ensures Sum([x] + s) == x + Sum(s)
  {
    assert ([x] + s)[1..] == s;
  }

  lemma PowDoubles(n: nat)
    ensures Pow2(n + 1) == 2 * Pow2(n)
  {
  }

  lemma SumOfWindows(t1: nat, n2: nat)
    requires 1 <= n2 < 32
    ensures
      var sum := Sum(Windows(t1, n2, 0));
      sum == Exact(t1, n2) || (sum > MAX32 && Exact(t1, n2) > MAX32)
  {
    hide Window;
    hide LastWindow;
    DoublingWindows(t1, n2, 0, n2);
    LastIsLast(t1, n2);
    SumCons(LastWindow(t1), []);
    assert Windows(t1, n2, n2) == [LastWindow(t1)] + [];
  }

  lemma LastIsLast(t1: nat, n2: nat)
    requires n2 >= 1
    ensures Window(t1, n2, n2) == LastWindow(t1)
  {
  }

  lemma LastFits(t1: nat)
    ensures LAST_MIN <= LastWindow(t1) <= MAX32
  {
  }

  lemma Split(t1: nat, p: nat, q: nat)
    requires 2 * p <= q
    ensures t1 * (q - p) == t1 * p + t1 * (q - 2 * p)
    ensures 0 <= t1 * p && 0 <= t1 * (q - 2 * p)
  {
  }

  lemma {:induction false} PowGrows(a: nat, b: nat)
    requires a <= b
    ensures Pow2(a) <= Pow2(b)
    decreases b - a
  {
    if a < b {
      PowGrows(a + 1, b);
    }
  }

  // The API waits exactly as long as the whole retry schedule plus two reply
  // times, unless that does not fit 32 bits.
  lemma BudgetIff(t1: nat, n2: nat)
    requires t1 <= 0xFFFF && n2 >= 1
    ensures Sum(Windows(t1, n2, 0)) + 2 * t1 == ApiTimeout(t1, n2)
      <==> n2 < 32 && Exact(t1, n2) + 2 * t1 <= MAX32
  {
    hide Window;
    if n2 < 32 {
      SumOfWindows(t1, n2);
    } else {
      LongSchedule(t1, n2);
    }
  }

  lemma LongSchedule(t1: nat, n2: nat)
    requires t1 <= 0xFFFF && n2 >= 32
    ensures Sum(Windows(t1, n2, 0)) + 2 * t1 != MAX32
  {
    hide Window;
    hide Pow2;
    hide Windows;
    DoublingWindows(t1, n2, 0, 32);
    Pow32();
    AfterDoubling(t1, n2);
    if t1 >= 1 {
      assert t1 * (Pow2(32) - Pow2(0)) >= MAX32;
    }
  }

  lemma Pow32()
    ensures Pow2(32) == 0x1_0000_0000 && Pow2(0) == 1
  {
    assert Pow2(8) == 0x100;
    assert Pow2(16) == 0x1_0000;
    assert Pow2(24) == 0x100_0000;
  }

  // With more than 32 retries a 33rd window saturates; the last is never empty.
  lemma AfterDoubling(t1: nat, n2: nat)
    requires n2 >= 32
    ensures var rest := Sum(Windows(t1, n2, 32));
      if n2 == 32 then rest == LastWindow(t1) else rest > MAX32
  {
    hide Window;
    hide LastWindow;
    if n2 == 32 {
      LastIsLast(t1, n2);
      SumCons(LastWindow(t1), []);
      assert Windows(t1, n2, 32) == [LastWindow(t1)] + [];
    } else {
      SaturatedWindow(t1, n2);
      SumCons(MAX32, Windows(t1, n2, 33));
      EndsWithLast(t1, n2, 33);
    }
  }

  lemma SaturatedWindow(t1: nat, n2: nat)
    requires n2 > 32
    ensures Window(t1, n2, 32) == MAX32
  {
  }

  lemma {:induction false} EndsWithLast(t1: nat, n2: nat, retry: nat)
    requires 1 <= retry <= n2
    ensures Sum(Windows(t1, n2, retry)) >= LAST_MIN
    decreases n2 - retry
  {
    hide Window;
    hide LastWindow;
    if retry == n2 {
      LastIsLast(t1, n2);
      LastFits(t1);
      SumCons(LastWindow(t1), []);
      assert Windows(t1, n2, n2) == [LastWindow(t1)] + [];
    } else {
      EndsWithLast(t1, n2, retry + 1);
      SumCons(Window(t1, n2, retry), Windows(t1, n2, retry + 1));
    }
  }

  // So the API never gives up while the core is still retrying: it waits at
  // least as long, or for ever.
  lemma ApiOutlastsRetries(t1: nat, n2: nat)
    requires t1 <= 0xFFFF && n2 >= 1
    ensures ApiTimeout(t1, n2) == FOREVER || Sum(Windows(t1, n2, 0)) + 2 * t1 <= ApiTimeout(t1, n2)
  {
    hide Window;
    if n2 < 32 {
      SumOfWindows(t1, n2);
    }
  }

  // From a nonzero retry count fewer windows remain.
  lemma {:induction false} WindowCount(t1: nat, n2: nat, retry: nat)
    ensures |Windows(t1, n2, retry)| == if retry <= n2 then n2 - retry + 1 else 1
    decreases n2 - retry
  {
    if retry < n2 {
      WindowCount(t1, n2, retry + 1);
    }
  }

  // The last window is five reply times, at least a tenth of a second.
  lemma LastWindowIs(t1: nat)
    requires t1 <= 0xFFFF
    ensures LastWindow(t1) == if t1 < 20 then 100 else t1 + t1 + t1 + t1 + t1
  {
  }
}
