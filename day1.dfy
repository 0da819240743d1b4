/** Group sums of an inventory and the total of the largest groups
    (src/bin/day1.rs). */
module CalorieCounting {
  import opened Wrappers

  /** The errors of the program, except the I/O one. The kind of a failed
      integer parse is not kept. */
  datatype Errors = NotEnoughInputs | InvalidInteger

  /** The largest `u64`. */
  const U64_MAX: nat := 0xFFFF_FFFF_FFFF_FFFF

  // ---------------------------------------------------------------------------
  // Sums of sequences

  /** The sum of a sequence, taken from the back. */
  function Sum(s: seq<nat>): nat
  {
    if s == [] then 0 else Sum(s[..|s| - 1]) + s[|s| - 1]
  }

  /** The sum of a concatenation is the sum of the sums. */
  lemma {:induction false} SumConcat(s: seq<nat>, t: seq<nat>)
    ensures Sum(s + t) == Sum(s) + Sum(t)
    decreases |t|
  {
    if t == [] {
      assert s + t == s;
    } else {
      assert (s + t)[..|s + t| - 1] == s + t[..|t| - 1];
      SumConcat(s, t[..|t| - 1]);
    }
  }

  /** The sum of a sequence is its first element plus the rest. */
  lemma SumCons(x: nat, s: seq<nat>)
    ensures Sum([x] + s) == x + Sum(s)
  {
    SumConcat([x], s);
    assert [x][..0] == [];
  }

  /** Taking one element out of a sequence takes it out of the sum. */
  lemma SumRemoveAt(s: seq<nat>, k: nat)
    requires k < |s|
    ensures Sum(s) == s[k] + Sum(s[..k] + s[k + 1..])
  {
    SplitAt(s, k);
    SumConcat(s[..k], [s[k]] + s[k + 1..]);
    SumCons(s[k], s[k + 1..]);
    SumConcat(s[..k], s[k + 1..]);
  }

  /** A sequence is its part before `k`, its element at `k` and its part
      after `k`. */
  lemma SplitAt<T>(s: seq<T>, k: nat)
    requires k < |s|
    ensures s == s[..k] + ([s[k]] + s[k + 1..])
  {
    assert s[k..] == [s[k]] + s[k + 1..];
    assert s == s[..k] + s[k..];
  }

  /** A sum of naturals is zero exactly when every term is. */
  lemma {:induction false} SumZeroIff(s: seq<nat>)
    ensures Sum(s) == 0 <==> forall i :: 0 <= i < |s| ==> s[i] == 0
  {
    if s != [] {
      SumZeroIff(s[..|s| - 1]);
      assert forall i :: 0 <= i < |s| - 1 ==> s[..|s| - 1][i] == s[i];
    }
  }

  // ---------------------------------------------------------------------------
  // One line of the inventory

  predicate IsDigit(c: char)
  {
    '0' <= c <= '9'
  }

  predicate AllDigits(s: seq<char>)
  {
    forall i :: 0 <= i < |s| ==> IsDigit(s[i])
  }

  function DigitValue(c: char): nat
    requires IsDigit(c)
  {
    (c as int - '0' as int) as nat
  }

  function DigitChar(d: nat): (c: char)
    requires d < 10
    ensures IsDigit(c) && DigitValue(c) == d
  {
    ('0' as int + d) as char
  }

  /** The value of a string of decimal digits, most significant first. */
  function DecimalValue(s: seq<char>): nat
    requires AllDigits(s)
  {
    if s == [] then 0 else DecimalValue(s[..|s| - 1]) * 10 + DigitValue(s[|s| - 1])
  }

  /** The shortest decimal rendering of `n`. */
  function ToDecimal(n: nat): (s: seq<char>)
    decreases n
  {
    if n < 10 then [DigitChar(n)] else ToDecimal(n / 10) + [DigitChar(n % 10)]
  }

  /** The digits `u64::from_str_radix` reads: an optional leading `+` is
      dropped. */
  function Unsigned(s: seq<char>): seq<char>
  {
    if |s| > 0 && s[0] == '+' then s[1..] else s
  }

  /** `u64::from_str_radix(s, 10)`: an optional `+`, then at least one ASCII
      digit, and a value that fits in 64 bits. */
  function FromStrRadix10(s: seq<char>): (r: Result<nat, Errors>)
    ensures r.Ok? <==> Unsigned(s) != [] && AllDigits(Unsigned(s)) && DecimalValue(Unsigned(s)) <= U64_MAX
    ensures r.Ok? ==> r.value <= U64_MAX && r.value == DecimalValue(Unsigned(s))
    ensures r.Err? ==> r.error == InvalidInteger
  {
    var digits := Unsigned(s);
    if digits == [] || !AllDigits(digits) then Err(InvalidInteger)
    else if DecimalValue(digits) > U64_MAX then Err(InvalidInteger)
    else Ok(DecimalValue(digits))
  }

  /** The line rule of `load_inventory`: an empty line separates groups,
      any other line must be a `u64` in decimal. */
  function ParseInventoryLine(line: seq<char>): (r: Result<Option<nat>, Errors>)
    ensures r == Ok(None) <==> line == []
    ensures r.Ok? && line != [] ==> r.value.Some? && r.value.value <= U64_MAX
    ensures r.Ok? && line != [] ==> FromStrRadix10(line).Ok? && r.value == Some(FromStrRadix10(line).value)
    ensures r.Err? <==> line != [] && FromStrRadix10(line).Err?
  {
    if line == [] then Ok(None)
    else
      var n := FromStrRadix10(line);
      if n.Err? then Err(n.error) else Ok(Some(n.value))
  }

  /** Rendering a number and reading it back gives the number. */
  lemma {:induction false} DecimalRoundTrip(n: nat)
    ensures ToDecimal(n) != [] && AllDigits(ToDecimal(n)) && ToDecimal(n)[0] != '+'
    ensures DecimalValue(ToDecimal(n)) == n
    decreases n
  {
    if n >= 10 {
      DecimalRoundTrip(n / 10);
      var s := ToDecimal(n / 10) + [DigitChar(n % 10)];
      assert s[..|s| - 1] == ToDecimal(n / 10);
    }
  }

  /** Every `u64` in decimal, with or without a `+`, reads back as that
      number; larger numbers are refused. */
  lemma ParseInventoryLineRoundTrip(n: nat)
    ensures n <= U64_MAX ==> ParseInventoryLine(ToDecimal(n)) == Ok(Some(n))
    ensures n <= U64_MAX ==> ParseInventoryLine(['+'] + ToDecimal(n)) == Ok(Some(n))
    ensures n > U64_MAX ==> ParseInventoryLine(ToDecimal(n)) == Err(InvalidInteger)
  {
    DecimalRoundTrip(n);
    assert Unsigned(ToDecimal(n)) == ToDecimal(n);
    assert Unsigned(['+'] + ToDecimal(n)) == ToDecimal(n);
  }

  /** A sign alone, a minus sign and a non-digit are refused. */
  lemma ParseInventoryLineRejects()
    ensures ParseInventoryLine("+") == Err(InvalidInteger)
    ensures ParseInventoryLine("-1") == Err(InvalidInteger)
    ensures ParseInventoryLine("1a") == Err(InvalidInteger)
  {
    assert !AllDigits("-1") by { assert !IsDigit("-1"[0]); }
    assert !AllDigits("1a") by { assert !IsDigit("1a"[1]); }
  }

  // ---------------------------------------------------------------------------
  // Grouping

  function Init<T>(s: seq<T>): seq<T>
    requires |s| > 0
  {
    s[..|s| - 1]
  }

  function Last<T>(s: seq<T>): T
    requires |s| > 0
  {
    s[|s| - 1]
  }

  lemma InitLast<T>(s: seq<T>)
    requires |s| > 0
    ensures s == Init(s) + [Last(s)]
  {
  }

  /** The number of separators in an inventory. */
  function CountNone(s: seq<Option<nat>>): nat
  {
    if s == [] then 0 else CountNone(Init(s)) + if Last(s).None? then 1 else 0
  }

  /** The values of an inventory, separators dropped. */
  function Values(s: seq<Option<nat>>): seq<nat>
  {
    if s == [] then []
    else match Last(s)
      case None => Values(Init(s))
      case Some(c) => Values(Init(s)) + [c]
  }

  /** The runs of values between separators, empty runs included. */
  function Runs(s: seq<Option<nat>>): (rs: seq<seq<nat>>)
    ensures |rs| > 0
  {
    if s == [] then [[]]
    else
      var rs := Runs(Init(s));
      match Last(s)
      case None => rs + [[]]
      case Some(c) => Init(rs) + [Last(rs) + [c]]
  }

  /** The inventory a list of runs stands for: the runs, as values, with a
      separator between consecutive runs. */
  function Join(rs: seq<seq<nat>>): seq<Option<nat>>
    requires |rs| > 0
  {
    if |rs| == 1 then Somes(rs[0]) else Join(Init(rs)) + [None] + Somes(Last(rs))
  }

  /** A run of values as inventory entries. */
  function Somes(r: seq<nat>): seq<Option<nat>>
  {
    if r == [] then [] else Somes(Init(r)) + [Some(Last(r))]
  }

  /** The sums of the runs that do not sum to zero, in order. */
  function NonZeroSums(rs: seq<seq<nat>>): (sums: seq<nat>)
    ensures |sums| <= |rs|
    ensures forall i :: 0 <= i < |sums| ==> sums[i] > 0
  {
    if rs == [] then []
    else NonZeroSums(Init(rs)) + if Sum(Last(rs)) == 0 then [] else [Sum(Last(rs))]
  }

  /** The group sums of an inventory, zero groups dropped. */
  function GroupSums(s: seq<Option<nat>>): seq<nat>
  {
    NonZeroSums(Runs(s))
  }

  /** Splitting into runs and joining them back gives the inventory. */
  lemma {:induction false} JoinRuns(s: seq<Option<nat>>)
    ensures Join(Runs(s)) == s
    decreases |s|
  {
    if s != [] {
      var t := Init(s);
      assert s == t + [Last(s)];
      JoinRuns(t);
      var rs := Runs(t);
      match Last(s)
      case None =>
        assert Init(rs + [[]]) == rs;
      case Some(c) =>
        assert Somes(Last(rs) + [c]) == Somes(Last(rs)) + [Some(c)];
        if |rs| > 1 {
          assert Init(Init(rs) + [Last(rs) + [c]]) == Init(rs);
        }
    }
  }

  /** Appending the values of a run extends the last run. */
  lemma {:induction false} RunsAppendSomes(t: seq<Option<nat>>, x: seq<nat>)
    ensures Runs(t + Somes(x)) == Init(Runs(t)) + [Last(Runs(t)) + x]
    decreases |x|
  {
    if x == [] {
      assert t + Somes(x) == t;
      assert Last(Runs(t)) + x == Last(Runs(t));
    } else {
      var x', c := Init(x), Last(x);
      var u := t + Somes(x');
      RunsAppendSomes(t, x');
      assert Somes(x) == Somes(x') + [Some(c)];
      assert t + Somes(x) == u + [Some(c)];
      var run := Last(Runs(t));
      RunsExtend(u, c, Init(Runs(t)), run + x');
      InitLast(x);
      assert (run + x') + [c] == run + x;
    }
  }

  /** A value after a last run `run` extends that run. */
  lemma RunsExtend(u: seq<Option<nat>>, c: nat, front: seq<seq<nat>>, run: seq<nat>)
    requires Runs(u) == front + [run]
    ensures Runs(u + [Some(c)]) == front + [run + [c]]
  {
    assert Init(front + [run]) == front && Last(front + [run]) == run;
    RunsSnoc(u, Some(c));
    InitLast(Runs(u + [Some(c)]));
  }

  /** A single run of values is one run. */
  lemma RunsOfSomes(r: seq<nat>)
    ensures Runs(Somes(r)) == [r]
  {
    var e: seq<Option<nat>> := [];
    var none: seq<nat> := [];
    RunsAppendSomes(e, r);
    calc {
      Runs(Somes(r));
      { assert e + Somes(r) == Somes(r); }
      Runs(e + Somes(r));
      Init(Runs(e)) + [Last(Runs(e)) + r];
      { assert Runs(e) == [none]; }
      [] + [none + r];
      { assert none + r == r; }
      [r];
    }
  }

  /** A separator and a run after joined runs add that run. */
  lemma RunsJoinStep(front: seq<seq<nat>>, last: seq<nat>)
    requires |front| > 0 && Runs(Join(front)) == front
    ensures Runs(Join(front + [last])) == front + [last]
  {
    var rs := front + [last];
    assert Init(rs) == front && Last(rs) == last;
    var t := Join(front) + [None];
    RunsSnoc(Join(front), None);
    RunsAppendSomes(t, last);
    var none: seq<nat> := [];
    calc {
      Runs(Join(rs));
      { assert Join(rs) == t + Somes(last); }
      Runs(t + Somes(last));
      Init(Runs(t)) + [Last(Runs(t)) + last];
      { assert Last(Runs(t)) == none; }
      front + [none + last];
      { assert none + last == last; }
      front + [last];
    }
  }

  /** Joining runs and splitting again gives the runs: `Runs` finds exactly
      the maximal runs of values between separators. */
  lemma {:induction false} RunsJoin(rs: seq<seq<nat>>)
    requires |rs| > 0
    ensures Runs(Join(rs)) == rs
    decreases |rs|
  {
    if |rs| == 1 {
      assert rs == [rs[0]];
      RunsOfSomes(rs[0]);
    } else {
      RunsJoin(Init(rs));
      RunsJoinStep(Init(rs), Last(rs));
      assert Init(rs) + [Last(rs)] == rs;
    }
  }

  /** Sum conservation: the group sums add up to the sum of all values. */
  lemma {:induction false} GroupSumsConserve(s: seq<Option<nat>>)
    ensures Sum(GroupSums(s)) == Sum(Values(s))
    decreases |s|
  {
    if s != [] {
      var t := Init(s);
      GroupSumsConserve(t);
      var rs := Runs(t);
      var tail := if Sum(Last(rs)) == 0 then [] else [Sum(Last(rs))];
      assert NonZeroSums(rs) == NonZeroSums(Init(rs)) + tail;
      SumConcat(NonZeroSums(Init(rs)), tail);
      match Last(s)
      case None =>
        assert Runs(s) == rs + [[]] && Values(s) == Values(t);
        assert Init(rs + [[]]) == rs && Last(rs + [[]]) == [];
        assert NonZeroSums(rs + [[]]) == NonZeroSums(rs) + [];
        assert NonZeroSums(rs) + [] == NonZeroSums(rs);
      case Some(c) =>
        var rs' := Init(rs) + [Last(rs) + [c]];
        assert Init(rs') == Init(rs);
        assert Init(Last(rs) + [c]) == Last(rs);
        var tail' := if Sum(Last(rs')) == 0 then [] else [Sum(Last(rs'))];
        SumConcat(NonZeroSums(Init(rs)), tail');
        SumConcat(Values(t), [c]);
        assert [c][..0] == [];
    }
  }

  /** There is one more run than there are separators. */
  lemma {:induction false} RunsCount(s: seq<Option<nat>>)
    ensures |Runs(s)| == CountNone(s) + 1
    decreases |s|
  {
    if s != [] {
      RunsCount(Init(s));
    }
  }

  /** There are at most one more groups than separators. */
  lemma GroupCountBound(s: seq<Option<nat>>)
    ensures |GroupSums(s)| <= CountNone(s) + 1
  {
    RunsCount(s);
  }

  /** The values of an inventory all are zero exactly when the sum of its
      values is. */
  lemma {:induction false} ValuesSumZero(s: seq<Option<nat>>)
    ensures Sum(Values(s)) == 0 <==> forall i :: 0 <= i < |s| && s[i].Some? ==> s[i].value == 0
    decreases |s|
  {
    if s != [] {
      var t := Init(s);
      ValuesSumZero(t);
      assert forall i :: 0 <= i < |t| ==> t[i] == s[i];
      match Last(s)
      case None =>
      case Some(c) =>
        SumConcat(Values(t), [c]);
        assert [c][..0] == [];
    }
  }

  /** An inventory has no groups exactly when it holds no non-zero value;
      in particular the empty inventory has none. */
  lemma NoGroupsIffAllZero(s: seq<Option<nat>>)
    ensures GroupSums(s) == [] <==> forall i :: 0 <= i < |s| && s[i].Some? ==> s[i].value == 0
  {
    GroupSumsConserve(s);
    ValuesSumZero(s);
    SumZeroIff(GroupSums(s));
    if GroupSums(s) != [] {
      assert GroupSums(s)[0] > 0;
    }
  }

  /** How one more inventory entry changes the runs: a separator opens a
      new empty run, a value extends the last run. */
  lemma RunsSnoc(t: seq<Option<nat>>, item: Option<nat>)
    ensures Init(Runs(t + [item])) == if item.None? then Runs(t) else Init(Runs(t))
    ensures Last(Runs(t + [item])) == if item.None? then [] else Last(Runs(t)) + [item.value]
  {
    assert Init(t + [item]) == t && Last(t + [item]) == item;
    var rs := Runs(t);
    if item.None? {
      assert Runs(t + [item]) == rs + [[]];
      assert Init(rs + [[]]) == rs;
    } else {
      assert Runs(t + [item]) == Init(rs) + [Last(rs) + [item.value]];
      assert Init(Init(rs) + [Last(rs) + [item.value]]) == Init(rs);
    }
  }

  /** The state of the scan after reading `s`: `calories` holds the
      non-zero sums of the runs already closed by a separator, and `acc` the
      sum of the run still open. */
  ghost predicate Scanned(s: seq<Option<nat>>, calories: multiset<nat>, acc: nat)
  {
    calories == multiset(NonZeroSums(Init(Runs(s)))) && acc == Sum(Last(Runs(s)))
  }

  /** The step of the scan: at a separator the running total is collected
      when it is not zero and reset; a value is added to it. */
  lemma ScanStep(t: seq<Option<nat>>, item: Option<nat>, calories: multiset<nat>, acc: nat)
    requires Scanned(t, calories, acc)
    ensures Scanned(t + [item],
                    if item.None? && acc != 0 then calories + multiset{acc} else calories,
                    if item.None? then 0 else acc + item.value)
  {
    RunsSnoc(t, item);
    var rs := Runs(t);
    if item.None? {
      assert rs == Init(rs) + [Last(rs)];
      if acc != 0 {
        assert NonZeroSums(rs) == NonZeroSums(Init(rs)) + [acc];
      } else {
        assert NonZeroSums(rs) == NonZeroSums(Init(rs)) + [];
      }
    } else {
      var r := Last(rs) + [item.value];
      assert Init(r) == Last(rs) && Last(r) == item.value;
    }
  }

  /** `total_calories_of_elves`: one pass over the inventory, adding values
      to a running total and, at each separator, collecting the total when
      it is not zero and resetting it; the separator chained after the
      inventory collects the last total. The collection is a multiset, as
      the heap is. */
  method TotalCaloriesOfElves(inventory: array<Option<nat>>) returns (calories: multiset<nat>)
    ensures calories == multiset(GroupSums(inventory[..]))
    ensures forall c :: c in calories ==> c > 0
  {
    calories := multiset{};
    var acc := 0;
    var i := 0;
    while i < inventory.Length
      invariant 0 <= i <= inventory.Length
      invariant Scanned(inventory[..i], calories, acc)
    {
      var item := inventory[i];
      assert inventory[..i + 1] == inventory[..i] + [item];
      ScanStep(inventory[..i], item, calories, acc);
      if item.None? {
        if acc != 0 {
          calories := calories + multiset{acc};
        }
        acc := 0;
      } else {
        acc := acc + item.value;
      }
      i := i + 1;
    }
    assert inventory[..i] == inventory[..];
    ScanStep(inventory[..], None, calories, acc);
    if acc != 0 {
      calories := calories + multiset{acc};
    }
    RunsSnoc(inventory[..], None);
    GroupSumsPositive(inventory[..]);
  }

  /** Every collected group total is positive. */
  lemma GroupSumsPositive(s: seq<Option<nat>>)
    ensures forall c :: c in multiset(GroupSums(s)) ==> c > 0
  {
    var sums := GroupSums(s);
    forall c | c in multiset(sums) ensures c > 0 {
      assert c in sums;
    }
  }

  // ---------------------------------------------------------------------------
  // The largest groups

  /** `x` is a largest element of `m`. */
  ghost predicate IsMax(m: multiset<nat>, x: nat) {
    x in m && forall y :: y in m ==> y <= x
  }

  /** A nonempty multiset has a largest element. */
  lemma {:induction false} MaxExists(m: multiset<nat>)
    requires |m| > 0
    ensures exists x :: IsMax(m, x)
    decreases |m|
  {
    var z :| z in m;
    var rest := m - multiset{z};
    RemoveOne(m, z);
    assert forall y :: y in m ==> y == z || y in rest;
    if |rest| == 0 {
      assert IsMax(m, z);
    } else {
      MaxExists(rest);
      var x :| IsMax(rest, x);
      var top := if x < z then z else x;
      assert IsMax(m, top);
    }
  }

  /** The largest element of a nonempty multiset (the top of the heap). */
  function MaxOf(m: multiset<nat>): (x: nat)
    requires |m| > 0
    ensures x in m && forall y :: y in m ==> y <= x
  {
    MaxExists(m);
    var x :| x in m && forall y :: y in m ==> y <= x;
    x
  }

  /** `into_iter_sorted().take(n)`: the `n` largest elements, largest
      first, taken from the top of the heap one at a time. */
  function Largest(m: multiset<nat>, n: nat): (top: seq<nat>)
    requires n <= |m|
    ensures |top| == n
    decreases n
  {
    if n == 0 then []
    else
      var x := MaxOf(m);
      RemoveOne(m, x);
      [x] + Largest(m - multiset{x}, n - 1)
  }

  /** The `n` largest are taken from the heap. */
  lemma {:induction false} LargestSubset(m: multiset<nat>, n: nat)
    requires n <= |m|
    ensures multiset(Largest(m, n)) <= m
    decreases n
  {
    if n > 0 {
      var x := MaxOf(m);
      LargestCons(m, n);
      var rest := Largest(m - multiset{x}, n - 1);
      LargestSubset(m - multiset{x}, n - 1);
      assert multiset([x] + rest) == multiset{x} + multiset(rest);
      AddBack(m, x, multiset(rest));
    }
  }

  /** Putting a removed element back into a part of what remains stays
      within the whole. */
  lemma AddBack(m: multiset<nat>, x: nat, part: multiset<nat>)
    requires x in m && part <= m - multiset{x}
    ensures multiset{x} + part <= m
  {
    assert m == (m - multiset{x}) + multiset{x};
  }

  /** The elements of `s` never increase from left to right. */
  predicate NonIncreasing(s: seq<nat>)
  {
    forall i, j :: 0 <= i < j < |s| ==> s[i] >= s[j]
  }

  /** No element of `rest` exceeds an element of `top`. */
  ghost predicate Dominates(top: seq<nat>, rest: multiset<nat>)
  {
    forall y, i :: y in rest && 0 <= i < |top| ==> y <= top[i]
  }

  /** `top` is a choice of `n` elements of `m` that nothing left out
      exceeds. */
  ghost predicate IsTop(m: multiset<nat>, n: nat, top: seq<nat>)
  {
    |top| == n && multiset(top) <= m && Dominates(top, m - multiset(top))
  }

  /** Putting the largest element in front of a choice from the rest. */
  lemma LargestStep(m: multiset<nat>, x: nat, rest: seq<nat>)
    requires x in m && forall y :: y in m ==> y <= x
    requires NonIncreasing(rest) && IsTop(m - multiset{x}, |rest|, rest)
    ensures NonIncreasing([x] + rest)
    ensures IsTop(m, |rest| + 1, [x] + rest)
  {
    assert forall k :: 0 <= k < |rest| ==> rest[k] in multiset(rest);
    assert m - multiset([x] + rest) == (m - multiset{x}) - multiset(rest);
    assert multiset([x] + rest) == multiset{x} + multiset(rest);
  }

  /** The `n` largest are in order and nothing left out exceeds them. */
  lemma {:induction false} LargestIsTop(m: multiset<nat>, n: nat)
    requires n <= |m|
    ensures NonIncreasing(Largest(m, n))
    ensures IsTop(m, n, Largest(m, n))
    decreases n
  {
    if n == 0 {
      LargestSubset(m, n);
    } else {
      var x := MaxOf(m);
      LargestCons(m, n);
      var rest := Largest(m - multiset{x}, n - 1);
      LargestIsTop(m - multiset{x}, n - 1);
      LargestStep(m, x, rest);
    }
  }

  /** `extract_best_elves_total`: fails when there are fewer groups than
      asked for, otherwise sums the `n` largest. */
  function ExtractBestElvesTotal(calories: multiset<nat>, n: nat): (r: Result<nat, Errors>)
    ensures r.Err? <==> |calories| < n
    ensures r.Err? ==> r.error == NotEnoughInputs
    ensures r.Ok? ==> exists top :: IsTop(calories, n, top) && r.value == Sum(top)
  {
    if |calories| < n then Err(NotEnoughInputs)
    else
      var top := Largest(calories, n);
      LargestIsTop(calories, n);
      Ok(Sum(top))
  }

  /** A choice that holds the largest element, against the largest. */
  lemma DominatesWithMax(m: multiset<nat>, n: nat, s: seq<nat>, k: nat)
    requires 0 < n <= |m| && |s| == n && multiset(s) <= m
    requires k < n && s[k] == MaxOf(m)
    ensures multiset(s[..k] + s[k + 1..]) <= m - multiset{MaxOf(m)}
    ensures Sum(s) == MaxOf(m) + Sum(s[..k] + s[k + 1..])
  {
    SplitAt(s, k);
    assert multiset(s) == multiset(s[..k] + s[k + 1..]) + multiset{s[k]};
    SumRemoveAt(s, k);
  }

  /** A choice without the largest element, against the largest. */
  lemma DominatesWithoutMax(m: multiset<nat>, n: nat, s: seq<nat>)
    requires 0 < n <= |m| && |s| == n && multiset(s) <= m
    requires MaxOf(m) !in multiset(s)
    ensures multiset(s[1..]) <= m - multiset{MaxOf(m)}
    ensures s[0] <= MaxOf(m)
    ensures Sum(s) == s[0] + Sum(s[1..])
  {
    assert s == [s[0]] + s[1..];
    assert s[0] in multiset(s);
    assert multiset(s) == multiset{s[0]} + multiset(s[1..]);
    SumCons(s[0], s[1..]);
  }

  /** No choice of `n` elements sums to more than the `n` largest. */
  lemma {:induction false} LargestDominates(m: multiset<nat>, n: nat, s: seq<nat>)
    requires n <= |m| && |s| == n && multiset(s) <= m
    ensures Sum(s) <= Sum(Largest(m, n))
    decreases n
  {
    if n > 0 {
      var x := MaxOf(m);
      var m' := m - multiset{x};
      LargestCons(m, n);
      SumCons(x, Largest(m', n - 1));
      if x in multiset(s) {
        var k :| 0 <= k < |s| && s[k] == x;
        DominatesWithMax(m, n, s, k);
        LargestDominates(m', n - 1, s[..k] + s[k + 1..]);
      } else {
        DominatesWithoutMax(m, n, s);
        LargestDominates(m', n - 1, s[1..]);
      }
    }
  }

  /** The result is the largest sum of `n` of the groups. */
  lemma BestIsMaximal(calories: multiset<nat>, n: nat, s: seq<nat>)
    requires ExtractBestElvesTotal(calories, n).Ok?
    requires |s| == n && multiset(s) <= calories
    ensures Sum(s) <= ExtractBestElvesTotal(calories, n).value
  {
    LargestDominates(calories, n, s);
  }

  /** For one group asked for, the result is the largest group. */
  lemma BestOfOneIsMax(calories: multiset<nat>)
    requires |calories| >= 1
    ensures ExtractBestElvesTotal(calories, 1).Ok?
    ensures var best := ExtractBestElvesTotal(calories, 1).value;
            best in calories && forall y :: y in calories ==> y <= best
  {
    var top := Largest(calories, 1);
    assert top == [MaxOf(calories)] + [];
    assert Sum(top) == Sum([]) + top[0];
  }

  /** Taking one occurrence out of a multiset leaves one element less. */
  lemma RemoveOne(m: multiset<nat>, x: nat)
    requires x in m
    ensures |m - multiset{x}| == |m| - 1
  {
    assert m == (m - multiset{x}) + multiset{x};
  }

  /** The first of the `n` largest is the largest, then come the `n - 1`
      largest of the rest. */
  lemma LargestCons(m: multiset<nat>, n: nat)
    requires 0 < n <= |m|
    ensures |m - multiset{MaxOf(m)}| == |m| - 1
    ensures Largest(m, n) == [MaxOf(m)] + Largest(m - multiset{MaxOf(m)}, n - 1)
  {
    RemoveOne(m, MaxOf(m));
  }

  /** Asking for fewer groups takes a prefix of the same order. */
  lemma {:induction false} LargestPrefix(m: multiset<nat>, n1: nat, n2: nat)
    requires n1 <= n2 <= |m|
    ensures Largest(m, n1) == Largest(m, n2)[..n1]
    decreases n1
  {
    if n1 == 0 {
      LargestPrefixZero(m, n2);
    } else {
      RemoveOne(m, MaxOf(m));
      LargestPrefix(m - multiset{MaxOf(m)}, n1 - 1, n2 - 1);
      LargestPrefixStep(m, n1, n2);
    }
  }

  lemma LargestPrefixZero(m: multiset<nat>, n2: nat)
    requires n2 <= |m|
    ensures Largest(m, 0) == Largest(m, n2)[..0]
  {
  }

  lemma LargestPrefixStep(m: multiset<nat>, n1: nat, n2: nat)
    requires 0 < n1 <= n2 <= |m|
    requires |m - multiset{MaxOf(m)}| == |m| - 1
    requires Largest(m - multiset{MaxOf(m)}, n1 - 1) == Largest(m - multiset{MaxOf(m)}, n2 - 1)[..n1 - 1]
    ensures Largest(m, n1) == Largest(m, n2)[..n1]
  {
    LargestCons(m, n1);
    LargestCons(m, n2);
    var m' := m - multiset{MaxOf(m)};
    PrefixCons(MaxOf(m), Largest(m', n1 - 1), Largest(m', n2 - 1));
  }

  lemma PrefixCons(x: nat, l1: seq<nat>, l2: seq<nat>)
    requires |l1| <= |l2| && l1 == l2[..|l1|]
    ensures [x] + l1 == ([x] + l2)[..|l1| + 1]
  {
  }

  /** Asking for more groups never gives less: in particular the best
      single group is at most the best three. */
  lemma BestMonotone(calories: multiset<nat>, n1: nat, n2: nat)
    requires n1 <= n2
    requires ExtractBestElvesTotal(calories, n2).Ok?
    ensures ExtractBestElvesTotal(calories, n1).Ok?
    ensures ExtractBestElvesTotal(calories, n1).value <= ExtractBestElvesTotal(calories, n2).value
  {
    var t := Largest(calories, n2);
    LargestPrefix(calories, n1, n2);
    assert t == t[..n1] + t[n1..];
    SumConcat(t[..n1], t[n1..]);
  }

  /** Groups of 3, 4 and 5 with a blank line between them give the group
      sums 3, 4 and 5. */
  lemma ExampleGroups()
    ensures GroupSums([Some(3), None, Some(4), None, Some(5)]) == [3, 4, 5]
  {
    ExampleRuns();
    ExampleSums();
  }

  lemma ExampleSums()
    ensures NonZeroSums([[3], [4], [5]]) == [3, 4, 5]
  {
    var rs: seq<seq<nat>> := [[3], [4], [5]];
    assert Init(rs) == [[3], [4]] && Init(Init(rs)) == [[3]];
    assert Sum([3]) == 3 && Sum([4]) == 4 && Sum([5]) == 5;
    assert NonZeroSums([[3]]) == [3];
    assert NonZeroSums([[3], [4]]) == [3, 4];
  }

  lemma ExampleRuns()
    ensures Runs([Some(3), None, Some(4), None, Some(5)]) == [[3], [4], [5]]
  {
    var rs: seq<seq<nat>> := [[3], [4], [5]];
    assert Somes([3]) == [Some(3)] && Somes([4]) == [Some(4)] && Somes([5]) == [Some(5)];
    assert Init(rs) == [[3], [4]] && Init(Init(rs)) == [[3]];
    assert Join([[3]]) == [Some(3)];
    assert Join([[3], [4]]) == [Some(3), None, Some(4)];
    assert Join(rs) == [Some(3), None, Some(4), None, Some(5)];
    RunsJoin(rs);
  }

  /** For the group sums 3, 4 and 5 the best group is 5, the best three 12,
      and four are too many. */
  lemma ExampleBest()
    ensures ExtractBestElvesTotal(multiset{3, 4, 5}, 1) == Ok(5)
    ensures ExtractBestElvesTotal(multiset{3, 4, 5}, 3) == Ok(12)
    ensures ExtractBestElvesTotal(multiset{3, 4, 5}, 4) == Err(NotEnoughInputs)
  {
    ExampleLargest();
    assert Sum([5, 4, 3]) == 12 by {
      assert [5, 4, 3][..2] == [5, 4];
      assert [5, 4][..1] == [5];
    }
    assert Sum([5]) == 5;
  }

  /** The heap 3, 4, 5 pops as 5, 4, 3. */
  lemma ExampleLargest()
    ensures Largest(multiset{3, 4, 5}, 3) == [5, 4, 3]
    ensures Largest(multiset{3, 4, 5}, 1) == [5]
  {
    var m := multiset{3, 4, 5};
    ExampleMaxima();
    LargestCons(m, 3);
    LargestCons(m, 1);
    LargestCons(multiset{3, 4}, 2);
    LargestCons(multiset{3}, 1);
  }

  lemma ExampleMaxima()
    ensures MaxOf(multiset{3, 4, 5}) == 5 && multiset{3, 4, 5} - multiset{5} == multiset{3, 4}
    ensures MaxOf(multiset{3, 4}) == 4 && multiset{3, 4} - multiset{4} == multiset{3}
    ensures MaxOf(multiset{3}) == 3 && multiset{3} - multiset{3} == multiset{}
  {
  }

  /** Two blank lines in a row make an empty group, which is dropped. */
  lemma ZeroGroupDropped()
    ensures GroupSums([Some(1), None, None, Some(2)]) == [1, 2]
  {
    ZeroGroupRuns();
    ZeroGroupSums();
  }

  lemma ZeroGroupRuns()
    ensures Runs([Some(1), None, None, Some(2)]) == [[1], [], [2]]
  {
    var rs: seq<seq<nat>> := [[1], [], [2]];
    assert Somes([1]) == [Some(1)] && Somes([]) == [] && Somes([2]) == [Some(2)];
    assert Init(rs) == [[1], []] && Init(Init(rs)) == [[1]];
    assert Join([[1]]) == [Some(1)];
    assert Join([[1], []]) == [Some(1), None];
    assert Join(rs) == [Some(1), None, None, Some(2)];
    RunsJoin(rs);
  }

  lemma ZeroGroupSums()
    ensures NonZeroSums([[1], [], [2]]) == [1, 2]
  {
    var rs: seq<seq<nat>> := [[1], [], [2]];
    assert Init(rs) == [[1], []] && Init(Init(rs)) == [[1]];
    assert Sum([1]) == 1 && Sum([2]) == 2;
    assert NonZeroSums([[1]]) == [1];
    assert NonZeroSums([[1], []]) == [1];
  }
}
