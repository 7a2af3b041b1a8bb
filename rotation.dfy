/**
 * What successive picks return. `Run` feeds a sequence of candidate lists, one per
 * call, through the picker's transition `Step`; the lemmas say which index each
 * call uses, how empty lists leave the rotation alone, and how the rotation cycles.
 */
module Rotation {
  import opened Wrappers
  import opened Uint64
  import opened Picker

  /** The results of the calls `calls[0], calls[1], ...` made in order from counter `v`,
      and the counter afterwards. */
  function Run<Pod>(v: u64, calls: seq<seq<Pod>>): (out: (seq<Option<Pod>>, u64))
    ensures |out.0| == |calls|
    decreases |calls|
  {
    if |calls| == 0 then ([], v)
    else
      var first := Step(v, calls[0]);
      var rest := Run(first.1, calls[1..]);
      ([first.0] + rest.0, rest.1)
  }

  /** How many of `calls` are non-empty, that is, how many of them advance the counter. */
  function Advances<Pod>(calls: seq<seq<Pod>>): (c: nat)
    ensures c <= |calls|
  {
    if |calls| == 0 then 0
    else (if |calls[0]| == 0 then 0 else 1) + Advances(calls[1..])
  }

  /** The counter a call sees after the calls `prior`, made from counter `v`. */
  function Seen<Pod>(v: u64, prior: seq<seq<Pod>>): u64
  {
    ((v as int + Advances(prior)) % Modulus) as u64
  }

  /** Reducing modulo 2^64 once more changes nothing later on. */
  lemma ModShift(a: int, k: int)
    requires 0 <= a <= Modulus
    ensures ((a % Modulus) + k) % Modulus == (a + k) % Modulus
  {
    if a == Modulus {
      var q, r := k / Modulus, k % Modulus;
      assert k == q * Modulus + r;
      ModUnique(a + k, q + 1, r, Modulus);
    }
  }

  /** After the calls, the counter has moved on by the number of non-empty lists, modulo 2^64. */
  lemma {:induction false} RunCounter<Pod>(v: u64, calls: seq<seq<Pod>>)
    ensures Run(v, calls).1 as int == (v as int + Advances(calls)) % Modulus
    decreases |calls|
  {
    if |calls| > 0 {
      var v1 := Step(v, calls[0]).1;
      var e := if |calls[0]| == 0 then 0 else 1;
      RunCounter(v1, calls[1..]);
      assert v1 as int == (v as int + e) % Modulus;
      ModShift(v as int + e, Advances(calls[1..]));
    }
  }

  /** Call `j` sees the counter `v` advanced once per earlier non-empty list, and picks
      modulo its own list's length, whatever lengths the earlier calls had. */
  lemma {:induction false} RunPicks<Pod>(v: u64, calls: seq<seq<Pod>>, j: nat)
    requires j < |calls|
    ensures Run(v, calls).0[j] == Step(Seen(v, calls[..j]), calls[j]).0
    decreases j
  {
    if j == 0 {
      assert Seen(v, calls[..0]) == v by {
        assert calls[..0] == [];
      }
    } else {
      var v1 := Step(v, calls[0]).1;
      RunPicks(v1, calls[1..], j - 1);
      RunTail(v, calls, j);
      SeenTail(v, calls, j);
      assert calls[1..][j - 1] == calls[j];
    }
  }

  /** Past the first call, a run continues from the counter the first call left. */
  lemma RunTail<Pod>(v: u64, calls: seq<seq<Pod>>, j: nat)
    requires 0 < j < |calls|
    ensures Run(v, calls).0[j] == Run(Step(v, calls[0]).1, calls[1..]).0[j - 1]
  {
    assert Run(v, calls).0 == [Step(v, calls[0]).0] + Run(Step(v, calls[0]).1, calls[1..]).0;
  }

  /** The counter seen after the first call and `j - 1` more is the one seen after `j` calls. */
  lemma SeenTail<Pod>(v: u64, calls: seq<seq<Pod>>, j: nat)
    requires 0 < j <= |calls|
    ensures Seen(Step(v, calls[0]).1, calls[1..][..j - 1]) == Seen(v, calls[..j])
  {
    var v1 := Step(v, calls[0]).1;
    var prior := calls[1..][..j - 1];
    var e := if |calls[0]| == 0 then 0 else 1;
    assert prior == calls[..j][1..];
    assert Advances(calls[..j]) == e + Advances(prior);
    assert v1 as int == (v as int + e) % Modulus;
    ModShift(v as int + e, Advances(prior));
  }

  /** When every list is non-empty, each call advances the counter. */
  lemma {:induction false} AdvancesAllNonEmpty<Pod>(calls: seq<seq<Pod>>)
    requires forall j :: 0 <= j < |calls| ==> |calls[j]| > 0
    ensures Advances(calls) == |calls|
  {
    if |calls| > 0 {
      AdvancesAllNonEmpty(calls[1..]);
    }
  }

  /** Calls on non-empty lists of any lengths: call `j` uses index `(v + j) mod 2^64 mod len`,
      which is always in range for that call's own list. */
  lemma RunNonEmpty<Pod>(v: u64, calls: seq<seq<Pod>>)
    requires forall j :: 0 <= j < |calls| ==> |calls[j]| > 0
    ensures forall j :: 0 <= j < |calls| ==>
      ((v as int + j) % Modulus) % |calls[j]| < |calls[j]| &&
      Run(v, calls).0[j] == Some(calls[j][((v as int + j) % Modulus) % |calls[j]|])
    ensures Run(v, calls).1 as int == (v as int + |calls|) % Modulus
  {
    forall j | 0 <= j < |calls|
      ensures Run(v, calls).0[j] == Some(calls[j][((v as int + j) % Modulus) % |calls[j]|])
    {
      AdvancesAllNonEmpty(calls[..j]);
      RunPicks(v, calls, j);
    }
    AdvancesAllNonEmpty(calls);
    RunCounter(v, calls);
  }

  /** `k` calls on lists of one length `n`, starting from `v` with no wrap-around on the way:
      the indices are `(v + j) mod n` for `j` in `0 .. k-1`. */
  lemma RunSameLength<Pod>(v: u64, calls: seq<seq<Pod>>, n: nat)
    requires n > 0 && v as int + |calls| <= Modulus
    requires forall j :: 0 <= j < |calls| ==> |calls[j]| == n
    ensures forall j :: 0 <= j < |calls| ==> Run(v, calls).0[j] == Some(calls[j][(v as int + j) % n])
    ensures v as int + |calls| < Modulus ==> Run(v, calls).1 as int == v as int + |calls|
  {
    forall j | 0 <= j < |calls|
      ensures Run(v, calls).0[j] == Some(calls[j][(v as int + j) % n])
    {
      AdvancesAllNonEmpty(calls[..j]);
      RunPicks(v, calls, j);
      assert Seen(v, calls[..j]) as int == v as int + j;
    }
    AdvancesAllNonEmpty(calls);
    RunCounter(v, calls);
  }

  /** One step further round the list: outside the wrap point, the next index is one more, modulo `n`. */
  lemma NextSlot(v: u64, n: nat)
    requires n > 0 && v as int < Max
    ensures Slot(WrapAdd(v, 1), n) == (Slot(v, n) + 1) % n
  {
    var q, r := v as int / n, v as int % n;
    assert v as int == q * n + r;
    if r + 1 < n {
      ModUnique(v as int + 1, q, r + 1, n);
      ModUnique(r + 1, 0, r + 1, n);
    } else {
      ModUnique(v as int + 1, q + 1, 0, n);
      ModUnique(r + 1, 1, 0, n);
    }
  }

  /** Two consecutive calls on lists of the same length `n`: indices `i` and `(i + 1) mod n`. */
  lemma ConsecutivePicks<Pod>(v: u64, first: seq<Pod>, second: seq<Pod>)
    requires |first| > 0 && |first| == |second| && v as int < Max
    ensures var i := Slot(v, |first|);
      Step(v, first).0 == Some(first[i]) &&
      Step(Step(v, first).1, second).0 == Some(second[(i + 1) % |second|])
  {
    NextSlot(v, |first|);
  }

  /** Picking twice from the same list of two or more candidates gives two different positions. */
  lemma TwiceDiffers(v: u64, n: nat)
    requires n >= 2 && v as int < Max
    ensures Slot(v, n) != Slot(WrapAdd(v, 1), n)
  {
    NextSlot(v, n);
    var i := Slot(v, n);
    if i + 1 < n {
      ModUnique(i + 1, 0, i + 1, n);
    } else {
      ModUnique(i + 1, 1, 0, n);
    }
  }

  /** At the wrap point the rotation is broken for a length that does not divide 2^64:
      with three candidates, counter 2^64-1 and the wrapped counter 0 both pick index 0. */
  lemma WrapPointRepeats()
    ensures Slot(Max as u64, 3) == 0 && Slot(WrapAdd(Max as u64, 1), 3) == 0
  {
  }

  /** With a single candidate every pick returns it, from any counter, across any calls. */
  lemma RunSingletons<Pod>(v: u64, calls: seq<seq<Pod>>)
    requires forall j :: 0 <= j < |calls| ==> |calls[j]| == 1
    ensures forall j :: 0 <= j < |calls| ==> Run(v, calls).0[j] == Some(calls[j][0])
  {
    RunNonEmpty(v, calls);
  }

  /** Concatenating two runs of calls. */
  lemma {:induction false} RunAppend<Pod>(v: u64, a: seq<seq<Pod>>, b: seq<seq<Pod>>)
    ensures Run(v, a + b) == (Run(v, a).0 + Run(Run(v, a).1, b).0, Run(Run(v, a).1, b).1)
    decreases |a|
  {
    if |a| == 0 {
      assert a + b == b;
      assert Run(v, a) == ([], v);
      assert [] + Run(v, b).0 == Run(v, b).0;
    } else {
      var first := Step(v, a[0]);
      var mid := Run(first.1, a[1..]).1;
      assert (a + b)[0] == a[0];
      assert (a + b)[1..] == a[1..] + b;
      RunAppend(first.1, a[1..], b);
      assert Run(v, a).1 == mid;
      assert Run(v, a + b).0 == [first.0] + (Run(first.1, a[1..]).0 + Run(mid, b).0);
      assert [first.0] + (Run(first.1, a[1..]).0 + Run(mid, b).0)
          == ([first.0] + Run(first.1, a[1..]).0) + Run(mid, b).0;
    }
  }

  /** An empty list in between yields no pod and leaves every later pick as it would have been. */
  lemma EmptyCallSkipped<Pod>(v: u64, a: seq<seq<Pod>>, b: seq<seq<Pod>>)
    ensures Run(v, a + [[]] + b).0 == Run(v, a + b).0[..|a|] + [None] + Run(v, a + b).0[|a|..]
    ensures Run(v, a + [[]] + b).1 == Run(v, a + b).1
  {
    var mid := Run(v, a).1;
    assert a + [[]] + b == a + ([[]] + b);
    RunAppend(v, a, [[]] + b);
    RunAppend(v, a, b);
    assert ([[]] + b)[1..] == b;
    assert Run(mid, [[]] + b) == ([None] + Run(mid, b).0, Run(mid, b).1);
  }

  /** Over `n` calls on one list of length `n` with no wrap-around, every position is picked:
      position `i` at call `(i - v) mod n`. */
  lemma CycleVisitsEvery<Pod>(v: u64, pods: seq<Pod>, i: nat)
    requires i < |pods| && v as int + |pods| <= Modulus
    ensures var j := (i - v as int) % |pods|;
      j < |pods| && Run(v, seq(|pods|, _ => pods)).0[j] == Some(pods[i])
  {
    var n := |pods|;
    var calls := seq(n, _ => pods);
    RunSameLength(v, calls, n);
    var j := (i - v as int) % n;
    assert calls[j] == pods;
    CycleArith(v as int, n, i);
  }

  /** Starting `(i - v) mod n` steps after `v` lands on `i`. */
  lemma CycleArith(v: int, n: nat, i: nat)
    requires i < n
    ensures (v + (i - v) % n) % n == i
  {
    var j := (i - v) % n;
    var q := (i - v) / n;
    assert i - v == q * n + j;
    ModUnique(v + j, -q, i, n);
  }

  /** ...and no position twice: within one cycle the indices are pairwise distinct. */
  lemma CycleIndicesDistinct(v: int, n: nat, j1: nat, j2: nat)
    requires j1 < j2 < n
    ensures (v + j1) % n != (v + j2) % n
  {
    var q, r := (v + j1) / n, (v + j1) % n;
    assert v + j1 == q * n + r;
    if r + (j2 - j1) < n {
      ModUnique(v + j2, q, r + (j2 - j1), n);
    } else {
      ModUnique(v + j2, q + 1, r + (j2 - j1) - n, n);
    }
  }

  /** A fresh picker handed `[a, b, c]` four times, then an empty list, then `[x, y]`:
      `a, b, c, a`, no pod, and `x` (the counter is 4 and `4 mod 2 == 0`). */
  method FreshPickerScenario<Pod>(a: Pod, b: Pod, c: Pod, x: Pod, y: Pod) returns (picks: seq<Option<Pod>>)
    ensures picks == [Some(a), Some(b), Some(c), Some(a), None, Some(x)]
  {
    var p := new RoundRobinPicker();
    var r1 := p.Pick([a, b, c]);
    var r2 := p.Pick([a, b, c]);
    var r3 := p.Pick([a, b, c]);
    var r4 := p.Pick([a, b, c]);
    var r5 := p.Pick([]);
    var r6 := p.Pick([x, y]);
    picks := [r1, r2, r3, r4, r5, r6];
  }
}
