/**
 * The round-robin picker: a counter that starts at 0 and, on every pick from a
 * non-empty candidate list, selects the candidate at `counter mod length` and
 * advances by one (wrapping at 2^64).
 */
module Picker {
  import opened Wrappers
  import opened Uint64

  /** The identifier under which the picker is registered. */
  const RoundRobinName: string := "roundrobin"

  /** The index a pick uses: `int(current % uint64(n))`. Both conversions are exact for
      every length a Go slice can have, so this is `current mod n`. */
  function Slot(current: u64, n: nat): (i: nat)
    requires n > 0
    ensures i < n
  {
    current as int % n
  }

  /** Division with remainder has one answer: a value written as `q * n + r` with
      `0 <= r < n` leaves remainder `r`. */
  lemma ModUnique(x: int, q: int, r: int, n: int)
    requires n > 0 && 0 <= r < n && x == q * n + r
    ensures x % n == r
  {
    var q', r' := x / n, x % n;
    assert x == q' * n + r';
    assert (q - q') * n == r' - r;
    SmallMultiple(q - q', n);
  }

  /** The only multiple of `n` strictly between `-n` and `n` is 0. */
  lemma SmallMultiple(d: int, n: int)
    requires n > 0 && -n < d * n < n
    ensures d == 0
  {
  }

  /** One transition of the picker from counter `v` on the list `pods`: what it returns and
      the counter it leaves behind. */
  function Step<Pod>(v: u64, pods: seq<Pod>): (out: (Option<Pod>, u64))
    ensures out.0.None? <==> |pods| == 0
    ensures out.0.Some? ==> out.0.value in pods
    ensures |pods| == 0 ==> out.1 == v
    ensures |pods| > 0 ==> out.1 != v && WrapSub(out.1, 1) == v
  {
    if |pods| == 0 then (None, v)
    else (Some(pods[Slot(v, |pods|)]), WrapAdd(v, 1))
  }

  class RoundRobinPicker {
    /** The position of the next pick, before reduction modulo the list length. */
    var currentIndex: u64

    /** The zero value `RoundRobinPicker{}`. */
    constructor ()
      ensures currentIndex == 0
    {
      currentIndex := 0;
    }

    function Name(): (s: string)
      ensures s == RoundRobinName
    {
      RoundRobinName
    }

    /** Picks one of `pods`. The fetch-and-add is one sequential step: store the
        incremented counter, then take back the value it had before. */
    method Pick<Pod>(pods: seq<Pod>) returns (r: Option<Pod>)
      modifies this`currentIndex
      ensures (r, currentIndex) == Step(old(currentIndex), pods)
      ensures |pods| == 0 ==> r == None && currentIndex == old(currentIndex)
      ensures |pods| > 0 ==> r == Some(pods[old(currentIndex) as int % |pods|])
      ensures |pods| > 0 ==> currentIndex as int == (old(currentIndex) as int + 1) % Modulus
    {
      if |pods| == 0 {
        return None;
      }
      currentIndex := WrapAdd(currentIndex, 1);
      var current := WrapSub(currentIndex, 1);
      var index := Slot(current, |pods|);
      r := Some(pods[index]);
    }
  }
}
