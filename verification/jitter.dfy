/** The jitter oscillator of `jitterCounter` (script.js:39-53): once a speed
    counter has settled on its base value, every interval tick writes either
    `base + 1` or `base` and flips a toggle flag. The 1000 ms interval is
    abstracted into discrete ticks. */
module Jitter {

  /** One running oscillator: the settled integer and the toggle flag. */
  datatype Oscillator = Oscillator(base: int, toggled: bool)

  /** A freshly started oscillator: the flag starts cleared. */
  function Start(base: int): (o: Oscillator)
    ensures o.base == base && !o.toggled
  {
    Oscillator(base, false)
  }

  /** The value one tick writes: `base` when toggled, `base + 1` otherwise. */
  function Shown(o: Oscillator): int {
    if o.toggled then o.base else o.base + 1
  }

  /** One interval tick: write `Shown(o)`, then flip the flag. */
  function Tick(o: Oscillator): (r: (int, Oscillator))
    ensures r.1.base == o.base && r.1.toggled != o.toggled
    ensures r.0 == o.base || r.0 == o.base + 1
    ensures r.0 != Shown(r.1)
  {
    (Shown(o), o.(toggled := !o.toggled))
  }

  /** The values written by `k` successive ticks starting from `o`. */
  function Run(o: Oscillator, k: nat): (w: seq<int>)
    ensures |w| == k
    decreases k
  {
    if k == 0 then [] else [Tick(o).0] + Run(Tick(o).1, k - 1)
  }

  /** Closed form of `Run`: tick `i` shows `base + 1` exactly when the flag,
      flipped `i` times from its starting value, is cleared. */
  lemma {:induction false} RunClosedForm(o: Oscillator, k: nat)
    ensures forall i :: 0 <= i < k ==>
      Run(o, k)[i] == (if (i % 2 == 0) != o.toggled then o.base + 1 else o.base)
    decreases k
  {
    if k > 0 {
      var o' := Tick(o).1;
      RunClosedForm(o', k - 1);
      forall i | 0 <= i < k
        ensures Run(o, k)[i] == (if (i % 2 == 0) != o.toggled then o.base + 1 else o.base)
      {
        if i > 0 {
          assert Run(o, k)[i] == Run(o', k - 1)[i - 1];
          assert ((i - 1) % 2 == 0) == (i % 2 != 0);
        }
      }
    }
  }

  /** A started oscillator shows `base + 1, base, base + 1, base, ...`:
      tick `i` shows `base + 1` when `i` is even and `base` when it is odd. */
  lemma StartedAlternates(base: int, k: nat)
    ensures forall i :: 0 <= i < k ==>
      Run(Start(base), k)[i] == (if i % 2 == 0 then base + 1 else base)
  {
    RunClosedForm(Start(base), k);
  }

  /** Successive ticks never repeat a value, and every other tick repeats. */
  lemma StrictlyAlternates(base: int, k: nat)
    ensures forall i :: 0 <= i < k - 1 ==> Run(Start(base), k)[i] != Run(Start(base), k)[i + 1]
    ensures forall i :: 0 <= i < k - 2 ==> Run(Start(base), k)[i] == Run(Start(base), k)[i + 2]
  {
    StartedAlternates(base, k);
    var w := Run(Start(base), k);
    forall i | 0 <= i < k - 1
      ensures w[i] != w[i + 1]
    {
      assert (i % 2 == 0) != ((i + 1) % 2 == 0);
    }
    forall i | 0 <= i < k - 2
      ensures w[i] == w[i + 2]
    {
      assert (i % 2 == 0) == ((i + 2) % 2 == 0);
    }
  }
}
