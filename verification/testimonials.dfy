/** The testimonial slider (script.js:383-404). Each `.testimonial-card` is
    either displayed with the fade-in animation or hidden; the 5000 ms
    auto-play interval is abstracted into discrete ticks. */
module Testimonials {

  /** One card's inline style: `display` is `''` (visible) or `none`, and
      `animation` is the fade-in or `''`. */
  datatype Card = Card(visible: bool, fading: bool)

  /** The slider: the index `currentTestimonial` and the cards in order. */
  datatype Slider = Slider(current: nat, cards: seq<Card>)

  /** `showTestimonial(index)`: exactly the card at `index` is displayed, and
      only it carries the fade-in animation. */
  function Show(cards: seq<Card>, index: int): (r: seq<Card>)
    ensures |r| == |cards|
    ensures forall i :: 0 <= i < |r| ==> r[i].visible == (i == index) && r[i].fading == (i == index)
  {
    seq(|cards|, i requires 0 <= i < |cards| => Card(i == index, i == index))
  }

  /** What the page shows after loading: with at least one card, card 0;
      with none, the slider is never started. */
  function Init(cards: seq<Card>): (s: Slider)
    ensures s.current == 0 && |s.cards| == |cards|
    ensures |cards| == 0 ==> s.cards == cards
  {
    if |cards| == 0 then Slider(0, cards) else Slider(0, Show(cards, 0))
  }

  /** The slider invariant: the index names a card, and that card alone is
      visible and fading in. */
  predicate Valid(s: Slider) {
    && s.current < |s.cards|
    && (forall i :: 0 <= i < |s.cards| ==>
          s.cards[i].visible == (i == s.current) && s.cards[i].fading == (i == s.current))
  }

  /** `nextTestimonial`, scheduled only when there is a card. */
  function Next(s: Slider): (s': Slider)
    requires |s.cards| > 0
    ensures s'.current == (s.current + 1) % |s.cards| && |s'.cards| == |s.cards|
  {
    var i := (s.current + 1) % |s.cards|;
    Slider(i, Show(s.cards, i))
  }

  lemma InitValid(cards: seq<Card>)
    requires |cards| > 0
    ensures Valid(Init(cards))
  {
  }

  /** `nextTestimonial` keeps the invariant. */
  lemma NextValid(s: Slider)
    requires |s.cards| > 0
    ensures Valid(Next(s))
  {
  }

  /** The slider after `k` auto-play ticks from loading. */
  function After(cards: seq<Card>, k: nat): (s: Slider)
    requires |cards| > 0
    ensures |s.cards| == |cards|
    decreases k
  {
    if k == 0 then Init(cards) else Next(After(cards, k - 1))
  }

  /** After `k` ticks the slider shows card `k mod n`, and only it. */
  lemma {:induction false} AfterShows(cards: seq<Card>, k: nat)
    requires |cards| > 0
    ensures After(cards, k).current == k % |cards|
    ensures Valid(After(cards, k))
    decreases k
  {
    var n := |cards|;
    if k > 0 {
      AfterShows(cards, k - 1);
      var c := (k - 1) % n;
      assert (c + 1) % n == k % n by {
        ModSucc(k - 1, n);
      }
      NextValid(After(cards, k - 1));
    }
  }

  lemma {:induction false} MulAtLeast(d: nat, n: nat)
    requires d >= 1
    ensures d * n >= n
    decreases d
  {
    if d > 1 {
      MulAtLeast(d - 1, n);
      assert d * n == (d - 1) * n + n;
    }
  }

  /** Euclidean division has one remainder. */
  lemma ModUnique(x: int, n: int, q: int, r: int)
    requires n > 0 && 0 <= r < n && x == q * n + r
    ensures x % n == r
  {
    var q' := x / n;
    var r' := x % n;
    assert x == q' * n + r';
    var d := q - q';
    assert d * n == q * n - q' * n;
    assert d * n == r' - r;
    if d >= 1 {
      MulAtLeast(d, n);
    } else if d <= -1 {
      MulAtLeast(-d, n);
    }
  }

  lemma ModSucc(k: nat, n: nat)
    requires n > 0
    ensures (k % n + 1) % n == (k + 1) % n
  {
    var q := k / n;
    var r := k % n;
    assert k == q * n + r;
    if r + 1 == n {
      ModUnique(k + 1, n, q + 1, 0);
      ModUnique(r + 1, n, 1, 0);
    } else {
      ModUnique(k + 1, n, q, r + 1);
      ModUnique(r + 1, n, 0, r + 1);
    }
  }

  /** Adding the modulus does not change the remainder. */
  lemma ModShift(k: nat, n: nat)
    requires n > 0
    ensures (k + n) % n == k % n
  {
    var q := k / n;
    var r := k % n;
    assert k == q * n + r;
    assert k + n == (q + 1) * n + r;
    ModUnique(k + n, n, q + 1, r);
  }

  /** The rotation is periodic: after `n` more ticks the page is as it was. */
  lemma Periodic(cards: seq<Card>, k: nat)
    requires |cards| > 0
    ensures After(cards, k + |cards|) == After(cards, k)
  {
    var n := |cards|;
    AfterShows(cards, k);
    AfterShows(cards, k + n);
    ModShift(k, n);
    var a := After(cards, k + n);
    var b := After(cards, k);
    assert a.cards == b.cards;
  }
}
