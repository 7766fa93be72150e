/** The `Project` component: a carousel over a fixed list of reviews.
    Its state is the cursor `review` and the two stored "disabled" flags;
    an effect that runs after every render re-derives the flags from the
    cursor. The user can press "previous", "next" (each gated by its flag)
    and "surprise me" (never gated). */
module Project {
  import opened JsValues
  import ArrowButton

  /** One record of the review list (`ReviewProps`). */
  datatype Review = Review(id: int, name: string, job: string, image: string, text: string)

  /** The class name the effect stores in a flag to disable its button. */
  const DisabledClass: string := "fill-red-400"

  /** A value `Math.random()` can return: a real in [0, 1). */
  type RandomUnit = r: real | 0.0 <= r < 1.0

  /** What the user can do: press one of the three buttons. `SurpriseMe`
      carries the number `Math.random()` returned for that press. */
  datatype Action = Previous | Next | SurpriseMe(r: RandomUnit)

  /** The component's state. `count` is the length of the review list,
      which the component never changes. */
  datatype Carousel = Carousel(review: int, disabledLeft: JsValue, disabledRight: JsValue, count: nat)

  /** The flag the effect stores for the "previous" button. */
  function DisabledLeft(review: int): (v: JsValue)
    ensures Truthy(v) <==> review == 0
    ensures v == Str(DisabledClass) || v == Bool(false)
  {
    if review == 0 then Str(DisabledClass) else Bool(false)
  }

  /** The flag the effect stores for the "next" button. */
  function DisabledRight(review: int, count: nat): (v: JsValue)
    ensures Truthy(v) <==> review == count - 1
    ensures v == Str(DisabledClass) || v == Bool(false)
  {
    if review == count - 1 then Str(DisabledClass) else Bool(false)
  }

  /** The stored flags agree with the cursor, as they do once the effect has run. */
  predicate Synced(c: Carousel) {
    c.disabledLeft == DisabledLeft(c.review) && c.disabledRight == DisabledRight(c.review, c.count)
  }

  /** The carousel invariant: the list is non-empty, the cursor indexes it,
      and the flags agree with the cursor. */
  predicate Valid(c: Carousel) {
    c.count >= 1 && 0 <= c.review < c.count && Synced(c)
  }

  /** The state right after mounting, before the first effect: the cursor
      is 0 and the flags hold their `useState` initial values. */
  function Mount(count: nat): (c: Carousel)
    ensures c.review == 0 && c.count == count
    ensures Truthy(c.disabledLeft) && !Truthy(c.disabledRight)
  {
    Carousel(0, Bool(true), Bool(false), count)
  }

  /** The effect: recompute both flags from the cursor; nothing else changes. */
  function Effect(c: Carousel): (r: Carousel)
    ensures r.review == c.review && r.count == c.count
    ensures Synced(r)
    ensures Synced(c) ==> r == c
  {
    c.(disabledLeft := DisabledLeft(c.review), disabledRight := DisabledRight(c.review, c.count))
  }

  /** The state the user first sees: mounted, then the effect has run. */
  function Start(count: nat): (c: Carousel)
    ensures c.review == 0 && c.count == count && Synced(c)
    ensures count >= 1 ==> Valid(c)
    ensures Truthy(c.disabledLeft)
    ensures Truthy(c.disabledRight) <==> count == 1
  {
    Effect(Mount(count))
  }

  /** The index "surprise me" selects: `Math.floor(r * count)`. */
  function RandomIndex(r: RandomUnit, count: nat): (k: int)
    ensures count >= 1 ==> 0 <= k < count
    ensures count == 0 ==> k == 0
  {
    var x := r * count as real;
    assert 0.0 <= x by {
      assert 0.0 <= r && 0.0 <= count as real;
    }
    assert count >= 1 ==> x < count as real by {
      if count >= 1 {
        assert (1.0 - r) * (count as real) > 0.0;
      }
    }
    x.Floor
  }

  /** Whether the button for `a` is enabled, i.e. `!!isDisabled` is false. */
  predicate Enabled(c: Carousel, a: Action) {
    match a
    case Previous => !Truthy(c.disabledLeft)
    case Next => !Truthy(c.disabledRight)
    case SurpriseMe(_) => true
  }

  /** A press, before the re-render: the button's handler runs only when
      the button is enabled, and the handlers themselves check no bounds. */
  function Click(c: Carousel, a: Action): (r: Carousel)
    ensures r.count == c.count
    ensures r.disabledLeft == c.disabledLeft && r.disabledRight == c.disabledRight
    ensures !Enabled(c, a) ==> r == c
  {
    match a
    case Previous => c.(review := ArrowButton.Press(c.disabledLeft, c.review, c.review - 1))
    case Next => c.(review := ArrowButton.Press(c.disabledRight, c.review, c.review + 1))
    case SurpriseMe(x) => c.(review := RandomIndex(x, c.count))
  }

  /** One user event: the press, then the re-render and its effect. */
  function Step(c: Carousel, a: Action): (r: Carousel)
    ensures r.count == c.count && Synced(r)
    ensures Valid(c) ==> Valid(r)
  {
    Effect(Click(c, a))
  }

  /** The state after a sequence of events, handled one at a time. */
  function Run(c: Carousel, actions: seq<Action>): (r: Carousel)
    ensures r.count == c.count
    decreases |actions|
  {
    if |actions| == 0 then c else Run(Step(c, actions[0]), actions[1..])
  }

  /** `n` presses of "next". */
  function Nexts(n: nat): (s: seq<Action>)
    ensures |s| == n
    ensures forall i :: 0 <= i < n ==> s[i] == Next
  {
    if n == 0 then [] else [Next] + Nexts(n - 1)
  }

  /** The review the component renders for state `c` (`reviews[review]`). */
  function CurrentReview(reviews: seq<Review>, c: Carousel): (r: Review)
    requires Valid(c) && c.count == |reviews|
    ensures r in reviews
  {
    reviews[c.review]
  }

  /** Sequential dispatch, the role the browser's event loop plays for the
      component: each press runs to completion, with its re-render and
      effect, before the next one is handled. */
  method HandleEvents(start: Carousel, events: seq<Action>) returns (c: Carousel)
    requires Valid(start)
    ensures Valid(c) && c.count == start.count
    ensures c == Run(start, events)
  {
    c := start;
    var i := 0;
    while i < |events|
      invariant 0 <= i <= |events|
      invariant Valid(c) && c.count == start.count
      invariant Run(c, events[i..]) == Run(start, events)
    {
      assert events[i..][0] == events[i] && events[i..][1..] == events[i + 1..];
      c := Step(c, events[i]);
      i := i + 1;
    }
    assert events[i..] == [];
  }

  // ----- Properties -----

  /** In a valid state "previous" is enabled exactly when cursor > 0 and
      "next" exactly when cursor < count - 1; "surprise me" is always
      enabled. */
  lemma EnabledIff(c: Carousel)
    requires Valid(c)
    ensures Enabled(c, Previous) <==> c.review > 0
    ensures Enabled(c, Next) <==> c.review < c.count - 1
    ensures forall r: RandomUnit :: Enabled(c, SurpriseMe(r))
  {
  }

  /** What one event does to a synced state: an enabled "previous" moves
      the cursor by exactly -1, an enabled "next" by exactly +1, "surprise
      me" jumps to `RandomIndex`, and a disabled button changes nothing. */
  lemma StepMoves(c: Carousel, a: Action)
    requires Synced(c)
    ensures !Enabled(c, a) ==> Step(c, a) == c
    ensures a == Previous && Enabled(c, a) ==> Step(c, a).review == c.review - 1
    ensures a == Next && Enabled(c, a) ==> Step(c, a).review == c.review + 1
    ensures a.SurpriseMe? ==> Step(c, a).review == RandomIndex(a.r, c.count)
    ensures Step(c, a).count == c.count
  {
  }

  /** "previous" is unreachable on the first review and "next" on the last. */
  lemma BoundaryPressesIgnored(c: Carousel)
    requires Valid(c)
    ensures c.review == 0 ==> Step(c, Previous) == c
    ensures c.review == c.count - 1 ==> Step(c, Next) == c
  {
  }

  /** Any sequence of events keeps the invariant. */
  lemma {:induction false} RunPreservesValid(c: Carousel, actions: seq<Action>)
    requires Valid(c)
    ensures Valid(Run(c, actions))
    decreases |actions|
  {
    if |actions| > 0 {
      RunPreservesValid(Step(c, actions[0]), actions[1..]);
    }
  }

  /** From the state the user first sees, the lookup `reviews[review]` is
      in bounds after every sequence of events. */
  lemma LookupInBounds(reviews: seq<Review>, actions: seq<Action>)
    requires |reviews| >= 1
    ensures 0 <= Run(Start(|reviews|), actions).review < |reviews|
  {
    RunPreservesValid(Start(|reviews|), actions);
  }

  /** The review on screen after any sequence of events from mount. */
  function Displayed(reviews: seq<Review>, actions: seq<Action>): (r: Review)
    requires |reviews| >= 1
    ensures r in reviews
  {
    RunPreservesValid(Start(|reviews|), actions);
    CurrentReview(reviews, Run(Start(|reviews|), actions))
  }

  /** Every index is reachable by one "surprise me" press: the random
      number k / count selects review k. */
  lemma RandomIndexCovers(count: nat, k: int)
    requires 0 <= k < count
    ensures 0.0 <= (k as real) / (count as real) < 1.0
    ensures RandomIndex((k as real) / (count as real), count) == k
  {
  }

  /** Pressing "next" j times walks the cursor forward by exactly j when
      the last review is not passed. */
  lemma {:induction false} NextsWalk(c: Carousel, j: nat)
    requires Valid(c) && c.review + j < c.count
    ensures Run(c, Nexts(j)).review == c.review + j
    decreases j
  {
    if j > 0 {
      assert Nexts(j)[0] == Next && Nexts(j)[1..] == Nexts(j - 1);
      StepMoves(c, Next);
      NextsWalk(Step(c, Next), j - 1);
    }
  }

  /** Reachability: an index is the cursor after some sequence of events
      from the first screen exactly when it is a valid index. */
  lemma ReachableIffIndex(count: nat, k: int)
    requires count >= 1
    ensures (exists actions: seq<Action> :: Run(Start(count), actions).review == k) <==> 0 <= k < count
  {
    if 0 <= k < count {
      NextsWalk(Start(count), k);
      assert Run(Start(count), Nexts(k)).review == k;
    }
    forall actions: seq<Action> | Run(Start(count), actions).review == k
      ensures 0 <= k < count
    {
      RunPreservesValid(Start(count), actions);
    }
  }

  /** With a single review both buttons stay disabled and every event
      leaves the first screen as it is. */
  lemma {:induction false} SingleReviewIsFixed(actions: seq<Action>)
    ensures Run(Start(1), actions) == Start(1)
    decreases |actions|
  {
    if |actions| > 0 {
      var a := actions[0];
      StepMoves(Start(1), a);
      if a.SurpriseMe? {
        assert RandomIndex(a.r, 1) == 0;
      }
      assert Step(Start(1), a) == Start(1);
      SingleReviewIsFixed(actions[1..]);
    }
  }

  /** The mounted flags are not the derived ones for a single review: before
      the first effect "next" is enabled, after it both buttons are disabled. */
  lemma MountFlagsBeforeEffect()
    ensures Enabled(Mount(1), Next) && !Enabled(Start(1), Next)
    ensures !Enabled(Mount(1), Previous) && !Enabled(Start(1), Previous)
  {
  }

  /** The invariant needs a non-empty list: with no reviews "next" is
      enabled on the first screen and moves the cursor to 1. */
  lemma EmptyListEscapes()
    ensures Enabled(Start(0), Next)
    ensures Run(Start(0), [Next]).review == 1
  {
  }

  /** The three-review walk-through: next, next, a refused next, then
      previous twice returns to the first review. */
  lemma ThreeReviewScenario()
    ensures var s0 := Start(3);
      && !Enabled(s0, Previous) && Enabled(s0, Next)
      && var s1 := Step(s0, Next);
      && s1.review == 1 && Enabled(s1, Previous) && Enabled(s1, Next)
      && var s2 := Step(s1, Next);
      && s2.review == 2 && !Enabled(s2, Next)
      && Step(s2, Next) == s2
      && Step(Step(s2, Previous), Previous).review == 0
  {
  }
}
