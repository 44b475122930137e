/** Choosing the environment of a task by its scores and a mask. */
module EnvSelectors {
  import opened Commons

  datatype Env = Route | Worker | Aps | RouteBkg
  datatype Broker = Redis | RabbitMq
  datatype Entry = Entry(env: Env, score: real)
  datatype Choice = Chosen(env: Env) | IndexError | ValueError | ZeroDivisionError

  const ENVS: seq<Env> := [Route, Worker, Aps, RouteBkg]

  function Abs(x: real): (r: real)
    ensures r >= 0.0 && (r == x || r == -x)
  {
    if x < 0.0 then -x else x
  }

  /** Worker share of the load: alive workers, their ratio to the expected ones, the weight. */
  method ComputePValues(alive: int, expected: int, weight: real) returns (p1: int, p2: real, p3: real)
    ensures p1 >= 0 && (alive >= 0 ==> p1 == alive) && p3 == weight && p2 >= 0.0
    ensures expected > 0 ==> p2 * (expected as real) == p1 as real
    ensures expected <= 0 ==> p2 == 0.0
  {
    p1 := if alive > 0 then alive else 0;
    p2 := if expected > 0 then (p1 as real) / (expected as real) else 0.0;
    p3 := weight;
  }

  /** The score of an environment before the broker counts. */
  function BaseScore(env: Env, p1: real, p2: real, p3: real): real {
    match env
    case Route => 0.2 * (1.0 - p2) - 1.4 * p3
    case Worker => 2.0 * p1 + 4.0 * p2 - Abs(p3 - 5.0)
    case Aps => 1.6 * p3 + 2.0 * (1.0 - p1) + 2.5 * (1.0 - p2)
    case RouteBkg => 1.0 - p2 - Abs(p3 - 3.0)
  }

  /** What the broker adds: RabbitMQ favours the worker over APS, by the weight of the task;
      Redis favours APS and the background over the worker, for weights from the threshold on. */
  function Adjustment(env: Env, broker: Broker, threshold: real, p3: real): real {
    match (broker, env)
    case (RabbitMq, Worker) => 1.2 * p3
    case (RabbitMq, Aps) => -0.6 * p3
    case (Redis, Worker) => if p3 >= threshold then -1.5 * p3 else 0.0
    case (Redis, Aps) => if p3 >= threshold then p3 else 0.0
    case (Redis, RouteBkg) => if p3 >= threshold then 0.5 else 0.0
    case _ => 0.0
  }

  function Score(env: Env, broker: Broker, threshold: real, p1: real, p2: real, p3: real): real {
    BaseScore(env, p1, p2, p3) + Adjustment(env, broker, threshold, p3)
  }

  /** The scores in the order of `ENVS`. */
  method ComputeScores(broker: Broker, threshold: real, p1: real, p2: real, p3: real) returns (scores: seq<real>)
    ensures |scores| == |ENVS|
    ensures forall i :: 0 <= i < |ENVS| ==> scores[i] == Score(ENVS[i], broker, threshold, p1, p2, p3)
  {
    var route := -p3 * 1.4 + (1.0 - p2) * 0.2;
    var worker := 2.0 * p1 + 4.0 * p2 - Abs(p3 - 5.0);
    var background := -Abs(p3 - 3.0) + (1.0 - p2);
    var aps := p3 * 1.6 + (1.0 - p1) * 2.0 + (1.0 - p2) * 2.5;
    if broker == Redis {
      if p3 >= threshold {
        worker := worker - p3 * 1.5;
        aps := aps + p3 * 1.0;
        background := background + 0.5;
      }
    } else {
      worker := worker + p3 * 1.2;
      aps := aps - 0.6 * p3;
    }
    scores := [route, worker, aps, background];
  }

  /** `a` scores at least as high as `b`. */
  predicate Leads(a: Env, b: Env, broker: Broker, threshold: real, p1: real, p2: real, p3: real) {
    Score(a, broker, threshold, p1, p2, p3) >= Score(b, broker, threshold, p1, p2, p3)
  }

  /** The selectors look at differences of scores only; these are all of them.  A worker more, or a
      larger share of workers alive, speaks for the worker and against the scheduler APS; a
      weight away from 5 speaks against the worker, one away from 3 against the background. */
  lemma Differences(broker: Broker, threshold: real, p1: real, p2: real, p3: real)
    ensures var s := (env: Env) => Score(env, broker, threshold, p1, p2, p3);
      var long := broker == Redis && p3 >= threshold;
      && s(Worker) - s(Aps) == 4.0 * p1 + 6.5 * p2 - Abs(p3 - 5.0) - 4.5
                               + p3 * (if broker == RabbitMq then 0.2 else if long then -4.1 else -1.6)
      && s(Aps) - s(RouteBkg) == 3.5 - 2.0 * p1 - 1.5 * p2 + Abs(p3 - 3.0)
                                 + (if broker == RabbitMq then p3 else if long then 2.6 * p3 - 0.5 else 1.6 * p3)
      && s(RouteBkg) - s(Route) == 0.8 * (1.0 - p2) - Abs(p3 - 3.0) + 1.4 * p3 + (if long then 0.5 else 0.0)
  {
  }

  /** Redis never lifts the worker: whatever it leads under Redis it leads under RabbitMQ, and
      whatever leads it under RabbitMQ leads it under Redis. */
  lemma RedisNeverLiftsWorker(env: Env, threshold: real, p1: real, p2: real, p3: real)
    requires p3 >= 0.0
    ensures Leads(Worker, env, Redis, threshold, p1, p2, p3) ==> Leads(Worker, env, RabbitMq, threshold, p1, p2, p3)
    ensures Leads(env, Worker, RabbitMq, threshold, p1, p2, p3) ==> Leads(env, Worker, Redis, threshold, p1, p2, p3)
  {
    assert Adjustment(Worker, Redis, threshold, p3) <= 0.0 <= Adjustment(Worker, RabbitMq, threshold, p3);
    assert env == Worker || Adjustment(env, Redis, threshold, p3) >= Adjustment(env, RabbitMq, threshold, p3);
  }

  /** What APS leads under RabbitMQ it leads under Redis, whatever the workers do. */
  ghost predicate ApsKeepsLead(threshold: real, p3: real) {
    forall env, p1, p2 :: Leads(Aps, env, RabbitMq, threshold, p1, p2, p3) ==> Leads(Aps, env, Redis, threshold, p1, p2, p3)
  }

  /** It keeps every lead exactly for weights below the threshold and from 0.3125 on: a lighter
      task over the threshold can lose APS to the background, whose bonus does not depend
      on the weight. */
  lemma ApsKeepsLeadIff(threshold: real, p3: real)
    requires p3 >= 0.0
    ensures ApsKeepsLead(threshold, p3) <==> p3 < threshold || p3 >= 0.3125
  {
    if p3 < threshold || p3 >= 0.3125 {
      forall env, p1, p2 | Leads(Aps, env, RabbitMq, threshold, p1, p2, p3)
        ensures Leads(Aps, env, Redis, threshold, p1, p2, p3)
      {
        assert Adjustment(Aps, Redis, threshold, p3) - Adjustment(Aps, RabbitMq, threshold, p3)
            >= Adjustment(env, Redis, threshold, p3) - Adjustment(env, RabbitMq, threshold, p3);
      }
    } else {
      var share := 1.0 / 3.0;
      assert Leads(Aps, RouteBkg, RabbitMq, threshold, 3.0, share, p3);
      assert !Leads(Aps, RouteBkg, Redis, threshold, 3.0, share, p3);
    }
  }

  /* ---------- the mask ---------- */

  predicate Allowed(mask: seq<int>, env: Env) {
    exists i :: 0 <= i < |ENVS| && i < |mask| && ENVS[i] == env && mask[i] == 1
  }

  /** The scored environments with a 1 in the mask, from the i-th on. */
  function Masked(scores: seq<real>, mask: seq<int>, i: nat): seq<Entry>
    requires i <= |ENVS| == |scores| <= |mask|
    decreases |ENVS| - i
  {
    if i == |ENVS| then []
    else (if mask[i] == 1 then [Entry(ENVS[i], scores[i])] else []) + Masked(scores, mask, i + 1)
  }

  lemma {:induction false} MaskedAreAllowed(scores: seq<real>, mask: seq<int>, i: nat, k: nat)
    requires i <= |ENVS| == |scores| <= |mask|
    requires k < |Masked(scores, mask, i)|
    ensures var e := Masked(scores, mask, i)[k];
      exists j :: i <= j < |ENVS| && ENVS[j] == e.env && mask[j] == 1 && scores[j] == e.score
    decreases |ENVS| - i
  {
    if mask[i] == 1 && k == 0 {
      assert ENVS[i] == Masked(scores, mask, i)[0].env;
    } else {
      MaskedAreAllowed(scores, mask, i + 1, if mask[i] == 1 then k - 1 else k);
    }
  }

  lemma {:induction false} AllowedAreMasked(scores: seq<real>, mask: seq<int>, i: nat, j: nat)
    requires i <= j < |ENVS| == |scores| <= |mask| && mask[j] == 1
    ensures Entry(ENVS[j], scores[j]) in Masked(scores, mask, i)
    decreases |ENVS| - i
  {
    if i < j {
      AllowedAreMasked(scores, mask, i + 1, j);
    }
  }

  /** Something is left exactly when the mask has a 1. */
  lemma MaskedIffAllowed(scores: seq<real>, mask: seq<int>)
    requires |ENVS| == |scores| <= |mask|
    ensures Masked(scores, mask, 0) != [] <==> exists env :: Allowed(mask, env)
  {
    if Masked(scores, mask, 0) != [] {
      MaskedAreAllowed(scores, mask, 0, 0);
      assert Allowed(mask, Masked(scores, mask, 0)[0].env);
    }
    if env :| Allowed(mask, env) {
      var j :| 0 <= j < |ENVS| && j < |mask| && ENVS[j] == env && mask[j] == 1;
      AllowedAreMasked(scores, mask, 0, j);
    }
  }

  /* ---------- weights ---------- */

  /** All that is used of the exponential function. */
  ghost predicate IsExponential(exp: real -> real) {
    (forall a, b :: TakesSumToProduct(exp, a, b)) && (forall a :: exp(a) > 0.0)
  }

  predicate TakesSumToProduct(exp: real -> real, a: real, b: real) {
    exp(a + b) == exp(a) * exp(b)
  }

  function Sum(xs: seq<real>): real {
    if xs == [] then 0.0 else xs[0] + Sum(xs[1..])
  }

  function DivideAll(xs: seq<real>, total: real): seq<real>
    requires total != 0.0
  {
    if xs == [] then [] else [xs[0] / total] + DivideAll(xs[1..], total)
  }

  function Scale(c: real, xs: seq<real>): seq<real> {
    if xs == [] then [] else [Times(c, xs[0])] + Scale(c, xs[1..])
  }

  /** `[exp((s - shift) / temperature) for s in scores]`. */
  function Exps(exp: real -> real, entries: seq<Entry>, shift: real, temperature: real): (xs: seq<real>)
    requires temperature != 0.0
    ensures |xs| == |entries|
  {
    if entries == [] then []
    else [exp((entries[0].score - shift) / temperature)] + Exps(exp, entries[1..], shift, temperature)
  }

  ghost predicate Positive(xs: seq<real>) {
    forall i :: 0 <= i < |xs| ==> xs[i] > 0.0
  }

  lemma {:induction false} ExpsPositive(exp: real -> real, entries: seq<Entry>, shift: real, temperature: real)
    requires IsExponential(exp) && temperature != 0.0
    ensures Positive(Exps(exp, entries, shift, temperature))
    ensures entries != [] ==> Sum(Exps(exp, entries, shift, temperature)) > 0.0
  {
    if entries != [] {
      ExpsPositive(exp, entries[1..], shift, temperature);
      assert Exps(exp, entries, shift, temperature)[1..] == Exps(exp, entries[1..], shift, temperature);
    }
  }

  function Weights(exp: real -> real, entries: seq<Entry>, shift: real, temperature: real): seq<real>
    requires temperature != 0.0 && (entries != [] ==> Sum(Exps(exp, entries, shift, temperature)) != 0.0)
  {
    if entries == [] then []
    else DivideAll(Exps(exp, entries, shift, temperature), Sum(Exps(exp, entries, shift, temperature)))
  }

  lemma {:induction false} SumOfScaled(c: real, xs: seq<real>)
    ensures Sum(Scale(c, xs)) == c * Sum(xs)
  {
    if xs != [] {
      SumOfScaled(c, xs[1..]);
      assert Scale(c, xs)[1..] == Scale(c, xs[1..]);
      DistributeReal(c, xs[0], Sum(xs[1..]));
    }
  }

  lemma {:induction false} DividedScale(c: real, xs: seq<real>, total: real, scaled: real)
    requires c != 0.0 && total != 0.0 && scaled != 0.0 && scaled == c * total
    ensures DivideAll(Scale(c, xs), scaled) == DivideAll(xs, total)
  {
    if xs != [] {
      DividedScale(c, xs[1..], total, scaled);
      assert Scale(c, xs)[1..] == Scale(c, xs[1..]);
      CancelFactor(c, xs[0], total, scaled, Times(c, xs[0]));
    }
  }

  lemma CancelFactor(c: real, x: real, t: real, scaled: real, product: real)
    requires c != 0.0 && t != 0.0 && scaled != 0.0 && scaled == c * t && product == c * x
    ensures product / scaled == x / t
  {
    var q := x / t;
    assert x == q * t;
    assert product == q * scaled;
    DivideProduct(q, scaled);
  }

  lemma DivideProduct(q: real, d: real)
    requires d != 0.0
    ensures (q * d) / d == q
  {
  }

  lemma {:induction false} UnshiftedIsScaled(exp: real -> real, entries: seq<Entry>, shift: real, temperature: real)
    requires IsExponential(exp) && temperature != 0.0
    ensures Exps(exp, entries, 0.0, temperature)
         == Scale(exp(shift / temperature), Exps(exp, entries, shift, temperature))
  {
    if entries != [] {
      UnshiftedIsScaled(exp, entries[1..], shift, temperature);
      FirstIsScaled(exp, entries[0].score, shift, temperature);
      ScaleCons(exp(shift / temperature), exp((entries[0].score - shift) / temperature),
                Exps(exp, entries[1..], shift, temperature));
    }
  }

  lemma ScaleCons(c: real, x: real, xs: seq<real>)
    ensures Scale(c, [x] + xs) == [Times(c, x)] + Scale(c, xs)
  {
    assert ([x] + xs)[1..] == xs;
  }

  lemma FirstIsScaled(exp: real -> real, s: real, shift: real, temperature: real)
    requires IsExponential(exp) && temperature != 0.0
    ensures exp((s - 0.0) / temperature) == Times(exp(shift / temperature), exp((s - shift) / temperature))
  {
    SplitQuotient(s, shift, temperature);
    assert TakesSumToProduct(exp, shift / temperature, (s - shift) / temperature);
  }

  lemma SplitQuotient(s: real, shift: real, temperature: real)
    requires temperature != 0.0
    ensures (s - 0.0) / temperature == shift / temperature + (s - shift) / temperature
  {
  }

  /** Softmax and the stabilised form with the scores shifted by any amount (Boltzmann shifts by
      the greatest score) have the same weights. */
  lemma ShiftKeepsWeights(exp: real -> real, entries: seq<Entry>, shift: real, temperature: real)
    requires IsExponential(exp) && temperature != 0.0 && entries != []
    ensures Sum(Exps(exp, entries, 0.0, temperature)) > 0.0 && Sum(Exps(exp, entries, shift, temperature)) > 0.0
    ensures Weights(exp, entries, 0.0, temperature) == Weights(exp, entries, shift, temperature)
  {
    var c, xs := exp(shift / temperature), Exps(exp, entries, shift, temperature);
    ExpsPositive(exp, entries, shift, temperature);
    ExpsPositive(exp, entries, 0.0, temperature);
    UnshiftedIsScaled(exp, entries, shift, temperature);
    SumOfScaled(c, xs);
    DividedScale(c, xs, Sum(xs), Sum(Exps(exp, entries, 0.0, temperature)));
  }

  lemma {:induction false} DividedSum(xs: seq<real>, total: real)
    requires total > 0.0 && Positive(xs)
    ensures Positive(DivideAll(xs, total)) && Sum(DivideAll(xs, total)) == Sum(xs) / total
    ensures |DivideAll(xs, total)| == |xs|
  {
    if xs != [] {
      DividedSum(xs[1..], total);
      assert DivideAll(xs, total)[1..] == DivideAll(xs[1..], total);
      SumQuotient(xs[0], Sum(xs[1..]), total);
    }
  }

  lemma SumQuotient(a: real, b: real, t: real)
    requires t > 0.0
    ensures (a + b) / t == a / t + b / t
    ensures a > 0.0 ==> a / t > 0.0
  {
  }

  /** The weights are positive and sum to one. */
  lemma WeightsAreDistribution(exp: real -> real, entries: seq<Entry>, shift: real, temperature: real)
    requires IsExponential(exp) && temperature != 0.0 && entries != []
    ensures Sum(Exps(exp, entries, shift, temperature)) > 0.0
    ensures var ws := Weights(exp, entries, shift, temperature);
      |ws| == |entries| && Positive(ws) && Sum(ws) == 1.0
  {
    ExpsPositive(exp, entries, shift, temperature);
    var xs := Exps(exp, entries, shift, temperature);
    DividedSum(xs, Sum(xs));
    DivideProduct(1.0, Sum(xs));
  }

  /* ---------- drawing ---------- */

  /** The first position whose cumulative weight exceeds x, the last at most. */
  function Bisect(weights: seq<real>, x: real): (k: nat)
    requires weights != []
    ensures k < |weights|
  {
    if |weights| == 1 || x < weights[0] then 0 else 1 + Bisect(weights[1..], x - weights[0])
  }

  /** A draw picks a position exactly when it falls into the interval of its weight. */
  lemma {:induction false} BisectInterval(weights: seq<real>, x: real, k: nat)
    requires k < |weights| && Positive(weights) && 0.0 <= x < Sum(weights)
    ensures Bisect(weights, x) == k <==> Sum(weights[..k]) <= x < Sum(weights[..k + 1])
  {
    assert weights[..k + 1][0] == weights[0] && weights[..k + 1][1..] == weights[1..][..k];
    if |weights| == 1 {
      assert weights[..1] == weights;
    } else if k == 0 {
      assert weights[1..][..0] == [];
    } else {
      assert weights[..k][1..] == weights[1..][..k - 1];
      if x < weights[0] {
        SumNonNegative(weights[1..][..k - 1]);
      } else {
        BisectInterval(weights[1..], x - weights[0], k - 1);
      }
    }
  }

  lemma {:induction false} SumNonNegative(xs: seq<real>)
    requires Positive(xs)
    ensures Sum(xs) >= 0.0
  {
    if xs != [] {
      SumNonNegative(xs[1..]);
    }
  }

  /** `random.choices(keys, weights)[0]` for a draw in [0, 1). */
  function Draw(entries: seq<Entry>, weights: seq<real>, draw: real): Choice
    requires |entries| == |weights|
  {
    if entries == [] then IndexError else Chosen(entries[Bisect(weights, draw * Sum(weights))].env)
  }

  function GreatestAt(entries: seq<Entry>): (k: nat)
    requires entries != []
    ensures k < |entries|
    ensures forall i :: 0 <= i < |entries| ==> entries[i].score <= entries[k].score
    ensures forall i :: 0 <= i < k ==> entries[i].score < entries[k].score
  {
    var n := |entries| - 1;
    if n == 0 then 0
    else
      var k := GreatestAt(entries[..n]);
      assert forall i :: 0 <= i < n ==> entries[..n][i] == entries[i];
      if entries[n].score > entries[k].score then n else k
  }

  /* ---------- the selectors ---------- */

  function SoftmaxSelect(exp: real -> real, temperature: real, scores: seq<real>, mask: seq<int>, draw: real): Choice
    requires |scores| == |ENVS|
  {
    if |mask| < |ENVS| then IndexError
    else
      var entries := Masked(scores, mask, 0);
      if entries == [] then IndexError
      else if temperature == 0.0 then ZeroDivisionError
      else
        var xs := Exps(exp, entries, 0.0, temperature);
        if Sum(xs) == 0.0 then ZeroDivisionError
        else DrawFrom(entries, xs, draw)
  }

  function BoltzmannSelect(exp: real -> real, temperature: real, scores: seq<real>, mask: seq<int>, draw: real): Choice
    requires |scores| == |ENVS|
  {
    if |mask| < |ENVS| then IndexError
    else
      var entries := Masked(scores, mask, 0);
      if entries == [] then ValueError
      else if temperature == 0.0 then ZeroDivisionError
      else
        var xs := Exps(exp, entries, entries[GreatestAt(entries)].score, temperature);
        if Sum(xs) == 0.0 then ZeroDivisionError
        else DrawFrom(entries, xs, draw)
  }

  function DrawFrom(entries: seq<Entry>, xs: seq<real>, draw: real): Choice
    requires |entries| == |xs| && Sum(xs) != 0.0
  {
    LengthOfDivided(xs, Sum(xs));
    Draw(entries, DivideAll(xs, Sum(xs)), draw)
  }

  lemma {:induction false} LengthOfDivided(xs: seq<real>, total: real)
    requires total != 0.0
    ensures |DivideAll(xs, total)| == |xs|
  {
    if xs != [] {
      LengthOfDivided(xs[1..], total);
    }
  }

  /** `index` is the position `random.choice` takes in the list of allowed environments. */
  function GreedySelect(epsilon: real, scores: seq<real>, mask: seq<int>, draw: real, index: nat): Choice
    requires |scores| == |ENVS|
  {
    if |mask| < |ENVS| then IndexError else GreedyAmong(epsilon, Masked(scores, mask, 0), draw, index)
  }

  function GreedyAmong(epsilon: real, entries: seq<Entry>, draw: real, index: nat): Choice {
    if draw < epsilon then if entries == [] then IndexError else Chosen(entries[index % |entries|].env)
    else if entries == [] then ValueError
    else Chosen(entries[GreatestAt(entries)].env)
  }

  /** The environments with a 1, as far as the mask goes. */
  function Unmasked(mask: seq<int>, i: nat): seq<Env>
    requires i <= |ENVS|
    decreases |ENVS| - i
  {
    if i == |ENVS| || i >= |mask| then []
    else (if mask[i] == 1 then [ENVS[i]] else []) + Unmasked(mask, i + 1)
  }

  function RandomSelect(mask: seq<int>, index: nat): Choice {
    var allowed := Unmasked(mask, 0);
    if allowed == [] then IndexError else Chosen(allowed[index % |allowed|])
  }

  /** For every score list, mask, temperature and draw the two selectors choose the same
      environment; they differ only in the error for a mask without a 1. */
  lemma SoftmaxIsBoltzmann(exp: real -> real, temperature: real, scores: seq<real>, mask: seq<int>, draw: real)
    requires IsExponential(exp) && |scores| == |ENVS|
    ensures var soft, boltz := SoftmaxSelect(exp, temperature, scores, mask, draw),
                               BoltzmannSelect(exp, temperature, scores, mask, draw);
      soft == boltz <==> |mask| < |ENVS| || exists env :: Allowed(mask, env)
  {
    if |mask| >= |ENVS| {
      MaskedIffAllowed(scores, mask);
      var entries := Masked(scores, mask, 0);
      if entries != [] && temperature != 0.0 {
        ShiftKeepsWeights(exp, entries, entries[GreatestAt(entries)].score, temperature);
      }
    }
  }

  /* ---------- what is chosen ---------- */

  lemma {:induction false} ExpsAt(exp: real -> real, entries: seq<Entry>, shift: real, temperature: real, i: nat)
    requires temperature != 0.0 && i < |entries|
    ensures Exps(exp, entries, shift, temperature)[i] == exp((entries[i].score - shift) / temperature)
  {
    if i > 0 {
      ExpsAt(exp, entries[1..], shift, temperature, i - 1);
    }
  }

  lemma {:induction false} DividedAt(xs: seq<real>, total: real, i: nat)
    requires total != 0.0 && i < |xs|
    ensures |DivideAll(xs, total)| == |xs| && DivideAll(xs, total)[i] == xs[i] / total
  {
    LengthOfDivided(xs, total);
    if i > 0 {
      DividedAt(xs[1..], total, i - 1);
    }
  }

  /** The probability of the i-th allowed environment. */
  function Probability(exp: real -> real, entries: seq<Entry>, temperature: real, i: nat): real
    requires temperature != 0.0 && i < |entries| && Sum(Exps(exp, entries, 0.0, temperature)) != 0.0
  {
    exp(entries[i].score / temperature) / Sum(Exps(exp, entries, 0.0, temperature))
  }

  lemma WeightIsProbability(exp: real -> real, entries: seq<Entry>, temperature: real, i: nat)
    requires IsExponential(exp) && temperature != 0.0 && i < |entries|
    ensures Sum(Exps(exp, entries, 0.0, temperature)) > 0.0
    ensures |Weights(exp, entries, 0.0, temperature)| == |entries|
    ensures Weights(exp, entries, 0.0, temperature)[i] == Probability(exp, entries, temperature, i)
  {
    ExpsPositive(exp, entries, 0.0, temperature);
    var xs := Exps(exp, entries, 0.0, temperature);
    DividedAt(xs, Sum(xs), i);
    ExpsAt(exp, entries, 0.0, temperature, i);
  }

  /** The positions with a 1, from the i-th on. */
  function Ones(mask: seq<int>, i: nat): seq<nat>
    requires i <= |ENVS|
    decreases |ENVS| - i
  {
    if i == |ENVS| || i >= |mask| then [] else (if mask[i] == 1 then [i] else []) + Ones(mask, i + 1)
  }

  lemma {:induction false} OnesFrom(mask: seq<int>, i: nat)
    requires i <= |ENVS|
    ensures forall j :: j in Ones(mask, i) <==> i <= j < |ENVS| && j < |mask| && mask[j] == 1
    decreases |ENVS| - i
  {
    if i < |ENVS| && i < |mask| {
      OnesFrom(mask, i + 1);
      OnesOneMore(mask, i);
    }
  }

  lemma OnesOneMore(mask: seq<int>, i: nat)
    requires i < |ENVS| && i < |mask|
    ensures forall j :: j in Ones(mask, i) <==> (j == i && mask[i] == 1) || j in Ones(mask, i + 1)
  {
  }

  lemma OnesUnfold(mask: seq<int>, i: nat)
    requires i < |ENVS| && i < |mask|
    ensures Ones(mask, i) == if mask[i] == 1 then [i] + Ones(mask, i + 1) else Ones(mask, i + 1)
  {
  }

  lemma {:induction false} OnesAtLeast(mask: seq<int>, i: nat, k: nat)
    requires i <= |ENVS| && k < |Ones(mask, i)|
    ensures Ones(mask, i)[k] >= i
    decreases |ENVS| - i
  {
    OnesUnfold(mask, i);
    if mask[i] != 1 {
      OnesAtLeast(mask, i + 1, k);
    } else if k > 0 {
      OnesAtLeast(mask, i + 1, k - 1);
    }
  }

  lemma {:induction false} OnesIncrease(mask: seq<int>, i: nat, k: nat, l: nat)
    requires i <= |ENVS| && k < l < |Ones(mask, i)|
    ensures Ones(mask, i)[k] < Ones(mask, i)[l]
    decreases |ENVS| - i
  {
    OnesUnfold(mask, i);
    if mask[i] != 1 {
      OnesIncrease(mask, i + 1, k, l);
    } else if k > 0 {
      OnesIncrease(mask, i + 1, k - 1, l - 1);
    } else {
      OnesAtLeast(mask, i + 1, l - 1);
    }
  }

  /** The positions with a 1 in the mask, each once, in their order. */
  ghost predicate AreAllowed(mask: seq<int>, at: seq<nat>) {
    && (forall j :: j in at <==> 0 <= j < |ENVS| && j < |mask| && mask[j] == 1)
    && (forall k, l :: 0 <= k < l < |at| ==> at[k] < at[l])
  }

  lemma OnesAreAllowed(mask: seq<int>)
    ensures AreAllowed(mask, Ones(mask, 0))
  {
    OnesFrom(mask, 0);
    forall k, l | 0 <= k < l < |Ones(mask, 0)| ensures Ones(mask, 0)[k] < Ones(mask, 0)[l] {
      OnesIncrease(mask, 0, k, l);
    }
  }

  lemma OneAllowed(mask: seq<int>, at: seq<nat>, k: nat)
    requires AreAllowed(mask, at) && k < |at|
    ensures at[k] < |ENVS| && at[k] < |mask| && mask[at[k]] == 1
  {
    assert at[k] in at;
  }

  lemma {:induction false} MaskedAt(scores: seq<real>, mask: seq<int>, i: nat, k: nat)
    requires i <= |ENVS| == |scores| <= |mask| && k < |Ones(mask, i)|
    ensures |Masked(scores, mask, i)| == |Ones(mask, i)| && Ones(mask, i)[k] < |ENVS|
    ensures Masked(scores, mask, i)[k] == Entry(ENVS[Ones(mask, i)[k]], scores[Ones(mask, i)[k]])
    decreases |ENVS| - i
  {
    MaskedSize(scores, mask, i);
    OnesUnfold(mask, i);
    if mask[i] != 1 {
      assert Masked(scores, mask, i) == Masked(scores, mask, i + 1);
      MaskedAt(scores, mask, i + 1, k);
    } else if k > 0 {
      assert Masked(scores, mask, i)[k] == Masked(scores, mask, i + 1)[k - 1];
      MaskedAt(scores, mask, i + 1, k - 1);
    }
  }

  lemma {:induction false} MaskedSize(scores: seq<real>, mask: seq<int>, i: nat)
    requires i <= |ENVS| == |scores| <= |mask|
    ensures |Masked(scores, mask, i)| == |Ones(mask, i)|
    decreases |ENVS| - i
  {
    if i < |ENVS| {
      MaskedSize(scores, mask, i + 1);
    }
  }

  lemma {:induction false} UnmaskedAt(mask: seq<int>, i: nat, k: nat)
    requires i <= |ENVS| && k < |Ones(mask, i)|
    ensures |Unmasked(mask, i)| == |Ones(mask, i)| && Ones(mask, i)[k] < |ENVS|
    ensures Unmasked(mask, i)[k] == ENVS[Ones(mask, i)[k]]
    decreases |ENVS| - i
  {
    UnmaskedSize(mask, i);
    if mask[i] != 1 || k > 0 {
      UnmaskedAt(mask, i + 1, if mask[i] == 1 then k - 1 else k);
    }
  }

  lemma {:induction false} UnmaskedSize(mask: seq<int>, i: nat)
    requires i <= |ENVS|
    ensures |Unmasked(mask, i)| == |Ones(mask, i)|
    decreases |ENVS| - i
  {
    if i < |ENVS| && i < |mask| {
      UnmaskedSize(mask, i + 1);
    }
  }

  /** The choice of both selectors: the allowed environments share the interval from 0 to 1 in the
      order of `ENVS`, each with its probability, and the one in whose share the draw falls is
      chosen. */
  lemma DrawsByProbability(exp: real -> real, temperature: real, scores: seq<real>, mask: seq<int>, draw: real)
      returns (at: seq<nat>, k: nat)
    requires IsExponential(exp) && temperature != 0.0 && 0.0 <= draw < 1.0
    requires |ENVS| == |scores| <= |mask| && exists env :: Allowed(mask, env)
    ensures AreAllowed(mask, at) && k < |at| && at[k] < |ENVS|
    ensures SoftmaxSelect(exp, temperature, scores, mask, draw) == Chosen(ENVS[at[k]])
    ensures var ws := Weights(exp, Masked(scores, mask, 0), 0.0, temperature);
      |ws| == |at| && Sum(ws) == 1.0 && Sum(ws[..k]) <= draw < Sum(ws[..k + 1])
  {
    MaskedIffAllowed(scores, mask);
    var entries := Masked(scores, mask, 0);
    MaskedSize(scores, mask, 0);
    k := DrawnPosition(exp, temperature, entries, draw);
    at := Ones(mask, 0);
    OnesAreAllowed(mask);
    MaskedAt(scores, mask, 0, k);
  }

  lemma DrawnPosition(exp: real -> real, temperature: real, entries: seq<Entry>, draw: real) returns (k: nat)
    requires IsExponential(exp) && temperature != 0.0 && 0.0 <= draw < 1.0 && entries != []
    ensures Sum(Exps(exp, entries, 0.0, temperature)) > 0.0 && k < |entries|
    ensures DrawFrom(entries, Exps(exp, entries, 0.0, temperature), draw) == Chosen(entries[k].env)
    ensures var ws := Weights(exp, entries, 0.0, temperature);
      |ws| == |entries| && Sum(ws) == 1.0 && Sum(ws[..k]) <= draw < Sum(ws[..k + 1])
  {
    WeightsAreDistribution(exp, entries, 0.0, temperature);
    var ws := Weights(exp, entries, 0.0, temperature);
    k := Bisect(ws, draw);
    BisectInterval(ws, draw, k);
  }

  /** All that is used beyond `IsExponential` here: it grows. */
  ghost predicate Grows(exp: real -> real) {
    forall a: real, b: real :: GrowsFrom(exp, a, b)
  }

  predicate GrowsFrom(exp: real -> real, a: real, b: real) {
    a < b ==> exp(a) < exp(b)
  }

  /** For a positive temperature the higher score has the higher probability, and at equal scores
      both are the same. */
  lemma HigherScoreHigherProbability(exp: real -> real, entries: seq<Entry>, temperature: real, i: nat, j: nat)
    requires IsExponential(exp) && Grows(exp) && temperature > 0.0 && i < |entries| && j < |entries|
    ensures Sum(Exps(exp, entries, 0.0, temperature)) > 0.0
    ensures entries[i].score < entries[j].score
      <==> Probability(exp, entries, temperature, i) < Probability(exp, entries, temperature, j)
  {
    ExpsPositive(exp, entries, 0.0, temperature);
    var total, a, b := Sum(Exps(exp, entries, 0.0, temperature)), entries[i].score, entries[j].score;
    DivideOrders(a, b, temperature);
    assert GrowsFrom(exp, a / temperature, b / temperature) && GrowsFrom(exp, b / temperature, a / temperature);
    DivideOrders(exp(a / temperature), exp(b / temperature), total);
  }

  lemma DivideOrders(a: real, b: real, d: real)
    requires d > 0.0
    ensures a < b <==> a / d < b / d
  {
    var p, q := a / d, b / d;
    assert p * d == a && q * d == b;
    if p < q {
      assert (q - p) * d > 0.0;
    } else {
      assert (p - q) * d >= 0.0;
    }
  }

  /** The greedy selector: below epsilon the allowed environment the index falls on, otherwise the
      first allowed one that no allowed one outscores. */
  lemma GreedyChoice(epsilon: real, scores: seq<real>, mask: seq<int>, draw: real, index: nat)
      returns (at: seq<nat>, k: nat)
    requires |ENVS| == |scores| <= |mask| && exists env :: Allowed(mask, env)
    ensures AreAllowed(mask, at) && k < |at| && forall l :: 0 <= l < |at| ==> at[l] < |ENVS|
    ensures GreedySelect(epsilon, scores, mask, draw, index) == Chosen(ENVS[at[k]])
    ensures if draw < epsilon then k == index % |at|
      else (forall l :: 0 <= l < |at| ==> scores[at[l]] <= scores[at[k]])
           && (forall l :: 0 <= l < k ==> scores[at[l]] < scores[at[k]])
  {
    at := Ones(mask, 0);
    OnesAreAllowed(mask);
    MaskedIffAllowed(scores, mask);
    MaskedAll(scores, mask);
    k := GreedyPosition(epsilon, Masked(scores, mask, 0), draw, index);
    InScores(Masked(scores, mask, 0), scores, at, k, draw < epsilon);
  }

  lemma GreedyPosition(epsilon: real, entries: seq<Entry>, draw: real, index: nat) returns (k: nat)
    requires entries != []
    ensures k < |entries| && GreedyAmong(epsilon, entries, draw, index) == Chosen(entries[k].env)
    ensures draw < epsilon ==> k == index % |entries|
    ensures draw >= epsilon ==> FirstGreatest(entries, k)
  {
    k := if draw < epsilon then index % |entries| else GreatestAt(entries);
  }

  ghost predicate FirstGreatest(entries: seq<Entry>, k: nat) {
    && k < |entries| && (forall l :: 0 <= l < |entries| ==> entries[l].score <= entries[k].score)
    && (forall l :: 0 <= l < k ==> entries[l].score < entries[k].score)
  }

  lemma MaskedAll(scores: seq<real>, mask: seq<int>)
    requires |ENVS| == |scores| <= |mask|
    ensures AreEntries(Masked(scores, mask, 0), scores, Ones(mask, 0))
  {
    MaskedSize(scores, mask, 0);
    forall l | 0 <= l < |Ones(mask, 0)|
      ensures Ones(mask, 0)[l] < |ENVS|
      ensures Masked(scores, mask, 0)[l] == Entry(ENVS[Ones(mask, 0)[l]], scores[Ones(mask, 0)[l]])
    {
      MaskedAt(scores, mask, 0, l);
    }
  }

  ghost predicate AreEntries(entries: seq<Entry>, scores: seq<real>, at: seq<nat>)
    requires |scores| == |ENVS|
  {
    && |entries| == |at| && (forall l :: 0 <= l < |at| ==> at[l] < |ENVS|)
    && forall l :: 0 <= l < |at| ==> entries[l] == Entry(ENVS[at[l]], scores[at[l]])
  }

  lemma InScores(entries: seq<Entry>, scores: seq<real>, at: seq<nat>, k: nat, any: bool)
    requires |scores| == |ENVS| && AreEntries(entries, scores, at) && k < |at|
    requires any || FirstGreatest(entries, k)
    ensures entries[k].env == ENVS[at[k]]
    ensures any || ((forall l :: 0 <= l < |at| ==> scores[at[l]] <= scores[at[k]])
                    && (forall l :: 0 <= l < k ==> scores[at[l]] < scores[at[k]]))
  {
    forall l | 0 <= l < |at| ensures scores[at[l]] == entries[l].score {
    }
  }

  /** The random selector picks among the allowed environments of a mask of any length. */
  lemma RandomChoice(mask: seq<int>, index: nat) returns (at: seq<nat>)
    ensures AreAllowed(mask, at) && forall l :: 0 <= l < |at| ==> at[l] < |ENVS|
    ensures RandomSelect(mask, index) == if at == [] then IndexError else Chosen(ENVS[at[index % |at|]])
  {
    at := Ones(mask, 0);
    OnesAreAllowed(mask);
    UnmaskedSize(mask, 0);
    forall l | 0 <= l < |at| ensures at[l] < |ENVS| && Unmasked(mask, 0)[l] == ENVS[at[l]] {
      UnmaskedAt(mask, 0, l);
    }
  }

  lemma {:induction false} UnmaskedAreAllowed(mask: seq<int>, i: nat, k: nat)
    requires i <= |ENVS| && k < |Unmasked(mask, i)|
    ensures Allowed(mask, Unmasked(mask, i)[k])
    decreases |ENVS| - i
  {
    if mask[i] != 1 || k > 0 {
      UnmaskedAreAllowed(mask, i + 1, if mask[i] == 1 then k - 1 else k);
    }
  }

  predicate Respects(mask: seq<int>, choice: Choice) {
    choice.Chosen? ==> Allowed(mask, choice.env)
  }

  ghost predicate AllRespect(mask: seq<int>, entries: seq<Entry>) {
    forall k :: 0 <= k < |entries| ==> Allowed(mask, entries[k].env)
  }

  lemma DrawRespects(mask: seq<int>, entries: seq<Entry>, xs: seq<real>, draw: real)
    requires |entries| == |xs| && Sum(xs) != 0.0 && AllRespect(mask, entries)
    ensures Respects(mask, DrawFrom(entries, xs, draw))
  {
    LengthOfDivided(xs, Sum(xs));
  }

  /** No selector returns an environment without a 1 in the mask, whatever is drawn. */
  lemma NeverMasked(exp: real -> real, temperature: real, epsilon: real, scores: seq<real>, mask: seq<int>,
                    draw: real, index: nat)
    requires |scores| == |ENVS|
    ensures Respects(mask, SoftmaxSelect(exp, temperature, scores, mask, draw))
    ensures Respects(mask, BoltzmannSelect(exp, temperature, scores, mask, draw))
    ensures Respects(mask, GreedySelect(epsilon, scores, mask, draw, index))
    ensures Respects(mask, RandomSelect(mask, index))
  {
    SoftmaxRespects(exp, temperature, scores, mask, draw);
    BoltzmannRespects(exp, temperature, scores, mask, draw);
    GreedyRespects(epsilon, scores, mask, draw, index);
    RandomRespects(mask, index);
  }

  lemma MaskedRespect(scores: seq<real>, mask: seq<int>)
    requires |ENVS| == |scores| <= |mask|
    ensures AllRespect(mask, Masked(scores, mask, 0))
  {
    var entries := Masked(scores, mask, 0);
    forall k | 0 <= k < |entries| ensures Allowed(mask, entries[k].env) {
      MaskedAreAllowed(scores, mask, 0, k);
    }
  }

  lemma SoftmaxRespects(exp: real -> real, temperature: real, scores: seq<real>, mask: seq<int>, draw: real)
    requires |scores| == |ENVS|
    ensures Respects(mask, SoftmaxSelect(exp, temperature, scores, mask, draw))
  {
    if SoftmaxSelect(exp, temperature, scores, mask, draw).Chosen? {
      MaskedRespect(scores, mask);
      DrawRespects(mask, Masked(scores, mask, 0), Exps(exp, Masked(scores, mask, 0), 0.0, temperature), draw);
    }
  }

  lemma BoltzmannRespects(exp: real -> real, temperature: real, scores: seq<real>, mask: seq<int>, draw: real)
    requires |scores| == |ENVS|
    ensures Respects(mask, BoltzmannSelect(exp, temperature, scores, mask, draw))
  {
    if BoltzmannSelect(exp, temperature, scores, mask, draw).Chosen? {
      MaskedRespect(scores, mask);
      var entries := Masked(scores, mask, 0);
      DrawRespects(mask, entries, Exps(exp, entries, entries[GreatestAt(entries)].score, temperature), draw);
    }
  }

  lemma GreedyRespects(epsilon: real, scores: seq<real>, mask: seq<int>, draw: real, index: nat)
    requires |scores| == |ENVS|
    ensures Respects(mask, GreedySelect(epsilon, scores, mask, draw, index))
  {
    if GreedySelect(epsilon, scores, mask, draw, index).Chosen? {
      MaskedRespect(scores, mask);
    }
  }

  lemma RandomRespects(mask: seq<int>, index: nat)
    ensures Respects(mask, RandomSelect(mask, index))
  {
    var allowed := Unmasked(mask, 0);
    if allowed != [] {
      UnmaskedAreAllowed(mask, 0, index % |allowed|);
    }
  }

  /** The greedy branch returns an allowed environment with no allowed one scoring higher. */
  lemma GreedyIsMaximal(epsilon: real, scores: seq<real>, mask: seq<int>, draw: real, index: nat, j: nat)
    requires |scores| == |ENVS| <= |mask| && draw >= epsilon
    requires j < |ENVS| && mask[j] == 1
    ensures var choice := GreedySelect(epsilon, scores, mask, draw, index);
      choice.Chosen? && exists i :: 0 <= i < |ENVS| && ENVS[i] == choice.env && mask[i] == 1 && scores[j] <= scores[i]
  {
    var entries := Masked(scores, mask, 0);
    AllowedAreMasked(scores, mask, 0, j);
    MaskedAreAllowed(scores, mask, 0, GreatestAt(entries));
  }
}
