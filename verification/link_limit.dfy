/** The congestion controller: pings tell how full the queue at the provider is, and the download
    limit of the link is raised and lowered to keep the ping time at its limit. Floating point
    numbers are real numbers here, and conversions to integers truncate. */
module LinkLimit {
  import opened Wrappers

  datatype State = Check | Init | Active | MinRtt | Idle | Disabled

  /** The command line: the ping period in ms, the bandwidth in bps, whether to add the measured ping
      time to the limit, and the ping limit in us, 0 if it is not given. */
  datatype Config = Config(period: nat, bandwidth: nat, entitlement: bool, limit: nat)

  /** The source refuses other periods and bandwidths; the bandwidth is given in kbps. */
  predicate ValidConfig(c: Config) {
    100 <= c.period <= 2000 && 100 * 1000 <= c.bandwidth < 2147483 * 1000 && c.bandwidth % 1000 == 0
  }

  /** What a pass learns: whether the wait for pongs failed, the time of the answer to the last ping,
      the number of answers, what the scan of the classes gave, the load in bps, and the number of
      active realtime classes. */
  datatype Input = Input(waitFailed: bool, pong: Option<nat>, pongs: nat, scanFailed: bool, classes: nat, load: int,
                         realtime: nat)

  /** Conversion of a floating point number to an integer. */
  function Trunc(x: real): (n: int)
    ensures x >= 0.0 ==> n as real <= x < (n + 1) as real
  {
    if x >= 0.0 then x.Floor else -((-x).Floor)
  }

  /** Integer division as in C. */
  function Quot(a: int, b: int): int
    requires b > 0
  {
    if a >= 0 then a / b else -(-a / b)
  }

  // ---------- the ping filter ----------

  /** A fifth, in thousandths, whatever the period. */
  function Alpha(period: nat): int
    requires period > 0
  {
    Trunc(period as real * 1000.0 / (period * 4 + period) as real)
  }

  lemma AlphaIs(period: nat)
    requires period > 0
    ensures Alpha(period) == 200
  {
    var p := period as real;
    assert (period * 4 + period) as real == 5.0 * p;
    assert p * 1000.0 == 200.0 * (5.0 * p);
    Cancel(200.0, 5.0 * p);
  }

  lemma Cancel(a: real, b: real)
    requires b > 0.0
    ensures a * b / b == a
  {
  }

  function Filtered(fil: int, raw: int, alpha: int): int {
    Quot((raw * 1000 - fil) * alpha, 1000) + fil
  }

  /** The filtered time moves towards the last time, and not beyond it. */
  lemma FilterStaysBetween(fil: int, raw: int)
    ensures var f := Filtered(fil, raw, 200);
            if fil <= raw * 1000 then fil <= f <= raw * 1000 else raw * 1000 <= f <= fil
  {
  }

  /** And by a fifth of the way, rounded towards where it is. */
  lemma FilterMovesAFifth(fil: int, raw: int)
    ensures var step, way := Filtered(fil, raw, 200) - fil, raw * 1000 - fil;
            if way >= 0 then 5 * step <= way < 5 * step + 5 else 5 * step - 5 < way <= 5 * step
  {
  }

  // ---------- the control law ----------

  /** The lowest limit, 15% of the bandwidth. */
  function Floor(c: Config): int {
    Trunc(c.bandwidth as real * 0.15)
  }

  predicate InRange(c: Config, limit: int) {
    Floor(c) <= limit <= c.bandwidth
  }

  /** How far the ping time is off its limit, times the period. */
  function Relative(c: Config, err: real, plimit: int): real
    requires plimit > 0
  {
    err * c.period as real / plimit as real
  }

  function Scaled(limit: int, gain: real, relative: real): real {
    limit as real * (1.0 - gain * relative / 1000.0)
  }

  function Raised(c: Config, x: real): int {
    if Trunc(x) > c.bandwidth then c.bandwidth else Trunc(x)
  }

  function Lowered(c: Config, x: real): int {
    if Trunc(x) as real < c.bandwidth as real * 0.15 then Floor(c) else Trunc(x)
  }

  /** The limit after a pass, from the limit before, the ping limit and the filtered ping time. It is
      not raised while the load is under 85% of it. */
  function Adjusted(c: Config, limit: int, plimit: int, fil: int, load: int): int
    requires plimit > 0
  {
    var err := (fil - plimit) as real;
    if err < 0.0 then
      if load as real < limit as real * 0.85 then limit
      else Raised(c, Scaled(limit, 0.004, Relative(c, err, plimit)))
    else
      var e := if err > (2 * plimit) as real then (2 * plimit) as real else err;
      Lowered(c, Scaled(limit, 0.005, Relative(c, e, plimit)))
  }

  lemma FloorIs(c: Config)
    requires ValidConfig(c)
    ensures Floor(c) == 150 * (c.bandwidth / 1000) && Floor(c) as real == c.bandwidth as real * 0.15
    ensures 15000 <= Floor(c) < c.bandwidth
  {
    var k := c.bandwidth / 1000;
    assert c.bandwidth == 1000 * k;
    assert c.bandwidth as real * 0.15 == (150 * k) as real;
  }

  lemma Times(x: real, low: real, f: real, high: real)
    requires x >= 0.0 && low <= f <= high
    ensures x * low <= x * f <= x * high && (x > 0.0 && f < high ==> x * f < x * high)
  {
  }

  lemma QuotientIn(x: real, l: real, top: real)
    requires l > 0.0 && 0.0 <= x <= l * top
    ensures 0.0 <= x / l <= top && (x > 0.0 ==> x / l > 0.0)
  {
  }

  lemma RelativeIn(err: real, p: real, l: real, k: real)
    requires l > 0.0 && 0.0 < p <= 2000.0 && k >= 0.0 && 0.0 <= err <= k * l
    ensures 0.0 <= err * p / l <= 2000.0 * k && (err > 0.0 ==> err * p / l > 0.0)
  {
    var top := k * l;
    ProductIn(err, p, top);
    Commute(k, l);
    QuotientIn(err * p, l, 2000.0 * k);
  }

  lemma ProductIn(a: real, p: real, top: real)
    requires 0.0 <= a <= top && 0.0 < p <= 2000.0
    ensures 0.0 <= a * p <= top * 2000.0 && (a > 0.0 ==> a * p > 0.0)
  {
    assert a * p <= a * 2000.0 <= top * 2000.0;
  }

  lemma Commute(k: real, l: real)
    ensures k * l * 2000.0 == l * (2000.0 * k)
  {
  }

  lemma Negated(err: real, p: real, l: real)
    requires l > 0.0
    ensures err * p / l == -((-err) * p / l)
  {
    assert err * p == -((-err) * p);
    NegatedQuotient(err * p, l);
  }

  lemma NegatedQuotient(x: real, l: real)
    requires l > 0.0
    ensures x / l == -((-x) / l)
  {
  }

  lemma RelativeUnder(c: Config, err: real, plimit: int)
    requires ValidConfig(c) && plimit > 0 && -(plimit as real) <= err <= 0.0
    ensures -2000.0 <= Relative(c, err, plimit) <= 0.0
  {
    hide Relative;
    RelativeOpposite(c, err, plimit);
    RelativeWithin(c, -err, plimit, 1.0);
  }

  lemma RelativeOpposite(c: Config, err: real, plimit: int)
    requires plimit > 0
    ensures Relative(c, err, plimit) == -Relative(c, -err, plimit)
  {
    Negated(err, c.period as real, plimit as real);
  }

  lemma RelativeWithin(c: Config, err: real, plimit: int, k: real)
    requires ValidConfig(c) && plimit > 0 && k >= 0.0 && 0.0 <= err <= k * plimit as real
    ensures 0.0 <= Relative(c, err, plimit) <= 2000.0 * k && (err > 0.0 ==> Relative(c, err, plimit) > 0.0)
  {
    RelativeIn(err, c.period as real, plimit as real, k);
  }

  lemma RelativeOver(c: Config, err: real, plimit: int)
    requires ValidConfig(c) && plimit > 0 && 0.0 <= err <= 2.0 * plimit as real
    ensures 0.0 <= Relative(c, err, plimit) <= 4000.0 && (err > 0.0 ==> Relative(c, err, plimit) > 0.0)
  {
    RelativeWithin(c, err, plimit, 2.0);
  }

  /** A ping time under its limit: up by at most 0.8%. */
  lemma ScaledUp(limit: int, relative: real)
    requires limit > 0 && -2000.0 <= relative <= 0.0
    ensures limit as real <= Scaled(limit, 0.004, relative) <= limit as real * 1.008
  {
    Times(limit as real, 1.0, 1.0 - 0.004 * relative / 1000.0, 1.008);
  }

  /** A ping time over its limit: down by at most 2%. */
  lemma ScaledDown(limit: int, relative: real)
    requires limit > 0 && 0.0 <= relative <= 4000.0
    ensures limit as real * 0.98 <= Scaled(limit, 0.005, relative) <= limit as real
    ensures relative > 0.0 ==> Scaled(limit, 0.005, relative) < limit as real
  {
    Times(limit as real, 0.98, 1.0 - 0.005 * relative / 1000.0, 1.0);
  }

  lemma RaisedInRange(c: Config, limit: int, x: real)
    requires ValidConfig(c) && InRange(c, limit) && limit as real <= x <= limit as real * 1.008
    ensures var a := Raised(c, x); InRange(c, a) && limit <= a && a as real <= limit as real * 1.008
  {
    FloorIs(c);
  }

  lemma LoweredInRange(c: Config, limit: int, x: real)
    requires ValidConfig(c) && InRange(c, limit) && limit as real * 0.98 <= x <= limit as real
    ensures var a := Lowered(c, x);
            InRange(c, a) && a <= limit && (a as real > limit as real * 0.98 - 1.0 || a == Floor(c)) &&
            (x < limit as real && limit > Floor(c) ==> a < limit)
  {
    FloorIs(c);
  }

  /** The limit stays between 15% and 100% of the bandwidth. It goes up only if pings are faster than
      their limit, and down if they are slower; in one pass by at most 0.8% and 2%. */
  lemma AdjustedInRange(c: Config, limit: int, plimit: int, fil: int, load: int)
    requires ValidConfig(c) && InRange(c, limit) && plimit > 0 && fil >= 0
    ensures var a := Adjusted(c, limit, plimit, fil, load);
            InRange(c, a) && (fil < plimit ==> limit <= a) && (fil >= plimit ==> a <= limit) &&
            (fil > plimit && limit > Floor(c) ==> a < limit) &&
            a as real <= limit as real * 1.008 && (a as real > limit as real * 0.98 - 1.0 || a == Floor(c))
  {
    hide Relative, Scaled, Raised, Lowered;
    FloorIs(c);
    var err := (fil - plimit) as real;
    if err < 0.0 {
      RelativeUnder(c, err, plimit);
      var r := Relative(c, err, plimit);
      ScaledUp(limit, r);
      RaisedInRange(c, limit, Scaled(limit, 0.004, r));
    } else {
      var e := if err > (2 * plimit) as real then (2 * plimit) as real else err;
      RelativeOver(c, e, plimit);
      var r := Relative(c, e, plimit);
      ScaledDown(limit, r);
      LoweredInRange(c, limit, Scaled(limit, 0.005, r));
    }
  }

  lemma RaisedIs(c: Config, x: real)
    requires x >= 0.0
    ensures var a := Raised(c, x) as real;
            if x < (c.bandwidth + 1) as real then x - 1.0 < a <= x else a == c.bandwidth as real
  {
  }

  lemma LoweredIs(c: Config, x: real)
    requires ValidConfig(c) && x >= 0.0
    ensures var a := Lowered(c, x) as real;
            if x >= c.bandwidth as real * 0.15 then x - 1.0 < a <= x else a == c.bandwidth as real * 0.15
  {
    FloorIs(c);
  }

  /** `over` thousandths of a second too slow, as a multiple of the ping limit, over a period. */
  function Share(over: int, period: nat, plimit: int): real
    requires plimit > 0
  {
    over as real * period as real / plimit as real
  }

  /** The limit scaled up, and scaled down. */
  function Up(limit: int, share: real): real {
    limit as real * (1.0 + 0.004 * share / 1000.0)
  }

  function Down(limit: int, share: real): real {
    limit as real * (1.0 - 0.005 * share / 1000.0)
  }

  lemma UpIs(limit: int, share: real)
    ensures Scaled(limit, 0.004, -share) == Up(limit, share)
  {
  }

  lemma DownIs(limit: int, share: real)
    ensures Scaled(limit, 0.005, share) == Down(limit, share)
  {
  }

  lemma ShareIs(c: Config, over: int, plimit: int)
    requires plimit > 0
    ensures Relative(c, over as real, plimit) == Share(over, c.period, plimit)
    ensures Relative(c, -(over as real), plimit) == -Share(over, c.period, plimit)
  {
    RelativeOpposite(c, -(over as real), plimit);
  }

  lemma AdjustedUp(c: Config, limit: int, plimit: int, fil: int, load: int)
    requires 0 <= fil < plimit && load as real >= limit as real * 0.85
    ensures Adjusted(c, limit, plimit, fil, load) == Raised(c, Up(limit, Share(plimit - fil, c.period, plimit)))
  {
    hide Raised, Lowered, Scaled, Relative, Share, Up;
    ShareIs(c, plimit - fil, plimit);
    UpIs(limit, Share(plimit - fil, c.period, plimit));
    assert (fil - plimit) as real == -((plimit - fil) as real);
  }

  /** How much too slow counts. */
  function Over(fil: int, plimit: int): int {
    if fil - plimit > 2 * plimit then 2 * plimit else fil - plimit
  }

  lemma AdjustedDown(c: Config, limit: int, plimit: int, fil: int, load: int)
    requires 0 < plimit <= fil
    ensures Adjusted(c, limit, plimit, fil, load) ==
            Lowered(c, Down(limit, Share(Over(fil, plimit), c.period, plimit)))
  {
    hide Raised, Lowered, Scaled, Relative, Share, Down;
    ShareIs(c, Over(fil, plimit), plimit);
    DownIs(limit, Share(Over(fil, plimit), c.period, plimit));
  }

  lemma ShareIn(c: Config, over: int, plimit: int, k: nat)
    requires ValidConfig(c) && plimit > 0 && 0 <= over <= k * plimit && k <= 2
    ensures 0.0 <= Share(over, c.period, plimit) <= 2000.0 * k as real
  {
    assert over as real <= k as real * plimit as real;
    RelativeIn(over as real, c.period as real, plimit as real, k as real);
  }

  lemma UpIsPositive(limit: int, share: real)
    requires limit >= 0 && share >= 0.0
    ensures Up(limit, share) >= 0.0
  {
  }

  lemma DownIsPositive(limit: int, share: real)
    requires limit >= 0 && 0.0 <= share <= 4000.0
    ensures Down(limit, share) >= 0.0
  {
  }

  lemma Unchanged(c: Config, limit: int, plimit: int, fil: int, load: int)
    requires 0 <= fil < plimit && (load as real) < limit as real * 0.85
    ensures Adjusted(c, limit, plimit, fil, load) == limit
  {
  }

  /** With pings faster than their limit, and a load of at least 85%, the limit goes up by 0.4% a second for
      each multiple of the ping limit, rounded down, to the bandwidth at most; with less load it stays. */
  lemma RisesBy(c: Config, limit: int, plimit: int, fil: int, load: int, share: real, top: real)
    requires ValidConfig(c) && InRange(c, limit) && 0 <= fil < plimit
    requires share == (plimit - fil) as real * c.period as real / plimit as real
    requires top == limit as real * (1.0 + 0.004 * share / 1000.0)
    ensures var x := Adjusted(c, limit, plimit, fil, load);
            if load as real < limit as real * 0.85 then x == limit
            else if top < (c.bandwidth + 1) as real then top - 1.0 < x as real <= top
            else x == c.bandwidth
  {
    assert share == Share(plimit - fil, c.period, plimit) && top == Up(limit, share);
    hide Adjusted, Raised, Relative, Floor, Share, Up;
    if load as real >= limit as real * 0.85 {
      RisesTo(c, limit, plimit, fil, load, top);
    } else {
      Unchanged(c, limit, plimit, fil, load);
    }
  }

  lemma RisesTo(c: Config, limit: int, plimit: int, fil: int, load: int, top: real)
    requires ValidConfig(c) && InRange(c, limit) && 0 <= fil < plimit && load as real >= limit as real * 0.85
    requires top == Up(limit, Share(plimit - fil, c.period, plimit))
    ensures var x := Adjusted(c, limit, plimit, fil, load);
            if top < (c.bandwidth + 1) as real then top - 1.0 < x as real <= top else x == c.bandwidth
  {
    hide Adjusted, Raised, Relative, Floor, Share, Up;
    FloorIs(c);
    AdjustedUp(c, limit, plimit, fil, load);
    ShareIn(c, plimit - fil, plimit, 1);
    UpIsPositive(limit, Share(plimit - fil, c.period, plimit));
    RaisedIs(c, top);
  }

  /** With pings slower than their limit it goes down by 0.5% a second for each multiple of the ping limit, up to
      two, rounded down, to 15% of the bandwidth at least. */
  lemma FallsBy(c: Config, limit: int, plimit: int, fil: int, load: int, over: int, share: real, low: real)
    requires ValidConfig(c) && InRange(c, limit) && 0 < plimit <= fil
    requires over == if fil - plimit > 2 * plimit then 2 * plimit else fil - plimit
    requires share == over as real * c.period as real / plimit as real
    requires low == limit as real * (1.0 - 0.005 * share / 1000.0)
    ensures var x := Adjusted(c, limit, plimit, fil, load);
            if low >= c.bandwidth as real * 0.15 then low - 1.0 < x as real <= low
            else x as real == c.bandwidth as real * 0.15
  {
    assert over == Over(fil, plimit) && share == Share(over, c.period, plimit) && low == Down(limit, share);
    hide Adjusted, Lowered, Relative, Floor, Share, Down, Over;
    FallsTo(c, limit, plimit, fil, load, low);
  }

  lemma FallsTo(c: Config, limit: int, plimit: int, fil: int, load: int, low: real)
    requires ValidConfig(c) && InRange(c, limit) && 0 < plimit <= fil
    requires low == Down(limit, Share(Over(fil, plimit), c.period, plimit))
    ensures var x := Adjusted(c, limit, plimit, fil, load);
            if low >= c.bandwidth as real * 0.15 then low - 1.0 < x as real <= low
            else x as real == c.bandwidth as real * 0.15
  {
    hide Adjusted, Lowered, Relative, Floor, Share, Down;
    FloorIs(c);
    AdjustedDown(c, limit, plimit, fil, load);
    ShareIn(c, Over(fil, plimit), plimit, 2);
    DownIsPositive(limit, Share(Over(fil, plimit), c.period, plimit));
    LoweredIs(c, low);
  }

  /** What a pass learns about the pings and the load. */
  datatype Ping = Ping(plimit: int, fil: int, load: int)

  /** The limit after passes in one mode. */
  function AfterPings(c: Config, limit: int, pings: seq<Ping>): int
    requires forall i | 0 <= i < |pings| :: pings[i].plimit > 0
    decreases |pings|
  {
    if pings == [] then limit
    else AfterPings(c, Adjusted(c, limit, pings[0].plimit, pings[0].fil, pings[0].load), pings[1..])
  }

  /** A busy pass with pings so fast that 0.4% a second, for as long as a period and as fast as they are, is at
      least one bit. */
  predicate FastAndBusy(c: Config, limit: int, p: Ping) {
    0 <= p.fil < p.plimit && p.load as real >= c.bandwidth as real * 0.85 &&
    Up(limit, Share(p.plimit - p.fil, c.period, p.plimit)) >= (limit + 1) as real
  }

  lemma RisesStrictly(c: Config, start: int, limit: int, p: Ping)
    requires ValidConfig(c) && InRange(c, start) && InRange(c, limit) && start <= limit && FastAndBusy(c, start, p)
    ensures var x := Adjusted(c, limit, p.plimit, p.fil, p.load);
            InRange(c, x) && (x > limit || x == c.bandwidth) && x >= limit
  {
    hide Adjusted, Share, Up, Raised, Floor;
    FloorIs(c);
    AdjustedInRange(c, limit, p.plimit, p.fil, p.load);
    LoadIsEnough(c, limit, p.load);
    AdjustedUp(c, limit, p.plimit, p.fil, p.load);
    UpGrows(start, limit, Share(p.plimit - p.fil, c.period, p.plimit));
    RaisedAbove(c, limit, Up(limit, Share(p.plimit - p.fil, c.period, p.plimit)));
  }

  lemma RaisedAbove(c: Config, limit: int, x: real)
    requires x >= (limit + 1) as real && limit >= 0
    ensures Raised(c, x) > limit || Raised(c, x) == c.bandwidth
  {
  }

  lemma UpGrows(start: int, limit: int, share: real)
    requires 0 < start <= limit && Up(start, share) >= (start + 1) as real
    ensures Up(limit, share) >= (limit + 1) as real
  {
    var g := 0.004 * share / 1000.0;
    assert Up(start, share) == start as real + start as real * g;
    assert Up(limit, share) == limit as real + limit as real * g;
    Grows(start as real, limit as real, g);
  }

  lemma Grows(a: real, b: real, g: real)
    requires 0.0 < a <= b && a * g >= 1.0
    ensures b * g >= 1.0
  {
    NotNegative(a, g);
    assert (b - a) * g >= 0.0;
    assert b * g == a * g + (b - a) * g;
  }

  lemma NotNegative(a: real, g: real)
    requires a > 0.0 && a * g > 0.0
    ensures g >= 0.0
  {
  }

  lemma LoadIsEnough(c: Config, limit: int, load: int)
    requires limit <= c.bandwidth && load as real >= c.bandwidth as real * 0.85
    ensures load as real >= limit as real * 0.85
  {
  }

  /** The link recovers: with enough such passes the limit is the bandwidth again. */
  lemma {:induction false} Recovers(c: Config, start: int, limit: int, pings: seq<Ping>)
    requires ValidConfig(c) && InRange(c, start) && InRange(c, limit) && start <= limit
    requires forall i | 0 <= i < |pings| :: pings[i].plimit > 0 && FastAndBusy(c, start, pings[i])
    requires |pings| >= c.bandwidth - limit
    ensures AfterPings(c, limit, pings) == c.bandwidth
    decreases |pings|
  {
    hide Adjusted, FastAndBusy;
    if pings != [] {
      var p := pings[0];
      RisesStrictly(c, start, limit, p);
      Recovers(c, start, Adjusted(c, limit, p.plimit, p.fil, p.load), pings[1..]);
    }
  }

  // ---------- the measurement of the ping limit ----------

  function Clamped(limit: int): int {
    if limit < 10000 then 10000 else if limit > 800000 then 800000 else limit
  }

  /** The ping limit after the measurement. */
  function Measured(c: Config, pinglimit: int, fil: int): int {
    Clamped(if c.entitlement then Trunc(pinglimit as real + fil as real * 1.1) else Trunc(fil as real * 2.0))
  }

  /** With the entitlement the measured time is added to the ping limit in force, and not to the one
      on the command line: a second measurement adds to the first. Exactly when it makes no difference
      which of the two it is. */
  lemma MeasuresFromCommandLine(c: Config, pinglimit: nat, fil: nat)
    requires c.entitlement
    ensures var a, b := pinglimit as real + fil as real * 1.1, c.limit as real + fil as real * 1.1;
            Measured(c, pinglimit, fil) == Measured(c, c.limit, fil) <==>
            pinglimit == c.limit || (a >= 800000.0 && b >= 800000.0) || (a < 10001.0 && b < 10001.0)
  {
    var a, b := pinglimit as real + fil as real * 1.1, c.limit as real + fil as real * 1.1;
    assert a - b == (pinglimit - c.limit) as real;
    assert Trunc(a) == Trunc(b) + (pinglimit - c.limit);
  }

  /** In whole numbers: twice the measured time, or what the limit was and 110% of it, rounded down, but between
      10 and 800 milliseconds. */
  lemma MeasuredIs(c: Config, pinglimit: nat, fil: nat)
    ensures var m := Measured(c, pinglimit, fil);
            10000 <= m <= 800000 &&
            if c.entitlement then
              (m < 800000 ==> 10 * pinglimit + 11 * fil < 10 * m + 10) &&
              (m > 10000 ==> 10 * m <= 10 * pinglimit + 11 * fil)
            else m == if 2 * fil < 10000 then 10000 else if 2 * fil > 800000 then 800000 else 2 * fil
  {
    var x := pinglimit as real + fil as real * 1.1;
    assert 10.0 * x == (10 * pinglimit + 11 * fil) as real;
  }

  // ---------- the state machine ----------

  /** Where the realtime classes lead. */
  function Mode(c: Config, realtime: nat): State {
    if realtime == 0 && c.entitlement then Active else MinRtt
  }

  function PingLimit(c: Config, pinglimit: int, realtime: nat): int {
    if realtime == 0 && c.entitlement then 135 * c.limit / 100 + pinglimit else pinglimit
  }

  /** The state with its limits: the one proposed, and those last used in each mode. */
  datatype Limits = Limits(state: State, proposed: int, savedActive: int, savedRealtime: int)

  /** Not an idle link that stays idle. */
  predicate Busy(c: Config, s: State, load: int) {
    s != Idle || load as real >= 0.15 * c.bandwidth as real
  }

  /** What a pass does to the limits: the limit of a mode is kept for when the mode comes back, and the
      limit in force is adjusted. */
  function Regulated(c: Config, l: Limits, pinglimit: int, fil: int, i: Input): Limits
    requires pinglimit > 0
  {
    if !Busy(c, l.state, i.load) then l
    else
      var mode := Mode(c, i.realtime);
      var active := if l.state == Active then l.proposed else l.savedActive;
      var realtime := if l.state == MinRtt then l.proposed else l.savedRealtime;
      var base := if mode == l.state then l.proposed else if mode == Active then active else realtime;
      Limits(if i.load as real < 0.1 * c.bandwidth as real then Idle else mode,
             Adjusted(c, base, PingLimit(c, pinglimit, i.realtime), fil, i.load), active, realtime)
  }

  /** An idle link stays as it is below 15% of the bandwidth. Otherwise the mode is the one for realtime traffic if
      there is any, or if no limit is to be added to the measured time, and the link is idle below 10%. */
  lemma ModesAre(c: Config, l: Limits, pinglimit: int, fil: int, i: Input)
    requires pinglimit > 0
    ensures var r := Regulated(c, l, pinglimit, fil, i);
            if l.state == Idle && 100 * i.load < 15 * c.bandwidth then r == l
            else r.state == if 10 * i.load < c.bandwidth then Idle
                            else if i.realtime > 0 || !c.entitlement then MinRtt else Active
  {
    hide Adjusted;
    assert (i.load as real < 0.15 * c.bandwidth as real) == (100 * i.load < 15 * c.bandwidth);
    assert (i.load as real < 0.1 * c.bandwidth as real) == (10 * i.load < c.bandwidth);
  }

  /** Realtime traffic is held to the ping limit; without it, 135% of the limit on the command line are added. */
  lemma BulkMayWaitLonger(c: Config, l: Limits, pinglimit: int, fil: int, i: Input)
    requires pinglimit > 0 && (l.state == Active || l.state == MinRtt)
    ensures var r := Regulated(c, l, pinglimit, fil, i);
            (l.state == MinRtt && i.realtime > 0 ==> r.proposed == Adjusted(c, l.proposed, pinglimit, fil, i.load)) &&
            (l.state == Active && i.realtime == 0 && c.entitlement ==>
               var longer := pinglimit + 135 * c.limit / 100;
               longer >= pinglimit && r.proposed == Adjusted(c, l.proposed, longer, fil, i.load))
  {
    hide Adjusted;
  }

  /** A mode that comes back starts from the limit it was left with. */
  lemma ModeIsRemembered(c: Config, l: Limits, pinglimit: int, fil1: int, i1: Input, fil2: int, i2: Input)
    requires pinglimit > 0 && c.entitlement && 10 * i1.load >= c.bandwidth
    ensures var m := Regulated(c, l, pinglimit, fil1, i1);
            var r := Regulated(c, m, pinglimit, fil2, i2);
            (l.state == Active && i1.realtime > 0 && i2.realtime == 0 ==>
               r.proposed == Adjusted(c, l.proposed, pinglimit + 135 * c.limit / 100, fil2, i2.load)) &&
            (l.state == MinRtt && i1.realtime == 0 && i2.realtime > 0 ==>
               r.proposed == Adjusted(c, l.proposed, pinglimit, fil2, i2.load))
  {
    hide Adjusted;
    assert (i1.load as real < 0.1 * c.bandwidth as real) == (10 * i1.load < c.bandwidth);
  }

  /** The time of the answer to the last ping, at most one period, which it is without an answer. */
  function RawTime(c: Config, i: Input): nat {
    if i.pong.Some? && i.pong.value <= c.period then i.pong.value else c.period
  }

  predicate Running(s: State) {
    s.Idle? || s.Active? || s.MinRtt?
  }

  /** Limits that may be sent: the one for measuring, and those between 15% and 100% of the bandwidth. */
  ghost predicate MaySend(c: Config, limits: seq<int>) {
    forall l | l in limits :: l == 1000 || InRange(c, l)
  }

  lemma SentMore(c: Config, limits: seq<int>, limit: int)
    requires MaySend(c, limits) && (limit == 1000 || InRange(c, limit))
    ensures MaySend(c, limits + [limit])
  {
  }

  /** More limits have been sent, and the last of them is in force. */
  ghost predicate Sends(was: seq<int>, sent: int, now: seq<int>, sent': int) {
    was <= now && sent' == if |now| == |was| then sent else now[|now| - 1]
  }

  lemma NothingSent(h: seq<int>, sent: int)
    ensures Sends(h, sent, h, sent)
  {
  }

  lemma OneSent(h: seq<int>, sent: int, rate: int)
    ensures Sends(h, sent, h + if sent == rate then [] else [rate], rate)
  {
  }

  lemma SendsMore(a: seq<int>, x: int, b: seq<int>, y: int, c: seq<int>, z: int)
    requires Sends(a, x, b, y) && Sends(b, y, c, z)
    ensures Sends(a, x, c, z)
  {
  }

  class Monitor {
    const c: Config
    var state: State
    var pingOn: bool
    var received: nat
    var fil: int
    var pinglimit: int
    var plimit: int
    /** The limit last sent to the kernel, the one proposed, and those last used in each mode. */
    var sent: int
    var proposed: int
    var savedActive: int
    var savedRealtime: int
    var first: bool
    var classes: nat
    /** All limits that have been sent. */
    ghost var history: seq<int>

    constructor (c: Config, classes: nat)
      requires ValidConfig(c)
      ensures Inv() && this.c == c && state == Check && sent == c.bandwidth && pinglimit == c.limit && !pingOn && first
      ensures history == [] && proposed == savedActive == savedRealtime
      ensures 10 * proposed <= 9 * c.bandwidth < 10 * proposed + 10
    {
      this.c := c;
      state, pingOn, received, fil, pinglimit, plimit, first := Check, false, 0, 0, c.limit, 0, true;
      this.classes := classes;
      sent, history := c.bandwidth, [];
      var start := Trunc(c.bandwidth as real * 0.9);
      proposed, savedActive, savedRealtime := start, start, start;
      new;
      FloorIs(c);
    }

    /** Before and after every pass. */
    ghost predicate Inv()
      reads `state, `pingOn, `received, `fil, `pinglimit, `sent, `history, `proposed, `savedActive, `savedRealtime
    {
      ValidConfig(c) && InRange(c, proposed) && InRange(c, savedActive) && InRange(c, savedRealtime) &&
      0 <= fil <= 1000 * c.period && pinglimit >= 0 && (Running(state) ==> pinglimit > 0) && received < 65536 &&
      (state == Init ==> sent == 1000 && pingOn) && (Running(state) ==> sent == proposed) &&
      (sent == 1000 || InRange(c, sent)) && MaySend(c, history)
    }

    /** Sends a limit to the kernel, unless it is the last one sent. */
    method Modify(rate: int)
      requires MaySend(c, history) && (rate == 1000 || InRange(c, rate))
      modifies `sent, `history
      ensures sent == rate && MaySend(c, history)
      ensures history == old(history) + if old(sent) == rate then [] else [rate]
    {
      if sent == rate { return; }
      SentMore(c, history, rate);
      sent, history := rate, history + [rate];
    }

    /** The pongs of one pass: the answer to the last ping counts at most one period. */
    method Pongs(i: Input) returns (raw: nat)
      requires Inv()
      modifies `received
      ensures Inv() && raw <= c.period
      ensures raw == RawTime(c, i)
      ensures received == (old(received) + i.pongs) % 65536
    {
      raw := c.period;
      received := (received + i.pongs) % 65536;
      if i.pong.Some? {
        raw := i.pong.value;
        if raw > c.period { raw := c.period; }
      }
    }

    function Now(): Limits
      reads `state, `proposed, `savedActive, `savedRealtime
    {
      Limits(state, proposed, savedActive, savedRealtime)
    }

    /** The scan failed, or the number of classes changed. */
    predicate Reset(i: Input)
      reads this
    {
      i.scanFailed || (!first && classes != i.classes)
    }

    /** One pass of the main loop. */
    method Pass(i: Input)
      requires Inv() && state != Disabled
      modifies this
      ensures Inv() && state != Disabled && classes == i.classes && first == old(Reset(i))
      ensures Sends(old(history), old(sent), history, sent) && (old(Reset(i)) ==> history == old(history))
      ensures old(Reset(i)) ==> Now() == old(Now()).(state := Check) && !pingOn && sent == old(sent)
      ensures !old(Reset(i)) ==>
                Now() == if Running(old(state)) then Regulated(c, old(Now()), old(pinglimit), fil, i)
                         else old(Now()).(state := state)
      ensures !old(Reset(i)) ==> pingOn == (Running(old(state)) ==> Busy(c, old(state), i.load))
      ensures !old(Reset(i)) && Running(old(state)) ==>
                fil == if old(pingOn) then Filtered(old(fil), RawTime(c, i), 200) else old(fil)
      ensures !old(Reset(i)) && old(state) == Check ==>
                state == if (old(received) + i.pongs) % 65536 < 2 then Check
                         else if pinglimit != 0 && !c.entitlement then Idle else Init
      ensures !old(Reset(i)) && old(state) == Init ==>
                state == if (old(received) + i.pongs) % 65536 > 15000 / c.period + 1 then Idle else Init
      ensures pinglimit == if !old(Reset(i)) && old(state) == Init && state == Idle
                           then Measured(c, old(pinglimit), fil) else old(pinglimit)
    {
      hide Regulated, Filtered, Alpha, Busy, Inv, MaySend, Sends, Measured, RawTime, ValidConfig;
      NothingSent(history, sent);
      var raw := Pongs(i);
      var before := classes;
      classes := i.classes;
      if i.scanFailed || (!first && before != classes) {
        StartOver();
        return;
      }
      Transition(i, raw);
      first := false;
    }

    /** Filters the ping time, and takes a step of the state machine. */
    method Transition(i: Input, raw: nat)
      requires Inv() && state != Disabled && raw == RawTime(c, i) <= c.period
      modifies `state, `pingOn, `received, `fil, `pinglimit, `plimit, `sent, `history, `proposed, `savedActive,
               `savedRealtime
      ensures Inv() && state != Disabled && Sends(old(history), old(sent), history, sent)
      ensures Now() == if Running(old(state)) then Regulated(c, old(Now()), old(pinglimit), fil, i)
                       else old(Now()).(state := state)
      ensures pingOn == (Running(old(state)) ==> Busy(c, old(state), i.load))
      ensures Running(old(state)) ==> fil == if old(pingOn) then Filtered(old(fil), raw, 200) else old(fil)
      ensures old(state) == Check ==>
                state == if old(received) < 2 then Check else if pinglimit != 0 && !c.entitlement then Idle else Init
      ensures old(state) == Init ==> state == if old(received) > 15000 / c.period + 1 then Idle else Init
      ensures pinglimit == if old(state) == Init && state == Idle then Measured(c, old(pinglimit), fil)
                           else old(pinglimit)
    {
      hide Regulated, Filtered, Alpha, Busy, MaySend, Sends, Measured, RawTime, Floor, InRange;
      if pingOn { Filter(raw); }
      if state == Check {
        CheckPass(raw);
      } else if state == Init {
        InitPass(raw);
      } else {
        RunningPass(i);
      }
    }

    method StartOver()
      requires Inv()
      modifies `first, `pingOn, `state
      ensures Inv() && first && !pingOn && state == Check
    {
      first, pingOn, state := true, false, Check;
    }

    method Filter(raw: nat)
      requires Inv() && raw <= c.period
      modifies `fil
      ensures Inv() && fil == Filtered(old(fil), raw, 200)
    {
      AlphaIs(c.period);
      FilterStaysBetween(fil, raw);
      fil := Filtered(fil, raw, Alpha(c.period));
    }

    /** The controller cannot get stuck while the link is idle: a link that is full up to its limit,
        however low, is busy. */
    lemma FullLinkIsBusy(load: int)
      requires Inv() && Running(state) && load >= sent
      ensures Busy(c, state, load)
    {
      FloorIs(c);
    }

    /** Waits for two pongs. A limit from the command line is used as it is; otherwise the link is
        unloaded for the measurement. */
    method CheckPass(raw: nat)
      requires Inv() && state == Check && raw <= c.period
      modifies `pingOn, `state, `fil, `received, `sent, `history
      ensures Inv() && pingOn
      ensures Sends(old(history), old(sent), history, sent)
      ensures state == if old(received) < 2 then Check else if pinglimit != 0 && !c.entitlement then Idle else Init
      ensures fil == (if state == Idle then raw * 1000 else old(fil)) && (state == Check ==> sent == old(sent))
      ensures received == if state == Init then 0 else old(received)
    {
      pingOn := true;
      if received >= 2 {
        if pinglimit != 0 && !c.entitlement {
          sent := 0;
          Modify(proposed);
          fil := raw * 1000;
          state := Idle;
        } else {
          Modify(1000);
          received := 0;
          state := Init;
        }
      }
    }

    /** Sets the ping limit from the filtered ping time. */
    method Measure()
      modifies `pinglimit
      ensures pinglimit == Measured(c, old(pinglimit), fil) && pinglimit >= 10000
    {
      if c.entitlement {
        pinglimit := Trunc(pinglimit as real + fil as real * 1.1);
      } else {
        pinglimit := Trunc(fil as real * 2.0);
      }
      if pinglimit < 10000 { pinglimit := 10000; }
      if pinglimit > 800000 { pinglimit := 800000; }
    }

    /** Measures the ping time of the unloaded link, for fifteen seconds. */
    method InitPass(raw: nat)
      requires Inv() && state == Init && raw <= c.period
      modifies `state, `fil, `sent, `history, `pinglimit
      ensures Inv() && pingOn == old(pingOn)
      ensures Sends(old(history), old(sent), history, sent)
      ensures state == (if received > 15000 / c.period + 1 then Idle else Init)
      ensures fil == if received < 10000 / c.period + 1 then raw * 1000 else old(fil)
      ensures pinglimit == if state == Idle then Measured(c, old(pinglimit), fil) else old(pinglimit)
    {
      hide InRange, Floor, MaySend, Sends, Measured;
      NothingSent(history, sent);
      OneSent(history, sent, proposed);
      if received < 10000 / c.period + 1 { fil := raw * 1000; }
      if received > 15000 / c.period + 1 {
        state := Idle;
        Modify(proposed);
        Measure();
      }
    }

    /** Watches the pings while the link is in use, and adjusts its limit. */
    method RunningPass(i: Input)
      requires Inv() && Running(state)
      modifies `state, `pingOn, `plimit, `proposed, `sent, `history, `savedActive, `savedRealtime
      ensures pinglimit > 0 && Inv() && Running(state) && Now() == Regulated(c, old(Now()), pinglimit, fil, i)
      ensures pingOn == Busy(c, old(state), i.load)
      ensures Sends(old(history), old(sent), history, sent)
    {
      hide MaySend, Sends, Adjusted, PingLimit, Floor, InRange, ValidConfig;
      NothingSent(history, sent);
      if state == Idle {
        pingOn := false;
        if i.load as real < 0.15 * c.bandwidth as real { return; }
      }
      pingOn := true;
      if state == MinRtt { savedRealtime := proposed; }
      if state == Active { savedActive := proposed; }
      ghost var was, before := history, sent;
      ChooseMode(i);
      ghost var between, middle := history, sent;
      if i.load as real < 0.1 * c.bandwidth as real { state := Idle; }
      AdjustLimit(i);
      SendsMore(was, before, between, middle, history, sent);
    }

    method ChooseMode(i: Input)
      requires Inv() && Running(state)
      modifies `state, `plimit, `proposed, `sent, `history
      ensures Inv() && state == Mode(c, i.realtime) && plimit == PingLimit(c, pinglimit, i.realtime) && plimit > 0
      ensures proposed == if state == old(state) then old(proposed) else if state ==
              Active then savedActive else savedRealtime
      ensures Sends(old(history), old(sent), history, sent)
    {
      if i.realtime == 0 && c.entitlement {
        plimit := 135 * c.limit / 100 + pinglimit;
        if state != Active {
          state := Active;
          proposed := savedActive;
          Modify(proposed);
        }
      } else {
        plimit := pinglimit;
        if state != MinRtt {
          state := MinRtt;
          proposed := savedRealtime;
          Modify(proposed);
        }
      }
    }

    method AdjustLimit(i: Input)
      requires Inv() && Running(state) && plimit > 0
      modifies `proposed, `sent, `history
      ensures Inv() && proposed == Adjusted(c, old(proposed), plimit, fil, i.load)
      ensures Sends(old(history), old(sent), history, sent)
    {
      hide Relative, Scaled, Trunc, Floor;
      AdjustedInRange(c, proposed, plimit, fil, i.load);
      var err := (fil - plimit) as real;
      if err < 0.0 {
        if i.load as real < sent as real * 0.85 { return; }
        proposed := Trunc(Scaled(proposed, 0.004, Relative(c, err, plimit)));
        if proposed > c.bandwidth { proposed := c.bandwidth; }
      } else {
        if err > (2 * plimit) as real { err := (2 * plimit) as real; }
        proposed := Trunc(Scaled(proposed, 0.005, Relative(c, err, plimit)));
        if proposed as real < c.bandwidth as real * 0.15 { proposed := Floor(c); }
      }
      Modify(proposed);
    }

    /** A whole run, until a signal comes or the wait for pongs fails: every limit sent is the one for
        measuring, or between 15% and 100% of the bandwidth; the last is the bandwidth. */
    method Run(inputs: seq<Input>)
      requires Inv() && state != Disabled
      modifies this
      ensures state == Disabled && sent == c.bandwidth && MaySend(c, history)
      ensures Sends(old(history), old(sent), history, sent)
    {
      hide *;
      NothingSent(history, sent);
      var n := 0;
      while n < |inputs| && !inputs[n].waitFailed
        invariant 0 <= n <= |inputs| && Inv() && state != Disabled
        invariant Sends(old(history), old(sent), history, sent)
      {
        ghost var before, was := history, sent;
        Pass(inputs[n]);
        SendsMore(old(history), old(sent), before, was, history, sent);
        n := n + 1;
      }
      TopInRange();
      state := Disabled;
      ghost var before, was := history, sent;
      Modify(c.bandwidth);
      OneSent(before, was, c.bandwidth);
      SendsMore(old(history), old(sent), before, was, history, sent);
    }

    lemma TopInRange()
      requires Inv()
      ensures InRange(c, c.bandwidth) && MaySend(c, history)
    {
      FloorIs(c);
    }
  }
}
