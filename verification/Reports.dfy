/** Property commands and the lamp's reports: the way from a partial change through the
    commands that are sent and the state the lamp reports back into the registry. */
module Reports {
  import opened Wrappers
  import opened Bulbs
  import R = Registries

  /** A decoded property post: only what the lamp sent is present. */
  datatype Post = Post(
    power: Option<bool>, brightness: Option<Byte>, colorTemp: Option<Byte>, mode: Option<Mode>)

  const EMPTY_POST := Post(None, None, None, None)

  function Or<T>(o: Option<T>, default: T): T {
    if o.Some? then o.value else default
  }

  function ApplyPost(p: Post, prev: LightState, at: Time): LightState {
    LightState(Or(p.power, prev.power), Or(p.brightness, prev.brightness), Or(p.colorTemp, prev.colorTemp),
               Or(p.mode, prev.mode), at)
  }

  function ClampPercent(n: real): Byte {
    if n < 0.0 then 0 else if n > 100.0 then 100 else n.Floor
  }

  function RefineFromReport(caps: Capabilities, p: Post): Capabilities {
    if p.colorTemp.Some? then caps.(colorTemp := true, known := true) else caps
  }

  /** Folding a report: a field that was sent replaces the old value, one that was not is
      kept, and the time is the report's. */
  lemma PostMeans(p: Post, prev: LightState, at: Time)
    ensures var s := ApplyPost(p, prev, at);
      && (p.power.Some? ==> s.power == p.power.value) && (p.power.None? ==> s.power == prev.power)
      && (p.brightness.Some? ==> s.brightness == p.brightness.value)
      && (p.brightness.None? ==> s.brightness == prev.brightness)
      && (p.colorTemp.Some? ==> s.colorTemp == p.colorTemp.value)
      && (p.colorTemp.None? ==> s.colorTemp == prev.colorTemp)
      && (p.mode.Some? ==> s.mode == p.mode.value) && (p.mode.None? ==> s.mode == prev.mode)
      && s.reportedAt == at
  {
  }

  /** A reported number becomes the percentage below it, within 0 and 100. */
  lemma ClampMeans(n: real)
    ensures n < 0.0 ==> ClampPercent(n) == 0
    ensures n > 100.0 ==> ClampPercent(n) == 100
    ensures 0.0 <= n <= 100.0 ==> ClampPercent(n) <= 100 && ClampPercent(n) as real <= n < ClampPercent(n) as real + 1.0
  {
  }

  /** A report only ever adds to what is known of a lamp: a warmth in it shows that the lamp
      has one. */
  lemma RefineMeans(caps: Capabilities, p: Post)
    ensures var r := RefineFromReport(caps, p);
      && r.color == caps.color && r.minBrightness == caps.minBrightness
      && (caps.known ==> r.known) && (caps.colorTemp ==> r.colorTemp)
      && (r != caps <==> p.colorTemp.Some? && !(caps.known && caps.colorTemp))
      && (p.colorTemp.Some? ==> r.known && r.colorTemp)
  {
  }

  // ---- commands -----------------------------------------------------------------------

  datatype Property = LightSwitch(on: bool) | SetBrightness(pct: Byte) | SetColorTemp(pct: Byte)

  /** What has to change, in sending order: on first, then the attributes of a lit lamp;
      off alone. */
  function ChangedProps(current: LightState, want: LightState, caps: Capabilities): seq<Property> {
    if want.power then
      When(!current.power, LightSwitch(true))
      + When(want.brightness > 0 && want.brightness != current.brightness, SetBrightness(want.brightness))
      + When(SupportsColorTemp(caps) && want.colorTemp != current.colorTemp, SetColorTemp(want.colorTemp))
    else
      When(current.power, LightSwitch(false))
  }

  method ComputeChangedProps(current: LightState, want: LightState, caps: Capabilities) returns (out: seq<Property>)
    ensures out == ChangedProps(current, want, caps)
  {
    out := [];
    if want.power && want.power != current.power {
      out := out + [LightSwitch(true)];
    }
    if want.power {
      if want.brightness > 0 && want.brightness != current.brightness {
        out := out + [SetBrightness(want.brightness)];
      }
      if SupportsColorTemp(caps) && want.colorTemp != current.colorTemp {
        out := out + [SetColorTemp(want.colorTemp)];
      }
    }
    if !want.power && want.power != current.power {
      out := out + [LightSwitch(false)];
    }
  }

  predicate Sends(props: seq<Property>, p: Property) {
    exists i :: 0 <= i < |props| && props[i] == p
  }

  lemma SendsWhen(props: seq<Property>, c: bool, x: Property, p: Property)
    ensures Sends(props + When(c, x), p) <==> Sends(props, p) || (c && p == x)
  {
    var more := props + When(c, x);
    if c {
      assert more[|props|] == x;
    }
    if Sends(props, p) {
      var i :| 0 <= i < |props| && props[i] == p;
      assert more[i] == p;
    }
  }

  function Place(p: Property): nat {
    match p
    case LightSwitch(on) => 0
    case SetBrightness(pct) => 1
    case SetColorTemp(pct) => 2
  }

  /** What is sent, property by property, and in which order: the switch first, then
      brightness, then warmth, each at most once, and the attributes to a lit lamp only. */
  lemma ChangedPropsMean(current: LightState, want: LightState, caps: Capabilities)
    ensures var props := ChangedProps(current, want, caps);
      && (forall on :: Sends(props, LightSwitch(on)) <==> on == want.power && want.power != current.power)
      && (forall pct :: Sends(props, SetBrightness(pct)) <==>
            want.power && pct == want.brightness && want.brightness > 0 && want.brightness != current.brightness)
      && (forall pct :: Sends(props, SetColorTemp(pct)) <==>
            want.power && pct == want.colorTemp && want.colorTemp != current.colorTemp
            && (caps.known ==> caps.colorTemp))
      && (forall i, j :: 0 <= i < j < |props| ==> Place(props[i]) < Place(props[j]))
  {
    var a := When(!current.power, LightSwitch(true));
    var b := When(want.brightness > 0 && want.brightness != current.brightness, SetBrightness(want.brightness));
    forall p
      ensures Sends(ChangedProps(current, want, caps), p) <==>
              if want.power then
                || (p == LightSwitch(true) && !current.power)
                || (p == SetBrightness(want.brightness) && want.brightness > 0 && want.brightness != current.brightness)
                || (p == SetColorTemp(want.colorTemp) && SupportsColorTemp(caps)
                    && want.colorTemp != current.colorTemp)
              else p == LightSwitch(false) && current.power
    {
      assert [] + a == a;
      SendsWhen([], !current.power, LightSwitch(true), p);
      SendsWhen(a, want.brightness > 0 && want.brightness != current.brightness, SetBrightness(want.brightness), p);
      SendsWhen(a + b, SupportsColorTemp(caps) && want.colorTemp != current.colorTemp,
                SetColorTemp(want.colorTemp), p);
      assert [] + When(current.power, LightSwitch(false)) == When(current.power, LightSwitch(false));
      SendsWhen([], current.power, LightSwitch(false), p);
    }
  }

  /** The report of an obedient lamp for one single-property command. */
  function Obey(p: Property): Post {
    match p
    case LightSwitch(on) => EMPTY_POST.(power := Some(on))
    case SetBrightness(pct) => EMPTY_POST.(brightness := Some(ClampPercent(pct as real)))
    case SetColorTemp(pct) => EMPTY_POST.(colorTemp := Some(ClampPercent(pct as real)))
  }

  /** What the registry holds of a lamp that its reports change. */
  datatype Known = Known(state: LightState, caps: Capabilities)

  function Report(k: Known, p: Post, at: Time): Known {
    Known(ApplyPost(p, k.state, at), RefineFromReport(k.caps, p))
  }

  /** The lamp answers every command in turn. */
  function Settle(k: Known, props: seq<Property>, at: Time): Known
    decreases props
  {
    if props == [] then k else Settle(Report(k, Obey(props[0]), at), props[1..], at)
  }

  lemma {:induction false} SettleAppend(k: Known, a: seq<Property>, b: seq<Property>, at: Time)
    ensures Settle(k, a + b, at) == Settle(Settle(k, a, at), b, at)
    decreases a
  {
    if a == [] {
      assert a + b == b;
    } else {
      SettleAppend(Report(k, Obey(a[0]), at), a[1..], b, at);
      assert (a + b)[1..] == a[1..] + b;
    }
  }

  lemma SettleAtMostOne(k: Known, props: seq<Property>, at: Time)
    requires |props| <= 1
    ensures Settle(k, props, at) == if props == [] then k else Report(k, Obey(props[0]), at)
  {
    if props != [] {
      assert props[1..] == [];
    }
  }

  function Percentage(n: Byte): Byte {
    if n > 100 then 100 else n
  }

  lemma ClampOfByte(n: Byte)
    ensures ClampPercent(n as real) == Percentage(n)
  {
  }

  /** What the lamp's reports add up to. */
  lemma SettledState(k: Known, want: LightState, at: Time)
    ensures var s := Settle(k, ChangedProps(k.state, want, k.caps), at);
      && s.state.power == want.power && s.state.mode == k.state.mode
      && s.state.brightness == (if want.power && want.brightness > 0 && want.brightness != k.state.brightness
                                then Percentage(want.brightness) else k.state.brightness)
      && s.state.colorTemp == (if want.power && SupportsColorTemp(k.caps) && want.colorTemp != k.state.colorTemp
                               then Percentage(want.colorTemp) else k.state.colorTemp)
      && s.caps.minBrightness == k.caps.minBrightness
      && SupportsColorTemp(s.caps) == SupportsColorTemp(k.caps)
  {
    ClampOfByte(want.brightness);
    ClampOfByte(want.colorTemp);
    if want.power {
      var a := When(!k.state.power, LightSwitch(true));
      var b := When(want.brightness > 0 && want.brightness != k.state.brightness, SetBrightness(want.brightness));
      var c := When(SupportsColorTemp(k.caps) && want.colorTemp != k.state.colorTemp, SetColorTemp(want.colorTemp));
      SettleAppend(k, a + b, c, at);
      SettleAppend(k, a, b, at);
      SettleAtMostOne(k, a, at);
      SettleAtMostOne(Settle(k, a, at), b, at);
      SettleAtMostOne(Settle(k, a + b, at), c, at);
    } else {
      SettleAtMostOne(k, ChangedProps(k.state, want, k.caps), at);
    }
  }

  /** Every percentage that has to be sent is one the lamp can report back. */
  predicate Reachable(k: Known, want: LightState) {
    want.power ==>
      && (want.brightness != k.state.brightness ==> want.brightness <= 100)
      && (SupportsColorTemp(k.caps) && want.colorTemp != k.state.colorTemp ==> want.colorTemp <= 100)
  }

  /** Convergence: after an obedient lamp's reports the registry has the wanted power and,
      for a lit lamp, the wanted non-zero brightness and supported warmth, exactly when
      they are percentages; that is also exactly when computing the commands again
      yields none. */
  lemma CommandsConverge(k: Known, want: LightState, at: Time)
    ensures var s := Settle(k, ChangedProps(k.state, want, k.caps), at);
      && s.state.power == want.power
      && (Reachable(k, want) <==> ChangedProps(s.state, want, s.caps) == [])
      && (Reachable(k, want) <==>
          (want.power ==>
             && (want.brightness > 0 ==> s.state.brightness == want.brightness)
             && (SupportsColorTemp(k.caps) ==> s.state.colorTemp == want.colorTemp)))
  {
    SettledState(k, want, at);
    var s := Settle(k, ChangedProps(k.state, want, k.caps), at);
    var b := When(want.brightness > 0 && want.brightness != s.state.brightness, SetBrightness(want.brightness));
    var c := When(SupportsColorTemp(s.caps) && want.colorTemp != s.state.colorTemp, SetColorTemp(want.colorTemp));
    assert |ChangedProps(s.state, want, s.caps)| == if want.power then |b| + |c| else 0;
  }

  // ---- partial changes -----------------------------------------------------------------

  datatype Change = Change(power: Option<bool>, brightness: Option<Byte>, colorTemp: Option<Byte>)

  datatype ChangeError = BrightnessRange(got: int) | BelowFloor | ColorTempRange(got: int) | Unsupported

  /** Why a change is refused, the first reason found. */
  function Objection(k: Known, c: Change): Option<ChangeError> {
    if c.brightness.Some? && c.brightness.value > 100 then Some(BrightnessRange(c.brightness.value))
    else if c.brightness.Some? && 0 < c.brightness.value < k.caps.minBrightness then Some(BelowFloor)
    else if c.colorTemp.Some? && c.colorTemp.value > 100 then Some(ColorTempRange(c.colorTemp.value))
    else if c.colorTemp.Some? && !SupportsColorTemp(k.caps) then Some(Unsupported)
    else None
  }

  /** The full state a change asks for: an explicit power wins over the one a brightness
      implies, and a lamp is never lit at zero by an explicit power. */
  function Wanted(s: LightState, c: Change): LightState {
    var b := Or(c.brightness, s.brightness);
    s.(colorTemp := Or(c.colorTemp, s.colorTemp),
       brightness := if c.power == Some(true) && b == 0 then 100 else b,
       power := Or(c.power, if c.brightness.Some? then b > 0 else s.power))
  }

  function Resolved(k: Known, c: Change): Result<LightState, ChangeError> {
    var o := Objection(k, c);
    if o.Some? then Err(o.value) else Ok(Wanted(k.state, c))
  }

  method Resolve(k: Known, c: Change) returns (r: Result<LightState, ChangeError>)
    ensures r == Resolved(k, c)
  {
    var want := k.state;
    if c.brightness.Some? {
      var pct := c.brightness.value;
      if pct > 100 {
        return Err(BrightnessRange(pct));
      }
      var floor := k.caps.minBrightness;
      if pct > 0 && pct < floor {
        return Err(BelowFloor);
      }
      want := want.(brightness := pct);
      want := want.(power := pct > 0);
    }
    if c.colorTemp.Some? {
      var pct := c.colorTemp.value;
      if pct > 100 {
        return Err(ColorTempRange(pct));
      }
      if !SupportsColorTemp(k.caps) {
        return Err(Unsupported);
      }
      want := want.(colorTemp := pct);
    }
    if c.power.Some? {
      want := want.(power := c.power.value);
      if want.power && want.brightness == 0 {
        want := want.(brightness := 100);
      }
    }
    return Ok(want);
  }

  /** When a change is refused, and for which reason: the first that holds. */
  lemma RefusedExactly(k: Known, c: Change)
    ensures var r := Resolved(k, c);
      var floor := k.caps.minBrightness;
      var brightnessBad := c.brightness.Some? && (c.brightness.value > 100 || 0 < c.brightness.value < floor);
      var tempBad := c.colorTemp.Some? && (c.colorTemp.value > 100 || (k.caps.known && !k.caps.colorTemp));
      && (r.Err? <==> brightnessBad || tempBad)
      && (r.Err? && brightnessBad ==>
            r.error == if c.brightness.value > 100 then BrightnessRange(c.brightness.value) else BelowFloor)
      && (r.Err? && !brightnessBad ==>
            r.error == if c.colorTemp.value > 100 then ColorTempRange(c.colorTemp.value) else Unsupported)
  {
  }

  /** What an accepted change asks of the lamp, field by field. */
  lemma AcceptedMeans(k: Known, c: Change)
    requires Resolved(k, c).Ok?
    ensures var w, s := Resolved(k, c).value, k.state;
      && (c.colorTemp.Some? ==> w.colorTemp == c.colorTemp.value)
      && (c.colorTemp.None? ==> w.colorTemp == s.colorTemp)
      && (c.power.Some? ==> w.power == c.power.value)
      && (c.power.None? && c.brightness.Some? ==> (w.power <==> c.brightness.value > 0))
      && (c.power.None? && c.brightness.None? ==> w.power == s.power)
      && (c.power == Some(true) && c.brightness == Some(0) ==> w.brightness == 100)
      && (c.power == Some(true) && c.brightness.None? && s.brightness == 0 ==> w.brightness == 100)
      && (c.brightness.Some? && !(c.power == Some(true) && c.brightness.value == 0) ==>
            w.brightness == c.brightness.value)
      && (c.brightness.None? && !(c.power == Some(true) && s.brightness == 0) ==> w.brightness == s.brightness)
      && w.mode == s.mode && w.reportedAt == s.reportedAt
  {
  }

  /** From the change to the lamp: once an obedient lamp has answered the commands an
      accepted change comes to, its power is the one asked for, and if it is lit it shows
      the warmth and the brightness asked for. */
  lemma ChangeIsShown(k: Known, c: Change, at: Time)
    requires Resolved(k, c).Ok?
    ensures var s := Settle(k, ChangedProps(k.state, Resolved(k, c).value, k.caps), at).state;
      && (c.power.Some? ==> s.power == c.power.value)
      && (c.power.None? && c.brightness.Some? ==> (s.power <==> c.brightness.value > 0))
      && (s.power && c.colorTemp.Some? ==> s.colorTemp == c.colorTemp.value)
      && (s.power && c.brightness.Some? && c.brightness.value > 0 ==> s.brightness == c.brightness.value)
      && (c.power == Some(true) && Or(c.brightness, k.state.brightness) == 0 ==> s.power && s.brightness == 100)
  {
    RefusedExactly(k, c);
    AcceptedMeans(k, c);
    SettledState(k, Resolved(k, c).value, at);
  }

  /** A change that was accepted is accepted again once the lamp has settled, and then
      sends nothing. */
  lemma RepeatSendsNothing(k: Known, c: Change, at: Time)
    requires Resolved(k, c).Ok?
    ensures var s := Settle(k, ChangedProps(k.state, Resolved(k, c).value, k.caps), at);
      && Resolved(s, c).Ok?
      && ChangedProps(s.state, Resolved(s, c).value, s.caps) == []
  {
    SettledState(k, Wanted(k.state, c), at);
    var s := Settle(k, ChangedProps(k.state, Wanted(k.state, c), k.caps), at);
    var w := Wanted(s.state, c);
    assert w.power == s.state.power;
    assert w.power ==> w.brightness == s.state.brightness;
    assert w.power ==> w.colorTemp == s.state.colorTemp;
  }

  // ---- concurrent reports ----------------------------------------------------------------

  /** handlePropertyPost reads the entry and writes the folded state back in two critical
      sections, with anything in between. */
  datatype Step =
    | Read(s: nat, post: Post, now: Time)
    | Commit(s: nat)
    | Other(op: R.Op)

  datatype Pending = Pending(base: LightState, post: Post, now: Time)

  /** One lamp's entry in the registry, the reports being handled, and those handled. */
  datatype State = State(reg: R.Reg, open: map<nat, Pending>, done: seq<Post>)

  predicate Enabled(st: State, id: string, step: Step) {
    match step
    case Read(s, post, now) => id in st.reg && s !in st.open
    case Commit(s) => s in st.open
    case Other(op) => !(op.SetState? && op.id == id)
  }

  ghost function Next(st: State, id: string, step: Step): State
    requires Enabled(st, id, step)
  {
    match step
    case Read(s, post, now) => st.(open := st.open[s := Pending(st.reg[id].state, post, now)])
    case Commit(s) =>
      var p := st.open[s];
      st.(reg := R.Do(st.reg, R.SetState(id, ApplyPost(p.post, p.base, p.now), p.now)).reg,
          open := st.open - {s}, done := st.done + [p.post])
    case Other(op) => st.(reg := R.Do(st.reg, op).reg)
  }

  ghost predicate Run(st: State, id: string, steps: seq<Step>)
    decreases steps
  {
    steps == [] || (Enabled(st, id, steps[0]) && Run(Next(st, id, steps[0]), id, steps[1..]))
  }

  ghost function End(st: State, id: string, steps: seq<Step>): State
    requires Run(st, id, steps)
    decreases steps
  {
    if steps == [] then st else End(Next(st, id, steps[0]), id, steps[1..])
  }

  /** One session per device: a report is read only when none is being handled. */
  ghost predicate SerialRun(st: State, id: string, steps: seq<Step>)
    decreases steps
  {
    steps == [] ||
    (&& Enabled(st, id, steps[0]) && (steps[0].Read? ==> st.open == map[])
     && SerialRun(Next(st, id, steps[0]), id, steps[1..]))
  }

  /** The last value reported, or what there was before any report. */
  function Latest<T>(init: T, vals: seq<Option<T>>): T
    decreases |vals|
  {
    if vals == [] then init
    else if vals[|vals| - 1].Some? then vals[|vals| - 1].value
    else Latest(init, vals[..|vals| - 1])
  }

  function Powers(ps: seq<Post>): (r: seq<Option<bool>>)
    ensures |r| == |ps|
  {
    seq(|ps|, i requires 0 <= i < |ps| => ps[i].power)
  }

  function Brightnesses(ps: seq<Post>): (r: seq<Option<Byte>>)
    ensures |r| == |ps|
  {
    seq(|ps|, i requires 0 <= i < |ps| => ps[i].brightness)
  }

  function ColorTemps(ps: seq<Post>): (r: seq<Option<Byte>>)
    ensures |r| == |ps|
  {
    seq(|ps|, i requires 0 <= i < |ps| => ps[i].colorTemp)
  }

  function Modes(ps: seq<Post>): (r: seq<Option<Mode>>)
    ensures |r| == |ps|
  {
    seq(|ps|, i requires 0 <= i < |ps| => ps[i].mode)
  }

  ghost predicate HoldsLatest(init: LightState, s: LightState, ps: seq<Post>) {
    && s.power == Latest(init.power, Powers(ps)) && s.brightness == Latest(init.brightness, Brightnesses(ps))
    && s.colorTemp == Latest(init.colorTemp, ColorTemps(ps)) && s.mode == Latest(init.mode, Modes(ps))
  }

  lemma LatestAfter(init: LightState, s: LightState, ps: seq<Post>, p: Post, at: Time)
    requires HoldsLatest(init, s, ps)
    ensures HoldsLatest(init, ApplyPost(p, s, at), ps + [p])
  {
    var n := |ps|;
    assert Powers(ps + [p])[..n] == Powers(ps) && Powers(ps + [p])[n] == p.power;
    assert Brightnesses(ps + [p])[..n] == Brightnesses(ps) && Brightnesses(ps + [p])[n] == p.brightness;
    assert ColorTemps(ps + [p])[..n] == ColorTemps(ps) && ColorTemps(ps + [p])[n] == p.colorTemp;
    assert Modes(ps + [p])[..n] == Modes(ps) && Modes(ps + [p])[n] == p.mode;
  }

  ghost predicate Serial(st: State, id: string, init: LightState) {
    && id in st.reg && HoldsLatest(init, st.reg[id].state, st.done)
    && (forall s, t :: s in st.open && t in st.open ==> s == t)
    && (forall s :: s in st.open ==> st.open[s].base == st.reg[id].state)
  }

  lemma SerialStep(st: State, id: string, init: LightState, step: Step)
    requires Serial(st, id, init) && Enabled(st, id, step) && (step.Read? ==> st.open == map[])
    ensures Serial(Next(st, id, step), id, init)
  {
    match step
    case Read(s, post, now) =>
    case Commit(s) =>
      var p := st.open[s];
      R.OnlySetStateTouchesState(st.reg, R.SetState(id, ApplyPost(p.post, p.base, p.now), p.now), id);
      LatestAfter(init, p.base, st.done, p.post, p.now);
    case Other(op) => R.OnlySetStateTouchesState(st.reg, op, id);
  }

  lemma {:induction false} SerialAlways(st: State, id: string, init: LightState, steps: seq<Step>)
    requires Serial(st, id, init) && SerialRun(st, id, steps)
    ensures Run(st, id, steps) && Serial(End(st, id, steps), id, init)
    decreases steps
  {
    if steps != [] {
      SerialStep(st, id, init, steps[0]);
      SerialAlways(Next(st, id, steps[0]), id, init, steps[1..]);
    }
  }

  /** With one session per device, whatever else runs in between, every field of the
      registry's state is the latest value reported for it, and the initial value if
      none was. */
  lemma EachFieldIsTheLatestReported(reg: R.Reg, id: string, steps: seq<Step>)
    requires id in reg && SerialRun(State(reg, map[], []), id, steps)
    ensures Run(State(reg, map[], []), id, steps)
    ensures var end := End(State(reg, map[], []), id, steps);
      id in end.reg && HoldsLatest(reg[id].state, end.reg[id].state, end.done)
  {
    SerialAlways(State(reg, map[], []), id, reg[id].state, steps);
  }

  /** The fields a report leaves alone. */
  predicate AgreeOutside(p: Post, a: LightState, b: LightState) {
    && (p.power.None? ==> a.power == b.power) && (p.brightness.None? ==> a.brightness == b.brightness)
    && (p.colorTemp.None? ==> a.colorTemp == b.colorTemp) && (p.mode.None? ==> a.mode == b.mode)
  }

  /** In general a report is folded onto the state of the moment exactly when, since it
      was read, nothing it does not mention has changed; two sessions on one device can
      break that, and the field another session reported meanwhile is lost. */
  lemma CommitIsFaithfulExactly(st: State, id: string, s: nat)
    requires id in st.reg && s in st.open
    ensures var p := st.open[s];
      Visible(Next(st, id, Commit(s)).reg[id].state) == Visible(ApplyPost(p.post, st.reg[id].state, p.now))
      <==> AgreeOutside(p.post, p.base, st.reg[id].state)
  {
    var p := st.open[s];
    R.OnlySetStateTouchesState(st.reg, R.SetState(id, ApplyPost(p.post, p.base, p.now), p.now), id);
  }

  /** After a commit every field is the latest reported exactly when it agreed. */
  lemma CommitHoldsExactly(st: State, id: string, init: LightState, s: nat)
    requires id in st.reg && s in st.open && HoldsLatest(init, st.reg[id].state, st.done)
    ensures var n := Next(st, id, Commit(s));
      && id in n.reg
      && (HoldsLatest(init, n.reg[id].state, n.done)
          <==> AgreeOutside(st.open[s].post, st.open[s].base, st.reg[id].state))
  {
    var p := st.open[s];
    R.OnlySetStateTouchesState(st.reg, R.SetState(id, ApplyPost(p.post, p.base, p.now), p.now), id);
    LatestAfter(init, st.reg[id].state, st.done, p.post, p.now);
  }

  ghost predicate LatestThroughout(st: State, id: string, init: LightState, steps: seq<Step>)
    requires Run(st, id, steps)
    decreases steps
  {
    && id in st.reg && HoldsLatest(init, st.reg[id].state, st.done)
    && (steps == [] || LatestThroughout(Next(st, id, steps[0]), id, init, steps[1..]))
  }

  /** Whenever a report is written back, nothing it does not mention has changed since it
      was read. */
  ghost predicate CommitsAgree(st: State, id: string, steps: seq<Step>)
    requires Run(st, id, steps)
    decreases steps
  {
    steps == [] ||
    (&& (steps[0].Commit? ==>
           var p := st.open[steps[0].s];
           id in st.reg && AgreeOutside(p.post, p.base, st.reg[id].state))
     && CommitsAgree(Next(st, id, steps[0]), id, steps[1..]))
  }

  /** With any number of sessions on a device and any reports being handled at once, every
      field is the latest value reported for it in every state of the run exactly when
      every commit agrees. */
  lemma {:induction false} LatestReportedExactly(st: State, id: string, init: LightState, steps: seq<Step>)
    requires id in st.reg && HoldsLatest(init, st.reg[id].state, st.done) && Run(st, id, steps)
    ensures LatestThroughout(st, id, init, steps) <==> CommitsAgree(st, id, steps)
    decreases steps
  {
    if steps != [] {
      var n := Next(st, id, steps[0]);
      match steps[0]
      case Read(s, post, now) => LatestReportedExactly(n, id, init, steps[1..]);
      case Commit(s) =>
        CommitHoldsExactly(st, id, init, s);
        if HoldsLatest(init, n.reg[id].state, n.done) {
          LatestReportedExactly(n, id, init, steps[1..]);
        }
      case Other(op) =>
        R.OnlySetStateTouchesState(st.reg, op, id);
        LatestReportedExactly(n, id, init, steps[1..]);
    }
  }

  lemma TwoSessionsLoseAReport(st: State, id: string)
    requires id in st.reg && st.open == map[] && !st.reg[id].state.power && st.reg[id].state.brightness != 50
    ensures var a := Next(st, id, Read(1, EMPTY_POST.(power := Some(true)), 0));
      var b := Next(a, id, Read(2, EMPTY_POST.(brightness := Some(50)), 0));
      var c := Next(b, id, Commit(2));
      var d := Next(c, id, Commit(1));
      d.done[|d.done| - 2].brightness == Some(50) && d.reg[id].state.brightness != 50
  {
    var a := Next(st, id, Read(1, EMPTY_POST.(power := Some(true)), 0));
    var b := Next(a, id, Read(2, EMPTY_POST.(brightness := Some(50)), 0));
    var p2 := b.open[2];
    R.OnlySetStateTouchesState(b.reg, R.SetState(id, ApplyPost(p2.post, p2.base, p2.now), p2.now), id);
    var c := Next(b, id, Commit(2));
    var p1 := c.open[1];
    R.OnlySetStateTouchesState(c.reg, R.SetState(id, ApplyPost(p1.post, p1.base, p1.now), p1.now), id);
  }
}
