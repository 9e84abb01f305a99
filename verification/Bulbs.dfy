/** The domain types of one lamp, and the difference between two of its states. */
module Bulbs {
  import opened Wrappers

  type Byte = n: int | 0 <= n < 256

  /** A point in time; only order and difference matter. */
  type Time = int
  const ZERO_TIME: Time := 0

  datatype Mode = White | Scene

  datatype LightState = LightState(power: bool, brightness: Byte, colorTemp: Byte, mode: Mode, reportedAt: Time)

  /** A state as far as Diff looks: the time of the report is not part of it. */
  function Visible(s: LightState): LightState {
    s.(reportedAt := ZERO_TIME)
  }

  const ZERO_STATE := LightState(false, 0, 0, White, ZERO_TIME)

  datatype Field = Power | Brightness | Temp | ModeField

  datatype Value = OnOff(on: bool) | Percent(pct: Byte) | InMode(mode: Mode)

  datatype FieldChange = FieldChange(field: Field, from: Value, to: Value)

  datatype Capabilities = Capabilities(known: bool, color: bool, colorTemp: bool, minBrightness: Byte)

  const NO_CAPABILITIES := Capabilities(false, false, false, 0)

  predicate SupportsColorTemp(c: Capabilities) {
    !c.known || c.colorTemp
  }

  function When<T>(c: bool, x: T): seq<T> {
    if c then [x] else []
  }

  function Diff(s: LightState, next: LightState): seq<FieldChange> {
    When(s.power != next.power, FieldChange(Power, OnOff(s.power), OnOff(next.power)))
    + When(s.brightness != next.brightness, FieldChange(Brightness, Percent(s.brightness), Percent(next.brightness)))
    + When(s.colorTemp != next.colorTemp, FieldChange(Temp, Percent(s.colorTemp), Percent(next.colorTemp)))
    + When(s.mode != next.mode, FieldChange(ModeField, InMode(s.mode), InMode(next.mode)))
  }

  /** What a consumer of the event stream reads out of a state. */
  function Read(s: LightState, f: Field): Value {
    match f
    case Power => OnOff(s.power)
    case Brightness => Percent(s.brightness)
    case Temp => Percent(s.colorTemp)
    case ModeField => InMode(s.mode)
  }

  /** A consumer's update on seeing one change; a value of the wrong kind is ignored. */
  function ApplyChange(s: LightState, c: FieldChange): LightState {
    match (c.field, c.to)
    case (Power, OnOff(on)) => s.(power := on)
    case (Brightness, Percent(p)) => s.(brightness := p)
    case (Temp, Percent(p)) => s.(colorTemp := p)
    case (ModeField, InMode(m)) => s.(mode := m)
    case _ => s
  }

  function ApplyChanges(s: LightState, cs: seq<FieldChange>): LightState
    decreases cs
  {
    if cs == [] then s else ApplyChanges(ApplyChange(s, cs[0]), cs[1..])
  }

  /** Each change starts from the value the consumer holds when it gets there. */
  ghost predicate FromsMatch(s: LightState, cs: seq<FieldChange>)
    decreases cs
  {
    cs == [] || (Read(s, cs[0].field) == cs[0].from && FromsMatch(ApplyChange(s, cs[0]), cs[1..]))
  }

  lemma {:induction false} ApplyChangesAppend(s: LightState, a: seq<FieldChange>, b: seq<FieldChange>)
    ensures ApplyChanges(s, a + b) == ApplyChanges(ApplyChanges(s, a), b)
    ensures FromsMatch(s, a + b) <==> FromsMatch(s, a) && FromsMatch(ApplyChanges(s, a), b)
    decreases a
  {
    if a == [] {
      assert a + b == b;
    } else {
      ApplyChangesAppend(ApplyChange(s, a[0]), a[1..], b);
      assert (a + b)[1..] == a[1..] + b;
    }
  }

  /** The difference is exactly what turns a consumer's copy of the old state into
      the new one, whenever the two copies agree up to the report time; it is empty
      exactly when nothing visible differs. */
  lemma DiffReplays(s: LightState, next: LightState, copy: LightState)
    requires Visible(copy) == Visible(s)
    ensures Visible(ApplyChanges(copy, Diff(s, next))) == Visible(next)
    ensures FromsMatch(copy, Diff(s, next))
    ensures Diff(s, next) == [] <==> Visible(s) == Visible(next)
  {
    var a := When(s.power != next.power, FieldChange(Power, OnOff(s.power), OnOff(next.power)));
    var b := When(s.brightness != next.brightness,
                  FieldChange(Brightness, Percent(s.brightness), Percent(next.brightness)));
    var c := When(s.colorTemp != next.colorTemp, FieldChange(Temp, Percent(s.colorTemp), Percent(next.colorTemp)));
    var d := When(s.mode != next.mode, FieldChange(ModeField, InMode(s.mode), InMode(next.mode)));
    ApplyChangesAppend(copy, a + b + c, d);
    ApplyChangesAppend(copy, a + b, c);
    ApplyChangesAppend(copy, a, b);
    OneChange(copy, a);
    OneChange(ApplyChanges(copy, a), b);
    OneChange(ApplyChanges(copy, a + b), c);
    OneChange(ApplyChanges(copy, a + b + c), d);
  }

  lemma OneChange(s: LightState, cs: seq<FieldChange>)
    requires |cs| <= 1
    ensures ApplyChanges(s, cs) == if cs == [] then s else ApplyChange(s, cs[0])
    ensures FromsMatch(s, cs) <==> cs == [] || Read(s, cs[0].field) == cs[0].from
  {
    if cs != [] {
      assert cs[1..] == [];
    }
  }

  // ---- what a change list says ----------------------------------------------------------

  function Rank(f: Field): nat {
    match f
    case Power => 0
    case Brightness => 1
    case Temp => 2
    case ModeField => 3
  }

  ghost predicate Mentions(cs: seq<FieldChange>, f: Field) {
    exists i :: 0 <= i < |cs| && cs[i].field == f
  }

  ghost predicate Accurate(cs: seq<FieldChange>, s: LightState, next: LightState) {
    forall i :: 0 <= i < |cs| ==> cs[i].from == Read(s, cs[i].field) && cs[i].to == Read(next, cs[i].field)
  }

  ghost predicate InOrder(cs: seq<FieldChange>) {
    forall i, j :: 0 <= i < j < |cs| ==> Rank(cs[i].field) < Rank(cs[j].field)
  }

  /** cs tells of exactly the fields in which the two states differ, each once with the
      value it had and the value it gets: power first, then brightness, warmth and mode. */
  ghost predicate Tells(cs: seq<FieldChange>, s: LightState, next: LightState) {
    && (forall f :: Mentions(cs, f) <==> Read(s, f) != Read(next, f))
    && Accurate(cs, s, next) && InOrder(cs)
  }

  function Change(s: LightState, next: LightState, f: Field): seq<FieldChange> {
    When(Read(s, f) != Read(next, f), FieldChange(f, Read(s, f), Read(next, f)))
  }

  lemma MentionsOneMore(cs: seq<FieldChange>, c: FieldChange, f: Field)
    ensures Mentions(cs + [c], f) <==> Mentions(cs, f) || c.field == f
  {
    var more := cs + [c];
    assert more[|cs|] == c;
    if Mentions(cs, f) {
      var i :| 0 <= i < |cs| && cs[i].field == f;
      assert more[i].field == f;
    }
  }

  lemma MentionsMore(cs: seq<FieldChange>, s: LightState, next: LightState, f: Field, g: Field)
    ensures Mentions(cs + Change(s, next, f), g) <==> Mentions(cs, g) || (g == f && Read(s, f) != Read(next, f))
  {
    if Read(s, f) != Read(next, f) {
      MentionsOneMore(cs, FieldChange(f, Read(s, f), Read(next, f)), g);
    } else {
      assert cs + [] == cs;
    }
  }

  lemma OrderedMore(cs: seq<FieldChange>, s: LightState, next: LightState, f: Field)
    requires Accurate(cs, s, next) && InOrder(cs) && forall g :: Mentions(cs, g) ==> Rank(g) < Rank(f)
    ensures Accurate(cs + Change(s, next, f), s, next) && InOrder(cs + Change(s, next, f))
  {
    assert forall i :: 0 <= i < |cs| ==> Mentions(cs, cs[i].field);
  }

  lemma DiffTells(s: LightState, next: LightState)
    ensures Tells(Diff(s, next), s, next)
  {
    var a, b := Change(s, next, Power), Change(s, next, Brightness);
    var c, d := Change(s, next, Temp), Change(s, next, ModeField);
    assert Diff(s, next) == a + b + c + d;
    assert [] + a == a;
    forall f
      ensures Mentions(a, f) <==> f == Power && Read(s, f) != Read(next, f)
      ensures Mentions(a + b, f) <==> Rank(f) < 2 && Read(s, f) != Read(next, f)
      ensures Mentions(a + b + c, f) <==> Rank(f) < 3 && Read(s, f) != Read(next, f)
      ensures Mentions(a + b + c + d, f) <==> Read(s, f) != Read(next, f)
    {
      MentionsMore([], s, next, Power, f);
      MentionsMore(a, s, next, Brightness, f);
      MentionsMore(a + b, s, next, Temp, f);
      MentionsMore(a + b + c, s, next, ModeField, f);
    }
    OrderedMore([], s, next, Power);
    OrderedMore(a, s, next, Brightness);
    OrderedMore(a + b, s, next, Temp);
    OrderedMore(a + b + c, s, next, ModeField);
  }
}
