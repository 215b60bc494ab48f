/** Reference counts of subsystems that bring each other up and down. */
module Subsystems {
  import opened Bits
  import opened Results

  datatype Subsystem = Audio | Video | Joystick | Haptic | Gamepad | Events | Sensor | Camera

  /** The bit that stands for a subsystem, and its place among the counts. */
  function Bit(s: Subsystem): (k: nat)
    ensures k < 32
  {
    match s
    case Audio => 4
    case Video => 5
    case Joystick => 9
    case Haptic => 12
    case Gamepad => 13
    case Events => 14
    case Sensor => 15
    case Camera => 16
  }

  /** The subsystem that must be up while this one is. */
  function Implied(s: Subsystem): Option<Subsystem> {
    match s
    case Video => Some(Events)
    case Audio => Some(Events)
    case Joystick => Some(Events)
    case Camera => Some(Events)
    case Gamepad => Some(Joystick)
    case _ => None
  }

  /** The place of a count is that of the bit of the flag. */
  lemma BitOfFlag()
    ensures Pow2(Bit(Audio)) == 0x10 && Pow2(Bit(Video)) == 0x20
    ensures Pow2(Bit(Joystick)) == 0x200 && Pow2(Bit(Haptic)) == 0x1000
    ensures Pow2(Bit(Gamepad)) == 0x2000 && Pow2(Bit(Events)) == 0x4000
    ensures Pow2(Bit(Sensor)) == 0x8000 && Pow2(Bit(Camera)) == 0x10000
  {
    assert Pow2(4) == 0x10 && Pow2(5) == 0x20;
    assert Pow2(8) == 0x100 && Pow2(9) == 0x200;
    assert Pow2(12) == 0x1000 && Pow2(13) == 0x2000;
    assert Pow2(14) == 0x4000 && Pow2(15) == 0x8000;
  }

  function Rank(s: Subsystem): nat {
    match s
    case Gamepad => 2
    case Joystick => 1
    case Video => 1
    case Audio => 1
    case Camera => 1
    case _ => 0
  }

  function RankOf(flags: set<Subsystem>): nat {
    if Gamepad in flags then 2
    else if Joystick in flags || Video in flags || Audio in flags || Camera in flags then 1
    else 0
  }

  // ---- what the operations do to the counts -----------------------------

  type Counts = c: seq<nat> | |c| == 32 witness seq(32, _ => 0)

  function Inc(c: Counts, s: Subsystem): Counts {
    c[Bit(s) := c[Bit(s)] + 1]
  }

  function Dec(c: Counts, s: Subsystem): Counts {
    if c[Bit(s)] == 0 then c else c[Bit(s) := c[Bit(s)] - 1]
  }

  /** The first user of a subsystem also becomes a user of the one it implies. */
  function InitOne(c: Counts, s: Subsystem): Counts
    decreases Rank(s)
  {
    if c[Bit(s)] == 0 && Implied(s).Some? then Inc(InitOne(c, Implied(s).value), s) else Inc(c, s)
  }

  function QuitOne(c: Counts, s: Subsystem): Counts
    decreases Rank(s)
  {
    if c[Bit(s)] == 1 && Implied(s).Some? then Dec(QuitOne(c, Implied(s).value), s) else Dec(c, s)
  }

  function InitIf(c: Counts, flags: set<Subsystem>, s: Subsystem): Counts {
    if s in flags then InitOne(c, s) else c
  }

  function QuitIf(c: Counts, flags: set<Subsystem>, s: Subsystem): Counts {
    if s in flags then QuitOne(c, s) else c
  }

  function InitAll(c: Counts, flags: set<Subsystem>): Counts {
    var c := InitIf(c, flags, Events);
    var c := InitIf(c, flags, Video);
    var c := InitIf(c, flags, Audio);
    var c := InitIf(c, flags, Joystick);
    var c := InitIf(c, flags, Gamepad);
    var c := InitIf(c, flags, Haptic);
    var c := InitIf(c, flags, Sensor);
    InitIf(c, flags, Camera)
  }

  function QuitAll(c: Counts, flags: set<Subsystem>): Counts {
    var c := QuitIf(c, flags, Camera);
    var c := QuitIf(c, flags, Sensor);
    var c := QuitIf(c, flags, Gamepad);
    var c := QuitIf(c, flags, Joystick);
    var c := QuitIf(c, flags, Haptic);
    var c := QuitIf(c, flags, Audio);
    var c := QuitIf(c, flags, Video);
    QuitIf(c, flags, Events)
  }

  // ---- quitting undoes initialising -------------------------------------

  lemma {:induction false} QuitUndoesInit(c: Counts, s: Subsystem)
    ensures QuitOne(InitOne(c, s), s) == c
    ensures InitOne(c, s)[Bit(s)] == c[Bit(s)] + 1
    decreases Rank(s)
  {
    if Implied(s).Some? {
      var i := Implied(s).value;
      QuitUndoesInit(c, i);
      InitReaches(c, i, s);
    }
  }

  /** Initialising touches no subsystem of a higher rank, nor another of the same rank. */
  lemma {:induction false} InitReaches(c: Counts, i: Subsystem, s: Subsystem)
    requires Rank(i) < Rank(s)
    ensures InitOne(c, i)[Bit(s)] == c[Bit(s)]
    decreases Rank(i)
  {
    if Implied(i).Some? {
      InitReaches(c, Implied(i).value, s);
    }
  }

  lemma {:induction false} HapticIsApart(c: Counts, s: Subsystem)
    requires s != Haptic
    ensures QuitOne(Inc(c, Haptic), s) == Inc(QuitOne(c, s), Haptic)
    decreases Rank(s)
  {
    if Implied(s).Some? {
      HapticIsApart(c, Implied(s).value);
    }
  }

  lemma HapticMayWait(c: Counts, flags: set<Subsystem>, s: Subsystem)
    requires s != Haptic
    ensures QuitIf(InitIf(c, flags, Haptic), flags, s) == InitIf(QuitIf(c, flags, s), flags, Haptic)
  {
    HapticIsApart(c, s);
  }

  lemma QuitIfUndoesInitIf(c: Counts, flags: set<Subsystem>, s: Subsystem)
    ensures QuitIf(InitIf(c, flags, s), flags, s) == c
  {
    QuitUndoesInit(c, s);
  }

  /** Quitting the same flags undoes initialising them, whatever the counts were. */
  lemma QuitUndoesInitAll(c: Counts, flags: set<Subsystem>)
    ensures QuitAll(InitAll(c, flags), flags) == c
  {
    hide InitIf, QuitIf;
    var c1 := InitIf(c, flags, Events);
    var c2 := InitIf(c1, flags, Video);
    var c3 := InitIf(c2, flags, Audio);
    var c4 := InitIf(c3, flags, Joystick);
    var c5 := InitIf(c4, flags, Gamepad);
    var c6 := InitIf(c5, flags, Haptic);
    var c7 := InitIf(c6, flags, Sensor);
    QuitIfUndoesInitIf(c7, flags, Camera);
    QuitIfUndoesInitIf(c6, flags, Sensor);
    HapticMayWait(c5, flags, Gamepad);
    QuitIfUndoesInitIf(c4, flags, Gamepad);
    HapticMayWait(c4, flags, Joystick);
    QuitIfUndoesInitIf(c3, flags, Joystick);
    QuitIfUndoesInitIf(c3, flags, Haptic);
    QuitIfUndoesInitIf(c2, flags, Audio);
    QuitIfUndoesInitIf(c1, flags, Video);
    QuitIfUndoesInitIf(c, flags, Events);
  }

  // ---- counts are what clients hold -------------------------------------

  /** How often clients hold each subsystem. */
  type Holds = Subsystem -> nat

  function Live(n: nat): nat {
    if n > 0 then 1 else 0
  }

  /** The count of a subsystem: its clients and the live subsystems that imply it. */
  function Expected(h: Holds, s: Subsystem): nat {
    match s
    case Joystick => h(Joystick) + Live(h(Gamepad))
    case Events => h(Events) + Live(h(Video)) + Live(h(Audio)) + Live(h(Camera)) + Live(h(Joystick) + Live(h(Gamepad)))
    case _ => h(s)
  }

  ghost predicate Represents(c: Counts, h: Holds) {
    forall s: Subsystem :: c[Bit(s)] == Expected(h, s)
  }

  /** The counts of matching books, place by place. */
  lemma CountsAreHolds(c: Counts, h: Holds)
    ensures Represents(c, h) <==>
      && c[4] == h(Audio) && c[5] == h(Video) && c[12] == h(Haptic) && c[13] == h(Gamepad)
      && c[15] == h(Sensor) && c[16] == h(Camera)
      && c[9] == h(Joystick) + (if h(Gamepad) > 0 then 1 else 0)
      && c[14] == h(Events) + (if h(Video) > 0 then 1 else 0) + (if h(Audio) > 0 then 1 else 0)
                + (if h(Camera) > 0 then 1 else 0) + (if h(Joystick) > 0 || h(Gamepad) > 0 then 1 else 0)
  {
    if Represents(c, h) {
      forall s: Subsystem ensures c[Bit(s)] == Expected(h, s) {
      }
      assert c[Bit(Audio)] == Expected(h, Audio) && c[Bit(Video)] == Expected(h, Video);
      assert c[Bit(Haptic)] == Expected(h, Haptic) && c[Bit(Gamepad)] == Expected(h, Gamepad);
      assert c[Bit(Sensor)] == Expected(h, Sensor) && c[Bit(Camera)] == Expected(h, Camera);
      assert c[Bit(Joystick)] == Expected(h, Joystick) && c[Bit(Events)] == Expected(h, Events);
    }
  }

  function Held(h: Holds, s: Subsystem): Holds {
    x => if x == s then h(x) + 1 else h(x)
  }

  function Released(h: Holds, s: Subsystem): Holds {
    x => if x == s && h(x) > 0 then h(x) - 1 else h(x)
  }

  lemma BitsDiffer()
    ensures forall s, t :: Bit(s) == Bit(t) ==> s == t
  {
  }

  lemma InitPlain(c: Counts, h: Holds, s: Subsystem)
    requires Represents(c, h) && (Implied(s).None?)
    ensures Represents(InitOne(c, s), Held(h, s))
  {
    hide Bit;
    BitsDiffer();
  }

  lemma InitUser(c: Counts, h: Holds, s: Subsystem)
    requires Represents(c, h) && (s.Video? || s.Audio? || s.Camera?)
    ensures Represents(InitOne(c, s), Held(h, s))
  {
    hide Bit;
    BitsDiffer();
  }

  lemma InitJoystick(c: Counts, h: Holds, s: Subsystem)
    requires Represents(c, h) && (s.Joystick?)
    ensures Represents(InitOne(c, s), Held(h, s))
  {
    hide Bit;
    BitsDiffer();
  }

  lemma InitGamepad(c: Counts, h: Holds, s: Subsystem)
    requires Represents(c, h) && (s.Gamepad?)
    ensures Represents(InitOne(c, s), Held(h, s))
  {
    hide Bit;
    BitsDiffer();
  }

  lemma InitOneRepresents(c: Counts, h: Holds, s: Subsystem)
    requires Represents(c, h)
    ensures Represents(InitOne(c, s), Held(h, s))
  {
    match s
    case Joystick => InitJoystick(c, h, s);
    case Gamepad => InitGamepad(c, h, s);
    case Video => InitUser(c, h, s);
    case Audio => InitUser(c, h, s);
    case Camera => InitUser(c, h, s);
    case _ => InitPlain(c, h, s);
  }

  lemma QuitPlain(c: Counts, h: Holds, s: Subsystem)
    requires Represents(c, h) && (Implied(s).None?) && h(s) > 0
    ensures Represents(QuitOne(c, s), Released(h, s))
  {
    hide Bit;
    BitsDiffer();
  }

  lemma QuitUser(c: Counts, h: Holds, s: Subsystem)
    requires Represents(c, h) && (s.Video? || s.Audio? || s.Camera?) && h(s) > 0
    ensures Represents(QuitOne(c, s), Released(h, s))
  {
    hide Bit;
    BitsDiffer();
  }

  lemma QuitJoystick(c: Counts, h: Holds, s: Subsystem)
    requires Represents(c, h) && (s.Joystick?) && h(s) > 0
    ensures Represents(QuitOne(c, s), Released(h, s))
  {
    hide Bit;
    BitsDiffer();
  }

  lemma QuitGamepad(c: Counts, h: Holds, s: Subsystem)
    requires Represents(c, h) && (s.Gamepad?) && h(s) > 0
    ensures Represents(QuitOne(c, s), Released(h, s))
  {
    hide Bit;
    BitsDiffer();
  }

  lemma QuitOneRepresents(c: Counts, h: Holds, s: Subsystem)
    requires Represents(c, h) && h(s) > 0
    ensures Represents(QuitOne(c, s), Released(h, s))
  {
    match s
    case Joystick => QuitJoystick(c, h, s);
    case Gamepad => QuitGamepad(c, h, s);
    case Video => QuitUser(c, h, s);
    case Audio => QuitUser(c, h, s);
    case Camera => QuitUser(c, h, s);
    case _ => QuitPlain(c, h, s);
  }

  lemma {:induction false} QuitReaches(c: Counts, i: Subsystem, s: Subsystem)
    requires Rank(i) < Rank(s)
    ensures QuitOne(c, i)[Bit(s)] == c[Bit(s)]
    decreases Rank(i)
  {
    if Implied(i).Some? {
      QuitReaches(c, Implied(i).value, s);
    }
  }

  /** Quitting keeps the books exactly when the client holds the subsystem, or it is down anyway. */
  lemma QuitRepresentsIff(c: Counts, h: Holds, s: Subsystem)
    requires Represents(c, h)
    ensures Represents(QuitOne(c, s), Released(h, s)) <==> h(s) > 0 || c[Bit(s)] == 0
  {
    if h(s) > 0 {
      QuitOneRepresents(c, h, s);
    } else if c[Bit(s)] == 0 {
      SameHolds(c, h, Released(h, s));
    } else {
      if Implied(s).Some? {
        QuitReaches(c, Implied(s).value, s);
      }
      assert QuitOne(c, s)[Bit(s)] == c[Bit(s)] - 1;
      assert Expected(Released(h, s), s) == Expected(h, s) == c[Bit(s)];
    }
  }

  /** `h`, with one more hold on every flag among `done`. */
  function HeldAmong(h: Holds, flags: set<Subsystem>, done: set<Subsystem>): Holds {
    x => if x in flags && x in done then h(x) + 1 else h(x)
  }

  /** `h`, with one hold less on every flag among `done`. */
  function ReleasedAmong(h: Holds, flags: set<Subsystem>, done: set<Subsystem>): Holds {
    x => if x in flags && x in done && h(x) > 0 then h(x) - 1 else h(x)
  }

  lemma SameHolds(c: Counts, h: Holds, h': Holds)
    requires Represents(c, h) && forall x :: h(x) == h'(x)
    ensures Represents(c, h')
  {
    forall s: Subsystem ensures c[Bit(s)] == Expected(h', s) {
      assert c[Bit(s)] == Expected(h, s);
    }
  }

  lemma InitIfRepresents(c: Counts, h: Holds, flags: set<Subsystem>, done: set<Subsystem>, s: Subsystem)
    requires Represents(c, HeldAmong(h, flags, done)) && s !in done
    ensures Represents(InitIf(c, flags, s), HeldAmong(h, flags, done + {s}))
  {
    hide Represents, InitOne;
    var before := HeldAmong(h, flags, done);
    if s in flags {
      InitOneRepresents(c, before, s);
      SameHolds(InitOne(c, s), Held(before, s), HeldAmong(h, flags, done + {s}));
    } else {
      SameHolds(c, before, HeldAmong(h, flags, done + {s}));
    }
  }

  lemma QuitIfRepresents(c: Counts, h: Holds, flags: set<Subsystem>, done: set<Subsystem>, s: Subsystem)
    requires Represents(c, ReleasedAmong(h, flags, done)) && s !in done
    requires s in flags && h(s) == 0 ==> c[Bit(s)] == 0
    ensures Represents(QuitIf(c, flags, s), ReleasedAmong(h, flags, done + {s}))
  {
    hide Represents, QuitOne;
    var before := ReleasedAmong(h, flags, done);
    if s in flags {
      QuitRepresentsIff(c, before, s);
      SameHolds(QuitOne(c, s), Released(before, s), ReleasedAmong(h, flags, done + {s}));
    } else {
      SameHolds(c, before, ReleasedAmong(h, flags, done + {s}));
    }
  }

  /** A successful initialisation adds one hold for every flag. */
  lemma InitAllRepresents(c: Counts, h: Holds, flags: set<Subsystem>)
    requires Represents(c, h)
    ensures Represents(InitAll(c, flags), x => if x in flags then h(x) + 1 else h(x))
  {
    hide Represents, InitIf;
    var c1 := InitIf(c, flags, Events);
    var c2 := InitIf(c1, flags, Video);
    var c3 := InitIf(c2, flags, Audio);
    var c4 := InitIf(c3, flags, Joystick);
    var c5 := InitIf(c4, flags, Gamepad);
    var c6 := InitIf(c5, flags, Haptic);
    var c7 := InitIf(c6, flags, Sensor);
    SameHolds(c, h, HeldAmong(h, flags, {}));
    InitIfRepresents(c, h, flags, {}, Events);
    InitIfRepresents(c1, h, flags, {} + {Events}, Video);
    InitIfRepresents(c2, h, flags, {} + {Events} + {Video}, Audio);
    InitIfRepresents(c3, h, flags, {} + {Events} + {Video} + {Audio}, Joystick);
    InitIfRepresents(c4, h, flags, {} + {Events} + {Video} + {Audio} + {Joystick}, Gamepad);
    InitIfRepresents(c5, h, flags, {} + {Events} + {Video} + {Audio} + {Joystick} + {Gamepad}, Haptic);
    InitIfRepresents(c6, h, flags, {} + {Events} + {Video} + {Audio} + {Joystick} + {Gamepad} + {Haptic}, Sensor);
    var most := {} + {Events} + {Video} + {Audio} + {Joystick} + {Gamepad} + {Haptic} + {Sensor};
    InitIfRepresents(c7, h, flags, most, Camera);
    forall x: Subsystem ensures x in most + {Camera} {
      match x
      case Audio => case Video => case Joystick => case Haptic =>
      case Gamepad => case Events => case Sensor => case Camera =>
    }
    SameHolds(InitAll(c, flags), HeldAmong(h, flags, most + {Camera}), x => if x in flags then h(x) + 1 else h(x));
  }

  /** One hold less on every flag that is held. */
  function ReleasedAll(h: Holds, flags: set<Subsystem>): Holds {
    x => if x in flags && h(x) > 0 then h(x) - 1 else h(x)
  }

  /** A quit that takes nothing from under others: joysticks that are not held are quit
      only when no gamepad stays held, and events that are not held only when nothing
      that implies them stays held. */
  predicate Fair(h: Holds, flags: set<Subsystem>) {
    var left := ReleasedAll(h, flags);
    && (Joystick in flags && h(Joystick) == 0 ==> left(Gamepad) == 0)
    && (Events in flags && h(Events) == 0 ==> EventsUnused(left))
  }

  predicate EventsUnused(h: Holds) {
    h(Video) == h(Audio) == h(Camera) == h(Joystick) == h(Gamepad) == 0
  }

  /** All subsystems quit before the joystick, before the rest, and before events. */
  const BEFORE_JOYSTICK := {Camera, Sensor, Gamepad}
  const BEFORE_EVENTS := {Camera, Sensor, Gamepad, Joystick, Haptic, Audio, Video}

  function QuitToJoystick(c: Counts, flags: set<Subsystem>): Counts {
    QuitIf(QuitIf(QuitIf(c, flags, Camera), flags, Sensor), flags, Gamepad)
  }

  function QuitToEvents(c: Counts, flags: set<Subsystem>): Counts {
    QuitIf(QuitIf(QuitIf(QuitIf(c, flags, Joystick), flags, Haptic), flags, Audio), flags, Video)
  }

  lemma UnheldIsDown(c: Counts, h: Holds, s: Subsystem)
    requires Represents(c, h) && h(s) == 0 && s != Joystick && s != Events
    ensures c[Bit(s)] == 0
  {
    assert c[Bit(s)] == Expected(h, s);
  }

  lemma ToJoystickRepresents(c: Counts, h: Holds, flags: set<Subsystem>)
    requires Represents(c, h)
    ensures Represents(QuitToJoystick(c, flags), ReleasedAmong(h, flags, BEFORE_JOYSTICK))
  {
    hide Represents, QuitIf;
    var c1 := QuitIf(c, flags, Camera);
    var c2 := QuitIf(c1, flags, Sensor);
    SameHolds(c, h, ReleasedAmong(h, flags, {}));
    PlainQuitRepresents(c, h, flags, {}, Camera);
    PlainQuitRepresents(c1, h, flags, {} + {Camera}, Sensor);
    PlainQuitRepresents(c2, h, flags, {} + {Camera} + {Sensor}, Gamepad);
    assert {} + {Camera} + {Sensor} + {Gamepad} == BEFORE_JOYSTICK;
  }

  /** Quitting any subsystem but joystick and events keeps the books. */
  lemma PlainQuitRepresents(c: Counts, h: Holds, flags: set<Subsystem>, done: set<Subsystem>, s: Subsystem)
    requires Represents(c, ReleasedAmong(h, flags, done)) && s !in done && s != Joystick && s != Events
    ensures Represents(QuitIf(c, flags, s), ReleasedAmong(h, flags, done + {s}))
  {
    hide Represents, QuitIf;
    if h(s) == 0 {
      UnheldIsDown(c, ReleasedAmong(h, flags, done), s);
    }
    QuitIfRepresents(c, h, flags, done, s);
  }

  lemma JoystickRepresentsIff(c: Counts, h: Holds, flags: set<Subsystem>)
    requires Represents(c, ReleasedAmong(h, flags, BEFORE_JOYSTICK))
    ensures Represents(QuitIf(c, flags, Joystick), ReleasedAmong(h, flags, BEFORE_JOYSTICK + {Joystick}))
       <==> (Joystick in flags && h(Joystick) == 0 ==> ReleasedAll(h, flags)(Gamepad) == 0)
  {
    var before := ReleasedAmong(h, flags, BEFORE_JOYSTICK);
    assert c[Bit(Joystick)] == Expected(before, Joystick) == h(Joystick) + Live(ReleasedAll(h, flags)(Gamepad));
    hide Represents, QuitOne, Expected;
    if Joystick in flags {
      QuitRepresentsIff(c, before, Joystick);
      var after := ReleasedAmong(h, flags, BEFORE_JOYSTICK + {Joystick});
      if Represents(QuitOne(c, Joystick), after) {
        SameHolds(QuitOne(c, Joystick), after, Released(before, Joystick));
      } else if Represents(QuitOne(c, Joystick), Released(before, Joystick)) {
        SameHolds(QuitOne(c, Joystick), Released(before, Joystick), after);
      }
    } else {
      SameHolds(c, before, ReleasedAmong(h, flags, BEFORE_JOYSTICK + {Joystick}));
    }
  }

  lemma EventsRepresentsIff(c: Counts, h: Holds, flags: set<Subsystem>)
    requires Represents(c, ReleasedAmong(h, flags, BEFORE_EVENTS))
    ensures Represents(QuitIf(c, flags, Events), ReleasedAll(h, flags))
       <==> (Events in flags && h(Events) == 0 ==> EventsUnused(ReleasedAll(h, flags)))
  {
    var before, after := ReleasedAmong(h, flags, BEFORE_EVENTS), ReleasedAll(h, flags);
    assert c[Bit(Events)] == Expected(before, Events);
    assert before(Video) == after(Video) && before(Audio) == after(Audio) && before(Camera) == after(Camera);
    assert before(Joystick) == after(Joystick) && before(Gamepad) == after(Gamepad) && before(Events) == h(Events);
    assert h(Events) == 0 ==> (c[Bit(Events)] == 0 <==> EventsUnused(after));
    EventsIsLast(h, flags);
    hide Represents, QuitOne, Expected;
    if Events in flags {
      QuitRepresentsIff(c, before, Events);
      if Represents(QuitOne(c, Events), after) {
        SameHolds(QuitOne(c, Events), after, Released(before, Events));
      } else if Represents(QuitOne(c, Events), Released(before, Events)) {
        SameHolds(QuitOne(c, Events), Released(before, Events), after);
      }
    } else {
      SameHolds(c, before, after);
    }
  }

  lemma EventsIsLast(h: Holds, flags: set<Subsystem>)
    ensures forall x: Subsystem :: x != Events ==> ReleasedAmong(h, flags, BEFORE_EVENTS)(x) == ReleasedAll(h, flags)(x)
  {
    forall x: Subsystem | x != Events ensures x in BEFORE_EVENTS {
      match x
      case Audio => case Video => case Joystick => case Haptic =>
      case Gamepad => case Sensor => case Camera =>
    }
  }

  lemma ToEventsRepresents(c: Counts, h: Holds, flags: set<Subsystem>)
    requires Represents(c, ReleasedAmong(h, flags, BEFORE_JOYSTICK + {Joystick}))
    ensures Represents(QuitIf(QuitIf(QuitIf(c, flags, Haptic), flags, Audio), flags, Video),
                       ReleasedAmong(h, flags, BEFORE_EVENTS))
  {
    hide Represents, QuitIf;
    var done := BEFORE_JOYSTICK + {Joystick};
    var c1 := QuitIf(c, flags, Haptic);
    var c2 := QuitIf(c1, flags, Audio);
    PlainQuitRepresents(c, h, flags, done, Haptic);
    PlainQuitRepresents(c1, h, flags, done + {Haptic}, Audio);
    PlainQuitRepresents(c2, h, flags, done + {Haptic} + {Audio}, Video);
    assert done + {Haptic} + {Audio} + {Video} == BEFORE_EVENTS;
  }

  lemma QuitLeavesJoystick(c: Counts, flags: set<Subsystem>, s: Subsystem)
    requires s == Haptic || s == Audio || s == Video || s == Events
    ensures QuitIf(c, flags, s)[Bit(Joystick)] == c[Bit(Joystick)]
  {
  }

  /** Taking the joystick from under a gamepad that stays held is never made up for. */
  lemma JoystickStaysWrong(c: Counts, h: Holds, flags: set<Subsystem>)
    requires Represents(c, ReleasedAmong(h, flags, BEFORE_JOYSTICK))
    requires Joystick in flags && h(Joystick) == 0 && ReleasedAll(h, flags)(Gamepad) > 0
    ensures !Represents(QuitIf(QuitToEvents(c, flags), flags, Events), ReleasedAll(h, flags))
  {
    var before, after := ReleasedAmong(h, flags, BEFORE_JOYSTICK), ReleasedAll(h, flags);
    assert c[Bit(Joystick)] == Expected(before, Joystick) == 1;
    var c4 := QuitIf(c, flags, Joystick);
    QuitReaches(c, Events, Joystick);
    assert c4[Bit(Joystick)] == 0;
    hide QuitIf;
    QuitLeavesJoystick(c4, flags, Haptic);
    QuitLeavesJoystick(QuitIf(c4, flags, Haptic), flags, Audio);
    QuitLeavesJoystick(QuitIf(QuitIf(c4, flags, Haptic), flags, Audio), flags, Video);
    QuitLeavesJoystick(QuitToEvents(c, flags), flags, Events);
    assert Expected(after, Joystick) == 1;
  }

  /** A quit of any flags takes one hold less of each that is held, with the implied counts
      to match, exactly when it is fair. */
  lemma QuitAllRepresentsIff(c: Counts, h: Holds, flags: set<Subsystem>)
    requires Represents(c, h)
    ensures Represents(QuitAll(c, flags), ReleasedAll(h, flags)) <==> Fair(h, flags)
  {
    hide Represents, QuitIf;
    var c3 := QuitToJoystick(c, flags);
    ToJoystickRepresents(c, h, flags);
    if Joystick in flags && h(Joystick) == 0 && ReleasedAll(h, flags)(Gamepad) > 0 {
      JoystickStaysWrong(c3, h, flags);
    } else {
      JoystickRepresentsIff(c3, h, flags);
      ToEventsRepresents(QuitIf(c3, flags, Joystick), h, flags);
      EventsRepresentsIff(QuitToEvents(c3, flags), h, flags);
    }
  }

  // ---- runs -------------------------------------------------------------

  /** What clients do; an initialisation may fail. */
  datatype Op = Init(flags: set<Subsystem>, ok: bool) | Quit(flags: set<Subsystem>)

  function AfterOp(c: Counts, op: Op): Counts {
    match op
    case Init(flags, ok) => if ok then InitAll(c, flags) else c
    case Quit(flags) => QuitAll(c, flags)
  }

  function HoldsAfter(h: Holds, op: Op): Holds {
    match op
    case Init(flags, ok) => x => if ok && x in flags then h(x) + 1 else h(x)
    case Quit(flags) => ReleasedAll(h, flags)
  }

  function AfterRun(c: Counts, ops: seq<Op>): Counts
    decreases |ops|
  {
    if ops == [] then c else AfterRun(AfterOp(c, ops[0]), ops[1..])
  }

  function HoldsAfterRun(h: Holds, ops: seq<Op>): Holds
    decreases |ops|
  {
    if ops == [] then h else HoldsAfterRun(HoldsAfter(h, ops[0]), ops[1..])
  }

  /** Every quit of a run is fair; that is so in particular when clients quit only what they hold. */
  ghost predicate Honest(h: Holds, ops: seq<Op>)
    decreases |ops|
  {
    ops == [] ||
    ((ops[0].Quit? ==> Fair(h, ops[0].flags)) && Honest(HoldsAfter(h, ops[0]), ops[1..]))
  }

  /** After any run of honest clients the counts are what they hold and what that implies. */
  lemma {:induction false} RunRepresents(c: Counts, h: Holds, ops: seq<Op>)
    requires Represents(c, h) && Honest(h, ops)
    ensures Represents(AfterRun(c, ops), HoldsAfterRun(h, ops))
    decreases |ops|
  {
    if ops != [] {
      var c', h' := AfterOp(c, ops[0]), HoldsAfter(h, ops[0]);
      assert Represents(c', h') by {
        match ops[0]
        case Init(flags, ok) =>
          if ok {
            InitAllRepresents(c, h, flags);
            SameHolds(c', x => if x in flags then h(x) + 1 else h(x), h');
          } else {
            SameHolds(c, h, h');
          }
        case Quit(flags) =>
          QuitAllRepresentsIff(c, h, flags);
      }
      RunRepresents(c', h', ops[1..]);
    }
  }

  /** While a subsystem is up, so is the one it implies; and without holds nothing is. */
  lemma ImpliedAreUp(c: Counts, h: Holds, s: Subsystem)
    requires Represents(c, h)
    ensures c[Bit(s)] > 0 && Implied(s).Some? ==> c[Bit(Implied(s).value)] > 0
    ensures h(s) > 0 ==> c[Bit(s)] > 0
    ensures (forall x :: h(x) == 0) ==> c[Bit(s)] == 0
  {
    assert c[Bit(s)] == Expected(h, s);
    if Implied(s).Some? {
      assert c[Bit(Implied(s).value)] == Expected(h, Implied(s).value);
    }
  }

  const NOTHING: Counts := seq(32, _ => 0)

  const NO_HOLDS: Holds := x => 0

  lemma NothingHeld()
    ensures Represents(NOTHING, NO_HOLDS)
  {
  }

  /** A client that quits what it does not hold takes it from under the others. */
  lemma DishonestQuit()
    ensures var c := QuitAll(InitAll(NOTHING, {Gamepad}), {Joystick});
      c[Bit(Gamepad)] == 1 && c[Bit(Joystick)] == 0 && c[Bit(Events)] == 0
  {
    var c1 := Inc(NOTHING, Events);
    var c2 := Inc(c1, Joystick);
    assert InitOne(NOTHING, Joystick) == c2;
    assert InitOne(NOTHING, Gamepad) == Inc(c2, Gamepad);
  }

  /** Sensors come up without the event subsystem. */
  lemma SensorsNeedNoEvents()
    ensures InitAll(NOTHING, {Sensor})[Bit(Events)] == 0 && InitAll(NOTHING, {Sensor})[Bit(Sensor)] == 1
  {
  }

  // ---- when events come up ----------------------------------------------

  /** What is implied by a running subsystem is running. */
  ghost predicate Consistent(c: Counts) {
    forall s: Subsystem :: c[Bit(s)] > 0 && Implied(s).Some? ==> c[Bit(Implied(s).value)] > 0
  }

  lemma RepresentsIsConsistent(c: Counts, h: Holds)
    requires Represents(c, h)
    ensures Consistent(c)
  {
    forall s: Subsystem ensures c[Bit(s)] > 0 && Implied(s).Some? ==> c[Bit(Implied(s).value)] > 0 {
      ImpliedAreUp(c, h, s);
    }
  }

  lemma {:induction false} InitOneKeepsConsistent(c: Counts, s: Subsystem)
    requires Consistent(c)
    ensures Consistent(InitOne(c, s)) && InitOne(c, s)[Bit(s)] > 0
    decreases Rank(s)
  {
    BitsDiffer();
    if c[Bit(s)] == 0 && Implied(s).Some? {
      InitOneKeepsConsistent(c, Implied(s).value);
    }
    hide Bit;
  }

  lemma {:induction false} InitOneEvents(c: Counts, s: Subsystem)
    requires Consistent(c)
    ensures InitOne(c, s)[Bit(Events)] > 0 <==> c[Bit(Events)] > 0 || (s != Haptic && s != Sensor)
    decreases Rank(s)
  {
    if Implied(s).Some? {
      var i := Implied(s).value;
      InitOneEvents(c, i);
      InitReaches(c, i, s);
      assert c[Bit(s)] > 0 ==> c[Bit(i)] > 0;
      assert c[Bit(Joystick)] > 0 ==> c[Bit(Implied(Joystick).value)] > 0;
    }
  }

  lemma InitIfEvents(c: Counts, flags: set<Subsystem>, s: Subsystem)
    requires Consistent(c)
    ensures var c' := InitIf(c, flags, s);
      && Consistent(c')
      && (c'[Bit(Events)] > 0 <==> c[Bit(Events)] > 0 || (s in flags && s != Haptic && s != Sensor))
  {
    InitOneKeepsConsistent(c, s);
    InitOneEvents(c, s);
    hide InitOne, Consistent;
  }

  /** After an initialisation events are up exactly when they were before or a flag
      other than haptic and sensor asks for them. */
  lemma EventsUpIff(c: Counts, flags: set<Subsystem>)
    requires Consistent(c)
    ensures Consistent(InitAll(c, flags))
    ensures InitAll(c, flags)[14] > 0 <==>
      || c[14] > 0 || Events in flags || Video in flags || Audio in flags || Camera in flags
      || Joystick in flags || Gamepad in flags
  {
    hide InitIf, Consistent;
    var c1 := InitIf(c, flags, Events);
    var c2 := InitIf(c1, flags, Video);
    var c3 := InitIf(c2, flags, Audio);
    var c4 := InitIf(c3, flags, Joystick);
    var c5 := InitIf(c4, flags, Gamepad);
    var c6 := InitIf(c5, flags, Haptic);
    var c7 := InitIf(c6, flags, Sensor);
    InitIfEvents(c, flags, Events);
    InitIfEvents(c1, flags, Video);
    InitIfEvents(c2, flags, Audio);
    InitIfEvents(c3, flags, Joystick);
    InitIfEvents(c4, flags, Gamepad);
    InitIfEvents(c5, flags, Haptic);
    InitIfEvents(c6, flags, Sensor);
    InitIfEvents(c7, flags, Camera);
  }

  // ---- quitting everything ----------------------------------------------

  /** While the library shuts down a quit takes a running subsystem, and what it implies,
      down at once. */
  function ForceOne(c: Counts, s: Subsystem): Counts
    decreases Rank(s)
  {
    if c[Bit(s)] == 0 then c
    else if Implied(s).Some? then ForceOne(c, Implied(s).value)[Bit(s) := 0]
    else c[Bit(s) := 0]
  }

  function ForceIf(c: Counts, flags: set<Subsystem>, s: Subsystem): Counts {
    if s in flags then ForceOne(c, s) else c
  }

  function ForceAll(c: Counts, flags: set<Subsystem>): Counts {
    var c := ForceIf(c, flags, Camera);
    var c := ForceIf(c, flags, Sensor);
    var c := ForceIf(c, flags, Gamepad);
    var c := ForceIf(c, flags, Joystick);
    var c := ForceIf(c, flags, Haptic);
    var c := ForceIf(c, flags, Audio);
    var c := ForceIf(c, flags, Video);
    ForceIf(c, flags, Events)
  }

  /** `s` implies `t`, directly or through another, by running subsystems. */
  predicate Pulls(c: Counts, s: Subsystem, t: Subsystem)
    decreases Rank(s)
  {
    c[Bit(s)] > 0 && (s == t || (Implied(s).Some? && Pulls(c, Implied(s).value, t)))
  }

  /** Forcing clears exactly what a running subsystem pulls with it. */
  lemma {:induction false} ForceOneClears(c: Counts, s: Subsystem, t: Subsystem)
    ensures ForceOne(c, s)[Bit(t)] == if Pulls(c, s, t) then 0 else c[Bit(t)]
    decreases Rank(s)
  {
    BitsDiffer();
    if Implied(s).Some? {
      ForceOneClears(c, Implied(s).value, t);
    }
  }

  /** `c` with the subsystems cleared that the flags among `done` pull down. */
  ghost predicate Cleared(c: Counts, now: Counts, flags: set<Subsystem>, done: set<Subsystem>) {
    forall t: Subsystem :: now[Bit(t)] == if PulledBy(c, flags, done, t) then 0 else c[Bit(t)]
  }

  ghost predicate PulledBy(c: Counts, flags: set<Subsystem>, done: set<Subsystem>, t: Subsystem) {
    exists s :: s in flags && s in done && Pulls(c, s, t)
  }

  /** What is pulled down pulls down in turn. */
  lemma {:induction false} PullsOn(c: Counts, u: Subsystem, s: Subsystem, t: Subsystem)
    requires Pulls(c, u, s) && Pulls(c, s, t)
    ensures Pulls(c, u, t)
    decreases Rank(u)
  {
    if u != s {
      PullsOn(c, Implied(u).value, s, t);
    }
  }

  /** In the cleared counts a subsystem pulls nothing that it did not pull before, */
  lemma {:induction false} PullsNoMore(c: Counts, now: Counts, s: Subsystem, t: Subsystem)
    requires forall x: Subsystem :: now[Bit(x)] <= c[Bit(x)]
    ensures Pulls(now, s, t) ==> Pulls(c, s, t)
    decreases Rank(s)
  {
    if Implied(s).Some? {
      PullsNoMore(c, now, Implied(s).value, t);
    }
  }

  /** and what it pulled before it pulls still, unless that is cleared. */
  lemma {:induction false} PullsStill(c: Counts, now: Counts, flags: set<Subsystem>, done: set<Subsystem>,
                                      s: Subsystem, t: Subsystem)
    requires Cleared(c, now, flags, done) && Pulls(c, s, t)
    ensures Pulls(now, s, t) || PulledBy(c, flags, done, t)
    decreases Rank(s)
  {
    if PulledBy(c, flags, done, s) {
      var u :| u in flags && u in done && Pulls(c, u, s);
      PullsOn(c, u, s, t);
    } else {
      assert now[Bit(s)] == c[Bit(s)];
      if s != t {
        PullsStill(c, now, flags, done, Implied(s).value, t);
      }
    }
  }

  lemma ForceIfClears(c: Counts, now: Counts, flags: set<Subsystem>, done: set<Subsystem>, s: Subsystem)
    requires Cleared(c, now, flags, done)
    ensures Cleared(c, ForceIf(now, flags, s), flags, done + {s})
  {
    forall t: Subsystem
      ensures ForceIf(now, flags, s)[Bit(t)] == if PulledBy(c, flags, done + {s}, t) then 0 else c[Bit(t)]
    {
      ForceOneClears(now, s, t);
      PullsNoMore(c, now, s, t);
      if Pulls(c, s, t) {
        PullsStill(c, now, flags, done, s, t);
      }
      hide ForceOne, Pulls;
      if PulledBy(c, flags, done + {s}, t) {
        var u :| u in flags && u in done + {s} && Pulls(c, u, t);
      } else if s in flags {
        assert s in done + {s};
      }
    }
  }

  /** While the library shuts down, a quit takes down exactly what the flags pull with them. */
  lemma ForceAllClears(c: Counts, flags: set<Subsystem>, t: Subsystem)
    ensures ForceAll(c, flags)[Bit(t)] == if exists s :: s in flags && Pulls(c, s, t) then 0 else c[Bit(t)]
  {
    hide ForceIf, Pulls;
    var c1 := ForceIf(c, flags, Camera);
    var c2 := ForceIf(c1, flags, Sensor);
    var c3 := ForceIf(c2, flags, Gamepad);
    var c4 := ForceIf(c3, flags, Joystick);
    var c5 := ForceIf(c4, flags, Haptic);
    var c6 := ForceIf(c5, flags, Audio);
    var c7 := ForceIf(c6, flags, Video);
    assert Cleared(c, c, flags, {});
    ForceIfClears(c, c, flags, {}, Camera);
    ForceIfClears(c, c1, flags, {} + {Camera}, Sensor);
    ForceIfClears(c, c2, flags, {} + {Camera} + {Sensor}, Gamepad);
    ForceIfClears(c, c3, flags, {} + {Camera} + {Sensor} + {Gamepad}, Joystick);
    ForceIfClears(c, c4, flags, {} + {Camera} + {Sensor} + {Gamepad} + {Joystick}, Haptic);
    ForceIfClears(c, c5, flags, {} + {Camera} + {Sensor} + {Gamepad} + {Joystick} + {Haptic}, Audio);
    assert {} + {Camera} + {Sensor} + {Gamepad} + {Joystick} + {Haptic} + {Audio} == BEFORE_EVENTS - {Video};
    ForceIfClears(c, c6, flags, BEFORE_EVENTS - {Video}, Video);
    ForceIfClears(c, c7, flags, BEFORE_EVENTS - {Video} + {Video}, Events);
    AllSubsystems();
    var all := BEFORE_EVENTS - {Video} + {Video} + {Events};
    assert PulledBy(c, flags, all, t) <==> exists s :: s in flags && Pulls(c, s, t);
  }

  lemma AllSubsystems()
    ensures forall x: Subsystem :: x in BEFORE_EVENTS - {Video} + {Video} + {Events}
  {
    forall x: Subsystem ensures x in BEFORE_EVENTS - {Video} + {Video} + {Events} {
      match x
      case Audio => case Video => case Joystick => case Haptic =>
      case Gamepad => case Events => case Sensor => case Camera =>
    }
  }

  const EVERYTHING := {Audio, Video, Joystick, Haptic, Gamepad, Events, Sensor, Camera}

  lemma EverythingGoesDown(c: Counts)
    ensures forall s: Subsystem :: ForceAll(c, EVERYTHING)[Bit(s)] == 0
  {
    forall s: Subsystem ensures ForceAll(c, EVERYTHING)[Bit(s)] == 0 {
      ForceAllClears(c, EVERYTHING, s);
      AllSubsystems();
      assert s in EVERYTHING;
      assert c[Bit(s)] > 0 ==> Pulls(c, s, s);
    }
  }

  // ---- the library's state ----------------------------------------------

  function Position(s: Subsystem): nat {
    match s
    case Events => 0
    case Video => 1
    case Audio => 2
    case Joystick => 3
    case Gamepad => 4
    case Haptic => 5
    case Sensor => 6
    case Camera => 7
  }

  /** One flag more, behind those already initialised. */
  lemma InitNext(c: Counts, done: set<Subsystem>, s: Subsystem)
    requires forall x :: x in done ==> Position(x) < Position(s)
    ensures InitAll(c, done + {s}) == InitOne(InitAll(c, done), s)
  {
    hide InitOne;
    var f := done + {s};
    forall b: Counts, x: Subsystem ensures InitIf(b, f, x) == if x == s then InitOne(b, s) else InitIf(b, done, x) {
    }
  }

  lemma {:induction false} InitOneGrows(c: Counts, s: Subsystem, k: nat)
    requires k < 32
    ensures c[k] <= InitOne(c, s)[k]
    decreases Rank(s)
  {
    if Implied(s).Some? {
      InitOneGrows(c, Implied(s).value, k);
    }
  }

  /** No count goes over the limit of a byte. */
  predicate Fits(c: Counts) {
    forall k :: 0 <= k < 32 ==> c[k] < 256
  }

  // ---- which drivers have to start --------------------------------------

  /** Whether a subsystem can have one user more: it is up, or its driver and all that it
      implies start. */
  predicate Starts(c: Counts, failing: set<Subsystem>, s: Subsystem)
    decreases Rank(s)
  {
    c[Bit(s)] > 0 || (s !in failing && (Implied(s).Some? ==> Starts(c, failing, Implied(s).value)))
  }

  predicate AllStart(c: Counts, failing: set<Subsystem>, flags: set<Subsystem>) {
    forall s <- flags :: Starts(c, failing, s)
  }

  lemma {:induction false} IncStarts(c: Counts, failing: set<Subsystem>, t: Subsystem, s: Subsystem)
    requires Starts(c, failing, t)
    ensures Starts(Inc(c, t), failing, s) <==> Starts(c, failing, s)
    decreases Rank(s)
  {
    if s != t && Implied(s).Some? {
      IncStarts(c, failing, t, Implied(s).value);
    }
  }

  /** What has started makes nothing else start that would not have. */
  lemma {:induction false} InitStarts(c: Counts, failing: set<Subsystem>, t: Subsystem, s: Subsystem)
    requires Starts(c, failing, t)
    ensures Starts(InitOne(c, t), failing, s) <==> Starts(c, failing, s)
    decreases Rank(t)
  {
    if c[Bit(t)] == 0 && Implied(t).Some? {
      var i := Implied(t).value;
      InitStarts(c, failing, i, t);
      InitStarts(c, failing, i, s);
      IncStarts(InitOne(c, i), failing, t, s);
    } else {
      IncStarts(c, failing, t, s);
    }
  }

  lemma InitIfStarts(c: Counts, failing: set<Subsystem>, flags: set<Subsystem>, t: Subsystem)
    requires AllStart(c, failing, flags)
    ensures forall s: Subsystem :: Starts(InitIf(c, flags, t), failing, s) <==> Starts(c, failing, s)
    ensures AllStart(InitIf(c, flags, t), failing, flags)
  {
    forall s: Subsystem ensures Starts(InitIf(c, flags, t), failing, s) <==> Starts(c, failing, s) {
      if t in flags {
        InitStarts(c, failing, t, s);
      }
    }
  }

  /** Flags that all start change nothing for the others. */
  lemma InitAllStarts(c: Counts, failing: set<Subsystem>, flags: set<Subsystem>, s: Subsystem)
    requires AllStart(c, failing, flags)
    ensures Starts(InitAll(c, flags), failing, s) <==> Starts(c, failing, s)
  {
    hide InitIf, Starts, AllStart;
    var c1 := InitIf(c, flags, Events);
    var c2 := InitIf(c1, flags, Video);
    var c3 := InitIf(c2, flags, Audio);
    var c4 := InitIf(c3, flags, Joystick);
    var c5 := InitIf(c4, flags, Gamepad);
    var c6 := InitIf(c5, flags, Haptic);
    var c7 := InitIf(c6, flags, Sensor);
    InitIfStarts(c, failing, flags, Events);
    InitIfStarts(c1, failing, flags, Video);
    InitIfStarts(c2, failing, flags, Audio);
    InitIfStarts(c3, failing, flags, Joystick);
    InitIfStarts(c4, failing, flags, Gamepad);
    InitIfStarts(c5, failing, flags, Haptic);
    InitIfStarts(c6, failing, flags, Sensor);
    InitIfStarts(c7, failing, flags, Camera);
  }

  /** The flags before the first that does not start. */
  ghost predicate StoppedIn(c: Counts, failing: set<Subsystem>, flags: set<Subsystem>, initialized: set<Subsystem>) {
    && AllStart(c, failing, initialized)
    && exists s :: s in flags && !Starts(c, failing, s) && initialized == Upto(flags, Position(s))
  }

  /** The flags whose turn to be initialised comes before position `p`. */
  function Upto(flags: set<Subsystem>, p: nat): set<Subsystem> {
    set s | s in flags && Position(s) < p
  }

  lemma UptoNext(c: Counts, flags: set<Subsystem>, s: Subsystem)
    ensures var f, p := Upto(flags, Position(s)), Position(s) + 1;
      && (s in flags ==> Upto(flags, p) == f + {s} && InitAll(c, Upto(flags, p)) == InitOne(InitAll(c, f), s))
      && (s !in flags ==> Upto(flags, p) == f)
  {
    if s in flags {
      InitNext(c, Upto(flags, Position(s)), s);
    }
  }

  lemma {:induction false} UptoFits(c: Counts, flags: set<Subsystem>, p: nat)
    requires p <= 8 && Fits(InitAll(c, flags))
    ensures Fits(InitAll(c, Upto(flags, p)))
    decreases 8 - p
  {
    hide InitAll, InitOne;
    if p == 8 {
      assert Upto(flags, 8) == flags;
    } else {
      UptoFits(c, flags, p + 1);
      var s := match p
        case 0 => Events
        case 1 => Video
        case 2 => Audio
        case 3 => Joystick
        case 4 => Gamepad
        case 5 => Haptic
        case 6 => Sensor
        case _ => Camera;
      UptoNext(c, flags, s);
      forall k | 0 <= k < 32 ensures InitAll(c, Upto(flags, p))[k] < 256 {
        InitOneGrows(InitAll(c, Upto(flags, p)), s, k);
      }
    }
  }

  lemma UptoEnds(c: Counts, flags: set<Subsystem>)
    ensures InitAll(c, {}) == c && Upto(flags, 0) == {} && Upto(flags, 8) == flags
  {
  }

  lemma QuitSingle(c: Counts, s: Subsystem)
    ensures QuitAll(c, {s}) == QuitOne(c, s) && ForceAll(c, {s}) == ForceOne(c, s)
    ensures InitAll(c, {s}) == InitOne(c, s)
    ensures RankOf({s}) == Rank(s)
  {
    hide InitOne, QuitOne, ForceOne;
  }

  lemma ImpliedFits(c: Counts, s: Subsystem)
    requires c[Bit(s)] == 0 && Implied(s).Some? && Fits(InitOne(c, s))
    ensures var i := Implied(s).value;
      && Rank(i) < Rank(s) && Fits(InitOne(c, i))
      && InitOne(c, s) == Inc(InitOne(c, i), s) && InitOne(c, i)[Bit(s)] == 0
      && QuitOne(Dec(Inc(InitOne(c, i), s), s), i) == c
  {
    var i := Implied(s).value;
    hide InitOne, QuitOne;
    QuitUndoesInit(c, i);
    InitReaches(c, i, s);
    UnfoldInit(c, s);
    forall k | 0 <= k < 32 ensures InitOne(c, i)[k] < 256 {
      assert InitOne(c, s)[k] < 256;
    }
    assert Dec(Inc(InitOne(c, i), s), s) == InitOne(c, i);
  }

  lemma UnfoldInit(c: Counts, s: Subsystem)
    ensures InitOne(c, s)
         == if c[Bit(s)] == 0 && Implied(s).Some? then Inc(InitOne(c, Implied(s).value), s) else Inc(c, s)
  {
  }

  class Library {
    const refCount: array<byte>
    var mainIsReady: bool
    var inMainQuit: bool

    ghost predicate Valid()
      reads this, refCount
    {
      refCount.Length == 32
    }

    ghost function Value(): Counts
      requires Valid()
      reads this, refCount
    {
      refCount[..]
    }

    constructor ()
      ensures Valid() && fresh(refCount) && Value() == NOTHING && mainIsReady && !inMainQuit
    {
      refCount := new byte[32](_ => 0);
      mainIsReady, inMainQuit := true, false;
    }

    method Increment(s: Subsystem)
      requires Valid() && refCount[Bit(s)] < 255
      modifies refCount
      ensures Valid() && Value() == Inc(old(Value()), s)
    {
      refCount[Bit(s)] := refCount[Bit(s)] + 1;
    }

    method Decrement(s: Subsystem)
      requires Valid()
      modifies refCount
      ensures Valid() && Value() == if inMainQuit then old(Value())[Bit(s) := 0] else Dec(old(Value()), s)
    {
      if refCount[Bit(s)] > 0 {
        if inMainQuit {
          refCount[Bit(s)] := 0;
        } else {
          refCount[Bit(s)] := refCount[Bit(s)] - 1;
        }
      }
    }

    predicate ShouldInit(s: Subsystem)
      requires refCount.Length == 32
      reads refCount
    {
      refCount[Bit(s)] == 0
    }

    predicate ShouldQuit(s: Subsystem)
      requires refCount.Length == 32
      reads this, refCount
    {
      refCount[Bit(s)] != 0 && (refCount[Bit(s)] == 1 || inMainQuit)
    }

    /** Takes a subsystem down by one, or altogether while the library shuts down. */
    method TakeDown(s: Subsystem)
      requires Valid()
      modifies refCount
      ensures Valid() && Value() == if inMainQuit then ForceOne(old(Value()), s) else QuitOne(old(Value()), s)
      decreases Rank(s), 0
    {
      if ShouldQuit(s) && Implied(s).Some? {
        QuitSingle(Value(), Implied(s).value);
        QuitSubSystem({Implied(s).value});
      }
      Decrement(s);
    }

    method TakeDownIf(flags: set<Subsystem>, s: Subsystem)
      requires Valid()
      modifies refCount
      ensures Valid()
      ensures Value() == if inMainQuit then ForceIf(old(Value()), flags, s) else QuitIf(old(Value()), flags, s)
      decreases RankOf(flags), 1
    {
      if s in flags {
        TakeDown(s);
      }
    }

    /** Quits all flags, the dependent ones first. */
    method QuitSubSystem(flags: set<Subsystem>)
      requires Valid()
      modifies refCount
      ensures Valid() && Value() == if inMainQuit then ForceAll(old(Value()), flags) else QuitAll(old(Value()), flags)
      decreases RankOf(flags), 2
    {
      hide QuitOne, QuitIf, ForceOne, ForceIf;
      TakeDownIf(flags, Camera);
      TakeDownIf(flags, Sensor);
      TakeDownIf(flags, Gamepad);
      TakeDownIf(flags, Joystick);
      TakeDownIf(flags, Haptic);
      TakeDownIf(flags, Audio);
      TakeDownIf(flags, Video);
      TakeDownIf(flags, Events);
    }

    /** Uses a running subsystem once more, or starts it. `failing` are the drivers that
        fail when they are started. */
    method InitOrIncrement(s: Subsystem, failing: set<Subsystem>) returns (ok: bool)
      requires Valid() && !inMainQuit && Fits(InitOne(Value(), s))
      modifies refCount
      ensures Valid() && Value() == if ok then InitOne(old(Value()), s) else old(Value())
      ensures old(Value())[Bit(s)] > 0 ==> ok
      ensures mainIsReady ==> (ok <==> Starts(old(Value()), failing, s))
      decreases Rank(s), 5
    {
      QuitSingle(Value(), s);
      if refCount[Bit(s)] > 0 {
        assert Inc(Value(), s)[Bit(s)] < 256;
        refCount[Bit(s)] := refCount[Bit(s)] + 1;
        return true;
      }
      ok := InitSubSystem({s}, failing);
    }

    /** One subsystem's part of an initialisation. */
    method BringUp(s: Subsystem, failing: set<Subsystem>) returns (ok: bool)
      requires Valid() && !inMainQuit && Fits(InitOne(Value(), s))
      modifies refCount
      ensures Valid() && Value() == if ok then InitOne(old(Value()), s) else old(Value())
      ensures old(Value())[Bit(s)] > 0 ==> ok
      ensures mainIsReady ==> (ok <==> Starts(old(Value()), failing, s))
      decreases Rank(s), 1
    {
      ghost var c := Value();
      UnfoldInit(c, s);
      assert InitOne(c, s)[Bit(s)] < 256;
      var first := ShouldInit(s);
      if first && Implied(s).Some? {
        ImpliedFits(c, s);
        ok := InitOrIncrement(Implied(s).value, failing);
        if !ok {
          return;
        }
      }
      Increment(s);
      ok := true;
      if first {
        ok := s !in failing;
        if !ok {
          Decrement(s);
          if Implied(s).Some? {
            QuitSingle(Value(), Implied(s).value);
            QuitSubSystem({Implied(s).value});
          }
        }
      }
    }

    /** The part for `s`, if it is among the flags. */
    method InitFlag(s: Subsystem, flags: set<Subsystem>, failing: set<Subsystem>, initialized: set<Subsystem>,
                    ghost c: Counts)
      returns (ok: bool, initialized': set<Subsystem>)
      requires Valid() && !inMainQuit && Fits(InitAll(c, flags))
      requires initialized == Upto(flags, Position(s)) && Value() == InitAll(c, initialized)
      requires mainIsReady ==> AllStart(c, failing, initialized)
      modifies refCount
      ensures Valid() && Value() == InitAll(c, initialized')
      ensures mainIsReady ==> AllStart(c, failing, initialized')
      ensures if ok then initialized' == Upto(flags, Position(s) + 1)
              else s in flags && initialized' == initialized && (mainIsReady ==> !Starts(c, failing, s))
      decreases RankOf(flags), 2
    {
      hide InitAll, InitOne, Starts;
      ok, initialized' := true, initialized;
      UptoNext(c, flags, s);
      if s in flags {
        UptoFits(c, flags, Position(s) + 1);
        if mainIsReady {
          InitAllStarts(c, failing, initialized, s);
        }
        ok := BringUp(s, failing);
        if ok {
          initialized' := initialized + {s};
        }
      }
    }

    /** All flags in turn, until one fails. */
    method InitFlags(flags: set<Subsystem>, failing: set<Subsystem>) returns (ok: bool, initialized: set<Subsystem>)
      requires Valid() && !inMainQuit && Fits(InitAll(Value(), flags))
      modifies refCount
      ensures Valid() && Value() == InitAll(old(Value()), initialized)
      ensures ok ==> initialized == flags
      ensures mainIsReady ==>
        if ok then AllStart(old(Value()), failing, flags) else StoppedIn(old(Value()), failing, flags, initialized)
      decreases RankOf(flags), 3
    {
      hide InitAll, InitOne, Upto, Fits, RankOf, Starts;
      ghost var c := Value();
      UptoEnds(c, flags);
      initialized := {};
      ok, initialized := InitFlag(Events, flags, failing, initialized, c);
      if ok {
        ok, initialized := InitFlag(Video, flags, failing, initialized, c);
      }
      if ok {
        ok, initialized := InitFlag(Audio, flags, failing, initialized, c);
      }
      if ok {
        ok, initialized := InitFlag(Joystick, flags, failing, initialized, c);
      }
      if ok {
        ok, initialized := InitFlag(Gamepad, flags, failing, initialized, c);
      }
      if ok {
        ok, initialized := InitFlag(Haptic, flags, failing, initialized, c);
      }
      if ok {
        ok, initialized := InitFlag(Sensor, flags, failing, initialized, c);
      }
      if ok {
        ok, initialized := InitFlag(Camera, flags, failing, initialized, c);
      }
    }

    /** Initialises all flags, or none: all of them exactly when every flag is up already or
        can be started. */
    method InitSubSystem(flags: set<Subsystem>, failing: set<Subsystem>) returns (ok: bool)
      requires Valid() && !inMainQuit && Fits(InitAll(Value(), flags))
      modifies refCount
      ensures Valid() && Value() == if ok then InitAll(old(Value()), flags) else old(Value())
      ensures ok <==> mainIsReady && AllStart(old(Value()), failing, flags)
      ensures ok && Consistent(old(Value())) ==>
        && Consistent(Value())
        && (Value()[14] > 0 <==>
              || old(Value())[14] > 0 || Events in flags || Video in flags || Audio in flags || Camera in flags
              || Joystick in flags || Gamepad in flags)
      decreases RankOf(flags), 4
    {
      if !mainIsReady {
        return false;
      }
      if Consistent(Value()) {
        EventsUpIff(Value(), flags);
      }
      hide InitAll, QuitAll, Fits, Consistent, Starts;
      ghost var c := Value();
      var initialized: set<Subsystem>;
      ok, initialized := InitFlags(flags, failing);
      if !ok {
        QuitUndoesInitAll(c, initialized);
        QuitSubSystem(initialized);
      }
    }

    /** Shuts the library down: every subsystem is quit, and then no count is left. */
    method Quit()
      requires Valid()
      modifies refCount, this`inMainQuit
      ensures Valid() && Value() == NOTHING && !inMainQuit
    {
      inMainQuit := true;
      ghost var c := Value();
      QuitSubSystem(EVERYTHING);
      EverythingGoesDown(c);
      assert forall s: Subsystem :: Value()[Bit(s)] == 0;
      forall k | 0 <= k < 32 {
        refCount[k] := 0;
      }
      inMainQuit := false;
    }
  }

  // ---- whole runs of the library ----------------------------------------

  /** What a client asks for; an initialisation meets drivers that fail. */
  datatype Request = Up(flags: set<Subsystem>, failing: set<Subsystem>) | Down(flags: set<Subsystem>)

  /** A request and how it turns out. */
  function Outcome(ready: bool, c: Counts, request: Request): Op {
    match request
    case Up(flags, failing) => Init(flags, ready && AllStart(c, failing, flags))
    case Down(flags) => Op.Quit(flags)
  }

  /** The run that requests make, each with its outcome. */
  function RunOf(ready: bool, c: Counts, requests: seq<Request>): seq<Op>
    decreases |requests|
  {
    if requests == [] then []
    else
      var op := Outcome(ready, c, requests[0]);
      [op] + RunOf(ready, AfterOp(c, op), requests[1..])
  }

  /** No count goes over the limit. */
  predicate AllFit(ready: bool, c: Counts, requests: seq<Request>)
    decreases |requests|
  {
    requests != [] ==>
      && (requests[0].Up? ==> Fits(InitAll(c, requests[0].flags)))
      && AllFit(ready, AfterOp(c, Outcome(ready, c, requests[0])), requests[1..])
  }

  /** Any sequence of requests changes the counts as its run does. */
  method Replay(lib: Library, requests: seq<Request>)
    requires lib.Valid() && !lib.inMainQuit && AllFit(lib.mainIsReady, lib.Value(), requests)
    modifies lib.refCount
    ensures lib.Valid()
    ensures lib.Value() == AfterRun(old(lib.Value()), RunOf(lib.mainIsReady, old(lib.Value()), requests))
    decreases |requests|
  {
    hide InitAll, QuitAll, Fits, AllStart;
    if requests != [] {
      ghost var c := lib.Value();
      ghost var op := Outcome(lib.mainIsReady, c, requests[0]);
      match requests[0] {
        case Up(flags, failing) => var ok := lib.InitSubSystem(flags, failing);
        case Down(flags) => lib.QuitSubSystem(flags);
      }
      Replay(lib, requests[1..]);
      assert RunOf(lib.mainIsReady, c, requests)[1..] == RunOf(lib.mainIsReady, AfterOp(c, op), requests[1..]);
    }
  }

  /** A library that has just started, driven by clients that are fair to each other,
      counts what they hold. */
  method ReplayFresh(requests: seq<Request>) returns (lib: Library)
    requires AllFit(true, NOTHING, requests)
    ensures fresh(lib) && lib.Valid()
    ensures var log := RunOf(true, NOTHING, requests);
      && lib.Value() == AfterRun(NOTHING, log)
      && (Honest(NO_HOLDS, log) ==> Represents(lib.Value(), HoldsAfterRun(NO_HOLDS, log)))
  {
    lib := new Library();
    Replay(lib, requests);
    NothingHeld();
    ghost var log := RunOf(true, NOTHING, requests);
    if Honest(NO_HOLDS, log) {
      RunRepresents(NOTHING, NO_HOLDS, log);
    }
  }
}
