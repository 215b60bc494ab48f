/** A lock-free ring between one producer and one consumer, every atomic access a
    step of its own. */
module MsgQueue {
  import opened Bits
  import opened Results
  import opened Runs

  /** One more than the largest value of the unsigned counters. */
  const WRAP := 0x1_0000_0000

  /** The producer asks for a slot in two steps, fills it, and commits it. */
  datatype Producer = Idle | Cleared | Filling(slot: nat)

  /** The consumer looks for a message, takes its slot, and releases it. */
  datatype Consumer = Waiting | Alerted | Draining(slot: nat)

  /** The queue, where the two sides stand, and what was committed and consumed so far. */
  datatype State<T> = State(
    queue: seq<T>,
    nextAdd: uint32,
    nextSend: uint32,
    pendingSends: uint32,
    producer: Producer,
    consumer: Consumer,
    committed: seq<T>,
    consumed: seq<T>
  )

  /** The slot of a counter value. */
  function Slot(index: nat, size: nat): (slot: nat)
    requires 0 < size
    ensures slot < size
  {
    index % size
  }

  datatype Action<T> =
    | LoadPending            // GetNextAddMessage: is there room?
    | ReserveSlot            // GetNextAddMessage: nextAdd_++
    | Fill(message: T)       // the producer writes to its slot
    | CommitAdd
    | HavePendingSends
    | GetNextSendMessage
    | CommitSend             // the consumer is done with its slot

  /** Each side goes through its steps in order; a reserved slot is always committed. */
  predicate Enabled<T>(s: State<T>, a: Action<T>) {
    0 < |s.queue| &&
    match a
    case LoadPending => s.producer.Idle?
    case ReserveSlot => s.producer.Cleared?
    case Fill(_) => s.producer.Filling? && s.producer.slot < |s.queue|
    case CommitAdd => s.producer.Filling? && s.producer.slot < |s.queue|
    case HavePendingSends => s.consumer.Waiting?
    case GetNextSendMessage => s.consumer.Alerted?
    case CommitSend => s.consumer.Draining? && s.consumer.slot < |s.queue|
  }

  function Do<T>(s: State<T>, a: Action<T>): State<T>
    requires Enabled(s, a)
  {
    match a
    case LoadPending => if s.pendingSends >= |s.queue| then s else s.(producer := Cleared)
    case ReserveSlot => s.(nextAdd := (s.nextAdd + 1) % WRAP, producer := Filling(Slot(s.nextAdd, |s.queue|)))
    case Fill(m) => s.(queue := s.queue[s.producer.slot := m])
    case CommitAdd =>
      s.(pendingSends := (s.pendingSends + 1) % WRAP, producer := Idle,
         committed := s.committed + [s.queue[s.producer.slot]])
    case HavePendingSends => if s.pendingSends == 0 then s else s.(consumer := Alerted)
    case GetNextSendMessage => s.(nextSend := (s.nextSend + 1) % WRAP,
         consumer := Draining(Slot(s.nextSend, |s.queue|)))
    case CommitSend =>
      s.(pendingSends := (s.pendingSends - 1) % WRAP, consumer := Waiting,
         consumed := s.consumed + [s.queue[s.consumer.slot]])
  }

  predicate Initial<T>(s: State<T>) {
    && 0 < |s.queue| && s.nextAdd == s.nextSend == s.pendingSends == 0
    && s.producer.Idle? && s.consumer.Waiting? && |s.committed| == |s.consumed| == 0
  }

  /** Both sides together: each run is some interleaving of their steps. */
  function Ring<T>(): Machine<State<T>, Action<T>> {
    Machine((s, a) => Enabled(s, a), (s, a) => if Enabled(s, a) then Do(s, a) else s)
  }

  // ---- slots ------------------------------------------------------------

  /** The queue sizes whose slots the counters keep in step when they wrap around. */
  predicate SizeFits(size: nat)
    requires 0 < size
  {
    size < WRAP && WRAP % size == 0
  }

  lemma MultipleOf(n: nat, k: nat, r: nat)
    requires 0 < n && r < n
    ensures (n * k + r) % n == r
  {
    RemainderUnique(n * k + r, n, k, r);
  }

  lemma WrapKeepsSlot(a: nat, size: nat)
    requires 0 < size && SizeFits(size)
    ensures Slot(a % WRAP, size) == Slot(a, size)
  {
    var q, m := a / WRAP, WRAP / size;
    var r := a % WRAP;
    assert a == WRAP * q + r && WRAP == size * m;
    assert WRAP * q == size * (m * q) by {
      assert (size * m) * q == size * (m * q);
    }
    var i, j := r / size, r % size;
    assert r == size * i + j;
    ProductIsNonNegative(m, q);
    assert size * (m * q) + size * i == size * (m * q + i);
    MultipleOf(size, m * q + i, j);
  }

  lemma NearbyDiffer(a: nat, b: nat, size: nat)
    requires a < b < a + size
    ensures Slot(a, size) != Slot(b, size)
  {
    var i, j := a / size, b / size;
    if a % size == b % size {
      assert b - a == size * j - size * i == size * (j - i);
      if j != i {
        MultipleIsLarge(size, j - i);
      }
    }
  }

  lemma StepWraps(n: nat)
    ensures (n % WRAP + 1) % WRAP == (n + 1) % WRAP
  {
  }

  // ---- what every step keeps --------------------------------------------

  /** Slots reserved so far, counted without wrapping around. */
  function Reserved<T>(s: State<T>): nat {
    |s.committed| + if s.producer.Filling? then 1 else 0
  }

  function Fetched<T>(s: State<T>): nat {
    |s.consumed| + if s.consumer.Draining? then 1 else 0
  }

  ghost predicate Inv<T>(s: State<T>) {
    var size, c, d := |s.queue|, |s.committed|, |s.consumed|;
    && 0 < size < WRAP && SizeFits(size)
    && s.nextAdd == Reserved(s) % WRAP && s.nextSend == Fetched(s) % WRAP
    && d <= c <= d + size && s.pendingSends == c - d
    && (!s.producer.Idle? ==> c < d + size)
    && (!s.consumer.Waiting? ==> d < c)
    && (s.producer.Filling? ==> s.producer.slot == Slot(c, size))
    && (s.consumer.Draining? ==> s.consumer.slot == Slot(d, size))
    && s.consumed <= s.committed
    && (forall k :: d <= k < c ==> s.queue[Slot(k, size)] == s.committed[k])
  }

  lemma FillKeepsInv<T>(s: State<T>, m: T)
    requires Inv(s) && Enabled(s, Fill(m))
    ensures Inv(Do(s, Fill(m)))
  {
    hide Slot, SizeFits;
    var size, c, t := |s.queue|, |s.committed|, Do(s, Fill(m));
    forall k | |s.consumed| <= k < c ensures t.queue[Slot(k, size)] == t.committed[k] {
      NearbyDiffer(k, c, size);
    }
  }

  lemma CommitKeepsInv<T>(s: State<T>, a: Action<T>)
    requires Inv(s) && Enabled(s, a) && (a.CommitAdd? || a.CommitSend?)
    ensures Inv(Do(s, a))
  {
    hide Slot, SizeFits;
  }

  lemma ReserveKeepsInv<T>(s: State<T>, a: Action<T>)
    requires Inv(s) && Enabled(s, a) && (a.ReserveSlot? || a.GetNextSendMessage?)
    ensures Inv(Do(s, a))
  {
    hide Slot, SizeFits;
    var n := if a.ReserveSlot? then |s.committed| else |s.consumed|;
    StepWraps(n);
    WrapKeepsSlot(n, |s.queue|);
  }

  lemma StepKeepsInv<T>(s: State<T>, a: Action<T>)
    requires Inv(s) && Enabled(s, a)
    ensures Inv(Do(s, a))
  {
    match a
    case Fill(m) => FillKeepsInv(s, m);
    case CommitAdd => CommitKeepsInv(s, a);
    case CommitSend => CommitKeepsInv(s, a);
    case ReserveSlot => ReserveKeepsInv(s, a);
    case GetNextSendMessage => ReserveKeepsInv(s, a);
    case LoadPending =>
    case HavePendingSends =>
  }

  // ---- every run --------------------------------------------------------

  /** The two sides hold the same slot. */
  predicate Collides<T>(s: State<T>) {
    s.producer.Filling? && s.consumer.Draining? && s.producer.slot == s.consumer.slot
  }

  /** What the two sides may rely on at any moment. */
  ghost predicate Safe<T>(s: State<T>) {
    && !Collides(s)
    && s.pendingSends <= |s.queue| && s.pendingSends == |s.committed| - |s.consumed|
    && s.consumed <= s.committed
    && (s.consumer.Draining? ==>
          && |s.consumed| < |s.committed| && s.consumer.slot < |s.queue|
          && s.queue[s.consumer.slot] == s.committed[|s.consumed|])
  }

  lemma InvIsSafe<T>(s: State<T>)
    requires Inv(s)
    ensures Safe(s)
  {
    hide Slot, SizeFits;
    if s.producer.Filling? && s.consumer.Draining? {
      NearbyDiffer(|s.consumed|, |s.committed|, |s.queue|);
    }
  }

  lemma RunKeepsInv<T(!new)>(s: State<T>, actions: seq<Action<T>>, t: State<T>)
    requires Inv(s) && Leads(Ring(), s, actions, t)
    ensures Inv(t)
  {
    forall s: State<T>, a: Action<T> | Inv(s) && Enabled(s, a) ensures Inv(Do(s, a)) {
      StepKeepsInv(s, a);
    }
    RunKeeps(Ring(), s => Inv(s), s, actions, t);
  }

  /** In every interleaving, also when the counters wrap around, the sides never hold
      the same slot, no more is pending than fits, and what was consumed is a prefix
      of what was committed. */
  lemma RunsAreSafe<T(!new)>(s: State<T>, actions: seq<Action<T>>, t: State<T>)
    requires Initial(s) && SizeFits(|s.queue|) && Leads(Ring(), s, actions, t)
    ensures Safe(t)
  {
    assert s.consumed == s.committed == [];
    RunKeepsInv(s, actions, t);
    InvIsSafe(t);
  }

  // ---- what was sent, told from the steps alone -------------------------

  /** What the producer last wrote to the slot it has reserved, if anything. */
  function Filled<T>(h: seq<Action<T>>): Option<T> {
    if h == [] then None
    else
      match h[|h| - 1]
      case Fill(m) => Some(m)
      case ReserveSlot => None
      case _ => Filled(h[..|h| - 1])
  }

  /** What the commits of the producer sent, in order; nothing is known of a slot that
      was committed without being filled. */
  function Sent<T>(h: seq<Action<T>>): seq<Option<T>> {
    if h == [] then []
    else
      var past := h[..|h| - 1];
      if h[|h| - 1].CommitAdd? then Sent(past) + [Filled(past)] else Sent(past)
  }

  /** How many messages the consumer is done with. */
  function Received<T>(h: seq<Action<T>>): nat {
    if h == [] then 0 else Received(h[..|h| - 1]) + if h[|h| - 1].CommitSend? then 1 else 0
  }

  predicate IsSome<T(==)>(known: Option<T>, m: T) {
    known.Some? ==> known.value == m
  }

  ghost predicate Told<T>(h: seq<Action<T>>, s: State<T>) {
    && |s.committed| == |Sent(h)| && |s.consumed| == Received(h)
    && (forall i :: 0 <= i < |s.committed| ==> IsSome(Sent(h)[i], s.committed[i]))
    && (s.producer.Filling? ==> s.producer.slot < |s.queue| && IsSome(Filled(h), s.queue[s.producer.slot]))
  }

  lemma StepTells<T>(h: seq<Action<T>>, s: State<T>, a: Action<T>)
    requires Told(h, s) && Enabled(s, a)
    ensures Told(h + [a], Do(s, a))
  {
    assert (h + [a])[..|h|] == h;
    hide Slot;
  }

  /** In every run, of any size of queue, the producer commits what it filled in, and the
      consumer is done with as many messages as it said. */
  lemma RunsTell<T(!new)>(s: State<T>, actions: seq<Action<T>>, t: State<T>)
    requires Initial(s) && Leads(Ring(), s, actions, t)
    ensures Told(actions, t)
  {
    hide Told, Do, Enabled;
    forall h: seq<Action<T>>, s: State<T>, a: Action<T> | Told(h, s) && Enabled(s, a)
      ensures Told(h + [a], Do(s, a))
    {
      StepTells(h, s, a);
    }
    NothingTold(s);
    RunTells(Ring(), (h, s) => Told(h, s), [], s, actions, t);
    assert [] + actions == actions;
  }

  lemma NothingTold<T>(s: State<T>)
    requires Initial(s)
    ensures Told([], s)
  {
  }

  /** The consumer gets, in order, what the producer filled in before each commit. */
  lemma ConsumerGetsWhatWasSent<T(!new)>(s: State<T>, actions: seq<Action<T>>, t: State<T>)
    requires Initial(s) && SizeFits(|s.queue|) && Leads(Ring(), s, actions, t)
    ensures |t.consumed| == Received(actions) <= |t.committed| == |Sent(actions)|
    ensures forall i :: 0 <= i < |t.committed| && Sent(actions)[i].Some? ==> t.committed[i] == Sent(actions)[i].value
    ensures forall i :: 0 <= i < |t.consumed| && Sent(actions)[i].Some? ==> t.consumed[i] == Sent(actions)[i].value
  {
    RunsTell(s, actions, t);
    RunsAreSafe(s, actions, t);
    assert forall i :: 0 <= i < |t.committed| ==> IsSome(Sent(actions)[i], t.committed[i]);
  }

  // ---- each side gets on by itself --------------------------------------

  /** The producer gets a slot if and only if fewer messages are pending than fit, and
      can then send whatever it likes. */
  lemma NextIsAccepted<T(!new)>(s: State<T>, actions: seq<Action<T>>, t: State<T>, m: T) returns (u: State<T>)
    requires Initial(s) && SizeFits(|s.queue|) && Leads(Ring(), s, actions, t) && t.producer.Idle?
    ensures if |t.committed| - |t.consumed| < |t.queue| then
              && Leads(Ring(), t, [LoadPending, ReserveSlot, Fill(m), CommitAdd], u)
              && u.committed == t.committed + [m] && u.consumed == t.consumed && u.consumer == t.consumer
            else Enabled(t, LoadPending) && Do(t, LoadPending) == t
  {
    RunKeepsInv(s, actions, t);
    InvIsSafe(t);
    u := t;
    if t.pendingSends < |t.queue| {
      u := Do(Do(Do(Do(t, LoadPending), ReserveSlot), Fill(m)), CommitAdd);
      FourSteps(t, LoadPending, ReserveSlot, Fill(m), CommitAdd);
    }
  }

  /** The consumer sees a message if and only if one is pending, and then gets the oldest. */
  lemma NextIsDelivered<T(!new)>(s: State<T>, actions: seq<Action<T>>, t: State<T>) returns (u: State<T>)
    requires Initial(s) && SizeFits(|s.queue|) && Leads(Ring(), s, actions, t) && t.consumer.Waiting?
    ensures if |t.consumed| < |t.committed| then
              && Leads(Ring(), t, [HavePendingSends, GetNextSendMessage, CommitSend], u)
              && u.consumed == t.consumed + [t.committed[|t.consumed|]]
              && u.committed == t.committed && u.producer == t.producer
            else Enabled(t, HavePendingSends) && Do(t, HavePendingSends) == t
  {
    RunKeepsInv(s, actions, t);
    InvIsSafe(t);
    hide Inv, Slot, SizeFits;
    u := t;
    if t.pendingSends != 0 {
      var t1 := Do(t, HavePendingSends);
      StepKeepsInv(t, HavePendingSends);
      var t2 := Do(t1, GetNextSendMessage);
      StepKeepsInv(t1, GetNextSendMessage);
      InvIsSafe(t2);
      u := Do(t2, CommitSend);
      ThreeSteps(t, HavePendingSends, GetNextSendMessage, CommitSend);
    }
  }

  lemma ThreeSteps<T>(s: State<T>, a: Action<T>, b: Action<T>, c: Action<T>)
    requires Enabled(s, a) && Enabled(Do(s, a), b) && Enabled(Do(Do(s, a), b), c)
    ensures Leads(Ring(), s, [a, b, c], Do(Do(Do(s, a), b), c))
  {
    hide Enabled, Do;
    OneMore(Ring(), s, [], s, a);
    OneMore(Ring(), s, [a], Do(s, a), b);
    OneMore(Ring(), s, [a] + [b], Do(Do(s, a), b), c);
    assert [a] + [b] + [c] == [a, b, c];
  }

  lemma FourSteps<T>(s: State<T>, a: Action<T>, b: Action<T>, c: Action<T>, d: Action<T>)
    requires Enabled(s, a) && Enabled(Do(s, a), b) && Enabled(Do(Do(s, a), b), c)
    requires Enabled(Do(Do(Do(s, a), b), c), d)
    ensures Leads(Ring(), s, [a, b, c, d], Do(Do(Do(Do(s, a), b), c), d))
  {
    hide Enabled, Do;
    ThreeSteps(s, a, b, c);
    OneMore(Ring(), s, [a, b, c], Do(Do(Do(s, a), b), c), d);
    assert [a, b, c] + [d] == [a, b, c, d];
  }

  // ---- other sizes fail -------------------------------------------------

  /** Adds a message. */
  lemma Produce<T>(s: State<T>, actions: seq<Action<T>>, t: State<T>) returns (more: seq<Action<T>>, u: State<T>)
    requires Leads(Ring(), s, actions, t) && t.producer.Idle? && t.pendingSends < |t.queue|
    ensures Leads(Ring(), s, more, u)
    ensures u == t.(nextAdd := (t.nextAdd + 1) % WRAP, pendingSends := (t.pendingSends + 1) % WRAP,
                    committed := u.committed)
  {
    OneMore(Ring(), s, actions, t, LoadPending);
    var t1 := Do(t, LoadPending);
    OneMore(Ring(), s, actions + [LoadPending], t1, ReserveSlot);
    var t2 := Do(t1, ReserveSlot);
    more, u := actions + [LoadPending] + [ReserveSlot] + [CommitAdd], Do(t2, CommitAdd);
    OneMore(Ring(), s, actions + [LoadPending] + [ReserveSlot], t2, CommitAdd);
  }

  /** Takes the next slot. */
  lemma Fetch<T>(s: State<T>, actions: seq<Action<T>>, t: State<T>) returns (more: seq<Action<T>>, u: State<T>)
    requires Leads(Ring(), s, actions, t) && t.consumer.Waiting? && t.pendingSends > 0 && 0 < |t.queue|
    ensures Leads(Ring(), s, more, u)
    ensures u == t.(nextSend := (t.nextSend + 1) % WRAP, consumer := Draining(Slot(t.nextSend, |t.queue|)))
  {
    OneMore(Ring(), s, actions, t, HavePendingSends);
    var t1 := Do(t, HavePendingSends);
    more, u := actions + [HavePendingSends] + [GetNextSendMessage], Do(t1, GetNextSendMessage);
    OneMore(Ring(), s, actions + [HavePendingSends], t1, GetNextSendMessage);
  }

  /** Nothing is going on after `n` messages. */
  predicate Rests<T>(s: State<T>, n: nat) {
    s.producer.Idle? && s.consumer.Waiting? && s.nextAdd == s.nextSend == n % WRAP && s.pendingSends == 0
  }

  lemma {:induction false} PassMany<T>(s: State<T>, n: nat) returns (actions: seq<Action<T>>, t: State<T>)
    requires Initial(s)
    ensures Leads(Ring(), s, actions, t) && Rests(t, n) && |t.queue| == |s.queue|
  {
    if n == 0 {
      actions, t := [], s;
    } else {
      actions, t := PassMany(s, n - 1);
      actions, t := Produce(s, actions, t);
      actions, t := Fetch(s, actions, t);
      OneMore(Ring(), s, actions, t, CommitSend);
      actions, t := actions + [CommitSend], Do(t, CommitSend);
      StepWraps(n - 1);
    }
  }

  /** `k` messages pending, the first of them, number `n`, held by the consumer. */
  predicate Behind<T>(s: State<T>, n: nat, k: nat) {
    && s.producer.Idle? && s.consumer == Draining(0) && 0 < |s.queue|
    && s.nextAdd == (n + k) % WRAP && s.pendingSends == k % WRAP
  }

  lemma {:induction false} FallBehind<T>(s: State<T>, n: nat, k: nat) returns (actions: seq<Action<T>>, t: State<T>)
    requires Initial(s) && 0 < k && n + k <= WRAP && k - 1 < |s.queue| && Slot(n, |s.queue|) == 0
    ensures Leads(Ring(), s, actions, t) && Behind(t, n, k) && |t.queue| == |s.queue|
    decreases k
  {
    hide Slot;
    if k == 1 {
      actions, t := PassMany(s, n);
      actions, t := Produce(s, actions, t);
      actions, t := Fetch(s, actions, t);
    } else {
      actions, t := FallBehind(s, n, k - 1);
      actions, t := Produce(s, actions, t);
    }
  }

  lemma LastSlot(size: nat)
    requires 0 < size && !SizeFits(size)
    ensures var r := (WRAP - 1) % size;
      && r < WRAP && Slot(WRAP - 1 - r, size) == 0
      && (if size < WRAP then r + 1 < size else r + 1 == WRAP)
  {
    var q, r := (WRAP - 1) / size, (WRAP - 1) % size;
    assert WRAP - 1 == size * q + r;
    ProductIsNonNegative(size, q);
    RemainderUnique(WRAP - 1 - r, size, q, 0);
    if size < WRAP {
      if r + 1 == size {
        assert size * (q + 1) == size * q + size;
        RemainderUnique(WRAP, size, q + 1, 0);
      }
    } else {
      RemainderUnique(WRAP - 1, size, 0, WRAP - 1);
    }
  }

  /** With any other size there is a run after which both sides hold the same slot. */
  lemma OtherSizesCollide<T>(s: State<T>) returns (actions: seq<Action<T>>, t: State<T>)
    requires Initial(s) && !SizeFits(|s.queue|)
    ensures Leads(Ring(), s, actions, t) && Collides(t)
  {
    var size := |s.queue|;
    LastSlot(size);
    var r := (WRAP - 1) % size;
    actions, t := FallBehind(s, WRAP - 1 - r, r + 1);
    OneMore(Ring(), s, actions, t, LoadPending);
    actions, t := actions + [LoadPending], Do(t, LoadPending);
    OneMore(Ring(), s, actions, t, ReserveSlot);
    actions, t := actions + [ReserveSlot], Do(t, ReserveSlot);
    MultipleOf(size, 0, 0);
  }

  /** Safe after every interleaving from `s`. */
  ghost predicate AlwaysSafe<T(!new)>(s: State<T>) {
    forall actions: seq<Action<T>>, t: State<T> :: Leads(Ring(), s, actions, t) ==> Safe(t)
  }

  /** The ring is safe in every run exactly when its size divides 2^32 and is less. */
  lemma SafeIffSizeFits<T(!new)>(s: State<T>)
    requires Initial(s)
    ensures AlwaysSafe(s) <==> |s.queue| < 0x1_0000_0000 && 0x1_0000_0000 % |s.queue| == 0
  {
    if SizeFits(|s.queue|) {
      forall actions: seq<Action<T>>, t: State<T> | Leads(Ring(), s, actions, t) ensures Safe(t) {
        RunsAreSafe(s, actions, t);
      }
      assert AlwaysSafe(s);
    } else {
      var actions, t := OtherSizesCollide(s);
      assert !Safe(t);
      assert !AlwaysSafe(s);
    }
  }
}
