/** A first-in-first-out sequence of bytes, and what its operations show. */
module Fifo {
  import opened Bits
  import opened Lists
  import opened Results

  /** What a queue allows: the size of its chunks, the bytes that all of them hold, and
      whether it may have more chunks than that. */
  datatype Limits = Limits(size: nat, capacity: nat, soft: bool)

  /** The bytes, oldest first, and how far the first chunk has been read. */
  datatype State = State(bytes: seq<byte>, lead: nat)

  /** What `s` leaves of all chunks allowed. */
  function Room(l: Limits, s: State): int {
    l.capacity - |s.bytes| - s.lead
  }

  /** Within the limits. */
  predicate Fits(l: Limits, s: State) {
    && s.lead < l.size && (s.bytes == [] ==> s.lead == 0)
    && (!l.soft ==> 0 <= Room(l, s))
  }

  /** How far the first chunk has been read once it has given `n` more bytes and `rest`
      is left. */
  function LeadAfter(lead: nat, n: nat, rest: seq<byte>, size: nat): nat
    requires 0 < size
  {
    if rest == [] then 0 else (lead + n) % size
  }

  lemma LeadWithin(lead: nat, n: nat, rest: seq<byte>, size: nat)
    requires 0 < size && lead + n <= size
    ensures LeadAfter(lead, n, rest, size) == if rest == [] || lead + n == size then 0 else lead + n
  {
  }

  lemma LeadStays(lead: nat, rest: seq<byte>, size: nat)
    requires lead < size && (rest == [] ==> lead == 0)
    ensures LeadAfter(lead, 0, rest, size) == lead
  {
  }

  /** Giving more bytes in turn is giving them at once. */
  lemma LeadAgain(lead: nat, n: nat, rest: seq<byte>, m: nat, end: seq<byte>, size: nat)
    requires 0 < size && (end != [] ==> rest != [])
    ensures LeadAfter(LeadAfter(lead, n, rest, size), m, end, size) == LeadAfter(lead, n + m, end, size)
  {
    if end != [] {
      AddToRemainder(lead + n, m, size);
    }
  }

  /** Giving bytes makes room. */
  lemma LeadLeavesRoom(lead: nat, n: nat, rest: seq<byte>, size: nat)
    requires lead < size
    ensures LeadAfter(lead, n, rest, size) < size && LeadAfter(lead, n, rest, size) <= lead + n
  {
  }

  /** Operations; `memory` is how many allocations succeed, at each writing of a
      WritePass at least. */
  datatype Op =
    | Write(buf: seq<byte>, memory: nat)
    | Read(len: nat)
    | Skip(amount: nat)
    | Peek
    | PeekAt(offset: nat)
    | Len
    | Reset
    | Pass
    | WritePass(buf: seq<byte>, memory: nat)
    | Sip(maxLen: nat, memory: nat)
    | Slurp(maxLen: nat, memory: nat)

  /** What a call shows its caller; `accepted` is what a write really appended,
      `taken` what a writer really took, `lead` where the first chunk then stands;
      `asked` tells whether at last there was a chunk for the reader to fill. */
  datatype Seen =
    | Wrote(n: int, err: Code, accepted: nat)
    | Got(buf: seq<byte>)
    | Count(len: nat)
    | Nothing
    | Passed(taken: seq<byte>, n: int, err: Code)
    | PassedOn(taken: seq<byte>, n: int, err: Code, accepted: nat, lead: nat)
    | Gathered(data: seq<byte>, n: int, err: Code, asked: bool)

  datatype Event = Event(op: Op, seen: Seen)

  /** `memory` new chunks hold `len` bytes. */
  predicate Enough(memory: nat, len: nat, size: nat) {
    len <= memory * size
  }

  /** How much of `len` bytes a write takes that does not want for memory. */
  function Accepted(l: Limits, s: State, len: nat): int {
    if l.soft then len else Min(len, Room(l, s))
  }

  /** How a queue refuses one more chunk: for its limit when it is full, otherwise for
      want of memory. */
  predicate Refused(l: Limits, s: State, err: Code) {
    && (err == Again || err == OutOfMemory)
    && (!l.soft ==> (err == Again <==> Room(l, s) == 0))
  }

  /** Whether a first-in-first-out sequence of bytes can answer like that. */
  predicate Shows(l: Limits, s: State, e: Event)
    requires 0 < l.size
  {
    match (e.op, e.seen)
    case (Write(buf, memory), Wrote(n, err, accepted)) =>
      && accepted <= |buf| && accepted <= Accepted(l, s, |buf|)
      && (Enough(memory, |buf|, l.size) ==> err != OutOfMemory && accepted == Accepted(l, s, |buf|))
      && (n >= 0 ==> n == accepted && err == Ok && (accepted == 0 ==> buf == []))
      && (n < 0 ==> err == OutOfMemory || (err == Again && accepted == 0 && buf != []))
      && (!l.soft ==> (err == OutOfMemory <==> accepted < Accepted(l, s, |buf|)))
    case (Read(len), Got(buf)) => buf == s.bytes[..Min(len, |s.bytes|)]
    case (Peek, Got(buf)) => buf <= s.bytes && (buf == [] <==> s.bytes == [])
    case (PeekAt(offset), Got(buf)) =>
      if offset < |s.bytes| then buf != [] && buf <= s.bytes[offset..] else buf == []
    case (Len, Count(n)) => n == |s.bytes|
    case (Skip(_), Nothing) => true
    case (Reset, Nothing) => true
    case (Pass, Passed(taken, n, err)) =>
      && taken <= s.bytes
      && (n >= 0 ==> n == |taken| && (n == 0 ==> s.bytes == []))
      && (n < 0 ==> err != Ok && (err == Again ==> taken == []))
    case (WritePass(buf, memory), PassedOn(taken, n, err, accepted, lead)) =>
      && accepted <= |buf| && taken <= s.bytes + buf[..accepted] && Fits(l, After(l, s, e))
      && (n >= 0 ==> n == accepted && err == Ok && (accepted == 0 ==> buf == []))
      && (n < 0 ==> err != Ok && (err == Again ==> accepted == 0 && buf != []))
      && (!l.soft && accepted < |buf| && (n >= 0 || err == Again) ==> Room(l, After(l, s, e)) == 0)
    case (Sip(maxLen, memory), Gathered(data, n, err, asked)) =>
      && (if n >= 0 then n == |data| else data == [] && err != Ok)
      && (0 < maxLen ==> |data| <= maxLen) && |data| <= Accepted(l, s, |data|)
      && (!asked ==> n < 0 && Refused(l, s, err) && (memory > 0 ==> err == Again && !l.soft))
    case (Slurp(maxLen, _), Gathered(data, n, err, asked)) =>
      && (if n >= 0 then n == |data| else err != Ok && (err == Again ==> data == []))
      && (0 < maxLen ==> |data| <= maxLen) && |data| <= Accepted(l, s, |data|)
      && (!asked ==> Refused(l, After(l, s, e), if n >= 0 then Again else err))
    case _ => false
  }

  /** The bytes an event adds at the back. */
  function Entering(e: Event): seq<byte> {
    match (e.op, e.seen)
    case (Write(buf, _), Wrote(_, _, accepted)) => buf[..Min(accepted, |buf|)]
    case (WritePass(buf, _), PassedOn(_, _, _, accepted, _)) => buf[..Min(accepted, |buf|)]
    case (_, Gathered(data, _, _, _)) => data
    case _ => []
  }

  /** The bytes an event gives to the writer. */
  function Given(e: Event): seq<byte> {
    match e.seen
    case Passed(taken, _, _) => taken
    case PassedOn(taken, _, _, _, _) => taken
    case _ => []
  }

  /** The bytes an event has from the reader. */
  function Supplied(e: Event): seq<byte> {
    if e.seen.Gathered? then e.seen.data else []
  }

  /** How many bytes an event takes from the front. */
  function Taken(bytes: seq<byte>, e: Event): (n: nat)
    ensures n <= |bytes + Entering(e)|
  {
    match e.op
    case Read(len) => Min(len, |bytes|)
    case Skip(amount) => Min(amount, |bytes|)
    case Reset => |bytes|
    case _ => Min(|Given(e)|, |bytes + Entering(e)|)
  }

  /** The bytes after an event. */
  function Left(bytes: seq<byte>, e: Event): seq<byte> {
    (bytes + Entering(e))[Taken(bytes, e)..]
  }

  function After(l: Limits, s: State, e: Event): State
    requires 0 < l.size
  {
    var rest := Left(s.bytes, e);
    State(rest, if e.seen.PassedOn? then e.seen.lead else LeadAfter(s.lead, Taken(s.bytes, e), rest, l.size))
  }

  /** No event goes over the limits. */
  lemma EventFits(l: Limits, s: State, e: Event)
    requires Fits(l, s) && Shows(l, s, e)
    ensures Fits(l, After(l, s, e))
  {
    LeadLeavesRoom(s.lead, Taken(s.bytes, e), Left(s.bytes, e), l.size);
    hide LeadAfter;
  }

  /** What is in the sequence after a run. */
  function Final(l: Limits, s: State, log: List<Event>): State
    requires 0 < l.size
    decreases log
  {
    match log
    case Nil => s
    case Cons(e, rest) => Final(l, After(l, s, e), rest)
  }

  /** Every event of a run is what the sequence shows at that moment. */
  predicate Explained(l: Limits, s: State, log: List<Event>)
    requires 0 < l.size
    decreases log
  {
    match log
    case Nil => true
    case Cons(e, rest) => Shows(l, s, e) && Explained(l, After(l, s, e), rest)
  }

  /** The sequence goes from `s` to `t` by a run that the log tells. */
  predicate LeadsTo(l: Limits, s: State, log: List<Event>, t: State)
    requires 0 < l.size
  {
    Explained(l, s, log) && t == Final(l, s, log)
  }

  lemma {:induction false} FinalSnoc(l: Limits, s: State, log: List<Event>, e: Event)
    requires 0 < l.size
    ensures Final(l, s, Snoc(log, e)) == After(l, Final(l, s, log), e)
    ensures Explained(l, s, Snoc(log, e)) <==> Explained(l, s, log) && Shows(l, Final(l, s, log), e)
    decreases log
  {
    hide Shows, After;
    match log
    case Nil =>
    case Cons(d, rest) => FinalSnoc(l, After(l, s, d), rest, e);
  }

  /** No run goes over the limits. */
  lemma {:induction false} LimitsAreKept(l: Limits, s: State, log: List<Event>)
    requires Fits(l, s) && Explained(l, s, log)
    ensures Fits(l, Final(l, s, log))
    decreases log
  {
    assert 0 < l.size;
    hide Shows, After, Fits;
    match log
    case Nil =>
    case Cons(e, rest) =>
      EventFits(l, s, e);
      LimitsAreKept(l, After(l, s, e), rest);
  }

  /** All bytes that enter during a run, in order. */
  function AllIn(log: List<Event>): seq<byte> {
    match log
    case Nil => []
    case Cons(e, rest) => Entering(e) + AllIn(rest)
  }

  /** All bytes that leave during a run, in order. */
  function AllOut(bytes: seq<byte>, log: List<Event>): seq<byte>
    decreases log
  {
    match log
    case Nil => []
    case Cons(e, rest) => (bytes + Entering(e))[..Taken(bytes, e)] + AllOut(Left(bytes, e), rest)
  }

  lemma Regroup(bytes: seq<byte>, first: seq<byte>, more: seq<byte>, all: seq<byte>,
                out: seq<byte>, end: seq<byte>, k: nat)
    requires all == bytes + first && k <= |all| && all[k..] + more == out + end
    ensures bytes + (first + more) == all[..k] + out + end
  {
    calc {
      bytes + (first + more);
    ==
      all + more;
    == { assert all == all[..k] + all[k..]; }
      all[..k] + (all[k..] + more);
    ==
      all[..k] + (out + end);
    ==
      all[..k] + out + end;
    }
  }

  /** First in, first out, over any run: nothing is lost, invented or reordered. */
  lemma {:induction false} NothingLostOrReordered(l: Limits, s: State, log: List<Event>)
    requires 0 < l.size
    ensures s.bytes + AllIn(log) == AllOut(s.bytes, log) + Final(l, s, log).bytes
    decreases log
  {
    match log
    case Nil =>
    case Cons(e, rest) =>
      var next := After(l, s, e);
      NothingLostOrReordered(l, next, rest);
      hide Entering, Taken, LeadAfter;
      Regroup(s.bytes, Entering(e), AllIn(rest), s.bytes + Entering(e), AllOut(next.bytes, rest),
              Final(l, next, rest).bytes, Taken(s.bytes, e));
  }

  // ---- several sequences in turn ----------------------------------------

  /** What happens to the sequence `k` when `who` tells whose turn each event is. */
  function Of(who: seq<nat>, log: seq<Event>, k: nat): List<Event>
    requires |who| == |log|
  {
    if who == [] then Nil
    else
      var i := |who| - 1;
      var before := Of(who[..i], log[..i], k);
      if who[i] == k then Snoc(before, log[i]) else before
  }

  lemma OfGrows(who: seq<nat>, log: seq<Event>, w: nat, e: Event, k: nat)
    requires |who| == |log|
    ensures Of(who + [w], log + [e], k) == if w == k then Snoc(Of(who, log, k), e) else Of(who, log, k)
  {
    assert (who + [w])[..|who|] == who && (log + [e])[..|log|] == log;
  }

  lemma NoTurns(l: Limits, s: State, k: nat)
    requires 0 < l.size
    ensures LeadsTo(l, s, Of([], [], k), s)
  {
  }

  /** Another event: the sequence whose turn it is goes on, all others stay. */
  lemma OneMoreTurn(l: Limits, s: State, t: State, u: State, who: seq<nat>, log: seq<Event>, w: nat, e: Event, k: nat)
    requires |who| == |log| && 0 < l.size && LeadsTo(l, s, Of(who, log, k), t)
    requires if w == k then Shows(l, t, e) && u == After(l, t, e) else u == t
    ensures LeadsTo(l, s, Of(who + [w], log + [e], k), u)
  {
    hide Of, Shows, After;
    OfGrows(who, log, w, e, k);
    FinalSnoc(l, s, Of(who, log, k), e);
  }

  /** All that the writer was given, by whatever sequence. */
  function AllGiven(log: seq<Event>): seq<byte> {
    if log == [] then [] else AllGiven(log[..|log| - 1]) + Given(log[|log| - 1])
  }

  /** All that the reader supplied, to whatever sequence. */
  function AllSupplied(log: seq<Event>): seq<byte> {
    if log == [] then [] else AllSupplied(log[..|log| - 1]) + Supplied(log[|log| - 1])
  }

  lemma NothingYet()
    ensures AllGiven([]) == AllSupplied([]) == []
  {
  }

  lemma AllGrows(log: seq<Event>, e: Event)
    ensures AllGiven(log + [e]) == AllGiven(log) + Given(e)
    ensures AllSupplied(log + [e]) == AllSupplied(log) + Supplied(e)
  {
    assert (log + [e])[..|log|] == log;
  }
}
