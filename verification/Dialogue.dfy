/** What a queue offers its writer and asks of its reader, call by call. */
module Dialogue {
  import opened Bits
  import opened Fifo
  import opened Results

  // ---- the writer -------------------------------------------------------

  /** One call of the writer, and how it answered. */
  datatype Call = Call(offer: seq<byte>, n: int, err: Code)

  /** The unread part of the first chunk. */
  function FirstRun(s: State, size: nat): seq<byte>
    requires s.lead < size
  {
    s.bytes[..Min(size - s.lead, |s.bytes|)]
  }

  /** After giving `n` bytes. */
  function Less(s: State, n: int, size: nat): (t: State)
    requires s.lead < size
    ensures t.lead < size
  {
    if n <= 0 then s
    else
      var k := Min(n, |s.bytes|);
      State(s.bytes[k..], LeadAfter(s.lead, k, s.bytes[k..], size))
  }

  /** What calls leave. */
  function Remaining(s: State, calls: seq<Call>, size: nat): (t: State)
    requires s.lead < size
    ensures t.lead < size
  {
    if calls == [] then s
    else Less(Remaining(s, calls[..|calls| - 1], size), calls[|calls| - 1].n, size)
  }

  /** Each call offers the first chunk that is left, as long as the writer takes something. */
  predicate InTurn(s: State, calls: seq<Call>, size: nat)
    requires s.lead < size
  {
    if calls == [] then true
    else
      var past, c := calls[..|calls| - 1], calls[|calls| - 1];
      && InTurn(s, past, size) && GoesOn(past)
      && c.offer == FirstRun(Remaining(s, past, size), size) && c.offer != []
      && c.n <= |c.offer|
  }

  /** The writer took something each time. */
  predicate GoesOn(calls: seq<Call>) {
    calls == [] || calls[|calls| - 1].n > 0
  }

  lemma OneMoreCall(s: State, calls: seq<Call>, c: Call, size: nat)
    requires s.lead < size
    ensures Remaining(s, calls + [c], size) == Less(Remaining(s, calls, size), c.n, size)
    ensures InTurn(s, calls + [c], size) <==>
      && InTurn(s, calls, size) && GoesOn(calls)
      && c.offer == FirstRun(Remaining(s, calls, size), size) && c.offer != []
      && c.n <= |c.offer|
    ensures GoesOn(calls + [c]) <==> c.n > 0
  {
    assert (calls + [c])[..|calls|] == calls;
  }

  lemma NoCalls(s: State, size: nat)
    requires s.lead < size
    ensures Remaining(s, [], size) == s && InTurn(s, [], size) && GoesOn([])
  {
  }

  /** The writer took nothing at all, or failed for another reason than that it would block. */
  predicate Failed(calls: seq<Call>) {
    calls != [] &&
    var last := calls[|calls| - 1];
    last.n <= 0 && (|calls| == 1 || (last.n < 0 && last.err != Again))
  }

  /** Calls go on until nothing is left or the writer takes nothing, and the result tells
      how many bytes went, or that the writer failed, and why. */
  predicate Passed(s: State, calls: seq<Call>, t: State, size: nat, n: int, err: Code)
    requires s.lead < size
  {
    && InTurn(s, calls, size) && t == Remaining(s, calls, size)
    && (t.bytes == [] || !GoesOn(calls))
    && n == (if Failed(calls) then -1 else |s.bytes| - |t.bytes|)
    && (calls != [] ==>
          var last := calls[|calls| - 1];
          err == if last.n == 0 && |calls| == 1 then Again else last.err)
  }

  lemma LessIs(s: State, n: int, size: nat)
    requires s.lead < size
    ensures n <= 0 ==> Less(s, n, size) == s
    ensures 0 < n <= |s.bytes| ==>
              Less(s, n, size) == State(s.bytes[n..], LeadAfter(s.lead, n, s.bytes[n..], size))
  {
  }

  lemma LessAre(s: State, n: int, t: State, size: nat)
    requires s.lead < size && 0 < n <= |s.bytes|
    requires t.bytes == s.bytes[n..] && t.lead == LeadAfter(s.lead, n, t.bytes, size)
    ensures t == Less(s, n, size)
  {
  }

  /** The next call, if the writer has taken something each time so far. */
  lemma NextCall(s: State, calls: seq<Call>, now: State, c: Call, size: nat)
    requires s.lead < size && InTurn(s, calls, size) && now == Remaining(s, calls, size)
    requires calls != [] ==> calls[|calls| - 1].n > 0
    requires c.offer == now.bytes[..Min(size - now.lead, |now.bytes|)] && c.offer != [] && c.n <= |c.offer|
    ensures InTurn(s, calls + [c], size) && Remaining(s, calls + [c], size) == Less(now, c.n, size)
    ensures c.offer <= now.bytes
  {
    hide InTurn, Remaining, Less;
    OneMoreCall(s, calls, c, size);
  }

  lemma PassEnds(s: State, calls: seq<Call>, t: State, size: nat, n: int, err: Code)
    requires s.lead < size && InTurn(s, calls, size) && t == Remaining(s, calls, size)
    requires if calls == [] then t.bytes == [] && n == 0 && s == t
             else
               var last, total := calls[|calls| - 1], |s.bytes| - |t.bytes|;
               if last.n > 0 then t.bytes == [] && n == total && err == last.err
               else if last.n == 0 then
                 if |calls| == 1 then n == -1 && err == Again else n == total && err == last.err
               else if |calls| == 1 || last.err != Again then n == -1 && err == last.err
               else n == total && err == last.err
    ensures Passed(s, calls, t, size, n, err)
  {
    hide InTurn, Remaining;
  }

  /** The writer of a queue that is not empty is called. */
  lemma SomethingIsOffered(s: State, calls: seq<Call>, t: State, size: nat, n: int, err: Code)
    requires s.lead < size && Passed(s, calls, t, size, n, err)
    ensures s.bytes == [] || calls != []
  {
    NoCalls(s, size);
  }

  // ---- the reader -------------------------------------------------------

  /** One call of the reader: the space it was given, and how it answered. */
  datatype Ask = Ask(max: nat, n: int, err: Code)

  /** The free space behind `used` bytes of a row of chunks, a new chunk if there is none. */
  function FreeEnd(used: nat, size: nat): nat
    requires 0 < size
  {
    size - used % size
  }

  function Gained(asks: seq<Ask>): nat {
    if asks == [] then 0
    else Gained(asks[..|asks| - 1]) + if asks[|asks| - 1].n > 0 then asks[|asks| - 1].n else 0
  }

  /** The space the reader is given when `used` bytes are in place and `left` more are
      wanted; 0 is no limit. */
  function Wanted(used: nat, left: nat, size: nat): nat
    requires 0 < size
  {
    if left == 0 then FreeEnd(used, size) else Min(FreeEnd(used, size), left)
  }

  /** All of the last chunk that is free, or all of a new one if none is, capped by what
      is wanted. */
  lemma WantedIsFreeEnd(chunks: nat, free: nat, used: nat, left: nat, size: nat)
    requires 0 < free <= size && used + free == chunks * size
    ensures Wanted(used, left, size) == if left == 0 || free <= left then free else left
  {
    assert chunks != 0;
    assert used == size * (chunks - 1) + (size - free);
    RemainderUnique(used, size, chunks - 1, size - free);
  }

  /** The bytes fill their chunks. */
  predicate FillsChunks(used: nat, size: nat)
    requires 0 < size
  {
    used % size == 0
  }

  lemma RowIsFull(chunks: nat, used: nat, size: nat)
    requires 0 < size && used == chunks * size
    ensures FillsChunks(used, size)
  {
    assert used == size * chunks;
    RemainderUnique(used, size, chunks, 0);
  }

  /** The reader is given the free end of the last chunk, or a new one, and asked again
      only when it has filled all of it and more is wanted. */
  predicate AskedInTurn(used: nat, maxLen: nat, asks: seq<Ask>, size: nat)
    requires 0 < size
  {
    if asks == [] then true
    else
      var past, a := asks[..|asks| - 1], asks[|asks| - 1];
      var got := Gained(past);
      && AskedInTurn(used, maxLen, past, size)
      && (past != [] ==> past[|past| - 1].n > 0 && FillsChunks(used + got, size))
      && (maxLen != 0 ==> got < maxLen)
      && a.max == Wanted(used + got, if maxLen == 0 then 0 else maxLen - got, size)
      && a.n <= a.max
  }

  lemma NoAsks(used: nat, maxLen: nat, size: nat)
    requires 0 < size
    ensures AskedInTurn(used, maxLen, [], size) && Gained([]) == 0
  {
  }

  lemma OneMoreAsk(used: nat, maxLen: nat, asks: seq<Ask>, a: Ask, size: nat)
    requires 0 < size && AskedInTurn(used, maxLen, asks, size)
    requires maxLen != 0 ==> Gained(asks) < maxLen
    requires asks != [] ==> asks[|asks| - 1].n > 0 && FillsChunks(used + Gained(asks), size)
    requires a.max == Wanted(used + Gained(asks), if maxLen == 0 then 0 else maxLen - Gained(asks), size)
    requires a.n <= a.max
    ensures AskedInTurn(used, maxLen, asks + [a], size)
    ensures Gained(asks + [a]) == Gained(asks) + if a.n > 0 then a.n else 0
  {
    assert (asks + [a])[..|asks|] == asks;
  }

  // ---- writing through --------------------------------------------------

  /** One round: the calls that make room, and what is then queued of the rest. */
  datatype Round = Round(calls: seq<Call>, accepted: nat)

  function More(s: State, added: seq<byte>): State {
    s.(bytes := s.bytes + added)
  }

  /** How many bytes rounds have queued. */
  function Queued(rounds: seq<Round>): nat {
    if rounds == [] then 0 else Queued(rounds[..|rounds| - 1]) + rounds[|rounds| - 1].accepted
  }

  function CallsOf(rounds: seq<Round>): seq<Call> {
    if rounds == [] then [] else CallsOf(rounds[..|rounds| - 1]) + rounds[|rounds| - 1].calls
  }

  /** What rounds leave in the queue. */
  function Through(s: State, buf: seq<byte>, rounds: seq<Round>, size: nat): (t: State)
    requires s.lead < size
    ensures t.lead < size
  {
    if rounds == [] then s
    else
      var past, r := rounds[..|rounds| - 1], rounds[|rounds| - 1];
      var p := Min(Queued(past), |buf|);
      var q := Min(p + r.accepted, |buf|);
      More(Remaining(Through(s, buf, past, size), r.calls, size), buf[p..q])
  }

  /** Whether a round of a queue may go as it did: the writer is called if and only if the
      queue is full, until it blocks or nothing is left, and unless it fails what fits is
      queued, at least as far as `memory` new chunks hold it. */
  predicate RoundGoes(l: Limits, s: State, left: nat, memory: nat, r: Round)
    requires s.lead < l.size
  {
    var t := Remaining(s, r.calls, l.size);
    && InTurn(s, r.calls, l.size) && (r.calls != [] ==> t.bytes == [] || !GoesOn(r.calls))
    && (!l.soft ==> (r.calls == [] <==> 0 < Room(l, s)))
    && r.accepted <= left && r.accepted <= Accepted(l, t, left)
    && (Failed(r.calls) ==> r.accepted == 0)
    && (Enough(memory, left, l.size) && !Failed(r.calls) ==> r.accepted == Accepted(l, t, left))
  }

  lemma MoreIs(s: State, added: seq<byte>, t: State)
    requires t.bytes == s.bytes + added && t.lead == s.lead
    ensures t == More(s, added)
  {
  }

  lemma EmptyHasRoom(l: Limits, s: State)
    requires Fits(l, s) && s.bytes == []
    ensures Room(l, s) == l.capacity
  {
  }

  lemma AcceptedFits(l: Limits, t: State, u: State, left: nat, accepted: nat)
    requires Fits(l, u) && |u.bytes| == |t.bytes| + accepted && u.lead == t.lead && accepted <= left
    ensures accepted <= Accepted(l, t, left)
    ensures Accepted(l, t, left) == if l.soft then left else Min(left, Room(l, t))
  {
  }

  lemma RoundIsMade(l: Limits, s: State, t: State, left: nat, memory: nat, full: bool,
                    calls: seq<Call>, n: int, err: Code, accepted: nat)
    requires Fits(l, s) && accepted <= left && accepted <= Accepted(l, t, left)
    requires !l.soft ==> (full <==> Room(l, s) == 0)
    requires if full then Passed(s, calls, t, l.size, n, err) else calls == [] && t == s && n == 0
    requires |t.bytes| <= |s.bytes| && (n < 0 ==> accepted == 0)
    requires n >= 0 && Enough(memory, left, l.size) ==> accepted == Accepted(l, t, left)
    requires !l.soft ==> 0 < l.capacity
    ensures RoundGoes(l, s, left, memory, Round(calls, accepted)) && t == Remaining(s, calls, l.size)
    ensures n < 0 ==> calls != [] && (err != Again ==> err == calls[|calls| - 1].err)
    ensures full && !l.soft ==> calls != []
    ensures n >= 0 && full && t.bytes != [] ==> calls != [] && !GoesOn(calls)
    ensures n < 0 ==> !GoesOn(calls)
  {
    hide Enough, Accepted;
    NoCalls(s, l.size);
    hide InTurn, Remaining;
  }

  /** Rounds go on as long as each of them queues something. */
  predicate RoundsGo(l: Limits, s: State, buf: seq<byte>, memory: nat, rounds: seq<Round>)
    requires s.lead < l.size
  {
    if rounds == [] then true
    else
      var past, r := rounds[..|rounds| - 1], rounds[|rounds| - 1];
      && RoundsGo(l, s, buf, memory, past) && (past != [] ==> past[|past| - 1].accepted > 0)
      && Queued(past) < |buf|
      && RoundGoes(l, Through(s, buf, past, l.size), |buf| - Queued(past), memory, r)
  }

  lemma OneMoreRound(l: Limits, s: State, buf: seq<byte>, memory: nat, rounds: seq<Round>, r: Round)
    requires s.lead < l.size && RoundsGo(l, s, buf, memory, rounds) && Queued(rounds) < |buf|
    requires rounds != [] ==> rounds[|rounds| - 1].accepted > 0
    requires RoundGoes(l, Through(s, buf, rounds, l.size), |buf| - Queued(rounds), memory, r)
    ensures RoundsGo(l, s, buf, memory, rounds + [r])
    ensures Queued(rounds + [r]) == Queued(rounds) + r.accepted <= |buf|
    ensures CallsOf(rounds + [r]) == CallsOf(rounds) + r.calls
    ensures Through(s, buf, rounds + [r], l.size)
         == More(Remaining(Through(s, buf, rounds, l.size), r.calls, l.size),
                 buf[Queued(rounds)..Queued(rounds) + r.accepted])
  {
    hide RoundGoes, Remaining, More, Room, InTurn, Through, Queued, CallsOf;
    RoundsGrow(rounds, r);
    AcceptedIsLess(l, Through(s, buf, rounds, l.size), |buf| - Queued(rounds), memory, r);
    ThroughGrows(s, buf, rounds, r, l.size);
    assert (rounds + [r])[..|rounds|] == rounds;
  }

  lemma RoundsGrow(rounds: seq<Round>, r: Round)
    ensures Queued(rounds + [r]) == Queued(rounds) + r.accepted
    ensures CallsOf(rounds + [r]) == CallsOf(rounds) + r.calls
  {
    assert (rounds + [r])[..|rounds|] == rounds;
  }

  lemma ThroughGrows(s: State, buf: seq<byte>, rounds: seq<Round>, r: Round, size: nat)
    requires s.lead < size && Queued(rounds) + r.accepted <= |buf|
    ensures Through(s, buf, rounds + [r], size)
         == More(Remaining(Through(s, buf, rounds, size), r.calls, size),
                 buf[Queued(rounds)..Queued(rounds) + r.accepted])
  {
    assert (rounds + [r])[..|rounds|] == rounds;
    hide Remaining, More, Queued;
  }

  lemma EnoughGrows(memory: nat, more: nat, len: nat, size: nat)
    requires memory <= more
    ensures Enough(memory, len, size) ==> Enough(more, len, size)
  {
    ProductIsNonNegative(more - memory, size);
    assert (more - memory) * size == more * size - memory * size;
  }

  lemma NextRound(l: Limits, s: State, now: State, buf: seq<byte>, memory: nat,
                  rounds: seq<Round>, r: Round, next: State)
    requires s.lead < l.size && RoundsGo(l, s, buf, memory, rounds) && Queued(rounds) < |buf|
    requires rounds != [] ==> rounds[|rounds| - 1].accepted > 0
    requires now == Through(s, buf, rounds, l.size)
    requires RoundGoes(l, now, |buf| - Queued(rounds), memory, r) && r.accepted <= |buf| - Queued(rounds)
    requires next == More(Remaining(now, r.calls, l.size), buf[Queued(rounds)..][..r.accepted])
    ensures RoundsGo(l, s, buf, memory, rounds + [r]) && next == Through(s, buf, rounds + [r], l.size)
    ensures Queued(rounds + [r]) == Queued(rounds) + r.accepted
    ensures CallsOf(rounds + [r]) == CallsOf(rounds) + r.calls
    ensures (rounds + [r])[|rounds|] == r && (rounds != [] ==> (rounds + [r])[0] == rounds[0])
    ensures Enough(memory, |buf|, l.size) ==> Enough(memory, |buf| - Queued(rounds), l.size)
  {
    hide RoundsGo, RoundGoes, Remaining, More, Through, Queued, CallsOf;
    OneMoreRound(l, s, buf, memory, rounds, r);
    assert buf[Queued(rounds)..][..r.accepted] == buf[Queued(rounds)..Queued(rounds) + r.accepted];
  }

  lemma AcceptedIsLess(l: Limits, s: State, left: nat, memory: nat, r: Round)
    requires s.lead < l.size && RoundGoes(l, s, left, memory, r)
    ensures r.accepted <= left
  {
  }

  lemma NoRounds(l: Limits, s: State, buf: seq<byte>, memory: nat)
    requires s.lead < l.size
    ensures RoundsGo(l, s, buf, memory, []) && Queued([]) == 0 && CallsOf([]) == [] && Through(s, buf, [], l.size) == s
  {
  }
}
