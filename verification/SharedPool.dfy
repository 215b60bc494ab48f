/** Byte queues that share a pool, and whole runs of them. */
module SharedPool {
  import opened Bits
  import opened ByteQueue
  import Dialogue
  import opened Fifo
  import opened Lists
  import opened Results

  // ---- one operation ----------------------------------------------------

  lemma CancelFront(w: seq<byte>, x: seq<byte>, y: seq<byte>)
    requires w + x == w + y
    ensures x == y
  {
    assert (w + x)[|w|..] == x && (w + y)[|w|..] == y;
  }

  lemma WhyStuck(q: BufQ, err: Code)
    requires q.View().Queue? && q.Stuck(err)
    ensures Refused(LimitsOf(q), StateOf(q.View()), err)
  {
    QueueFits(q);
    q.StuckOrFull(err);
  }

  lemma NothingLeft(lead: nat, n: nat, size: nat)
    requires 0 < size
    ensures LeadAfter(lead, n, [], size) == 0
  {
  }

  /** What is taken leaves from the front. */
  lemma Leaves(l: Limits, s: State, e: Event, out: seq<byte>, after: State)
    requires 0 < l.size && s.bytes + Entering(e) == out + after.bytes && Taken(s.bytes, e) == |out|
    requires after.lead == if e.seen.PassedOn? then e.seen.lead else LeadAfter(s.lead, |out|, after.bytes, l.size)
    ensures After(l, s, e) == after && out == (s.bytes + Entering(e))[..|out|]
  {
  }

  lemma NothingLeaves(l: Limits, s: State, e: Event)
    requires Fits(l, s) && Taken(s.bytes, e) == 0 && !e.seen.PassedOn?
    ensures After(l, s, e) == State(s.bytes + Entering(e), s.lead)
  {
    LeadStays(s.lead, Left(s.bytes, e), l.size);
  }

  /** What a writer took, from what was offered to it. */
  lemma TakenByWriter(w: seq<byte>, w': seq<byte>, all: seq<byte>, rest: seq<byte>) returns (taken: seq<byte>)
    requires w <= w' && w' + rest == w + all
    ensures w' == w + taken && all == taken + rest && taken <= all
  {
    taken := w'[|w|..];
    assert w' == w + taken;
    assert w + (taken + rest) == w + all;
    CancelFront(w, taken + rest, all);
  }

  /** What a reader gave, from what was stored of it. */
  lemma GivenByReader(b: seq<byte>, b': seq<byte>, r: seq<byte>, r': seq<byte>) returns (data: seq<byte>)
    requires b' + r' == b + r && |b| <= |b'|
    ensures b' == b + data && r == data + r'
  {
    assert b == (b + r)[..|b|] == b'[..|b|];
    data := b'[|b|..];
    assert b + (data + r') == b + r;
    CancelFront(b, data + r', r);
  }

  // ---- what each operation shows, given how it went ----------------------

  lemma WriteShows(l: Limits, s: State, s': State, room: int, e: Event)
    requires e.op.Write? && e.seen.Wrote? && Fits(l, s) && Fits(l, s') && (!l.soft ==> room == Room(l, s))
    requires e.seen.accepted <= |e.op.buf|
    requires s'.bytes == s.bytes + e.op.buf[..e.seen.accepted] && s'.lead == s.lead
    requires match e.seen.err
      case Ok => e.seen.n == e.seen.accepted && (e.seen.accepted == 0 ==> e.op.buf == [])
      case Again => e.seen.n == -1 && e.seen.accepted == 0 && e.op.buf != []
      case OutOfMemory => e.seen.n == -1 && e.seen.accepted < |e.op.buf|
      case _ => false
    requires !l.soft && e.seen.accepted < |e.op.buf| ==> (e.seen.err == OutOfMemory <==> Room(l, s') > 0)
    requires Enough(e.op.memory, |e.op.buf|, l.size) ==>
               && e.seen.err != OutOfMemory
               && e.seen.accepted == if l.soft then |e.op.buf| else Min(|e.op.buf|, room)
    ensures Shows(l, s, e) && After(l, s, e) == s' && Given(e) == Supplied(e) == []
  {
    hide Enough, LeadAfter, After;
    NothingLeaves(l, s, e);
  }

  lemma LookShows(l: Limits, s: State, s': State, e: Event)
    requires Fits(l, s) && s' == s
    requires match (e.op, e.seen)
      case (Peek, Got(buf)) => buf <= s.bytes && (buf == [] <==> s.bytes == [])
      case (PeekAt(offset), Got(buf)) =>
        if offset < |s.bytes| then buf != [] && buf <= s.bytes[offset..] else buf == []
      case (Len, Count(n)) => n == |s.bytes|
      case _ => false
    ensures Shows(l, s, e) && After(l, s, e) == s' && Given(e) == Supplied(e) == []
  {
    hide LeadAfter, After;
    NothingLeaves(l, s, e);
    assert s.bytes + [] == s.bytes;
  }

  lemma TakeShows(l: Limits, s: State, s': State, e: Event, out: seq<byte>)
    requires 0 < l.size && s.bytes == out + s'.bytes && s'.lead == LeadAfter(s.lead, |out|, s'.bytes, l.size)
    requires match (e.op, e.seen)
      case (Read(len), Got(buf)) => buf == out && |out| == Min(len, |s.bytes|)
      case (Skip(amount), Nothing) => |out| == Min(amount, |s.bytes|)
      case (Reset, Nothing) => |out| == |s.bytes|
      case _ => false
    ensures Shows(l, s, e) && After(l, s, e) == s' && Given(e) == Supplied(e) == []
  {
    hide LeadAfter, After;
    assert s.bytes + [] == s.bytes;
    Leaves(l, s, e, out, s');
  }

  lemma PassShows(l: Limits, s: State, s': State, e: Event)
    requires 0 < l.size && e.op.Pass? && e.seen.Passed?
    requires s.bytes == e.seen.taken + s'.bytes && s'.lead == LeadAfter(s.lead, |e.seen.taken|, s'.bytes, l.size)
    requires if e.seen.n >= 0 then e.seen.n == |e.seen.taken| && (e.seen.n == 0 ==> s'.bytes == [])
             else e.seen.err != Ok && (e.seen.err == Again ==> e.seen.taken == [])
    ensures Shows(l, s, e) && After(l, s, e) == s' && Given(e) == e.seen.taken && Supplied(e) == []
  {
    hide LeadAfter, After;
    assert s.bytes + [] == s.bytes;
    Leaves(l, s, e, e.seen.taken, s');
  }

  lemma WritePassShows(l: Limits, s: State, s': State, e: Event)
    requires e.op.WritePass? && e.seen.PassedOn? && Fits(l, s') && e.seen.accepted <= |e.op.buf|
    requires s.bytes + e.op.buf[..e.seen.accepted] == e.seen.taken + s'.bytes && s'.lead == e.seen.lead
    requires if e.seen.n >= 0 then
               e.seen.n == e.seen.accepted && e.seen.err == Ok && (e.seen.accepted == 0 ==> e.op.buf == [])
             else e.seen.err != Ok && (e.seen.err == Again ==> e.seen.accepted == 0 && e.op.buf != [])
    requires !l.soft && e.seen.accepted < |e.op.buf| && (e.seen.n >= 0 || e.seen.err == Again) ==> Room(l, s') == 0
    ensures Shows(l, s, e) && After(l, s, e) == s' && Given(e) == e.seen.taken && Supplied(e) == []
  {
    assert 0 < l.size;
    hide LeadAfter, After, Fits, Room;
    Leaves(l, s, e, e.seen.taken, s');
  }

  lemma GatherShows(l: Limits, s: State, s': State, e: Event)
    requires Fits(l, s) && Fits(l, s') && e.seen.Gathered?
    requires s'.bytes == s.bytes + e.seen.data && s'.lead == s.lead
    requires match e.op
      case Sip(maxLen, memory) =>
        && (if e.seen.n >= 0 then e.seen.n == |e.seen.data| else e.seen.data == [] && e.seen.err != Ok)
        && (0 < maxLen ==> |e.seen.data| <= maxLen)
        && (!e.seen.asked ==>
              e.seen.n < 0 && Refused(l, s', e.seen.err) && (memory > 0 ==> e.seen.err == Again && !l.soft))
      case Slurp(maxLen, _) =>
        && (if e.seen.n >= 0 then e.seen.n == |e.seen.data|
            else e.seen.err != Ok && (e.seen.err == Again ==> e.seen.data == []))
        && (0 < maxLen ==> |e.seen.data| <= maxLen)
        && (!e.seen.asked ==> Refused(l, s', if e.seen.n >= 0 then Again else e.seen.err))
      case _ => false
    ensures Shows(l, s, e) && After(l, s, e) == s' && Supplied(e) == e.seen.data && Given(e) == []
  {
    hide LeadAfter, After;
    NothingLeaves(l, s, e);
  }

  // ---- one operation on a queue -----------------------------------------

  /** A write to the queue. */
  method Store(q: BufQ, op: Op) returns (ghost e: Event)
    requires q.View().Queue? && op.Write?
    modifies q, q.pool, q.Owned()
    ensures q.View().Queue? && e.op == op && Shows(LimitsOf(q), StateOf(old(q.View())), e)
    ensures StateOf(q.View()) == After(LimitsOf(q), StateOf(old(q.View())), e)
    ensures Given(e) == [] && Supplied(e) == []
    ensures forall c :: c in q.Owned() ==> c in old(q.Owned()) || fresh(c)
  {
    hide *;
    QueueFits(q);
    EnoughBlocks(op.memory, |op.buf|, q.chunkSize);
    var n, err, accepted, left := q.Write(op.buf, op.memory);
    QueueFits(q);
    e := Event(op, Wrote(n, err, accepted));
    WriteShows(LimitsOf(q), StateOf(old(q.View())), StateOf(q.View()), old(q.View()).room, e);
  }

  /** Any operation that looks at the queue. */
  method Observe(q: BufQ, op: Op) returns (ghost e: Event)
    requires q.View().Queue? && (op.Peek? || op.PeekAt? || op.Len?)
    modifies q, q.pool, q.Owned()
    ensures q.View().Queue? && e.op == op && Shows(LimitsOf(q), StateOf(old(q.View())), e)
    ensures StateOf(q.View()) == After(LimitsOf(q), StateOf(old(q.View())), e)
    ensures Given(e) == [] && Supplied(e) == []
    ensures forall c :: c in q.Owned() ==> c in old(q.Owned()) || fresh(c)
  {
    hide *;
    QueueFits(q);
    q.RoomIsTheRest();
    var ok: bool;
    var buf: seq<byte>;
    if op.Len? {
      var len := q.BytesUnread();
      e := Event(op, Count(len));
    } else {
      if op.Peek? {
        ok, buf := q.Peek();
        FirstOfAll(q.View().bytes, buf, q.chunkSize - q.View().lead);
      } else {
        ok, buf := q.PeekAt(op.offset);
      }
      e := Event(op, Got(buf));
    }
    QueueFits(q);
    LookShows(LimitsOf(q), StateOf(old(q.View())), StateOf(q.View()), e);
  }

  /** Any operation that takes bytes from the queue. */
  method Remove(q: BufQ, op: Op) returns (ghost e: Event)
    requires q.View().Queue? && (op.Read? || op.Skip? || op.Reset?)
    modifies q, q.pool, q.Owned()
    ensures q.View().Queue? && e.op == op && Shows(LimitsOf(q), StateOf(old(q.View())), e)
    ensures StateOf(q.View()) == After(LimitsOf(q), StateOf(old(q.View())), e)
    ensures Given(e) == [] && Supplied(e) == []
    ensures forall c :: c in q.Owned() ==> c in old(q.Owned()) || fresh(c)
  {
    hide *;
    QueueFits(q);
    ghost var bytes, out := q.View().bytes, q.View().bytes;
    if op.Reset? {
      q.OwnedAll();
      q.Reset();
      e := Event(op, Nothing);
      NothingLeft(old(q.View()).lead, |bytes|, q.chunkSize);
      assert bytes == out + q.View().bytes;
    } else if op.Skip? {
      MinIs(op.amount, |bytes|);
      q.Skip(op.amount);
      e, out := Event(op, Nothing), bytes[..Min(op.amount, |bytes|)];
      assert bytes == out + q.View().bytes;
    } else {
      var buf, n, err := q.Read(op.len);
      e, out := Event(op, Got(buf)), buf;
    }
    QueueFits(q);
    TakeShows(LimitsOf(q), StateOf(old(q.View())), StateOf(q.View()), e, out);
  }

  /** Either operation that hands bytes to the writer. */
  method Forward(q: BufQ, op: Op, sink: Sink) returns (ghost e: Event)
    requires q.View().Queue? && (op.Pass? || op.WritePass?)
    modifies q, q.pool, q.Owned(), sink
    ensures q.View().Queue? && e.op == op && Shows(LimitsOf(q), StateOf(old(q.View())), e)
    ensures StateOf(q.View()) == After(LimitsOf(q), StateOf(old(q.View())), e)
    ensures sink.taken == old(sink.taken) + Given(e) && Supplied(e) == []
    ensures forall c :: c in q.Owned() ==> c in old(q.Owned()) || fresh(c)
  {
    hide *;
    QueueFits(q);
    ghost var bytes, given := q.View().bytes, sink.taken;
    var n: int;
    var err: Code;
    ghost var accepted: nat, taken: seq<byte>;
    if op.Pass? {
      ghost var calls: seq<Dialogue.Call>;
      n, err, calls := q.Pass(sink, Ok);
      taken := TakenByWriter(given, sink.taken, bytes, q.View().bytes);
      e := Event(op, Passed(taken, n, err));
      QueueFits(q);
      PassShows(LimitsOf(q), StateOf(old(q.View())), StateOf(q.View()), e);
    } else {
      ghost var rounds: seq<Dialogue.Round>;
      n, err, rounds := q.WritePass(op.buf, sink, op.memory);
      accepted := Dialogue.Queued(rounds);
      ConcatAssoc(given, bytes, op.buf[..accepted]);
      taken := TakenByWriter(given, sink.taken, bytes + op.buf[..accepted], q.View().bytes);
      e := Event(op, PassedOn(taken, n, err, accepted, q.View().lead));
      QueueFits(q);
      WritePassShows(LimitsOf(q), StateOf(old(q.View())), StateOf(q.View()), e);
    }
  }

  /** Either operation that stores what the reader gives. */
  method Gather(q: BufQ, op: Op, source: Source) returns (ghost e: Event)
    requires q.View().Queue? && (op.Sip? || op.Slurp?)
    modifies q, q.pool, q.Owned(), source
    ensures q.View().Queue? && e.op == op && Shows(LimitsOf(q), StateOf(old(q.View())), e)
    ensures StateOf(q.View()) == After(LimitsOf(q), StateOf(old(q.View())), e)
    ensures old(source.remaining) == Supplied(e) + source.remaining && Given(e) == []
    ensures forall c :: c in q.Owned() ==> c in old(q.Owned()) || fresh(c)
  {
    hide *;
    QueueFits(q);
    ghost var bytes, supply := q.View().bytes, source.remaining;
    var n: int;
    var err: Code;
    var left: nat;
    ghost var asked: bool;
    if op.Sip? {
      n, err, asked, left := q.Sipn(op.maxLen, source, op.memory);
    } else {
      ghost var asks: seq<Dialogue.Ask>;
      n, err, asked, left, asks := q.Slurpn(op.maxLen, source, op.memory);
    }
    QueueFits(q);
    if !asked {
      WhyStuck(q, if n >= 0 then Again else err);
    }
    ghost var data := GivenByReader(bytes, q.View().bytes, supply, source.remaining);
    e := Event(op, Gathered(data, n, err, asked));
    GatherShows(LimitsOf(q), StateOf(old(q.View())), StateOf(q.View()), e);
  }

  /** Any one operation does to the bytes, and shows, what it does to a sequence. */
  method Apply(q: BufQ, op: Op, sink: Sink, source: Source) returns (ghost e: Event)
    requires q.View().Queue?
    modifies q, q.pool, q.Owned(), sink, source
    ensures q.View().Queue? && e.op == op && Shows(LimitsOf(q), StateOf(old(q.View())), e)
    ensures StateOf(q.View()) == After(LimitsOf(q), StateOf(old(q.View())), e)
    ensures sink.taken == old(sink.taken) + Given(e) && old(source.remaining) == Supplied(e) + source.remaining
    ensures forall c :: c in q.Owned() ==> c in old(q.Owned()) || fresh(c)
  {
    hide *;
    match op {
      case Write(_, _) => e := Store(q, op);
      case Read(_) => e := Remove(q, op);
      case Skip(_) => e := Remove(q, op);
      case Reset => e := Remove(q, op);
      case Pass => e := Forward(q, op, sink);
      case WritePass(_, _) => e := Forward(q, op, sink);
      case Sip(_, _) => e := Gather(q, op, source);
      case Slurp(_, _) => e := Gather(q, op, source);
      case _ => e := Observe(q, op);
    }
  }

  // ---- queues that share a pool -----------------------------------------

  /** The chunks in a queue's own lists. */
  ghost function Own(q: BufQ): set<Chunk>
    reads q
  {
    Members(q.chunks) + Members(q.spares)
  }

  /** No chunk is in two queues, or in a queue and the pool. */
  lemma ChunksAreApart(q: BufQ, other: BufQ)
    requires q != other && q.pool == other.pool && q.View().Queue? && other.View().Queue?
    ensures q.Owned() !! Own(other)
    ensures Members(q.chunks) !! Members(q.spares) && Own(q) !! Members(q.PoolChunks())
    ensures forall c :: c in Own(other) ==> allocated(c)
  {
    q.Chains();
    other.Chains();
  }

  /** A pool is in order for all its queues or for none. */
  lemma PoolIsShared(q: BufQ, other: BufQ)
    requires q.pool == other.pool && q.View().Queue?
    ensures other.PoolOk()
  {
  }

  /** A queue whose own chunks stay as they are stays as it is, if its pool is in order. */
  twostate lemma Unaffected(q: BufQ)
    requires old(q.View().Queue?) && unchanged(q)
    requires forall c :: c in old(Own(q)) ==> old(allocated(c)) && unchanged(c)
    requires q.PoolOk()
    ensures q.View() == old(q.View())
  {
    assert forall c :: c in old(Members(q.chunks)) ==> c in old(Own(q));
    assert forall c :: c in old(Members(q.spares)) ==> c in old(Own(q));
    MembersExist(q.chunks);
    MembersExist(q.spares);
    if q.tail != null {
      LastVal(q.chunks);
    }
    assert q.Valid();
    assert q.Content() == old(q.Content());
    assert q.Room() == old(q.Room());
  }

  /** Every chunk these queues may touch. */
  ghost function AllOwned(qs: seq<BufQ>, pool: Pool?): set<Chunk>
    reads qs, pool
  {
    (set q, c | q in qs && c in Own(q) :: c) + if pool == null then {} else Members(pool.list)
  }

  ghost function Tails(qs: seq<BufQ>): set<Chunk>
    reads qs
  {
    set q | q in qs && q.tail != null :: q.tail
  }

  /** Different well-formed queues, all of one pool. */
  ghost predicate Together(qs: seq<BufQ>, pool: Pool?)
    reads qs, pool, AllOwned(qs, pool), Tails(qs)
  {
    && (forall i, j :: 0 <= i < j < |qs| ==> qs[i] != qs[j])
    && (forall q <- qs :: q.pool == pool
          && (assert Own(q) <= AllOwned(qs, pool);
              assert q.tail != null ==> q.tail in Tails(qs);
              assert Members(q.PoolChunks()) <= AllOwned(qs, pool);
              q.View().Queue?))
  }

  lemma OwnedIsOurs(qs: seq<BufQ>, pool: Pool?, k: nat)
    requires k < |qs| && qs[k].pool == pool
    ensures qs[k].Owned() == Own(qs[k]) + Members(qs[k].PoolChunks())
    ensures qs[k].Owned() <= AllOwned(qs, pool)
    ensures forall c :: c in AllOwned(qs, pool) ==>
              c in qs[k].Owned() || exists i :: 0 <= i < |qs| && i != k && c in Own(qs[i])
  {
    assert forall c :: c in Own(qs[k]) ==> qs[k] in qs && c in AllOwned(qs, pool);
  }

  /** An operation on one queue leaves all others of its pool as they are. */
  method ApplyAmong(qs: seq<BufQ>, pool: Pool?, k: nat, op: Op, sink: Sink, source: Source) returns (ghost e: Event)
    requires Together(qs, pool) && k < |qs|
    modifies qs[k], pool, qs[k].Owned(), sink, source
    ensures Together(qs, pool) && e.op == op && Shows(LimitsOf(qs[k]), StateOf(old(qs[k].View())), e)
    ensures StateOf(qs[k].View()) == After(LimitsOf(qs[k]), StateOf(old(qs[k].View())), e)
    ensures forall i :: 0 <= i < |qs| && i != k ==> qs[i].View() == old(qs[i].View())
    ensures sink.taken == old(sink.taken) + Given(e) && old(source.remaining) == Supplied(e) + source.remaining
    ensures forall c :: c in AllOwned(qs, pool) ==> c in old(AllOwned(qs, pool)) || fresh(c)
  {
    hide BufQ.View, BufQ.Owned, BufQ.PoolOk, Own, After, Shows, Given, Supplied;
    OwnedIsOurs(qs, pool, k);
    forall i | 0 <= i < |qs| && i != k
      ensures qs[k].Owned() !! Own(qs[i]) && forall c :: c in Own(qs[i]) ==> allocated(c)
    {
      ChunksAreApart(qs[k], qs[i]);
    }
    e := Apply(qs[k], op, sink, source);
    forall i | 0 <= i < |qs| && i != k
      ensures qs[i].View() == old(qs[i].View()) && Own(qs[i]) == old(Own(qs[i]))
      ensures forall c :: c in Own(qs[i]) ==> c in old(AllOwned(qs, pool))
    {
      PoolIsShared(qs[k], qs[i]);
      assert unchanged(qs[i]);
      Unaffected(qs[i]);
      assert forall c :: c in Own(qs[i]) ==> qs[i] in qs && c in old(AllOwned(qs, pool));
    }
    OwnedIsOurs(qs, pool, k);
  }

  /** Queues that share a pool, used in any order: each of them shows, to the end, what a
      sequence of bytes of its own would show, whatever is done to the others between, and
      none goes over its limits. */
  method Interleave(qs: seq<BufQ>, pool: Pool?, who: seq<nat>, ops: seq<Op>, sink: Sink, source: Source)
    returns (ghost log: seq<Event>)
    requires Together(qs, pool) && |who| == |ops| && forall k <- who :: k < |qs|
    modifies qs, pool, AllOwned(qs, pool), sink, source
    ensures Together(qs, pool) && |log| == |ops| && forall i :: 0 <= i < |ops| ==> log[i].op == ops[i]
    ensures forall k :: 0 <= k < |qs| ==>
              LeadsTo(LimitsOf(qs[k]), StateOf(old(qs[k].View())), Of(who, log, k), StateOf(qs[k].View()))
    ensures forall k :: 0 <= k < |qs| ==>
              Fits(LimitsOf(qs[k]), StateOf(qs[k].View()))
              && old(qs[k].View()).bytes + AllIn(Of(who, log, k))
                 == AllOut(old(qs[k].View()).bytes, Of(who, log, k)) + qs[k].View().bytes
    ensures sink.taken == old(sink.taken) + AllGiven(log)
    ensures old(source.remaining) == AllSupplied(log) + source.remaining
  {
    hide BufQ.View, BufQ.Owned, AllOwned, Shows, After, Final, Explained, Of, AllIn, AllOut;
    hide AllGiven, AllSupplied, Given, Supplied, LimitsOf, Fits;
    log := [];
    forall k | 0 <= k < |qs|
      ensures 0 < LimitsOf(qs[k]).size
      ensures LeadsTo(LimitsOf(qs[k]), StateOf(qs[k].View()), Of([], [], k), StateOf(qs[k].View()))
    {
      QueueFits(qs[k]);
      NoTurns(LimitsOf(qs[k]), StateOf(qs[k].View()), k);
    }
    NothingYet();
    for i := 0 to |ops|
      invariant Together(qs, pool) && |log| == i && forall j :: 0 <= j < i ==> log[j].op == ops[j]
      invariant forall k :: 0 <= k < |qs| ==>
                  LeadsTo(LimitsOf(qs[k]), StateOf(old(qs[k].View())), Of(who[..i], log, k), StateOf(qs[k].View()))
      invariant sink.taken == old(sink.taken) + AllGiven(log)
      invariant old(source.remaining) == AllSupplied(log) + source.remaining
      invariant forall c :: c in AllOwned(qs, pool) ==> c in old(AllOwned(qs, pool)) || fresh(c)
    {
      label before:
      assert who[i] in who;
      OwnedIsOurs(qs, pool, who[i]);
      ghost var e := ApplyAmong(qs, pool, who[i], ops[i], sink, source);
      forall k | 0 <= k < |qs|
        ensures LeadsTo(LimitsOf(qs[k]), StateOf(old(qs[k].View())), Of(who[..i] + [who[i]], log + [e], k),
                        StateOf(qs[k].View()))
      {
        OneMoreTurn(LimitsOf(qs[k]), StateOf(old(qs[k].View())), StateOf(old@before(qs[k].View())),
                    StateOf(qs[k].View()), who[..i], log, who[i], e, k);
      }
      AllGrows(log, e);
      assert who[..i + 1] == who[..i] + [who[i]];
      log := log + [e];
    }
    assert who[..|ops|] == who;
    forall k | 0 <= k < |qs|
      ensures Fits(LimitsOf(qs[k]), StateOf(qs[k].View()))
      ensures old(qs[k].View()).bytes + AllIn(Of(who, log, k))
           == AllOut(old(qs[k].View()).bytes, Of(who, log, k)) + qs[k].View().bytes
    {
      QueueFits(qs[k]);
      NothingLostOrReordered(LimitsOf(qs[k]), StateOf(old(qs[k].View())), Of(who, log, k));
    }
  }
}
