/** Byte queues made of linked chunks, with spare chunks of their own or in a
    pool that several queues share. */
module ByteQueue {
  import opened Bits
  import opened Dialogue
  import Fifo
  import opened Lists
  import opened Results

  // ---- what chunks hold -------------------------------------------------

  /** What one chunk holds: its buffer and the offsets of its unread part. */
  datatype Held = Held(data: seq<byte>, r: nat, w: nat) {
    predicate InBounds() {
      r <= w <= |data|
    }

    /** Written to the end, with something left to read. */
    predicate Full() {
      r < w == |data|
    }

    /** In use, or blank. */
    predicate Usable() {
      r < w <= |data| || r == w == 0
    }

    function Unread(): (s: seq<byte>)
      ensures InBounds() ==> |s| == w - r
    {
      if InBounds() then data[r..w] else []
    }
  }

  /** The unread bytes of chunks, oldest first. */
  function Bytes(vs: List<Held>): seq<byte> {
    match vs
    case Nil => []
    case Cons(v, rest) => v.Unread() + Bytes(rest)
  }

  /** Where the first chunk has been read up to. */
  function First(vs: List<Held>): nat {
    if vs.Nil? then 0 else vs.head.r
  }

  /** The chunks of a head list: all but the last are written to the end, none is
      empty but perhaps the last, and only the first has been read from. */
  predicate Filled(vs: List<Held>) {
    match vs
    case Nil => true
    case Cons(v, Nil) => v.Usable()
    case Cons(v, rest) => v.Full() && First(rest) == 0 && Filled(rest)
  }

  lemma AfterPrefix(a: seq<byte>, b: seq<byte>)
    ensures (a + b)[|a|..] == b && a <= a + b
  {
  }

  lemma ConcatAssoc(a: seq<byte>, b: seq<byte>, c: seq<byte>)
    ensures a + (b + c) == a + b + c
  {
  }

  lemma {:induction false} BytesSnoc(vs: List<Held>, v: Held)
    ensures Bytes(Snoc(vs, v)) == Bytes(vs) + v.Unread()
  {
    match vs
    case Nil =>
    case Cons(u, rest) =>
      BytesSnoc(rest, v);
      ConcatAssoc(u.Unread(), Bytes(rest), v.Unread());
  }

  /** Filled, except that the first chunk may just have been read empty. */
  predicate Drained(vs: List<Held>) {
    Filled(vs) || (vs.Cons? && vs.head.r == vs.head.w == 0 && First(vs.tail) == 0 && Filled(vs.tail))
  }

  lemma {:induction false} FilledSnoc(vs: List<Held>, v: Held)
    ensures Filled(Snoc(vs, v)) <==> Filled(vs) && (vs.Cons? ==> Last(vs).Full() && v.r == 0) && v.Usable()
    ensures First(Snoc(vs, v)) == if vs.Nil? then v.r else First(vs)
  {
    match vs
    case Nil =>
    case Cons(_, rest) => FilledSnoc(rest, v);
  }

  /** Bytes written into the last chunk come after all others. */
  lemma GrowLast(vs: List<Held>, v: Held, v': Held, more: seq<byte>)
    requires v'.Unread() == v.Unread() + more
    ensures Bytes(Snoc(vs, v')) == Bytes(Snoc(vs, v)) + more
  {
    BytesSnoc(vs, v);
    BytesSnoc(vs, v');
    ConcatAssoc(Bytes(vs), v.Unread(), more);
  }

  lemma FilledHead(vs: List<Held>)
    requires Filled(vs) && vs.Cons?
    ensures vs.head.InBounds()
  {
  }

  /** The first chunk gives bytes, and goes back to its start when it is empty. */
  lemma HeadGives(vs: List<Held>, v': Held, gone: seq<byte>, size: nat)
    requires vs.Cons? && Filled(vs) && |vs.head.data| == size && 0 < size
    requires v'.data == vs.head.data && v'.InBounds() && vs.head.Unread() == gone + v'.Unread()
    requires if |gone| == |vs.head.Unread()| && 0 < |gone| then v'.r == v'.w == 0
             else v'.w == vs.head.w && v'.r == vs.head.r + |gone|
    ensures Drained(Cons(v', vs.tail)) && Bytes(vs) == gone + Bytes(Cons(v', vs.tail))
    ensures v'.r == Fifo.LeadAfter(vs.head.r, |gone|, Bytes(Cons(v', vs.tail)), size)
  {
    ConcatAssoc(gone, v'.Unread(), Bytes(vs.tail));
    Fifo.LeadWithin(vs.head.r, |gone|, Bytes(Cons(v', vs.tail)), size);
  }

  // ---- chunks -----------------------------------------------------------

  /** The one list a chunk is in. */
  datatype Place = Nowhere | HeadList(q: BufQ) | SpareList(q: BufQ) | PoolList(pool: Pool)

  /** A chunk and its buffer are one allocation, so the buffer is a field here.
      Its length never changes. */
  class Chunk {
    var data: seq<byte>
    var next: Chunk?
    var rOffset: nat
    var wOffset: nat
    ghost var place: Place

    constructor (dlen: nat)
      ensures Blank(dlen)
    {
      data := seq(dlen, _ => 0);
      next, rOffset, wOffset, place := null, 0, 0, Nowhere;
    }

    ghost function Val(): Held
      reads this
    {
      Held(data, rOffset, wOffset)
    }

    /** Empty, unlinked and in no list. */
    ghost predicate Blank(dlen: nat)
      reads this
    {
      next == null && rOffset == wOffset == 0 && |data| == dlen && place == Nowhere
    }

    predicate IsEmpty()
      reads this
    {
      rOffset >= wOffset
    }

    predicate IsFull()
      reads this
    {
      wOffset >= |data|
    }

    function Len(): int
      reads this
    {
      wOffset - rOffset
    }

    function Space(): int
      reads this
    {
      |data| - wOffset
    }

    method Reset()
      modifies this
      ensures Blank(|old(data)|) && data == old(data)
    {
      next, rOffset, wOffset := null, 0, 0;
      place := Nowhere;
    }

    method Append(buf: seq<byte>) returns (n: nat)
      requires Val().InBounds()
      modifies this`wOffset, this`data
      ensures Val().InBounds() && |data| == |old(data)|
      ensures n == Min(|buf|, old(Space())) && wOffset == old(wOffset) + n && rOffset == old(rOffset)
      ensures Val().Unread() == old(Val().Unread()) + buf[..n]
    {
      n := |data| - wOffset;
      if n != 0 {
        n := Min(n, |buf|);
        data := data[..wOffset] + buf[..n] + data[wOffset + n..];
        wOffset := wOffset + n;
      }
    }

    method Read(len: nat) returns (out: seq<byte>)
      requires Val().InBounds()
      modifies this`rOffset, this`wOffset
      ensures Val().InBounds() && |out| == Min(len, |old(Val().Unread())|)
      ensures old(Val().Unread()) == out + Val().Unread()
      ensures if |out| == |old(Val().Unread())| && 0 < |out| then rOffset == wOffset == 0
              else wOffset == old(wOffset) && rOffset == old(rOffset) + |out|
    {
      var n := wOffset - rOffset;
      if n == 0 {
        return [];
      } else if n <= len {
        out := data[rOffset..wOffset];
        rOffset, wOffset := 0, 0;
      } else {
        out := data[rOffset..rOffset + len];
        rOffset := rOffset + len;
      }
    }

    method Skip(amount: nat) returns (n: nat)
      requires Val().InBounds()
      modifies this`rOffset, this`wOffset
      ensures Val().InBounds() && n == Min(amount, |old(Val().Unread())|)
      ensures old(Val().Unread()) == old(Val().Unread())[..n] + Val().Unread()
      ensures if n == |old(Val().Unread())| && 0 < n then rOffset == wOffset == 0
              else wOffset == old(wOffset) && rOffset == old(rOffset) + n
    {
      n := wOffset - rOffset;
      if n != 0 {
        n := Min(n, amount);
        rOffset := rOffset + n;
        if rOffset == wOffset {
          rOffset, wOffset := 0, 0;
        }
      }
    }
  }

  // ---- linked lists -----------------------------------------------------

  ghost function Members(l: List<Chunk>): set<Chunk> {
    match l
    case Nil => {}
    case Cons(c, rest) => {c} + Members(rest)
  }

  datatype Reached = Astray | At(chunk: Chunk?)

  /** Where following `next` from `head` leads after the chunks of `list`, or
      astray if it does not visit just those, each of them once, all of one size
      and all marked as being in this list. */
  ghost function Walk(head: Chunk?, list: List<Chunk>, place: Place, size: nat): (r: Reached)
    reads Members(list)
    ensures r.At? ==> forall c :: c in Members(list) ==> c.place == place && |c.data| == size
    decreases list
  {
    match list
    case Nil => At(head)
    case Cons(c, rest) =>
      if head == c && c.place == place && |c.data| == size && c !in Members(rest) then
        Walk(c.next, rest, place, size)
      else Astray
  }

  /** All members of a list are allocated objects. */
  lemma {:induction false} MembersExist(list: List<Chunk>)
    ensures forall c :: c in Members(list) ==> allocated(c)
  {
    match list
    case Nil =>
    case Cons(_, rest) => MembersExist(rest);
  }

  lemma {:induction false} MembersSnoc(list: List<Chunk>, c: Chunk)
    ensures Members(Snoc(list, c)) == Members(list) + {c}
  {
    match list
    case Nil =>
    case Cons(_, rest) => MembersSnoc(rest, c);
  }

  /** A walk ends after its last chunk's `next`. */
  lemma {:induction false} WalkSnoc(head: Chunk?, list: List<Chunk>, c: Chunk, place: Place, size: nat)
    ensures Walk(head, Snoc(list, c), place, size)
         == if Walk(head, list, place, size) == At(c) && c !in Members(list) && c.place == place && |c.data| == size
            then At(c.next) else Astray
    decreases list
  {
    match list
    case Nil =>
    case Cons(b, rest) =>
      MembersSnoc(rest, c);
      WalkSnoc(b.next, rest, c, place, size);
  }

  ghost function Vals(list: List<Chunk>): List<Held>
    reads Members(list)
  {
    match list
    case Nil => Nil
    case Cons(c, rest) => Cons(c.Val(), Vals(rest))
  }

  lemma {:induction false} ValsSnoc(list: List<Chunk>, c: Chunk)
    ensures Vals(Snoc(list, c)) == Snoc(Vals(list), c.Val())
  {
    match list
    case Nil =>
    case Cons(_, rest) => ValsSnoc(rest, c);
  }

  lemma LastVal(list: List<Chunk>)
    requires list.Cons?
    ensures Last(Vals(list)) == Last(list).Val() && Last(list) in Members(list)
  {
    FrontAndLast(list);
    ValsSnoc(Front(list), Last(list));
    MembersSnoc(Front(list), Last(list));
    LengthSnoc(Vals(Front(list)), Last(list).Val());
  }

  /** Links the blank chunk `c` behind the last chunk of a list. */
  method LinkBehind(ghost head: Chunk?, ghost list: List<Chunk>, last: Chunk, c: Chunk,
                     ghost place: Place, ghost size: nat)
    requires Walk(head, list, place, size) == At(null) && list.Cons? && Last(list) == last
    requires c !in Members(list) && c.next == null && |c.data| == size
    modifies last`next, c`place
    ensures Walk(head, Snoc(list, c), place, size) == At(null)
    ensures Vals(Snoc(list, c)) == Snoc(old(Vals(list)), old(c.Val()))
  {
    ghost var front := Front(list);
    FrontAndLast(list);
    MembersSnoc(front, last);
    MembersExist(front);
    WalkSnoc(head, front, last, place, size);
    ValsSnoc(front, last);
    c.place := place;
    last.next := c;
    WalkSnoc(head, front, last, place, size);
    ValsSnoc(front, last);
    WalkSnoc(head, list, c, place, size);
    ValsSnoc(list, c);
  }

  /** Writes into the last chunk of a list. */
  method AppendToLast(ghost head: Chunk?, ghost list: List<Chunk>, last: Chunk, buf: seq<byte>,
                      ghost place: Place, ghost size: nat) returns (n: nat)
    requires Walk(head, list, place, size) == At(null) && list.Cons? && Last(list) == last
    requires Filled(Vals(list))
    modifies last`wOffset, last`data
    ensures Walk(head, list, place, size) == At(null) && Filled(Vals(list))
    ensures n == Min(|buf|, old(last.Space())) && last.Space() == old(last.Space()) - n
    ensures First(Vals(list)) == old(First(Vals(list)))
    ensures Bytes(Vals(list)) == old(Bytes(Vals(list))) + buf[..n]
  {
    ghost var front := Front(list);
    FrontAndLast(list);
    MembersSnoc(front, last);
    WalkSnoc(head, front, last, place, size);
    ValsSnoc(front, last);
    MembersExist(front);
    ghost var vs, v := Vals(front), last.Val();
    FilledSnoc(vs, v);
    n := last.Append(buf);
    WalkSnoc(head, front, last, place, size);
    ValsSnoc(front, last);
    FilledSnoc(vs, last.Val());
    GrowLast(vs, v, last.Val(), buf[..n]);
  }

  /** What the first chunk holds of all the bytes. */
  lemma FirstUnread(vs: List<Held>, size: nat)
    requires vs.Cons? && Filled(vs) && |vs.head.data| == size
    ensures First(vs) <= size && vs.head.Unread() == Bytes(vs)[..Min(size - First(vs), |Bytes(vs)|)]
  {
  }

  lemma PeekHere(u: seq<byte>, rest: seq<byte>, left: nat)
    requires left < |u|
    ensures left < |u + rest| && u[left..] != [] && u[left..] <= (u + rest)[left..]
  {
  }

  lemma PeekFurther(u: seq<byte>, rest: seq<byte>, left: nat)
    requires |u| <= left
    ensures left < |u + rest| <==> left - |u| < |rest|
    ensures left < |u + rest| ==> (u + rest)[left..] == rest[left - |u|..]
  {
  }

  /** The first chunk of a filled list, and what its bytes are part of. */
  lemma FirstOfFilled(c: Chunk, list: List<Chunk>, place: Place, size: nat)
    requires Walk(c, list, place, size) == At(null) && Filled(Vals(list))
    ensures list.Cons? && c == list.head && c.Val().InBounds() && First(Vals(list)) == c.rOffset
    ensures Walk(c.next, list.tail, place, size) == At(null) && Filled(Vals(list.tail))
    ensures Bytes(Vals(list)) == c.Val().Unread() + Bytes(Vals(list.tail))
    ensures c.Len() == 0 ==> Bytes(Vals(list)) == []
    ensures |c.data| == size && First(Vals(list.tail)) == 0
    ensures list.tail.Nil? ==> Bytes(Vals(list.tail)) == []
    ensures list.tail.Cons? ==> c.rOffset + c.Len() == size
  {
  }

  /** How far a run goes from place `at` of a row of chunks, `more` bytes before the end. */
  function RunLength(at: nat, more: nat, size: nat): nat {
    if size == 0 then 0 else Min(size - at % size, more)
  }

  /** At the same place of a chunk. */
  predicate SamePlace(a: nat, b: nat, size: nat) {
    size == 0 || a % size == b % size
  }

  lemma RunInChunk(r: nat, w: nat, left: nat, more: nat, at: nat, size: nat)
    requires r + left < w <= size && (0 < more ==> w == size) && SamePlace(at, r + left, size)
    ensures w - r - left == RunLength(at, w - r - left + more, size)
  {
    SmallRemainder(r + left, size);
  }

  lemma NextPlace(at: nat, r: nat, len: nat, left: nat, size: nat)
    requires r + len == size && len <= left && SamePlace(at, r + left, size)
    ensures SamePlace(at, left - len, size)
  {
    if 0 < size {
      DropOne(left - len, size);
    }
  }

  lemma SamePlaceAsItself(a: nat, size: nat)
    ensures SamePlace(a, a, size)
  {
  }

  lemma NoFirstNoBytes(list: List<Chunk>, place: Place, size: nat)
    requires Walk(null, list, place, size) == At(null)
    ensures Bytes(Vals(list)) == []
  {
  }

  /** The run of unread bytes that starts `offset` bytes into a list, up to the end of
      the chunk that it starts in. */
  method LocateBytes(head: Chunk?, ghost list: List<Chunk>, offset: nat, ghost place: Place, ghost size: nat)
    returns (ok: bool, buf: seq<byte>)
    requires Walk(head, list, place, size) == At(null) && Filled(Vals(list))
    ensures ok <==> offset < |Bytes(Vals(list))|
    ensures if ok then buf != [] && buf <= Bytes(Vals(list))[offset..] else buf == []
    ensures ok ==> |buf| == RunLength(First(Vals(list)) + offset, |Bytes(Vals(list))| - offset, size)
  {
    hide Walk, Filled, Vals, Bytes, First, RunLength, SamePlace;
    SamePlaceAsItself(First(Vals(list)) + offset, size);
    var c, left: nat := head, offset;
    ghost var rest, bytes, at := list, Bytes(Vals(list)), First(Vals(list)) + offset;
    while c != null && c.Len() != 0
      invariant Walk(c, rest, place, size) == At(null) && Filled(Vals(rest))
      invariant bytes == Bytes(Vals(list)) && at == First(Vals(list)) + offset
      invariant left < |Bytes(Vals(rest))| <==> offset < |bytes|
      invariant offset < |bytes| ==> Bytes(Vals(rest))[left..] == bytes[offset..]
      invariant offset < |bytes| ==> |Bytes(Vals(rest))| - left == |bytes| - offset
      invariant offset < |bytes| ==> SamePlace(at, First(Vals(rest)) + left, size)
      decreases rest
    {
      FirstOfFilled(c, rest, place, size);
      var clen := c.Len();
      if left < clen {
        ok, buf := true, c.data[c.rOffset + left..c.wOffset];
        assert buf == c.Val().Unread()[left..];
        PeekHere(c.Val().Unread(), Bytes(Vals(rest.tail)), left);
        RunInChunk(c.rOffset, c.wOffset, left, |Bytes(Vals(rest.tail))|, at, size);
        return;
      }
      PeekFurther(c.Val().Unread(), Bytes(Vals(rest.tail)), left);
      if offset < |bytes| {
        NextPlace(at, c.rOffset, clen, left, size);
      }
      left := left - clen;
      c, rest := c.next, rest.tail;
    }
    if c != null {
      FirstOfFilled(c, rest, place, size);
    } else {
      NoFirstNoBytes(rest, place, size);
    }
    ok, buf := false, [];
  }

  // ---- the pool ---------------------------------------------------------

  class Pool {
    const chunkSize: nat
    const spareMax: nat
    var spare: Chunk?
    var spareCount: nat
    ghost var list: List<Chunk>

    ghost predicate Valid()
      reads this, Members(list)
    {
      && 0 < chunkSize && 0 < spareMax
      && Walk(spare, list, PoolList(this), chunkSize) == At(null)
      && spareCount == Length(list) <= spareMax
    }

    constructor (chunkSize: nat, spareMax: nat)
      requires 0 < chunkSize && 0 < spareMax
      ensures Valid() && list == Nil && this.chunkSize == chunkSize && this.spareMax == spareMax
    {
      this.chunkSize, this.spareMax := chunkSize, spareMax;
      spare, spareCount, list := null, 0, Nil;
    }

    /** A spare chunk, or a new one when there is none and memory lasts. */
    method Take(memory: nat) returns (chunk: Chunk?, left: nat)
      requires Valid()
      modifies this, spare
      ensures Valid()
      ensures chunk != null ==> chunk.Blank(chunkSize)
      ensures if old(list).Cons? then chunk == old(list).head && list == old(list).tail && left == memory
              else list == Nil && (if memory == 0 then chunk == null && left == 0
                                   else chunk != null && fresh(chunk) && left == memory - 1)
    {
      chunk, left := null, memory;
      if spare != null {
        chunk := spare;
        assert chunk !in Members(list.tail);
        MembersExist(list.tail);
        spare := chunk.next;
        spareCount := spareCount - 1;
        list := list.tail;
        chunk.Reset();
      } else {
        if memory != 0 {
          chunk := new Chunk(chunkSize);
          left := memory - 1;
        }
      }
    }

    /** Keeps the chunk unless there are spares enough. */
    method Put(chunk: Chunk)
      requires Valid() && |chunk.data| == chunkSize && chunk.place != PoolList(this)
      modifies this, chunk
      ensures Valid()
      ensures if Length(old(list)) >= spareMax then list == old(list) && chunk.place == Nowhere
              else list == Cons(chunk, old(list))
    {
      if spareCount >= spareMax {
        chunk.place := Nowhere;
      } else {
        assert chunk !in Members(list);
        MembersExist(list);
        chunk.Reset();
        chunk.next := spare;
        chunk.place := PoolList(this);
        spare := chunk;
        spareCount := spareCount + 1;
        list := Cons(chunk, list);
      }
    }
  }

  lemma MinIs(a: int, b: int)
    ensures Min(a, b) == if a <= b then a else b
  {
  }

  lemma FirstOfAll(b: seq<byte>, p: seq<byte>, k: nat)
    requires p == b[..Min(k, |b|)]
    ensures p <= b
  {
  }

  /** A queue stands as `s` says. */
  lemma SameState(q: BufQ, s: Fifo.State)
    requires q.View().Queue? && q.View().bytes == s.bytes && q.View().lead == s.lead
    ensures StateOf(q.View()) == s
  {
  }

  lemma PrefixOfPrefix(b: seq<byte>, p: seq<byte>, n: nat)
    requires p <= b && n <= |p|
    ensures p[..n] == b[..n]
  {
  }

  lemma PrefixStep(c: seq<byte>, buf: seq<byte>, pos: nat, n: nat)
    requires pos <= |buf| && n <= |buf| - pos
    ensures c + buf[..pos] + buf[pos..][..n] == c + buf[..pos + n]
  {
    assert buf[..pos] + buf[pos..][..n] == buf[..pos + n];
    ConcatAssoc(c, buf[..pos], buf[pos..][..n]);
  }

  /** The bytes of `n` whole chunks. */
  function Blocks(n: nat, size: nat): nat {
    if n == 0 then 0 else size + Blocks(n - 1, size)
  }

  lemma {:induction false} BlocksIsProduct(n: nat, size: nat)
    ensures Blocks(n, size) == n * size
  {
    if n > 0 {
      BlocksIsProduct(n - 1, size);
    }
  }

  /** A queue's chunks: all it has, the spare ones, and those in its pool. */
  datatype Stock = Chunks(count: int, own: nat, pooled: nat)

  /** What a well-formed queue stands for: the unread bytes, oldest first, how far
      its first chunk has been read, and how many more bytes can be written without
      going over the limit. */
  datatype Abstract = Malformed | Queue(bytes: seq<byte>, lead: nat, room: int)

  lemma {:induction false} BlocksMonotone(a: nat, b: nat, size: nat)
    requires a <= b
    ensures Blocks(a, size) <= Blocks(b, size)
  {
    if a < b {
      BlocksMonotone(a, b - 1, size);
    }
  }

  lemma {:induction false} BlocksAdd(a: nat, b: nat, size: nat)
    ensures Blocks(a + b, size) == Blocks(a, size) + Blocks(b, size)
  {
    if a > 0 {
      BlocksAdd(a - 1, b, size);
    }
  }

  /** The filled chunks of a head list, the part of the first that was read, the
      unread bytes and the free end of the last make up whole chunks. */
  lemma {:induction false} GridSum(head: Chunk?, list: List<Chunk>, place: Place, size: nat)
    requires Walk(head, list, place, size) == At(null) && Filled(Vals(list)) && 0 < size
    ensures First(Vals(list)) < size && (Bytes(Vals(list)) == [] ==> First(Vals(list)) == 0)
    ensures First(Vals(list)) + |Bytes(Vals(list))| + (if list.Nil? then 0 else Last(list).Space())
         == Blocks(Length(list), size)
    decreases list
  {
    if list.Cons? && list.tail.Cons? {
      GridSum(list.head.next, list.tail, place, size);
    }
  }

  // ---- the queue --------------------------------------------------------

  /** Whatever a writer callback writes to: each call takes any prefix of what it
      is offered, or fails. It keeps what it has taken, and how it was called. */
  class Sink {
    var taken: seq<byte>
    var log: seq<Call>

    constructor ()
      ensures taken == [] && log == []
    {
      taken, log := [], [];
    }

    method Accept(buf: seq<byte>) returns (n: int, err: Code)
      modifies this
      ensures -1 <= n <= |buf| && taken == old(taken) + buf[..if n < 0 then 0 else n]
      ensures (n < 0 ==> err != Ok) && log == old(log) + [Call(buf, n, err)]
    {
      n :| -1 <= n <= |buf|;
      err := *;
      if n < 0 && err == Ok {
        err := Failed;
      }
      log := log + [Call(buf, n, err)];
      if n > 0 {
        taken := taken + buf[..n];
      }
    }
  }

  /** Whatever a reader callback reads from: each call delivers at most what is
      asked for, or fails. Its supply is finite. It keeps what it last answered, and how
      it was called. */
  class Source {
    var remaining: seq<byte>
    var lastRead: int
    var lastErr: Code
    var log: seq<Ask>

    constructor (supply: seq<byte>)
      ensures remaining == supply && log == []
    {
      remaining, lastRead, lastErr, log := supply, 0, Ok, [];
    }

    method Supply(max: nat) returns (data: seq<byte>, n: int, err: Code)
      modifies this
      ensures -1 <= n <= max && |data| == (if n < 0 then 0 else n) && old(remaining) == data + remaining
      ensures n < 0 ==> err != Ok
      ensures lastRead == n && lastErr == err && log == old(log) + [Ask(max, n, err)]
    {
      n :| -1 <= n <= max && n <= |remaining|;
      err := *;
      if n < 0 && err == Ok {
        err := Failed;
      }
      data := remaining[..if n < 0 then 0 else n];
      remaining := remaining[|data|..];
      lastRead, lastErr, log := n, err, log + [Ask(max, n, err)];
    }
  }

  lemma EnoughBlocks(memory: nat, len: nat, size: nat)
    ensures Fifo.Enough(memory, len, size) <==> len <= Blocks(memory, size)
  {
    BlocksIsProduct(memory, size);
  }

  function LimitsOf(q: BufQ): Fifo.Limits {
    Fifo.Limits(q.chunkSize, Blocks(q.maxChunks, q.chunkSize), q.softLimit)
  }

  function StateOf(v: Abstract): Fifo.State
    requires v.Queue?
  {
    Fifo.State(v.bytes, v.lead)
  }

  /** A queue is within its limits, and what it leaves of them under a hard one is its room. */
  lemma QueueFits(q: BufQ)
    requires q.View().Queue?
    ensures LimitsOf(q).soft == q.softLimit && 0 < LimitsOf(q).size == q.chunkSize && 0 < LimitsOf(q).capacity
    ensures StateOf(q.View()).bytes == q.View().bytes && StateOf(q.View()).lead == q.View().lead
    ensures Fifo.Fits(LimitsOf(q), StateOf(q.View()))
    ensures !q.softLimit ==> Fifo.Room(LimitsOf(q), StateOf(q.View())) == q.View().room
  {
    q.RoomIsTheRest();
  }

  class BufQ {
    const pool: Pool?
    const maxChunks: nat
    const chunkSize: nat
    const softLimit: bool
    const noSpares: bool
    var head: Chunk?
    var tail: Chunk?
    var spare: Chunk?
    var chunkCount: nat
    ghost var chunks: List<Chunk>
    ghost var spares: List<Chunk>

    /** The queue's own chunks, when `extra` more are counted but in no list. */
    ghost predicate Shape(extra: nat)
      reads this, Members(chunks), Members(spares)
    {
      && 0 < maxChunks && 0 < chunkSize
      && (pool != null ==> pool.chunkSize == chunkSize)
      && Walk(head, chunks, HeadList(this), chunkSize) == At(null)
      && Walk(spare, spares, SpareList(this), chunkSize) == At(null)
      && tail == (if chunks.Nil? then null else Last(chunks))
      && chunkCount == Length(chunks) + Length(spares) + extra
      && (!softLimit ==> chunkCount <= maxChunks)
    }

    ghost predicate Valid()
      reads this, Members(chunks), Members(spares)
    {
      Shape(0) && Filled(Vals(chunks))
    }

    ghost function PoolChunks(): List<Chunk>
      reads pool
    {
      if pool == null then Nil else pool.list
    }

    ghost predicate PoolOk()
      reads pool, Members(PoolChunks())
    {
      pool != null ==> pool.Valid()
    }

    /** Every chunk this queue may touch: its own and the pool's. */
    ghost function Owned(): set<Chunk>
      reads this, pool
    {
      Members(chunks) + Members(spares) + Members(PoolChunks())
    }

    ghost function PoolSpare(): Chunk?
      reads pool
    {
      if pool == null then null else pool.spare
    }

    /** The unread bytes, oldest first. */
    ghost function Content(): seq<byte>
      reads this, Members(chunks)
    {
      Bytes(Vals(chunks))
    }

    ghost function Lead(): nat
      reads this, Members(chunks)
    {
      First(Vals(chunks))
    }

    constructor (pool: Pool?, chunkSize: nat, maxChunks: nat, softLimit: bool, noSpares: bool)
      requires 0 < chunkSize && 0 < maxChunks
      requires pool != null ==> pool.chunkSize == chunkSize
      ensures Valid() && Content() == [] && chunks == spares == Nil
      ensures this.pool == pool && this.chunkSize == chunkSize && this.maxChunks == maxChunks
      ensures this.softLimit == softLimit && this.noSpares == noSpares
    {
      this.pool, this.chunkSize, this.maxChunks := pool, chunkSize, maxChunks;
      this.softLimit, this.noSpares := softLimit, noSpares;
      head, tail, spare, chunkCount := null, null, null, 0;
      chunks, spares := Nil, Nil;
    }

    /** The chunks at the ends of the lists are members of the lists, no chunk is in
        two lists, and all chunks exist. */
    lemma Chains()
      requires View().Queue? || ((Valid() || Shape(0) || Shape(1)) && PoolOk())
      ensures head != null ==> head in Members(chunks)
      ensures tail != null ==> tail in Members(chunks)
      ensures spare != null ==> spare in Members(spares)
      ensures PoolSpare() != null ==> PoolSpare() in Members(PoolChunks())
      ensures forall c :: c in Members(chunks) ==> allocated(c)
      ensures forall c :: c in Members(chunks) ==> c.place == HeadList(this)
      ensures forall c :: c in Members(spares) ==> allocated(c)
      ensures forall c :: c in Members(spares) ==> c.place == SpareList(this)
      ensures forall c :: c in Members(PoolChunks()) ==> allocated(c)
      ensures forall c :: c in Members(PoolChunks()) ==> c.place == PoolList(pool)
    {
      MembersExist(chunks);
      MembersExist(spares);
      MembersExist(PoolChunks());
      if tail != null {
        LastVal(chunks);
      }
    }

    /** Takes the first spare chunk out of the queue's own list. */
    method PopSpare() returns (chunk: Chunk)
      requires Valid() && PoolOk() && spare != null
      modifies this`spare, this`spares, spare
      ensures chunk.Blank(chunkSize) && old(spares) == Cons(chunk, spares)
      ensures Shape(1) && PoolOk() && Vals(chunks) == old(Vals(chunks))
    {
      Chains();
      chunk := spare;
      spare := chunk.next;
      spares := spares.tail;
      chunk.Reset();
    }

    /** One chunk more, from the pool or from memory, or null when memory is out.
        `memory` tells how many allocations succeed, and `left` how many still do. */
    method NewChunk(memory: nat) returns (chunk: Chunk?, left: nat)
      requires Valid() && PoolOk()
      modifies pool, PoolSpare()
      ensures Valid() && PoolOk() && Vals(chunks) == old(Vals(chunks))
      ensures chunk != null ==> chunk.Blank(chunkSize) && (chunk in old(Members(PoolChunks())) || fresh(chunk))
      ensures Members(PoolChunks()) <= old(Members(PoolChunks()))
      ensures left <= memory && (chunk == null <==> old(Length(PoolChunks())) + memory == 0)
      ensures Length(PoolChunks()) + left == old(Length(PoolChunks())) + memory - if chunk == null then 0 else 1
      ensures left == if 0 < old(Length(PoolChunks())) || memory == 0 then memory else memory - 1
    {
      Chains();
      chunk, left := null, memory;
      if pool != null {
        chunk, left := pool.Take(memory);
      } else if memory != 0 {
        chunk := new Chunk(chunkSize);
        left := memory - 1;
      }
    }

    /** Free bytes in the tail. */
    ghost function TailSpace(): int
      reads this, tail
    {
      if tail == null then 0 else tail.Space()
    }

    /** Whole chunks that can still be had without going over the limit. */
    ghost function FreeChunks(): nat
      reads this
    {
      Length(spares) + if chunkCount < maxChunks then maxChunks - chunkCount else 0
    }

    /** The bytes that can still be written without going over the limit. */
    ghost function Room(): int
      reads this, tail
    {
      TailSpace() + Blocks(FreeChunks(), chunkSize)
    }

    /** Chunks that can still be had, the limit and the memory permitting. */
    ghost function MoreChunks(memory: nat): nat
      reads `spares, `chunkCount, pool
    {
      var more := Length(PoolChunks()) + memory;
      Length(spares) + if softLimit then more
                       else if chunkCount < maxChunks then Min(more, maxChunks - chunkCount)
                       else 0
    }

    /** The bytes that can still be written, the limit and the memory permitting. */
    ghost function Capacity(memory: nat): int
      reads this, tail, pool
    {
      TailSpace() + Blocks(MoreChunks(memory), chunkSize)
    }

    /** One chunk more, which the limit allows. */
    method CountChunk(memory: nat) returns (chunk: Chunk?, left: nat)
      requires Valid() && PoolOk() && spares.Nil? && (softLimit || chunkCount < maxChunks)
      modifies this`chunkCount, pool, PoolSpare()
      ensures PoolOk() && Shape(if chunk == null then 0 else 1) && Vals(chunks) == old(Vals(chunks))
      ensures left <= memory && (chunk == null <==> old(MoreChunks(memory)) == 0)
      ensures MoreChunks(left) == old(MoreChunks(memory)) - if chunk == null then 0 else 1
      ensures chunk != null ==> chunk.Blank(chunkSize) && chunkCount == old(chunkCount) + 1
      ensures chunk == null ==> chunkCount == old(chunkCount)
      ensures left == if 0 < old(Length(PoolChunks())) || memory == 0 then memory else memory - 1
      ensures chunk != null ==> chunk in old(Members(PoolChunks())) || fresh(chunk)
      ensures Members(PoolChunks()) <= old(Members(PoolChunks()))
    {
      hide Filled, Bytes, Vals, Blocks, Walk;
      Chains();
      chunk, left := NewChunk(memory);
      if chunk != null {
        chunkCount := chunkCount + 1;
      }
    }

    /** A blank chunk to write to: a spare one, or one more when the limit and the
        memory allow. */
    method GetSpare(memory: nat) returns (chunk: Chunk?, left: nat)
      requires Valid() && PoolOk()
      modifies this`spare, this`spares, this`chunkCount, spare, pool, PoolSpare()
      ensures PoolOk() && Shape(if chunk == null then 0 else 1) && Vals(chunks) == old(Vals(chunks))
      ensures left <= memory && (chunk == null <==> old(MoreChunks(memory)) == 0)
      ensures MoreChunks(left) == old(MoreChunks(memory)) - if chunk == null then 0 else 1
      ensures chunk != null ==> chunk.Blank(chunkSize)
      ensures chunkCount == old(chunkCount) + if chunk != null && old(spares).Nil? then 1 else 0
      ensures left == if old(spares).Cons? || chunk == null || 0 < old(Length(PoolChunks())) then memory else memory - 1
      ensures chunk != null ==> chunk in old(Members(spares)) || chunk in old(Members(PoolChunks())) || fresh(chunk)
      ensures Members(spares) <= old(Members(spares)) && Members(PoolChunks()) <= old(Members(PoolChunks()))
    {
      hide Filled, Bytes, Vals, Blocks, Walk;
      Chains();
      NoSpareNoSpares();
      chunk, left := null, memory;
      if spare != null {
        chunk := PopSpare();
      } else if chunkCount >= maxChunks && !softLimit {
        return;
      } else {
        chunk, left := CountChunk(memory);
      }
    }

    lemma NoSpareNoSpares()
      requires Shape(0)
      ensures spare == null <==> spares.Nil?
    {
    }

    /** Makes `chunk` the tail behind the present one, which is full. */
    method LinkNext(chunk: Chunk)
      requires Shape(1) && PoolOk() && Filled(Vals(chunks)) && chunk.Blank(chunkSize)
      requires tail != null && tail.Val().Full()
      modifies this`tail, this`chunks, tail`next, chunk`place
      ensures Valid() && PoolOk() && tail == chunk && Content() == old(Content()) && Lead() == old(Lead())
      ensures chunks == Snoc(old(chunks), chunk)
    {
      hide Blocks, Walk, Vals, Bytes, Filled, Snoc, Length, Last;
      Chains();
      ghost var list, vs, v := chunks, Vals(chunks), chunk.Val();
      var last := tail;
      LastVal(list);
      FilledSnoc(vs, v);
      BytesSnoc(vs, v);
      LengthSnoc(list, chunk);
      chunks, tail := Snoc(list, chunk), chunk;
      LinkBehind(head, list, last, chunk, HeadList(this), chunkSize);
    }

    /** Makes `chunk` the only chunk. */
    method LinkFirst(chunk: Chunk)
      requires Shape(1) && PoolOk() && chunk.Blank(chunkSize) && tail == null
      modifies this`head, this`tail, this`chunks, chunk`place
      ensures Valid() && PoolOk() && tail == chunk && Content() == old(Content()) && Lead() == old(Lead())
      ensures chunks == Snoc(old(chunks), chunk)
    {
      Chains();
      chunk.place := HeadList(this);
      head, tail := chunk, chunk;
      chunks := Cons(chunk, Nil);
    }

    /** Makes `chunk` the tail. */
    method Link(chunk: Chunk)
      requires Shape(1) && PoolOk() && Filled(Vals(chunks)) && chunk.Blank(chunkSize)
      requires tail != null ==> tail.Val().Full()
      modifies this`head, this`tail, this`chunks, tail, chunk`place
      ensures Valid() && PoolOk() && tail == chunk && Content() == old(Content()) && Lead() == old(Lead())
      ensures chunks == Snoc(old(chunks), chunk) && chunk.Space() == old(chunk.Space())
    {
      hide Shape, Walk, Filled, Snoc;
      if tail != null {
        LinkNext(chunk);
      } else {
        LinkFirst(chunk);
      }
    }

    /** A full tail has something to read. */
    lemma TailOk()
      requires Valid()
      ensures tail != null ==> tail.Val().Usable() && |tail.data| == chunkSize
      ensures 0 <= TailSpace() <= Room()
    {
      if tail != null {
        LastVal(chunks);
        FrontAndLast(Vals(chunks));
        FilledSnoc(Front(Vals(chunks)), Last(Vals(chunks)));
      }
    }

    /** A new, empty tail, if one can be had. */
    method NewTail(memory: nat) returns (t: Chunk?, left: nat)
      requires Valid() && PoolOk() && TailSpace() <= 0
      modifies this, tail, spare, pool, PoolSpare()
      ensures Valid() && PoolOk() && Content() == old(Content()) && Lead() == old(Lead())
      ensures left <= memory && (t == null <==> old(MoreChunks(memory)) == 0)
      ensures MoreChunks(left) == old(MoreChunks(memory)) - if t == null then 0 else 1
      ensures if t == null then TailSpace() == old(TailSpace()) && chunks == old(chunks)
              else t == tail && TailSpace() == chunkSize && chunks == Snoc(old(chunks), t)
      ensures t != null ==> t in old(Members(spares)) || t in old(Members(PoolChunks())) || fresh(t)
      ensures Members(spares) <= old(Members(spares)) && Members(PoolChunks()) <= old(Members(PoolChunks()))
    {
      hide Walk, Filled, Vals, Bytes, Last, Length, Snoc, Blocks, First, MoreChunks;
      TailOk();
      Chains();
      t, left := GetSpare(memory);
      if t != null {
        Link(t);
      }
    }

    /** A new tail, and what can be written to it and behind it. */
    method NextTail(memory: nat) returns (t: Chunk?, left: nat)
      requires Valid() && PoolOk() && TailSpace() == 0
      modifies this, tail, spare, pool, PoolSpare()
      ensures Valid() && PoolOk() && Content() == old(Content()) && Lead() == old(Lead())
      ensures left <= memory && Capacity(left) == old(Capacity(memory))
      ensures if t == null then Capacity(left) == 0 && spares.Nil? && TailSpace() == 0
              else t == tail && TailSpace() > 0 && Capacity(left) > 0
      ensures t != null ==> t in old(Owned()) || fresh(t)
      ensures forall c :: c in Owned() ==> c in old(Owned()) || fresh(c)
    {
      hide Walk, Filled, Vals, Bytes, Snoc, Last, First;
      ghost var list := chunks;
      t, left := NewTail(memory);
      if t != null {
        MembersSnoc(list, t);
      }
    }

    lemma TailHasRoom(memory: nat)
      requires Valid()
      ensures if tail != null && !tail.IsFull() then TailSpace() > 0 && Capacity(memory) > 0 else TailSpace() == 0
      ensures tail != null ==> tail in Owned()
    {
      TailOk();
      if tail != null {
        LastVal(chunks);
      }
    }

    /** The tail if it has room, otherwise a new one. */
    method GetNonFullTail(memory: nat) returns (t: Chunk?, left: nat)
      requires Valid() && PoolOk()
      modifies this, tail, spare, pool, PoolSpare()
      ensures Valid() && PoolOk() && Content() == old(Content()) && Lead() == old(Lead())
      ensures left <= memory && Capacity(left) == old(Capacity(memory))
      ensures if t == null then Capacity(left) == 0 && spares.Nil? && TailSpace() == 0
              else t == tail && TailSpace() > 0 && Capacity(left) > 0
      ensures t != null ==> t in old(Owned()) || fresh(t)
      ensures forall c :: c in Owned() ==> c in old(Owned()) || fresh(c)
    {
      hide *;
      TailHasRoom(memory);
      t, left := tail, memory;
      if tail == null || tail.IsFull() {
        t, left := NextTail(memory);
      }
    }

    /** Writes into the tail. */
    method AppendToTail(buf: seq<byte>) returns (n: nat)
      requires Valid() && PoolOk() && tail != null
      modifies tail`wOffset, tail`data
      ensures Valid() && PoolOk()
      ensures n == Min(|buf|, old(TailSpace())) && TailSpace() == old(TailSpace()) - n
      ensures Content() == old(Content()) + buf[..n] && Lead() == old(Lead())
    {
      Chains();
      n := AppendToLast(head, chunks, tail, buf, HeadList(this), chunkSize);
    }

    ghost function View(): Abstract
      reads this, tail, pool, Members(chunks), Members(spares), Members(PoolChunks())
    {
      if Valid() && PoolOk() then Queue(Content(), Lead(), Room()) else Malformed
    }

    lemma ValidIsQueue()
      ensures View().Queue? <==> Valid() && PoolOk()
      ensures View().Queue? ==> View().bytes == Content() && View().lead == Lead()
    {
    }

    lemma CapacityIsNotNegative(memory: nat)
      requires View().Queue?
      ensures 0 <= Capacity(memory)
    {
      TailOk();
    }

    /** The free end of the tail, told from the bytes; without one the bytes fill their chunks. */
    lemma TailIsFreeEnd(left: nat)
      requires Valid() && PoolOk()
      ensures TailSpace() > 0 ==>
                Wanted(Lead() + |Content()|, left, chunkSize)
                == if left == 0 then TailSpace() else Min(TailSpace(), left)
      ensures TailSpace() == 0 ==> FillsChunks(Lead() + |Content()|, chunkSize)
    {
      TailOk();
      GridSum(head, chunks, HeadList(this), chunkSize);
      BlocksIsProduct(Length(chunks), chunkSize);
      hide Blocks, Valid, PoolOk, Walk, Filled, Wanted, FillsChunks;
      if TailSpace() > 0 {
        WantedIsFreeEnd(Length(chunks), TailSpace(), Lead() + |Content()|, left, chunkSize);
      } else {
        RowIsFull(Length(chunks), Lead() + |Content()|, chunkSize);
      }
    }

    /** Under a hard limit the room is what the bytes and the part of the first chunk
        already read leave of all chunks allowed. */
    lemma RoomIsTheRest()
      requires View().Queue?
      ensures 0 <= View().lead < chunkSize && 0 <= View().room && (View().bytes == [] ==> View().lead == 0)
      ensures !softLimit ==> View().room == Blocks(maxChunks, chunkSize) - |View().bytes| - View().lead
    {
      TailOk();
      GridSum(head, chunks, HeadList(this), chunkSize);
      if !softLimit {
        BlocksAdd(FreeChunks(), Length(chunks), chunkSize);
      }
    }

    /** With memory for all that is to be written, only the limit counts. */
    lemma CapacityIsRoom(memory: nat, len: nat)
      requires View().Queue? && len <= Blocks(memory, chunkSize)
      ensures Min(len, Capacity(memory)) == if softLimit then len else Min(len, View().room)
      ensures !softLimit ==> Capacity(memory) <= View().room
    {
      TailOk();
      if softLimit || Length(PoolChunks()) + memory < maxChunks - chunkCount {
        BlocksMonotone(memory, MoreChunks(memory), chunkSize);
      }
      if !softLimit {
        BlocksMonotone(MoreChunks(memory), FreeChunks(), chunkSize);
      }
    }

    /** Without a pool and without memory a queue holds just what all its chunks hold: what
        is queued, what was read of the first chunk, and what can still be written. */
    lemma StorageIsCount()
      requires View().Queue? && pool == null
      ensures |View().bytes| + View().lead + Capacity(0) == Blocks(chunkCount, chunkSize)
    {
      TailOk();
      GridSum(head, chunks, HeadList(this), chunkSize);
      BlocksAdd(Length(chunks), Length(spares), chunkSize);
    }

    /** Why not a byte can be written: the limit, under which a full queue has all its
        chunks, or the memory. */
    lemma WhyRefused(memory: nat)
      requires View().Queue?
      ensures Capacity(memory) == 0 && !softLimit ==> (View().room == 0 <==> chunkCount >= maxChunks)
      ensures Capacity(memory) == 0 && 0 < memory ==> !softLimit && View().room == 0
    {
      TailOk();
    }

    method WriteStep(buf: seq<byte>, memory: nat) returns (n: nat, left: nat)
      requires Valid() && PoolOk() && buf != []
      modifies this, pool, Owned()
      ensures Valid() && PoolOk() && n <= |buf| && Content() == old(Content()) + buf[..n] && Lead() == old(Lead())
      ensures left <= memory && Capacity(left) == old(Capacity(memory)) - n
      ensures n == 0 ==> Capacity(left) == 0
      ensures forall c :: c in Owned() ==> c in old(Owned()) || fresh(c)
    {
      Chains();
      hide Walk, Filled;
      var t: Chunk?;
      t, left := GetNonFullTail(memory);
      n := 0;
      if t != null {
        n := AppendToTail(buf);
      }
    }

    /** Writes as much of `buf` as goes into one chunk; 0 means there is none. */
    method WriteOnce(buf: seq<byte>, memory: nat) returns (n: nat, left: nat)
      requires View().Queue? && buf != []
      modifies this, pool, Owned()
      ensures View().Queue? && n <= |buf| && View().bytes == old(View()).bytes + buf[..n]
      ensures View().lead == old(View()).lead
      ensures left <= memory && Capacity(left) == old(Capacity(memory)) - n
      ensures n == 0 ==> Capacity(left) == 0
      ensures forall c :: c in Owned() ==> c in old(Owned()) || fresh(c)
    {
      n, left := WriteStep(buf, memory);
    }

    /** Writes chunk after chunk until all is written or no chunk is to be had. */
    method WriteMany(buf: seq<byte>, memory: nat) returns (pos: nat, left: nat)
      requires View().Queue?
      modifies this, pool, Owned()
      ensures View().Queue? && pos <= |buf| && View().bytes == old(View()).bytes + buf[..pos]
      ensures View().lead == old(View()).lead
      ensures left <= memory && 0 <= Capacity(left) == old(Capacity(memory)) - pos
      ensures pos < |buf| ==> Capacity(left) == 0
      ensures forall c :: c in Owned() ==> c in old(Owned()) || fresh(c)
    {
      hide *;
      CapacityIsNotNegative(memory);
      ghost var before, capacity := View(), Capacity(memory);
      pos, left := 0, memory;
      var stuck := false;
      while pos < |buf| && !stuck
        invariant pos <= |buf| && View().Queue? && View().bytes == before.bytes + buf[..pos]
        invariant View().lead == before.lead
        invariant left <= memory && 0 <= Capacity(left) == capacity - pos && (stuck ==> Capacity(left) == 0)
        invariant forall c :: c in Owned() ==> c in old(Owned()) || fresh(c)
        decreases |buf| - pos, !stuck
      {
        var n: nat;
        n, left := WriteOnce(buf[pos..], left);
        CapacityIsNotNegative(left);
        PrefixStep(before.bytes, buf, pos, n);
        pos := pos + n;
        stuck := n == 0;
      }
    }

    /** Appends a prefix of `buf`: as much as the tail, the spare chunks, those of the
        pool and as many new ones as the limit and the memory allow can hold. `accepted`
        counts the bytes appended even when the call reports a failure. */
    method Write(buf: seq<byte>, memory: nat) returns (nwritten: int, err: Code, ghost accepted: nat, left: nat)
      requires View().Queue?
      modifies this, pool, Owned()
      ensures View().Queue? && accepted <= |buf| && View().bytes == old(View()).bytes + buf[..accepted]
      ensures accepted == Min(|buf|, old(Capacity(memory)))
      ensures View().lead == old(View()).lead
      ensures left <= memory && Capacity(left) == old(Capacity(memory)) - accepted
      ensures match err
        case Ok => nwritten == accepted && (accepted == 0 ==> buf == [])
        case Again => nwritten == -1 && accepted == 0 && buf != []
        case OutOfMemory => nwritten == -1
        case _ => false
      ensures err == OutOfMemory <==> accepted < |buf| && chunkCount < maxChunks
      ensures !softLimit ==> View().room == old(View()).room - accepted
      ensures !softLimit && accepted < |buf| ==> (err == OutOfMemory <==> View().room > 0)
      ensures |buf| <= Blocks(memory, chunkSize) ==>
                err != OutOfMemory && accepted == if softLimit then |buf| else Min(|buf|, old(View()).room)
      ensures forall c :: c in Owned() ==> c in old(Owned()) || fresh(c)
    {
      hide *;
      RoomIsTheRest();
      if |buf| <= Blocks(memory, chunkSize) {
        CapacityIsRoom(memory, |buf|);
      }
      var pos: nat;
      pos, left := WriteMany(buf, memory);
      RoomIsTheRest();
      MinIs(|buf|, pos + Capacity(left));
      accepted := pos;
      MinIs(|buf|, old(View()).room);
      if pos < |buf| {
        WhyRefused(left);
      }
      if pos < |buf| && chunkCount < maxChunks {
        nwritten, err := -1, OutOfMemory;
      } else if pos == 0 && |buf| != 0 {
        nwritten, err := -1, Again;
      } else {
        nwritten, err := pos, Ok;
      }
    }

    /** The first chunk and what follows it. */
    lemma HeadAndRest()
      requires Shape(0) && head != null
      ensures chunks.Cons? && head == chunks.head && head !in Members(chunks.tail)
      ensures Members(chunks) == {head} + Members(chunks.tail) && Length(chunks) == 1 + Length(chunks.tail)
      ensures Walk(head.next, chunks.tail, HeadList(this), chunkSize) == At(null)
      ensures Vals(chunks) == Cons(head.Val(), Vals(chunks.tail))
      ensures if chunks.tail.Nil? then tail == head && head.next == null
              else tail == Last(chunks.tail) && tail != head
    {
      if chunks.tail.Cons? {
        LastVal(chunks.tail);
      }
    }

    /** Takes the first chunk out of the head list. */
    method UnlinkHead() returns (chunk: Chunk)
      requires Shape(0) && PoolOk() && head != null
      modifies this`head, this`tail, this`chunks, head`place
      ensures Shape(1) && PoolOk() && chunk == old(head)
      ensures old(chunks) == Cons(chunk, chunks) && old(Vals(chunks)) == Cons(chunk.Val(), Vals(chunks))
      ensures chunk.place == Nowhere && |chunk.data| == chunkSize
    {
      hide Last, Length, Filled, Walk, Vals;
      Chains();
      HeadAndRest();
      chunk := head;
      head := chunk.next;
      if tail == chunk {
        tail := head;
      }
      chunks := chunks.tail;
      chunk.place := Nowhere;
    }

    ghost function Stocked(): Stock
      reads `chunkCount, `spares, pool
    {
      Chunks(chunkCount, Length(spares), Length(PoolChunks()))
    }

    /** `n` chunks have been used up: they are in the pool, as far as it takes them, or,
        without one, kept as spares, unless the queue keeps none or has more than its limit. */
    ghost predicate Disposed(was: Stock, n: int, now: Stock) {
      && 0 <= n
      && if pool != null then
           was.pooled <= pool.spareMax && now == Chunks(was.count - n, was.own, Min(was.pooled + n, pool.spareMax))
         else if noSpares then now == was.(count := was.count - n)
         else
           && now.own - now.count == was.own + n - was.count && now.pooled == was.pooled
           && now.count == if was.count <= maxChunks then was.count
                           else if maxChunks <= was.count - n then was.count - n
                           else maxChunks
    }

    lemma DisposedAgain(was: Stock, n: int, between: Stock, m: int, now: Stock)
      requires Disposed(was, n, between) && Disposed(between, m, now)
      ensures Disposed(was, n + m, now)
    {
    }

    lemma NoneDisposed()
      requires View().Queue? || PoolOk()
      ensures Disposed(Stocked(), 0, Stocked())
    {
    }

    /** Puts an unlinked chunk on top of the queue's own spare list. */
    method KeepSpare(chunk: Chunk)
      requires Shape(1) && PoolOk() && chunk.place == Nowhere && |chunk.data| == chunkSize
      modifies this`spare, this`spares, chunk
      ensures Shape(0) && PoolOk() && Vals(chunks) == old(Vals(chunks))
      ensures spares == Cons(chunk, old(spares))
    {
      hide Filled, Vals, Bytes, Last;
      Chains();
      chunk.next := spare;
      spare := chunk;
      chunk.place := SpareList(this);
      spares := Cons(chunk, spares);
    }

    /** Gives an unlinked chunk back to the pool. */
    method ReturnToPool(chunk: Chunk)
      requires Shape(1) && PoolOk() && pool != null && chunk.place == Nowhere && |chunk.data| == chunkSize
      modifies this`chunkCount, pool, chunk
      ensures Shape(0) && PoolOk() && Vals(chunks) == old(Vals(chunks))
      ensures chunkCount == old(chunkCount) - 1 && Length(pool.list) == Min(old(Length(pool.list)) + 1, pool.spareMax)
      ensures Members(PoolChunks()) <= old(Members(PoolChunks())) + {chunk}
    {
      hide Filled, Vals, Bytes, Last;
      Chains();
      pool.Put(chunk);
      chunkCount := chunkCount - 1;
    }

    /** Disposes of an unlinked chunk: to the pool, back to memory, or to the spares. */
    method Retire(chunk: Chunk)
      requires Shape(1) && PoolOk() && chunk.place == Nowhere && |chunk.data| == chunkSize
      modifies this`spare, this`spares, this`chunkCount, pool, chunk
      ensures Shape(0) && PoolOk() && Vals(chunks) == old(Vals(chunks))
      ensures Disposed(old(Stocked()), 1, Stocked())
      ensures Members(spares) <= old(Members(spares)) + {chunk}
      ensures Members(PoolChunks()) <= old(Members(PoolChunks())) + {chunk}
    {
      if pool != null {
        Chains();
        ReturnToPool(chunk);
      } else if chunkCount > maxChunks || noSpares {
        chunkCount := chunkCount - 1;
      } else {
        KeepSpare(chunk);
      }
    }

    /** Removes one empty chunk from the head. */
    method PruneOnce()
      requires Shape(0) && PoolOk() && head != null && head.rOffset == head.wOffset == 0 && Filled(Vals(chunks.tail))
      modifies this, pool, head
      ensures Shape(0) && PoolOk() && Filled(Vals(chunks))
      ensures chunks == old(chunks).tail && Content() == old(Content()) && Lead() == First(old(Vals(chunks)).tail)
      ensures Disposed(old(Stocked()), 1, Stocked())
      ensures forall c :: c in Owned() ==> c in old(Owned())
    {
      var chunk := UnlinkHead();
      Retire(chunk);
    }

    lemma HeadIsFirst()
      requires Shape(0) && head != null && Drained(Vals(chunks)) && head.IsEmpty()
      ensures chunks.Cons? && head == chunks.head && Length(chunks) == 1 + Length(chunks.tail)
      ensures head.rOffset == head.wOffset == 0 && Filled(Vals(chunks.tail)) && First(Vals(chunks)) == 0
      ensures Vals(chunks).tail == Vals(chunks.tail) && First(Vals(chunks.tail)) == 0
      ensures Members(chunks) == {head} + Members(chunks.tail) && Lead() == 0
      ensures First(Vals(chunks).tail) == 0
    {
    }

    /** Without an empty chunk at its head a drained list is filled. */
    lemma StillDrained()
      requires Shape(0)
      ensures Filled(Vals(chunks)) ==> Drained(Vals(chunks))
      ensures Drained(Vals(chunks)) && (head == null || !head.IsEmpty()) ==> Valid()
    {
    }

    /** Removes empty chunks from the head. */
    method PruneHead()
      requires Shape(0) && PoolOk() && Drained(Vals(chunks))
      modifies this, pool, Members(chunks)
      ensures Valid() && PoolOk() && Content() == old(Content()) && Lead() == old(Lead())
      ensures head == null || !head.IsEmpty()
      ensures Length(chunks) <= old(Length(chunks))
      ensures old(head != null && head.IsEmpty()) ==> Length(chunks) < old(Length(chunks))
      ensures Disposed(old(Stocked()), old(Length(chunks)) - Length(chunks), Stocked())
      ensures forall c :: c in Owned() ==> c in old(Owned())
    {
      hide *;
      NoneDisposed();
      StillDrained();
      while head != null && head.IsEmpty()
        invariant Shape(0) && PoolOk() && Drained(Vals(chunks)) && Content() == old(Content()) && Lead() == old(Lead())
        invariant Length(chunks) < old(Length(chunks))
                  || (chunks == old(chunks) && (head != null && head.IsEmpty()) == old(head != null && head.IsEmpty()))
        invariant Members(chunks) <= old(Members(chunks)) && Length(chunks) <= old(Length(chunks))
        invariant Disposed(old(Stocked()), old(Length(chunks)) - Length(chunks), Stocked())
        invariant forall c :: c in Owned() ==> c in old(Owned())
        decreases Length(chunks)
      {
        ghost var stock, row := Stocked(), Length(chunks);
        HeadIsFirst();
        PruneOnce();
        StillDrained();
        DisposedAgain(old(Stocked()), old(Length(chunks)) - row, stock, row - Length(chunks), Stocked());
      }
      StillDrained();
    }

    /** The head list still stands when its first chunk has moved its offsets. */
    lemma HeadListStands()
      requires chunks.Cons? && head == chunks.head && head !in Members(chunks.tail)
      requires head.place == HeadList(this) && |head.data| == chunkSize
      requires Walk(head.next, chunks.tail, HeadList(this), chunkSize) == At(null)
      ensures Walk(head, chunks, HeadList(this), chunkSize) == At(null)
      ensures Vals(chunks) == Cons(head.Val(), Vals(chunks.tail))
    {
    }

    /** Reads out of the first chunk. */
    method DrainHead(len: nat) returns (out: seq<byte>)
      requires Valid() && PoolOk() && head != null && 0 < len
      modifies head`rOffset, head`wOffset
      ensures Shape(0) && PoolOk() && Drained(Vals(chunks))
      ensures |out| <= len && old(Content()) == out + Content()
      ensures |out| == len || head.IsEmpty()
      ensures Lead() == Fifo.LeadAfter(old(Lead()), |out|, Content(), chunkSize)
    {
      hide Last, Length, Walk, Vals, Bytes, Filled, Drained, Members;
      Chains();
      HeadAndRest();
      ghost var vs := Vals(chunks);
      FilledHead(vs);
      out := head.Read(len);
      HeadListStands();
      HeadGives(vs, head.Val(), out, chunkSize);
    }

    /** Reads out of the first chunk and drops it when it is used up. */
    method ReadOnce(len: nat) returns (out: seq<byte>)
      requires View().Queue? && head != null && 0 < len
      modifies this, pool, Owned()
      ensures View().Queue? && |out| <= len && old(View()).bytes == out + View().bytes
      ensures View().lead == Fifo.LeadAfter(old(View()).lead, |out|, View().bytes, chunkSize)
      ensures Length(chunks) <= old(Length(chunks)) && (|out| == len || Length(chunks) < old(Length(chunks)))
      ensures Disposed(old(Stocked()), old(Length(chunks)) - Length(chunks), Stocked())
      ensures forall c :: c in Owned() ==> c in old(Owned())
    {
      hide *;
      ValidIsQueue();
      OwnedAll();
      Chains();
      out := DrainHead(len);
      Chains();
      OwnedAll();
      PruneHead();
      ValidIsQueue();
    }

    /** Reads a prefix of the queue: `len` bytes, or all of them if there are fewer. */
    method Read(len: nat) returns (out: seq<byte>, nread: int, err: Code)
      requires View().Queue?
      modifies this, pool, Owned()
      ensures View().Queue? && old(View()).bytes == out + View().bytes
      ensures View().lead == Fifo.LeadAfter(old(View()).lead, |out|, View().bytes, chunkSize)
      ensures |out| == Min(len, |old(View()).bytes|)
      ensures if out == [] then nread == -1 && err == Again else nread == |out| && err == Ok
      ensures Disposed(old(Stocked()), old(Length(chunks)) - Length(chunks), Stocked())
      ensures forall c :: c in Owned() ==> c in old(Owned())
    {
      hide *;
      NoneDisposed();
      out := [];
      RoomIsTheRest();
      ghost var before, lead := View().bytes, View().lead;
      Fifo.LeadStays(lead, before, chunkSize);
      while |out| < len && head != null
        invariant View().Queue? && |out| <= len && before == out + View().bytes
        invariant Disposed(old(Stocked()), old(Length(chunks)) - Length(chunks), Stocked())
        invariant View().lead == Fifo.LeadAfter(lead, |out|, View().bytes, chunkSize)
        invariant forall c :: c in Owned() ==> c in old(Owned())
        decreases Length(chunks), len - |out|
      {
        ghost var rest := View().bytes;
        ghost var stock, row := Stocked(), Length(chunks);
        var part := ReadOnce(len - |out|);
        DisposedAgain(old(Stocked()), old(Length(chunks)) - row, stock, row - Length(chunks), Stocked());
        ConcatAssoc(out, part, View().bytes);
        Fifo.LeadAgain(lead, |out|, rest, |part|, View().bytes, chunkSize);
        out := out + part;
      }
      NoHeadNoBytes();
      MinIs(len, |before|);
      if out == [] {
        nread, err := -1, Again;
      } else {
        nread, err := |out|, Ok;
      }
    }

    lemma NoHeadNoBytes()
      requires View().Queue?
      ensures head == null ==> View().bytes == []
    {
    }

    /** Skips bytes of the first chunk. */
    method SkipHead(amount: nat) returns (n: nat, ghost gone: seq<byte>)
      requires Valid() && PoolOk() && head != null && 0 < amount
      modifies head`rOffset, head`wOffset
      ensures Shape(0) && PoolOk() && Drained(Vals(chunks))
      ensures n == |gone| <= amount && old(Content()) == gone + Content()
      ensures n == amount || head.IsEmpty()
      ensures Lead() == Fifo.LeadAfter(old(Lead()), n, Content(), chunkSize)
    {
      hide Last, Length, Walk, Vals, Bytes, Filled, Drained, Members;
      Chains();
      HeadAndRest();
      ghost var vs, u := Vals(chunks), head.Val().Unread();
      FilledHead(vs);
      n := head.Skip(amount);
      gone := u[..n];
      HeadListStands();
      HeadGives(vs, head.Val(), gone, chunkSize);
    }

    method SkipOnce(amount: nat) returns (n: nat, ghost gone: seq<byte>)
      requires View().Queue? && head != null && 0 < amount
      modifies this, pool, Owned()
      ensures View().Queue? && n == |gone| <= amount && old(View()).bytes == gone + View().bytes
      ensures View().lead == Fifo.LeadAfter(old(View()).lead, n, View().bytes, chunkSize)
      ensures Length(chunks) <= old(Length(chunks)) && (n == amount || Length(chunks) < old(Length(chunks)))
      ensures Disposed(old(Stocked()), old(Length(chunks)) - Length(chunks), Stocked())
      ensures forall c :: c in Owned() ==> c in old(Owned())
    {
      hide *;
      ValidIsQueue();
      OwnedAll();
      Chains();
      n, gone := SkipHead(amount);
      Chains();
      OwnedAll();
      PruneHead();
      ValidIsQueue();
    }

    /** Discards `amount` bytes from the front, or all if there are fewer. */
    method Skip(amount: nat)
      requires View().Queue?
      modifies this, pool, Owned()
      ensures View().Queue?
      ensures View().bytes == old(View()).bytes[Min(amount, |old(View()).bytes|)..]
      ensures View().lead
           == Fifo.LeadAfter(old(View()).lead, Min(amount, |old(View()).bytes|), View().bytes, chunkSize)
      ensures Disposed(old(Stocked()), old(Length(chunks)) - Length(chunks), Stocked())
      ensures forall c :: c in Owned() ==> c in old(Owned())
    {
      hide *;
      NoneDisposed();
      RoomIsTheRest();
      var left: nat := amount;
      ghost var before, lead, gone: seq<byte> := View().bytes, View().lead, [];
      Fifo.LeadStays(lead, before, chunkSize);
      while 0 < left && head != null
        invariant View().Queue? && |gone| + left == amount && before == gone + View().bytes
        invariant Disposed(old(Stocked()), old(Length(chunks)) - Length(chunks), Stocked())
        invariant View().lead == Fifo.LeadAfter(lead, |gone|, View().bytes, chunkSize)
        invariant forall c :: c in Owned() ==> c in old(Owned())
        decreases Length(chunks), left
      {
        ghost var stock, row, rest := Stocked(), Length(chunks), View().bytes;
        var n: nat;
        ghost var more: seq<byte>;
        n, more := SkipOnce(left);
        DisposedAgain(old(Stocked()), old(Length(chunks)) - row, stock, row - Length(chunks), Stocked());
        Fifo.LeadAgain(lead, |gone|, rest, n, View().bytes, chunkSize);
        ConcatAssoc(gone, more, View().bytes);
        left := left - n;
        gone := gone + more;
      }
      NoHeadNoBytes();
      MinIs(amount, |before|);
      AfterPrefix(gone, View().bytes);
    }

    /** The unread bytes at the head, without taking them. Only an empty chunk at
        the head is dropped. */
    method Peek() returns (ok: bool, buf: seq<byte>)
      requires View().Queue?
      modifies this, pool, Owned()
      ensures View().Queue? && View().bytes == old(View()).bytes && View().lead == old(View()).lead
      ensures ok <==> View().bytes != []
      ensures buf == View().bytes[..Min(chunkSize - View().lead, |View().bytes|)] && (ok <==> buf != [])
      ensures forall c :: c in Owned() ==> c in old(Owned())
    {
      Chains();
      if head != null && head.IsEmpty() {
        PruneHead();
      }
      RoomIsTheRest();
      if head != null && !head.IsEmpty() {
        FirstUnread(Vals(chunks), chunkSize);
        ok, buf := true, head.data[head.rOffset..head.wOffset];
      } else {
        ok, buf := false, [];
      }
    }

    /** The unread bytes that start `offset` bytes into the queue, up to the end of their chunk. */
    method PeekAt(offset: nat) returns (ok: bool, buf: seq<byte>)
      requires View().Queue?
      ensures View() == old(View()) && (ok <==> offset < |View().bytes|)
      ensures if ok then buf != [] && buf <= View().bytes[offset..] else buf == []
      ensures ok ==> |buf| == RunLength(View().lead + offset, |View().bytes| - offset, chunkSize)
    {
      Chains();
      ghost var bytes, lead := View().bytes, View().lead;
      assert bytes == Bytes(Vals(chunks)) && lead == First(Vals(chunks));
      hide View, First, RunLength;
      ok, buf := LocateBytes(head, chunks, offset, HeadList(this), chunkSize);
    }

    /** The number of unread bytes. */
    method BytesUnread() returns (len: nat)
      requires View().Queue?
      ensures View() == old(View()) && len == |View().bytes|
    {
      Chains();
      var chunk := head;
      ghost var rest := chunks;
      len := 0;
      while chunk != null
        invariant Walk(chunk, rest, HeadList(this), chunkSize) == At(null) && Filled(Vals(rest))
        invariant len + |Bytes(Vals(rest))| == |View().bytes|
        decreases Length(rest)
      {
        len := len + chunk.Len();
        chunk, rest := chunk.next, rest.tail;
      }
    }

    /** The sizes of the spare chunks, added up. */
    method SpareSpace() returns (space: nat)
      requires View().Queue?
      ensures View() == old(View()) && space == Blocks(Length(spares), chunkSize)
    {
      Chains();
      hide View, Filled, Vals;
      space := 0;
      var chunk := spare;
      ghost var rest := spares;
      while chunk != null
        invariant Walk(chunk, rest, SpareList(this), chunkSize) == At(null)
        invariant space + Blocks(Length(rest), chunkSize) == Blocks(Length(spares), chunkSize)
        decreases rest
      {
        space := space + |chunk.data|;
        chunk, rest := chunk.next, rest.tail;
      }
    }

    /** The number of bytes that can be written without going over the limit. */
    method SpaceLeft() returns (space: nat)
      requires View().Queue?
      ensures View() == old(View()) && space == View().room
    {
      TailOk();
      hide Blocks, Walk, Filled, Vals, Bytes;
      space := 0;
      if tail != null {
        space := tail.Space();
      }
      var spareSpace := SpareSpace();
      space := space + spareSpace;
      if chunkCount < maxChunks {
        BlocksIsProduct(maxChunks - chunkCount, chunkSize);
        BlocksAdd(Length(spares), maxChunks - chunkCount, chunkSize);
        space := space + (maxChunks - chunkCount) * chunkSize;
      }
    }

    /** The bytes start in the first chunk, which is blank only if it is alone. */
    lemma BytesStartAtHead()
      requires View().Queue? && head != null
      ensures chunks.Cons? && View().bytes == head.Val().Unread() + Bytes(Vals(chunks.tail))
      ensures if chunks.tail.Nil? then head.Val().Usable() else head.Val().Full()
    {
      Chains();
      assert Vals(chunks) == Cons(head.Val(), Vals(chunks.tail));
    }

    method IsEmpty() returns (empty: bool)
      requires View().Queue?
      ensures View() == old(View()) && (empty <==> View().bytes == [])
    {
      Chains();
      if head != null {
        BytesStartAtHead();
      }
      empty := head == null || head.IsEmpty();
    }

    /** Full, that is, without room, or beyond a soft limit without spares. */
    method IsFull() returns (full: bool)
      requires View().Queue?
      ensures View() == old(View())
      ensures full <==> View().room == 0 || (spares.Nil? && chunkCount > maxChunks)
      ensures !softLimit ==> (full <==> View().room == 0)
      ensures full ==> View().bytes != []
    {
      Chains();
      TailOk();
      if head != null {
        BytesStartAtHead();
      }
      if tail == null || spare != null {
        return false;
      }
      if chunkCount < maxChunks {
        return false;
      }
      if chunkCount > maxChunks {
        return true;
      }
      return tail.IsFull();
    }

    /** Empties the queue and keeps all its chunks as spares. */
    method Reset()
      requires View().Queue?
      modifies this, Members(chunks)
      ensures View() == Queue([], 0, Blocks(FreeChunks(), chunkSize))
      ensures chunks == Nil && Length(spares) == old(Length(chunks)) + old(Length(spares))
      ensures chunkCount == old(chunkCount)
      ensures forall c :: c in Owned() ==> c in old(Owned())
    {
      hide Filled, Walk, Vals, Bytes, Last, Blocks;
      while head != null
        invariant Shape(0) && PoolOk() && Members(chunks) <= old(Members(chunks))
        invariant Length(chunks) + Length(spares) == old(Length(chunks)) + old(Length(spares))
        invariant chunkCount == old(chunkCount)
        invariant forall c :: c in Owned() ==> c in old(Owned())
        decreases Length(chunks)
      {
        HeadAndRest();
        var chunk := UnlinkHead();
        KeepSpare(chunk);
      }
      NoHeadNoChunks();
      tail := null;
      NothingQueued();
    }

    lemma NoHeadNoChunks()
      requires Shape(0) && head == null
      ensures chunks == Nil
    {
    }

    lemma NothingQueued()
      requires Shape(0) && PoolOk() && chunks == Nil
      ensures View() == Queue([], 0, Blocks(FreeChunks(), chunkSize))
    {
    }

    /** Offers the first chunk to the writer, if there is one. */
    method PassOnce(sink: Sink, err0: Code)
      returns (offered: bool, n: int, err: Code, ghost call: Call, ghost part: seq<byte>)
      requires View().Queue?
      modifies this, pool, Owned(), sink
      ensures View().Queue? && (offered <==> old(View()).bytes != []) && old(View()).lead < chunkSize
      ensures sink.taken == old(sink.taken) + part && old(View()).bytes == part + View().bytes
      ensures |part| == if n < 0 then 0 else n
      ensures !offered ==> n == 0 && err == err0 && sink.log == old(sink.log)
      ensures !offered ==> StateOf(View()) == StateOf(old(View()))
      ensures offered ==>
        && call == Call(old(View()).bytes[..Min(chunkSize - old(View()).lead, |old(View()).bytes|)], n, err)
        && call.offer != [] && call.offer <= old(View()).bytes
        && n <= |call.offer| && (n < 0 ==> err != Ok)
        && sink.log == old(sink.log) + [call]
        && StateOf(View()) == Less(StateOf(old(View())), n, chunkSize)
      ensures forall c :: c in Owned() ==> c in old(Owned())
    {
      hide *;
      QueueFits(this);
      ghost var now := StateOf(View());
      n, err, call, part := 0, err0, Call([], 0, err0), [];
      var buf: seq<byte>;
      offered, buf := Peek();
      SameState(this, now);
      if offered {
        Chains();
        FirstOfAll(now.bytes, buf, chunkSize - now.lead);
        n, err := sink.Accept(buf);
        SameState(this, now);
        call := Call(buf, n, err);
        LessIs(now, n, chunkSize);
        if n > 0 {
          PrefixOfPrefix(now.bytes, buf, n);
          part := now.bytes[..n];
          MinIs(n, |View().bytes|);
          Skip(n);
          QueueFits(this);
          LessAre(now, n, StateOf(View()), chunkSize);
        }
      }
    }

    /** Hands the queued bytes to a writer, chunk by chunk, until it blocks or none are left. */
    method Pass(sink: Sink, err0: Code) returns (nwritten: int, err: Code, ghost calls: seq<Call>)
      requires View().Queue?
      modifies this, pool, Owned(), sink
      ensures View().Queue? && old(sink.taken) <= sink.taken
      ensures sink.taken + View().bytes == old(sink.taken) + old(View()).bytes
      ensures sink.log == old(sink.log) + calls && (calls == [] ==> err == err0)
      ensures old(View()).lead < chunkSize
           && Passed(StateOf(old(View())), calls, StateOf(View()), chunkSize, nwritten, err)
      ensures View().bytes == [] || (calls != [] && calls[|calls| - 1].n <= 0)
      ensures View().lead == Fifo.LeadAfter(old(View()).lead, |sink.taken| - |old(sink.taken)|, View().bytes, chunkSize)
      ensures if nwritten >= 0 then |sink.taken| == |old(sink.taken)| + nwritten
                && (nwritten == 0 ==> View().bytes == [])
              else nwritten == -1 && err != Ok && (err == Again ==> sink.taken == old(sink.taken))
      ensures forall c :: c in Owned() ==> c in old(Owned())
    {
      hide *;
      QueueFits(this);
      nwritten, err, calls := 0, err0, [];
      ghost var start, taken0, gone := StateOf(View()), sink.taken, [];
      NoCalls(start, chunkSize);
      Fifo.LeadStays(start.lead, start.bytes, chunkSize);
      while true
        invariant View().Queue? && nwritten == |gone| && start.bytes == gone + View().bytes
        invariant sink.taken == taken0 + gone && sink.log == old(sink.log) + calls
        invariant View().lead == Fifo.LeadAfter(start.lead, nwritten, View().bytes, chunkSize)
        invariant InTurn(start, calls, chunkSize) && StateOf(View()) == Remaining(start, calls, chunkSize)
        invariant if calls == [] then nwritten == 0 && err == err0
                  else nwritten > 0 && calls[|calls| - 1].n > 0 && err == calls[|calls| - 1].err
        invariant forall c :: c in Owned() ==> c in old(Owned())
        decreases |View().bytes|
      {
        QueueFits(this);
        ghost var now := StateOf(View());
        var ok: bool, chunkWritten: int;
        ghost var call: Call, part: seq<byte>;
        ok, chunkWritten, err, call, part := PassOnce(sink, err);
        QueueFits(this);
        ConcatAssoc(gone, part, View().bytes);
        ConcatAssoc(taken0, gone, part);
        Fifo.LeadAgain(start.lead, nwritten, now.bytes, |part|, View().bytes, chunkSize);
        gone := gone + part;
        if !ok {
          PassEnds(start, calls, StateOf(View()), chunkSize, nwritten, err);
          break;
        }
        NextCall(start, calls, now, call, chunkSize);
        LessIs(now, chunkWritten, chunkSize);
        calls := calls + [call];
        if chunkWritten < 0 {
          if nwritten == 0 || err != Again {
            nwritten := -1;
          }
          PassEnds(start, calls, StateOf(View()), chunkSize, nwritten, err);
          break;
        }
        if chunkWritten == 0 {
          if nwritten == 0 {
            err, nwritten := Again, -1;
          }
          PassEnds(start, calls, StateOf(View()), chunkSize, nwritten, err);
          break;
        }
        nwritten := nwritten + chunkWritten;
      }
      ConcatAssoc(taken0, gone, View().bytes);
      AfterPrefix(taken0, gone);
    }

    /** Hands queued bytes to the writer if the queue is full. */
    method MakeRoom(sink: Sink, err0: Code) returns (n: int, err: Code, ghost calls: seq<Call>, ghost full: bool)
      requires View().Queue?
      modifies this, pool, Owned(), sink
      ensures View().Queue? && old(sink.taken) <= sink.taken && old(View()).lead < chunkSize
      ensures sink.taken + View().bytes == old(sink.taken) + old(View()).bytes
      ensures sink.log == old(sink.log) + calls && |View().bytes| <= |old(View()).bytes|
      ensures full <==> old(View().room == 0 || (spares.Nil? && chunkCount > maxChunks))
      ensures (full ==> calls != []) && (!softLimit ==> (full <==> old(View()).room == 0))
      ensures if full then Passed(StateOf(old(View())), calls, StateOf(View()), chunkSize, n, err)
              else calls == [] && n == 0 && StateOf(View()) == StateOf(old(View()))
      ensures n < 0 ==> err != Ok && (!softLimit && err == Again ==> View().room == 0)
      ensures forall c :: c in Owned() ==> c in old(Owned())
    {
      hide *;
      QueueFits(this);
      n, err, calls := 0, err0, [];
      var isFull := IsFull();
      full := isFull;
      if isFull {
        AfterPrefix(sink.taken, View().bytes);
        Fifo.LeadStays(View().lead, View().bytes, chunkSize);
        ghost var start := StateOf(View());
        n, err, calls := Pass(sink, err);
        AfterPrefix(sink.taken, View().bytes);
        QueueFits(this);
        SomethingIsOffered(start, calls, StateOf(View()), chunkSize, n, err);
      }
    }

    /** Queues a prefix of `buf`, after handing queued bytes to the writer if the queue is
        full; at least `memory` allocations succeed. The round tells how many bytes were
        queued even when the call fails. */
    method PassAndWrite(buf: seq<byte>, sink: Sink, err0: Code, memory: nat)
      returns (n: int, err: Code, ghost round: Round)
      requires View().Queue? && buf != []
      modifies this, pool, Owned(), sink
      ensures View().Queue? && round.accepted <= |buf| && old(sink.taken) <= sink.taken
      ensures sink.taken + View().bytes == old(sink.taken) + old(View()).bytes + buf[..round.accepted]
      ensures sink.log == old(sink.log) + round.calls && old(View()).lead < chunkSize
      ensures RoundGoes(LimitsOf(this), StateOf(old(View())), |buf|, memory, round)
      ensures StateOf(View())
           == More(Remaining(StateOf(old(View())), round.calls, chunkSize), buf[..round.accepted])
      ensures round.calls != [] <==> old(View().room == 0 || (spares.Nil? && chunkCount > maxChunks))
      ensures if n >= 0 then n == round.accepted > 0 else err != Ok && (err == Again ==> round.accepted == 0)
      ensures !softLimit && n < 0 && err == Again ==>
                View().room == 0 && round.calls != [] && !GoesOn(round.calls)
      ensures Fifo.Enough(memory, |buf|, chunkSize) && n < 0 && err != Again ==>
                round.calls != [] && err == round.calls[|round.calls| - 1].err
      ensures forall c :: c in Owned() ==> c in old(Owned()) || fresh(c)
    {
      hide *;
      QueueFits(this);
      ghost var start, calls, accepted := StateOf(View()), [], 0;
      NoCalls(start, chunkSize);
      ghost var full: bool;
      n, err, calls, full := MakeRoom(sink, err0);
      QueueFits(this);
      ghost var t, passed, passErr := StateOf(View()), n, err;
      if n >= 0 {
        ghost var taken, bytes := sink.taken, View().bytes;
        var left: nat;
        var enough: nat :| memory <= enough;
        EnoughGrows(memory, enough, |buf|, chunkSize);
        EnoughBlocks(enough, |buf|, chunkSize);
        n, err, accepted, left := Write(buf, enough);
        ConcatAssoc(taken, bytes, buf[..accepted]);
        QueueFits(this);
      }
      if t.bytes == [] {
        EmptyHasRoom(LimitsOf(this), t);
      }
      assert t.bytes + [] == t.bytes && buf[..0] == [];
      MoreIs(t, buf[..accepted], StateOf(View()));
      AcceptedFits(LimitsOf(this), t, StateOf(View()), |buf|, accepted);
      RoundIsMade(LimitsOf(this), start, t, |buf|, memory, full, calls, passed, passErr, accepted);
      round := Round(calls, accepted);
    }

    /** Queues `buf`, handing queued bytes to the writer whenever the queue is full; at
        least `memory` allocations succeed each time it writes. */
    method WritePass(buf: seq<byte>, sink: Sink, memory: nat)
      returns (nwritten: int, err: Code, ghost rounds: seq<Round>)
      requires View().Queue?
      modifies this, pool, Owned(), sink
      ensures View().Queue? && Queued(rounds) <= |buf| && old(sink.taken) <= sink.taken
      ensures sink.taken + View().bytes == old(sink.taken) + old(View()).bytes + buf[..Queued(rounds)]
      ensures sink.log == old(sink.log) + CallsOf(rounds) && old(View()).lead < chunkSize
      ensures RoundsGo(LimitsOf(this), StateOf(old(View())), buf, memory, rounds)
      ensures StateOf(View()) == Through(StateOf(old(View())), buf, rounds, chunkSize)
      ensures buf != [] ==>
                rounds != []
                && (rounds[0].calls != [] <==> old(View().room == 0 || (spares.Nil? && chunkCount > maxChunks)))
      ensures if nwritten >= 0 then nwritten == Queued(rounds) && err == Ok && (nwritten == 0 ==> buf == [])
              else nwritten == -1 && err != Ok && buf != [] && (err == Again ==> Queued(rounds) == 0)
      ensures Queued(rounds) < |buf| && (nwritten >= 0 || err == Again) ==>
                rounds[|rounds| - 1].accepted == 0
      ensures !softLimit && Queued(rounds) < |buf| && (nwritten >= 0 || err == Again) ==>
                View().room == 0 && var calls := rounds[|rounds| - 1].calls; calls != [] && !GoesOn(calls)
      ensures Fifo.Enough(memory, |buf|, chunkSize) && nwritten < 0 && err != Again ==>
                var calls := rounds[|rounds| - 1].calls; calls != [] && err == calls[|calls| - 1].err
      ensures forall c :: c in Owned() ==> c in old(Owned()) || fresh(c)
    {
      hide *;
      QueueFits(this);
      var pos: nat, n: int := 0, 0;
      err, rounds := Ok, [];
      ghost var start, all := StateOf(View()), sink.taken + View().bytes;
      ghost var full := View().room == 0 || (spares.Nil? && chunkCount > maxChunks);
      NoRounds(LimitsOf(this), start, buf, memory);
      while pos < |buf|
        invariant 0 <= n && View().Queue? && Queued(rounds) == pos <= |buf| && old(sink.taken) <= sink.taken
        invariant sink.taken + View().bytes == all + buf[..pos] && sink.log == old(sink.log) + CallsOf(rounds)
        invariant RoundsGo(LimitsOf(this), start, buf, memory, rounds)
        invariant rounds != [] ==> rounds[|rounds| - 1].accepted > 0 && (rounds[0].calls != [] <==> full)
        invariant rounds == [] ==>
                    pos == 0 && (full <==> View().room == 0 || (spares.Nil? && chunkCount > maxChunks))
        invariant StateOf(View()) == Through(start, buf, rounds, chunkSize)
        invariant forall c :: c in Owned() ==> c in old(Owned()) || fresh(c)
      {
        ghost var now := StateOf(View());
        ghost var round: Round;
        n, err, round := PassAndWrite(buf[pos..], sink, err, memory);
        PrefixStep(all, buf, pos, round.accepted);
        NextRound(LimitsOf(this), start, now, buf, memory, rounds, round, StateOf(View()));
        rounds := rounds + [round];
        if n < 0 {
          break;
        }
        pos := pos + n;
      }
      if n < 0 && err != Again {
        nwritten := -1;
      } else if pos == 0 && |buf| != 0 {
        nwritten, err := -1, Again;
      } else {
        nwritten, err := pos, Ok;
      }
    }

    /** There is no tail to write to: no spare, no room in the last chunk, and either
        the limit or an allocation refuses one more. */
    ghost predicate Stuck(err: Code)
      reads this, tail
    {
      spares.Nil? && TailSpace() == 0 && err == if chunkCount < maxChunks then OutOfMemory else Again
    }

    /** Under a hard limit a queue says AGAIN exactly when it is full. */
    lemma StuckOrFull(err: Code)
      requires View().Queue? && Stuck(err)
      ensures err == Again || err == OutOfMemory
      ensures !softLimit ==> (err == Again <==> View().room == 0)
    {
    }

    /** Reads once from `source` into the tail; a `maxLen` of 0 is no limit. `asked`
        tells whether there was a tail to read into. */
    method Sipn(maxLen: nat, source: Source, memory: nat) returns (nread: int, err: Code, ghost asked: bool, left: nat)
      requires View().Queue?
      modifies this, pool, Owned(), source
      ensures View().Queue? && -1 <= nread && View().lead == old(View()).lead
      ensures View().bytes + source.remaining == old(View()).bytes + old(source.remaining)
      ensures |View().bytes| == |old(View()).bytes| + if nread < 0 then 0 else nread
      ensures (nread < 0 ==> err != Ok) && (nread == 0 ==> err == Ok) && (0 < maxLen ==> nread <= maxLen)
      ensures asked <==> old(Capacity(memory)) > 0
      ensures left <= memory && Capacity(left) == old(Capacity(memory)) - if nread < 0 then 0 else nread
      ensures if asked then nread == source.lastRead && (nread != 0 ==> err == source.lastErr)
              else nread == -1 && Capacity(left) == 0 && Stuck(err) && (0 < memory ==> !softLimit && View().room == 0)
      ensures 0 < chunkSize && source.log == old(source.log) + if !asked then [] else
        [Ask(Wanted(old(View()).lead + |old(View()).bytes|, maxLen, chunkSize), source.lastRead, source.lastErr)]
      ensures asked ==> nread <= source.log[|source.log| - 1].max
      ensures forall c :: c in Owned() ==> c in old(Owned()) || fresh(c)
    {
      hide View, Owned, Valid, Shape, PoolOk, Content, Lead, Room, MoreChunks, Blocks;
      Chains();
      OwnedAll();
      WhyRefused(memory);
      RoomIsTheRest();
      ValidIsQueue();
      var t: Chunk?;
      t, left := GetNonFullTail(memory);
      asked := t != null;
      if t == null {
        nread, err := -1, if chunkCount < maxChunks then OutOfMemory else Again;
      } else {
        TailIsFreeEnd(maxLen);
        nread, err := Slurp(maxLen, source);
      }
      ValidIsQueue();
      RoomIsTheRest();
    }

    /** Lets the reader fill the tail, which has room. */
    method Slurp(maxLen: nat, source: Source) returns (nread: int, err: Code)
      requires Valid() && PoolOk() && TailSpace() > 0
      modifies tail`wOffset, tail`data, source
      ensures Valid() && PoolOk() && -1 <= nread == source.lastRead && Lead() == old(Lead())
      ensures TailSpace() == old(TailSpace()) - if nread < 0 then 0 else nread
      ensures Content() + source.remaining == old(Content()) + old(source.remaining)
      ensures |Content()| == |old(Content())| + if nread < 0 then 0 else nread
      ensures (nread < 0 ==> err != Ok) && (nread == 0 ==> err == Ok) && (0 < maxLen ==> nread <= maxLen)
      ensures nread != 0 ==> err == source.lastErr
      ensures source.log == old(source.log) +
        [Ask(if maxLen == 0 then old(TailSpace()) else Min(old(TailSpace()), maxLen), source.lastRead, source.lastErr)]
      ensures nread <= source.log[|source.log| - 1].max
    {
      hide Shape, Walk, Filled, Vals, Bytes;
      var n: nat := tail.Space();
      if maxLen != 0 && n > maxLen {
        n := maxLen;
      }
      Chains();
      var data: seq<byte>;
      data, nread, err := source.Supply(n);
      var stored := AppendToTail(data);
      ConcatAssoc(old(Content()), data, source.remaining);
      if nread == 0 {
        err := Ok;
      }
    }

    /** Why a reading run ended without an error: the maximum was reached, the reader
        was at its end or had nothing more for now, there is no chunk to read into, or
        the last chunk could not be filled. */
    ghost predicate Ended(maxLen: nat, nread: int, asked: bool, source: Source)
      reads this, tail, source
    {
      || (0 < maxLen && nread == maxLen)
      || (asked && source.lastRead == 0)
      || (asked && source.lastRead < 0 && source.lastErr == Again)
      || (!asked && Stuck(Again))
      || TailSpace() > 0
    }

    /** Reads until the reader blocks, ends, or delivers less than fits. */
    method Slurpn(maxLen: nat, source: Source, memory: nat)
      returns (nread: int, err: Code, ghost asked: bool, left: nat, ghost asks: seq<Ask>)
      requires View().Queue?
      modifies this, pool, Owned(), source
      ensures View().Queue? && -1 <= nread && View().lead == old(View()).lead
      ensures left <= memory && (!asked ==> Capacity(left) == 0 && Stuck(if nread >= 0 then Again else err))
      ensures |View().bytes| + Capacity(left) == |old(View()).bytes| + old(Capacity(memory))
      ensures 0 < chunkSize && source.log == old(source.log) + asks
      ensures Gained(asks) == |View().bytes| - |old(View()).bytes|
      ensures AskedInTurn(old(View()).lead + |old(View()).bytes|, maxLen, asks, chunkSize)
      ensures View().bytes + source.remaining == old(View()).bytes + old(source.remaining)
      ensures old(View()).bytes <= View().bytes
      ensures if nread >= 0 then |View().bytes| == |old(View()).bytes| + nread
              else err != Ok && (err == Again ==> View().bytes == old(View()).bytes)
      ensures 0 < maxLen ==> |View().bytes| <= |old(View()).bytes| + maxLen
      ensures if nread >= 0 then Ended(maxLen, nread, asked, source) && (err == Ok || err == source.lastErr)
              else if asked then source.lastRead < 0 && err == source.lastErr else Stuck(err)
      ensures forall c :: c in Owned() ==> c in old(Owned()) || fresh(c)
    {
      hide View, Owned, Stuck, Capacity, AskedInTurn, Gained, Wanted, FillsChunks;
      RoomIsTheRest();
      nread, err, asked, left, asks := 0, Again, true, memory, [];
      NoAsks(View().lead + |View().bytes|, maxLen, chunkSize);
      var max: nat := maxLen;
      ghost var before, all, used := View().bytes, View().bytes + source.remaining, View().lead + |View().bytes|;
      while true
        invariant View().Queue? && View().bytes + source.remaining == all
        invariant 0 <= nread && |View().bytes| == |before| + nread && before <= View().bytes
        invariant View().lead == old(View()).lead && left <= memory && asked
        invariant |View().bytes| + Capacity(left) == |before| + old(Capacity(memory))
        invariant if maxLen == 0 then max == 0 else 0 < max && nread + max == maxLen
        invariant source.log == old(source.log) + asks && Gained(asks) == nread
        invariant AskedInTurn(used, maxLen, asks, chunkSize)
        invariant asks != [] ==> asks[|asks| - 1].n > 0 && FillsChunks(used + nread, chunkSize)
        invariant forall c :: c in Owned() ==> c in old(Owned()) || fresh(c)
        decreases |source.remaining|
      {
        var n: int;
        n, err, asked, left := Sipn(max, source, left);
        if asked {
          OneMoreAsk(used, maxLen, asks, source.log[|source.log| - 1], chunkSize);
          asks := asks + [source.log[|source.log| - 1]];
        }
        assert View().bytes == all[..|View().bytes|] && before == all[..|before|];
        if n < 0 {
          if nread == 0 || err != Again {
            nread := -1;
          } else {
            err := Ok;
          }
          break;
        } else if n == 0 {
          err := Ok;
          break;
        }
        nread := nread + n;
        if maxLen != 0 {
          max := max - n;
          if max == 0 {
            break;
          }
        }
        if tail != null && !tail.IsFull() {
          break;
        }
        FullTail();
      }
    }

    lemma FullTail()
      requires View().Queue? && (tail == null || tail.IsFull())
      ensures 0 < chunkSize && FillsChunks(View().lead + |View().bytes|, chunkSize)
    {
      TailOk();
      TailIsFreeEnd(0);
    }

    lemma OwnedAll()
      ensures Owned() == Members(chunks) + Members(spares) + Members(PoolChunks())
    {
    }
  }
}
