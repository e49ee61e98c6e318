/** Sending a chain of buckets: ymo_net_send_buckets of src/core/ymo_net.c, without sendfile. */
module Net {
  import opened Bytes
  import opened Buckets
  import opened Common

  const MAX_IOVEC := 32

  class Socket {
    var wire: seq<Byte>
    var errno: Status

    constructor ()
      ensures wire == []
    {
      wire, errno := [], OKAY;
    }

    /** sendmsg: any result it may have. It fails, or takes some first bytes of what it is given. */
    method SendMsg(iov: seq<seq<Byte>>) returns (n: int)
      requires Concat(iov) != []
      modifies this
      ensures n < 0 ==> wire == old(wire) && errno != OKAY
      ensures n >= 0 ==> 1 <= n <= |Concat(iov)| && wire == old(wire) + Concat(iov)[..n]
    {
      n :| -1 <= n <= |Concat(iov)| && n != 0;
      if n < 0 {
        var e :| e != OKAY;
        errno := e;
      } else {
        wire := wire + Concat(iov)[..n];
      }
    }
  }

  // ---------------------------------------------------------------- one send

  /** The buckets that may be written to include all those of the chain. */
  ghost predicate Owned(bs: seq<Bucket>, own: set<Bucket>) {
    forall i :: 0 <= i < |bs| ==> bs[i] in own
  }

  lemma SuffixOwned(rest: seq<Bucket>, bs: seq<Bucket>, own: set<Bucket>)
    requires Suffix(rest, bs) && Owned(bs, own)
    ensures Owned(rest, own)
  {
    assert forall i :: 0 <= i < |rest| ==> rest[i] == bs[|bs| - |rest| + i];
  }

  ghost predicate Suffix(rest: seq<Bucket>, bs: seq<Bucket>) {
    |rest| <= |bs| && rest == bs[|bs| - |rest|..]
  }

  /** How many buckets fill `room` places of the I/O vector; buckets without data take none. */
  function Window(ss: seq<Slot>, room: nat): (k: nat)
    ensures k <= |ss|
    decreases |ss|
  {
    if ss == [] || room == 0 then 0
    else 1 + Window(ss[1..], if ss[0].data == [] then room else room - 1)
  }

  function CountData(ss: seq<Slot>): (n: nat) {
    if ss == [] then 0 else (if ss[0].data == [] then 0 else 1) + CountData(ss[1..])
  }

  /** The vector takes buckets as long as there are any and a place is left. */
  lemma {:induction false} WindowExactly(ss: seq<Slot>, room: nat)
    ensures CountData(ss[..Window(ss, room)]) <= room
    ensures Window(ss, room) == |ss| || CountData(ss[..Window(ss, room)]) == room
    decreases |ss|
  {
    if ss != [] && room > 0 {
      var next := if ss[0].data == [] then room else room - 1;
      WindowExactly(ss[1..], next);
      assert ss[..Window(ss, room)][1..] == ss[1..][..Window(ss[1..], next)];
    }
  }

  /** How many bytes one call offers to the socket. */
  function Offered(ss: seq<Slot>): (n: nat) {
    |Unsent(ss[..Window(ss, MAX_IOVEC)])|
  }

  /** The accounting for `n` bytes sent: whole buckets go, and at most one is left partly sent. */
  function Account(ss: seq<Slot>, n: nat): (r: seq<Slot>)
    ensures |r| <= |ss|
    decreases |ss|
  {
    if ss == [] || n == 0 then ss
    else if n < |Left(ss[0])| then [Slot(ss[0].data, ss[0].sent + n)] + ss[1..]
    else Account(ss[1..], n - |Left(ss[0])|)
  }

  lemma DropJoined<T>(xs: seq<T>, ys: seq<T>, n: nat)
    requires n <= |xs| + |ys|
    ensures n <= |xs| ==> (xs + ys)[n..] == xs[n..] + ys
    ensures |xs| <= n ==> (xs + ys)[n..] == ys[n - |xs|..]
  {
  }

  lemma LeftAfter(s: Slot, n: nat)
    requires n < |Left(s)|
    ensures Left(Slot(s.data, s.sent + n)) == Left(s)[n..]
  {
  }

  lemma PartTaken(ss: seq<Slot>, n: nat)
    requires ss != [] && 0 < n < |Left(ss[0])|
    ensures Unsent(Account(ss, n)) == Unsent(ss)[n..]
  {
    var s, rest := ss[0], ss[1..];
    var t := Slot(s.data, s.sent + n);
    assert Unsent(ss) == Left(s) + Unsent(rest);
    calc {
      Unsent(Account(ss, n));
      { assert Account(ss, n) == [t] + rest; }
      Unsent([t] + rest);
      { UnsentCons(t, rest); }
      Left(t) + Unsent(rest);
      { LeftAfter(s, n); }
      Left(s)[n..] + Unsent(rest);
      { DropJoined(Left(s), Unsent(rest), n); }
      (Left(s) + Unsent(rest))[n..];
    }
  }

  lemma BucketTaken(ss: seq<Slot>, n: nat)
    requires ss != [] && |Left(ss[0])| <= n <= |Unsent(ss)|
    ensures n - |Left(ss[0])| <= |Unsent(ss[1..])|
    ensures Unsent(ss)[n..] == Unsent(ss[1..])[n - |Left(ss[0])|..]
  {
    DropJoined(Left(ss[0]), Unsent(ss[1..]), n);
  }

  lemma {:induction false} AccountConserves(ss: seq<Slot>, n: nat)
    requires n <= |Unsent(ss)|
    ensures Unsent(Account(ss, n)) == Unsent(ss)[n..]
    decreases |ss|
  {
    if ss == [] || n == 0 {
    } else if n < |Left(ss[0])| {
      PartTaken(ss, n);
    } else {
      BucketTaken(ss, n);
      AccountConserves(ss[1..], n - |Left(ss[0])|);
    }
  }

  lemma {:induction false} AccountKeeps(ss: seq<Slot>, n: nat)
    requires Sane(ss)
    ensures Sane(Account(ss, n)) && (NoneEmpty(ss) ==> NoneEmpty(Account(ss, n)))
    decreases |ss|
  {
    if ss != [] && n > 0 && n >= |Left(ss[0])| {
      AccountKeeps(ss[1..], n - |Left(ss[0])|);
    }
  }

  lemma {:induction false} AccountPending(ss: seq<Slot>, n: nat)
    requires Pending(ss)
    ensures Pending(Account(ss, n))
    decreases |ss|
  {
    if ss != [] && n > 0 && n >= |Left(ss[0])| {
      AccountPending(ss[1..], n - |Left(ss[0])|);
    }
  }

  // ---------------------------------------------------------------- the loop

  /** The loop stops without error: no bucket, or one without data, comes first. */
  predicate Halts(ss: seq<Slot>) {
    ss == [] || ss[0].data == []
  }

  /** The chain after the calls that sent `results` bytes each, if they can have been made in a row. */
  function Sent(ss: seq<Slot>, results: seq<nat>): (r: Option<seq<Slot>>)
    decreases |results|
  {
    if results == [] then Some(ss)
    else if !(1 <= results[0] <= Offered(ss)) then None
    else if Halts(Account(ss, results[0])) && |results| > 1 then None
    else Sent(Account(ss, results[0]), results[1..])
  }

  lemma WindowStep(ss: seq<Slot>, k: nat, room: nat)
    requires k < |ss| && room > 0
    ensures Window(ss[k..], room) == 1 + Window(ss[k + 1..], if ss[k].data == [] then room else room - 1)
  {
    assert ss[k..][1..] == ss[k + 1..];
  }

  /** The vector after the first `k` buckets. */
  ghost predicate Gathered(ss: seq<Slot>, k: nat, vec: seq<seq<Byte>>)
    requires k <= |ss|
  {
    && |vec| <= MAX_IOVEC && Concat(vec) == Unsent(ss[..k])
    && Window(ss, MAX_IOVEC) == k + Window(ss[k..], MAX_IOVEC - |vec|)
  }

  lemma GatherStep(ss: seq<Slot>, k: nat, vec: seq<seq<Byte>>)
    requires k < |ss| && Gathered(ss, k, vec) && |vec| < MAX_IOVEC && ss[k].sent <= |ss[k].data|
    ensures Gathered(ss, k + 1, if ss[k].data == [] then vec else vec + [Left(ss[k])])
    ensures Concat(vec + [Left(ss[k])]) == Concat(vec) + Left(ss[k])
  {
    ConcatSnoc(vec, Left(ss[k]));
    UnsentSnoc(ss, k);
    WindowStep(ss, k, MAX_IOVEC - |vec|);
    assert ss[k].data == [] ==> Unsent(ss[..k + 1]) == Concat(vec) by {
      assert ss[k].data == [] ==> Left(ss[k]) == [];
    }
  }

  /** Adds the buckets with data to the I/O vector, as many as fit. */
  method Gather(head: Bucket?, ghost bs: seq<Bucket>) returns (vec: seq<seq<Byte>>, toSend: nat)
    requires Chain(head, bs) && Sane(Slots(bs))
    ensures Concat(vec) == Unsent(Slots(bs)[..Window(Slots(bs), MAX_IOVEC)])
    ensures |vec| <= MAX_IOVEC && toSend == Offered(Slots(bs))
    ensures var k := Window(Slots(bs), MAX_IOVEC);
            CountData(Slots(bs)[..k]) <= 32 && (k == |bs| || CountData(Slots(bs)[..k]) == 32)
  {
    WindowExactly(Slots(bs), MAX_IOVEC);
    vec, toSend := [], 0;
    var current := head;
    ghost var ss, k := Slots(bs), 0;
    assert ss[0..] == ss;
    while current != null && |vec| < MAX_IOVEC
      invariant 0 <= k <= |bs| && current == At(bs, k, null)
      invariant Gathered(ss, k, vec) && toSend == |Concat(vec)|
      decreases |bs| - k
    {
      GatherStep(ss, k, vec);
      if |current.data| > 0 {
        vec := vec + [current.data[current.bytesSent..]];
        toSend := toSend + (|current.data| - current.bytesSent);
      }
      current := current.next;
      k := k + 1;
    }
  }

  lemma AccountStep(ss: seq<Slot>, k: nat, n: nat)
    requires k < |ss| && n > 0 && |Left(ss[k])| <= n
    ensures Account(ss[k..], n) == Account(ss[k + 1..], n - |Left(ss[k])|)
  {
    assert ss[k..][1..] == ss[k + 1..];
  }

  /** The chain with some buckets gone and the next perhaps partly sent. */
  ghost predicate Accounted(current: Bucket?, rest: seq<Bucket>, bs: seq<Bucket>, ss: seq<Slot>)
    reads rest
  {
    Suffix(rest, bs) && Chain(current, rest) && Slots(rest) == ss
  }

  method Remaining(b: Bucket, ghost bs: seq<Bucket>, ghost k: nat) returns (n: nat)
    requires k < |bs| && b == bs[k] && Sane(Slots(bs))
    ensures n == |Left(Slots(bs)[k])| && n == |b.data| - b.bytesSent
  {
    assert Slots(bs)[k] == Slot(b.data, b.bytesSent);
    n := |b.data| - b.bytesSent;
  }

  /** The chain without its first `k` buckets, after `n` bytes of the others. */
  function From(ss: seq<Slot>, k: nat, n: nat): (r: seq<Slot>)
    requires k <= |ss|
  {
    Account(ss[k..], n)
  }

  /** Lets go of one bucket. */
  method DropOne(b: Bucket, remain: nat, more: nat, ghost head: Bucket?, ghost bs: seq<Bucket>, ghost ss: seq<Slot>,
                 ghost k: nat)
    returns (next: Bucket?, left: nat)
    requires Chain(head, bs) && |ss| == |bs| && k < |bs| && b == bs[k] && 0 < more && |Left(ss[k])| == remain <= more
    ensures next == At(bs, k + 1, null) && From(ss, k, more) == From(ss, k + 1, left)
  {
    AccountStep(ss, k, more);
    Follow(head, bs, k);
    left := more - remain;
    next := b.next;
  }

  /** Lets go of the buckets that `sent` bytes cover; `more` bytes are left for the next. */
  method DropSent(head: Bucket?, sent: nat, ghost bs: seq<Bucket>)
    returns (current: Bucket?, more: nat, ghost k: nat)
    requires Chain(head, bs) && Sane(Slots(bs))
    ensures k <= |bs| && current == At(bs, k, null)
    ensures Account(Slots(bs), sent) == From(Slots(bs), k, more)
    ensures current == null || more == 0 || more < |Left(Slots(bs)[k])|
  {
    current, more, k := head, sent, 0;
    ghost var ss := Slots(bs);
    assert ss[0..] == ss;
    while current != null && more > 0
      invariant 0 <= k <= |bs| && current == At(bs, k, null)
      invariant From(ss, 0, sent) == From(ss, k, more)
      decreases |bs| - k
    {
      var remain := Remaining(current, bs, k);
      if more < remain {
        return;
      }
      current, more := DropOne(current, remain, more, head, bs, ss, k);
      k := k + 1;
    }
  }

  /** Takes `sent` bytes off the chain. */
  method AccountFor(head: Bucket?, sent: nat, ghost bs: seq<Bucket>, ghost own: set<Bucket>)
    returns (current: Bucket?, ghost rest: seq<Bucket>)
    requires Chain(head, bs) && Sane(Slots(bs)) && Owned(bs, own)
    modifies own
    ensures Accounted(current, rest, bs, Account(old(Slots(bs)), sent))
  {
    ghost var ss, k := Slots(bs), 0;
    var more;
    current, more, k := DropSent(head, sent, bs);
    rest := bs[k..];
    SuffixChain(bs, k);
    if current != null && more > 0 {
      current.bytesSent := current.bytesSent + more;
      PartlySent(bs, ss, k, more);
    } else {
      assert Slots(rest) == ss[k..];
    }
  }

  lemma PartlySent(bs: seq<Bucket>, ss: seq<Slot>, k: nat, n: nat)
    requires |ss| == |bs| && k < |bs| && 0 < n < |Left(ss[k])|
    requires forall i :: k < i < |bs| ==> Slot(bs[i].data, bs[i].bytesSent) == ss[i]
    requires Slot(bs[k].data, bs[k].bytesSent) == Slot(ss[k].data, ss[k].sent + n)
    ensures Slots(bs[k..]) == Account(ss[k..], n)
  {
    assert ss[k..][0] == ss[k];
    assert Slots(bs[k..]) == [Slot(ss[k].data, ss[k].sent + n)] + ss[k..][1..];
  }

  lemma SuffixOfSuffix(xs: seq<Bucket>, ys: seq<Bucket>, zs: seq<Bucket>)
    requires Suffix(xs, ys) && Suffix(ys, zs)
    ensures Suffix(xs, zs)
  {
  }

  /** After sending `results` bytes, call by call, `ss` has become `mid` and `wire0` has become `wire`. */
  ghost predicate Progress(ss: seq<Slot>, wire0: seq<Byte>, mid: seq<Slot>, wire: seq<Byte>, results: seq<nat>) {
    && wire + Unsent(mid) == wire0 + Unsent(ss)
    && Sent(ss, results) == Some(mid)
    && Sane(mid) && (NoneEmpty(ss) ==> NoneEmpty(mid)) && (Pending(ss) ==> Pending(mid))
  }

  lemma ProgressStep(ss: seq<Slot>, wire0: seq<Byte>, mid: seq<Slot>, wire: seq<Byte>, results: seq<nat>, n: nat)
    requires Progress(ss, wire0, mid, wire, results) && (results != [] ==> !Halts(mid)) && 1 <= n <= Offered(mid)
    ensures n <= |Unsent(mid)| && |Unsent(Account(mid, n))| < |Unsent(mid)|
    ensures Progress(ss, wire0, Account(mid, n), wire + Unsent(mid)[..n], results + [n])
  {
    OfferedIsPrefix(mid);
    AccountConserves(mid, n);
    AccountKeeps(mid, n);
    if Pending(mid) { AccountPending(mid, n); }
    SentSnoc(ss, results, n, mid);
    assert Unsent(mid) == Unsent(mid)[..n] + Unsent(mid)[n..];
  }

  /** One call of sendmsg put `n` of the chain's unsent bytes on the wire, or failed. */
  ghost predicate Attempted(ss: seq<Slot>, wire0: seq<Byte>, n: nat, status: Status, errno: Status, wire: seq<Byte>) {
    && n <= Offered(ss) <= |Unsent(ss)| && wire == wire0 + Unsent(ss)[..n]
    && (status == OKAY <==> n > 0) && (n == 0 ==> wire == wire0)
    && (status != OKAY ==> status == if Offered(ss) == 0 then EBADMSG else errno)
  }

  lemma NothingSent(ss: seq<Slot>, wire: seq<Byte>, status: Status, errno: Status)
    requires status != OKAY && status == if Offered(ss) == 0 then EBADMSG else errno
    ensures Attempted(ss, wire, 0, status, errno, wire) && Account(ss, 0) == ss
  {
    OfferedIsPrefix(ss);
  }

  lemma SomeSent(ss: seq<Slot>, wire: seq<Byte>, n: nat, errno: Status)
    requires 1 <= n <= Offered(ss)
    ensures Attempted(ss, wire, n, OKAY, errno, wire + Unsent(ss[..Window(ss, MAX_IOVEC)])[..n])
  {
    OfferedIsPrefix(ss);
    assert Unsent(ss)[..Offered(ss)][..n] == Unsent(ss)[..n];
  }

  lemma NothingTaken(head: Bucket?, bs: seq<Bucket>, ss: seq<Slot>)
    requires Chain(head, bs) && Slots(bs) == ss
    ensures Accounted(head, bs, bs, Account(ss, 0))
  {
  }

  /** One call of sendmsg and its accounting. */
  method SendOnce(sock: Socket, headP: Bucket?, ghost bs: seq<Bucket>, ghost own: set<Bucket>)
    returns (head: Bucket?, status: Status, ghost rest: seq<Bucket>, ghost n: nat)
    requires Chain(headP, bs) && Sane(Slots(bs)) && Owned(bs, own)
    modifies sock, own
    ensures Accounted(head, rest, bs, Account(old(Slots(bs)), n))
    ensures Attempted(old(Slots(bs)), old(sock.wire), n, status, sock.errno, sock.wire)
  {
    head, rest, n := headP, bs, 0;
    ghost var ss, wire := Slots(bs), sock.wire;
    var vec, toSend := Gather(head, bs);
    if toSend == 0 {
      NothingSent(ss, wire, EBADMSG, sock.errno);
      NothingTaken(head, bs, ss);
      return head, EBADMSG, rest, n;
    }
    var sent := sock.SendMsg(vec);
    if sent < 0 {
      NothingSent(ss, wire, sock.errno, sock.errno);
      NothingTaken(head, bs, ss);
      return head, sock.errno, rest, n;
    }
    n := sent;
    SomeSent(ss, wire, n, sock.errno);
    assert Slots(bs) == ss;
    head, rest := AccountFor(head, sent, bs, own);
    status := OKAY;
  }

  /** ymo_net_send_buckets. Whatever the socket does, no byte is lost or sent twice; without error,
      everything has been sent, unless a bucket without data is in the way. */
  method SendBuckets(sock: Socket, headP: Bucket?, ghost bs: seq<Bucket>, ghost own: set<Bucket>)
    returns (head: Bucket?, status: Status, ghost rest: seq<Bucket>, ghost results: seq<nat>)
    requires Chain(headP, bs) && Sane(Slots(bs)) && Owned(bs, own)
    modifies sock, own
    ensures Chain(head, rest) && Suffix(rest, bs) && Owned(rest, own)
    ensures Progress(old(Slots(bs)), old(sock.wire), Slots(rest), sock.wire, results)
    ensures status == OKAY ==> results != [] && Halts(Slots(rest))
    ensures status != OKAY ==> results == [] || !Halts(Slots(rest))
    ensures status == OKAY && old(NoneEmpty(Slots(bs))) ==> head == null && rest == []
    ensures status != OKAY ==> status == if Offered(Slots(rest)) == 0 then EBADMSG else sock.errno
  {
    head, rest, results := headP, bs, [];
    ghost var ss, wire := Slots(bs), sock.wire;
    while true
      invariant Chain(head, rest) && Suffix(rest, bs) && Owned(rest, own)
      invariant Progress(ss, wire, Slots(rest), sock.wire, results)
      invariant results != [] ==> !Halts(Slots(rest))
      decreases |Unsent(Slots(rest))|
    {
      ghost var mid, before, wired := Slots(rest), rest, sock.wire;
      ghost var n;
      head, status, rest, n := SendOnce(sock, head, rest, own);
      SuffixOfSuffix(rest, before, bs);
      SuffixOwned(rest, before, own);
      if status != OKAY {
        return;
      }
      ProgressStep(ss, wire, mid, wired, results, n);
      results := results + [n];
      if head == null || |head.data| == 0 {
        return;
      }
    }
  }

  lemma OfferedIsPrefix(ss: seq<Slot>)
    ensures Offered(ss) <= |Unsent(ss)|
    ensures Unsent(ss[..Window(ss, MAX_IOVEC)]) == Unsent(ss)[..Offered(ss)]
  {
    var k := Window(ss, MAX_IOVEC);
    assert ss == ss[..k] + ss[k..];
    UnsentSplit(ss[..k], ss[k..]);
  }

  lemma {:induction false} SentSnoc(ss: seq<Slot>, results: seq<nat>, n: nat, mid: seq<Slot>)
    requires Sent(ss, results) == Some(mid) && (results != [] ==> !Halts(mid)) && 1 <= n <= Offered(mid)
    ensures Sent(ss, results + [n]) == Some(Account(mid, n))
    decreases |results|
  {
    if results == [] {
      assert ([] + [n])[1..] == [];
    } else {
      assert (results + [n])[1..] == results[1..] + [n];
      SentSnoc(Account(ss, results[0]), results[1..], n, mid);
    }
  }

  // ---------------------------------------------------------------- the books of a queue

  /** What is on the wire and what is still in the chain make up what has been queued. */
  ghost predicate Books(wire: seq<Byte>, ss: seq<Slot>, queued: seq<Byte>) {
    wire + Unsent(ss) == queued && Sane(ss)
  }

  /** The chain is well linked and its books are kept. */
  ghost predicate Holds(head: Bucket?, bs: seq<Bucket>, own: set<Bucket>, sock: Socket, queued: seq<Byte>)
    reads sock, bs
  {
    Chain(head, bs) && Owned(bs, own) && Books(sock.wire, Slots(bs), queued)
  }

  lemma ProgressBooks(ss: seq<Slot>, wire0: seq<Byte>, mid: seq<Slot>, wire: seq<Byte>, results: seq<nat>,
      queued: seq<Byte>)
    requires Progress(ss, wire0, mid, wire, results) && Books(wire0, ss, queued)
    ensures Books(wire, mid, queued) && (NoneEmpty(ss) ==> NoneEmpty(mid)) && (results == [] ==> mid == ss)
    ensures Pending(ss) ==> Pending(mid)
  {
  }

  lemma SuffixLast(rest: seq<Bucket>, bs: seq<Bucket>)
    requires Suffix(rest, bs) && rest != []
    ensures Last(rest) == Last(bs)
  {
  }

  /** ymo_conn_send_buckets, without TLS. */
  method ConnSendBuckets(sock: Socket, headP: Bucket?, ghost bs: seq<Bucket>, ghost own: set<Bucket>,
      ghost queued: seq<Byte>)
    returns (head: Bucket?, status: Status, ghost rest: seq<Bucket>)
    requires Holds(headP, bs, own, sock, queued)
    modifies sock, own
    ensures Holds(head, rest, own, sock, queued)
    ensures if bs == [] then status == EBADMSG && rest == []
            else status != OKAY ==> rest != [] && Last(rest) == Last(bs)
    ensures old(NoneEmpty(Slots(bs))) ==> NoneEmpty(Slots(rest)) && (status == OKAY ==> rest == [])
    ensures old(Pending(Slots(bs))) ==> Pending(Slots(rest)) && (status == OKAY || bs == [] || status == sock.errno)
  {
    ghost var results;
    head, status, rest, results := SendBuckets(sock, headP, bs, own);
    ProgressBooks(old(Slots(bs)), old(sock.wire), Slots(rest), sock.wire, results, queued);
    if Pending(Slots(rest)) { PendingOffered(Slots(rest)); }
    if bs == [] {
      assert rest == [] && Offered([]) == 0;
    } else if status != OKAY {
      assert |Slots(rest)| == |rest| && (results == [] ==> |rest| == |bs|);
      SuffixLast(rest, bs);
    }
  }

  // ---------------------------------------------------------------- when something can be sent

  /** Some run of calls sends the whole chain. */
  ghost predicate CanSend(ss: seq<Slot>) {
    exists results :: SendsAll(ss, results)
  }

  predicate SendsAll(ss: seq<Slot>, results: seq<nat>) {
    results != [] && Sent(ss, results) == Some([])
  }

  lemma PendingOffered(ss: seq<Slot>)
    requires Pending(ss)
    ensures Offered(ss) == 0 <==> ss == []
  {
    if ss != [] {
      WindowCons(ss);
      UnsentCons(ss[0], ss[1..][..Window(ss[1..], MAX_IOVEC - 1)]);
    }
  }

  /** Byte by byte, all of a chain can be sent. */
  lemma {:induction false} SendByBytes(ss: seq<Slot>) returns (results: seq<nat>)
    requires Pending(ss) && ss != []
    ensures SendsAll(ss, results)
    decreases |Unsent(ss)|
  {
    PendingOffered(ss);
    OfferedIsPrefix(ss);
    AccountConserves(ss, 1);
    AccountPending(ss, 1);
    var r := Account(ss, 1);
    if r == [] {
      results := [1];
      assert results[1..] == [];
    } else {
      var more := SendByBytes(r);
      results := [1] + more;
      assert results[1..] == more;
    }
  }

  /** If every bucket has bytes left, the loop can end without error exactly if there is a bucket. */
  lemma SendableExactly(ss: seq<Slot>)
    requires Pending(ss)
    ensures CanSend(ss) <==> ss != []
  {
    if ss != [] {
      var results := SendByBytes(ss);
    } else {
      assert Offered(ss) == 0;
    }
  }

  // ---------------------------------------------------------------- when everything is sent

  /** Some run of calls ends without error and with bytes unsent. */
  ghost predicate CanStrand(ss: seq<Slot>) {
    exists results :: Strands(ss, results)
  }

  predicate Strands(ss: seq<Slot>, results: seq<nat>) {
    results != [] && Sent(ss, results).Some? && Halts(Sent(ss, results).value) && Unsent(Sent(ss, results).value) != []
  }

  /** A bucket without data has bytes both before and after it. */
  ghost predicate Gap(ss: seq<Slot>) {
    exists i :: GapAt(ss, i)
  }

  predicate GapAt(ss: seq<Slot>, i: nat) {
    0 < i < |ss| && ss[i].data == [] && Unsent(ss[..i]) != [] && Unsent(ss[i..]) != []
  }

  lemma UnsentAt(ss: seq<Slot>, i: nat)
    requires i <= |ss|
    ensures Unsent(ss) == Unsent(ss[..i]) + Unsent(ss[i..])
  {
    assert ss == ss[..i] + ss[i..];
    UnsentSplit(ss[..i], ss[i..]);
  }

  /** Where accounting stops: the chain from there on is the same but for its first bucket. */
  lemma {:induction false} AccountTail(ss: seq<Slot>, n: nat) returns (j: nat)
    ensures j + |Account(ss, n)| == |ss|
    ensures j < |ss| ==> Account(ss, n)[1..] == ss[j + 1..] && Account(ss, n)[0].data == ss[j].data
    decreases |ss|
  {
    if ss == [] || n == 0 || n < |Left(ss[0])| {
      j := 0;
    } else {
      var i := AccountTail(ss[1..], n - |Left(ss[0])|);
      j := i + 1;
    }
  }

  lemma UnsentFront(ss: seq<Slot>, i: nat)
    requires i < |ss|
    ensures Unsent(ss[..i + 1]) == Left(ss[0]) + Unsent(ss[1..][..i])
  {
    assert ss[..i + 1][0] == ss[0] && ss[..i + 1][1..] == ss[1..][..i];
  }

  /** Accounting stops in the middle of a bucket, or between two, the first of which had bytes. */
  ghost predicate StopsAt(ss: seq<Slot>, n: nat, j: nat) {
    && j <= |ss|
    && if Account(ss, n) == ss[j..] then 0 < j && |Unsent(ss[..j])| == n && Left(ss[j - 1]) != []
       else
         j < |ss| && ss[j].data != [] && |Unsent(ss[..j])| < n
         && |Account(ss, n)| == |ss| - j && Left(Account(ss, n)[0]) != []
  }

  lemma {:induction false} AccountAt(ss: seq<Slot>, n: nat) returns (j: nat)
    requires 0 < n <= |Unsent(ss)|
    ensures StopsAt(ss, n, j) && j + |Account(ss, n)| == |ss|
    decreases |ss|
  {
    var left := |Left(ss[0])|;
    if n < left {
      j := 0;
    } else if n == left {
      j := 1;
      UnsentFront(ss, 0);
    } else {
      var i := AccountAt(ss[1..], n - left);
      j := i + 1;
      UnsentFront(ss, i);
      assert ss[1..][i..] == ss[j..];
    }
  }

  /** A call that stops the loop with bytes unsent has come to a gap. */
  lemma HaltsAtGap(ss: seq<Slot>, n: nat)
    requires 0 < n <= |Unsent(ss)| && Halts(Account(ss, n)) && Unsent(Account(ss, n)) != []
    ensures Gap(ss)
  {
    var j := AccountAt(ss, n);
    assert Account(ss, n) == ss[j..] && ss[j].data == [];
    assert GapAt(ss, j);
  }

  lemma TailsAgree(xs: seq<Slot>, ys: seq<Slot>, i: nat, j: nat)
    requires |xs| == |ys| - j && 0 < i < |xs| && xs[1..] == ys[j + 1..]
    ensures xs[i] == ys[j + i] && xs[i..] == ys[j + i..]
  {
    assert xs[i] == xs[1..][i - 1] == ys[j + 1..][i - 1];
    assert xs[i..] == xs[1..][i - 1..] == ys[j + 1..][i - 1..];
  }

  lemma SomeBefore(xs: seq<Slot>, ys: seq<Slot>, k: nat, i: nat)
    requires k <= |xs| && i <= |ys| && xs[k..] == ys[i..] && |Unsent(xs)| > |Unsent(ys)|
    ensures Unsent(xs[..k]) != []
  {
    UnsentAt(xs, k);
    UnsentAt(ys, i);
  }

  lemma GapUnshift(ss: seq<Slot>, k: nat, r: seq<Slot>, i: nat)
    requires GapAt(r, i) && 0 < k < |ss| && ss[k] == r[i] && ss[k..] == r[i..] && |Unsent(ss)| > |Unsent(r)|
    ensures GapAt(ss, k)
  {
    SomeBefore(ss, r, k, i);
  }

  /** A gap that is there after a call was there before it. */
  lemma GapBefore(ss: seq<Slot>, n: nat, i: nat)
    requires 0 < n <= |Unsent(ss)| && GapAt(Account(ss, n), i)
    ensures Gap(ss)
  {
    AccountConserves(ss, n);
    var j := AccountTail(ss, n);
    TailsAgree(Account(ss, n), ss, i, j);
    GapUnshift(ss, j + i, Account(ss, n), i);
  }

  lemma {:induction false} StrandsAtGap(ss: seq<Slot>, results: seq<nat>)
    requires Strands(ss, results)
    ensures Gap(ss)
    decreases |results|
  {
    OfferedIsPrefix(ss);
    if |results| == 1 {
      assert results[1..] == [] && Sent(Account(ss, results[0]), []) == Some(Account(ss, results[0]));
      HaltsAtGap(ss, results[0]);
    } else {
      StrandsAtGap(Account(ss, results[0]), results[1..]);
      var i: nat :| GapAt(Account(ss, results[0]), i);
      GapBefore(ss, results[0], i);
    }
  }

  /** Only the first bucket may have been sent in part. */
  ghost predicate Tight(ss: seq<Slot>) {
    forall i :: 0 < i < |ss| ==> ss[i].sent == 0
  }

  lemma {:induction false} WindowReaches(ss: seq<Slot>, room: nat)
    requires room > 0 && Untouched(ss) && Unsent(ss) != []
    ensures Unsent(ss[..Window(ss, room)]) != []
    decreases |ss|
  {
    var k := Window(ss, room);
    assert ss[..k][0] == ss[0];
    if ss[0].data == [] {
      WindowReaches(ss[1..], room);
      assert ss[..k][1..] == ss[1..][..k - 1];
    }
  }

  lemma WindowCons(ss: seq<Slot>)
    requires ss != []
    ensures ss[..Window(ss, MAX_IOVEC)] ==
              [ss[0]] + ss[1..][..Window(ss[1..], if ss[0].data == [] then MAX_IOVEC else MAX_IOVEC - 1)]
  {
  }

  lemma SomeOffered(ss: seq<Slot>)
    requires Tight(ss) && Unsent(ss) != []
    ensures Offered(ss) >= 1
  {
    var room := if ss[0].data == [] then MAX_IOVEC else MAX_IOVEC - 1;
    WindowCons(ss);
    UnsentCons(ss[0], ss[1..][..Window(ss[1..], room)]);
    if Left(ss[0]) == [] {
      WindowReaches(ss[1..], room);
    }
  }

  lemma UnsentMonotone(ss: seq<Slot>, i: nat, j: nat)
    requires i <= j <= |ss|
    ensures |Unsent(ss[..i])| <= |Unsent(ss[..j])|
  {
    assert ss[..j] == ss[..i] + ss[i..j];
    UnsentSplit(ss[..i], ss[i..j]);
  }

  /** One byte is taken off before the gap. */
  lemma ByteBeforeGap(ss: seq<Slot>, i: nat, j: nat)
    requires Tight(ss) && GapAt(ss, i) && !Halts(Account(ss, 1)) && StopsAt(ss, 1, j)
    ensures j < i && (Account(ss, 1) != [] ==> Left(Account(ss, 1)[0]) != [])
  {
    if i <= j {
      UnsentMonotone(ss, i, j);
      if i < j {
        UnsentMonotone(ss, i, j - 1);
        UnsentSnoc(ss, j - 1);
      }
      assert false;
    }
  }

  lemma TightTail(ss: seq<Slot>, r: seq<Slot>, j: nat)
    requires Tight(ss) && |r| == |ss| - j && (r != [] ==> r[1..] == ss[j + 1..])
    ensures Tight(r)
  {
    forall x | 0 < x < |r|
      ensures r[x].sent == 0
    {
      TailsAgree(r, ss, x, j);
    }
  }

  /** A gap is seen from a later bucket of the chain, if that has bytes of its own. */
  lemma GapShift(ss: seq<Slot>, r: seq<Slot>, i: nat, j: nat)
    requires GapAt(ss, i) && Tight(ss) && j < i && |r| == |ss| - j && r[1..] == ss[j + 1..] && Left(r[0]) != []
    ensures GapAt(r, i - j) && Tight(r)
  {
    TightTail(ss, r, j);
    TailsAgree(r, ss, i - j, j);
    FirstLeft(r, i - j);
  }

  lemma FirstLeft(r: seq<Slot>, k: nat)
    requires 0 < k <= |r| && Left(r[0]) != []
    ensures Unsent(r[..k]) != []
  {
    assert r[..k][0] == r[0];
  }

  /** Taking one byte off a chain with a gap keeps the gap, unless it stops the loop. */
  lemma GapAfterByte(ss: seq<Slot>, i: nat) returns (i': nat)
    requires Tight(ss) && GapAt(ss, i) && !Halts(Account(ss, 1))
    ensures GapAt(Account(ss, 1), i') && Tight(Account(ss, 1))
  {
    var j := ByteTaken(ss, i);
    GapShift(ss, Account(ss, 1), i, j);
    i' := i - j;
  }

  lemma ByteTaken(ss: seq<Slot>, i: nat) returns (j: nat)
    requires Tight(ss) && GapAt(ss, i) && !Halts(Account(ss, 1))
    ensures var r := Account(ss, 1);
            j < i && |r| == |ss| - j && r != [] && r[1..] == ss[j + 1..] && Left(r[0]) != []
  {
    UnsentAt(ss, i);
    var k := AccountTail(ss, 1);
    j := AccountAt(ss, 1);
    ByteBeforeGap(ss, i, j);
  }

  /** Byte by byte, a chain with a gap can be made to strand what comes after it. */
  lemma {:induction false} GapStrands(ss: seq<Slot>, i: nat) returns (results: seq<nat>)
    requires Tight(ss) && GapAt(ss, i)
    ensures Strands(ss, results)
    decreases |Unsent(ss)|
  {
    UnsentAt(ss, i);
    SomeOffered(ss);
    AccountConserves(ss, 1);
    if Halts(Account(ss, 1)) {
      results := [1];
    } else {
      var i' := GapAfterByte(ss, i);
      var more := GapStrands(Account(ss, 1), i');
      results := [1] + more;
      assert results[1..] == more;
    }
  }

  /** OKAY means that everything has been sent, for all a socket may do, exactly if no bucket without
      data has bytes both before and after it. */
  lemma StrandsExactlyAtGaps(ss: seq<Slot>)
    requires Tight(ss)
    ensures CanStrand(ss) <==> Gap(ss)
  {
    if CanStrand(ss) {
      var results :| Strands(ss, results);
      StrandsAtGap(ss, results);
    }
    if Gap(ss) {
      var i: nat :| GapAt(ss, i);
      var results := GapStrands(ss, i);
    }
  }
}
