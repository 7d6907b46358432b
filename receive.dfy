/**
 * The receive-accumulation loop of `bench_worker`: `recv` is called into the
 * buffer at offset `recvlen` until a call returns 0 or the accumulated length
 * reaches the length of the sent message.
 */
module Receive {
  import opened Config

  /** The bytes of successive `recv` results, concatenated in order. */
  function Flatten(chunks: seq<seq<Byte>>): seq<Byte>
  {
    if |chunks| == 0 then [] else Flatten(chunks[..|chunks| - 1]) + chunks[|chunks| - 1]
  }

  lemma FlattenSnoc(chunks: seq<seq<Byte>>, k: nat)
    requires k < |chunks|
    ensures Flatten(chunks[..k + 1]) == Flatten(chunks[..k]) + chunks[k]
  {
    assert chunks[..k + 1][..k] == chunks[..k];
  }

  /** Reading fewer chunks yields a prefix of the bytes of reading more. */
  lemma {:induction false} FlattenPrefix(chunks: seq<seq<Byte>>, i: nat, j: nat)
    requires i <= j <= |chunks|
    ensures Flatten(chunks[..i]) <= Flatten(chunks[..j])
  {
    if i < j {
      FlattenPrefix(chunks, i, j - 1);
      FlattenSnoc(chunks, j - 1);
    }
  }

  /** How the loop ended: how many `recv` results it added, and whether the last call returned 0. */
  datatype RecvEnd = RecvEnd(taken: nat, closed: bool)

  /**
   * The loop from its `k`-th `recv` call on, with `recvlen` bytes accumulated.
   * The `k`-th call returns `chunks[k]`; once the chunks are used up, `recv`
   * returns 0 (the peer has closed the connection).
   */
  function Drain(chunks: seq<seq<Byte>>, reqlen: int, k: nat, recvlen: int): (e: RecvEnd)
    requires k <= |chunks|
    ensures k <= e.taken <= |chunks|
    ensures !e.closed ==> k < e.taken
    decreases |chunks| - k
  {
    if k == |chunks| || |chunks[k]| == 0 then RecvEnd(k, true)
    else if recvlen + |chunks[k]| < reqlen then Drain(chunks, reqlen, k + 1, recvlen + |chunks[k]|)
    else RecvEnd(k + 1, false)
  }

  /** The loop's outcome from the start: no call made, nothing accumulated. */
  function RecvOutcome(chunks: seq<seq<Byte>>, reqlen: int): RecvEnd
  {
    Drain(chunks, reqlen, 0, 0)
  }

  /** The bytes the loop accumulates. */
  function Received(chunks: seq<seq<Byte>>, reqlen: int): seq<Byte>
  {
    Flatten(chunks[..RecvOutcome(chunks, reqlen).taken])
  }

  /**
   * Every `recv` of the loop writes within a buffer of `capacity` bytes. The
   * code passes the full buffer size as the capacity at offset `recvlen`, so
   * this is an assumption about the peer, not something the code ensures.
   */
  predicate FitsBuffer(chunks: seq<seq<Byte>>, reqlen: int, capacity: nat)
  {
    |Received(chunks, reqlen)| <= capacity
  }

  /** The exit condition of the loop, from its `k`-th call on. */
  lemma {:induction false} DrainFrom(chunks: seq<seq<Byte>>, reqlen: int, k: nat)
    requires k <= |chunks|
    requires forall j :: 0 <= j < k ==> |chunks[j]| > 0
    requires forall j :: 0 < j <= k ==> |Flatten(chunks[..j])| < reqlen
    ensures var e := Drain(chunks, reqlen, k, |Flatten(chunks[..k])|);
      && (forall j :: 0 <= j < e.taken ==> |chunks[j]| > 0)
      && (forall j :: 0 < j < e.taken ==> |Flatten(chunks[..j])| < reqlen)
      && (e.closed ==> e.taken == |chunks| || |chunks[e.taken]| == 0)
      && (e.closed ==> e.taken == 0 || |Flatten(chunks[..e.taken])| < reqlen)
      && (!e.closed ==> |Flatten(chunks[..e.taken])| >= reqlen)
    decreases |chunks| - k
  {
    if k < |chunks| && |chunks[k]| > 0 {
      FlattenSnoc(chunks, k);
      if |Flatten(chunks[..k])| + |chunks[k]| < reqlen {
        DrainFrom(chunks, reqlen, k + 1);
      }
    }
  }

  /**
   * When the loop exits, either the last `recv` returned 0 and was not added, or
   * the accumulated length has reached the sent length; all added results were
   * non-empty, and no earlier total had reached the sent length.
   */
  lemma ReceiveExit(chunks: seq<seq<Byte>>, reqlen: int)
    ensures var e := RecvOutcome(chunks, reqlen);
      && e.taken <= |chunks|
      && (forall j :: 0 <= j < e.taken ==> |chunks[j]| > 0)
      && (forall j :: 0 < j < e.taken ==> |Flatten(chunks[..j])| < reqlen)
      && (e.closed ==> e.taken == |chunks| || |chunks[e.taken]| == 0)
      && (e.closed ==> e.taken == 0 || |Received(chunks, reqlen)| < reqlen)
      && (!e.closed ==> e.taken > 0 && |Received(chunks, reqlen)| >= reqlen)
  {
    DrainFrom(chunks, reqlen, 0);
  }

  /** What `recv` writes: `data` copied into `buf` at offset `off`. */
  method RecvInto(buf: array<Byte>, off: nat, data: seq<Byte>)
    requires off + |data| <= buf.Length
    modifies buf
    ensures buf[..] == old(buf[..])[..off] + data + old(buf[..])[off + |data|..]
  {
    for i := 0 to |data|
      invariant forall j :: 0 <= j < off ==> buf[j] == old(buf[j])
      invariant forall j :: 0 <= j < i ==> buf[off + j] == data[j]
      invariant forall j :: off + i <= j < buf.Length ==> buf[j] == old(buf[j])
    {
      buf[off + i] := data[i];
    }
    assert buf[..] == old(buf[..])[..off] + data + old(buf[..])[off + |data|..];
  }

  /**
   * One non-empty `recv` result of the loop: it extends the accumulated bytes,
   * fits the buffer, and either resumes the loop or ends it.
   */
  lemma ReceiveStep(chunks: seq<seq<Byte>>, reqlen: int, taken: nat, capacity: nat)
    requires taken < |chunks| && |chunks[taken]| > 0
    requires Drain(chunks, reqlen, taken, |Flatten(chunks[..taken])|) == RecvOutcome(chunks, reqlen)
    requires FitsBuffer(chunks, reqlen, capacity)
    ensures Flatten(chunks[..taken + 1]) == Flatten(chunks[..taken]) + chunks[taken]
    ensures |Flatten(chunks[..taken + 1])| <= capacity
    ensures |Flatten(chunks[..taken + 1])| < reqlen ==>
      Drain(chunks, reqlen, taken + 1, |Flatten(chunks[..taken + 1])|) == RecvOutcome(chunks, reqlen)
    ensures |Flatten(chunks[..taken + 1])| >= reqlen ==> RecvOutcome(chunks, reqlen) == RecvEnd(taken + 1, false)
  {
    FlattenSnoc(chunks, taken);
    FlattenPrefix(chunks, taken + 1, RecvOutcome(chunks, reqlen).taken);
  }

  /**
   * One `recv` of the loop into `recstr + recvlen`: over a buffer that held the
   * bytes of the first `taken` results followed by the rest of `stale`, it
   * leaves the bytes of the first `taken + 1` results followed by the rest of
   * `stale`.
   */
  method RecvNext(recstr: array<Byte>, chunks: seq<seq<Byte>>, taken: nat, ghost stale: seq<Byte>)
    requires taken < |chunks| && |Flatten(chunks[..taken + 1])| <= recstr.Length == |stale|
    requires Flatten(chunks[..taken + 1]) == Flatten(chunks[..taken]) + chunks[taken]
    requires recstr[..] == Flatten(chunks[..taken]) + stale[|Flatten(chunks[..taken])|..]
    modifies recstr
    ensures recstr[..] == Flatten(chunks[..taken + 1]) + stale[|Flatten(chunks[..taken + 1])|..]
  {
    var f, d := Flatten(chunks[..taken]), chunks[taken];
    ghost var before := recstr[..];
    RecvInto(recstr, |f|, d);
    assert before[..|f|] == f;
    assert before[|f| + |d|..] == stale[|f| + |d|..];
  }

  /**
   * The loop itself, writing each result into `recstr` at offset `recvlen`.
   * Returns the accumulated length and how the loop ended.
   */
  method ReceiveLoop(recstr: array<Byte>, chunks: seq<seq<Byte>>, reqlen: int)
      returns (recvlen: nat, taken: nat, closed: bool)
    requires FitsBuffer(chunks, reqlen, recstr.Length)
    modifies recstr
    ensures RecvEnd(taken, closed) == RecvOutcome(chunks, reqlen)
    ensures recvlen == |Received(chunks, reqlen)|
    ensures recstr[..] == Received(chunks, reqlen) + old(recstr[recvlen..])
  {
    recvlen, taken := 0, 0;
    ghost var stale := recstr[..];
    while true
      invariant taken <= |chunks|
      invariant Drain(chunks, reqlen, taken, recvlen) == RecvOutcome(chunks, reqlen)
      invariant recvlen == |Flatten(chunks[..taken])| <= recstr.Length
      invariant recstr[..] == Flatten(chunks[..taken]) + stale[recvlen..]
      decreases |chunks| - taken
    {
      var msglen: nat := if taken < |chunks| then |chunks[taken]| else 0;
      if msglen == 0 {
        closed := true;
        return;
      }
      ReceiveStep(chunks, reqlen, taken, recstr.Length);
      RecvNext(recstr, chunks, taken, stale);
      recvlen, taken := recvlen + msglen, taken + 1;
      if recvlen >= reqlen {
        closed := false;
        return;
      }
    }
  }
}
