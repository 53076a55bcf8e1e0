/** successWrite: writing a reply to a socket that may take only part of it, or nothing for a while. */
module SocketWrite {

  type Byte = b: int | 0 <= b < 256

  /** What one call of write() did.  A stream socket that takes something takes at least one byte;
      it never takes more than it was offered. */
  datatype Attempt = Wrote(n: nat) | WouldBlock | Broken

  /** The socket: the outcome of every attempt, in order. */
  type Socket = nat -> Attempt

  const MAX_WAITS: nat := 20

  ghost predicate Progresses(sock: Socket) {
    forall t: nat :: sock(t).Wrote? ==> sock(t).n > 0
  }

  function Taken(a: Attempt, offered: nat): (n: nat)
    ensures n <= offered
  {
    if a.Wrote? then (if a.n < offered then a.n else offered) else 0
  }

  /** Bytes of a text of length len that the socket has taken before attempt t: each attempt is
      offered all that is left. */
  ghost function Sent(sock: Socket, len: nat, t: nat): (n: nat)
    ensures n <= len
  {
    if t == 0 then 0 else Sent(sock, len, t - 1) + Taken(sock(t - 1), len - Sent(sock, len, t - 1))
  }

  /** The 21 attempts before attempt t all found the buffer full. */
  ghost predicate Stalled(sock: Socket, t: nat) {
    t > MAX_WAITS && forall j :: t - MAX_WAITS - 1 <= j < t ==> sock(j).WouldBlock?
  }

  /** Attempt t is the one after which the loop gives up. */
  ghost predicate GivesUp(sock: Socket, t: nat) {
    Stalled(sock, t) || sock(t).Broken?
  }

  ghost predicate NoneBefore(sock: Socket, t: nat) {
    forall j :: 0 <= j < t ==> !GivesUp(sock, j)
  }

  /** Everything has been taken before the first attempt that gives up. */
  ghost predicate Delivers(sock: Socket, len: nat) {
    exists t: nat :: NoneBefore(sock, t) && Sent(sock, len, t) == len
  }

  /** The attempt that takes the rest comes right behind a stall. */
  ghost predicate LateAt(sock: Socket, len: nat, t: nat) {
    Stalled(sock, t) && NoneBefore(sock, t) && Sent(sock, len, t) < len == Sent(sock, len, t + 1)
  }

  ghost predicate Late(sock: Socket, len: nat) {
    exists t: nat :: LateAt(sock, len, t)
  }

  /** `delivered` is what the peer has received, `attempts` the number of write() calls. */
  method SuccessWrite(sock: Socket, data: seq<Byte>) returns (ok: bool, delivered: seq<Byte>, attempts: nat)
    requires Progresses(sock)
    // the peer has what the socket took, no byte twice and none out of order
    ensures delivered == data[..Sent(sock, |data|, attempts)]
    ensures ok ==> delivered == data
    // it succeeds exactly when everything is taken before an attempt gives up
    ensures ok <==> Delivers(sock, |data|)
    // otherwise it fails at the first attempt that gives up
    ensures ok ==> NoneBefore(sock, attempts)
    ensures !ok ==> 0 < attempts && GivesUp(sock, attempts - 1) && NoneBefore(sock, attempts - 1)
    // it fails although everything was delivered exactly when the last write ends a stall
    ensures !ok && delivered == data <==> Late(sock, |data|)
    ensures attempts <= (MAX_WAITS + 1) * |data| + 1
    ensures attempts == 0 <==> data == []
  {
    hide Stalled, NoneBefore, Delivers, Late, Waited, Sent;
    var totalWritten, remaining, waitsDone := 0, |data|, 0;
    AtFirst(sock, |data|);
    delivered, attempts := [], 0;
    while totalWritten < |data|
      invariant 0 <= remaining && totalWritten + remaining == |data|
      invariant totalWritten == Sent(sock, |data|, attempts)
      invariant delivered == data[..totalWritten]
      invariant waitsDone <= MAX_WAITS + 1 && Waited(sock, attempts, waitsDone)
      invariant attempts <= (MAX_WAITS + 1) * totalWritten + waitsDone
      invariant NoneBefore(sock, attempts)
      invariant 0 < attempts ==> Sent(sock, |data|, attempts - 1) < |data|
      invariant remaining == 0 ==> waitsDone == 0
      invariant (attempts == 0 ==> totalWritten == 0) && (data == [] ==> attempts == 0)
      decreases remaining, MAX_WAITS + 1 - waitsDone
    {
      var written := sock(attempts);
      var n := Taken(written, remaining);
      delivered := delivered + data[totalWritten..totalWritten + n];
      attempts := attempts + 1;
      StallIsWaits(sock, attempts - 1, waitsDone);
      NoneNext(sock, attempts - 1);
      SentNext(sock, |data|, attempts - 1);
      assert delivered == data[..totalWritten + n];
      if waitsDone > MAX_WAITS {
        GaveUp(sock, |data|, attempts - 1);
        return false, delivered, attempts;
      }
      if written.WouldBlock? {
        waitsDone := waitsDone + 1;
      } else if written.Broken? {
        GaveUp(sock, |data|, attempts - 1);
        return false, delivered, attempts;
      } else {
        waitsDone := 0;
        totalWritten := totalWritten + n;
        remaining := remaining - n;
      }
    }
    NotLate(sock, |data|, attempts);
    return true, delivered, attempts;
  }

  /** The last `waits` attempts before t found the buffer full, and the one before them did not. */
  ghost predicate Waited(sock: Socket, t: nat, waits: nat) {
    && waits <= t && (forall j :: t - waits <= j < t ==> sock(j).WouldBlock?)
    && (waits < t ==> !sock(t - waits - 1).WouldBlock?)
  }

  /** The wait counter sees a stall exactly when there is one. */
  lemma StallIsWaits(sock: Socket, t: nat, waits: nat)
    requires waits <= MAX_WAITS + 1 && Waited(sock, t, waits)
    ensures Stalled(sock, t) <==> waits > MAX_WAITS
    ensures Waited(sock, t + 1, if sock(t).WouldBlock? then waits + 1 else 0)
  {
  }

  lemma AtFirst(sock: Socket, len: nat)
    ensures NoneBefore(sock, 0) && Waited(sock, 0, 0) && Sent(sock, len, 0) == 0
  {
  }

  /** An attempt takes what it reports, but no more than is left, and nothing if it reports none. */
  lemma SentNext(sock: Socket, len: nat, t: nat)
    ensures var left := len - Sent(sock, len, t);
            Sent(sock, len, t + 1) - Sent(sock, len, t) ==
            match sock(t)
            case Wrote(n) => if n <= left then n else left
            case _ => 0
    ensures Sent(sock, len, t + 1) == Sent(sock, len, t) + Taken(sock(t), len - Sent(sock, len, t))
  {
  }

  lemma NoneNext(sock: Socket, t: nat)
    ensures NoneBefore(sock, t + 1) <==> NoneBefore(sock, t) && !GivesUp(sock, t)
  {
  }

  lemma {:induction false} SentGrows(sock: Socket, len: nat, s: nat, t: nat)
    requires s <= t
    ensures Sent(sock, len, s) <= Sent(sock, len, t)
    decreases t
  {
    if s < t {
      SentGrows(sock, len, s, t - 1);
    }
  }

  /** Giving up at t with bytes left before it: a failure, and a late one exactly when attempt t
      itself took the rest. */
  lemma GaveUp(sock: Socket, len: nat, t: nat)
    requires NoneBefore(sock, t) && GivesUp(sock, t) && Sent(sock, len, t) < len
    ensures !Delivers(sock, len)
    ensures Late(sock, len) <==> Sent(sock, len, t + 1) == len
  {
    forall u: nat | NoneBefore(sock, u)
      ensures Sent(sock, len, u) < len
    {
      assert u <= t;
      SentGrows(sock, len, u, t);
    }
    if Sent(sock, len, t + 1) == len {
      assert LateAt(sock, len, t);
    }
    forall u: nat | LateAt(sock, len, u)
      ensures u == t
    {
      assert GivesUp(sock, u);
    }
  }

  /** Having taken everything without giving up is no late failure. */
  lemma NotLate(sock: Socket, len: nat, t: nat)
    requires NoneBefore(sock, t) && Sent(sock, len, t) == len
    ensures Delivers(sock, len) && !Late(sock, len)
  {
    forall u: nat | LateAt(sock, len, u)
      ensures false
    {
      assert GivesUp(sock, u);
      SentGrows(sock, len, t, u);
    }
  }

  /** A buffer that is full for `waits` attempts and then takes everything. */
  function FullThenFree(waits: nat, len: nat): Socket {
    (t: nat) => if t < waits then WouldBlock else Wrote(len)
  }

  /** Such a socket gets everything if it is full for at most 20 attempts.  After exactly 21 every byte
      is delivered and the write still counts as failed. */
  lemma LateDelivery(waits: nat, len: nat)
    requires 0 < len
    ensures Progresses(FullThenFree(waits, len))
    ensures Delivers(FullThenFree(waits, len), len) <==> waits <= 20
    ensures Late(FullThenFree(waits, len), len) <==> waits == 21
  {
    var sock := FullThenFree(waits, len);
    if waits <= 20 {
      NothingSent(waits, len, waits);
      SentNext(sock, len, waits);
      assert forall t :: 0 <= t < waits ==> sock(t).WouldBlock?;
      forall j | 0 <= j < waits + 1
        ensures !GivesUp(sock, j)
      {
      }
      NotLate(sock, len, waits + 1);
    } else {
      NothingSent(waits, len, 21);
      SentNext(sock, len, 21);
      assert Stalled(sock, 21);
      forall j | 0 <= j < 21
        ensures !GivesUp(sock, j)
      {
      }
      GaveUp(sock, len, 21);
    }
  }

  lemma {:induction false} NothingSent(waits: nat, len: nat, t: nat)
    requires t <= waits
    ensures Sent(FullThenFree(waits, len), len, t) == 0
  {
    if 0 < t {
      NothingSent(waits, len, t - 1);
    }
  }
}
