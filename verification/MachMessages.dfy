/** Header-only Mach messages (libc/include/julius/mach.h, libc/src/mach.c) and the protocol that PID 1
    speaks with them (init/src/main.c). */
module MachMessages {
  import opened Machine

  const MACH_PORT_NULL: uint32 := 0
  const KERN_SUCCESS: int := 0
  const MACH_PORT_RIGHT_RECEIVE: uint32 := 1
  const MACH_MSG_TYPE_COPY_SEND: uint32 := 19
  const MACH_MSG_TYPE_MAKE_SEND: uint32 := 20
  const PING: uint32 := 0x4A4C_0001
  const PONG: uint32 := PING + 0x8000

  datatype Header = Header(bits: uint32, size: uint32, remote: uint32, local: uint32, voucher: uint32, id: uint32)

  /** What a receive yields: a message in the caller's buffer, or an error, which may leave anything
      there. */
  datatype Receipt = Received(header: Header) | Failed(kr: int, leftovers: Header)

  /** Nothing is received with an error code, and no error has the success code. */
  predicate Genuine(r: Receipt) {
    r.Failed? ==> r.kr != KERN_SUCCESS
  }

  function Code(r: Receipt): int {
    if r.Received? then KERN_SUCCESS else r.kr
  }

  function Buffer(r: Receipt): Header {
    if r.Received? then r.header else r.leftovers
  }

  /** The message that `julius_send_simple` builds: a copied send right for the destination, no reply
      port, no voucher, and only the 24-byte header. */
  function SimpleMessage(remote: uint32, id: uint32): Header {
    Header(MACH_MSG_TYPE_COPY_SEND, 24, remote, MACH_PORT_NULL, 0, id)
  }

  /** A message that the service loop answers. */
  predicate WantsReply(h: Header) {
    h.id == PING && h.remote != MACH_PORT_NULL
  }

  /** The headers received, in order. */
  function Inbox(answers: seq<Receipt>): seq<Header> {
    if answers == [] then []
    else
      var n := |answers| - 1;
      Inbox(answers[..n]) + (if answers[n].Received? then [answers[n].header] else [])
  }

  /** The replies to an inbox, in order. */
  function Replies(inbox: seq<Header>): seq<Header> {
    if inbox == [] then []
    else
      var n := |inbox| - 1;
      Replies(inbox[..n]) + (if WantsReply(inbox[n]) then [SimpleMessage(inbox[n].remote, PONG)] else [])
  }

  /** The number of messages in the first n that want a reply. */
  function Wanting(inbox: seq<Header>, n: nat): nat
    requires n <= |inbox|
  {
    if n == 0 then 0 else Wanting(inbox, n - 1) + (if WantsReply(inbox[n - 1]) then 1 else 0)
  }

  /** Message i is answered exactly if it is a ping that names a reply port: by the reply whose number is how
      many before it were answered, to that port, header-only, with a copied send right and no reply port of
      its own; and there are no other replies. */
  lemma {:induction false} RepliesMatch(inbox: seq<Header>, i: nat)
    requires i < |inbox|
    ensures |Replies(inbox)| == Wanting(inbox, |inbox|)
    ensures var wants := inbox[i].id == 0x4A4C_0001 && inbox[i].remote != 0;
      && Wanting(inbox, 0) == 0 && Wanting(inbox, i + 1) == Wanting(inbox, i) + (if wants then 1 else 0)
      && (wants ==>
            && Wanting(inbox, i) < |Replies(inbox)|
            && var r := Replies(inbox)[Wanting(inbox, i)];
               && r.remote == inbox[i].remote && r.id == 0x4A4C_8001
               && r.bits == 19 && r.size == 24 && r.local == 0 && r.voucher == 0)
  {
    var n := |inbox| - 1;
    WantingPrefix(inbox, n, n);
    if n > 0 {
      RepliesMatch(inbox[..n], if i < n then i else 0);
    }
    if i < n {
      WantingPrefix(inbox, n, i);
      assert inbox[..n][i] == inbox[i];
    }
  }

  lemma {:induction false} WantingPrefix(inbox: seq<Header>, n: nat, i: nat)
    requires i <= n <= |inbox|
    ensures Wanting(inbox[..n], i) == Wanting(inbox, i)
  {
    if i > 0 { WantingPrefix(inbox, n, i - 1); }
  }

  /** No reply wants a reply: a reply is not a ping, and names no port to answer to. */
  lemma {:induction false} RepliesAreFinal(inbox: seq<Header>)
    ensures forall h | h in Replies(inbox) :: h.id == 0x4A4C_8001 && h.local == 0 && !WantsReply(h)
  {
    if inbox != [] { RepliesAreFinal(inbox[..|inbox| - 1]); }
  }
}
