/** The ICMP echo path of the stack and its retry chain: icmp_rx checks the
    checksum and answers echo requests, icmp_reply turns the request into a
    reply in place and sends it, and when the send reports that address
    resolution is pending, a one-shot timer runs icmp_retry_handler 50 ms
    later, which sends again and either reschedules itself or releases the
    buffer. The collaborators are abstract: ip_output is the result code it
    returns (a parameter), do_csum a function parameter, and free_sub, malloc,
    free and timer_oneshot are calls recorded in logs of the state. */
module Icmp {
  import opened Timer

  /** The errno value EAGAIN; ip_output returns -EAGAIN while ARP is pending. */
  const EAGAIN: int := 11
  /** The fixed delay before each retry, in ms. */
  const RETRY_DELAY_MS: nat := 50
  /** ICMP message types of RFC 792: Echo and Echo Reply. */
  const ICMP_V4_ECHO: bv8 := 8
  const ICMP_V4_REPLY: bv8 := 0
  /** The protocol number of ICMP, set on the buffer before it is sent. */
  const ICMP_PROTOCOL: nat := 1
  /** The handler id of icmp_retry_handler, as passed to timer_oneshot. */
  const RETRY_HANDLER: nat := 1

  /** The ICMP part of a packet: type, code, checksum and the remaining bytes
      (identifier, sequence number and data of an echo message). */
  datatype IcmpMsg = IcmpMsg(icmpType: bv8, code: bv8, checksum: bv16, rest: seq<bv8>)

  /** A message whose checksum field holds the checksum of the message with
      that field set to zero, as do_csum computes it. */
  predicate ChecksumOk(m: IcmpMsg, csum: IcmpMsg -> bv16)
  {
    csum(m.(checksum := 0)) == m.checksum
  }

  /** What icmp_rx does with a message: drop it, accept it without answering,
      or answer it. */
  datatype RxAction = Drop | Ignore | Answer

  function RxDecision(m: IcmpMsg, csum: IcmpMsg -> bv16): RxAction
  {
    if !ChecksumOk(m, csum) then Drop
    else if m.icmpType == ICMP_V4_ECHO then Answer
    else Ignore
  }

  /** The reply icmp_reply makes of a request m, in place: the type becomes
      Echo Reply and the checksum is recomputed over the message with the
      checksum field zeroed; code and data are echoed unchanged. */
  function ReplyMsg(m: IcmpMsg, csum: IcmpMsg -> bv16): IcmpMsg
  {
    var zeroed := m.(icmpType := ICMP_V4_REPLY, checksum := 0);
    zeroed.(checksum := csum(zeroed))
  }

  /** A reply carries a correct checksum, has type Echo Reply and echoes the
      request's code and data (RFC 792, Echo or Echo Reply Message). */
  lemma ReplyMsgOk(m: IcmpMsg, csum: IcmpMsg -> bv16)
    ensures var r := ReplyMsg(m, csum);
      ChecksumOk(r, csum) && r.icmpType == ICMP_V4_REPLY && r.code == m.code && r.rest == m.rest
  {
    var zeroed := m.(icmpType := ICMP_V4_REPLY, checksum := 0);
    assert ReplyMsg(m, csum).(checksum := 0) == zeroed;
  }

  /** A reply that comes back to icmp_rx passes the checksum test and is
      accepted without being answered again. */
  lemma ReplyIsNotAnswered(m: IcmpMsg, csum: IcmpMsg -> bv16)
    ensures RxDecision(ReplyMsg(m, csum), csum) == Ignore
  {
    ReplyMsgOk(m, csum);
  }

  /** ntohl on a little-endian host: the four bytes of x in reverse order. */
  function Ntohl(x: bv32): bv32
  {
    ((x & 0xFF) << 24) | (((x >> 8) & 0xFF) << 16) | (((x >> 16) & 0xFF) << 8) | ((x >> 24) & 0xFF)
  }

  /** Byte i of x, counted from the least significant one. */
  function Byte(x: bv32, i: nat): bv32
    requires i < 4
  {
    if i == 0 then x & 0xFF
    else if i == 1 then (x >> 8) & 0xFF
    else if i == 2 then (x >> 16) & 0xFF
    else (x >> 24) & 0xFF
  }

  /** ntohl reverses the bytes: byte i of the result is byte 3 - i of x. */
  lemma NtohlByte(x: bv32, i: nat)
    requires i < 4
    ensures Byte(Ntohl(x), i) == Byte(x, 3 - i)
  {
    if i == 0 {
      assert Byte(Ntohl(x), 0) == Byte(x, 3);
    } else if i == 1 {
      assert Byte(Ntohl(x), 1) == Byte(x, 2);
    } else if i == 2 {
      assert Byte(Ntohl(x), 2) == Byte(x, 1);
    } else {
      assert Byte(Ntohl(x), 3) == Byte(x, 0);
    }
  }

  /** A word is the sum of its bytes at their places. */
  lemma ByteSum(x: bv32)
    ensures x == Byte(x, 0) | (Byte(x, 1) << 8) | (Byte(x, 2) << 16) | (Byte(x, 3) << 24)
  {
  }

  /** ntohl leaves an address unchanged exactly when its bytes read the same
      in both orders; for every other address the destination of the retry
      differs from that of the first send. */
  lemma NtohlFixed(x: bv32)
    ensures Ntohl(x) == x <==> Byte(x, 0) == Byte(x, 3) && Byte(x, 1) == Byte(x, 2)
  {
    NtohlByte(x, 0);
    NtohlByte(x, 1);
    NtohlByte(x, 2);
    NtohlByte(x, 3);
    if Byte(x, 0) == Byte(x, 3) && Byte(x, 1) == Byte(x, 2) {
      ByteSum(x);
      ByteSum(Ntohl(x));
    }
  }

  /** A network buffer (struct subuff) holding an IPv4 packet that carries an
      ICMP message: the header fields the ICMP code reads and writes. */
  class Subuff {
    /** ip_header->saddr, as stored in the packet. */
    var saddr: bv32
    /** IP_PAYLOAD_LEN(ip_header): the length of the ICMP message. */
    var payloadLen: nat
    var icmpType: bv8
    var code: bv8
    var checksum: bv16
    var rest: seq<bv8>
    /** sub->len and sub->protocol. */
    var len: nat
    var protocol: nat

    constructor (saddr: bv32, m: IcmpMsg, payloadLen: nat, len: nat, protocol: nat)
      ensures this.saddr == saddr && Msg() == m && this.payloadLen == payloadLen
      ensures this.len == len && this.protocol == protocol
    {
      this.saddr := saddr;
      this.payloadLen := payloadLen;
      icmpType, code, checksum, rest := m.icmpType, m.code, m.checksum, m.rest;
      this.len := len;
      this.protocol := protocol;
    }

    /** The ICMP message in the buffer. */
    function Msg(): IcmpMsg
      reads this
    {
      IcmpMsg(icmpType, code, checksum, rest)
    }
  }

  /** struct icmp_retry_arg: the buffer to send and its destination. */
  datatype RetryArg = RetryArg(sub: Subuff, daddr: bv32)

  /** A call to ip_output: the destination and the buffer. */
  datatype Send = Send(daddr: bv32, sub: Subuff)

  /** A call to timer_oneshot: the delay and the handler with its argument. */
  datatype OneshotCall = OneshotCall(expire: nat, call: Dispatch)

  /** What one run of icmp_retry_handler does after ip_output returned ret:
      reschedule itself after a delay, or release everything and stop,
      reporting whether the reply was sent. */
  datatype Step = Reschedule(delay: nat) | Finish(sent: bool)

  function RetryDecision(ret: int): Step
  {
    if ret == -EAGAIN then Reschedule(RETRY_DELAY_MS)
    else Finish(ret > 0)
  }

  /** The steps of a retry chain whose successive sends return rets: one
      handler run per result until a run finishes. */
  function Chain(rets: seq<int>): (c: seq<Step>)
    ensures |c| <= |rets|
  {
    if rets == [] then []
    else if RetryDecision(rets[0]).Finish? then [RetryDecision(rets[0])]
    else [RetryDecision(rets[0])] + Chain(rets[1..])
  }

  /** Every step of a chain but the last reschedules after the same 50 ms,
      and only the last step can finish it: the back-off never grows and the
      resources are released at most once. */
  lemma {:induction false} ChainShape(rets: seq<int>)
    ensures var c := Chain(rets);
      && (forall k :: 0 <= k < |c| - 1 ==> c[k] == Reschedule(RETRY_DELAY_MS))
      && (forall k :: 0 <= k < |c| && c[k].Finish? ==> k == |c| - 1)
  {
    if rets != [] && RetryDecision(rets[0]).Reschedule? {
      ChainShape(rets[1..]);
      var c := Chain(rets);
      assert c == [Reschedule(RETRY_DELAY_MS)] + Chain(rets[1..]);
    }
  }

  /** The chain ends at the first result that is not -EAGAIN: it then has run
      the handler once per result up to that one, and its last step says
      whether that send succeeded. */
  lemma {:induction false} ChainEnds(rets: seq<int>, k: nat)
    requires k < |rets| && rets[k] != -EAGAIN
    requires forall j :: 0 <= j < k ==> rets[j] == -EAGAIN
    ensures var c := Chain(rets); |c| == k + 1 && c[k] == Finish(rets[k] > 0)
  {
    if k > 0 {
      ChainEnds(rets[1..], k - 1);
    }
  }

  /** n consecutive pending results: n reschedules of 50 ms each and the
      chain is still running. */
  function Pendings(n: nat): (r: seq<int>)
    ensures |r| == n && forall k :: 0 <= k < n ==> r[k] == -EAGAIN
  {
    if n == 0 then [] else [-EAGAIN] + Pendings(n - 1)
  }

  /** There is no retry limit: however many results are pending, every one
      of them leads to another 50 ms one-shot, and none finishes the chain. */
  lemma {:induction false} NoRetryLimit(n: nat)
    ensures var c := Chain(Pendings(n));
      |c| == n && forall k :: 0 <= k < n ==> c[k] == Reschedule(RETRY_DELAY_MS)
  {
    if n > 0 {
      NoRetryLimit(n - 1);
      assert Pendings(n)[1..] == Pendings(n - 1);
    }
  }

  /** The number of times b occurs in a log. */
  function Count(log: seq<Subuff>, b: Subuff): nat
  {
    multiset(log)[b]
  }

  /** The state the ICMP code shares with its collaborators: the live
      retry arguments by allocation number, the next allocation number, and
      the logs of ip_output, timer_oneshot, free_sub and free calls. */
  class IcmpLayer {
    var args: map<nat, RetryArg>
    var nextArg: nat
    var sends: seq<Send>
    var oneshots: seq<OneshotCall>
    var subFrees: seq<Subuff>
    var argFrees: seq<nat>

    /** Ownership is consistent: every live retry argument owns a buffer that
        has not been freed and that no other argument owns, no buffer and no
        argument has been freed twice, and freed arguments are not live. */
    ghost predicate Valid()
      reads this
    {
      && (forall a :: a in args ==> a < nextArg && a !in argFrees)
      && (forall i :: 0 <= i < |argFrees| ==> argFrees[i] < nextArg)
      && (forall a :: a in args ==> args[a].sub !in subFrees)
      && (forall a, a' :: a in args && a' in args && a != a' ==> args[a].sub != args[a'].sub)
      && (forall i, j :: 0 <= i < j < |subFrees| ==> subFrees[i] != subFrees[j])
      && (forall a :: multiset(argFrees)[a] <= 1)
    }

    /** A buffer that icmp_rx may be handed: live, and not owned by a pending
        retry. */
    ghost predicate Owned(sub: Subuff)
      reads this
    {
      sub !in subFrees && forall a :: a in args ==> args[a].sub != sub
    }

    constructor ()
      ensures Valid()
      ensures args == map[] && nextArg == 0 && sends == [] && oneshots == [] && subFrees == [] && argFrees == []
    {
      args, nextArg := map[], 0;
      sends, oneshots, subFrees, argFrees := [], [], [], [];
    }

    /** icmp_retry_handler: send the buffer again. On -EAGAIN schedule the
        same handler with the same argument 50 ms later and free nothing;
        otherwise free the buffer and the argument and end the chain. */
    method RetryHandler(a: nat, ret: int) returns (step: Step)
      requires a in args
      modifies this
      ensures step == RetryDecision(ret)
      ensures sends == old(sends) + [Send(old(args[a]).daddr, old(args[a]).sub)]
      ensures nextArg == old(nextArg)
      ensures step.Reschedule? ==>
        && oneshots == old(oneshots) + [OneshotCall(step.delay, Dispatch(RETRY_HANDLER, a))]
        && args == old(args) && subFrees == old(subFrees) && argFrees == old(argFrees)
      ensures step.Finish? ==>
        && oneshots == old(oneshots)
        && args == old(args) - {a}
        && subFrees == old(subFrees) + [old(args[a]).sub]
        && argFrees == old(argFrees) + [a]
      ensures old(Valid()) ==> Valid()
    {
      var arg := args[a];
      sends := sends + [Send(arg.daddr, arg.sub)];
      step := RetryDecision(ret);
      if ret == -EAGAIN {
        oneshots := oneshots + [OneshotCall(RETRY_DELAY_MS, Dispatch(RETRY_HANDLER, a))];
      } else {
        subFrees := subFrees + [arg.sub];
        args := args - {a};
        argFrees := argFrees + [a];
      }
    }

    /** icmp_reply: turn the request into a reply in place, send it to the
        packet's source address, and when the send is pending hand the buffer
        over to a newly allocated retry argument scheduled 50 ms later. The
        retry's destination is ntohl of the source address, while the first
        send uses the address as stored. Returns whether the buffer was handed
        over. */
    method Reply(sub: Subuff, csum: IcmpMsg -> bv16, ret: int) returns (pending: bool)
      modifies this, sub
      ensures pending <==> ret == -EAGAIN
      ensures sub.Msg() == ReplyMsg(old(sub.Msg()), csum)
      ensures sub.len == sub.payloadLen == old(sub.payloadLen) && sub.protocol == ICMP_PROTOCOL
      ensures sub.saddr == old(sub.saddr)
      ensures sends == old(sends) + [Send(old(sub.saddr), sub)]
      ensures subFrees == old(subFrees) && argFrees == old(argFrees)
      ensures pending ==>
        && args == old(args)[old(nextArg) := RetryArg(sub, Ntohl(old(sub.saddr)))]
        && nextArg == old(nextArg) + 1
        && oneshots == old(oneshots) + [OneshotCall(RETRY_DELAY_MS, Dispatch(RETRY_HANDLER, old(nextArg)))]
      ensures !pending ==> args == old(args) && nextArg == old(nextArg) && oneshots == old(oneshots)
    {
      sub.icmpType := ICMP_V4_REPLY;
      sub.checksum := 0;
      sub.checksum := csum(sub.Msg());
      sub.len := sub.payloadLen;
      sub.protocol := ICMP_PROTOCOL;
      sends := sends + [Send(sub.saddr, sub)];
      pending := ret == -EAGAIN;
      if pending {
        var a := nextArg;
        nextArg := nextArg + 1;
        args := args[a := RetryArg(sub, Ntohl(sub.saddr))];
        oneshots := oneshots + [OneshotCall(RETRY_DELAY_MS, Dispatch(RETRY_HANDLER, a))];
      }
    }

    /** icmp_rx as written: zero the checksum field, drop the packet when the
        recomputed checksum differs, answer an echo request, and free the
        buffer in every case, also when icmp_reply has just handed it over to
        a pending retry. */
    method RxAsWritten(sub: Subuff, csum: IcmpMsg -> bv16, ret: int) returns (act: RxAction)
      modifies this, sub
      ensures act == RxDecision(old(sub.Msg()), csum)
      ensures subFrees == old(subFrees) + [sub] && argFrees == old(argFrees)
      ensures act == Answer && ret == -EAGAIN ==>
        old(nextArg) in args && args[old(nextArg)].sub in subFrees && !Valid()
      ensures sub.saddr == old(sub.saddr) && sub.payloadLen == old(sub.payloadLen)
      ensures act == Answer ==> sub.len == sub.payloadLen && sub.protocol == ICMP_PROTOCOL
      ensures act != Answer ==> sub.len == old(sub.len) && sub.protocol == old(sub.protocol)
      ensures act != Answer ==>
        && sub.Msg() == old(sub.Msg()).(checksum := 0) && sends == old(sends)
        && args == old(args) && nextArg == old(nextArg) && oneshots == old(oneshots)
      ensures act == Answer ==>
        && sub.Msg() == ReplyMsg(old(sub.Msg()), csum)
        && sends == old(sends) + [Send(old(sub.saddr), sub)]
        && (ret == -EAGAIN ==>
              && args == old(args)[old(nextArg) := RetryArg(sub, Ntohl(old(sub.saddr)))]
              && nextArg == old(nextArg) + 1
              && oneshots == old(oneshots) + [OneshotCall(RETRY_DELAY_MS, Dispatch(RETRY_HANDLER, old(nextArg)))])
        && (ret != -EAGAIN ==> args == old(args) && nextArg == old(nextArg) && oneshots == old(oneshots))
    {
      var incoming := sub.checksum;
      sub.checksum := 0;
      var computed := csum(sub.Msg());
      if computed != incoming {
        act := Drop;
        subFrees := subFrees + [sub];
        return;
      }
      if sub.icmpType == ICMP_V4_ECHO {
        act := Answer;
        var handedOver := Reply(sub, csum, ret);
      } else {
        act := Ignore;
      }
      subFrees := subFrees + [sub];
    }

    /** icmp_rx with the ownership hand-over respected: the buffer is freed
        here unless icmp_reply has handed it to a pending retry, which frees
        it when the chain ends. Keeps ownership consistent. */
    method Rx(sub: Subuff, csum: IcmpMsg -> bv16, ret: int) returns (act: RxAction)
      requires Valid() && Owned(sub)
      modifies this, sub
      ensures Valid()
      ensures act == RxDecision(old(sub.Msg()), csum)
      ensures subFrees == old(subFrees) + (if act == Answer && ret == -EAGAIN then [] else [sub])
      ensures argFrees == old(argFrees)
      ensures sub.saddr == old(sub.saddr) && sub.payloadLen == old(sub.payloadLen)
      ensures act == Answer ==> sub.len == sub.payloadLen && sub.protocol == ICMP_PROTOCOL
      ensures act != Answer ==> sub.len == old(sub.len) && sub.protocol == old(sub.protocol)
      ensures act != Answer ==>
        && sub.Msg() == old(sub.Msg()).(checksum := 0) && sends == old(sends)
        && args == old(args) && nextArg == old(nextArg) && oneshots == old(oneshots)
      ensures act == Answer ==>
        && sub.Msg() == ReplyMsg(old(sub.Msg()), csum)
        && sends == old(sends) + [Send(old(sub.saddr), sub)]
        && (ret == -EAGAIN ==>
              && args == old(args)[old(nextArg) := RetryArg(sub, Ntohl(old(sub.saddr)))]
              && nextArg == old(nextArg) + 1
              && oneshots == old(oneshots) + [OneshotCall(RETRY_DELAY_MS, Dispatch(RETRY_HANDLER, old(nextArg)))])
        && (ret != -EAGAIN ==> args == old(args) && nextArg == old(nextArg) && oneshots == old(oneshots))
    {
      var incoming := sub.checksum;
      sub.checksum := 0;
      var computed := csum(sub.Msg());
      if computed != incoming {
        act := Drop;
        subFrees := subFrees + [sub];
        return;
      }
      var pending := false;
      if sub.icmpType == ICMP_V4_ECHO {
        act := Answer;
        pending := Reply(sub, csum, ret);
      } else {
        act := Ignore;
      }
      if !pending {
        subFrees := subFrees + [sub];
      }
    }
  }

  /** An echo request with a correct checksum under a checksum function that
      is always zero. */
  function EchoRequest(): IcmpMsg
  {
    IcmpMsg(ICMP_V4_ECHO, 0, 0, [0, 1, 0, 1])
  }

  /** icmp.c as written frees the buffer twice: the first send is pending,
      icmp_rx frees the buffer at line 76 although the retry owns it, and the
      retry, sent on its next attempt, frees it again. */
  method AsWrittenDoubleFree() returns (frees: nat, useAfterFree: bool)
    ensures frees == 2 && useAfterFree
  {
    var layer := new IcmpLayer();
    var sub := new Subuff(0x0100000A, EchoRequest(), 8, 0, 0);
    var csum := (m: IcmpMsg) => 0 as bv16;
    var act := layer.RxAsWritten(sub, csum, -EAGAIN);
    assert layer.args == map[0 := RetryArg(sub, Ntohl(0x0100000A))];
    useAfterFree := sub in layer.subFrees;
    var step := layer.RetryHandler(0, 1);
    assert layer.subFrees == [sub, sub];
    frees := Count(layer.subFrees, sub);
  }

  /** The retry chain with ownership respected, when the first two sends are
      pending and the third succeeds: three sends, the first to the source
      address as stored and the retries to its byte-swapped form, two one-shot
      timers of 50 ms for the same argument, and the buffer and the argument
      each freed exactly once, with no retry left outstanding. */
  method PendingTwiceThenSent(layer: IcmpLayer, sub: Subuff, csum: IcmpMsg -> bv16)
    requires layer.Valid() && layer.Owned(sub)
    requires RxDecision(sub.Msg(), csum) == Answer
    modifies layer, sub
    ensures layer.Valid()
    ensures var src := old(sub.saddr);
      layer.sends == old(layer.sends) + [Send(src, sub), Send(Ntohl(src), sub), Send(Ntohl(src), sub)]
    ensures var retry := OneshotCall(RETRY_DELAY_MS, Dispatch(RETRY_HANDLER, old(layer.nextArg)));
      layer.oneshots == old(layer.oneshots) + [retry, retry]
    ensures layer.subFrees == old(layer.subFrees) + [sub]
    ensures layer.argFrees == old(layer.argFrees) + [old(layer.nextArg)]
    ensures layer.args == old(layer.args)
  {
    var a := layer.nextArg;
    var act := layer.Rx(sub, csum, -EAGAIN);
    var s1 := layer.RetryHandler(a, -EAGAIN);
    var s2 := layer.RetryHandler(a, 1);
    assert layer.args == old(layer.args)[a := RetryArg(sub, Ntohl(old(sub.saddr)))] - {a};
  }
}
