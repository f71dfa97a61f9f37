# ANP network stack: intrusive list, timer facility and ICMP retry chain

This project models three parts of a small user-space network stack written in C.

- **The kernel-style intrusive list** of `src/linklist.h` (module `LinkList`, file `linklist.dfy`). It is a circular, doubly linked list with a sentinel head. The nodes live in an arena, `ListArena`, which has two link arrays `next` and `prev` indexed by node number. Index 0 is the sentinel. A ghost sequence `Elems` holds the linked nodes in order. Every operation is proved to keep the pointer invariant: for every linked node `n`, `next[prev[n]] == n` and `prev[next[n]] == n`. `list_init`, `list_add`, `list_add_tail` and `list_del` each state their exact effect on the link arrays and on `Elems`. The iterations state what they visit and, for the safe one, the new `Elems`. The two iteration macros are loops with invariants. `list_for_each_safe` is modelled with the body that the timer tick uses: unlink the current node when it is selected.
- **The timer facility** documented in `src/timer.h` (module `Timer`, file `timer.dfy`). The implementation file is not part of this model, so the documented contract is modelled instead.
  - `TimerFacility` holds the registry of timers, keyed by their slot in a list arena, and links the timers in a `ListArena`.
  - The background thread becomes an explicit `Tick` that advances the clock by the 10 ms quantum. A Tick fires every timer that is due, in list order, and returns the handler calls instead of starting threads. It also reclaims the timers that no handle refers to and that are cancelled or have just fired; a released timer that is not yet due stays registered until it fires.
  - A timer added at time `a` with a delay of `expire` ms fires at the first tick after `a` that is not before `a + expire`. That tick is `FireTime`.
  - The ghost map `added` records when each timer was added. It is what lets `Tick` promise that every timer it fires is fired exactly at its fire time.
  - Once fired, a timer is marked cancelled, so it never fires again. A cancelled timer never fires.
  - `timer_get_tick` returns milliseconds, as the comment at `src/timer.h:72` says, rather than a tick count.
- **The ICMP echo path** of `src/icmp.c` (module `Icmp`, file `icmp.dfy`).
  - `RxDecision` is the accept/drop/answer decision of `icmp_rx`.
  - `ReplyMsg` is the in-place rewrite that `icmp_reply` makes.
  - `RetryDecision` and `Chain` are the state machine of `icmp_retry_handler`.
  - The class `IcmpLayer` holds what the code shares with its collaborators:
    - the live retry arguments;
    - a log of `ip_output` calls;
    - a log of `timer_oneshot` requests;
    - logs of `free_sub` and `free` calls.
  - `IcmpLayer.Valid` is the ownership discipline: every buffer that a live retry argument owns has not been freed, and no buffer is freed twice. The ICMP code as written breaks this discipline (see Findings).
  - `ip_output` is a result-code parameter and `do_csum` is a function parameter. `ntohl` is a byte swap, which assumes a little-endian host.

The retry chain hands the timer facility one-shot requests of the shape that `Timer.TimerFacility.Oneshot` takes: a delay, a handler id and an argument. The ICMP side records these requests rather than calling into the timer model.

## Model

| member | source | states |
|---|---|---|
| LinkList.ListArena.constructor | src/linklist.h:43-44 | LIST_HEAD: a fresh list whose head's next and prev are the head itself, with no elements and the list invariant established |
| LinkList.ListArena.Init | src/linklist.h:47-50 | list_init: afterwards head.next == head.prev == head and the list is empty; the links of every other node are left as they were |
| LinkList.ListArena.Add | src/linklist.h:53-59 | list_add: head.next == new, new.prev == head, new.next is the old first node and the old first node's prev is new; the elements become [new] + old; the invariant is kept and no other link changes |
| LinkList.ListArena.AddTail | src/linklist.h:62-68 | list_add_tail: head.prev == new, new.next == head, new.prev is the old last node and the old last node's next is new; the elements become old + [new]; the invariant is kept and no other link changes |
| LinkList.ListArena.Del | src/linklist.h:71-78 | list_del: the old prev's next is the old next and the old next's prev is the old prev; elem's own links are unchanged; the element leaves the sequence and the others keep their order; the invariant is kept |
| LinkList.ListArena.IsEmpty | src/linklist.h:118-121 | list_empty returns 0 or 1, and 1 exactly when head.next == head, which holds exactly when the list has no elements |
| LinkList.ListArena.ForEach | src/linklist.h:108-109 | list_for_each starts at head.next, follows next until it is back at the head, and visits exactly the elements in forward order |
| LinkList.ListArena.ForEachSafe | src/linklist.h:112-115 | list_for_each_safe with list_del of the selected nodes as its body: because the successor is saved first, every node present at the start is visited in order; the selected ones are unlinked and the rest keep their order |
| LinkList.ListArena.ValidIsWellFormed | src/linklist.h:53-78 | the invariant the operations keep implies that for every linked node n, the head included, n.next.prev == n and n.prev.next == n |
| LinkList.ListArena.ElemsInSlots | src/linklist.h:53-68 | no node is linked twice, the head is not among the elements, and every element is a real slot of the arena |
| LinkList.LinkedInverse | src/linklist.h:37-40 | on a cycle that the next links trace forwards and the prev links trace backwards, next and prev undo each other at every node |
| LinkList.FrontOk | src/linklist.h:53-59 | the four writes of list_add turn a consistent list with elements e into a consistent list with elements [n] + e |
| LinkList.BackOk | src/linklist.h:62-68 | the four writes of list_add_tail turn a consistent list with elements e into a consistent list with elements e + [n] |
| LinkList.DelOk | src/linklist.h:71-78 | the two writes of list_del turn a consistent list into a consistent list without x, the other elements in order |
| LinkList.RingDistinct | src/linklist.h:108-109 | following next from the head returns to the head only after the last element, so no node occurs twice on the cycle |
| LinkList.SplitMembers | src/linklist.h:112-115 | the nodes a safe iteration removes are exactly the selected members, and the nodes it keeps are exactly the other members |
| Timer.FireTimeIsFirstTick | src/timer.h:28-31 | the fire time of a timer is a tick (a multiple of 10 ms), is after the tick at which it was added, is not before its expiry, and no earlier tick has both properties |
| Timer.DueNowIsFireTime | src/timer.h:28-31 | a timer that was still pending at tick now and has expired by the next tick has that next tick as its fire time |
| Timer.TwentyFiveFiresAtThirty | src/timer.h:28-29 | a 25 ms timer added at time 0 fires at 30 ms, not at 20 ms |
| Timer.Fires | src/timer.h:30-31 | every timer that one pass of the tick fires is due (registered, not cancelled, expired) |
| Timer.DueIsFired | src/timer.h:30-31 | conversely, every due timer is fired by the pass over the list, since every registered timer is linked |
| Timer.FiredOnce | src/timer.h:30-33 | no timer is fired twice in one pass, since no timer is linked twice |
| Timer.ScheduleOk | src/timer.h:63 | registering a new timer in a free slot at the tail of the list keeps the slot bookkeeping and the pending-timer invariant |
| Timer.DueAtFireTime | src/timer.h:28-31 | under the pending-timer invariant, every timer due at the next tick has that tick as its fire time, so it is neither early nor late |
| Timer.FiresOnce | src/timer.h:30-33 | after a tick, no timer it fired and no cancelled timer is due at any later tick |
| Timer.NoOrphans | src/timer.h:65-70 | after a tick every timer that no handle refers to is still waiting to fire, so no timer is left unreachable and allocated |
| Timer.TickOk | src/timer.h:22-33 | a tick keeps both invariants: the reclaimed timers leave the list and their slots become free, and the survivors are still pending at the new time |
| Timer.TimerFacility.constructor | src/timer.h:22-24 | the facility starts at time 0 with no timers, an empty list and every slot but the head free |
| Timer.TimerFacility.Schedule | src/timer.h:63-70 | takes a free slot exactly when one exists, registers the timer there with expiries counted from now and links it at the tail of the list; with no free slot nothing changes |
| Timer.TimerFacility.Add | src/timer.h:63-65 | timer_add registers handler(arg) to expire expire ms from now, with one outstanding handle that must be released or cancelled, and returns that handle; it takes a free slot exactly when one exists and links the timer at the tail of the list |
| Timer.TimerFacility.Oneshot | src/timer.h:70 | timer_oneshot registers the timer like timer_add, but with no outstanding handle, so it is reclaimed once it has fired; the timer takes a free slot and goes to the tail of the list |
| Timer.TimerFacility.Release | src/timer.h:66-68 | timer_release gives up the handle and leaves the timer pending, so its handler still runs; the free slots and the list are untouched; releasing a handle that is no longer held is excluded |
| Timer.TimerFacility.Cancel | src/timer.h:67-68 | timer_cancel gives up the handle and marks the timer cancelled, so its handler no longer runs; the free slots and the list are untouched; a second release or cancel is excluded |
| Timer.TimerFacility.GetTick | src/timer.h:72 | timer_get_tick returns the current time in ms, always a multiple of the 10 ms quantum |
| Timer.TimerFacility.Tick | src/timer.h:22-33 | time advances by 10 ms; the handlers of exactly the due timers are returned in list order, none twice, each at its fire time; fired timers are marked cancelled; unreferenced timers that are cancelled or fired are unlinked and freed |
| Icmp.ReplyMsgOk | src/icmp.c:100-103 | the reply has type Echo Reply, a checksum computed over the message with the checksum field zeroed, and the request's code and data (RFC 792) |
| Icmp.ReplyIsNotAnswered | src/icmp.c:72-73 | a reply made by icmp_reply passes icmp_rx's checksum test and is not answered, since it is not an echo request |
| Icmp.NtohlByte | src/icmp.c:116 | ntohl puts byte 3 - i of the address at byte i |
| Icmp.NtohlFixed | src/icmp.c:109-116 | the retry's destination equals the first send's destination exactly when the address's bytes read the same in both orders |
| Icmp.ChainShape | src/icmp.c:30-50 | in a retry chain every step but the last reschedules after the same 50 ms, and only the last step can finish, so resources are released at most once |
| Icmp.ChainEnds | src/icmp.c:37-46 | the chain ends at the first result that is not -EAGAIN, after one handler run per result up to it, reporting whether that send succeeded |
| Icmp.NoRetryLimit | src/icmp.c:35-36 | for any n, n pending results give n reschedules of 50 ms and the chain never finishes: there is no retry limit and the back-off never grows |
| Icmp.IcmpLayer.RetryHandler | src/icmp.c:30-50 | sends the argument's buffer to its destination. On -EAGAIN it requests a 50 ms one-shot of itself with the same argument and frees nothing. Otherwise it frees the buffer and the argument and schedules nothing. Ownership stays consistent |
| Icmp.IcmpLayer.Reply | src/icmp.c:80-124 | rewrites the buffer into the reply and sets its length and protocol. It sends it to the stored source address. When the send is pending, it allocates exactly one retry argument carrying the buffer and the ntohl of the source address, and requests one 50 ms one-shot for it. It frees nothing |
| Icmp.IcmpLayer.RxAsWritten | src/icmp.c:52-78 | icmp_rx as written: zero the checksum field, drop on mismatch, answer echo requests, then free the buffer in every case. An answered buffer gets len = payload length and protocol ICMP; on every path the source address and payload length are kept, and a dropped or ignored buffer keeps its len and protocol. When the reply was pending, the freed buffer is still owned by the new retry argument, which breaks the ownership discipline |
| Icmp.IcmpLayer.Rx | src/icmp.c:52-78 | icmp_rx with the hand-over respected: same decision and same effects, except that a buffer handed to a pending retry is not freed here. Ownership stays consistent; the buffer's header fields change as for RxAsWritten |
| Icmp.AsWrittenDoubleFree | src/icmp.c:76 | an echo request with a correct checksum, whose first send is pending and whose retry succeeds: the code as written frees the buffer twice, and the retry sends a buffer that was already freed |
| Icmp.PendingTwiceThenSent | src/icmp.c:30-50 | two pending sends, then a successful one. The result is three sends: the first to the source address as stored, the retries to its byte-swapped form (with `ip_output` leaving the address field alone, see Left out). It makes two 50 ms one-shots for the same argument and frees the buffer and the argument once each. No retry is left outstanding |

## Left out

- Threads and locking are not modelled: the timer thread, one thread per fired handler, the per-timer `lock`, and the sleep loop. Time advances only by `Tick`, and handlers are returned as calls rather than run. Races between cancel and dispatch are out of scope.
- `list_entry` and `list_first_entry` are not modelled. They use `offsetof` pointer arithmetic. A timer's slot number is its node in the list arena, and `records` maps the slot to the timer.
- The timer implementation (`timers_start` and the body of `timer_tick`) is not part of this model. Only the contract of `src/timer.h` is modelled.
- Timer.TimerFacility.Add: expiry times are unbounded naturals, so the 32-bit wrap-around of `expires` is not modelled.
- Timer.TimerFacility.Schedule: allocation failure appears as the arena having no free slot. The header does not say what `timer_add` does then, so the model returns None or false and changes nothing. Which free slot is taken is left open.
- Timer.TimerFacility.Release: a handle that was released or cancelled is no longer held. A later release or cancel of it is excluded by the precondition and is not diagnosed. Slot reuse after reclamation is not modelled as a separate stale-handle error.
- Timer.TimerFacility.Oneshot: the slot it takes is returned only as a ghost value, for the contract. The C function returns nothing.
- LinkList.ListArena.ForEachSafe: the loop body is the one the tick uses, unlinking the selected nodes. Other loop bodies are not modelled. LinkList.ListArena.ForEach has no body and records the visited nodes.
- Foreign calls are abstract:
  - `ip_output` is a result-code parameter, and each send is recorded with its destination and buffer;
  - `do_csum` is a function parameter, and the checksum arithmetic of RFC 1071 is not modelled;
  - `free_sub`, `malloc` and `free` are log entries;
  - `timer_oneshot` is a logged request.
- Icmp.IcmpLayer.Reply: the buffer adjustments of `sub_reserve` and `sub_push`, `IP_HDR_FROM_SUB`, the IP header length and `sub->data` are pointer arithmetic that the model does not represent. Only the ICMP header fields, `len` and `protocol` are modelled.
- Icmp.IcmpLayer.Reply: assumes that `ip_output` does not write the source address field of the buffer it is handed. Line 116 reads `ip_header->saddr` from the buffer after the send at line 109 returns, and the model gives the retry `ntohl` of the address as it was before the send. If `ip_output` rewrites the header in place, the retry's destination is `ntohl` of whatever it left there. The `Icmp.NtohlFixed` reading below rests on the same assumption.
- Icmp.IcmpLayer.Reply: the `malloc` of the retry argument is assumed to succeed. The C code does not check the allocation for failure.
- Icmp.Ntohl: assumes a little-endian host, where `ntohl` swaps the four bytes.
- Logging (`printf`, `timer_dbg`, `print_debug`) is not modelled.

In icmp.c, the first send uses `ip_header->saddr` as stored (line 109). The retry argument stores `ntohl(ip_header->saddr)` (line 116). The model keeps both as written. Assuming `ip_output` leaves that field alone, `Icmp.NtohlFixed` shows that the two destinations differ for every address whose bytes are not symmetric. Which address order `ip_output` expects is not part of this model, so this is not listed as a finding.

A tick counter is mentioned at `src/timer.h:23`, but `src/timer.h:72` says that `timer_get_tick` returns milliseconds. The model follows line 72: the clock counts milliseconds and steps by 10.

## Findings

| source | as written | input that shows it | evidently intended | confidence | as-written member | corrected member |
|---|---|---|---|---|---|---|
| src/icmp.c:76 | `icmp_rx` calls `free_sub(sub)` after `icmp_reply` returns, also when `icmp_reply` has just handed `sub` to a pending retry (lines 114-118). The retry handler later sends that buffer and frees it again (line 39 or 44). | an echo request with a correct checksum; the first `ip_output` returns -EAGAIN and the retry's returns 1 | the buffer is freed exactly once: by `icmp_rx` when the reply was not pending, otherwise by the handler that ends the chain | not executed | Icmp.AsWrittenDoubleFree | Icmp.IcmpLayer.Rx |
