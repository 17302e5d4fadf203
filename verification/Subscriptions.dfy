/** The subscription table of the non-blocking engine (zcm/nonblocking.c), the subscription lists of
    the blocking engine (zcm/blocking.cpp), and their agreement: after the same subscribes and
    unsubscribes both call the same subscribers. */
module Subscriptions {
  import opened Options
  import opened Channels

  const SUBS_MAX: nat := 512

  /** zcm_sub_t: subscriptions alike in all fields are interchangeable. */
  datatype Sub = Sub(channel: Channel, callback: nat, usr: nat)

  datatype Code = Ok | Invalid | Again | TransportError

  /* ---------- the non-blocking table ---------- */

  /** How many of the first n slots hold a live subscription like x. */
  function CountUpTo(subs: seq<Sub>, used: seq<bool>, n: nat, x: Sub): nat
    requires n <= |subs| == |used|
    decreases n, |subs|
  {
    if n == 0 then 0 else CountUpTo(subs, used, n - 1, x) + (if used[n - 1] && subs[n - 1] == x then 1 else 0)
  }

  function One(b: bool): nat {
    if b then 1 else 0
  }

  lemma {:induction false} SlotChange(subs: seq<Sub>, used: seq<bool>, i: nat, sub: Sub, use: bool, n: nat, x: Sub)
    requires i < |subs| == |used| && n <= |subs|
    ensures CountUpTo(subs[i := sub], used[i := use], n, x) + One(i < n && used[i] && subs[i] == x)
            == CountUpTo(subs, used, n, x) + One(i < n && use && sub == x)
    decreases n
  {
    if n > 0 { SlotChange(subs, used, i, sub, use, n - 1, x); }
  }

  lemma {:induction false} NoneBeyond(subs: seq<Sub>, used: seq<bool>, m: nat, n: nat, x: Sub)
    requires m <= n <= |subs| == |used| && forall i | m <= i < n :: !used[i]
    ensures CountUpTo(subs, used, n, x) == CountUpTo(subs, used, m, x)
    decreases n
  {
    if m < n { NoneBeyond(subs, used, m, n - 1, x); }
  }

  lemma {:induction false} LiveSlot(subs: seq<Sub>, used: seq<bool>, n: nat, x: Sub)
    requires n <= |subs| == |used|
    ensures CountUpTo(subs, used, n, x) > 0 <==> exists i | 0 <= i < n :: used[i] && subs[i] == x
    decreases n
  {
    if n > 0 { LiveSlot(subs, used, n - 1, x); }
  }

  /** zcm_nonblocking_t with the set of channels enabled at its transport. */
  class Table {
    const subs: array<Sub>
    const subInUse: array<bool>
    const subIsRegex: array<bool>
    var subInUseEnd: nat
    var transport: set<Channel>

    /** subInUseEnd is tight, and every slot in use holds a name that dispatch can handle. */
    ghost predicate Valid()
      reads this, subs, subInUse, subIsRegex
    {
      && subs.Length == subInUse.Length == subIsRegex.Length == SUBS_MAX && subInUse != subIsRegex
      && subInUseEnd <= SUBS_MAX
      && (forall i | subInUseEnd <= i < SUBS_MAX :: !subInUse[i])
      && (subInUseEnd > 0 ==> subInUse[subInUseEnd - 1])
      && (forall i | 0 <= i < SUBS_MAX && subInUse[i] ::
            && |subs[i].channel| <= CHANNEL_MAXLEN
            && (subIsRegex[i] <==> IsRegex(subs[i].channel))
            && (IsRegex(subs[i].channel) ==> Supported(subs[i].channel)))
    }

    /** Every live subscription's channel is enabled at the transport. */
    ghost predicate AllEnabled()
      reads this, subs, subInUse
      requires subs.Length == subInUse.Length == SUBS_MAX
    {
      forall i | 0 <= i < SUBS_MAX && subInUse[i] :: subs[i].channel in transport
    }

    /** How often a subscription is live. */
    ghost function Count(x: Sub): nat
      reads subs, subInUse
      requires subs.Length == subInUse.Length == SUBS_MAX
    {
      CountUpTo(subs[..], subInUse[..], SUBS_MAX, x)
    }

    ghost predicate Full()
      reads subInUse
      requires subInUse.Length == SUBS_MAX
    {
      forall i | 0 <= i < SUBS_MAX :: subInUse[i]
    }

    ghost predicate LiveAt(i: int)
      reads subInUse
      requires subInUse.Length == SUBS_MAX
    {
      0 <= i < SUBS_MAX && subInUse[i]
    }

    /** No other live subscription has the channel of this one. */
    ghost predicate OnlyOne(i: nat)
      reads subs, subInUse
      requires subs.Length == subInUse.Length == SUBS_MAX && i < SUBS_MAX
    {
      forall j | 0 <= j < SUBS_MAX :: subInUse[j] && j != i ==> subs[j].channel != subs[i].channel
    }

    /** zcm_nonblocking_try_create */
    constructor ()
      ensures Valid() && AllEnabled() && transport == {} && forall x: Sub :: Count(x) == 0
      ensures fresh(subs) && fresh(subInUse) && fresh(subIsRegex)
    {
      subs := new Sub[SUBS_MAX](_ => Sub("", 0, 0));
      subInUse := new bool[SUBS_MAX](_ => false);
      subIsRegex := new bool[SUBS_MAX](_ => false);
      subInUseEnd := 0;
      transport := {};
      new;
      forall x: Sub ensures Count(x) == 0 { NoneBeyond(subs[..], subInUse[..], 0, SUBS_MAX, x); }
    }

    /** zcm_nonblocking_subscribe; `accepts` is the transport's answer. It succeeds exactly if the
        transport accepts, the stored name is no unsupported pattern and a slot is free. It adds one
        subscription and no other is touched. */
    method Subscribe(channel: Channel, callback: nat, usr: nat, accepts: bool) returns (r: Option<nat>)
      requires Valid()
      modifies this`subInUseEnd, this`transport, subs, subInUse, subIsRegex
      ensures Valid()
      ensures var stored := Take(channel, CHANNEL_MAXLEN);
              && (r.Some? <==> accepts && (IsRegex(stored) ==> Supported(stored)) && !old(Full()))
              && (forall x: Sub :: Count(x) == old(Count(x)) + One(r.Some? && x == Sub(stored, callback, usr)))
              && (r.Some? ==> LiveAt(r.value) && !old(LiveAt(r.value)) && subs[r.value] == Sub(stored, callback, usr))
              && (r.Some? && old(AllEnabled()) ==> (AllEnabled() <==> |channel| <= CHANNEL_MAXLEN || stored in old(transport)))
      ensures r.None? && old(AllEnabled()) ==> AllEnabled()
      ensures forall i | old(LiveAt(i)) :: LiveAt(i) && subs[i] == old(subs[i])
      ensures transport == if accepts then old(transport) + {channel} else old(transport)
    {
      if !accepts { return None; }
      transport := transport + {channel};
      var i := 0;
      while i <= subInUseEnd && i < SUBS_MAX
        invariant i <= subInUseEnd
        invariant forall k | 0 <= k < i :: subInUse[k]
      {
        if !subInUse[i] {
          r := TakeSlot(i, channel, callback, usr);
          return;
        }
        i := i + 1;
      }
      return None;
    }

    /** The body of subscribe's loop at the first free slot. */
    method TakeSlot(i: nat, channel: Channel, callback: nat, usr: nat) returns (r: Option<nat>)
      requires Valid() && i <= subInUseEnd && i < SUBS_MAX && !subInUse[i]
      modifies this`subInUseEnd, subs, subInUse, subIsRegex
      ensures Valid()
      ensures var stored := Take(channel, CHANNEL_MAXLEN);
              && r == (if IsRegex(stored) ==> Supported(stored) then Some(i) else None)
              && subs[..] == old(subs[..])[i := Sub(stored, callback, usr)]
              && subInUse[..] == old(subInUse[..])[i := r.Some?]
              && (forall x: Sub :: Count(x) == old(Count(x)) + One(r.Some? && x == Sub(stored, callback, usr)))
    {
      var sub := Sub(Take(channel, CHANNEL_MAXLEN), callback, usr);
      hide IsRegex, Supported, CountUpTo;
      ghost var subs0, used0, use := subs[..], subInUse[..], IsRegex(sub.channel) ==> Supported(sub.channel);
      forall x: Sub
        ensures CountUpTo(subs0[i := sub], used0[i := use], SUBS_MAX, x) == old(Count(x)) + One(use && x == sub)
      {
        SlotChange(subs0, used0, i, sub, use, SUBS_MAX, x);
      }
      subs[i] := sub;
      var regex := IsRegexChannel(sub.channel);
      subIsRegex[i] := regex;
      if subIsRegex[i] {
        var supported := IsSupportedRegex(sub.channel);
        if !supported {
          assert subInUse[..] == old(subInUse[..])[i := false];
          return None;
        }
      }
      subInUse[i] := true;
      if i == subInUseEnd { subInUseEnd := subInUseEnd + 1; }
      return Some(i);
    }

    /** zcm_nonblocking_unsubscribe: a handle that is not live is refused and changes nothing; a live
        one is removed, and its channel is disabled exactly if no other live subscription has it. */
    method Unsubscribe(match_idx: int, accepts: bool) returns (r: Code)
      requires Valid()
      modifies this`subInUseEnd, this`transport, subInUse
      ensures Valid()
      ensures old(AllEnabled()) ==> AllEnabled()
      ensures !old(LiveAt(match_idx)) ==> r == Invalid && subInUse[..] == old(subInUse[..]) && transport == old(transport)
      ensures old(LiveAt(match_idx)) ==>
                var channel := subs[match_idx].channel;
                var last := old(OnlyOne(match_idx));
                && subInUse[..] == old(subInUse[..])[match_idx := false]
                && (forall x: Sub :: Count(x) + One(x == subs[match_idx]) == old(Count(x)))
                && transport == (if last && accepts then old(transport) - {channel} else old(transport))
                && r == (if last && !accepts then TransportError else Ok)
    {
      if match_idx < 0 || match_idx >= subInUseEnd { return Invalid; }
      if !subInUse[match_idx] { return Invalid; }
      r := Ok;
      var channel := subs[match_idx].channel;
      var lastChanSub := LastChanSub(match_idx);
      if lastChanSub {
        if accepts { transport := transport - {channel}; } else { r := TransportError; }
      }
      ClearSlot(match_idx);
    }

    /** The end of unsubscribe: frees the slot and shrinks subInUseEnd past the free slots before it. */
    method ClearSlot(match_idx: nat)
      requires Valid() && LiveAt(match_idx)
      modifies this`subInUseEnd, subInUse
      ensures Valid() && subInUse[..] == old(subInUse[..])[match_idx := false]
      ensures forall x: Sub :: Count(x) + One(x == subs[match_idx]) == old(Count(x))
    {
      ghost var used0 := subInUse[..];
      subInUse[match_idx] := false;
      ghost var used := subInUse[..];
      assert subs[..][match_idx := subs[match_idx]] == subs[..] && used == used0[match_idx := false];
      forall x: Sub ensures Count(x) + One(x == subs[match_idx]) == old(Count(x)) {
        SlotChange(subs[..], used0, match_idx, subs[match_idx], false, SUBS_MAX, x);
      }
      while subInUseEnd > 0 && !subInUse[subInUseEnd - 1]
        invariant subInUse[..] == used && subInUseEnd <= SUBS_MAX
        invariant forall i | subInUseEnd <= i < SUBS_MAX :: !subInUse[i]
      {
        subInUseEnd := subInUseEnd - 1;
      }
    }

    /** The first loop of unsubscribe. */
    method LastChanSub(match_idx: nat) returns (last: bool)
      requires Valid() && LiveAt(match_idx)
      ensures last <==> OnlyOne(match_idx)
    {
      var i := 0;
      while i < subInUseEnd
        invariant i <= subInUseEnd
        invariant forall j | 0 <= j < i :: subInUse[j] && j != match_idx ==> subs[j].channel != subs[match_idx].channel
      {
        if subInUse[i] && match_idx != i && SameUpTo(subs[match_idx].channel, subs[i].channel, CHANNEL_MAXLEN) { return false; }
        i := i + 1;
      }
      return true;
    }

    /** dispatch_message: calls every live subscription whose name or prefix matches, once for each
        time it is live, and no other. */
    method Dispatch(channel: Channel) returns (called: seq<Sub>)
      requires Valid()
      ensures forall x: Sub :: multiset(called)[x] == if PrefixMatch(x.channel, channel) then Count(x) else 0
    {
      hide IsRegex, Supported, SameUpTo, Take;
      called := [];
      var i := 0;
      while i < subInUseEnd
        invariant i <= subInUseEnd
        invariant forall x: Sub :: multiset(called)[x]
                                   == if PrefixMatch(x.channel, channel) then CountUpTo(subs[..], subInUse[..], i, x) else 0
      {
        if subInUse[i] {
          var pattern := subs[i].channel;
          var shouldDispatch := false;
          if subIsRegex[i] {
            if |pattern| >= 2 && SameUpTo(pattern, channel, |pattern| - 2) { shouldDispatch := true; }
          } else {
            if SameUpTo(pattern, channel, CHANNEL_MAXLEN) { shouldDispatch := true; }
          }
          assert shouldDispatch <==> PrefixMatch(pattern, channel);
          if shouldDispatch { called := called + [subs[i]]; }
        }
        i := i + 1;
      }
      forall x: Sub ensures Count(x) == CountUpTo(subs[..], subInUse[..], subInUseEnd, x) {
        NoneBeyond(subs[..], subInUse[..], subInUseEnd, SUBS_MAX, x);
      }
    }
  }

  /* ---------- the blocking engine ---------- */

  type SubLists = map<Channel, seq<Sub>>

  /** Every list is filed under the channel of its subscriptions. */
  ghost predicate Filed(lists: SubLists, regex: bool) {
    forall k | k in lists :: (IsRegex(k) <==> regex) && forall sub | sub in lists[k] :: sub.channel == k
  }

  function CountIn(lists: SubLists, x: Sub): nat {
    if x.channel in lists then multiset(lists[x.channel])[x] else 0
  }

  /** subs[channel].push_back(sub): a missing list starts empty. */
  function Pushed(lists: SubLists, sub: Sub): SubLists {
    lists[sub.channel := (if sub.channel in lists then lists[sub.channel] else []) + [sub]]
  }

  lemma PushedCounts(lists: SubLists, regex: bool, sub: Sub)
    requires Filed(lists, regex) && (IsRegex(sub.channel) <==> regex)
    ensures Filed(Pushed(lists, sub), regex)
    ensures forall x: Sub :: CountIn(Pushed(lists, sub), x) == CountIn(lists, x) + One(x == sub)
  {
  }

  lemma RemovedCounts(lists: SubLists, regex: bool, sub: Sub, rest: seq<Sub>)
    requires Filed(lists, regex) && sub.channel in lists && multiset(rest) + multiset{sub} == multiset(lists[sub.channel])
    ensures Filed(lists[sub.channel := rest], regex)
    ensures forall x: Sub :: CountIn(lists[sub.channel := rest], x) + One(x == sub) == CountIn(lists, x)
    ensures rest == [] <==> forall x: Sub :: x.channel == sub.channel ==> CountIn(lists[sub.channel := rest], x) == 0
  {
    forall x | x in rest ensures x.channel == sub.channel {
      assert x in multiset(rest);
      assert x in multiset(lists[sub.channel]);
    }
    if rest != [] { assert rest[0] in rest && CountIn(lists[sub.channel := rest], rest[0]) > 0; }
  }

  /** A subscription is found under its stored name exactly if it is live and the name is whole. */
  lemma Findable(lists: SubLists, regex: bool, sub: Sub)
    requires Filed(lists, regex)
    ensures var stored := Take(sub.channel, CHANNEL_MAXLEN);
            stored in lists && sub in lists[stored] <==> CountIn(lists, sub) > 0 && |sub.channel| <= CHANNEL_MAXLEN
  {
  }

  /** zcm_blocking_t's subscriptions, with the set of channels enabled at its transport. The channel of
      a subscription is the one it was made with; the copy in zcm_sub_t is cut to CHANNEL_MAXLEN. */
  class Engine {
    var subs: SubLists
    var subsRegex: SubLists
    var transport: set<Channel>

    ghost predicate Valid()
      reads this
    {
      Filed(subs, false) && Filed(subsRegex, true)
    }

    ghost function Count(x: Sub): nat
      reads this
    {
      CountIn(if IsRegex(x.channel) then subsRegex else subs, x)
    }

    ghost predicate AllEnabled()
      reads this
    {
      forall x: Sub :: Count(x) > 0 ==> x.channel in transport
    }

    /** Nobody subscribes to the channel. */
    ghost predicate NoneOn(channel: Channel)
      reads this
    {
      forall x: Sub :: x.channel == channel ==> Count(x) == 0
    }

    constructor ()
      ensures Valid() && AllEnabled() && transport == {} && forall x: Sub :: Count(x) == 0
    {
      subs, subsRegex, transport := map[], map[], {};
    }

    /** zcm_blocking_t::subscribe */
    method Subscribe(channel: Channel, callback: nat, usr: nat, accepts: bool) returns (r: Option<Sub>)
      requires Valid()
      modifies this
      ensures Valid()
      ensures r == if accepts then Some(Sub(channel, callback, usr)) else None
      ensures forall x: Sub :: Count(x) == old(Count(x)) + One(r == Some(x))
      ensures transport == if accepts then old(transport) + {channel} else old(transport)
      ensures old(AllEnabled()) ==> AllEnabled()
    {
      if !accepts { return None; }
      transport := transport + {channel};
      var sub := Sub(channel, callback, usr);
      var regex := IsRegexChannel(channel);
      hide Pushed, CountIn, Filed;
      if regex {
        PushedCounts(subsRegex, true, sub);
        subsRegex := Pushed(subsRegex, sub);
      } else {
        PushedCounts(subs, false, sub);
        subs := Pushed(subs, sub);
      }
      return Some(sub);
    }

    /** zcm_blocking_t::unsubscribe. A live subscription is removed exactly if its channel was not cut
        short; the channel is disabled when its list runs empty, and the answer then is the
        transport's. */
    method Unsubscribe(sub: Sub, accepts: bool) returns (r: Code)
      requires Valid()
      modifies this
      ensures Valid()
      ensures var removed := old(Count(sub)) > 0 && |sub.channel| <= CHANNEL_MAXLEN;
              && (forall x: Sub :: Count(x) + One(removed && x == sub) == old(Count(x)))
              && r == (if removed && (accepts || !NoneOn(sub.channel)) then Ok else Invalid)
              && transport == (if removed && accepts && NoneOn(sub.channel) then old(transport) - {sub.channel} else old(transport))
      ensures old(AllEnabled()) ==> AllEnabled()
    {
      var found, left := Unfile(sub);
      if !found { return Invalid; }
      r := Ok;
      if left == 0 {
        if accepts { transport := transport - {Take(sub.channel, CHANNEL_MAXLEN)}; } else { r := Invalid; }
      }
    }

    /** The part of unsubscribe that takes a subscription out of its list; `left` is what remains there. */
    method Unfile(sub: Sub) returns (found: bool, left: nat)
      requires Valid()
      modifies this`subs, this`subsRegex
      ensures Valid()
      ensures found <==> old(Count(sub)) > 0 && |sub.channel| <= CHANNEL_MAXLEN
      ensures forall x: Sub :: Count(x) + One(found && x == sub) == old(Count(x))
      ensures found ==> (left == 0 <==> NoneOn(sub.channel))
    {
      var stored := Take(sub.channel, CHANNEL_MAXLEN);
      var lists := if IsRegex(sub.channel) then subsRegex else subs;
      hide CountIn, Filed, IsRegex;
      Findable(lists, IsRegex(sub.channel), sub);
      if stored !in lists { return false, 0; }
      var rest;
      found, rest := DeleteFromSubList(lists[stored], sub);
      if !found { return false, 0; }
      assert stored == sub.channel;
      RemovedCounts(lists, IsRegex(sub.channel), sub, rest);
      lists := lists[stored := rest];
      if IsRegex(sub.channel) { subsRegex := lists; } else { subs := lists; }
      left := |rest|;
    }

    /** dispatchMsg, for whatever the regular expression library answers: calls every live subscription
        whose name is the message's channel or whose pattern matches it, once for each time it is live. */
    method Dispatch(channel: Channel, regexMatch: (Channel, Channel) -> bool) returns (called: seq<Sub>)
      requires Valid()
      ensures forall x: Sub :: multiset(called)[x]
                == if (if IsRegex(x.channel) then regexMatch(x.channel, channel) else x.channel == channel) then Count(x) else 0
    {
      called := [];
      if channel in subs { called := subs[channel]; }
      ghost var exact := called;
      var todo := subsRegex.Keys;
      while todo != {}
        invariant todo <= subsRegex.Keys
        invariant forall x: Sub :: multiset(called)[x] == multiset(exact)[x]
                    + if x.channel in subsRegex.Keys - todo && regexMatch(x.channel, channel) then multiset(subsRegex[x.channel])[x] else 0
        decreases todo
      {
        var k :| k in todo;
        var more := Matching(subsRegex[k], channel, regexMatch);
        called := called + more;
        todo := todo - {k};
      }
    }
  }

  /** The inner loop of dispatchMsg over one list. */
  method Matching(list: seq<Sub>, channel: Channel, regexMatch: (Channel, Channel) -> bool) returns (called: seq<Sub>)
    ensures forall x: Sub :: multiset(called)[x] == if regexMatch(x.channel, channel) then multiset(list)[x] else 0
  {
    called := [];
    for i := 0 to |list|
      invariant forall x: Sub :: multiset(called)[x] == if regexMatch(x.channel, channel) then multiset(list[..i])[x] else 0
    {
      assert list[..i + 1] == list[..i] + [list[i]];
      if regexMatch(list[i].channel, channel) { called := called + [list[i]]; }
    }
    assert list[..|list|] == list;
  }

  /** deleteFromSubList: the last subscription takes the place of the removed one. */
  method DeleteFromSubList(list: seq<Sub>, sub: Sub) returns (found: bool, rest: seq<Sub>)
    ensures found <==> sub in list
    ensures found ==> multiset(rest) + multiset{sub} == multiset(list)
    ensures !found ==> rest == list
  {
    rest := list;
    for i := 0 to |list|
      invariant sub !in list[..i]
    {
      if list[i] == sub {
        var last := |list| - 1;
        SwapLast(list, i);
        return true, list[i := list[last]][..last];
      }
    }
    return false, list;
  }

  lemma SwapLast(list: seq<Sub>, i: nat)
    requires i < |list|
    ensures multiset(list[i := list[|list| - 1]][..|list| - 1]) + multiset{list[i]} == multiset(list)
  {
    var last := |list| - 1;
    if i == last {
      assert list == list[..last] + [list[last]];
      assert list[i := list[last]] == list;
    } else {
      assert list == list[..i] + [list[i]] + list[i + 1..last] + [list[last]];
      assert list[i := list[last]][..last] == list[..i] + [list[last]] + list[i + 1..last];
    }
  }

  /* ---------- both engines ---------- */

  datatype Op =
    | SubscribeOp(channel: Channel, callback: nat, usr: nat, accepts: bool)
    | UnsubscribeOp(slot: int, accepts: bool)

  /** The same subscriptions are live, equally often, and enabled at both transports. */
  ghost predicate Twins(table: Table, engine: Engine)
    reads table, table.subs, table.subInUse, table.subIsRegex, engine
  {
    && table.Valid() && engine.Valid() && table.AllEnabled() && engine.AllEnabled()
    && forall x: Sub :: table.Count(x) == engine.Count(x)
  }

  method BothSubscribe(table: Table, engine: Engine, channel: Channel, callback: nat, usr: nat, accepts: bool)
    requires Twins(table, engine) && |channel| <= CHANNEL_MAXLEN
    modifies table, table.subs, table.subInUse, table.subIsRegex, engine
    ensures Twins(table, engine)
  {
    var slot := table.Subscribe(channel, callback, usr, accepts);
    if slot.Some? { var sub := engine.Subscribe(channel, callback, usr, true); }
  }

  method BothUnsubscribe(table: Table, engine: Engine, slot: int, accepts: bool)
    requires Twins(table, engine)
    modifies table, table.subs, table.subInUse, table.subIsRegex, engine
    ensures Twins(table, engine)
  {
    if 0 <= slot < SUBS_MAX && table.subInUse[slot] {
      var sub := table.subs[slot];
      var code1 := table.Unsubscribe(slot, accepts);
      var code2 := engine.Unsubscribe(sub, accepts);
    } else {
      var code := table.Unsubscribe(slot, accepts);
    }
  }

  /** Given the same live subscriptions, the two dispatch rules call the same ones equally often. */
  lemma SameCalls(live: Sub -> nat, channel: Channel, calls1: multiset<Sub>, calls2: multiset<Sub>)
    requires |channel| <= CHANNEL_MAXLEN && NoLineTerminators(channel)
    requires forall x: Sub :: live(x) > 0 ==> |x.channel| <= CHANNEL_MAXLEN && (IsRegex(x.channel) ==> Supported(x.channel))
    requires forall x: Sub :: calls1[x] == if PrefixMatch(x.channel, channel) then live(x) else 0
    requires forall x: Sub :: calls2[x] == if FullMatch(x.channel, channel) then live(x) else 0
    ensures calls1 == calls2
  {
    forall x: Sub ensures calls1[x] == calls2[x] {
      if live(x) > 0 { MatchersAgreeOnNames(x.channel, channel); }
    }
  }

  /** After any run of subscribes and unsubscribes, made on both engines (what the table refuses is not
      asked of the lists), a message on any channel of legal length without line terminators reaches
      the same subscribers through both, equally often, and every live subscription's channel is
      enabled. */
  method BothRun(table: Table, engine: Engine, ops: seq<Op>, channel: Channel) returns (calls1: seq<Sub>, calls2: seq<Sub>)
    requires Twins(table, engine)
    requires forall i | 0 <= i < |ops| && ops[i].SubscribeOp? :: |ops[i].channel| <= CHANNEL_MAXLEN
    modifies table, table.subs, table.subInUse, table.subIsRegex, engine
    ensures Twins(table, engine)
    ensures |channel| <= CHANNEL_MAXLEN && NoLineTerminators(channel) ==> multiset(calls1) == multiset(calls2)
  {
    for i := 0 to |ops|
      invariant Twins(table, engine)
    {
      match ops[i]
      case SubscribeOp(name, callback, usr, accepts) => BothSubscribe(table, engine, name, callback, usr, accepts);
      case UnsubscribeOp(slot, accepts) => BothUnsubscribe(table, engine, slot, accepts);
    }
    calls1 := table.Dispatch(channel);
    calls2 := engine.Dispatch(channel, FullMatch);
    ghost var subs, used := table.subs[..], table.subInUse[..];
    forall x: Sub | CountUpTo(subs, used, SUBS_MAX, x) > 0
      ensures |x.channel| <= CHANNEL_MAXLEN && (IsRegex(x.channel) ==> Supported(x.channel))
    {
      LiveSlot(subs, used, SUBS_MAX, x);
    }
    if |channel| <= CHANNEL_MAXLEN && NoLineTerminators(channel) {
      SameCalls(x => CountUpTo(subs, used, SUBS_MAX, x), channel, multiset(calls1), multiset(calls2));
    }
  }

  /* ---------- names that are cut short ---------- */

  /** Thirty-three characters. */
  function LongName(): (c: Channel)
    ensures |c| == 33 && !IsRegex(c)
  {
    var c: string := seq(33, _ => 'a');
    assert forall i | 0 <= i < |c| :: c[i] == 'a';
    c
  }

  /** The table enables the long name at the transport and keeps the short one, which is not enabled. */
  method LongNameNotEnabled() returns (table: Table)
    ensures table.Valid() && !table.AllEnabled()
  {
    var name := LongName();
    table := new Table();
    LiveSlot(table.subs[..], table.subInUse[..], SUBS_MAX, table.subs[0]);
    assert table.Count(table.subs[0]) == 0 && !table.subInUse[0];
    var slot := table.Subscribe(name, 0, 0, true);
    assert !IsRegex(Take(name, CHANNEL_MAXLEN));
  }

  /** The lists file the subscription under the long name and look for it under the short one. */
  method LongNameNotRemoved() returns (engine: Engine, code: Code)
    ensures code == Invalid && engine.Count(Sub(LongName(), 0, 0)) == 1
  {
    engine := new Engine();
    var sub := engine.Subscribe(LongName(), 0, 0, true);
    code := engine.Unsubscribe(Sub(LongName(), 0, 0), true);
  }
}
