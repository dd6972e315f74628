/**
 The table of event subscriptions: dispatch stops at the first free slot, so adding and removing must
 keep the used slots together at the front.
 */
module Subscriptions {
  import opened Wrappers

  const MAX_FILTER := 64
  const MAX_ID := 12

  /** A slot; function 0 is the null pointer of a free one. */
  datatype Handler = Handler(filter: string, function_: nat, data: nat, scope: nat, deviceId: string)

  const FREE := Handler("", 0, 0, 0, "")

  predicate Used(h: Handler) {
    h.function_ != 0
  }

  function Truncate(s: string, n: nat): (t: string)
    ensures |t| <= n && |t| <= |s|
  {
    if |s| > n then s[..n] else s
  }

  predicate StartsWith(s: string, prefix: string) {
    |prefix| <= |s| && s[..|prefix|] == prefix
  }

  // ----- dispatch -----

  predicate Matches(h: Handler, event: string) {
    StartsWith(event, Truncate(h.filter, MAX_FILTER))
  }

  /** The handlers called for an event: the walk ends at the first free slot. */
  function Dispatch(hs: seq<Handler>, event: string): (called: seq<Handler>)
    ensures |called| <= |hs|
  {
    if |hs| == 0 || !Used(hs[0]) then []
    else (if Matches(hs[0], event) then [hs[0]] else []) + Dispatch(hs[1..], event)
  }

  /** All handlers subscribed to an event, wherever they are. */
  function Subscribed(hs: seq<Handler>, event: string): (all: seq<Handler>)
    ensures |all| <= |hs|
  {
    if |hs| == 0 then []
    else (if Used(hs[0]) && Matches(hs[0], event) then [hs[0]] else []) + Subscribed(hs[1..], event)
  }

  ghost predicate GapFree(hs: seq<Handler>) {
    forall i, j :: 0 <= i < j < |hs| && Used(hs[j]) ==> Used(hs[i])
  }

  lemma {:induction false} DispatchIsPart(hs: seq<Handler>, event: string)
    ensures Dispatch(hs, event) <= Subscribed(hs, event)
    ensures GapFree(hs) ==> Dispatch(hs, event) == Subscribed(hs, event)
  {
    hide Matches;
    if |hs| > 0 {
      DispatchIsPart(hs[1..], event);
      if !Used(hs[0]) && GapFree(hs) {
        NoneUsed(hs, event);
      }
    }
  }

  lemma {:induction false} NoneUsed(hs: seq<Handler>, event: string)
    requires forall i :: 0 <= i < |hs| ==> !Used(hs[i])
    ensures Subscribed(hs, event) == []
  {
    hide Matches;
    if |hs| > 0 {
      NoneUsed(hs[1..], event);
    }
  }

  /** A used slot behind a free one is missed by an event with its own filter. */
  lemma {:induction false} BehindGap(hs: seq<Handler>, i: nat, j: nat)
    requires i < j < |hs| && !Used(hs[i]) && Used(hs[j])
    ensures |Dispatch(hs, Truncate(hs[j].filter, MAX_FILTER))| < |Subscribed(hs, Truncate(hs[j].filter, MAX_FILTER))|
    decreases i
  {
    var event := Truncate(hs[j].filter, MAX_FILTER);
    assert event[..|event|] == event;
    assert Matches(hs[j], event);
    hide Matches;
    if !Used(hs[0]) {
      SomeSubscribed(hs, j, event);
    } else {
      BehindGap(hs[1..], i - 1, j - 1);
    }
  }

  lemma {:induction false} SomeSubscribed(hs: seq<Handler>, j: nat, event: string)
    requires j < |hs| && Used(hs[j]) && Matches(hs[j], event)
    ensures |Subscribed(hs, event)| > 0
  {
    hide Matches;
    if j > 0 {
      SomeSubscribed(hs[1..], j - 1, event);
    }
  }

  /** The early end of the walk misses nobody, for any event, exactly when the table has no gap. */
  lemma DispatchComplete(hs: seq<Handler>)
    ensures (forall event :: Dispatch(hs, event) == Subscribed(hs, event)) <==> GapFree(hs)
  {
    if GapFree(hs) {
      forall event
        ensures Dispatch(hs, event) == Subscribed(hs, event)
      {
        DispatchIsPart(hs, event);
      }
    } else {
      var i, j :| 0 <= i < j < |hs| && Used(hs[j]) && !Used(hs[i]);
      BehindGap(hs, i, j);
    }
  }

  // ----- adding and removing, on values -----

  /** Whether an entry looks like the one to be added: same callback, and a filter that starts with the name. */
  predicate Alike(h: Handler, name: string, function_: nat, data: nat, scope: nat) {
    h.function_ == function_ && h.data == data && h.scope == scope && StartsWith(h.filter, Truncate(name, MAX_FILTER))
  }

  /** The device id of the first entry that looks alike decides. */
  predicate Exists(hs: seq<Handler>, name: string, function_: nat, data: nat, scope: nat, id: string) {
    if |hs| == 0 then false
    else if Alike(hs[0], name, function_, data, scope) then
      var want := Truncate(id, MAX_ID);
      if |want| > 0 then StartsWith(hs[0].deviceId, want) else |hs[0].deviceId| == 0
    else Exists(hs[1..], name, function_, data, scope, id)
  }

  function FirstFree(hs: seq<Handler>): (k: nat)
    ensures k <= |hs| && (k < |hs| ==> !Used(hs[k])) && forall i :: 0 <= i < k ==> Used(hs[i])
  {
    if |hs| == 0 || !Used(hs[0]) then 0 else 1 + FirstFree(hs[1..])
  }

  function Entry(name: string, function_: nat, data: nat, scope: nat, id: string): Handler {
    Handler(Truncate(name, MAX_FILTER), function_, data, scope, Truncate(id, MAX_ID))
  }

  function Added(hs: seq<Handler>, name: string, function_: nat, data: nat, scope: nat, id: string)
    : (seq<Handler>, bool)
  {
    if Exists(hs, name, function_, data, scope, id) then (hs, true)
    else
      var k := FirstFree(hs);
      if k == |hs| then (hs, false) else (hs[k := Entry(name, function_, data, scope, id)], true)
  }

  /** The slots whose filter is not the name. */
  function Others(hs: seq<Handler>, name: string): (r: seq<Handler>)
    ensures |r| <= |hs|
  {
    if |hs| == 0 then []
    else
      var h := hs[|hs| - 1];
      Others(hs[..|hs| - 1], name) + (if h.filter == name then [] else [h])
  }

  function FreeSlots(n: nat): (r: seq<Handler>)
    ensures |r| == n && forall i :: 0 <= i < n ==> r[i] == FREE
  {
    seq(n, _ => FREE)
  }

  function Removed(hs: seq<Handler>, name: Option<string>): (r: seq<Handler>)
    ensures |r| == |hs|
  {
    match name
    case None => FreeSlots(|hs|)
    case Some(n) => Others(hs, n) + FreeSlots(|hs| - |Others(hs, n)|)
  }

  // ----- no gaps, ever -----

  lemma AddKeepsGapFree(hs: seq<Handler>, name: string, function_: nat, data: nat, scope: nat, id: string)
    requires GapFree(hs)
    ensures GapFree(Added(hs, name, function_, data, scope, id).0)
  {
    hide Exists, Truncate;
    var k := FirstFree(hs);
    if k < |hs| {
      assert forall j :: k < j < |hs| ==> !Used(hs[j]);
    }
  }

  lemma {:induction false} OthersMembers(hs: seq<Handler>, name: string)
    ensures forall i :: 0 <= i < |Others(hs, name)| ==> Others(hs, name)[i] in hs
  {
    if |hs| > 0 {
      OthersMembers(hs[..|hs| - 1], name);
    }
  }

  lemma {:induction false} OthersGapFree(hs: seq<Handler>, name: string)
    requires GapFree(hs)
    ensures GapFree(Others(hs, name))
  {
    if |hs| > 0 {
      var front, h := hs[..|hs| - 1], hs[|hs| - 1];
      OthersGapFree(front, name);
      OthersMembers(front, name);
      var r := Others(front, name);
      forall i | 0 <= i < |r| && Used(h)
        ensures Used(r[i])
      {
        var k :| 0 <= k < |front| && front[k] == r[i];
        assert hs[k] == r[i];
      }
    }
  }

  lemma RemoveKeepsGapFree(hs: seq<Handler>, name: Option<string>)
    requires GapFree(hs)
    ensures GapFree(Removed(hs, name))
  {
    if name.Some? {
      OthersGapFree(hs, name.value);
      hide Others;
    }
  }

  /** The used handlers in order. */
  function InUse(hs: seq<Handler>): seq<Handler> {
    if |hs| == 0 then [] else InUse(hs[..|hs| - 1]) + (if Used(hs[|hs| - 1]) then [hs[|hs| - 1]] else [])
  }

  lemma {:induction false} InUseOthers(hs: seq<Handler>, name: string)
    ensures InUse(Others(hs, name)) == Others(InUse(hs), name)
  {
    hide *;
    if |hs| == 0 {
      NothingIn(hs, name);
    } else {
      var front, h := hs[..|hs| - 1], hs[|hs| - 1];
      InUseOthers(front, name);
      assert hs == front + [h];
      OthersSnoc(front, h, name);
      InUseSnoc(front, h);
      OthersSnoc(InUse(front), h, name);
      InUseSnoc(Others(front, name), h);
    }
  }

  lemma NothingIn(hs: seq<Handler>, name: string)
    requires |hs| == 0
    ensures Others(hs, name) == [] && InUse(hs) == [] && InUse([]) == [] && Others([], name) == []
  {}

  lemma OthersSnoc(hs: seq<Handler>, h: Handler, name: string)
    ensures Others(hs + [h], name) == if h.filter == name then Others(hs, name) else Others(hs, name) + [h]
  {
    assert (hs + [h])[..|hs|] == hs;
  }

  lemma InUseSnoc(hs: seq<Handler>, h: Handler)
    ensures InUse(hs + [h]) == if Used(h) then InUse(hs) + [h] else InUse(hs)
  {
    assert (hs + [h])[..|hs|] == hs;
  }

  lemma {:induction false} InUseFree(hs: seq<Handler>, n: nat)
    ensures InUse(hs + FreeSlots(n)) == InUse(hs)
    decreases n
  {
    hide InUse;
    if n == 0 {
      assert hs + FreeSlots(0) == hs;
    } else {
      InUseFree(hs, n - 1);
      assert hs + FreeSlots(n) == hs + FreeSlots(n - 1) + [FREE];
      InUseSnoc(hs + FreeSlots(n - 1), FREE);
    }
  }

  /** Removing by name takes out exactly the handlers with this filter and keeps the others in order. */
  lemma RemoveTakesNamed(hs: seq<Handler>, name: string)
    ensures InUse(Removed(hs, Some(name))) == Others(InUse(hs), name)
  {
    InUseOthers(hs, name);
    InUseFree(Others(hs, name), |hs| - |Others(hs, name)|);
  }

  /** A handler added to a free slot is called for every event that starts with its filter. */
  lemma AddedIsCalled(hs: seq<Handler>, name: string, function_: nat, data: nat, scope: nat, id: string, event: string)
    requires function_ != 0 && StartsWith(event, Truncate(name, MAX_FILTER))
    requires !Exists(hs, name, function_, data, scope, id) && Added(hs, name, function_, data, scope, id).1
    ensures Entry(name, function_, data, scope, id) in Dispatch(Added(hs, name, function_, data, scope, id).0, event)
  {
    var k, h := FirstFree(hs), Entry(name, function_, data, scope, id);
    hide Exists;
    CalledAt(hs[k := h], k, event);
  }

  lemma {:induction false} CalledAt(hs: seq<Handler>, k: nat, event: string)
    requires k < |hs| && Matches(hs[k], event) && forall i :: 0 <= i <= k ==> Used(hs[i])
    ensures hs[k] in Dispatch(hs, event)
    decreases k
  {
    hide Matches;
    if k > 0 {
      CalledAt(hs[1..], k - 1, event);
    }
  }

  /** The first entry with the same callback and a filter that starts with the name; nothing else is looked at. */
  ghost predicate FirstAlike(hs: seq<Handler>, name: string, function_: nat, data: nat, scope: nat, k: nat) {
    && k < |hs| && Alike(hs[k], name, function_, data, scope)
    && forall i :: 0 <= i < k ==> !Alike(hs[i], name, function_, data, scope)
  }

  /** Being there already: that entry must be for the same device, or for any device if none is given. */
  lemma {:induction false} ExistsAt(hs: seq<Handler>, name: string, function_: nat, data: nat, scope: nat, id: string,
                                    k: nat)
    requires FirstAlike(hs, name, function_, data, scope, k)
    ensures Exists(hs, name, function_, data, scope, id) <==>
            if |id| == 0 then hs[k].deviceId == "" else StartsWith(hs[k].deviceId, Truncate(id, 12))
    decreases k
  {
    hide Alike;
    if k > 0 {
      assert forall i :: 0 <= i < k ==> hs[1..][i] == hs[i + 1];
      ExistsAt(hs[1..], name, function_, data, scope, id, k - 1);
    }
  }

  lemma {:induction false} ExistsNowhere(hs: seq<Handler>, name: string, function_: nat, data: nat, scope: nat,
                                         id: string)
    requires forall i :: 0 <= i < |hs| ==> !Alike(hs[i], name, function_, data, scope)
    ensures !Exists(hs, name, function_, data, scope, id)
  {
    hide Alike;
    if |hs| > 0 {
      ExistsNowhere(hs[1..], name, function_, data, scope, id);
    }
  }

  /**
   An addition succeeds when the handler is there already or a slot is free; then it takes the first free slot, with
   64 characters of the name and 12 of the device id, and changes no other.
   */
  lemma AddSucceeds(hs: seq<Handler>, name: string, function_: nat, data: nat, scope: nat, id: string)
    ensures var (after, ok) := Added(hs, name, function_, data, scope, id);
            && (ok <==> Exists(hs, name, function_, data, scope, id)
                        || exists k :: 0 <= k < |hs| && hs[k].function_ == 0)
            && (ok && !Exists(hs, name, function_, data, scope, id) ==>
                  exists k :: 0 <= k < |hs| && hs[k].function_ == 0 && (forall i :: 0 <= i < k ==> hs[i].function_ != 0)
                    && after == hs[k := Handler(Truncate(name, 64), function_, data, scope, Truncate(id, 12))])
            && (!ok || Exists(hs, name, function_, data, scope, id) ==> after == hs)
  {
    hide Exists, Truncate;
    var k := FirstFree(hs);
    if k < |hs| {
      assert hs[k].function_ == 0;
    }
  }

  /** Removing keeps, of the handlers in use, every one with another filter as often as it was there. */
  lemma RemoveExactly(hs: seq<Handler>, name: string)
    ensures forall h: Handler {:trigger multiset(InUse(hs))[h]} ::
              multiset(InUse(Removed(hs, Some(name))))[h] == if h.filter == name then 0 else multiset(InUse(hs))[h]
    ensures InUse(Removed(hs, None)) == []
  {
    hide *;
    RemoveTakesNamed(hs, name);
    var before, after := InUse(hs), InUse(Removed(hs, Some(name)));
    forall h: Handler
      ensures multiset(after)[h] == if h.filter == name then 0 else multiset(before)[h]
    {
      OthersCount(before, name, h);
    }
    RemoveAll(hs);
  }

  lemma RemoveAll(hs: seq<Handler>)
    ensures InUse(Removed(hs, None)) == []
  {
    InUseFree([], |hs|);
    assert [] + FreeSlots(|hs|) == FreeSlots(|hs|);
    NothingInUse();
    hide InUse;
  }

  lemma NothingInUse()
    ensures InUse([]) == []
  {}

  lemma {:induction false} OthersCount(hs: seq<Handler>, name: string, h: Handler)
    ensures multiset(Others(hs, name))[h] == if h.filter == name then 0 else multiset(hs)[h]
  {
    if |hs| > 0 {
      var n := |hs| - 1;
      OthersCount(hs[..n], name, h);
      assert hs == hs[..n] + [hs[n]];
    }
  }

  /** And it keeps their order: each comes from a later place than the one before. */
  lemma {:induction false} OthersInOrder(hs: seq<Handler>, name: string) returns (from: seq<nat>)
    ensures |from| == |Others(hs, name)|
    ensures forall i :: 0 <= i < |from| ==> from[i] < |hs| && Others(hs, name)[i] == hs[from[i]]
    ensures forall i, j :: 0 <= i < j < |from| ==> from[i] < from[j]
  {
    from := [];
    if |hs| > 0 {
      var n := |hs| - 1;
      from := OthersInOrder(hs[..n], name);
      if hs[n].filter != name {
        from := from + [n];
      }
    }
  }

  /** A used slot of this handler, whatever its filter. */
  predicate Same(h: Handler, function_: nat, data: nat, scope: nat) {
    Used(h) && h.function_ == function_ && h.data == data && h.scope == scope
  }

  /** An event reaches the handler. */
  ghost predicate Reaches(hs: seq<Handler>, event: string, function_: nat, data: nat, scope: nat) {
    exists h :: h in Dispatch(hs, event) && Same(h, function_, data, scope)
  }

  /** Some slot of this handler has a filter that begins the name, so it gets all events of the name. */
  ghost predicate Covered(hs: seq<Handler>, name: string, function_: nat, data: nat, scope: nat) {
    exists h :: h in hs && Same(h, function_, data, scope) && StartsWith(name, Truncate(h.filter, MAX_FILTER))
  }

  lemma {:induction false} DispatchMembers(hs: seq<Handler>, event: string, h: Handler)
    requires GapFree(hs)
    ensures h in Dispatch(hs, event) <==> h in hs && Used(h) && Matches(h, event)
  {
    hide Matches;
    DispatchIsPart(hs, event);
    SubscribedMembers(hs, event, h);
  }

  lemma {:induction false} SubscribedMembers(hs: seq<Handler>, event: string, h: Handler)
    ensures h in Subscribed(hs, event) <==> h in hs && Used(h) && Matches(h, event)
  {
    hide Matches, Used;
    if |hs| > 0 {
      SubscribedMembers(hs[1..], event, h);
      assert h in hs <==> h == hs[0] || h in hs[1..];
    }
  }

  lemma LongerStarts(event: string, name: string, filter: string)
    requires StartsWith(event, name) && StartsWith(name, filter)
    ensures StartsWith(event, filter)
  {}

  /**
   Exactly when a successful addition makes all events of the name reach the handler: a new entry was made,
   or the handler already has an entry whose filter begins the name. An entry that looks alike is not enough.
   */
  lemma AddReaches(hs: seq<Handler>, name: string, function_: nat, data: nat, scope: nat, id: string)
    requires GapFree(hs) && function_ != 0 && Added(hs, name, function_, data, scope, id).1
    ensures var after, short := Added(hs, name, function_, data, scope, id).0, Truncate(name, MAX_FILTER);
            (forall event :: StartsWith(event, short) ==> Reaches(after, event, function_, data, scope))
            <==> !Exists(hs, name, function_, data, scope, id) || Covered(hs, short, function_, data, scope)
  {
    var after, short := Added(hs, name, function_, data, scope, id).0, Truncate(name, MAX_FILTER);
    AddKeepsGapFree(hs, name, function_, data, scope, id);
    if !Exists(hs, name, function_, data, scope, id) {
      forall event | StartsWith(event, short)
        ensures Reaches(after, event, function_, data, scope)
      {
        AddedIsCalled(hs, name, function_, data, scope, id, event);
        assert Same(Entry(name, function_, data, scope, id), function_, data, scope);
      }
    } else {
      assert after == hs;
      CoveredReaches(hs, short, function_, data, scope);
    }
  }

  lemma CoveredReaches(hs: seq<Handler>, name: string, function_: nat, data: nat, scope: nat)
    requires GapFree(hs)
    ensures (forall event :: StartsWith(event, name) ==> Reaches(hs, event, function_, data, scope))
       <==> Covered(hs, name, function_, data, scope)
  {
    hide GapFree, Dispatch, Truncate, Used;
    if Covered(hs, name, function_, data, scope) {
      var h :| h in hs && Same(h, function_, data, scope) && StartsWith(name, Truncate(h.filter, MAX_FILTER));
      forall event | StartsWith(event, name)
        ensures Reaches(hs, event, function_, data, scope)
      {
        LongerStarts(event, name, Truncate(h.filter, MAX_FILTER));
        DispatchMembers(hs, event, h);
      }
    }
    if forall event :: StartsWith(event, name) ==> Reaches(hs, event, function_, data, scope) {
      assert StartsWith(name, name);
      var h :| h in Dispatch(hs, name) && Same(h, function_, data, scope);
      DispatchMembers(hs, name, h);
    }
  }

  /** Adding a name that is the beginning of an existing filter succeeds without a new entry: its events are lost. */
  lemma ShorterNameShadowed(f: nat, data: nat, scope: nat)
    requires f != 0
    ensures var hs := [Handler("ab", f, data, scope, ""), FREE];
            var (after, ok) := Added(hs, "a", f, data, scope, "");
            ok && after == hs && Dispatch(after, "a") == []
  {
    var hs := [Handler("ab", f, data, scope, ""), FREE];
    assert "ab"[..1] == "a";
    assert Alike(hs[0], "a", f, data, scope);
  }

  datatype Ev = Add(name: string, function_: nat, data: nat, scope: nat, id: string) | Remove(which: Option<string>)

  function Step(hs: seq<Handler>, ev: Ev): seq<Handler> {
    match ev
    case Add(name, f, data, scope, id) => Added(hs, name, f, data, scope, id).0
    case Remove(name) => Removed(hs, name)
  }

  function Run(n: nat, evs: seq<Ev>): seq<Handler> {
    if |evs| == 0 then FreeSlots(n) else Step(Run(n, evs[..|evs| - 1]), evs[|evs| - 1])
  }

  /** After any sequence of additions and removals every event reaches all handlers subscribed to it. */
  lemma {:induction false} NobodyMissed(n: nat, evs: seq<Ev>, event: string)
    ensures GapFree(Run(n, evs)) && Dispatch(Run(n, evs), event) == Subscribed(Run(n, evs), event)
  {
    hide Added, Removed, GapFree;
    if |evs| > 0 {
      var hs, ev := Run(n, evs[..|evs| - 1]), evs[|evs| - 1];
      NobodyMissed(n, evs[..|evs| - 1], event);
      match ev {
        case Add(name, f, data, scope, id) =>
          AddKeepsGapFree(hs, name, f, data, scope, id);
        case Remove(name) => RemoveKeepsGapFree(hs, name);
      }
    } else {
      AllFree(n);
    }
    DispatchIsPart(Run(n, evs), event);
  }

  lemma AllFree(n: nat)
    ensures GapFree(FreeSlots(n))
  {}

  // ----- the code -----

  class Table {
    const handlers: array<Handler>

    constructor (n: nat)
      ensures handlers.Length == n && fresh(handlers) && handlers[..] == FreeSlots(n)
    {
      handlers := new Handler[n](_ => FREE);
    }

    method EventHandlerExists(name: string, function_: nat, data: nat, scope: nat, id: string) returns (found: bool)
      ensures found == Exists(handlers[..], name, function_, data, scope, id)
    {
      hide Alike;
      var i := 0;
      while i < handlers.Length
        invariant 0 <= i <= handlers.Length
        invariant Exists(handlers[i..], name, function_, data, scope, id)
                  == Exists(handlers[..], name, function_, data, scope, id)
      {
        assert handlers[i..][0] == handlers[i] && handlers[i..][1..] == handlers[i + 1..];
        if Alike(handlers[i], name, function_, data, scope) {
          var want := Truncate(id, MAX_ID);
          return if |want| > 0 then StartsWith(handlers[i].deviceId, want) else |handlers[i].deviceId| == 0;
        }
        i := i + 1;
      }
      return false;
    }

    method AddEventHandler(name: string, function_: nat, data: nat, scope: nat, id: string) returns (ok: bool)
      modifies handlers
      ensures (handlers[..], ok) == Added(old(handlers[..]), name, function_, data, scope, id)
    {
      hide Exists, Truncate, Used;
      var found := EventHandlerExists(name, function_, data, scope, id);
      if found {
        return true;
      }
      ghost var hs := handlers[..];
      var i := 0;
      while i < handlers.Length
        invariant 0 <= i <= handlers.Length && handlers[..] == hs
        invariant forall j :: 0 <= j < i ==> Used(handlers[j])
      {
        if !Used(handlers[i]) {
          FreeAt(hs, i);
          handlers[i] := Entry(name, function_, data, scope, id);
          return true;
        }
        i := i + 1;
      }
      FreeAt(hs, i);
      return false;
    }

    /** Clears the matching slots and moves the others down, in one pass. */
    method RemoveEventHandlers(name: Option<string>)
      modifies handlers
      ensures handlers[..] == Removed(old(handlers[..]), name)
    {
      match name {
        case None => ClearAll();
        case Some(n) => RemoveNamed(n);
      }
    }

    method ClearAll()
      modifies handlers
      ensures handlers[..] == FreeSlots(handlers.Length)
    {
      for i := 0 to handlers.Length
        invariant forall j :: 0 <= j < i ==> handlers[j] == FREE
      {
        handlers[i] := FREE;
      }
    }

    method RemoveNamed(name: string)
      modifies handlers
      ensures handlers[..] == Removed(old(handlers[..]), Some(name))
    {
      hide *;
      ghost var hs := handlers[..];
      var dest, i := 0, 0;
      SweptStart(hs, name);
      while i < handlers.Length
        invariant 0 <= dest <= i <= handlers.Length == |hs| && dest == |Others(hs[..i], name)|
        invariant handlers[..] == Swept(hs, i, name)
      {
        SweptNext(hs, i, name);
        ghost var s := handlers[..];
        assert handlers[i] == s[i];
        if handlers[i].filter == name {
          handlers[i] := FREE;
          assert handlers[..] == s[i := FREE];
        } else {
          if dest != i {
            handlers[dest] := handlers[i];
            handlers[i] := FREE;
            assert handlers[..] == s[dest := hs[i]][i := FREE];
          }
          dest := dest + 1;
        }
        i := i + 1;
      }
      SweptEnd(hs, name);
    }

    /** Calls the handlers for an event, up to the first free slot. */
    method HandleEvent(event: string) returns (called: seq<Handler>)
      ensures called == Dispatch(handlers[..], event)
    {
      hide *;
      ghost var hs := handlers[..];
      called := [];
      DispatchStart(hs, event);
      var i := 0;
      while i < handlers.Length
        invariant 0 <= i <= handlers.Length && called + Dispatch(hs[i..], event) == Dispatch(hs, event)
      {
        DispatchNext(hs, i, event, called);
        if !Used(handlers[i]) {
          return;
        }
        if Matches(handlers[i], event) {
          called := called + [handlers[i]];
        }
        i := i + 1;
      }
      DispatchEnd(hs[i..], event, called);
    }
  }

  lemma FreeAt(hs: seq<Handler>, i: nat)
    requires i <= |hs| && (forall j :: 0 <= j < i ==> Used(hs[j])) && (i < |hs| ==> !Used(hs[i]))
    ensures FirstFree(hs) == i
  {
    var k := FirstFree(hs);
    hide Used;
    assert k >= i;
  }

  /** The table when the pass has reached slot i: kept slots, freed ones, and those not looked at. */
  function Swept(hs: seq<Handler>, i: nat, name: string): (r: seq<Handler>)
    requires i <= |hs|
    ensures |r| == |hs|
  {
    var kept := Others(hs[..i], name);
    kept + FreeSlots(i - |kept|) + hs[i..]
  }

  lemma SweptStart(hs: seq<Handler>, name: string)
    ensures Swept(hs, 0, name) == hs && Others(hs[..0], name) == []
  {}

  lemma SweptNext(hs: seq<Handler>, i: nat, name: string)
    requires i < |hs|
    ensures var s, dest := Swept(hs, i, name), |Others(hs[..i], name)|;
            && s[i] == hs[i] && dest <= i
            && (hs[i].filter == name ==> Swept(hs, i + 1, name) == s[i := FREE] && |Others(hs[..i + 1], name)| == dest)
            && (hs[i].filter != name ==>
                  && Swept(hs, i + 1, name) == (if dest == i then s else s[dest := hs[i]][i := FREE])
                  && |Others(hs[..i + 1], name)| == dest + 1)
  {
    OthersNext(hs, i, name);
    hide Others;
  }

  lemma SweptEnd(hs: seq<Handler>, name: string)
    ensures Swept(hs, |hs|, name) == Removed(hs, Some(name))
  {
    assert hs[..|hs|] == hs;
    hide Others;
  }

  lemma OthersNext(hs: seq<Handler>, i: nat, name: string)
    requires i < |hs|
    ensures Others(hs[..i + 1], name)
         == if hs[i].filter == name then Others(hs[..i], name) else Others(hs[..i], name) + [hs[i]]
  {
    assert hs[..i + 1][..i] == hs[..i];
  }

  lemma DispatchStart(hs: seq<Handler>, event: string)
    ensures [] + Dispatch(hs[0..], event) == Dispatch(hs, event)
  {
    assert hs[0..] == hs;
  }

  lemma DispatchNext(hs: seq<Handler>, i: nat, event: string, called: seq<Handler>)
    requires i < |hs|
    ensures called + Dispatch(hs[i..], event)
         == if !Used(hs[i]) then called
            else if Matches(hs[i], event) then (called + [hs[i]]) + Dispatch(hs[i + 1..], event)
            else called + Dispatch(hs[i + 1..], event)
  {
    hide Matches, Used;
    assert hs[i..][1..] == hs[i + 1..];
    var rest := Dispatch(hs[i + 1..], event);
    assert called + ([hs[i]] + rest) == (called + [hs[i]]) + rest && [] + rest == rest && called + [] == called;
  }

  lemma DispatchEnd(hs: seq<Handler>, event: string, called: seq<Handler>)
    requires |hs| == 0
    ensures called + Dispatch(hs, event) == called
  {}
}
