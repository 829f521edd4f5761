/**
  The directory's request handlers and the replication loop that drives them.

  A `Directory` holds what the handlers touch: the store (a multi-valued map from
  namespace to values, plus the TTL last given to each namespace) and the log of
  messages published on the gossip room.  Whether the node has a store and a gossip
  session is fixed at construction.  The store and the gossip session are external; an
  operation on either may fail, which is modelled as a nondeterministic outcome, and a
  failing store operation leaves the store as it was.
 */
module DirectoryService {
  import opened Wrappers
  import opened Signature
  import opened Replication

  const Success: string := "success"
  const Error: string := "error"

  /** The answer to an Add or a Remove. */
  datatype Response = Response(status: string)

  /** The answer to a List. */
  datatype DirectoryEntriesResponse = DirectoryEntriesResponse(name: string, entries: seq<string>)

  /** The values stored under `key`; an absent key holds none. */
  function Lookup(m: map<string, seq<string>>, key: string): seq<string>
  {
    if key in m then m[key] else []
  }

  /** The TTL last set for `key`, if any. */
  function TtlOf(m: map<string, int>, key: string): Option<int>
  {
    if key in m then Some(m[key]) else None
  }

  /** `s` with every occurrence of `v` taken out, the others kept in order. */
  function Without(s: seq<string>, v: string): (r: seq<string>)
    ensures v !in r
    ensures multiset(r) == multiset(s)[v := 0]
    decreases |s|
  {
    if |s| == 0 then []
    else
      var rest := Without(s[..|s| - 1], v);
      assert s == s[..|s| - 1] + [s[|s| - 1]];
      if s[|s| - 1] == v then rest else rest + [s[|s| - 1]]
  }

  /** The store after adding `value` under `key`: duplicates are kept. */
  function Added(m: map<string, seq<string>>, key: string, value: string): map<string, seq<string>>
  {
    m[key := Lookup(m, key) + [value]]
  }

  /** The store after removing `value` from `key`. */
  function Removed(m: map<string, seq<string>>, key: string, value: string): map<string, seq<string>>
  {
    if key in m then m[key := Without(m[key], value)] else m
  }

  /** Adding puts one more copy of the value under the key and changes no other key. */
  lemma AddedCounts(m: map<string, seq<string>>, key: string, value: string, other: string)
    ensures multiset(Lookup(Added(m, key, value), key)) == multiset(Lookup(m, key)) + multiset{value}
    ensures other != key ==> Lookup(Added(m, key, value), other) == Lookup(m, other)
  {
  }

  /** Removing leaves no copy of the value under the key, keeps the other values and keys. */
  lemma RemovedCounts(m: map<string, seq<string>>, key: string, value: string, other: string)
    ensures value !in Lookup(Removed(m, key, value), key)
    ensures multiset(Lookup(Removed(m, key, value), key)) == multiset(Lookup(m, key))[value := 0]
    ensures other != key ==> Lookup(Removed(m, key, value), other) == Lookup(m, other)
  {
  }

  /** Outside `names`, the store `e` with TTLs `tt` holds what `e0` with `t0` held. */
  ghost predicate AgreeOutside(
    e0: map<string, seq<string>>, t0: map<string, int>,
    e: map<string, seq<string>>, tt: map<string, int>, names: set<string>)
  {
    forall k :: k !in names ==> Lookup(e, k) == Lookup(e0, k) && TtlOf(tt, k) == TtlOf(t0, k)
  }

  lemma AgreeOutsideTrans(
    e0: map<string, seq<string>>, t0: map<string, int>,
    e: map<string, seq<string>>, tt: map<string, int>,
    e': map<string, seq<string>>, tt': map<string, int>, names: set<string>, names': set<string>)
    requires AgreeOutside(e0, t0, e, tt, names)
    requires AgreeOutside(e, tt, e', tt', names')
    ensures AgreeOutside(e0, t0, e', tt', names + names')
  {
  }

  /**
    Go's `rand.Shuffle` on a slice: a Fisher-Yates shuffle in place.  The random source
    is a parameter: the draw at index `i` is `rng(i)` reduced to the range `0..i`.
   */
  method Shuffle(a: array<string>, rng: nat -> nat)
    modifies a
    ensures multiset(a[..]) == multiset(old(a[..]))
  {
    var i := a.Length - 1;
    while i > 0
      invariant i < a.Length
      invariant multiset(a[..]) == multiset(old(a[..]))
      decreases i
    {
      var j := rng(i) % (i + 1);
      a[i], a[j] := a[j], a[i];
      i := i - 1;
    }
  }

  class Directory {
    /** Whether a store and a gossip session are present. */
    const hasStore: bool
    const hasP2P: bool
    /** The store's TTLs for "short" mode and for every other mode. */
    const shortTtl: int
    const defaultTtl: int

    var entries: map<string, seq<string>>
    var ttls: map<string, int>
    var published: seq<Event>

    /** The store only accepts TTLs of at least one second. */
    predicate Valid()
    {
      shortTtl >= Second && defaultTtl >= Second
    }

    constructor (hasStore: bool, hasP2P: bool, shortTtl: int, defaultTtl: int)
      requires shortTtl >= Second && defaultTtl >= Second
      ensures Valid()
      ensures this.hasStore == hasStore && this.hasP2P == hasP2P
      ensures this.shortTtl == shortTtl && this.defaultTtl == defaultTtl
      ensures entries == map[] && ttls == map[] && published == []
    {
      this.hasStore := hasStore;
      this.hasP2P := hasP2P;
      this.shortTtl := shortTtl;
      this.defaultTtl := defaultTtl;
      entries := map[];
      ttls := map[];
      published := [];
    }

    function Stored(key: string): seq<string>
      reads this
    {
      Lookup(entries, key)
    }

    /** The store's duration for a mode: always one the store accepts. */
    function TimeToLive(mode: string): (d: int)
      requires Valid()
      ensures d >= Second
    {
      if mode == "short" then shortTtl else defaultTtl
    }

    /** The store's List: every value held under `key`, unless the store fails. */
    method StoreList(key: string) returns (values: seq<string>, ok: bool)
      ensures ok ==> values == Stored(key)
    {
      ok := *;
      values := if ok then Stored(key) else [];
    }

    /** The store's Add: one more copy of `value` under `key`, whose TTL becomes `ttl`. */
    method StoreAdd(key: string, value: string, ttl: int) returns (ok: bool)
      requires ttl >= Second
      modifies this
      ensures published == old(published)
      ensures ok ==> entries == Added(old(entries), key, value) && ttls == old(ttls)[key := ttl]
      ensures !ok ==> entries == old(entries) && ttls == old(ttls)
    {
      ok := *;
      if ok {
        entries := Added(entries, key, value);
        ttls := ttls[key := ttl];
      }
    }

    /** The store's Remove: every copy of `value` under `key` goes. */
    method StoreRemove(key: string, value: string) returns (ok: bool)
      modifies this
      ensures published == old(published) && ttls == old(ttls)
      ensures ok ==> entries == Removed(old(entries), key, value)
      ensures !ok ==> entries == old(entries)
    {
      ok := *;
      if ok {
        entries := Removed(entries, key, value);
      }
    }

    /** Publishing on the gossip room: the log records every attempt; the outcome only says whether it went out. */
    method PublishJson(context: string, payload: DirectoryEntry) returns (ok: bool)
      modifies this
      ensures published == old(published) + [Event(context, payload)]
      ensures entries == old(entries) && ttls == old(ttls)
    {
      ok := *;
      published := published + [Event(context, payload)];
    }

    method AddToDirectory(args: DirectoryEntry) returns (ok: bool)
      requires Valid()
      modifies this
      ensures published == old(published)
      ensures ok ==>
        entries == Added(old(entries), args.name, args.entry)
        && ttls == old(ttls)[args.name := TimeToLive(args.mode)]
      ensures !ok ==> entries == old(entries) && ttls == old(ttls)
    {
      ok := StoreAdd(args.name, args.entry, TimeToLive(args.mode));
    }

    method RemoveFromDirectory(args: DirectoryEntry) returns (ok: bool)
      modifies this
      ensures published == old(published) && ttls == old(ttls)
      ensures ok ==> entries == Removed(old(entries), args.name, args.entry)
      ensures !ok ==> entries == old(entries)
    {
      ok := StoreRemove(args.name, args.entry);
    }

    /**
      `Directory.List`.  `None` is the result left unset: no store, a confidential
      namespace without a valid signature, or a failing store (`listOk` is the store's
      outcome, false when it is not reached).  Otherwise the answer
      echoes the name and holds the stored values, or, when a positive limit is below
      their number, exactly `limit` of them drawn by a shuffle.
     */
    method List(args: DirectoryEntries, info: Policy, now: int, crypto: CryptoQuery -> bool, rng: nat -> nat)
      returns (result: Option<DirectoryEntriesResponse>, listOk: bool)
      ensures result.Some? <==>
        hasStore && (!info.confidential || args.VerifySignature(info, now, crypto) == Accepted) && listOk
      ensures !hasStore ==> result == None
      ensures info.confidential && args.VerifySignature(info, now, crypto).Rejected? ==> result == None
      ensures result.Some? ==> result.value.name == args.name
      ensures result.Some? ==> multiset(result.value.entries) <= multiset(Stored(args.name))
      ensures result.Some? && 0 < args.limit < |Stored(args.name)| ==>
        |result.value.entries| == args.limit
      ensures result.Some? && !(0 < args.limit < |Stored(args.name)|) ==>
        result.value.entries == Stored(args.name)
    {
      if !hasStore {
        return None, false;
      }
      if info.confidential {
        var verdict := args.VerifySignature(info, now, crypto);
        if verdict.Rejected? {
          return None, false;
        }
      }
      var values;
      values, listOk := StoreList(args.name);
      if !listOk {
        return None, false;
      }
      if 0 < args.limit < |values| {
        var a := new string[|values|](k requires 0 <= k < |values| => values[k]);
        assert a[..] == values;
        Shuffle(a, rng);
        assert a[..] == a[..args.limit] + a[args.limit..];
        values := a[..args.limit];
      }
      return Some(DirectoryEntriesResponse(args.name, values)), true;
    }

    /**
      `Directory.Add`.  `None` when the store or the gossip session is missing.  A
      read-only namespace needs a valid signature; without one, or when the store
      fails, the answer is an error and nothing changes (`storeOk` is the store's
      outcome, false when it is not reached).  Otherwise the value is
      stored with the mode's TTL, then the request is published once under the Add
      context, and the answer is success whatever the publication's outcome.
     */
    method Add(args: DirectoryEntry, info: Policy, now: int, crypto: CryptoQuery -> bool)
      returns (result: Option<Response>, storeOk: bool)
      requires Valid()
      modifies this
      ensures result.None? <==> !hasStore || !hasP2P
      ensures hasStore && hasP2P && (!info.readOnly || args.VerifySignature(info, now, crypto) == Accepted) ==>
        (result == Some(Response(Success)) <==> storeOk)
      ensures result == Some(Response(Success)) ==> storeOk
      ensures result.Some? ==> result.value.status == Success || result.value.status == Error
      ensures hasStore && hasP2P && info.readOnly && args.VerifySignature(info, now, crypto).Rejected? ==>
        result == Some(Response(Error))
      ensures result == Some(Response(Success)) ==>
        entries == Added(old(entries), args.name, args.entry)
        && ttls == old(ttls)[args.name := TimeToLive(args.mode)]
        && published == old(published) + [Event(AddContext, args)]
      ensures result != Some(Response(Success)) ==>
        entries == old(entries) && ttls == old(ttls) && published == old(published)
    {
      if !hasStore {
        return None, false;
      }
      if !hasP2P {
        return None, false;
      }
      if info.readOnly {
        var verdict := args.VerifySignature(info, now, crypto);
        if verdict.Rejected? {
          return Some(Response(Error)), false;
        }
      }
      storeOk := AddToDirectory(args);
      if !storeOk {
        return Some(Response(Error)), false;
      }
      var sent := PublishJson(AddContext, args);
      return Some(Response(Success)), true;
    }

    /**
      `Directory.Remove`.  `None` when the store is missing, when a read-only namespace
      lacks a valid signature, and (checked only after the signature) when the gossip
      session is missing; nothing changes then.  Otherwise the store's Remove runs, the
      request is published under the Remove context whether or not it succeeded, and
      the answer is success exactly when the store succeeded (`storeOk`, false when the
      store is not reached).
     */
    method Remove(args: DirectoryEntry, info: Policy, now: int, crypto: CryptoQuery -> bool)
      returns (result: Option<Response>, storeOk: bool)
      modifies this
      ensures ttls == old(ttls)
      ensures result.Some? ==> (result.value.status == Success <==> storeOk)
      ensures storeOk ==> result.Some? && entries == Removed(old(entries), args.name, args.entry)
      ensures result.Some? <==>
        hasStore && hasP2P && (!info.readOnly || args.VerifySignature(info, now, crypto) == Accepted)
      ensures result.None? ==> entries == old(entries) && published == old(published)
      ensures result.Some? ==> published == old(published) + [Event(RemoveContext, args)]
      ensures result == Some(Response(Success)) ==> entries == Removed(old(entries), args.name, args.entry)
      ensures result.Some? && result != Some(Response(Success)) ==>
        result == Some(Response(Error)) && entries == old(entries)
    {
      if !hasStore {
        return None, false;
      }
      if info.readOnly {
        var verdict := args.VerifySignature(info, now, crypto);
        if verdict.Rejected? {
          return None, false;
        }
      }
      if !hasP2P {
        return None, false;
      }
      var status := Success;
      storeOk := RemoveFromDirectory(args);
      if !storeOk {
        status := Error;
      }
      var sent := PublishJson(RemoveContext, args);
      return Some(Response(status)), storeOk;
    }

    /**
      One iteration of the replication loop: decide with `Step`, then perform the
      effect.  `storeOk` is false exactly when a store write was attempted and failed.
     */
    method HandleInput(s: LoopState, input: Input) returns (next: LoopState, stop: bool, storeOk: bool)
      requires Valid()
      modifies this
      ensures next == Step(s, input).0
      ensures stop <==> Step(s, input).1 == Terminate
      ensures published == old(published) +
        (if Step(s, input).1.PublishHeartbeat? then [Step(s, input).1.event] else [])
      ensures Step(s, input).1.StoreAdd? && storeOk ==>
        entries == Added(old(entries), input.payload.value.name, input.payload.value.entry)
        && ttls == old(ttls)[input.payload.value.name := TimeToLive(input.payload.value.mode)]
      ensures Step(s, input).1.StoreRemove? && storeOk ==>
        entries == Removed(old(entries), input.payload.value.name, input.payload.value.entry)
        && ttls == old(ttls)
      ensures !(Step(s, input).1.StoreAdd? || Step(s, input).1.StoreRemove?) || !storeOk ==>
        entries == old(entries) && ttls == old(ttls)
      ensures !(Step(s, input).1.StoreAdd? || Step(s, input).1.StoreRemove?) ==> storeOk
      ensures AgreeOutside(old(entries), old(ttls), entries, ttls, WrittenBy(input))
    {
      var effect;
      next, effect := Step(s, input).0, Step(s, input).1;
      stop, storeOk := false, true;
      match effect {
        case NoEffect =>
        case StoreAdd(p) =>
          storeOk := AddToDirectory(p);
        case StoreRemove(p) =>
          storeOk := RemoveFromDirectory(p);
        case PublishHeartbeat(e) =>
          var sent := PublishJson(e.context, e.payload);
        case Terminate =>
          stop := true;
      }
    }

    /**
      The replication loop over a finite sequence of inputs.  It does not start without a
      bootstrap address, a room, a store and a gossip session.  Once started, it follows
      `Replay` from the startup state: the same final state and termination time, the
      same heartbeats published, and no namespace changed in the store unless a peer
      write addressed it.
     */
    method StartP2PDirectory(bootstrap: string, room: string, start: int, inputs: seq<Input>)
      returns (started: bool, final: LoopState, stoppedAt: Option<int>)
      requires Valid()
      modifies this
      ensures started <==> Start(bootstrap, room, hasStore, hasP2P, start).Some?
      ensures !started ==> entries == old(entries) && ttls == old(ttls) && published == old(published)
      ensures started ==>
        var t := Replay(Start(bootstrap, room, hasStore, hasP2P, start).value, inputs);
        final == t.state && stoppedAt == t.stoppedAt && published == old(published) + t.published
        && AgreeOutside(old(entries), old(ttls), entries, ttls, t.touched)
    {
      var init := Start(bootstrap, room, hasStore, hasP2P, start);
      if init.None? {
        return false, LoopState(0, start), None;
      }
      started := true;
      var s0 := init.value;
      ghost var e0, t0, p0 := entries, ttls, published;
      var s := s0;
      stoppedAt := None;
      var i := 0;
      while i < |inputs| && stoppedAt.None?
        invariant 0 <= i <= |inputs|
        invariant s == Replay(s0, inputs[..i]).state
        invariant stoppedAt == Replay(s0, inputs[..i]).stoppedAt
        invariant published == p0 + Replay(s0, inputs[..i]).published
        invariant AgreeOutside(e0, t0, entries, ttls, Replay(s0, inputs[..i]).touched)
        decreases |inputs| - i
      {
        ReplayExtend(s0, inputs, i);
        ghost var t := Replay(s0, inputs[..i]);
        ghost var e1, t1 := entries, ttls;
        var stop, storeOk;
        s, stop, storeOk := HandleInput(s, inputs[i]);
        AgreeOutsideTrans(e0, t0, e1, t1, entries, ttls, t.touched, WrittenBy(inputs[i]));
        if stop {
          stoppedAt := Some(inputs[i].now);
        }
        i := i + 1;
      }
      if stoppedAt.Some? {
        StoppedStaysStopped(s0, inputs, i);
      } else {
        assert inputs[..i] == inputs;
      }
      final := s;
    }
  }
}
