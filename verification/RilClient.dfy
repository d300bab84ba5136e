/**
  Requests to the modem (secril-client.cpp): a 32-bit token pool, the history of
  the requests that are not answered yet, and a table of handlers.
*/
module RilClient {
  import opened Wrappers

  const TOKEN_POOL_SIZE := 32
  const REQ_POOL_SIZE := 32

  /** A 32-bit word, as the set of its one bits: | is union, & intersection, & ~ difference. */
  type Word = s: set<int> | s <= ALL_BITS
  const ALL_BITS: set<int> := set i | 0 <= i < 32
  const ZERO: Word := {}

  /** 1 << i */
  function Bit(i: nat): Word
    requires i < 32
  {
    {i}
  }

  type Handler = nat
  datatype ReqHistory = ReqHistory(token: Word, id: int)
  datatype ReqRespHandler = ReqRespHandler(id: int, handler: Option<Handler>)

  const NO_HISTORY := ReqHistory(ZERO, 0)
  const NO_HANDLER := ReqRespHandler(0, None)

  const REQ_GET_CALL_MUTE := 106

  datatype Error = Success | Again | Inval | Connect | Io | Resource | Unknown

  // ----- The pool ------------------------------------------------------------------------------

  /** AllocateToken: the lowest free bit, or zero. */
  function Allocated(pool: Word): (token: Word)
    ensures pool == ALL_BITS <==> token == ZERO
    ensures token != ZERO ==> exists i :: 0 <= i < 32 && token == Bit(i) && i !in pool && forall j | 0 <= j < i :: j in pool
  {
    if pool == ALL_BITS then ZERO
    else
      var i := LowestFree(pool, 0);
      Bit(i)
  }

  function LowestFree(pool: Word, from: nat): (i: nat)
    requires from < 32 && pool != ALL_BITS && forall j | 0 <= j < from :: j in pool
    ensures from <= i < 32 && i !in pool && forall j | 0 <= j < i :: j in pool
    decreases 32 - from
  {
    if from !in pool then from
    else
      assert from == 31 ==> pool == ALL_BITS;
      LowestFree(pool, from + 1)
  }

  /** IsValidToken: all its bits are taken. */
  predicate IsValid(pool: Word, token: Word) {
    token != ZERO && pool * token == token
  }

  // ----- The history ----------------------------------------------------------------------------

  /** The index of the first element with a property, or the length. */
  function First<T>(s: seq<T>, p: T -> bool): (k: nat)
    ensures k <= |s| && (k < |s| ==> p(s[k]))
    ensures forall j | 0 <= j < k :: !p(s[j])
  {
    if s == [] then 0
    else
      var k := First(s[..|s| - 1], p);
      if k < |s| - 1 || p(s[k]) then k else k + 1
  }

  /** The first slot with this token, or the number of slots. */
  function Slot(h: seq<ReqHistory>, token: Word): (k: nat)
    ensures k <= |h| && (k < |h| ==> h[k].token == token)
    ensures forall j | 0 <= j < k :: h[j].token != token
  {
    First(h, (r: ReqHistory) => r.token == token)
  }

  /** ClearReqHistory */
  function Cleared(h: seq<ReqHistory>, token: Word): seq<ReqHistory> {
    var k := Slot(h, token);
    if k == |h| then h else h[k := NO_HISTORY]
  }

  /** The bits of the tokens in the first `n` slots. */
  function Union(h: seq<ReqHistory>, n: nat): Word
    requires n <= |h|
  {
    if n == 0 then ZERO else Union(h, n - 1) + h[n - 1].token
  }

  /** A state of pool and history. */
  datatype Tokens = Tokens(pool: Word, history: seq<ReqHistory>)

  /** The tokens in the history are distinct single bits, and together they are the pool. */
  ghost predicate Consistent(s: Tokens) {
    && |s.history| == TOKEN_POOL_SIZE
    && (forall k | 0 <= k < |s.history| ::
          if s.history[k].token == ZERO then s.history[k] == NO_HISTORY else |s.history[k].token| == 1)
    && (forall j, k | 0 <= j < k < |s.history| && s.history[j].token != ZERO :: s.history[j].token != s.history[k].token)
    && Union(s.history, |s.history|) == s.pool
  }

  lemma {:induction false} UnionHas(h: seq<ReqHistory>, n: nat, i: int)
    requires n <= |h|
    ensures i in Union(h, n) <==> exists k :: 0 <= k < n && i in h[k].token
  {
    if n > 0 {
      UnionHas(h, n - 1, i);
    }
  }

  lemma SingleIs(t: Word, i: int)
    requires |t| == 1 && i in t
    ensures t == {i}
  {
    assert |t - {i}| == 0;
  }

  /** Two single-bit tokens with a bit in common are the same. */
  lemma SinglesDisjoint(a: Word, b: Word)
    requires |a| == 1 && |b| == 1 && a != b
    ensures a * b == {}
  {
    if i :| i in a * b {
      SingleIs(a, i);
      SingleIs(b, i);
    }
  }

  lemma {:induction false} FullUnion(h: seq<ReqHistory>, n: nat)
    requires n <= |h|
    requires forall k | 0 <= k < n :: |h[k].token| == 1
    requires forall j, k | 0 <= j < k < n :: h[j].token != h[k].token
    ensures |Union(h, n)| == n
  {
    if n > 0 {
      FullUnion(h, n - 1);
      var t := h[n - 1].token;
      forall k | 0 <= k < n - 1
        ensures h[k].token * t == {}
      {
        SinglesDisjoint(h[k].token, t);
      }
      UnionDisjoint(h, n - 1, t);
    }
  }

  lemma {:induction false} UnionDisjoint(h: seq<ReqHistory>, n: nat, t: Word)
    requires n <= |h| && forall k | 0 <= k < n :: h[k].token * t == {}
    ensures Union(h, n) * t == {}
  {
    if n > 0 {
      UnionDisjoint(h, n - 1, t);
      assert h[n - 1].token * t == {};
    }
  }

  function FirstBits(n: nat): (s: set<int>)
    ensures |s| == n && forall i :: i in s <==> 0 <= i < n
  {
    if n == 0 then {} else FirstBits(n - 1) + {n - 1}
  }

  lemma SubsetFull(s: Word)
    requires |s| == 32
    ensures s == ALL_BITS
  {
    hide FirstBits;
    assert FirstBits(32) == ALL_BITS;
    assert |ALL_BITS - s| == |ALL_BITS| - |s|;
  }

  /** While a token is left, a slot is free: recording never fails. */
  lemma {:induction false} RecordNeverFails(s: Tokens)
    requires Consistent(s) && s.pool != ALL_BITS
    ensures Slot(s.history, ZERO) < TOKEN_POOL_SIZE
  {
    var h := s.history;
    if Slot(h, ZERO) == |h| {
      FullUnion(h, |h|);
      SubsetFull(s.pool);
      assert false;
    }
  }

  /** Recording one token more, in a free slot. */
  function Recorded(s: Tokens, token: Word, id: int): Tokens
    requires Slot(s.history, ZERO) < |s.history|
  {
    Tokens(s.pool + token, s.history[Slot(s.history, ZERO) := ReqHistory(token, id)])
  }

  /** FreeToken and ClearReqHistory */
  function Freed(s: Tokens, token: Word): Tokens {
    Tokens(s.pool - token, Cleared(s.history, token))
  }

  lemma {:induction false} UnionUpdate(h: seq<ReqHistory>, k: nat, r: ReqHistory, i: int)
    requires k < |h|
    ensures i in Union(h[k := r], |h|) <==> i in r.token || exists j :: 0 <= j < |h| && j != k && i in h[j].token
  {
    UnionHas(h[k := r], |h|, i);
    if i in r.token {
      assert i in h[k := r][k].token;
    }
    if j :| 0 <= j < |h| && j != k && i in h[j].token {
      assert i in h[k := r][j].token;
    }
  }

  lemma RecordedConsistent(s: Tokens, i: nat, id: int)
    requires Consistent(s) && i < 32 && i !in s.pool && Slot(s.history, ZERO) < |s.history|
    ensures Consistent(Recorded(s, Bit(i), id))
  {
    hide Slot, Union;
    var h, k, t := s.history, Slot(s.history, ZERO), Recorded(s, Bit(i), id);
    forall j | 0 <= j < |h|
      ensures h[j].token != Bit(i)
    {
      if h[j].token == Bit(i) {
        assert i in h[j].token;
        UnionHas(h, |h|, i);
      }
    }
    forall b: int
      ensures b in Union(t.history, |h|) <==> b in t.pool
    {
      UnionUpdate(h, k, ReqHistory(Bit(i), id), b);
      UnionHas(h, |h|, b);
    }
    assert Union(t.history, |t.history|) == t.pool;
  }

  /** Freeing the token of one slot. */
  lemma FreedConsistent(s: Tokens, k: nat)
    requires Consistent(s) && k < |s.history| && s.history[k].token != ZERO
    ensures Consistent(Freed(s, s.history[k].token)) && Slot(s.history, s.history[k].token) == k
    ensures Freed(s, s.history[k].token).history == s.history[k := NO_HISTORY]
  {
    hide Union;
    var h, token := s.history, s.history[k].token;
    var t := Freed(s, token);
    assert Slot(h, token) == k;
    forall b: int
      ensures b in Union(t.history, |h|) <==> b in t.pool
    {
      UnionUpdate(h, k, NO_HISTORY, b);
      UnionHas(h, |h|, b);
      forall j | 0 <= j < |h| && j != k && h[j].token != ZERO
        ensures h[j].token * token == {}
      {
        SinglesDisjoint(h[j].token, token);
      }
      if j :| 0 <= j < |h| && j != k && b in h[j].token {
        assert b !in h[j].token * token;
      }
    }
    assert Union(t.history, |t.history|) == t.pool;
  }

  /** A response that echoes a token: a token that is not issued changes nothing. */
  function Answered(s: Tokens, token: Word): Tokens {
    if IsValid(s.pool, token) then Freed(s, token) else s
  }

  lemma IssuedSlot(s: Tokens, token: Word)
    returns (k: nat)
    requires Consistent(s) && IsValid(s.pool, token) && |token| == 1
    ensures k < |s.history| && s.history[k].token == token
  {
    var i :| i in token;
    SingleIs(token, i);
    UnionHas(s.history, |s.history|, i);
    k :| 0 <= k < |s.history| && i in s.history[k].token;
    SingleIs(s.history[k].token, i);
  }

  /** Pool and history stay consistent exactly when the token is a single bit, or not an issued one:
      of a token with several bits the pool forgets all, and the history none. */
  lemma {:induction false} AnsweredExactly(s: Tokens, token: Word)
    requires Consistent(s)
    ensures Consistent(Answered(s, token)) <==> !IsValid(s.pool, token) || |token| == 1
  {
    if IsValid(s.pool, token) {
      if |token| == 1 {
        var k := IssuedSlot(s, token);
        FreedConsistent(s, k);
      } else {
        assert Slot(s.history, token) == |s.history|;
        var i :| i in token;
        assert i in s.pool && i !in Freed(s, token).pool;
      }
    }
  }

  /** An answered token frees exactly one slot, and exactly its bit. */
  lemma {:induction false} AnsweredFreesOne(s: Tokens, token: Word)
    requires Consistent(s) && IsValid(s.pool, token) && |token| == 1
    ensures exists k :: (0 <= k < |s.history| && s.history[k].token == token
                         && Answered(s, token) == Tokens(s.pool - token, s.history[k := NO_HISTORY]))
  {
    var k := IssuedSlot(s, token);
    FreedConsistent(s, k);
  }

  /** A request recorded and given up again leaves no trace. */
  lemma {:induction false} RecordedThenFreed(s: Tokens, i: nat, id: int)
    requires Consistent(s) && i < 32 && i !in s.pool && Slot(s.history, ZERO) < |s.history|
    ensures Freed(Recorded(s, Bit(i), id), Bit(i)) == s
  {
    var k, t := Slot(s.history, ZERO), Recorded(s, Bit(i), id);
    RecordedConsistent(s, i, id);
    FreedConsistent(t, k);
    assert s.history[k] == NO_HISTORY;
    assert t.history[k := NO_HISTORY] == s.history;
    assert s.pool + Bit(i) - Bit(i) == s.pool;
  }

  // ----- Handlers --------------------------------------------------------------------------------------

  /** The first slot with this request, or the number of slots. */
  function HandlerSlot(hs: seq<ReqRespHandler>, id: int): (k: nat)
    ensures k <= |hs| && (k < |hs| ==> hs[k].id == id)
    ensures forall j | 0 <= j < k :: hs[j].id != id
  {
    First(hs, (r: ReqRespHandler) => r.id == id)
  }

  /** The handler the table holds for a request. */
  function Lookup(hs: seq<ReqRespHandler>, id: int): Option<Handler> {
    var k := HandlerSlot(hs, id);
    if k < |hs| then hs[k].handler else None
  }

  /** FindReqHandler, from slot `i` of the history on: a request recorded with the token that the table has. */
  function FindId(h: seq<ReqHistory>, hs: seq<ReqRespHandler>, token: Word, i: nat): (id: Option<int>)
    requires i <= |h|
    ensures id.Some? ==>
      && HandlerSlot(hs, id.value) < |hs| && exists k :: i <= k < |h| && h[k] == ReqHistory(token, id.value)
    decreases |h| - i
  {
    if i == |h| then None
    else if h[i].token == token && HandlerSlot(hs, h[i].id) < |hs| then
      assert h[i] == ReqHistory(token, h[i].id);
      Some(h[i].id)
    else FindId(h, hs, token, i + 1)
  }

  function FindHandler(h: seq<ReqHistory>, hs: seq<ReqRespHandler>, token: Word): Option<Handler> {
    var id := FindId(h, hs, token, 0);
    if id.Some? then Lookup(hs, id.value) else None
  }

  /** The last slot with this request, as the registration finds it, or the number of slots. */
  function LastSlot(hs: seq<ReqRespHandler>, id: int): (k: nat)
    ensures k <= |hs| && (k < |hs| ==> hs[k].id == id)
    ensures forall j | (if k == |hs| then 0 else k + 1) <= j < |hs| :: hs[j].id != id
  {
    if hs == [] then 0
    else if hs[|hs| - 1].id == id then |hs| - 1
    else
      var k := LastSlot(hs[..|hs| - 1], id);
      if k == |hs| - 1 then |hs| else k
  }

  datatype Registration = Registration(result: Error, handlers: seq<ReqRespHandler>)

  /** RegisterRequestCompleteHandler; no handler deregisters. */
  function Registered(hs: seq<ReqRespHandler>, id: int, handler: Option<Handler>): Registration {
    var k, e := LastSlot(hs, id), HandlerSlot(hs, 0);
    if handler.None? then Registration(Success, if k < |hs| then hs[k := NO_HANDLER] else hs)
    else if k < |hs| then Registration(Success, hs[k := hs[k].(handler := handler)])
    else if e < |hs| then Registration(Success, hs[e := ReqRespHandler(id, handler)])
    else Registration(Resource, hs)
  }

  /** One slot per request; empty slots have no handler. */
  ghost predicate Table(hs: seq<ReqRespHandler>) {
    && (forall k | 0 <= k < |hs| :: hs[k].id == 0 <==> hs[k].handler.None?)
    && (forall j, k | 0 <= j < k < |hs| && hs[j].id != 0 :: hs[j].id != hs[k].id)
  }

  /** The table is a partial map with room for as many requests as it has slots. */
  lemma {:induction false} RegisteredMap(hs: seq<ReqRespHandler>, id: int, handler: Option<Handler>, other: int)
    requires Table(hs) && id != 0 && other != 0
    ensures var r := Registered(hs, id, handler);
      && Table(r.handlers) && |r.handlers| == |hs|
      && (r.result == Resource <==> handler.Some? && Lookup(hs, id).None? && forall k | 0 <= k < |hs| :: hs[k].id != 0)
      && (r.result != Resource ==> Lookup(r.handlers, other) == if other == id then handler else Lookup(hs, other))
      && (r.result == Resource ==> r.handlers == hs)
  {
    hide First, LastSlot, HandlerSlot;
    var r := Registered(hs, id, handler);
    var k, e, o := LastSlot(hs, id), HandlerSlot(hs, 0), HandlerSlot(hs, other);
    assert HandlerSlot(hs, id) == k;
    assert Table(r.handlers);
    if r.result != Resource {
      if other != id {
        if o < |hs| {
          assert r.handlers[o] == hs[o];
          SlotIs(r.handlers, o);
        } else {
          assert HandlerSlot(r.handlers, other) == |hs|;
        }
      } else if handler.Some? {
        SlotIs(r.handlers, if k < |hs| then k else e);
      } else {
        assert HandlerSlot(r.handlers, id) == |hs|;
      }
    }
  }

  lemma SlotIs(hs: seq<ReqRespHandler>, k: nat)
    requires Table(hs) && k < |hs| && hs[k].id != 0
    ensures HandlerSlot(hs, hs[k].id) == k
  {
  }

  // ----- The client --------------------------------------------------------------------------------------

  /** What the two writes to the socket come to. */
  datatype Transmission = Transmitted | Fails(broken: bool)

  class RilClientPrv {
    var tokenPool: Word                         // token_pool
    const history: array<ReqHistory>            // history
    const reqHandlers: array<ReqRespHandler>    // req_handlers
    var connected: bool                         // sock >= 0
    var delHandler: bool                        // b_del_handler

    ghost function Now(): Tokens
      reads this, history
    {
      Tokens(tokenPool, history[..])
    }

    ghost predicate Valid()
      reads this, history, reqHandlers
    {
      history.Length == TOKEN_POOL_SIZE && reqHandlers.Length == REQ_POOL_SIZE && Consistent(Now()) && Table(reqHandlers[..])
    }

    constructor ()
      ensures Valid() && fresh(history) && fresh(reqHandlers) && !connected && tokenPool == ZERO
    {
      tokenPool, connected, delHandler := ZERO, false, false;
      history := new ReqHistory[TOKEN_POOL_SIZE](_ => NO_HISTORY);
      reqHandlers := new ReqRespHandler[REQ_POOL_SIZE](_ => NO_HANDLER);
      new;
      NothingIssued(history[..], |history[..]|);
    }

    method AllocateToken() returns (token: Word)
      modifies `tokenPool
      ensures token == Allocated(old(tokenPool)) && tokenPool == old(tokenPool) + token
    {
      token := ZERO;
      if tokenPool == ALL_BITS {
        return;
      }
      for i := 0 to 32
        invariant forall j | 0 <= j < i :: j in tokenPool
        invariant tokenPool == old(tokenPool)
      {
        var newToken := Bit(i);
        if tokenPool * newToken == ZERO {
          assert i in tokenPool ==> i in tokenPool * newToken;
          assert Allocated(tokenPool) == newToken;
          tokenPool := tokenPool + newToken;
          return newToken;
        }
        NotFree(tokenPool, i);
      }
      AllTaken(tokenPool);
      assert false;
    }

    method FreeToken(token: Word)
      modifies `tokenPool
      ensures tokenPool == old(tokenPool) - token
    {
      tokenPool := tokenPool - token;
    }

    method RecordReqHistory(token: Word, id: int) returns (r: Error)
      modifies history
      ensures var k := Slot(old(history[..]), ZERO);
        if k < history.Length then r == Success && history[..] == old(history[..])[k := ReqHistory(token, id)]
        else r == Resource && history[..] == old(history[..])
    {
      ghost var h := history[..];
      for i := 0 to history.Length
        invariant forall j | 0 <= j < i :: h[j].token != ZERO
        invariant history[..] == h
      {
        if history[i].token == ZERO {
          assert Slot(h, ZERO) == i;
          history[i] := ReqHistory(token, id);
          return Success;
        }
      }
      assert Slot(h, ZERO) == |h|;
      return Resource;
    }

    method ClearReqHistory(token: Word)
      modifies history
      ensures history[..] == Cleared(old(history[..]), token)
    {
      ghost var h := history[..];
      for i := 0 to history.Length
        invariant forall j | 0 <= j < i :: h[j].token != token
        invariant history[..] == h
      {
        if history[i].token == token {
          assert Slot(h, token) == i;
          history[i] := NO_HISTORY;
          return;
        }
      }
      assert Slot(h, token) == |h|;
    }

    method FindReqHandler(token: Word) returns (handler: Option<Handler>, id: int)
      ensures handler == FindHandler(history[..], reqHandlers[..], token)
      ensures FindId(history[..], reqHandlers[..], token, 0).Some? ==>
        FindId(history[..], reqHandlers[..], token, 0) == Some(id)
    {
      id := 0;
      for i := 0 to history.Length
        invariant FindId(history[..], reqHandlers[..], token, 0) == FindId(history[..], reqHandlers[..], token, i)
      {
        if history[i].token == token {
          for j := 0 to reqHandlers.Length
            invariant forall k | 0 <= k < j :: reqHandlers[k].id != history[i].id
          {
            if reqHandlers[j].id == history[i].id {
              assert HandlerSlot(reqHandlers[..], history[i].id) == j;
              return reqHandlers[j].handler, reqHandlers[j].id;
            }
          }
          assert HandlerSlot(reqHandlers[..], history[i].id) == reqHandlers.Length;
        }
      }
      handler := None;
    }

    method RegisterRequestCompleteHandler(id: int, handler: Option<Handler>) returns (r: Error)
      modifies reqHandlers
      ensures Registered(old(reqHandlers[..]), id, handler) == Registration(r, reqHandlers[..])
      ensures old(Valid()) && id != 0 ==> Valid()
    {
      if Valid() && id != 0 {
        RegisteredMap(reqHandlers[..], id, handler, id);
      }
      ghost var hs := reqHandlers[..];
      var match_, empty := reqHandlers.Length, reqHandlers.Length;
      for i := 0 to reqHandlers.Length
        invariant 0 <= match_ && (match_ == |hs| || (match_ < i && hs[match_].id == id))
        invariant forall j | (if match_ == |hs| then 0 else match_ + 1) <= j < i :: hs[j].id != id
        invariant 0 <= empty && (empty == |hs| || (empty < i && hs[empty].id == 0))
        invariant forall j | 0 <= j < i && j < empty :: hs[j].id != 0
      {
        if id == reqHandlers[i].id {
          match_ := i;
        }
        if empty == reqHandlers.Length && reqHandlers[i].id == 0 {
          empty := i;
        }
      }
      assert LastSlot(hs, id) == match_ && HandlerSlot(hs, 0) == empty;
      if handler.None? {
        if match_ < reqHandlers.Length {
          reqHandlers[match_] := NO_HANDLER;
        }
        return Success;
      }
      if match_ < reqHandlers.Length {
        reqHandlers[match_] := reqHandlers[match_].(handler := handler);
      } else if empty < reqHandlers.Length {
        reqHandlers[empty] := ReqRespHandler(id, handler);
      } else {
        return Resource;
      }
      return Success;
    }

    /**
      SendOemRequestHookRaw: only a request that was sent and has a handler takes a token
      and a slot; every other outcome leaves pool and history as they were.
      */
    method SendOemRequestHookRaw(reqId: int, tx: Transmission) returns (r: Error)
      requires Valid()
      modifies `tokenPool, `connected, history
      ensures Valid()
      ensures old(!connected || tokenPool == ALL_BITS) <==> r == Again
      ensures r in {Again, Success, Unknown} && (r == Unknown <==> old(connected && tokenPool != ALL_BITS) && tx.Fails?)
      ensures connected == (old(connected) && (r == Unknown ==> !tx.broken))
      ensures if r == Success && Lookup(reqHandlers[..], reqId).Some?
        then old(Slot(history[..], ZERO)) < history.Length
             && Now() == Recorded(old(Now()), Allocated(old(tokenPool)), reqId)
        else Now() == old(Now())
    {
      hide Slot, Consistent, HandlerSlot, FindHandler, Allocated, Lookup;
      if !connected {
        return Again;
      }
      ghost var was := Now();
      var token := AllocateToken();
      if token == ZERO {
        assert Now() == was;
        return Again;
      }
      RecordNeverFails(was);
      ghost var i: nat :| i < 32 && token == Bit(i) && i !in was.pool;
      RecordedConsistent(was, i, reqId);
      RecordedThenFreed(was, i, reqId);
      var recorded := RecordReqHistory(token, reqId);
      assert Now() == Recorded(was, token, reqId) && recorded == Success;
      if tx.Fails? {
        FreeToken(token);
        ClearReqHistory(token);
        if tx.broken {
          connected := false;
        }
        return Unknown;
      }
      FoundForRecorded(was, reqHandlers[..], token, reqId);
      var handler, _ := FindReqHandler(token);
      if handler.None? {
        FreeToken(token);
        ClearReqHistory(token);
      }
      return Success;
    }

    /** GetMute: its handler is to be removed by the next response that finds a handler. The registration's own
        result is not looked at. */
    method GetMute(handler: Handler, tx: Transmission) returns (r: Error)
      requires Valid()
      modifies `tokenPool, `connected, `delHandler, history, reqHandlers
      ensures Valid() && (r == Connect <==> old(!connected))
      ensures r == Again <==> old(connected && tokenPool == ALL_BITS)
      ensures r == Unknown <==> old(connected && tokenPool != ALL_BITS) && tx.Fails?
      ensures r in {Success, Connect, Again, Unknown}
      ensures delHandler == (old(delHandler) || r != Connect)
      ensures connected == (old(connected) && (r == Unknown ==> !tx.broken))
      ensures var hs := Registered(old(reqHandlers[..]), REQ_GET_CALL_MUTE, Some(handler)).handlers;
        reqHandlers[..] == if r == Connect then old(reqHandlers[..])
                           else if r == Success then hs else Registered(hs, REQ_GET_CALL_MUTE, None).handlers
      ensures if r == Success && Lookup(reqHandlers[..], REQ_GET_CALL_MUTE).Some?
        then old(Slot(history[..], ZERO)) < history.Length
             && Now() == Recorded(old(Now()), Allocated(old(tokenPool)), REQ_GET_CALL_MUTE)
        else Now() == old(Now())
      ensures r == Success || r == Connect || Lookup(reqHandlers[..], REQ_GET_CALL_MUTE) == None
    {
      hide Slot, Consistent, HandlerSlot, FindHandler, Lookup, Registered, Table, Recorded, Allocated;
      if !connected {
        return Connect;
      }
      delHandler := true;
      var _ := RegisterRequestCompleteHandler(REQ_GET_CALL_MUTE, Some(handler));
      r := SendOemRequestHookRaw(REQ_GET_CALL_MUTE, tx);
      if r != Success {
        TableOf();
        RegisteredMap(reqHandlers[..], REQ_GET_CALL_MUTE, None, REQ_GET_CALL_MUTE);
        var _ := RegisterRequestCompleteHandler(REQ_GET_CALL_MUTE, None);
      }
    }

    lemma TableOf()
      requires Valid()
      ensures Table(reqHandlers[..]) && Consistent(Now())
    {
    }

    /** processSolicited: whatever token the response has. A handler that is found is called,
        and removed when b_del_handler is set. */
    method ProcessSolicited(token: Word, readable: bool, failed: bool) returns (r: Error, called: Option<Handler>)
      requires Valid()
      modifies `tokenPool, `delHandler, history, reqHandlers
      ensures Now() == Answered(old(Now()), token) && Table(reqHandlers[..]) && reqHandlers.Length == REQ_POOL_SIZE
      ensures Valid() <==> !IsValid(old(tokenPool), token) || |token| == 1
      ensures r == (if !IsValid(old(tokenPool), token) then Inval else if !readable then Io else Success)
      ensures called == (if r == Success && !failed then FindHandler(old(history[..]), old(reqHandlers[..]), token) else None)
      ensures delHandler == (old(delHandler) && called.None?)
      ensures !old(delHandler) || called.None? ==> reqHandlers[..] == old(reqHandlers[..])
      ensures old(delHandler) && called.Some? ==>
        && FindId(old(history[..]), old(reqHandlers[..]), token, 0).Some?
        && var id := FindId(old(history[..]), old(reqHandlers[..]), token, 0).value;
           reqHandlers[..] == Registered(old(reqHandlers[..]), id, None).handlers
    {
      hide Slot, Consistent, HandlerSlot, FindId, Lookup, LastSlot, Registered, Table;
      ghost var was := Now();
      TableOf();
      called := None;
      AnsweredExactly(was, token);
      if !IsValid(tokenPool, token) {
        return Inval, None;
      }
      r := Success;
      if !readable {
        r := Io;
      } else if !failed {
        var id;
        called, id := FindReqHandler(token);
        if called.Some? && delHandler {
          delHandler := false;
          RemovedTable(reqHandlers[..], id);
          var _ := RegisterRequestCompleteHandler(id, None);
        }
      }
      FreeToken(token);
      ClearReqHistory(token);
      assert Now() == Freed(was, token);
    }
  }

  lemma NotFree(pool: Word, i: nat)
    requires i < 32 && pool * Bit(i) != ZERO
    ensures i in pool
  {
  }

  lemma AllTaken(pool: Word)
    ensures (forall j | 0 <= j < 32 :: j in pool) ==> pool == ALL_BITS
  {
  }

  lemma {:induction false} NothingIssued(h: seq<ReqHistory>, n: nat)
    requires n <= |h| && forall k | 0 <= k < |h| :: h[k] == NO_HISTORY
    ensures Union(h, n) == ZERO
  {
    if n > 0 {
      NothingIssued(h, n - 1);
    }
  }

  /** A token with no bit in the pool is in no slot. */
  lemma IssuedElsewhere(s: Tokens, token: Word, j: nat)
    requires Consistent(s) && |token| == 1 && token * s.pool == {} && j < |s.history|
    ensures s.history[j].token != token
  {
    var i :| i in token;
    UnionHas(s.history, |s.history|, i);
    assert i !in s.pool by { assert i in s.pool ==> i in token * s.pool; }
    assert i !in s.history[j].token;
  }

  /** What FindReqHandler finds for the token just recorded. */
  lemma FoundForRecorded(s: Tokens, hs: seq<ReqRespHandler>, token: Word, id: int)
    requires Consistent(s) && |token| == 1 && token * s.pool == {} && Slot(s.history, ZERO) < |s.history|
    ensures FindHandler(Recorded(s, token, id).history, hs, token) == Lookup(hs, id)
  {
    var k, h := Slot(s.history, ZERO), Recorded(s, token, id).history;
    forall j | 0 <= j < |h| && j != k
      ensures h[j].token != token
    {
      IssuedElsewhere(s, token, j);
    }
    FoundAt(h, hs, token, k, 0);
  }

  /** The handler called for an issued token is the one registered for the request it was issued for. */
  lemma {:induction false} AnsweredCalls(s: Tokens, hs: seq<ReqRespHandler>, k: nat)
    requires Consistent(s) && k < |s.history| && s.history[k].token != ZERO
    ensures FindHandler(s.history, hs, s.history[k].token) == Lookup(hs, s.history[k].id)
  {
    FoundAt(s.history, hs, s.history[k].token, k, 0);
  }

  lemma {:induction false} FoundAt(h: seq<ReqHistory>, hs: seq<ReqRespHandler>, token: Word, k: nat, i: nat)
    requires k < |h| && h[k].token == token && forall j | 0 <= j < |h| && j != k :: h[j].token != token
    requires i <= |h|
    ensures FindId(h, hs, token, i) == if i <= k && HandlerSlot(hs, h[k].id) < |hs| then Some(h[k].id) else None
    decreases |h| - i
  {
    hide HandlerSlot;
    if i < |h| {
      FoundAt(h, hs, token, k, i + 1);
    }
  }

  lemma RemovedTable(hs: seq<ReqRespHandler>, id: int)
    requires Table(hs)
    ensures Table(Registered(hs, id, None).handlers) && |Registered(hs, id, None).handlers| == |hs|
  {
  }
}
