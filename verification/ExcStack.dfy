/**
  The exception-state stack of a thread: tstate->exc_info is the head of a linked list of
  items. A send pushes the item embedded in its compute object; an error path pushes a second
  item that lives on the C stack while the waiters are notified. User code run in between may
  send to computes, or close or throw into them, to any depth, even to one that is being sent to.
*/
module ExcStack {
  import opened Basics

  class ExcItem {
    const excValue: int
    var previous: ExcItem?

    constructor (excValue: int, previous: ExcItem?)
      ensures this.excValue == excValue && this.previous == previous
    {
      this.excValue, this.previous := excValue, previous;
    }
  }

  class Thread {
    var excInfo: ExcItem?
    ghost var seen: seq<Option<int>>   // the current exception, each time user code is entered
  }

  /** The exception that code running now takes for the current one. */
  ghost function Current(top: ExcItem?): Option<int> {
    if top == null then None else Some(top.excValue)
  }

  /**
    A call of a compute's send, or of its close or throw, which push no item of their own:
    the calls made by the coroutine, and those made while an error is delivered.
  */
  datatype Call =
    | SendTo(item: ExcItem, nested: seq<Call>, raises: bool, exc: int, handler: seq<Call>)
    | CloseOrThrow(nested: seq<Call>, raises: bool, exc: int, handler: seq<Call>)

  /** Following `previous` from top visits exactly s and then ends. */
  ghost predicate IsChain(top: ExcItem?, s: seq<ExcItem>)
    reads s
    decreases |s|
  {
    if s == [] then top == null else top == s[0] && IsChain(s[0].previous, s[1..])
  }

  /**
    The items of the sends that happen, in this call and inside it; an error handler runs only
    if the coroutine raised.
  */
  ghost function Executed(c: Call): set<ExcItem>
    decreases c
  {
    (if c.SendTo? then {c.item} else {}) + ExecutedAll(c.nested) + if c.raises then ExecutedAll(c.handler) else {}
  }

  ghost function ExecutedAll(cs: seq<Call>): set<ExcItem>
    decreases cs
  {
    if cs == [] then {} else Executed(cs[0]) + ExecutedAll(cs[1..])
  }

  /**
    What user code should see: in a send the exception of that compute, while an error is
    delivered that error, and in close or throw what their caller saw.
  */
  ghost function Trace(c: Call, caller: Option<int>): seq<Option<int>>
    decreases c, 1
  {
    var inside := if c.SendTo? then Some(c.item.excValue) else caller;
    [inside] + TraceAll(c.nested, inside) +
    if c.raises then [Some(c.exc)] + TraceAll(c.handler, Some(c.exc)) else []
  }

  ghost function TraceAll(cs: seq<Call>, caller: Option<int>): seq<Option<int>>
    decreases cs, 0
  {
    if cs == [] then [] else Trace(cs[0], caller) + TraceAll(cs[1..], caller)
  }

  ghost function Elements(s: seq<ExcItem>): set<ExcItem> {
    set x | x in s
  }

  lemma {:induction false} ExecutedAllocated(c: Call)
    ensures forall x :: x in Executed(c) ==> allocated(x)
    decreases c, 1
  {
    AllExecutedAllocated(c.nested);
    AllExecutedAllocated(c.handler);
  }

  lemma {:induction false} AllExecutedAllocated(cs: seq<Call>)
    ensures forall x :: x in ExecutedAll(cs) ==> allocated(x)
    decreases cs, 0
  {
    if cs != [] {
      ExecutedAllocated(cs[0]);
      AllExecutedAllocated(cs[1..]);
    }
  }

  // ----- calls

  /**
    A call, with everything that happens inside it. All user code sees the exception it
    should, and exc_info is restored; each item that was pushed now points to the old top, to
    another pushed item or to one made on the C stack.
  */
  method Drive(t: Thread, c: Call)
    modifies t, Executed(c)
    ensures t.excInfo == old(t.excInfo)
    ensures t.seen == old(t.seen) + Trace(c, Current(old(t.excInfo)))
    ensures forall x :: x in Executed(c) ==>
      x.previous == old(t.excInfo) || x.previous in Executed(c) || (x.previous != null && fresh(x.previous))
    decreases c, 1
  {
    ExecutedAllocated(c);
    var saved := t.excInfo;
    if c.SendTo? {
      c.item.previous := saved;
      t.excInfo := c.item;
    }
    t.seen := t.seen + [Current(t.excInfo)];
    DriveAll(t, c.nested);
    if c.raises { DeliverError(t, c.exc, c.handler); }
    if c.SendTo? { t.excInfo := saved; }
    ghost var inside := if c.SendTo? then Some(c.item.excValue) else Current(saved);
    Regroup(old(t.seen), [inside], TraceAll(c.nested, inside),
      if c.raises then [Some(c.exc)] + TraceAll(c.handler, Some(c.exc)) else []);
  }

  lemma Regroup(a: seq<Option<int>>, b: seq<Option<int>>, c: seq<Option<int>>, d: seq<Option<int>>)
    ensures a + b + c + d == a + (b + c + d) && a + b + c + [] == a + b + c
  {
  }

  /** Pushes an item that lives on the C stack while the waiters are told. */
  method DeliverError(t: Thread, exc: int, handler: seq<Call>)
    modifies t, ExecutedAll(handler)
    ensures t.excInfo == old(t.excInfo)
    ensures t.seen == old(t.seen) + ([Some(exc)] + TraceAll(handler, Some(exc)))
    ensures forall x :: x in ExecutedAll(handler) ==>
      x.previous in ExecutedAll(handler) || (x.previous != null && fresh(x.previous))
    decreases handler, 1
  {
    AllExecutedAllocated(handler);
    var savedAgain := t.excInfo;
    var onStack := new ExcItem(exc, savedAgain);
    t.excInfo := onStack;
    t.seen := t.seen + [Current(t.excInfo)];
    DriveAll(t, handler);
    t.excInfo := savedAgain;
  }

  /** User code makes several calls, one after the other. */
  method DriveAll(t: Thread, cs: seq<Call>)
    modifies t, ExecutedAll(cs)
    ensures t.excInfo == old(t.excInfo)
    ensures t.seen == old(t.seen) + TraceAll(cs, Current(old(t.excInfo)))
    ensures forall x :: x in ExecutedAll(cs) ==>
      x.previous == old(t.excInfo) || x.previous in ExecutedAll(cs) || (x.previous != null && fresh(x.previous))
    decreases cs, 0
  {
    AllExecutedAllocated(cs);
    if cs != [] {
      Drive(t, cs[0]);
      DriveAll(t, cs[1..]);
    }
  }

  /**
    On exit from a call the thread's exc_info is what it was on entry, whatever was nested,
    including re-entrant sends and the error path that pushes a second item. The list below
    it is intact if and only if no send that happened was to a compute whose item was on it.
  */
  method Invoke(t: Thread, c: Call, ghost chain: seq<ExcItem>)
    modifies t, Executed(c)
    ensures t.excInfo == old(t.excInfo)
    ensures t.seen == old(t.seen) + Trace(c, Current(old(t.excInfo)))
    ensures old(IsChain(t.excInfo, chain)) ==> (IsChain(t.excInfo, chain) <==> Executed(c) !! Elements(chain))
  {
    ghost var top, wasChain := t.excInfo, IsChain(t.excInfo, chain);
    if wasChain { ChainIsDistinct(top, chain); }
    Drive(t, c);
    if wasChain && !(Executed(c) !! Elements(chain)) { RelinkedBreaks(top, chain, Executed(c)); }
  }

  /** The same for any sequence of calls made by user code. */
  method InvokeAll(t: Thread, cs: seq<Call>, ghost chain: seq<ExcItem>)
    modifies t, ExecutedAll(cs)
    ensures t.excInfo == old(t.excInfo)
    ensures t.seen == old(t.seen) + TraceAll(cs, Current(old(t.excInfo)))
    ensures old(IsChain(t.excInfo, chain)) ==> (IsChain(t.excInfo, chain) <==> ExecutedAll(cs) !! Elements(chain))
  {
    ghost var top, wasChain := t.excInfo, IsChain(t.excInfo, chain);
    if wasChain { ChainIsDistinct(top, chain); }
    DriveAll(t, cs);
    if wasChain && !(ExecutedAll(cs) !! Elements(chain)) { RelinkedBreaks(top, chain, ExecutedAll(cs)); }
  }

  lemma {:induction false} ChainIsDistinct(top: ExcItem?, s: seq<ExcItem>)
    requires IsChain(top, s)
    ensures forall i, j :: 0 <= i < j < |s| ==> s[i] != s[j]
    ensures s != [] ==> top == s[0]
  {
    forall i, j | 0 <= i < j < |s| ensures s[i] != s[j] {
      SuffixIsChain(top, s, i);
      SuffixIsChain(top, s, j);
      if s[i] == s[j] { ChainIsUnique(s[i], s[i..], s[j..]); }
    }
  }

  lemma {:induction false} SuffixIsChain(top: ExcItem?, s: seq<ExcItem>, i: nat)
    requires IsChain(top, s) && i < |s|
    ensures IsChain(s[i], s[i..])
    ensures s[i].previous == if i + 1 < |s| then s[i + 1] else null
    decreases i
  {
    if i > 0 {
      SuffixIsChain(s[0].previous, s[1..], i - 1);
      assert s[1..][i - 1..] == s[i..];
    }
  }

  lemma {:induction false} LastOf(s: seq<ExcItem>, items: set<ExcItem>) returns (i: nat)
    requires exists x :: x in items && x in s
    ensures i < |s| && s[i] in items && forall j :: i < j < |s| ==> s[j] !in items
    decreases |s|
  {
    i := |s| - 1;
    if s[i] !in items { i := LastOf(s[..i], items); }
  }

  /**
    Items were pushed, each onto the old top, onto another pushed item or onto a new one off
    the list. The deepest of them on the list then no longer points to its successor there.
  */
  lemma RelinkedBreaks(top: ExcItem?, s: seq<ExcItem>, items: set<ExcItem>)
    requires forall x :: x in items ==>
      x.previous == top || x.previous in items || (x.previous != null && x.previous !in s)
    requires !(items !! Elements(s)) && (s != [] ==> top == s[0])
    requires forall i, j :: 0 <= i < j < |s| ==> s[i] != s[j]
    ensures !IsChain(top, s)
  {
    var i := LastOf(s, items);
    if IsChain(top, s) { SuffixIsChain(top, s, i); }
  }

  // ----- one push

  lemma {:induction false} ChainIsUnique(top: ExcItem?, s: seq<ExcItem>, r: seq<ExcItem>)
    requires IsChain(top, s) && IsChain(top, r)
    ensures s == r
    decreases |s|
  {
    if s != [] && r != [] {
      ChainIsUnique(s[0].previous, s[1..], r[1..]);
    }
  }

  /** Following `previous` from top visits p and then arrives at last. */
  ghost predicate IsPath(top: ExcItem?, p: seq<ExcItem>, last: ExcItem)
    reads p
    decreases |p|
  {
    if p == [] then top == last else top == p[0] && IsPath(p[0].previous, p[1..], last)
  }

  lemma {:induction false} ChainHasPath(top: ExcItem?, s: seq<ExcItem>, x: ExcItem) returns (p: seq<ExcItem>)
    requires IsChain(top, s) && x in s
    ensures IsPath(top, p, x) && x !in p
    decreases |s|
  {
    if s[0] == x { return []; }
    var q := ChainHasPath(s[0].previous, s[1..], x);
    p := [s[0]] + q;
    assert p[1..] == q;
  }

  lemma {:induction false} PathIntoChain(top: ExcItem?, p: seq<ExcItem>, last: ExcItem, s: seq<ExcItem>)
    requires IsPath(top, p, last) && IsChain(top, s)
    ensures |p| < |s| && IsChain(last, s[|p|..])
    decreases |p|
  {
    if p == [] {
      assert s[0..] == s;
    } else {
      PathIntoChain(p[0].previous, p[1..], last, s[1..]);
      assert s[1..][|p| - 1..] == s[|p|..];
    }
  }

  /** An item reachable from itself starts no list. */
  lemma CycleHasNoChain(item: ExcItem, p: seq<ExcItem>, s: seq<ExcItem>)
    requires IsPath(item.previous, p, item)
    ensures !IsChain(item, s)
  {
    if IsChain(item, s) {
      PathIntoChain(item.previous, p, item, s[1..]);
      ChainIsUnique(item, s, s[1..][|p|..]);
    }
  }

  /**
    Pushing an item onto a well-formed list gives a well-formed list exactly when the item
    is not on it yet; re-entering a send in progress turns the list into a cycle, which no
    walk along `previous` ever leaves.
  */
  method Push(t: Thread, item: ExcItem, ghost chain: seq<ExcItem>)
    requires IsChain(t.excInfo, chain)
    modifies t, item
    ensures t.excInfo == item && item.previous == old(t.excInfo)
    ensures item !in chain ==> IsChain(item, [item] + chain)
    ensures item in chain ==> forall s :: !IsChain(item, s)
  {
    ghost var p := [];
    if item in chain {
      p := ChainHasPath(t.excInfo, chain, item);
    }
    item.previous := t.excInfo;
    t.excInfo := item;
    assert ([item] + chain)[1..] == chain;
    if item in chain {
      forall s ensures !IsChain(item, s) {
        CycleHasNoChain(item, p, s);
      }
    }
  }
}
